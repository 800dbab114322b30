/**
 * The outline flattener of the chapter splitter (`get_pdf_outline_info`).
 *
 * The document reader hands the bookmark outline over as a flat list in which a
 * nested list stands for the children of the bookmark just before it. The
 * flattener walks that list left to right, emits one record per bookmark whose
 * page lookup does not raise, joins ancestor titles into a path with " - ", and
 * descends into a child list only while the depth limit allows it.
 *
 * The reader's page lookup is replaced by the `Lookup` stored in each bookmark.
 */
module Outline {
  import opened Seqs

  datatype Option<T> = None | Some(value: T)

  /** What the reader's page lookup does for a bookmark's target:
      gives a page index, gives no page (None), or raises. */
  datatype Lookup = Page(index: int) | NoPage | Fails

  /** One element of an outline list: a bookmark, a nested list holding the
      children of the bookmark just before it, or anything else. */
  datatype Item = Dest(title: string, lookup: Lookup) | Sub(children: seq<Item>) | Other

  /** One emitted entry: title, page index (possibly none) and full path name. */
  datatype Record = Record(title: string, pageIndex: Option<int>, fullPath: string)

  const Separator: string := " - "

  /** The full path name of a bookmark titled `title` under `parent`. */
  function JoinPath(parent: string, title: string): string
  {
    if parent != "" then parent + Separator + title else title
  }

  function PageOf(lookup: Lookup): Option<int>
    requires !lookup.Fails?
  {
    if lookup.Page? then Some(lookup.index) else None
  }

  /** The depth test made before entering a child list: limit 0 means no limit. */
  predicate Descends(level: int, maxLevel: int)
  {
    maxLevel == 0 || level < maxLevel
  }

  /** The records the traversal emits for `outline`, read as the loop reads it:
      a bookmark looks ahead one element for its child list, and that list is
      consumed whether or not the depth limit lets the traversal enter it. A
      bookmark whose lookup raises emits nothing and consumes only itself, so a
      child list after it is met next as a non-bookmark and passed over. */
  function Flatten(outline: seq<Item>, level: int, maxLevel: int, parent: string): seq<Record>
    decreases outline
  {
    if outline == [] then []
    else if outline[0].Dest? && !outline[0].lookup.Fails? then
      var title := outline[0].title;
      var path := JoinPath(parent, title);
      var rec := Record(title, PageOf(outline[0].lookup), path);
      if |outline| > 1 && outline[1].Sub? then
        [rec]
        + (if Descends(level, maxLevel) then Flatten(outline[1].children, level + 1, maxLevel, path) else [])
        + Flatten(outline[2..], level, maxLevel, parent)
      else
        [rec] + Flatten(outline[1..], level, maxLevel, parent)
    else
      Flatten(outline[1..], level, maxLevel, parent)
  }

  /** The flattener itself: an index loop that bumps `i` a second time to step
      over a child list, appending records and the records of recursive calls.
      The root call passes level 2 and an empty parent path. */
  method GetOutlineInfo(outline: seq<Item>, currentLevel: int, maxLevel: int, parentPath: string)
    returns (info: seq<Record>)
    decreases outline
    ensures info == Flatten(outline, currentLevel, maxLevel, parentPath)
  {
    info := [];
    var i := 0;
    while i < |outline|
      invariant 0 <= i <= |outline|
      invariant info + Flatten(outline[i..], currentLevel, maxLevel, parentPath)
             == Flatten(outline, currentLevel, maxLevel, parentPath)
    {
      var item := outline[i];
      ghost var done := info;
      if item.Dest? {
        var title := item.title;
        var fullPathName := JoinPath(parentPath, title);
        if item.lookup.Fails? {
          // the lookup raised: a warning is printed and the bookmark is skipped
          StepSkip(outline, i, currentLevel, maxLevel, parentPath, done);
        } else {
          var rec := Record(title, PageOf(item.lookup), fullPathName);
          info := info + [rec];
          if i + 1 < |outline| && outline[i + 1].Sub? {
            ghost var below: seq<Record> := [];
            if Descends(currentLevel, maxLevel) {
              var sub := GetOutlineInfo(outline[i + 1].children, currentLevel + 1, maxLevel, fullPathName);
              info := info + sub;
              below := sub;
            }
            StepChildList(outline, i, currentLevel, maxLevel, parentPath, done, below);
            i := i + 1;
          } else {
            StepLeaf(outline, i, currentLevel, maxLevel, parentPath, done);
          }
        }
      } else {
        StepSkip(outline, i, currentLevel, maxLevel, parentPath, done);
      }
      i := i + 1;
    }
  }

  /** One step of the loop: what `Flatten` gives for the suffix starting at `i`. */
  lemma FlattenAt(outline: seq<Item>, i: nat, level: int, maxLevel: int, parent: string)
    requires i < |outline|
    ensures outline[i].Dest? && !outline[i].lookup.Fails? && i + 1 < |outline| && outline[i + 1].Sub? ==>
              var path := JoinPath(parent, outline[i].title);
              Flatten(outline[i..], level, maxLevel, parent)
              == [Record(outline[i].title, PageOf(outline[i].lookup), path)]
                 + (if Descends(level, maxLevel) then Flatten(outline[i + 1].children, level + 1, maxLevel, path) else [])
                 + Flatten(outline[i + 2..], level, maxLevel, parent)
    ensures outline[i].Dest? && !outline[i].lookup.Fails? && !(i + 1 < |outline| && outline[i + 1].Sub?) ==>
              Flatten(outline[i..], level, maxLevel, parent)
              == [Record(outline[i].title, PageOf(outline[i].lookup), JoinPath(parent, outline[i].title))]
                 + Flatten(outline[i + 1..], level, maxLevel, parent)
    ensures !(outline[i].Dest? && !outline[i].lookup.Fails?) ==>
              Flatten(outline[i..], level, maxLevel, parent) == Flatten(outline[i + 1..], level, maxLevel, parent)
  {
    var s := outline[i..];
    assert s[0] == outline[i] && s[1..] == outline[i + 1..];
    if i + 1 < |outline| {
      assert s[1] == outline[i + 1] && s[2..] == outline[i + 2..];
    }
  }

  /** The loop invariant across a bookmark that owns a child list. */
  lemma StepChildList(outline: seq<Item>, i: nat, level: int, maxLevel: int, parent: string,
                      done: seq<Record>, below: seq<Record>)
    requires i + 1 < |outline| && outline[i].Dest? && !outline[i].lookup.Fails? && outline[i + 1].Sub?
    requires below == if Descends(level, maxLevel)
                      then Flatten(outline[i + 1].children, level + 1, maxLevel, JoinPath(parent, outline[i].title))
                      else []
    requires done + Flatten(outline[i..], level, maxLevel, parent) == Flatten(outline, level, maxLevel, parent)
    ensures done + [Record(outline[i].title, PageOf(outline[i].lookup), JoinPath(parent, outline[i].title))] + below
              + Flatten(outline[i + 2..], level, maxLevel, parent)
            == Flatten(outline, level, maxLevel, parent)
  {
    FlattenAt(outline, i, level, maxLevel, parent);
  }

  /** The loop invariant across a bookmark without a child list. */
  lemma StepLeaf(outline: seq<Item>, i: nat, level: int, maxLevel: int, parent: string, done: seq<Record>)
    requires i < |outline| && outline[i].Dest? && !outline[i].lookup.Fails?
    requires !(i + 1 < |outline| && outline[i + 1].Sub?)
    requires done + Flatten(outline[i..], level, maxLevel, parent) == Flatten(outline, level, maxLevel, parent)
    ensures done + [Record(outline[i].title, PageOf(outline[i].lookup), JoinPath(parent, outline[i].title))]
              + Flatten(outline[i + 1..], level, maxLevel, parent)
            == Flatten(outline, level, maxLevel, parent)
  {
    FlattenAt(outline, i, level, maxLevel, parent);
  }

  /** The loop invariant across an element that emits nothing. */
  lemma StepSkip(outline: seq<Item>, i: nat, level: int, maxLevel: int, parent: string, done: seq<Record>)
    requires i < |outline| && !(outline[i].Dest? && !outline[i].lookup.Fails?)
    requires done + Flatten(outline[i..], level, maxLevel, parent) == Flatten(outline, level, maxLevel, parent)
    ensures done + Flatten(outline[i + 1..], level, maxLevel, parent) == Flatten(outline, level, maxLevel, parent)
  {
    FlattenAt(outline, i, level, maxLevel, parent);
  }

  // ---------------------------------------------------------------------------
  // Reference semantics: the outline as an explicit tree
  // ---------------------------------------------------------------------------

  /** A bookmark together with its children. */
  datatype Node = Node(title: string, lookup: Lookup, children: seq<Node>)

  /** Reads the flat encoding as a tree: a bookmark followed by a nested list owns
      that list as its children; a nested list or other element not directly
      after a bookmark belongs to nobody and is dropped. */
  function Parse(outline: seq<Item>): seq<Node>
    decreases outline
  {
    if outline == [] then []
    else if outline[0].Dest? then
      if |outline| > 1 && outline[1].Sub? then
        [Node(outline[0].title, outline[0].lookup, Parse(outline[1].children))] + Parse(outline[2..])
      else
        [Node(outline[0].title, outline[0].lookup, [])] + Parse(outline[1..])
    else
      Parse(outline[1..])
  }

  /** Pre-order listing of a forest: each bookmark, then its subtree, then its
      next sibling. A bookmark whose lookup raises is dropped with its subtree. */
  function PreOrder(nodes: seq<Node>, parent: string): seq<Record>
    decreases nodes
  {
    if nodes == [] then []
    else
      var n := nodes[0];
      var path := JoinPath(parent, n.title);
      (if n.lookup.Fails? then [] else [Record(n.title, PageOf(n.lookup), path)] + PreOrder(n.children, path))
      + PreOrder(nodes[1..], parent)
  }

  /** The top `levels` levels of a forest. */
  function Prune(nodes: seq<Node>, levels: nat): seq<Node>
    requires levels >= 1
    decreases nodes
  {
    if nodes == [] then []
    else
      var n := nodes[0];
      [Node(n.title, n.lookup, if levels == 1 then [] else Prune(n.children, levels - 1))]
      + Prune(nodes[1..], levels)
  }

  /** How many levels a traversal entered at `level` shows under a nonzero limit. */
  function LevelsShown(level: int, maxLevel: int): nat
  {
    if level < maxLevel then maxLevel - level + 1 else 1
  }

  /** The part of a forest a traversal entered at `level` shows. */
  function Shown(nodes: seq<Node>, level: int, maxLevel: int): seq<Node>
  {
    if maxLevel == 0 then nodes else Prune(nodes, LevelsShown(level, maxLevel))
  }

  lemma PreOrderCons(n: Node, rest: seq<Node>, parent: string)
    ensures PreOrder([n] + rest, parent)
         == (if n.lookup.Fails? then []
             else [Record(n.title, PageOf(n.lookup), JoinPath(parent, n.title))]
                  + PreOrder(n.children, JoinPath(parent, n.title)))
            + PreOrder(rest, parent)
  {
    assert ([n] + rest)[0] == n && ([n] + rest)[1..] == rest;
  }

  lemma ShownCons(n: Node, rest: seq<Node>, level: int, maxLevel: int)
    ensures Shown([n] + rest, level, maxLevel)
         == [Node(n.title, n.lookup,
                  if Descends(level, maxLevel) then Shown(n.children, level + 1, maxLevel) else [])]
            + Shown(rest, level, maxLevel)
  {
    assert ([n] + rest)[0] == n && ([n] + rest)[1..] == rest;
  }

  /** The positional loop computes exactly the pre-order listing of the tree the
      outline encodes, cut to the levels the limit shows. */
  lemma {:induction false} FlattenIsPreOrder(outline: seq<Item>, level: int, maxLevel: int, parent: string)
    ensures Flatten(outline, level, maxLevel, parent) == PreOrder(Shown(Parse(outline), level, maxLevel), parent)
    decreases outline
  {
    if outline == [] {
    } else if outline[0].Dest? {
      var d := outline[0];
      var path := JoinPath(parent, d.title);
      if |outline| > 1 && outline[1].Sub? {
        var kids := outline[1].children;
        var n := Node(d.title, d.lookup, Parse(kids));
        FlattenIsPreOrder(outline[2..], level, maxLevel, parent);
        ShownCons(n, Parse(outline[2..]), level, maxLevel);
        var m := Node(d.title, d.lookup,
                      if Descends(level, maxLevel) then Shown(Parse(kids), level + 1, maxLevel) else []);
        PreOrderCons(m, Shown(Parse(outline[2..]), level, maxLevel), parent);
        if d.lookup.Fails? {
          assert outline[1..][0] == outline[1] && outline[1..][1..] == outline[2..];
        } else if Descends(level, maxLevel) {
          FlattenIsPreOrder(kids, level + 1, maxLevel, path);
        }
      } else {
        var n := Node(d.title, d.lookup, []);
        FlattenIsPreOrder(outline[1..], level, maxLevel, parent);
        ShownCons(n, Parse(outline[1..]), level, maxLevel);
        var m := Node(d.title, d.lookup, []);
        assert Shown([], level + 1, maxLevel) == [];
        PreOrderCons(m, Shown(Parse(outline[1..]), level, maxLevel), parent);
      }
    } else {
      FlattenIsPreOrder(outline[1..], level, maxLevel, parent);
    }
  }

  /** The depth convention as written: the root call sits at level 2 and tests
      `level < maxLevel`, so limits 1 and 2 both show the top level only, and a
      limit L >= 3 shows L - 1 levels. Limit 0 shows everything. */
  lemma RootDepth(outline: seq<Item>, maxLevel: int)
    ensures maxLevel == 0 ==> Flatten(outline, 2, maxLevel, "") == PreOrder(Parse(outline), "")
    ensures maxLevel != 0 ==>
              Flatten(outline, 2, maxLevel, "")
              == PreOrder(Prune(Parse(outline), if maxLevel <= 2 then 1 else maxLevel - 1), "")
  {
    FlattenIsPreOrder(outline, 2, maxLevel, "");
  }

  /** Limits 1 and 2 select the same records. */
  lemma LevelOneEqualsLevelTwo(outline: seq<Item>)
    ensures Flatten(outline, 2, 1, "") == Flatten(outline, 2, 2, "")
  {
    RootDepth(outline, 1);
    RootDepth(outline, 2);
  }

  // ---------------------------------------------------------------------------
  // Paths
  // ---------------------------------------------------------------------------

  /** `path` lies below `parent`: every path lies below the empty path, and
      otherwise `path` starts with the parent's path followed by the separator. */
  predicate Under(parent: string, path: string)
  {
    parent == "" || parent + Separator <= path
  }

  predicate EndsWith(path: string, title: string)
  {
    |title| <= |path| && path[|path| - |title|..] == title
  }

  lemma JoinPathShape(parent: string, title: string)
    ensures Under(parent, JoinPath(parent, title))
    ensures EndsWith(JoinPath(parent, title), title)
  {
    if parent != "" {
      var p := parent + Separator + title;
      assert p[..|parent + Separator|] == parent + Separator;
      assert p[|p| - |title|..] == title;
    }
  }

  lemma UnderTrans(a: string, b: string, c: string)
    requires Under(a, b) && b != "" && Under(b, c)
    ensures Under(a, c)
  {
    if a != "" {
      assert b + Separator <= c;
      assert (a + Separator) <= b;
      assert c[..|a + Separator|] == b[..|a + Separator|];
    }
  }

  /** Every record's full path ends with its own title and lies below the
      parent path the traversal started from. */
  lemma {:induction false} PathsUnderParent(outline: seq<Item>, level: int, maxLevel: int, parent: string)
    ensures forall r :: r in Flatten(outline, level, maxLevel, parent) ==> Under(parent, r.fullPath) && EndsWith(r.fullPath, r.title)
    decreases outline
  {
    if outline != [] {
      FlattenHead(outline, level, maxLevel, parent);
      PathsUnderParent(outline[HeadLength(outline)..], level, maxLevel, parent);
      if outline[0].Dest? && !outline[0].lookup.Fails? {
        var title := outline[0].title;
        var path := JoinPath(parent, title);
        JoinPathShape(parent, title);
        if |outline| > 1 && outline[1].Sub? && Descends(level, maxLevel) {
          var kids := outline[1].children;
          PathsUnderParent(kids, level + 1, maxLevel, path);
          if parent != "" {
            forall r | r in Flatten(kids, level + 1, maxLevel, path)
              ensures Under(parent, r.fullPath)
            {
              UnderTrans(parent, path, r.fullPath);
            }
          }
        }
      }
    }
  }

  /** When the limit keeps the root from descending (limits 1 and 2, or any
      negative one), every full path equals its bookmark's own title. */
  lemma {:induction false} TopLevelPathsAreTitles(outline: seq<Item>, maxLevel: int)
    requires maxLevel != 0 && maxLevel <= 2
    ensures forall r :: r in Flatten(outline, 2, maxLevel, "") ==> r.fullPath == r.title
    decreases outline
  {
    if outline == [] {
    } else if outline[0].Dest? && !outline[0].lookup.Fails? {
      if |outline| > 1 && outline[1].Sub? {
        TopLevelPathsAreTitles(outline[2..], maxLevel);
      } else {
        TopLevelPathsAreTitles(outline[1..], maxLevel);
      }
    } else {
      TopLevelPathsAreTitles(outline[1..], maxLevel);
    }
  }

  // ---------------------------------------------------------------------------
  // Locality of the traversal
  // ---------------------------------------------------------------------------

  /** How many items the traversal consumes at the front of `s`: a bookmark
      that is emitted takes its child list with it. */
  function HeadLength(s: seq<Item>): nat
    requires s != []
  {
    if s[0].Dest? && !s[0].lookup.Fails? && |s| > 1 && s[1].Sub? then 2 else 1
  }

  /** The records the traversal produces for the front of `s`. */
  function HeadRecords(s: seq<Item>, level: int, maxLevel: int, parent: string): seq<Record>
    requires s != []
  {
    if s[0].Dest? && !s[0].lookup.Fails? then
      var path := JoinPath(parent, s[0].title);
      [Record(s[0].title, PageOf(s[0].lookup), path)]
      + (if |s| > 1 && s[1].Sub? && Descends(level, maxLevel)
         then Flatten(s[1].children, level + 1, maxLevel, path) else [])
    else []
  }

  lemma FlattenHead(s: seq<Item>, level: int, maxLevel: int, parent: string)
    requires s != []
    ensures HeadLength(s) <= |s|
    ensures Flatten(s, level, maxLevel, parent)
            == HeadRecords(s, level, maxLevel, parent) + Flatten(s[HeadLength(s)..], level, maxLevel, parent)
  {
    if s[0].Dest? && !s[0].lookup.Fails? && !(|s| > 1 && s[1].Sub?) {
      var path := JoinPath(parent, s[0].title);
      assert HeadRecords(s, level, maxLevel, parent) == [Record(s[0].title, PageOf(s[0].lookup), path)] + [];
    }
  }

  /** Splitting an outline anywhere except between a bookmark and its child
      list splits the output at the same place. */
  lemma {:induction false} FlattenConcat(a: seq<Item>, b: seq<Item>, level: int, maxLevel: int, parent: string)
    requires !(a != [] && a[|a| - 1].Dest? && b != [] && b[0].Sub?)
    ensures Flatten(a + b, level, maxLevel, parent) == Flatten(a, level, maxLevel, parent) + Flatten(b, level, maxLevel, parent)
    decreases a
  {
    if a == [] {
      assert a + b == b;
    } else {
      var ab := a + b;
      assert ab[0] == a[0];
      if |a| > 1 {
        assert ab[1] == a[1];
      }
      var n := HeadLength(a);
      FlattenHead(a, level, maxLevel, parent);
      FlattenHead(ab, level, maxLevel, parent);
      assert HeadLength(ab) == n;
      assert HeadRecords(ab, level, maxLevel, parent) == HeadRecords(a, level, maxLevel, parent);
      var rest := a[n..];
      DropConcat(a, b, n);
      assert rest != [] ==> rest[|rest| - 1] == a[|a| - 1];
      FlattenConcat(rest, b, level, maxLevel, parent);
      AppendAssoc(HeadRecords(a, level, maxLevel, parent), Flatten(a[n..], level, maxLevel, parent),
                   Flatten(b, level, maxLevel, parent));
    }
  }

  /** A bookmark whose lookup succeeds or yields no page is emitted where it
      stands, followed at once by the records of its child list (when the depth
      limit allows), and then by whatever follows; its child list is consumed
      either way and never read as a sibling. */
  lemma EntryInPlace(a: seq<Item>, title: string, lookup: Lookup, b: seq<Item>,
                     level: int, maxLevel: int, parent: string)
    requires !lookup.Fails?
    ensures var path := JoinPath(parent, title);
            Flatten(a + [Dest(title, lookup)] + b, level, maxLevel, parent)
            == Flatten(a, level, maxLevel, parent)
               + [Record(title, PageOf(lookup), path)]
               + (if b != [] && b[0].Sub? then
                    (if Descends(level, maxLevel) then Flatten(b[0].children, level + 1, maxLevel, path) else [])
                    + Flatten(b[1..], level, maxLevel, parent)
                  else Flatten(b, level, maxLevel, parent))
  {
    var d := Dest(title, lookup);
    var x := [d] + b;
    assert a + [d] + b == a + x;
    FlattenConcat(a, x, level, maxLevel, parent);
    FlattenHead(x, level, maxLevel, parent);
    assert x[0] == d;
    var prefix := Flatten(a, level, maxLevel, parent);
    var rec := Record(title, PageOf(lookup), JoinPath(parent, title));
    if b != [] && b[0].Sub? {
      assert x[1] == b[0] && x[2..] == b[1..];
      var below := if Descends(level, maxLevel)
                   then Flatten(b[0].children, level + 1, maxLevel, JoinPath(parent, title)) else [];
      var after := Flatten(b[1..], level, maxLevel, parent);
      assert HeadRecords(x, level, maxLevel, parent) == [rec] + below;
      AppendAssoc([rec], below, after);
      AppendAssoc(prefix, [rec], below + after);
    } else {
      if b != [] {
        assert x[1] == b[0];
      }
      assert x[1..] == b;
      assert HeadRecords(x, level, maxLevel, parent) == [rec];
      AppendAssoc(prefix, [rec], Flatten(b, level, maxLevel, parent));
    }
  }

  /** A bookmark whose lookup raises produces no record, its child list is
      passed over too, and the records around it are unaffected. */
  lemma FailedLookupSkipped(a: seq<Item>, title: string, b: seq<Item>,
                            level: int, maxLevel: int, parent: string)
    ensures Flatten(a + [Dest(title, Fails)] + b, level, maxLevel, parent)
            == Flatten(a, level, maxLevel, parent)
               + Flatten(if b != [] && b[0].Sub? then b[1..] else b, level, maxLevel, parent)
  {
    var x := [Dest(title, Fails)] + b;
    assert a + [Dest(title, Fails)] + b == a + x;
    FlattenConcat(a, x, level, maxLevel, parent);
    assert x[1..] == b;
  }
}
