/**
 * The catalog pane: the rows the bookmark list shows (parse_book_marks_item),
 * each a label and the index path that selects it, and the page number a
 * jump-to-page buffer displays.
 */
module Catalog {
  import opened Wrappers
  import opened Text
  import opened BookMarks

  /** One row of the list: the text shown and the index path of its bookmark. */
  datatype Row = Row(text: string, path: Path)

  /** The marker after an expanded node's name. */
  const ExpandedMarker: string := " \U{25BC}"
  /** The marker after a collapsed node's name when it has children. */
  const CollapsedMarker: string := " \U{25B6}"

  /** A row's text: the node's indentation, its name and its marker. */
  function Label(bm: BookMark): string
  {
    Spaces(bm.hierarchy) + bm.name +
    (if bm.subShow then ExpandedMarker else if bm.sub != [] then CollapsedMarker else "")
  }

  /**
   * A row's text is one space per level of the node, its name, then the
   * marker " ▼" when it is expanded, " ▶" when it is collapsed but has
   * children, and nothing for a leaf.
   */
  lemma LabelLayout(bm: BookMark)
    ensures var s := Label(bm);
            |s| >= bm.hierarchy + |bm.name| &&
            (forall k :: 0 <= k < bm.hierarchy ==> s[k] == ' ') &&
            s[bm.hierarchy..bm.hierarchy + |bm.name|] == bm.name
    ensures var tail := Label(bm)[bm.hierarchy + |bm.name|..];
            (bm.subShow ==> tail == ExpandedMarker) &&
            (!bm.subShow && bm.sub != [] ==> tail == CollapsedMarker) &&
            (!bm.subShow && bm.sub == [] ==> tail == "")
  {
    var s := Label(bm);
    var marker := if bm.subShow then ExpandedMarker else if bm.sub != [] then CollapsedMarker else "";
    assert s == Spaces(bm.hierarchy) + bm.name + marker;
    assert s[bm.hierarchy..bm.hierarchy + |bm.name|] == bm.name;
    assert s[bm.hierarchy + |bm.name|..] == marker;
  }

  /** How many of the nodes are shown. */
  function ShownCount(bms: seq<BookMark>): (n: nat)
    ensures n <= |bms|
  {
    if bms == [] then 0
    else ShownCount(bms[..|bms| - 1]) + (if bms[|bms| - 1].show then 1 else 0)
  }

  /**
   * The rows of a list of sibling nodes whose parent row has the path
   * `prefix`: each shown node, in order, gives its own row, whose last index
   * counts the shown siblings before it, followed by the rows of its
   * children; a hidden node and everything under it give no row.
   */
  function Rows(bms: seq<BookMark>, prefix: Path): seq<Row>
    decreases bms
  {
    if bms == [] then []
    else
      var i := |bms| - 1;
      var bm := bms[i];
      Rows(bms[..i], prefix) +
      (if !bm.show then []
       else
         var path := prefix + [ShownCount(bms[..i])];
         [Row(Label(bm), path)] + Rows(bm.sub, path))
  }

  /** The texts of the rows, in order. */
  function Labels(rows: seq<Row>): (r: seq<string>)
    ensures |r| == |rows| && forall k :: 0 <= k < |rows| ==> r[k] == rows[k].text
  {
    seq(|rows|, k requires 0 <= k < |rows| => rows[k].text)
  }

  /** The paths of the rows, in order. */
  function Paths(rows: seq<Row>): (r: seq<Path>)
    ensures |r| == |rows| && forall k :: 0 <= k < |rows| ==> r[k] == rows[k].path
  {
    seq(|rows|, k requires 0 <= k < |rows| => rows[k].path)
  }

  lemma ProjectAppend(a: seq<Row>, b: seq<Row>)
    ensures Labels(a + b) == Labels(a) + Labels(b)
    ensures Paths(a + b) == Paths(a) + Paths(b)
  {
  }

  lemma Regroup<T>(a: seq<T>, b: seq<T>, x: T, c: seq<T>)
    ensures a + b + [x] + c == a + (b + [x] + c)
  {
  }

  /** A hidden sibling adds no row and is not counted. */
  lemma RowsHidden(bms: seq<BookMark>, i: nat, prefix: Path)
    requires i < |bms| && !bms[i].show
    ensures Rows(bms[..i + 1], prefix) == Rows(bms[..i], prefix)
    ensures ShownCount(bms[..i + 1]) == ShownCount(bms[..i])
  {
    assert bms[..i + 1][..i] == bms[..i];
  }

  /**
   * A shown sibling adds its own row, at the path that extends the parent's
   * by the count of shown siblings before it, then the rows of its children;
   * and it is counted.
   */
  lemma RowsShown(bms: seq<BookMark>, i: nat, prefix: Path)
    requires i < |bms| && bms[i].show
    ensures var path := prefix + [ShownCount(bms[..i])];
            var below := Rows(bms[i].sub, path);
            && Labels(Rows(bms[..i + 1], prefix)) == Labels(Rows(bms[..i], prefix)) + [Label(bms[i])] + Labels(below)
            && Paths(Rows(bms[..i + 1], prefix)) == Paths(Rows(bms[..i], prefix)) + [path] + Paths(below)
    ensures ShownCount(bms[..i + 1]) == ShownCount(bms[..i]) + 1
  {
    assert bms[..i + 1][..i] == bms[..i];
    var path := prefix + [ShownCount(bms[..i])];
    var before := Rows(bms[..i], prefix);
    var own := [Row(Label(bms[i]), path)];
    var below := Rows(bms[i].sub, path);
    assert Rows(bms[..i + 1], prefix) == before + own + below;
    assert Labels(own) == [Label(bms[i])] && Paths(own) == [path] by {
      assert own[..0] == [];
    }
    ProjectAppend(before + own, below);
    ProjectAppend(before, own);
  }

  /**
   * parse_book_marks_item: walk the siblings with a counter of the shown ones;
   * skip a hidden node; for a shown one, push the counter onto the current
   * path, push its label and a copy of the path, recurse into its children if
   * it has any, count it, and pop the path again.
   *
   * Labels and paths are appended in lockstep, one of each per row, and the
   * current path comes back as it was passed.
   */
  method ParseBookMarksItem(bms: seq<BookMark>, items: seq<string>, indexVec: seq<Path>, curIndex: Path)
    returns (items': seq<string>, indexVec': seq<Path>, curIndex': Path)
    ensures items' == items + Labels(Rows(bms, curIndex))
    ensures indexVec' == indexVec + Paths(Rows(bms, curIndex))
    ensures curIndex' == curIndex
    decreases bms
  {
    items', indexVec', curIndex' := items, indexVec, curIndex;
    var index := 0;
    for i := 0 to |bms|
      invariant index == ShownCount(bms[..i])
      invariant curIndex' == curIndex
      invariant items' == items + Labels(Rows(bms[..i], curIndex))
      invariant indexVec' == indexVec + Paths(Rows(bms[..i], curIndex))
    {
      var bm := bms[i];
      if !bm.show {
        RowsHidden(bms, i, curIndex);
        continue;
      }
      RowsShown(bms, i, curIndex);
      ghost var before, below := Rows(bms[..i], curIndex), Rows(bm.sub, curIndex + [index]);
      curIndex' := curIndex' + [index];
      var subSymbol := if bm.subShow then ExpandedMarker else if !(bm.sub == []) then CollapsedMarker else "";
      var item := Spaces(bm.hierarchy) + bm.name + subSymbol;
      assert item == Label(bm);
      items' := items' + [item];
      indexVec' := indexVec' + [curIndex'];
      if bm.sub != [] {
        items', indexVec', curIndex' := ParseBookMarksItem(bm.sub, items', indexVec', curIndex');
      } else {
        assert below == [];
      }
      Regroup(items, Labels(before), item, Labels(below));
      Regroup(indexVec, Paths(before), curIndex + [index], Paths(below));
      index := index + 1;
      curIndex' := curIndex'[..|curIndex'| - 1];
    }
    assert bms[..|bms|] == bms;
  }

  /** The node at `t` exists, and it and every node above it are shown. */
  predicate VisibleAt(bms: seq<BookMark>, t: Path)
    decreases t
  {
    |t| > 0 && t[0] < |bms| && bms[t[0]].show && (|t| == 1 || VisibleAt(bms[t[0]].sub, t[1..]))
  }

  /** Every node of an initial run of shown siblings is counted. */
  lemma {:induction false} ShownCountAll(bms: seq<BookMark>)
    requires AllShown(bms)
    ensures ShownCount(bms) == |bms|
    decreases |bms|
  {
    if bms != [] {
      ShownCountAll(bms[..|bms| - 1]);
    }
  }

  /** When siblings are shown together, a shown node's counter is its index. */
  lemma UniformCount(bms: seq<BookMark>, i: nat)
    requires Uniform(bms) && i < |bms| && bms[i].show
    ensures ShownCount(bms[..i]) == i
  {
    ShownCountAll(bms[..i]);
  }

  /** Visibility in a list only depends on the siblings up to the first index. */
  lemma VisibleAtInit(bms: seq<BookMark>, k: nat, t: Path)
    requires k <= |bms| && |t| > 0 && t[0] < k
    ensures VisibleAt(bms[..k], t) == VisibleAt(bms, t)
    ensures NodeAt(bms[..k], t) == NodeAt(bms, t)
  {
  }

  /** A row's path starts with the parent's path; what follows is the row's node below it. */
  predicate RowOf(bms: seq<BookMark>, prefix: Path, row: Row)
  {
    |row.path| > |prefix| && row.path[..|prefix|] == prefix &&
    var t := row.path[|prefix|..];
    ValidPath(bms, t) && VisibleAt(bms, t) && row.text == Label(NodeAt(bms, t).value)
  }

  /**
   * When siblings are shown together, every row is a visible node, addressed
   * by its own index path in the tree, and labelled with that node's label.
   */
  lemma {:induction false} RowsSound(bms: seq<BookMark>, prefix: Path)
    requires Uniform(bms)
    ensures forall j :: 0 <= j < |Rows(bms, prefix)| ==> RowOf(bms, prefix, Rows(bms, prefix)[j])
    decreases bms
  {
    if bms != [] {
      var i := |bms| - 1;
      var bm := bms[i];
      var left := Rows(bms[..i], prefix);
      RowsSound(bms[..i], prefix);
      forall j | 0 <= j < |left| ensures RowOf(bms, prefix, left[j]) {
        var t := left[j].path[|prefix|..];
        VisibleAtInit(bms, i, t);
      }
      if bm.show {
        UniformCount(bms, i);
        var path := prefix + [i];
        var own := [Row(Label(bm), path)];
        var below := Rows(bm.sub, path);
        assert Rows(bms, prefix) == left + own + below;
        assert path[|prefix|..] == [i];
        assert RowOf(bms, prefix, own[0]);
        if bm.sub != [] {
          RowsSound(bm.sub, path);
          forall j | 0 <= j < |below| ensures RowOf(bms, prefix, below[j]) {
            var row := below[j];
            var rest := row.path[|path|..];
            assert row.path[..|path|] == path;
            assert row.path[|prefix|..] == [i] + rest;
            assert ([i] + rest)[1..] == rest;
          }
        }
      } else {
        assert Rows(bms, prefix) == left;
      }
    }
  }

  /**
   * When siblings are shown together, every visible node has a row: a node is
   * listed exactly when it and all the nodes above it are shown, whatever
   * their `subShow`.
   */
  lemma {:induction false} RowsComplete(bms: seq<BookMark>, prefix: Path, t: Path)
    requires Uniform(bms) && VisibleAt(bms, t)
    ensures prefix + t in Paths(Rows(bms, prefix))
    decreases bms
  {
    var i := |bms| - 1;
    var bm := bms[i];
    assert bms[..i + 1] == bms;
    if t[0] < i {
      VisibleAtInit(bms, i, t);
      RowsComplete(bms[..i], prefix, t);
      RowsShown(bms, i, prefix);
    } else {
      RowsShown(bms, i, prefix);
      UniformCount(bms, i);
      if |t| == 1 {
        assert t == [i];
      } else {
        assert t[0] == i;
        RowsComplete(bm.sub, prefix + [i], t[1..]);
        PathSplit(prefix, t);
      }
    }
  }

  /**
   * The number a jump-to-page buffer shows: its value when it parses as a
   * `u32`, and 0 otherwise.
   */
  function JumpPageNumber(buffer: string): (n: U32)
    ensures ParseU32(buffer).Some? ==> n == ParseU32(buffer).value
    ensures ParseU32(buffer).None? ==> n == 0
  {
    match ParseU32(buffer)
    case Some(v) => v
    case None => 0
  }

  /** A buffer holding the decimal form of a page shows that page. */
  lemma JumpPageRoundTrip(n: U32)
    ensures JumpPageNumber(Decimal(n)) == n
  {
    ParseDecimal(n);
  }
}
