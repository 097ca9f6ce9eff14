/**
 * The flat list of leaf bookmarks (map_book_marks_pages): the nodes without
 * children, as paths into the tree, in left-to-right preorder.
 */
module Leaves {
  import opened Wrappers
  import opened Text
  import opened BookMarks

  /** The node at `q` exists and has no children. */
  predicate IsLeaf(bms: seq<BookMark>, q: Path)
  {
    ValidPath(bms, q) && NodeAt(bms, q).value.sub == []
  }

  /**
   * The leaves of `bms` in left-to-right preorder, each as `prefix` followed
   * by its path in `bms`: the leaves of all earlier siblings first, then the
   * last node itself when it has no children, or else its own leaves.
   */
  function LeafPaths(bms: seq<BookMark>, prefix: Path): seq<Path>
    decreases bms
  {
    if bms == [] then []
    else
      var i := |bms| - 1;
      LeafPaths(bms[..i], prefix) +
      (if bms[i].sub == [] then [prefix + [i]] else LeafPaths(bms[i].sub, prefix + [i]))
  }

  /**
   * The strict preorder on paths: `a` comes before `b` when it is a proper
   * prefix of `b` (an ancestor) or when it has the smaller index where the two
   * first differ (further left).
   */
  predicate Precedes(a: Path, b: Path)
    decreases |a|
  {
    |b| > 0 && (|a| == 0 || a[0] < b[0] || (a[0] == b[0] && Precedes(a[1..], b[1..])))
  }

  /** Every path of the list comes before every later one. */
  predicate InPreorder(paths: seq<Path>)
  {
    forall i, j :: 0 <= i < j < |paths| ==> Precedes(paths[i], paths[j])
  }

  lemma {:induction false} PrecedesShift(prefix: Path, a: Path, b: Path)
    ensures Precedes(prefix + a, prefix + b) == Precedes(a, b)
    decreases |prefix|
  {
    if |prefix| > 0 {
      assert (prefix + a)[0] == prefix[0] == (prefix + b)[0];
      assert (prefix + a)[1..] == prefix[1..] + a;
      assert (prefix + b)[1..] == prefix[1..] + b;
      PrecedesShift(prefix[1..], a, b);
    } else {
      assert prefix + a == a && prefix + b == b;
    }
  }

  /** A node of an initial segment of a forest is the node of the forest. */
  lemma NodeAtInit(bms: seq<BookMark>, k: nat, q: Path)
    requires k <= |bms| && |q| > 0 && q[0] < k
    ensures NodeAt(bms[..k], q) == NodeAt(bms, q)
  {
  }

  /** Every path of `paths` is `prefix` followed by the path of a leaf of `bms`. */
  predicate LeavesBelow(paths: seq<Path>, bms: seq<BookMark>, prefix: Path)
  {
    forall j :: 0 <= j < |paths| ==>
      |paths[j]| > |prefix| && paths[j][..|prefix|] == prefix && IsLeaf(bms, paths[j][|prefix|..])
  }

  /** Every listed path is `prefix` followed by the path of a leaf of `bms`. */
  lemma {:induction false} LeavesAreLeaves(bms: seq<BookMark>, prefix: Path)
    ensures LeavesBelow(LeafPaths(bms, prefix), bms, prefix)
    decreases bms
  {
    if bms != [] {
      var i := |bms| - 1;
      var left := LeafPaths(bms[..i], prefix);
      var right := if bms[i].sub == [] then [prefix + [i]] else LeafPaths(bms[i].sub, prefix + [i]);
      assert LeafPaths(bms, prefix) == left + right;
      LeavesAreLeaves(bms[..i], prefix);
      LeavesBelowInit(bms, i, prefix, left);
      if bms[i].sub != [] {
        LeavesAreLeaves(bms[i].sub, prefix + [i]);
        LeavesBelowChild(bms, i, prefix, right);
      } else {
        assert right[0][|prefix|..] == [i];
      }
      LeavesBelowConcat(left, right, bms, prefix);
    }
  }

  /** Leaves of the first `i` siblings are leaves of all of them. */
  lemma LeavesBelowInit(bms: seq<BookMark>, i: nat, prefix: Path, paths: seq<Path>)
    requires i <= |bms| && LeavesBelow(paths, bms[..i], prefix)
    ensures LeavesBelow(paths, bms, prefix)
  {
    forall j | 0 <= j < |paths| ensures IsLeaf(bms, paths[j][|prefix|..]) {
      NodeAtInit(bms, i, paths[j][|prefix|..]);
    }
  }

  /** Leaves of child `i`'s subtree, below `prefix + [i]`, are leaves of `bms` below `prefix`. */
  lemma LeavesBelowChild(bms: seq<BookMark>, i: nat, prefix: Path, paths: seq<Path>)
    requires i < |bms| && LeavesBelow(paths, bms[i].sub, prefix + [i])
    ensures LeavesBelow(paths, bms, prefix)
  {
    forall j | 0 <= j < |paths|
      ensures |paths[j]| > |prefix| && paths[j][..|prefix|] == prefix && IsLeaf(bms, paths[j][|prefix|..])
    {
      var t := paths[j];
      var rest := t[|prefix| + 1..];
      assert t[..|prefix|] == (prefix + [i])[..|prefix|];
      assert t[|prefix|..] == [i] + rest;
      assert NodeAt(bms, [i] + rest) == NodeAt(bms[i].sub, rest);
    }
  }

  lemma LeavesBelowConcat(a: seq<Path>, b: seq<Path>, bms: seq<BookMark>, prefix: Path)
    requires LeavesBelow(a, bms, prefix) && LeavesBelow(b, bms, prefix)
    ensures LeavesBelow(a + b, bms, prefix)
  {
    forall j | 0 <= j < |a + b|
      ensures |(a + b)[j]| > |prefix| && (a + b)[j][..|prefix|] == prefix && IsLeaf(bms, (a + b)[j][|prefix|..])
    {
      if j < |a| {
        assert (a + b)[j] == a[j];
      } else {
        assert (a + b)[j] == b[j - |a|];
      }
    }
  }

  /** Every leaf of `bms` is listed. */
  lemma {:induction false} LeavesComplete(bms: seq<BookMark>, prefix: Path, q: Path)
    requires IsLeaf(bms, q)
    ensures prefix + q in LeafPaths(bms, prefix)
    decreases bms
  {
    var i := |bms| - 1;
    if q[0] < i {
      NodeAtInit(bms, i, q);
      LeavesComplete(bms[..i], prefix, q);
    } else if |q| == 1 {
      assert q == [i];
    } else {
      assert NodeAt(bms, q) == NodeAt(bms[i].sub, q[1..]);
      LeavesComplete(bms[i].sub, prefix + [i], q[1..]);
      PathSplit(prefix, q);
    }
  }

  lemma InPreorderConcat(left: seq<Path>, right: seq<Path>)
    requires InPreorder(left) && InPreorder(right)
    requires forall a, b :: 0 <= a < |left| && 0 <= b < |right| ==> Precedes(left[a], right[b])
    ensures InPreorder(left + right)
  {
    var all := left + right;
    forall a, b | 0 <= a < b < |all| ensures Precedes(all[a], all[b]) {
      if b < |left| {
        assert all[a] == left[a] && all[b] == left[b];
      } else if a < |left| {
        assert all[a] == left[a] && all[b] == right[b - |left|];
      } else {
        assert all[a] == right[a - |left|] && all[b] == right[b - |left|];
      }
    }
  }

  /** A leaf of the earlier siblings comes before every path that starts with `prefix + [i]`. */
  lemma EarlierSiblingsFirst(bms: seq<BookMark>, prefix: Path, i: nat, later: seq<Path>)
    requires i <= |bms|
    requires forall b :: 0 <= b < |later| ==> |later[b]| > |prefix| && later[b][..|prefix| + 1] == prefix + [i]
    ensures forall a, b :: 0 <= a < |LeafPaths(bms[..i], prefix)| && 0 <= b < |later| ==>
              Precedes(LeafPaths(bms[..i], prefix)[a], later[b])
  {
    var left := LeafPaths(bms[..i], prefix);
    LeavesAreLeaves(bms[..i], prefix);
    forall a, b | 0 <= a < |left| && 0 <= b < |later|
      ensures Precedes(left[a], later[b])
    {
      var x := left[a][|prefix|..];
      var y := later[b][|prefix|..];
      assert left[a] == prefix + x;
      assert later[b] == prefix + y;
      assert y[0] == later[b][..|prefix| + 1][|prefix|] == i;
      assert x[0] < i;
      PrecedesShift(prefix, x, y);
    }
  }

  /** The leaves come out in left-to-right preorder, so no leaf is listed twice. */
  lemma {:induction false} LeavesInPreorder(bms: seq<BookMark>, prefix: Path)
    ensures InPreorder(LeafPaths(bms, prefix))
    decreases bms
  {
    if bms != [] {
      var i := |bms| - 1;
      var right := if bms[i].sub == [] then [prefix + [i]] else LeafPaths(bms[i].sub, prefix + [i]);
      LeavesInPreorder(bms[..i], prefix);
      if bms[i].sub != [] {
        LeavesInPreorder(bms[i].sub, prefix + [i]);
        LeavesAreLeaves(bms[i].sub, prefix + [i]);
        forall b | 0 <= b < |right|
          ensures |right[b]| > |prefix| && right[b][..|prefix| + 1] == prefix + [i]
        {
          assert right[b][..|prefix| + 1] == right[b][..|prefix + [i]|];
        }
      }
      EarlierSiblingsFirst(bms, prefix, i, right);
      InPreorderConcat(LeafPaths(bms[..i], prefix), right);
    }
  }

  /** Forests of the same shape have the same leaves. */
  lemma {:induction false} SameShapeLeaves(f: seq<BookMark>, g: seq<BookMark>, prefix: Path)
    requires SameShape(f, g)
    ensures LeafPaths(f, prefix) == LeafPaths(g, prefix)
    decreases f
  {
    if f != [] {
      var i := |f| - 1;
      SameShapePrefix(f, g, i);
      SameShapeLeaves(f[..i], g[..i], prefix);
      SameShapeLeaves(f[i].sub, g[i].sub, prefix + [i]);
    }
  }

  /** Every path of the list is valid in the tree. */
  predicate AllValid(bms: seq<BookMark>, paths: seq<Path>)
  {
    forall j :: 0 <= j < |paths| ==> ValidPath(bms, paths[j])
  }

  /** The page numbers of the listed nodes, in list order. */
  function LeafNums(bms: seq<BookMark>, paths: seq<Path>): (r: seq<U32>)
    requires AllValid(bms, paths)
    ensures |r| == |paths|
    ensures forall j :: 0 <= j < |paths| ==> r[j] == NodeAt(bms, paths[j]).value.num
  {
    seq(|paths|, j requires 0 <= j < |paths| => NodeAt(bms, paths[j]).value.num)
  }

  /** Forests of the same shape give the same page numbers along any list of valid paths. */
  lemma SameShapeLeafNums(f: seq<BookMark>, g: seq<BookMark>, paths: seq<Path>)
    requires SameShape(f, g) && AllValid(g, paths)
    ensures AllValid(f, paths) && LeafNums(f, paths) == LeafNums(g, paths)
  {
    forall j | 0 <= j < |paths| ensures ValidPath(f, paths[j]) && NodeAt(f, paths[j]).value.num == NodeAt(g, paths[j]).value.num {
      SameShapeNodeAt(f, g, paths[j]);
    }
  }

  /**
   * map_book_marks_pages: for each node, recurse into its children when it has
   * some, or else push the node (here its path) onto the caller's list.
   */
  method MapBookMarksPages(bms: seq<BookMark>, prefix: Path, pages: seq<Path>) returns (out: seq<Path>)
    ensures out == pages + LeafPaths(bms, prefix)
    decreases bms
  {
    out := pages;
    for i := 0 to |bms|
      invariant out == pages + LeafPaths(bms[..i], prefix)
    {
      ghost var before := LeafPaths(bms[..i], prefix);
      LeafPathsStep(bms, i, prefix);
      if bms[i].sub != [] {
        out := MapBookMarksPages(bms[i].sub, prefix + [i], out);
        AppendAssoc(pages, before, LeafPaths(bms[i].sub, prefix + [i]));
        continue;
      }
      out := out + [prefix + [i]];
      AppendAssoc(pages, before, [prefix + [i]]);
    }
    assert bms[..|bms|] == bms;
  }

  /** One more sibling adds its own path when it has no children, or else its leaves. */
  lemma LeafPathsStep(bms: seq<BookMark>, i: nat, prefix: Path)
    requires i < |bms|
    ensures LeafPaths(bms[..i + 1], prefix) ==
              LeafPaths(bms[..i], prefix) +
              (if bms[i].sub == [] then [prefix + [i]] else LeafPaths(bms[i].sub, prefix + [i]))
  {
    assert bms[..i + 1][..i] == bms[..i];
  }

  lemma AppendAssoc<T>(a: seq<T>, b: seq<T>, c: seq<T>)
    ensures a + b + c == a + (b + c)
  {
  }
}
