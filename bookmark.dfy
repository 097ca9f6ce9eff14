/**
 * The bookmark (outline) tree of a document.
 *
 * The tree is a forest of values. A node is addressed by an index path
 * (BookMarkIndex): the child indices taken from the root list downwards.
 * A node's parent is the node at its path without the last index, so the
 * parent back-links of the original tree are implicit, and the flat list of
 * leaves is a list of paths into this one tree: a visibility change made
 * through a leaf path is seen by every later lookup of the tree.
 */
module BookMarks {
  import opened Wrappers
  import opened Text

  /** One bookmark: its title, its page, its children and its two display flags. */
  datatype BookMark = BookMark(
    name: string,
    num: U32,
    sub: seq<BookMark>,
    hierarchy: nat,
    show: bool,
    subShow: bool)

  /** A node address: one child index per level, starting in the root list. */
  type Path = seq<nat>

  /** The node a path reaches, or None when some index is out of range. */
  function NodeAt(bms: seq<BookMark>, path: Path): Option<BookMark>
    decreases path
  {
    if |path| == 0 || path[0] >= |bms| then None
    else if |path| == 1 then Some(bms[path[0]])
    else NodeAt(bms[path[0]].sub, path[1..])
  }

  predicate ValidPath(bms: seq<BookMark>, path: Path)
  {
    NodeAt(bms, path).Some?
  }

  /** A node with its children removed: everything but the subtree. */
  function Head(bm: BookMark): BookMark
  {
    bm.(sub := [])
  }

  /** A path below `prefix` is `prefix`, then its first index, then the rest. */
  lemma PathSplit(prefix: Path, t: Path)
    requires |t| > 0
    ensures prefix + t == prefix + [t[0]] + t[1..]
  {
    assert t == [t[0]] + t[1..];
  }

  /** BookMarkIndex::parent: drop the last index, unless there is at most one. */
  function ParentIndex(path: Path): (r: Path)
    ensures |path| > 1 ==> |r| == |path| - 1 && r + [path[|path| - 1]] == path
    ensures |path| <= 1 ==> r == path
  {
    if |path| > 1 then path[..|path| - 1] else path
  }

  /** Descending along `p` and then along `q` is descending along `p + q`. */
  lemma {:induction false} NodeAtAppend(bms: seq<BookMark>, p: Path, q: Path)
    requires ValidPath(bms, p) && |q| > 0
    ensures NodeAt(bms, p + q) == NodeAt(NodeAt(bms, p).value.sub, q)
    decreases p
  {
    assert (p + q)[0] == p[0];
    if |p| == 1 {
      assert (p + q)[1..] == q;
    } else {
      assert (p + q)[1..] == p[1..] + q;
      NodeAtAppend(bms[p[0]].sub, p[1..], q);
    }
  }

  /** Every non-empty prefix of a valid path is valid. */
  lemma {:induction false} ValidPrefix(bms: seq<BookMark>, p: Path, m: nat)
    requires ValidPath(bms, p) && 1 <= m <= |p|
    ensures ValidPath(bms, p[..m])
    decreases p
  {
    if m > 1 {
      assert p[..m][0] == p[0] && p[..m][1..] == p[1..][..m - 1];
      ValidPrefix(bms[p[0]].sub, p[1..], m - 1);
    }
  }

  /** A path with an invalid non-empty prefix is invalid. */
  lemma {:induction false} InvalidPrefix(bms: seq<BookMark>, p: Path, m: nat)
    requires 1 <= m <= |p| && !ValidPath(bms, p[..m])
    ensures !ValidPath(bms, p)
    decreases p
  {
    if p[0] < |bms| {
      assert p[..m][0] == p[0] && p[..m][1..] == p[1..][..m - 1];
      InvalidPrefix(bms[p[0]].sub, p[1..], m - 1);
    }
  }

  /** The parent of a node (BookMarkIndex::parent) exists and holds the node as its child. */
  lemma ParentHoldsChild(bms: seq<BookMark>, p: Path)
    requires ValidPath(bms, p) && |p| > 1
    ensures ValidPath(bms, ParentIndex(p))
    ensures var k := p[|p| - 1];
            k < |NodeAt(bms, ParentIndex(p)).value.sub| &&
            NodeAt(bms, p) == Some(NodeAt(bms, ParentIndex(p)).value.sub[k])
  {
    ValidPrefix(bms, p, |p| - 1);
    NodeAtAppend(bms, ParentIndex(p), [p[|p| - 1]]);
  }

  /** The tree with the node at `path` replaced by `n`. */
  function SetNode(bms: seq<BookMark>, path: Path, n: BookMark): (r: seq<BookMark>)
    requires ValidPath(bms, path)
    ensures |r| == |bms|
    ensures forall j :: 0 <= j < |bms| && j != path[0] ==> r[j] == bms[j]
    ensures |path| > 1 ==> Head(r[path[0]]) == Head(bms[path[0]])
    decreases path
  {
    var i := path[0];
    if |path| == 1 then bms[i := n]
    else bms[i := bms[i].(sub := SetNode(bms[i].sub, path[1..], n))]
  }

  /** After SetNode the path reaches the new node. */
  lemma {:induction false} SetNodeAt(bms: seq<BookMark>, p: Path, n: BookMark)
    requires ValidPath(bms, p)
    ensures NodeAt(SetNode(bms, p, n), p) == Some(n)
    decreases p
  {
    if |p| > 1 {
      SetNodeAt(bms[p[0]].sub, p[1..], n);
    }
  }

  /** Below the replaced node, the tree is the new node's subtree. */
  lemma SetNodeBelow(bms: seq<BookMark>, p: Path, n: BookMark, q: Path)
    requires ValidPath(bms, p) && |q| > 0
    ensures NodeAt(SetNode(bms, p, n), p + q) == NodeAt(n.sub, q)
  {
    SetNodeAt(bms, p, n);
    NodeAtAppend(SetNode(bms, p, n), p, q);
  }

  /**
   * Away from the replaced node the tree is unchanged: a path that does not
   * pass through `p` reaches the same node, and a strict ancestor of `p`
   * keeps everything but its subtree.
   */
  lemma {:induction false} SetNodeAside(bms: seq<BookMark>, p: Path, n: BookMark, q: Path)
    requires ValidPath(bms, p) && !(p <= q)
    ensures ValidPath(SetNode(bms, p, n), q) == ValidPath(bms, q)
    ensures ValidPath(bms, q) ==> Head(NodeAt(SetNode(bms, p, n), q).value) == Head(NodeAt(bms, q).value)
    ensures !(q <= p) ==> NodeAt(SetNode(bms, p, n), q) == NodeAt(bms, q)
    decreases p
  {
    var r := SetNode(bms, p, n);
    if |q| == 0 || q[0] >= |bms| || q[0] != p[0] {
    } else if |q| == 1 {
      assert q <= p;
    } else {
      assert |p| > 1;
      assert p[1..] <= q[1..] ==> p <= q;
      assert q[1..] <= p[1..] ==> q <= p;
      SetNodeAside(bms[p[0]].sub, p[1..], n, q[1..]);
    }
  }

  // ---------------------------------------------------------------------------
  // Shape: everything but the display flags

  /** Two forests with the same nodes, titles, pages and levels, whatever their display flags. */
  predicate SameShape(f: seq<BookMark>, g: seq<BookMark>)
    decreases f
  {
    |f| == |g| &&
    forall i :: 0 <= i < |f| ==>
      f[i].name == g[i].name && f[i].num == g[i].num && f[i].hierarchy == g[i].hierarchy &&
      SameShape(f[i].sub, g[i].sub)
  }

  /** Two nodes that differ at most in their display flags, here and below. */
  predicate SameNodeShape(a: BookMark, b: BookMark)
  {
    a.name == b.name && a.num == b.num && a.hierarchy == b.hierarchy && SameShape(a.sub, b.sub)
  }

  lemma {:induction false} SameShapeRefl(f: seq<BookMark>)
    ensures SameShape(f, f)
    decreases f
  {
    forall i | 0 <= i < |f| ensures SameShape(f[i].sub, f[i].sub) {
      SameShapeRefl(f[i].sub);
    }
  }

  lemma {:induction false} SameShapeSym(f: seq<BookMark>, g: seq<BookMark>)
    requires SameShape(f, g)
    ensures SameShape(g, f)
    decreases f
  {
    forall i | 0 <= i < |f| ensures SameShape(g[i].sub, f[i].sub) {
      SameShapeSym(f[i].sub, g[i].sub);
    }
  }

  lemma {:induction false} SameShapeTrans(f: seq<BookMark>, g: seq<BookMark>, h: seq<BookMark>)
    requires SameShape(f, g) && SameShape(g, h)
    ensures SameShape(f, h)
    decreases f
  {
    forall i | 0 <= i < |f| ensures SameShape(f[i].sub, h[i].sub) {
      SameShapeTrans(f[i].sub, g[i].sub, h[i].sub);
    }
  }

  lemma SameShapePrefix(f: seq<BookMark>, g: seq<BookMark>, k: nat)
    requires SameShape(f, g) && k <= |f|
    ensures SameShape(f[..k], g[..k])
  {
    assert forall i :: 0 <= i < k ==> f[..k][i] == f[i] && g[..k][i] == g[i];
  }

  /** Same-shaped forests have the same valid paths, reaching nodes of the same shape. */
  lemma {:induction false} SameShapeNodeAt(f: seq<BookMark>, g: seq<BookMark>, q: Path)
    requires SameShape(f, g)
    ensures ValidPath(f, q) == ValidPath(g, q)
    ensures ValidPath(f, q) ==> SameNodeShape(NodeAt(f, q).value, NodeAt(g, q).value)
    decreases q
  {
    if |q| > 1 && q[0] < |f| {
      SameShapeNodeAt(f[q[0]].sub, g[q[0]].sub, q[1..]);
    }
  }

  /** Replacing a node by one of the same shape keeps the shape of the forest. */
  lemma {:induction false} SetNodeShape(f: seq<BookMark>, p: Path, n: BookMark)
    requires ValidPath(f, p) && SameNodeShape(n, NodeAt(f, p).value)
    ensures SameShape(SetNode(f, p, n), f)
    decreases p
  {
    var r := SetNode(f, p, n);
    forall i | 0 <= i < |f|
      ensures r[i].name == f[i].name && r[i].num == f[i].num && r[i].hierarchy == f[i].hierarchy
      ensures SameShape(r[i].sub, f[i].sub)
    {
      if i != p[0] {
        SameShapeRefl(f[i].sub);
      } else if |p| > 1 {
        SetNodeShape(f[i].sub, p[1..], n);
      }
    }
  }

  // ---------------------------------------------------------------------------
  // Invariants of the display flags

  /** Every node's `hierarchy` is its depth, counted from `h` at the top of `f`. */
  predicate Leveled(f: seq<BookMark>, h: nat)
    decreases f
  {
    forall i :: 0 <= i < |f| ==> f[i].hierarchy == h && Leveled(f[i].sub, h + 1)
  }

  predicate AllShown(f: seq<BookMark>)
  {
    forall j :: 0 <= j < |f| ==> f[j].show
  }

  /** An expanded node (`subShow`) shows every one of its direct children. */
  predicate Coherent(f: seq<BookMark>)
    decreases f
  {
    forall i :: 0 <= i < |f| ==> (f[i].subShow ==> AllShown(f[i].sub)) && Coherent(f[i].sub)
  }

  /** Siblings are shown or hidden together. */
  predicate Uniform(f: seq<BookMark>)
    decreases f
  {
    forall i :: 0 <= i < |f| ==> f[i].show == f[0].show && Uniform(f[i].sub)
  }

  lemma {:induction false} SameShapeLeveled(f: seq<BookMark>, g: seq<BookMark>, h: nat)
    requires SameShape(f, g) && Leveled(g, h)
    ensures Leveled(f, h)
    decreases f
  {
    forall i | 0 <= i < |f| ensures Leveled(f[i].sub, h + 1) {
      SameShapeLeveled(f[i].sub, g[i].sub, h + 1);
    }
  }

  /** The invariants hold in every subtree. */
  lemma {:induction false} InvariantsAt(f: seq<BookMark>, p: Path)
    requires ValidPath(f, p)
    ensures Coherent(f) ==> (NodeAt(f, p).value.subShow ==> AllShown(NodeAt(f, p).value.sub)) &&
                            Coherent(NodeAt(f, p).value.sub)
    ensures Uniform(f) ==> Uniform(NodeAt(f, p).value.sub)
    decreases p
  {
    if |p| > 1 {
      InvariantsAt(f[p[0]].sub, p[1..]);
    }
  }

  /** Replacing a node keeps the flag invariants when the new node keeps them and its own `show`. */
  lemma {:induction false} SetNodeInvariants(f: seq<BookMark>, p: Path, n: BookMark)
    requires ValidPath(f, p) && n.show == NodeAt(f, p).value.show
    ensures Coherent(f) && (n.subShow ==> AllShown(n.sub)) && Coherent(n.sub) ==> Coherent(SetNode(f, p, n))
    ensures Uniform(f) && Uniform(n.sub) ==> Uniform(SetNode(f, p, n))
    ensures AllShown(f) ==> AllShown(SetNode(f, p, n))
    decreases p
  {
    var i := p[0];
    var r := SetNode(f, p, n);
    if |p| > 1 {
      SetNodeInvariants(f[i].sub, p[1..], n);
      var s := SetNode(f[i].sub, p[1..], n);
      assert r[i] == f[i].(sub := s);
      assert forall j :: 0 <= j < |s| ==> s[j].show == f[i].sub[j].show by {
        forall j | 0 <= j < |s| ensures s[j].show == f[i].sub[j].show {
          if j != p[1] {
          } else if |p| > 2 {
            assert Head(s[j]) == Head(f[i].sub[j]);
          }
        }
      }
    }
  }

  // ---------------------------------------------------------------------------
  // Expanding and collapsing one node

  /** The node with `subShow` and every direct child's `show` set to `show`. */
  function WithChildrenShown(bm: BookMark, show: bool): (r: BookMark)
    ensures Head(r) == Head(bm).(subShow := show)
    ensures |r.sub| == |bm.sub|
    ensures forall i :: 0 <= i < |bm.sub| ==> r.sub[i] == bm.sub[i].(show := show)
  {
    bm.(subShow := show, sub := seq(|bm.sub|, i requires 0 <= i < |bm.sub| => bm.sub[i].(show := show)))
  }

  /** The loop that sets `sub_show` and then `show` on each direct child, one child at a time. */
  method ShowChildren(bm: BookMark, show: bool) returns (r: BookMark)
    ensures r == WithChildrenShown(bm, show)
  {
    var sub := bm.sub;
    for i := 0 to |sub|
      invariant |sub| == |bm.sub|
      invariant forall j :: 0 <= j < i ==> sub[j] == bm.sub[j].(show := show)
      invariant forall j :: i <= j < |sub| ==> sub[j] == bm.sub[j]
    {
      sub := sub[i := sub[i].(show := show)];
    }
    r := bm.(subShow := show, sub := sub);
  }

  lemma WithChildrenShownShape(bm: BookMark, show: bool)
    ensures SameNodeShape(WithChildrenShown(bm, show), bm)
  {
    var r := WithChildrenShown(bm, show);
    forall i | 0 <= i < |bm.sub| ensures SameShape(r.sub[i].sub, bm.sub[i].sub) {
      SameShapeRefl(bm.sub[i].sub);
    }
  }

  lemma WithChildrenShownInvariants(bm: BookMark, show: bool)
    ensures Coherent(bm.sub) ==> Coherent(WithChildrenShown(bm, show).sub)
    ensures Uniform(bm.sub) ==> Uniform(WithChildrenShown(bm, show).sub)
  {
  }

  /**
   * The expansion toggle: on a node with children, set its `subShow` and its
   * direct children's `show`; on a leaf, change nothing.
   */
  function Toggle(f: seq<BookMark>, p: Path, show: bool): seq<BookMark>
    requires ValidPath(f, p)
  {
    var n := NodeAt(f, p).value;
    if n.sub == [] then f else SetNode(f, p, WithChildrenShown(n, show))
  }

  /**
   * What the toggle changes: the node's `subShow`, each direct child's `show`,
   * and nothing else, neither the shape nor any other node's flags.
   */
  lemma ToggleEffect(f: seq<BookMark>, p: Path, show: bool)
    requires ValidPath(f, p)
    ensures SameShape(Toggle(f, p, show), f)
    ensures NodeAt(f, p).value.sub == [] ==> Toggle(f, p, show) == f
    ensures NodeAt(f, p).value.sub != [] ==>
              NodeAt(Toggle(f, p, show), p) == Some(WithChildrenShown(NodeAt(f, p).value, show))
    ensures forall k :: 0 <= k < |NodeAt(f, p).value.sub| ==>
              NodeAt(Toggle(f, p, show), p + [k]) == Some(NodeAt(f, p).value.sub[k].(show := show))
    ensures forall t :: ValidPath(f, t) && t != p && !(p < t && |t| == |p| + 1) ==>
              ValidPath(Toggle(f, p, show), t) &&
              Head(NodeAt(Toggle(f, p, show), t).value) == Head(NodeAt(f, t).value)
  {
    var n := NodeAt(f, p).value;
    var r := Toggle(f, p, show);
    if n.sub == [] {
      SameShapeRefl(f);
    } else {
      var m := WithChildrenShown(n, show);
      WithChildrenShownShape(n, show);
      SetNodeShape(f, p, m);
      SetNodeAt(f, p, m);
      forall k | 0 <= k < |n.sub|
        ensures NodeAt(r, p + [k]) == Some(n.sub[k].(show := show))
      {
        SetNodeBelow(f, p, m, [k]);
      }
      forall t | ValidPath(f, t) && t != p && !(p < t && |t| == |p| + 1)
        ensures ValidPath(r, t) && Head(NodeAt(r, t).value) == Head(NodeAt(f, t).value)
      {
        if p <= t {
          var q := t[|p|..];
          assert t == p + q;
          assert |q| >= 2;
          SetNodeBelow(f, p, m, q);
          NodeAtAppend(f, p, q);
          assert NodeAt(m.sub, q) == NodeAt(m.sub[q[0]].sub, q[1..]);
          assert NodeAt(n.sub, q) == NodeAt(n.sub[q[0]].sub, q[1..]);
        } else {
          SetNodeAside(f, p, m, t);
        }
      }
    }
  }

  /** The toggle keeps the flag invariants and the shown roots. */
  lemma ToggleInvariants(f: seq<BookMark>, p: Path, show: bool)
    requires ValidPath(f, p)
    ensures Coherent(f) ==> Coherent(Toggle(f, p, show))
    ensures Uniform(f) ==> Uniform(Toggle(f, p, show))
    ensures AllShown(f) ==> AllShown(Toggle(f, p, show))
  {
    var n := NodeAt(f, p).value;
    if n.sub != [] {
      var m := WithChildrenShown(n, show);
      InvariantsAt(f, p);
      WithChildrenShownInvariants(n, show);
      SetNodeInvariants(f, p, m);
    }
  }

  // ---------------------------------------------------------------------------
  // The ancestor cascade of the page lookup

  /** The node at `t` exists and is shown. */
  predicate Shown(f: seq<BookMark>, t: Path)
  {
    ValidPath(f, t) && NodeAt(f, t).value.show
  }

  /** The node at `t` exists and is expanded. */
  predicate Expanded(f: seq<BookMark>, t: Path)
  {
    ValidPath(f, t) && NodeAt(f, t).value.subShow
  }

  /**
   * The parent walk that follows a page lookup: starting at the node `q`,
   * expand each parent that is not yet expanded, showing all its direct
   * children, and stop at the first parent that already is expanded (or at
   * a root, which has no parent).
   */
  function Reveal(f: seq<BookMark>, q: Path): (r: seq<BookMark>)
    requires ValidPath(f, q)
    ensures SameShape(r, f)
    decreases |q|
  {
    if |q| <= 1 then
      (SameShapeRefl(f); f)
    else
      ParentHoldsChild(f, q);
      var pq := ParentIndex(q);
      if NodeAt(f, pq).value.subShow then
        (SameShapeRefl(f); f)
      else
        ToggleEffect(f, pq, true);
        var g := Toggle(f, pq, true);
        SameShapeNodeAt(g, f, pq);
        var r := Reveal(g, pq);
        SameShapeTrans(r, g, f);
        r
  }

  /**
   * The length of the ancestor at which the walk from `q` stops because it is
   * already expanded, or 0 when no ancestor of `q` is expanded.
   */
  function StopLevel(f: seq<BookMark>, q: Path): (s: nat)
    requires ValidPath(f, q)
    ensures s == 0 || (1 <= s < |q| && Expanded(f, q[..s]))
    ensures forall m :: s < m < |q| && 1 <= m ==> !Expanded(f, q[..m])
    decreases |q|
  {
    if |q| <= 1 then 0
    else
      ParentHoldsChild(f, q);
      var pq := ParentIndex(q);
      if NodeAt(f, pq).value.subShow then |q| - 1
      else
        var s := StopLevel(f, pq);
        assert forall m :: 0 <= m <= |pq| ==> pq[..m] == q[..m];
        s
  }

  /** Expanding one node never hides anything. */
  lemma ExpandMonotone(f: seq<BookMark>, p: Path, t: Path)
    requires ValidPath(f, p)
    ensures Shown(f, t) ==> Shown(Toggle(f, p, true), t)
    ensures Expanded(f, t) ==> Expanded(Toggle(f, p, true), t)
  {
    ToggleEffect(f, p, true);
    var g := Toggle(f, p, true);
    var n := NodeAt(f, p).value;
    if !ValidPath(f, t) || n.sub == [] {
    } else if t == p {
      assert NodeAt(g, t).value == WithChildrenShown(n, true);
      assert Head(NodeAt(g, t).value) == Head(n).(subShow := true);
    } else if p < t && |t| == |p| + 1 {
      var k := t[|p|];
      assert t == p + [k];
      NodeAtAppend(f, p, [k]);
      assert NodeAt(g, t) == Some(n.sub[k].(show := true));
    } else {
      assert Head(NodeAt(g, t).value) == Head(NodeAt(f, t).value);
    }
  }

  /** The walk expands, never hides: no `show` or `subShow` flag goes from true to false. */
  lemma {:induction false} RevealMonotone(f: seq<BookMark>, q: Path, t: Path)
    requires ValidPath(f, q)
    ensures Shown(f, t) ==> Shown(Reveal(f, q), t)
    ensures Expanded(f, t) ==> Expanded(Reveal(f, q), t)
    decreases |q|
  {
    if |q| > 1 {
      ParentHoldsChild(f, q);
      var pq := ParentIndex(q);
      if !NodeAt(f, pq).value.subShow {
        ToggleEffect(f, pq, true);
        var g := Toggle(f, pq, true);
        SameShapeNodeAt(g, f, pq);
        ExpandMonotone(f, pq, t);
        RevealMonotone(g, pq, t);
      }
    }
  }

  /** After the walk from `q`, the parent of `q` is expanded. */
  lemma RevealExpandsParent(f: seq<BookMark>, q: Path)
    requires ValidPath(f, q) && |q| > 1
    ensures Expanded(Reveal(f, q), ParentIndex(q))
  {
    ParentHoldsChild(f, q);
    var pq := ParentIndex(q);
    if !NodeAt(f, pq).value.subShow {
      ToggleEffect(f, pq, true);
      var g := Toggle(f, pq, true);
      SameShapeNodeAt(g, f, pq);
      RevealMonotone(g, pq, pq);
    }
  }

  /** Running the walk twice from the same node leaves the state of running it once. */
  lemma RevealIdempotent(f: seq<BookMark>, q: Path)
    requires ValidPath(f, q)
    ensures ValidPath(Reveal(f, q), q)
    ensures Reveal(Reveal(f, q), q) == Reveal(f, q)
  {
    var r := Reveal(f, q);
    SameShapeNodeAt(r, f, q);
    if |q| > 1 {
      RevealExpandsParent(f, q);
    }
  }

  /** The walk keeps the flag invariants and the shown roots. */
  lemma {:induction false} RevealInvariants(f: seq<BookMark>, q: Path)
    requires ValidPath(f, q)
    ensures Coherent(f) ==> Coherent(Reveal(f, q))
    ensures Uniform(f) ==> Uniform(Reveal(f, q))
    ensures AllShown(f) ==> AllShown(Reveal(f, q))
    decreases |q|
  {
    if |q| > 1 {
      ParentHoldsChild(f, q);
      var pq := ParentIndex(q);
      if !NodeAt(f, pq).value.subShow {
        ToggleEffect(f, pq, true);
        ToggleInvariants(f, pq, true);
        var g := Toggle(f, pq, true);
        SameShapeNodeAt(g, f, pq);
        RevealInvariants(g, pq);
      }
    }
  }

  /** Expanding the parent of `q` does not change where the walk from it stops. */
  lemma StopLevelAfterToggle(f: seq<BookMark>, q: Path)
    requires ValidPath(f, q) && |q| >= 1
    ensures ValidPath(Toggle(f, q, true), q)
    ensures StopLevel(Toggle(f, q, true), q) == StopLevel(f, q)
  {
    var g := Toggle(f, q, true);
    ToggleEffect(f, q, true);
    SameShapeNodeAt(g, f, q);
    forall m | 1 <= m < |q|
      ensures Expanded(g, q[..m]) == Expanded(f, q[..m])
    {
      ValidPrefix(f, q, m);
    }
  }

  /** Expanding a node shows each of its children. */
  lemma ExpandShowsChild(f: seq<BookMark>, p: Path, k: nat)
    requires ValidPath(f, p) && ValidPath(f, p + [k])
    ensures Shown(Toggle(f, p, true), p + [k])
  {
    NodeAtAppend(f, p, [k]);
    ToggleEffect(f, p, true);
  }

  /**
   * With the invariant that an expanded node shows its children, the walk
   * from `q` leaves shown every node on the path from the child of the
   * ancestor where it stopped down to `q` itself.
   */
  lemma {:induction false} RevealShowsChain(f: seq<BookMark>, q: Path)
    requires ValidPath(f, q) && Coherent(f)
    ensures forall m :: StopLevel(f, q) < m <= |q| && 2 <= m ==> Shown(Reveal(f, q), q[..m])
    decreases |q|
  {
    if |q| > 1 {
      ParentHoldsChild(f, q);
      var pq := ParentIndex(q);
      var k := q[|q| - 1];
      var parent := NodeAt(f, pq).value;
      assert q[..|q|] == q;
      if parent.subShow {
        InvariantsAt(f, pq);
        assert Shown(f, q);
      } else {
        var r := Reveal(f, q);
        ToggleInvariants(f, pq, true);
        var g := Toggle(f, pq, true);
        StopLevelAfterToggle(f, pq);
        assert r == Reveal(g, pq);
        RevealShowsChain(g, pq);
        assert q == pq + [k];
        ExpandShowsChild(f, pq, k);
        RevealMonotone(g, pq, q);
        forall m | StopLevel(f, q) < m <= |q| && 2 <= m
          ensures Shown(r, q[..m])
        {
          if m < |q| {
            assert q[..m] == pq[..m];
          }
        }
      }
    }
  }

  /**
   * The walk from `q` leaves expanded every ancestor of `q` from the one
   * where it stopped down to the parent of `q`.
   */
  lemma {:induction false} RevealExpandsChain(f: seq<BookMark>, q: Path)
    requires ValidPath(f, q)
    ensures forall m :: StopLevel(f, q) <= m < |q| && 1 <= m ==> Expanded(Reveal(f, q), q[..m])
    decreases |q|
  {
    if |q| > 1 {
      ParentHoldsChild(f, q);
      var pq := ParentIndex(q);
      RevealExpandsParent(f, q);
      if !NodeAt(f, pq).value.subShow {
        var r := Reveal(f, q);
        ToggleEffect(f, pq, true);
        var g := Toggle(f, pq, true);
        assert r == Reveal(g, pq);
        SameShapeNodeAt(g, f, pq);
        StopLevelAfterToggle(f, pq);
        RevealExpandsChain(g, pq);
        forall m | StopLevel(f, q) <= m < |q| && 1 <= m
          ensures Expanded(r, q[..m])
        {
          if m < |pq| {
            assert q[..m] == pq[..m];
          } else {
            assert q[..m] == pq;
          }
        }
      }
    }
  }

  /**
   * The walk from `q` changes only the nodes it expands and their direct
   * children: those are the ancestors `q[..k]` of `q` strictly below the one
   * where it stopped. Every other node keeps its flags, which is what
   * stopping at the first expanded ancestor leaves alone.
   */
  lemma {:induction false} RevealFrame(f: seq<BookMark>, q: Path, t: Path)
    requires ValidPath(f, q) && ValidPath(f, t)
    requires forall k :: StopLevel(f, q) < k < |q| && 1 <= k ==> t != q[..k] && !(q[..k] < t && |t| == k + 1)
    ensures ValidPath(Reveal(f, q), t)
    ensures Head(NodeAt(Reveal(f, q), t).value) == Head(NodeAt(f, t).value)
    decreases |q|
  {
    if |q| > 1 {
      ParentHoldsChild(f, q);
      var pq := ParentIndex(q);
      if !NodeAt(f, pq).value.subShow {
        var g := Toggle(f, pq, true);
        ToggleEffect(f, pq, true);
        SameShapeNodeAt(g, f, pq);
        StopLevelAfterToggle(f, pq);
        assert q[..|pq|] == pq;
        assert forall k :: 0 <= k <= |pq| ==> pq[..k] == q[..k];
        RevealFrame(g, pq, t);
      }
    }
  }

  /** The ancestor where the walk stops, and every ancestor above it, keep their flags. */
  lemma RevealAboveStop(f: seq<BookMark>, q: Path, m: nat)
    requires ValidPath(f, q) && 1 <= m <= StopLevel(f, q)
    ensures ValidPath(f, q[..m]) && ValidPath(Reveal(f, q), q[..m])
    ensures Head(NodeAt(Reveal(f, q), q[..m]).value) == Head(NodeAt(f, q[..m]).value)
  {
    ValidPrefix(f, q, m);
    RevealFrame(f, q, q[..m]);
  }
}
