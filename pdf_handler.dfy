/**
 * The document handler (PdfHandler): the page map, the bookmark tree, its
 * leaf list, and the lookups and in-place display changes made on them.
 */
module Pdf {
  import opened Wrappers
  import opened Text
  import opened FsPaths
  import opened BookMarks
  import opened Leaves
  import opened Outlines
  import opened LeafSearch

  /** How many leaf pages come before page `p`. */
  function CountBelow(nums: seq<U32>, p: U32): (c: nat)
    ensures c <= |nums|
  {
    if nums == [] then 0
    else CountBelow(nums[..|nums| - 1], p) + (if nums[|nums| - 1] < p then 1 else 0)
  }

  /** When exactly the first `k` leaf pages are below `p`, `k` pages are below `p`. */
  lemma {:induction false} CountBelowPrefix(nums: seq<U32>, p: U32, k: nat)
    requires k <= |nums|
    requires forall j :: 0 <= j < |nums| ==> (nums[j] < p <==> j < k)
    ensures CountBelow(nums, p) == k
    decreases |nums|
  {
    if nums != [] {
      var n := |nums| - 1;
      CountBelowPrefix(nums[..n], p, if k == |nums| then n else k);
    }
  }

  /**
   * The tree after looking up page `p` in the leaf list `leaves`: when the
   * scan settles on a leaf without hitting page `p`, the ancestors of that
   * leaf are expanded as the parent walk does it; otherwise it is unchanged.
   */
  function AfterLookup(f: seq<BookMark>, leaves: seq<Path>, p: U32): seq<BookMark>
    requires AllValid(f, leaves)
  {
    match Search(LeafNums(f, leaves), p)
    case Nearest(i) => Reveal(f, leaves[i])
    case _ => f
  }

  /**
   * Looking the same page up twice leaves the tree as looking it up once: the
   * expansion changes no page number, so the second scan settles on the
   * same leaf, and the walk from it finds its parent already expanded.
   */
  lemma LookupIdempotent(f: seq<BookMark>, p: U32)
    requires AllValid(f, LeafPaths(f, []))
    ensures var leaves := LeafPaths(f, []);
            var g := AfterLookup(f, leaves, p);
            AllValid(g, leaves) && AfterLookup(g, leaves, p) == g
  {
    var leaves := LeafPaths(f, []);
    var g := AfterLookup(f, leaves, p);
    var r := Search(LeafNums(f, leaves), p);
    if r.Nearest? {
      SameShapeLeafNums(g, f, leaves);
      RevealIdempotent(f, leaves[r.index]);
    }
  }

  /**
   * A bookmark tree as the handler keeps it: the leaf list lists its leaves,
   * levels count from 0 at the top, siblings are shown together, an expanded
   * node's children are shown, and the top-level nodes are shown.
   */
  ghost predicate Consistent(f: seq<BookMark>, leaves: seq<Path>)
  {
    && leaves == LeafPaths(f, [])
    && AllValid(f, leaves)
    && Leveled(f, 0)
    && Uniform(f) && Coherent(f) && AllShown(f)
  }

  class PdfHandler {
    /** Page object id => page number. */
    const pageMap: map<ObjectId, U32>
    /** The page count. */
    const pageNums: nat
    const pdfPath: string
    /** The document's title: the file stem of its path. */
    const title: string
    /** The parsed bookmark tree. */
    var bookMarks: seq<BookMark>
    /** The bookmarks without children, as paths into the tree. */
    var bookMarksPages: seq<Path>

    ghost predicate Valid()
      reads this
    {
      Consistent(bookMarks, bookMarksPages) && pageNums == |pageMap|
    }

    /**
     * PdfHandler::new and parse_book_marks: number the pages, parse the
     * outline when the document has one (no bookmarks otherwise), and list
     * the leaves.
     */
    constructor (path: string, pageIds: seq<ObjectId>, outlines: Option<seq<Outline>>, decode: Decoder)
      requires PlainPath(path)
      requires |pageIds| < 0xFFFF_FFFF
      requires outlines.Some? ==> Resolves(outlines.value, PageMap(pageIds))
      ensures Valid()
      ensures pageMap == PageMap(pageIds) && pageNums == |pageMap|
      ensures pdfPath == path && title == FileStem(FileName(path))
      ensures bookMarks == if outlines.Some? then Parse(outlines.value, 0, pageMap, decode) else []
    {
      pageMap := PageMap(pageIds);
      pageNums := |PageMap(pageIds)|;
      pdfPath := path;
      title := FileStem(FileName(path));
      bookMarks := [];
      bookMarksPages := [];
      new;
      var bms := [];
      if outlines.Some? {
        bms := ParseOutlines(outlines.value, 0, decode);
        ParseLeveled(outlines.value, 0, pageMap, decode);
        ParsePristine(outlines.value, 0, pageMap, decode);
        PristineInvariants(bms, 0);
      }
      var pages := MapBookMarksPages(bms, [], []);
      bookMarks := bms;
      bookMarksPages := pages;
      LeavesAreLeaves(bms, []);
    }

    /**
     * parse_outlines: one bookmark per destination, in order; the entries of a
     * SubOutlines are parsed one level deeper and become the children of the
     * bookmark pushed last.
     */
    method ParseOutlines(os: seq<Outline>, h: nat, decode: Decoder) returns (bms: seq<BookMark>)
      requires Resolves(os, pageMap)
      ensures bms == Parse(os, h, pageMap, decode)
      decreases os
    {
      bms := [];
      assert os[..0] == [];
      for i := 0 to |os|
        invariant Resolves(os[..i], pageMap)
        invariant bms == Parse(os[..i], h, pageMap, decode)
      {
        if os[i].Destination? {
          ParseSnocDestination(os, i, h, pageMap, decode);
          bms := bms + [NewBookMark(os[i].title, os[i].page, h, pageMap, decode)];
        } else {
          ResolvesPrefix(os, i, pageMap);
          var subMarks := ParseOutlines(os[i].children, h + 1, decode);
          ParseSnocSub(os, i, h, pageMap, decode, bms, subMarks);
          if bms != [] {
            bms := bms[..|bms| - 1] + [bms[|bms| - 1].(sub := subMarks)];
          }
        }
      }
      assert os[..|os|] == os;
    }

    /**
     * find_book_mark: descend from the root list along the path. An empty
     * path or an index past the children of the node reached gives None; the
     * first index must be in range (it is unwrapped).
     */
    method FindBookMark(index: Path) returns (r: Option<BookMark>)
      requires |index| > 0 ==> index[0] < |bookMarks|
      ensures r == NodeAt(bookMarks, index)
    {
      var current: Option<BookMark> := None;
      for i := 0 to |index|
        invariant i == 0 ==> current == None
        invariant i > 0 ==> current.Some? && current == NodeAt(bookMarks, index[..i])
      {
        assert index[..i + 1] == index[..i] + [index[i]];
        match current
        case Some(cur) =>
          NodeAtAppend(bookMarks, index[..i], [index[i]]);
          if index[i] < |cur.sub| {
            current := Some(cur.sub[index[i]]);
          } else {
            InvalidPrefix(bookMarks, index, i + 1);
            return None;
          }
        case None =>
          current := Some(bookMarks[index[i]]);
      }
      assert index[..|index|] == index;
      r := current;
    }

    /**
     * Expand (`show`) or collapse the node at `path`: when it has children,
     * set its `subShow` and every child's `show` to `show`; a leaf is left
     * alone. This is the in-place change the application makes on the node
     * it looks up mutably.
     */
    method SetExpansion(path: Path, show: bool)
      requires Valid() && ValidPath(bookMarks, path)
      modifies this
      ensures Valid()
      ensures bookMarks == Toggle(old(bookMarks), path, show)
      ensures bookMarksPages == old(bookMarksPages)
    {
      var bm := NodeAt(bookMarks, path).value;
      ToggleEffect(bookMarks, path, show);
      ToggleInvariants(bookMarks, path, show);
      ghost var was := bookMarks;
      if bm.sub != [] {
        var expanded := ShowChildren(bm, show);
        bookMarks := SetNode(bookMarks, path, expanded);
      }
      KeepsLeaves(was);
    }

    /** A change of display flags alone keeps the leaf list and the tree's invariants on shape. */
    lemma KeepsLeaves(was: seq<BookMark>)
      requires SameShape(bookMarks, was)
      requires bookMarksPages == LeafPaths(was, []) && AllValid(was, bookMarksPages) && Leveled(was, 0)
      ensures bookMarksPages == LeafPaths(bookMarks, []) && AllValid(bookMarks, bookMarksPages)
      ensures Leveled(bookMarks, 0)
    {
      SameShapeLeaves(bookMarks, was, []);
      SameShapeLeafNums(bookMarks, was, bookMarksPages);
      SameShapeLeveled(bookMarks, was, 0);
    }

    /**
     * The parent walk that ends find_book_mark_by_page_num: from the node at
     * `leaf` upwards, expand each parent that is not expanded yet, showing
     * all its children, and stop at the first one that already is.
     */
    method ShowParents(leaf: Path)
      requires Valid() && ValidPath(bookMarks, leaf)
      modifies this
      ensures Valid()
      ensures bookMarks == Reveal(old(bookMarks), leaf)
      ensures bookMarksPages == old(bookMarksPages)
    {
      ghost var was := bookMarks;
      var q := leaf;
      while |q| > 1
        invariant ValidPath(bookMarks, q)
        invariant Reveal(bookMarks, q) == Reveal(was, leaf)
        invariant bookMarksPages == old(bookMarksPages)
        decreases |q|
      {
        ParentHoldsChild(bookMarks, q);
        var parent := ParentIndex(q);
        var pb := NodeAt(bookMarks, parent).value;
        if !pb.subShow {
          ToggleEffect(bookMarks, parent, true);
          SameShapeNodeAt(Toggle(bookMarks, parent, true), bookMarks, parent);
          var expanded := ShowChildren(pb, true);
          bookMarks := SetNode(bookMarks, parent, expanded);
        } else {
          break;
        }
        q := parent;
      }
      RevealInvariants(was, leaf);
      KeepsLeaves(was);
    }

    /**
     * find_book_mark_by_page_num: scan the leaf list for page `p`. No leaves
     * give None. A leaf the scan hits on page `p` is returned as it is. A leaf
     * the scan settles on is returned after walking up from it, expanding
     * every parent that is not expanded yet (showing all its children) and
     * stopping at the first one that already is; on a sorted leaf list that
     * is the last leaf before `p`. The scan must not abort.
     */
    method FindBookMarkByPageNum(p: U32) returns (r: Option<Path>)
      requires Valid()
      requires Search(LeafNums(bookMarks, bookMarksPages), p) != Panic
      modifies this
      ensures Valid()
      ensures bookMarksPages == old(bookMarksPages)
      ensures bookMarks == AfterLookup(old(bookMarks), bookMarksPages, p)
      ensures r.None? <==> bookMarksPages == []
      ensures r.Some? ==> r.value in bookMarksPages
      ensures var nums := LeafNums(old(bookMarks), bookMarksPages);
              Search(nums, p).Exact? ==> r.Some? && NodeAt(old(bookMarks), r.value).value.num == p
      ensures var nums := LeafNums(old(bookMarks), bookMarksPages);
              Sorted(nums) && r.Some? && p in nums ==> NodeAt(old(bookMarks), r.value).value.num == p
      ensures var nums := LeafNums(old(bookMarks), bookMarksPages);
              Sorted(nums) && r.Some? && p !in nums ==>
                0 < CountBelow(nums, p) && r.value == bookMarksPages[CountBelow(nums, p) - 1] &&
                NodeAt(old(bookMarks), r.value).value.num < p
    {
      var nums := LeafNums(bookMarks, bookMarksPages);
      var found := SearchLeaves(nums, p);
      match found
      case NoLeaves =>
        return None;
      case Exact(i) =>
        return Some(bookMarksPages[i]);
      case Nearest(i) =>
        if Sorted(nums) {
          CountBelowPrefix(nums, p, i + 1);
        }
        var leaf := bookMarksPages[i];
        ShowParents(leaf);
        return Some(leaf);
      case Panic =>
        assert false;
    }
  }
}
