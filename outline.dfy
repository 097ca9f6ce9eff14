/**
 * The document's outline as the PDF library hands it over, the page map
 * built from the document's page list, and the bookmark tree that
 * `parse_outlines` builds from the outline.
 */
module Outlines {
  import opened Wrappers
  import opened Text
  import opened BookMarks

  /** A PDF object identifier: object number and generation number. */
  datatype ObjectId = ObjectId(num: U32, gen: nat)

  /** The title object of an outline entry: a byte string, or any other object. */
  datatype Title = StringTitle(bytes: seq<bv8>) | OtherTitle

  /** The page object of an outline entry: a reference to a page, or any other object. */
  datatype PageRef = Reference(id: ObjectId) | OtherPage

  /**
   * One outline entry: a destination (a titled link to a page), or the
   * children of the destination just before it.
   */
  datatype Outline =
    | Destination(title: Title, page: PageRef)
    | SubOutlines(children: seq<Outline>)

  /** The title decoder: the text of a title's bytes, when they can be decoded. */
  type Decoder = seq<bv8> -> Option<string>

  /**
   * The page map: the page at position i of the document's page list
   * (i counted from 0) is page i + 1; when an id is listed twice, its last
   * position wins, as when the pairs are collected into a map in order.
   */
  function PageMap(ids: seq<ObjectId>): (m: map<ObjectId, U32>)
    requires |ids| < 0xFFFF_FFFF
    ensures forall id :: id in m <==> id in ids
    ensures forall id :: id in m ==>
              1 <= m[id] <= |ids| && ids[m[id] - 1] == id &&
              forall j :: m[id] <= j < |ids| ==> ids[j] != id
    decreases |ids|
  {
    if ids == [] then map[]
    else
      var n := |ids|;
      var m := PageMap(ids[..n - 1]);
      assert ids == ids[..n - 1] + [ids[n - 1]];
      m[ids[n - 1] := n]
  }

  predicate Distinct(ids: seq<ObjectId>)
  {
    forall i, j :: 0 <= i < j < |ids| ==> ids[i] != ids[j]
  }

  /**
   * Pages are numbered 1 to n in document order, and the number of entries
   * in the map (the page count) is the number of pages.
   */
  lemma {:induction false} PageNumbering(ids: seq<ObjectId>)
    requires |ids| < 0xFFFF_FFFF && Distinct(ids)
    ensures forall i :: 0 <= i < |ids| ==> ids[i] in PageMap(ids) && PageMap(ids)[ids[i]] == i + 1
    ensures |PageMap(ids)| == |ids|
    decreases |ids|
  {
    var m := PageMap(ids);
    forall i | 0 <= i < |ids| ensures ids[i] in m && m[ids[i]] == i + 1 {
      assert ids[i] in ids;
      var k := m[ids[i]] - 1;
      assert ids[k] == ids[i];
    }
    if ids != [] {
      var n := |ids|;
      PageNumbering(ids[..n - 1]);
      assert ids[n - 1] !in ids[..n - 1];
    }
  }

  /** An entry's title text: the decoded string, or "unknown". */
  function TitleText(t: Title, decode: Decoder): string
  {
    match t
    case StringTitle(bytes) => (match decode(bytes) case Some(s) => s case None => "unknown")
    case OtherTitle => "unknown"
  }

  /**
   * Every page reference in the outline, at any depth, is in the page map
   * (the lookup of a destination's page is unwrapped).
   */
  predicate Resolves(os: seq<Outline>, pm: map<ObjectId, U32>)
    decreases os
  {
    forall i :: 0 <= i < |os| ==>
      match os[i]
      case Destination(_, p) => p.Reference? ==> p.id in pm
      case SubOutlines(cs) => Resolves(cs, pm)
  }

  /**
   * The bookmark of a destination at level `h`: its title text, its page (0
   * when the page object is not a reference), its level, no children,
   * shown exactly on the top level and not expanded.
   */
  function NewBookMark(t: Title, p: PageRef, h: nat, pm: map<ObjectId, U32>, decode: Decoder): BookMark
    requires p.Reference? ==> p.id in pm
  {
    BookMark(TitleText(t, decode), if p.Reference? then pm[p.id] else 0, [], h, h == 0, false)
  }

  /**
   * parse_outlines: read the entries in order; a destination appends its
   * bookmark, and a SubOutlines parses its children one level deeper and
   * makes them the children of the last bookmark so far, replacing any it
   * had; with no bookmark before it, the children are dropped.
   */
  function Parse(os: seq<Outline>, h: nat, pm: map<ObjectId, U32>, decode: Decoder): seq<BookMark>
    requires Resolves(os, pm)
    decreases os
  {
    if os == [] then []
    else
      var n := |os| - 1;
      var acc := Parse(os[..n], h, pm, decode);
      match os[n]
      case Destination(t, p) => acc + [NewBookMark(t, p, h, pm, decode)]
      case SubOutlines(cs) => Attach(acc, Parse(cs, h + 1, pm, decode))
  }

  /** The last bookmark of `acc` gets the children `sub`, replacing its own; nothing when `acc` is empty. */
  function Attach(acc: seq<BookMark>, sub: seq<BookMark>): (r: seq<BookMark>)
    ensures |r| == |acc|
  {
    if acc == [] then [] else acc[..|acc| - 1] + [acc[|acc| - 1].(sub := sub)]
  }

  /** Children given twice: the second ones remain. */
  lemma AttachTwice(acc: seq<BookMark>, x: seq<BookMark>, y: seq<BookMark>)
    ensures Attach(Attach(acc, x), y) == Attach(acc, y)
  {
    if acc != [] {
      var r := Attach(acc, x);
      assert r[..|r| - 1] == acc[..|acc| - 1];
    }
  }

  /** An outline followed by a SubOutlines entry resolves when both parts do. */
  lemma ResolvesSnocSub(os: seq<Outline>, cs: seq<Outline>, pm: map<ObjectId, U32>)
    requires Resolves(os, pm) && Resolves(cs, pm)
    ensures Resolves(os + [SubOutlines(cs)], pm)
  {
    var all := os + [SubOutlines(cs)];
    assert forall j :: 0 <= j < |os| ==> all[j] == os[j];
  }

  /** The entries before `i` resolve, and so do the entries of entry `i`. */
  lemma ResolvesPrefix(os: seq<Outline>, i: nat, pm: map<ObjectId, U32>)
    requires i < |os| && Resolves(os, pm)
    ensures Resolves(os[..i], pm) && Resolves(os[..i + 1], pm)
    ensures os[i].SubOutlines? ==> Resolves(os[i].children, pm)
  {
    assert forall j :: 0 <= j <= i ==> os[..i + 1][j] == os[j];
  }

  /** Parsing one more destination appends its bookmark. */
  lemma ParseSnocDestination(os: seq<Outline>, i: nat, h: nat, pm: map<ObjectId, U32>, decode: Decoder)
    requires i < |os| && Resolves(os, pm) && os[i].Destination?
    ensures Resolves(os[..i], pm) && Resolves(os[..i + 1], pm)
    ensures os[i].page.Reference? ==> os[i].page.id in pm
    ensures Parse(os[..i + 1], h, pm, decode) ==
              Parse(os[..i], h, pm, decode) + [NewBookMark(os[i].title, os[i].page, h, pm, decode)]
  {
    ResolvesPrefix(os, i, pm);
    assert os[..i + 1][..i] == os[..i];
  }

  /** Parsing one more SubOutlines entry gives its children to the last bookmark, if any. */
  lemma ParseSnocSub(os: seq<Outline>, i: nat, h: nat, pm: map<ObjectId, U32>, decode: Decoder,
                     acc: seq<BookMark>, subMarks: seq<BookMark>)
    requires i < |os| && Resolves(os, pm) && os[i].SubOutlines? && Resolves(os[..i], pm)
    requires Resolves(os[i].children, pm)
    requires acc == Parse(os[..i], h, pm, decode) && subMarks == Parse(os[i].children, h + 1, pm, decode)
    ensures Resolves(os[..i + 1], pm)
    ensures acc == [] ==> Parse(os[..i + 1], h, pm, decode) == []
    ensures acc != [] ==> Parse(os[..i + 1], h, pm, decode) == acc[..|acc| - 1] + [acc[|acc| - 1].(sub := subMarks)]
  {
    ResolvesPrefix(os, i, pm);
    assert os[..i + 1][..i] == os[..i];
  }

  /** The destinations on the top level of the outline, in order. */
  function TopDestinations(os: seq<Outline>): (r: seq<Outline>)
    ensures forall i :: 0 <= i < |r| ==> r[i].Destination? && r[i] in os
    decreases |os|
  {
    if os == [] then []
    else
      var n := |os| - 1;
      var r := TopDestinations(os[..n]) + (if os[n].Destination? then [os[n]] else []);
      assert forall o :: o in os[..n] ==> o in os;
      r
  }

  /** Bookmark `b`, children aside, is the one the destination `d` yields at level `h`. */
  predicate Yields(b: BookMark, d: Outline, h: nat, pm: map<ObjectId, U32>, decode: Decoder)
  {
    d.Destination? && (d.page.Reference? ==> d.page.id in pm) &&
    Head(b) == NewBookMark(d.title, d.page, h, pm, decode)
  }

  /** The bookmarks `r` are, in order and children aside, those the destinations `ds` yield. */
  predicate HeadsMatch(r: seq<BookMark>, ds: seq<Outline>, h: nat, pm: map<ObjectId, U32>, decode: Decoder)
  {
    |r| == |ds| && forall i :: 0 <= i < |r| ==> Yields(r[i], ds[i], h, pm, decode)
  }

  /**
   * Each top-level destination yields one top-level bookmark, in order,
   * carrying that destination's title, page and level (children aside).
   */
  lemma {:induction false} ParseHeads(os: seq<Outline>, h: nat, pm: map<ObjectId, U32>, decode: Decoder)
    requires Resolves(os, pm)
    ensures HeadsMatch(Parse(os, h, pm, decode), TopDestinations(os), h, pm, decode)
    decreases |os|
  {
    if os != [] {
      var n := |os| - 1;
      ParseHeads(os[..n], h, pm, decode);
      ParseHeadsStep(os, h, pm, decode);
    }
  }

  lemma ParseHeadsStep(os: seq<Outline>, h: nat, pm: map<ObjectId, U32>, decode: Decoder)
    requires os != [] && Resolves(os, pm) && Resolves(os[..|os| - 1], pm)
    requires HeadsMatch(Parse(os[..|os| - 1], h, pm, decode), TopDestinations(os[..|os| - 1]), h, pm, decode)
    ensures HeadsMatch(Parse(os, h, pm, decode), TopDestinations(os), h, pm, decode)
  {
    var n := |os| - 1;
    var acc := Parse(os[..n], h, pm, decode);
    var ds0 := TopDestinations(os[..n]);
    var r := Parse(os, h, pm, decode);
    var ds := TopDestinations(os);
    if os[n].Destination? {
      assert ds == ds0 + [os[n]];
      assert r == acc + [NewBookMark(os[n].title, os[n].page, h, pm, decode)];
      forall i | 0 <= i < |r| ensures Yields(r[i], ds[i], h, pm, decode) {
        if i < |acc| {
          assert r[i] == acc[i] && ds[i] == ds0[i];
        }
      }
    } else {
      assert ds == ds0;
      if acc != [] {
        forall i | 0 <= i < |r| ensures Yields(r[i], ds[i], h, pm, decode) {
          assert Head(r[i]) == Head(acc[i]);
        }
      }
    }
  }

  /** Every bookmark's level is its depth below the level the parse started at. */
  lemma {:induction false} ParseLeveled(os: seq<Outline>, h: nat, pm: map<ObjectId, U32>, decode: Decoder)
    requires Resolves(os, pm)
    ensures Leveled(Parse(os, h, pm, decode), h)
    decreases os
  {
    if os != [] {
      var n := |os| - 1;
      ParseLeveled(os[..n], h, pm, decode);
      if os[n].SubOutlines? {
        ParseLeveled(os[n].children, h + 1, pm, decode);
      }
    }
  }

  /**
   * The display flags a fresh parse leaves: every node is shown exactly when
   * it is on the top level, and none is expanded.
   */
  predicate Pristine(f: seq<BookMark>, h: nat)
    decreases f
  {
    forall i :: 0 <= i < |f| ==> f[i].show == (h == 0) && !f[i].subShow && Pristine(f[i].sub, h + 1)
  }

  lemma {:induction false} ParsePristine(os: seq<Outline>, h: nat, pm: map<ObjectId, U32>, decode: Decoder)
    requires Resolves(os, pm)
    ensures Pristine(Parse(os, h, pm, decode), h)
    decreases os
  {
    if os != [] {
      var n := |os| - 1;
      ResolvesPrefix(os, n, pm);
      ParsePristine(os[..n], h, pm, decode);
      var acc := Parse(os[..n], h, pm, decode);
      if os[n].SubOutlines? {
        ParsePristine(os[n].children, h + 1, pm, decode);
        PristineAttach(acc, Parse(os[n].children, h + 1, pm, decode), h);
      } else {
        PristineAppend(acc, NewBookMark(os[n].title, os[n].page, h, pm, decode), h);
      }
    }
  }

  lemma PristineAttach(acc: seq<BookMark>, sub: seq<BookMark>, h: nat)
    requires Pristine(acc, h) && Pristine(sub, h + 1)
    ensures Pristine(Attach(acc, sub), h)
  {
    var r := Attach(acc, sub);
    forall i | 0 <= i < |r| ensures r[i].show == (h == 0) && !r[i].subShow && Pristine(r[i].sub, h + 1) {
      if i < |r| - 1 {
        assert r[i] == acc[i];
      }
    }
  }

  lemma PristineAppend(acc: seq<BookMark>, b: BookMark, h: nat)
    requires Pristine(acc, h) && b.show == (h == 0) && !b.subShow && b.sub == []
    ensures Pristine(acc + [b], h)
  {
    var r := acc + [b];
    assert Pristine(b.sub, h + 1);
    forall i | 0 <= i < |r| ensures r[i].show == (h == 0) && !r[i].subShow && Pristine(r[i].sub, h + 1) {
      if i < |acc| {
        assert r[i] == acc[i];
      }
    }
  }

  /**
   * A freshly parsed tree has every top-level node shown, siblings shown
   * together, and no expanded node with a hidden child.
   */
  lemma {:induction false} PristineInvariants(f: seq<BookMark>, h: nat)
    requires Pristine(f, h)
    ensures Uniform(f) && Coherent(f)
    ensures h == 0 ==> AllShown(f)
    decreases f
  {
    forall i | 0 <= i < |f| ensures Uniform(f[i].sub) && Coherent(f[i].sub) {
      PristineInvariants(f[i].sub, h + 1);
    }
  }

  /**
   * A SubOutlines entry gives the bookmark before it the parse of its
   * entries, one level deeper, as children, replacing any it had, and
   * changes nothing else; with no bookmark before it, it changes nothing.
   */
  lemma ParseAttach(os: seq<Outline>, cs: seq<Outline>, h: nat, pm: map<ObjectId, U32>, decode: Decoder)
    requires Resolves(os + [SubOutlines(cs)], pm)
    ensures Resolves(os, pm) && Resolves(cs, pm)
    ensures var before := Parse(os, h, pm, decode);
            var after := Parse(os + [SubOutlines(cs)], h, pm, decode);
            |after| == |before| &&
            (before == [] ==> after == []) &&
            (before != [] ==>
              after[..|after| - 1] == before[..|before| - 1] &&
              Head(after[|after| - 1]) == Head(before[|before| - 1]) &&
              after[|after| - 1].sub == Parse(cs, h + 1, pm, decode))
  {
    var all := os + [SubOutlines(cs)];
    assert all[..|os|] == os;
    assert all[|os|] == SubOutlines(cs);
  }

  /** A trailing SubOutlines entry attaches its parse to the parse of what precedes it. */
  lemma ParseLastSub(os: seq<Outline>, cs: seq<Outline>, h: nat, pm: map<ObjectId, U32>, decode: Decoder)
    requires Resolves(os + [SubOutlines(cs)], pm)
    ensures Resolves(os, pm) && Resolves(cs, pm)
    ensures Parse(os + [SubOutlines(cs)], h, pm, decode) == Attach(Parse(os, h, pm, decode), Parse(cs, h + 1, pm, decode))
  {
    var all := os + [SubOutlines(cs)];
    ResolvesPrefix(all, |os|, pm);
    assert all[..|os|] == os;
  }

  /** Of two SubOutlines entries in a row, only the second one's children remain. */
  lemma LaterChildrenReplace(os: seq<Outline>, a: seq<Outline>, b: seq<Outline>, h: nat,
                             pm: map<ObjectId, U32>, decode: Decoder)
    requires Resolves(os + [SubOutlines(a), SubOutlines(b)], pm)
    ensures Resolves(os + [SubOutlines(b)], pm)
    ensures Parse(os + [SubOutlines(a), SubOutlines(b)], h, pm, decode) == Parse(os + [SubOutlines(b)], h, pm, decode)
  {
    var oa := os + [SubOutlines(a)];
    assert os + [SubOutlines(a), SubOutlines(b)] == oa + [SubOutlines(b)];
    ParseLastSub(oa, b, h, pm, decode);
    ParseLastSub(os, a, h, pm, decode);
    ResolvesSnocSub(os, b, pm);
    ParseLastSub(os, b, h, pm, decode);
    AttachTwice(Parse(os, h, pm, decode), Parse(a, h + 1, pm, decode), Parse(b, h + 1, pm, decode));
  }

  /** SubOutlines entries at the very start of the outline are dropped. */
  lemma {:induction false} LeadingChildrenDropped(cs: seq<Outline>, os: seq<Outline>, h: nat,
                                                  pm: map<ObjectId, U32>, decode: Decoder)
    requires Resolves([SubOutlines(cs)] + os, pm)
    ensures Resolves(os, pm)
    ensures Parse([SubOutlines(cs)] + os, h, pm, decode) == Parse(os, h, pm, decode)
    decreases |os|
  {
    var all := [SubOutlines(cs)] + os;
    assert forall i :: 0 <= i < |os| ==> os[i] == all[i + 1];
    if os == [] {
      assert all[..0] == [];
    } else {
      var n := |os| - 1;
      assert all[..n + 1] == [SubOutlines(cs)] + os[..n];
      assert all[n + 1] == os[n];
      LeadingChildrenDropped(cs, os[..n], h, pm, decode);
    }
  }
}
