/**
 * The application state (App): the selection in the bookmark list, the
 * current page and the render flag, and the commands that change them.
 *
 * The list selection (ratatui's ListState) is the field `selected`. The page
 * requests the renderer emits on the event bus are recorded, in order, in
 * `requests`.
 */
module Application {
  import opened Wrappers
  import opened Text
  import opened BookMarks
  import opened Outlines
  import opened FsPaths
  import opened Pdf
  import opened Catalog
  import opened PageCache

  /** What the key handler is doing: browsing, typing a search, or typing a page number. */
  datatype AppState = Normal | Search(text: string) | JumpPage(buffer: string)

  /**
   * Where a shift move stops when it starts at a row whose path has length
   * `origin`: a shallower row, or another top-level row when it starts at one.
   */
  predicate Stops(row: Path, origin: nat)
  {
    |row| < origin || (|row| == 1 && origin == 1)
  }

  /**
   * `r` is where a shift move up from row `index` lands: at least one row up
   * unless already at the top; the nearest row above that stops the move, or
   * row 0 when none does; every row passed over does not stop it.
   */
  predicate IsShiftPrevious(ui: seq<Path>, index: nat, r: nat)
    requires index < |ui|
  {
    && r <= index
    && (index > 0 ==> r < index)
    && (r > 0 ==> Stops(ui[r], |ui[index]|))
    && forall k :: r < k < index ==> !Stops(ui[k], |ui[index]|)
  }

  /**
   * `r` is where a shift move down from row `index` lands: at least one row
   * down unless already at the bottom; the nearest row below that stops the
   * move, or the last row when none does; every row passed over does not
   * stop it.
   */
  predicate IsShiftNext(ui: seq<Path>, index: nat, r: nat)
    requires index < |ui|
  {
    && index <= r < |ui|
    && (index < |ui| - 1 ==> index < r)
    && (r < |ui| - 1 ==> Stops(ui[r], |ui[index]|))
    && forall k :: index < k < r ==> !Stops(ui[k], |ui[index]|)
  }

  /** A shift move up has exactly one landing row. */
  lemma ShiftPreviousUnique(ui: seq<Path>, index: nat, r: nat, s: nat)
    requires index < |ui| && IsShiftPrevious(ui, index, r) && IsShiftPrevious(ui, index, s)
    ensures r == s
  {
  }

  /** A shift move down has exactly one landing row. */
  lemma ShiftNextUnique(ui: seq<Path>, index: nat, r: nat, s: nat)
    requires index < |ui| && IsShiftNext(ui, index, r) && IsShiftNext(ui, index, s)
    ensures r == s
  {
  }

  /** The shift branch of book_marks_previous: step up until a row stops the move or row 0 is reached. */
  method ShiftPrevious(ui: seq<Path>, index: nat) returns (r: nat)
    requires index < |ui|
    ensures IsShiftPrevious(ui, index, r)
  {
    r := index;
    var origin := |ui[index]|;
    while r > 0
      invariant r <= index
      invariant forall k :: r <= k < index ==> !Stops(ui[k], origin)
      decreases r
    {
      r := r - 1;
      if Stops(ui[r], origin) {
        break;
      }
    }
  }

  /** The shift branch of book_marks_next: step down until a row stops the move or the last row is reached. */
  method ShiftNext(ui: seq<Path>, index: nat) returns (r: nat)
    requires index < |ui|
    ensures IsShiftNext(ui, index, r)
  {
    r := index;
    var origin := |ui[index]|;
    while r < |ui| - 1
      invariant index <= r < |ui|
      invariant forall k :: index < k <= r ==> !Stops(ui[k], origin)
      decreases |ui| - r
    {
      r := r + 1;
      if Stops(ui[r], origin) {
        break;
      }
    }
  }

  class App {
    /** The document: its page count and its bookmark tree. */
    const pdf: PdfHandler
    /** The cache of rendered pages. */
    const pageCache: FileCache
    /** The selected row of the bookmark list, if any. */
    var selected: Option<nat>
    /** The index path of each row of the list, as last listed. */
    var uiBookMarks: Option<seq<Path>>
    /** The page shown. */
    var curPage: U32
    /** Has the current page been requested since the flag was last cleared? */
    var alreadyRender: bool
    /** Is a page being loaded? */
    var loading: bool
    var appState: AppState
    /** The first-page load requests emitted so far, in order. */
    var requests: seq<U32>
    /** How many times the render flag has gone from set to clear. */
    ghost var resets: nat

    /**
     * The document and the cache are consistent, every listed path leads to a
     * node of the tree, and at most one load request has been emitted per
     * clearing of the render flag (plus one for the start, when it is clear).
     */
    ghost predicate Valid()
      reads this, pdf, pageCache
    {
      && pdf.Valid()
      && pageCache.Valid()
      && (uiBookMarks.Some? ==> forall k :: 0 <= k < |uiBookMarks.value| ==> ValidPath(pdf.bookMarks, uiBookMarks.value[k]))
      && |requests| + (if alreadyRender then 0 else 1) == resets + 1
    }

    /** App::new: open the document at `path` on page `lastPage`, nothing selected or listed yet. */
    constructor (path: string, lastPage: U32, pageIds: seq<ObjectId>, outlines: Option<seq<Outline>>,
                 decode: Decoder, cacheEntries: seq<Option<string>>)
      requires PlainPath(path)
      requires |pageIds| < 0xFFFF_FFFF
      requires outlines.Some? ==> Resolves(outlines.value, PageMap(pageIds))
      ensures Valid() && fresh(pdf) && fresh(pageCache)
      ensures pdf.pageMap == PageMap(pageIds) && pdf.title == FileStem(FileName(path))
      ensures pdf.bookMarks == if outlines.Some? then Parse(outlines.value, 0, pdf.pageMap, decode) else []
      ensures pageCache.path == CacheDir(path) && pageCache.pageCache == AdoptedPages(cacheEntries)
      ensures selected == None && uiBookMarks == None
      ensures curPage == lastPage && !alreadyRender && loading && appState == Normal && requests == []
    {
      var cache := new FileCache(path, cacheEntries);
      var handler := new PdfHandler(path, pageIds, outlines, decode);
      pdf := handler;
      pageCache := cache;
      selected := None;
      uiBookMarks := None;
      curPage := lastPage;
      alreadyRender := false;
      loading := true;
      appState := Normal;
      requests := [];
      resets := 0;
    }

    /** Clear the render flag, counting a reset when it was set. */
    method ClearRendered()
      requires Valid()
      modifies this`alreadyRender, this`resets
      ensures Valid() && !alreadyRender
    {
      if alreadyRender {
        resets := resets + 1;
      }
      alreadyRender := false;
    }

    /**
     * book_marks_previous: with nothing selected, select row 0; otherwise move
     * up one row (not past row 0), or, with shift, to the landing row of a
     * shift move up. The listed paths must exist for a shift move, and the
     * selection must be one of them.
     */
    method BookMarksPrevious(isShift: bool)
      requires Valid()
      requires isShift && selected.Some? ==> uiBookMarks.Some? && selected.value < |uiBookMarks.value|
      modifies this`selected
      ensures Valid()
      ensures old(selected).None? ==> selected == Some(0)
      ensures old(selected).Some? && !isShift ==>
                selected == if old(selected).value > 0 then Some(old(selected).value - 1) else old(selected)
      ensures old(selected).Some? && isShift ==>
                selected.Some? && IsShiftPrevious(uiBookMarks.value, old(selected).value, selected.value)
    {
      match selected
      case Some(index) =>
        if isShift {
          var finalIndex := ShiftPrevious(uiBookMarks.value, index);
          selected := Some(finalIndex);
        } else if index > 0 {
          selected := Some(index - 1);
        }
      case None =>
        selected := Some(0);
    }

    /**
     * book_marks_next: with nothing selected, select row 0; otherwise move
     * down one row (not past the last row), or, with shift, to the landing row
     * of a shift move down. The list must have been built and be non-empty
     * (its length minus one is taken), and a shift move needs a listed
     * selection.
     */
    method BookMarksNext(isShift: bool)
      requires Valid()
      requires selected.Some? ==> uiBookMarks.Some? && |uiBookMarks.value| > 0
      requires isShift && selected.Some? ==> selected.value < |uiBookMarks.value|
      modifies this`selected
      ensures Valid()
      ensures old(selected).None? ==> selected == Some(0)
      ensures old(selected).Some? && !isShift ==>
                selected == if old(selected).value < |uiBookMarks.value| - 1 then Some(old(selected).value + 1)
                            else old(selected)
      ensures old(selected).Some? && isShift ==>
                selected.Some? && IsShiftNext(uiBookMarks.value, old(selected).value, selected.value)
    {
      match selected
      case Some(index) =>
        var ui := uiBookMarks.value;
        if isShift {
          var finalIndex := ShiftNext(ui, index);
          selected := Some(finalIndex);
        } else if index < |ui| - 1 {
          selected := Some(index + 1);
        }
      case None =>
        selected := Some(0);
    }

    /**
     * toggle_bookmark_expansion: when a listed row is selected, expand (`show`)
     * or collapse the node its path leads to; otherwise nothing changes.
     */
    method ToggleBookmarkExpansion(show: bool)
      requires Valid()
      requires selected.Some? && uiBookMarks.Some? ==> selected.value < |uiBookMarks.value|
      modifies pdf
      ensures Valid()
      ensures pdf.bookMarks ==
                if selected.Some? && uiBookMarks.Some? then Toggle(old(pdf.bookMarks), uiBookMarks.value[selected.value], show)
                else old(pdf.bookMarks)
      ensures pdf.bookMarksPages == old(pdf.bookMarksPages)
    {
      if selected.Some? && uiBookMarks.Some? {
        var ui := uiBookMarks.value;
        var index := ui[selected.value];
        ghost var was := pdf.bookMarks;
        pdf.SetExpansion(index, show);
        ToggleEffect(was, index, show);
        forall k | 0 <= k < |ui| ensures ValidPath(pdf.bookMarks, ui[k]) {
          SameShapeNodeAt(pdf.bookMarks, was, ui[k]);
        }
      }
    }

    /**
     * jump_to_book_mark_page: when a listed row is selected, go to the page of
     * the node its path leads to and clear the render flag; otherwise nothing
     * changes.
     */
    method JumpToBookMarkPage()
      requires Valid()
      requires selected.Some? && uiBookMarks.Some? ==> selected.value < |uiBookMarks.value|
      modifies this`curPage, this`alreadyRender, this`resets
      ensures Valid()
      ensures selected.Some? && uiBookMarks.Some? ==>
                curPage == NodeAt(pdf.bookMarks, uiBookMarks.value[selected.value]).value.num && !alreadyRender
      ensures !(selected.Some? && uiBookMarks.Some?) ==>
                curPage == old(curPage) && alreadyRender == old(alreadyRender)
    {
      if selected.Some? && uiBookMarks.Some? {
        var index := uiBookMarks.value[selected.value];
        var bookMark := pdf.FindBookMark(index);
        curPage := bookMark.value.num;
        ClearRendered();
      }
    }

    /**
     * next_page: move one page on while the page is below the page count
     * (taken as a `u32`), clearing the render flag; at the end nothing
     * changes. A page at or below the page count stays there.
     */
    method NextPage()
      requires Valid()
      modifies this`curPage, this`alreadyRender, this`resets
      ensures Valid()
      ensures old(curPage) < pdf.pageNums % 0x1_0000_0000 ==> curPage == old(curPage) + 1 && !alreadyRender
      ensures old(curPage) >= pdf.pageNums % 0x1_0000_0000 ==>
                curPage == old(curPage) && alreadyRender == old(alreadyRender)
      ensures old(curPage) <= pdf.pageNums ==> curPage <= pdf.pageNums
    {
      if curPage < pdf.pageNums % 0x1_0000_0000 {
        curPage := curPage + 1;
        ClearRendered();
      }
    }

    /** previous_page: move one page back unless on page 0, clearing the render flag. */
    method PreviousPage()
      requires Valid()
      modifies this`curPage, this`alreadyRender, this`resets
      ensures Valid()
      ensures old(curPage) > 0 ==> curPage == old(curPage) - 1 && !alreadyRender
      ensures old(curPage) == 0 ==> curPage == 0 && alreadyRender == old(alreadyRender)
    {
      if curPage > 0 {
        curPage := curPage - 1;
        ClearRendered();
      }
    }

    /**
     * render_pdf: when the current page has not been requested since the
     * flag was cleared, set the flag, mark loading and request the page;
     * otherwise do nothing.
     */
    method RenderPdf()
      requires Valid()
      modifies this`alreadyRender, this`loading, this`requests
      ensures Valid()
      ensures old(alreadyRender) ==>
                alreadyRender && loading == old(loading) && requests == old(requests)
      ensures !old(alreadyRender) ==>
                alreadyRender && loading && requests == old(requests) + [curPage]
    {
      if !alreadyRender {
        alreadyRender := true;
        loading := true;
        requests := requests + [curPage];
      }
    }

    /**
     * render_catalog, without the drawing: list the bookmark tree and keep
     * the rows' index paths for the commands above. Every listed path leads
     * to a node of the tree.
     */
    method RenderCatalog() returns (items: seq<string>)
      requires Valid()
      modifies this`uiBookMarks
      ensures Valid()
      ensures items == Labels(Rows(pdf.bookMarks, []))
      ensures uiBookMarks == Some(Paths(Rows(pdf.bookMarks, [])))
    {
      var indexVec, curIndex;
      items, indexVec, curIndex := ParseBookMarksItem(pdf.bookMarks, [], [], []);
      assert [] + Paths(Rows(pdf.bookMarks, [])) == Paths(Rows(pdf.bookMarks, []));
      assert [] + Labels(Rows(pdf.bookMarks, [])) == Labels(Rows(pdf.bookMarks, []));
      uiBookMarks := Some(indexVec);
      var rows := Rows(pdf.bookMarks, []);
      RowsSound(pdf.bookMarks, []);
      forall k | 0 <= k < |indexVec| ensures ValidPath(pdf.bookMarks, indexVec[k]) {
        assert indexVec[k] == rows[k].path && rows[k].path[0..] == rows[k].path;
      }
    }
  }
}
