# pdf-terminal-reader core, in Dafny

This project models the core of a terminal PDF viewer written in Rust:

- **Bookmark tree** (`src/pdf.rs`). The document's outline is parsed into a tree of bookmarks. The tree is flattened into its list of leaves, and a node is looked up by its index path. The reverse lookup finds the bookmark for the current page: it scans the leaf list and then expands the ancestors of the leaf it settles on.
- **Application commands** (`src/app.rs`). These move the selection in the bookmark list, with and without shift. They also expand or collapse the selected bookmark, jump to its page, and step the current page forwards and backwards.
- **Catalog pane** (`src/ui.rs`). The visible bookmarks are flattened into labelled rows, each with its index path. The render flag decides when the current page is requested. A page number being typed is displayed.
- **Page cache** (`src/cache.rs`). Rendered page images live in a directory named after the document. The cache keeps a map of the pages that have an image and builds the image file paths.

## How the model is built

The bookmark tree is a value, `seq<BookMark>`, and a node is addressed by its `Path`, the list of child indices from the root list downwards (`BookMarkIndex` in the source). The source keeps parent back-links. Here a node's parent is the node at its path minus the last index (`BookMarks.ParentHoldsChild`).

The leaf list is a list of paths into the same tree. A flag changed through a leaf is therefore seen by every later lookup in the tree, as it is through the shared `Rc<RefCell<…>>` nodes.

The state that changes in place uses classes:

- `Pdf.PdfHandler` holds the tree and the leaf list.
- `Application.App` holds the selection, current page, render flag, list paths and emitted page requests.
- `PageCache.FileCache` holds the page map.

Each class has a `Valid()` invariant that every command preserves. Loops are methods proved against a specification function:

| method | specification function |
|---|---|
| `ParseOutlines` | `Parse` |
| `MapBookMarksPages` | `LeafPaths` |
| `SearchLeaves` | `Search` |
| `ShowParents` | `Reveal` |
| `ParseBookMarksItem` | `Rows` |
| `InitPageCache` | `AdoptedPages` |

Properties of each function are proved as lemmas.

Several parts of the system are inputs to the model:

- The PDF library's outline and page list are input values: the `Outline` datatype and a sequence of page object ids.
- The title decoder is a function parameter (`Decoder`).
- The cache directory listing is a sequence of entries. An unreadable entry is `None`; a readable one is `Some(file name)`.
- The page requests sent on the event bus are recorded in `App.requests`.

Where the source would panic (an `unwrap` on `None`, an index out of range, an unsigned subtraction below zero), the model has a precondition. In the page scan it returns the `Panic` outcome instead, and the caller requires that this outcome does not occur.

Three behaviours of the code that a reader might not expect are kept as they are:

- **Exact match.** An exact match returns at `src/pdf.rs:259`, before the ancestor walk, so the ancestors of that leaf are not expanded.
- **Scan steps.** The scan is not a standard binary search. A lower page moves `left` by one, not to `mid + 1`. It aborts when the page is below every leaf page or above every leaf page.
- **Sorting.** The code never checks that the leaf list is sorted by page, so the model does not assume it. The nearest-leaf properties are stated for a sorted list, and the rest hold on any list.

## Model

| member | source | states |
|---|---|---|
| Outlines.PageMap | src/pdf.rs:126 | the page map has exactly the listed page ids as keys; each id maps to a 1-based position at which it is listed, and it is not listed again after that position (the last pair collected wins) |
| Outlines.PageNumbering | src/pdf.rs:126-127 | for distinct page ids, the page at position i is page i + 1, and the page count (the size of the map) is the number of pages |
| Outlines.ParseHeads | src/pdf.rs:195-228 | each top-level destination yields exactly one top-level bookmark, in order, with that destination's decoded title (or "unknown"), its page (0 when not a reference) and the parse level |
| Outlines.ParseSnocDestination | src/pdf.rs:198-215 | parsing one more destination appends exactly its new bookmark |
| Outlines.ParseSnocSub | src/pdf.rs:216-226 | parsing one more SubOutlines entry replaces the children of the last bookmark by the parse of its entries one level deeper, and drops them when there is no bookmark yet |
| Outlines.ParseAttach | src/pdf.rs:216-226 | after a trailing SubOutlines entry the bookmarks are the same in number; all but the last are unchanged; the last keeps its title, page and flags and has the parse of the entries, one level deeper, as its children |
| Outlines.ParseLastSub | src/pdf.rs:216-226 | parsing a trailing SubOutlines entry is attaching the parse of its entries to the parse of what precedes it |
| Outlines.LaterChildrenReplace | src/pdf.rs:219-223 | of two SubOutlines entries in a row, only the second one's children remain on the bookmark before them |
| Outlines.LeadingChildrenDropped | src/pdf.rs:219-225 | SubOutlines entries with no bookmark before them are dropped without changing the rest of the parse |
| Outlines.ParseLeveled | src/pdf.rs:210-218 | every parsed bookmark's level is its depth below the level the parse started at |
| Outlines.ParsePristine | src/pdf.rs:210-214 | every parsed bookmark is shown exactly when it is on the top level, and none is expanded |
| Outlines.PristineInvariants | src/pdf.rs:210-214 | a freshly parsed tree has its top level shown, siblings shown or hidden together, and every expanded node's children shown |
| Pdf.PdfHandler.ParseOutlines | src/pdf.rs:194-230 | the loop that pushes into the caller's list builds exactly the tree `Parse` describes |
| Pdf.PdfHandler.constructor | src/pdf.rs:116-139 | the handler numbers the pages, takes the title from the file stem, parses the outline (no bookmarks without one) and lists its leaves; the tree and leaf list satisfy the handler's invariant |
| Leaves.MapBookMarksPages | src/pdf.rs:232-244 | the recursive pass appends exactly the leaf paths of the tree, in order, to the caller's list |
| Leaves.LeavesAreLeaves | src/pdf.rs:232-244 | every listed path leads to a node without children; internal nodes never appear |
| Leaves.LeavesComplete | src/pdf.rs:232-244 | every node without children is listed |
| Leaves.LeavesInPreorder | src/pdf.rs:232-244 | the leaves come out in strict left-to-right preorder, so none is listed twice |
| Leaves.SameShapeLeaves | src/pdf.rs:237-242 | the leaf list depends only on the tree's shape, never on its display flags |
| Leaves.SameShapeLeafNums | src/pdf.rs:257-258 | changing display flags changes no leaf's page, so the scan sees the same pages |
| Pdf.PdfHandler.FindBookMark | src/pdf.rs:162-179 | with the first index in range (it is unwrapped), the lookup returns the node reached by descending along the path, and None for an empty path or an out-of-range index below the top level |
| BookMarks.InvalidPrefix | src/pdf.rs:168-172 | once a prefix of the path leads nowhere, so does the whole path, which is why the lookup can stop there |
| BookMarks.ParentIndex | src/pdf.rs:366-372 | the parent index drops exactly the last index of a path longer than one and leaves shorter paths as they are |
| BookMarks.ParentHoldsChild | src/pdf.rs:219-223 | the parent index of a node leads to a node that holds it as the child at its last index, as the parent back-link does |
| LeafSearch.SearchFrom | src/pdf.rs:255-273 | the scan between two bounds never reports "no leaves"; a hit is a leaf on exactly the page, and a settled index is in range |
| LeafSearch.Search | src/pdf.rs:247-273 | the whole scan reports "no leaves" exactly for an empty list; its hits and settled indices are in range, a hit on exactly the page |
| LeafSearch.SearchLeaves | src/pdf.rs:247-274 | the loop ends as the scan does; on a sorted list it aborts exactly when the page is below the first or above the last leaf page, hits exactly when some leaf is on the page, and otherwise settles on the last leaf before the page with every later leaf after it |
| Pdf.PdfHandler.ShowParents | src/pdf.rs:275-296 | the parent walk leaves the tree as `Reveal` describes it and keeps the leaf list and the handler's invariant |
| Pdf.PdfHandler.FindBookMarkByPageNum | src/pdf.rs:246-298 | None exactly without leaves; otherwise a listed leaf. A hit is on the page and changes nothing; a settled leaf has its ancestors expanded. On a sorted list, a miss returns the last leaf before the page. The leaf list and invariant are kept |
| Pdf.LookupIdempotent | src/pdf.rs:246-298 | looking up the same page twice leaves the tree as looking it up once |
| BookMarks.Reveal | src/pdf.rs:277-296 | the ancestor walk changes display flags only: titles, pages, levels and children stay as they were |
| BookMarks.StopLevel | src/pdf.rs:286-294 | the walk stops at the nearest expanded ancestor, or at the root when no ancestor is expanded |
| BookMarks.RevealExpandsParent | src/pdf.rs:286-291 | after the walk from a node below the top level, its parent is expanded |
| BookMarks.RevealExpandsChain | src/pdf.rs:277-296 | after the walk, every ancestor from the one where it stopped down to the node's parent is expanded |
| BookMarks.RevealShowsChain | src/pdf.rs:277-296 | in a tree where expanded nodes show their children, the walk leaves shown every node on the path from below the stopping ancestor down to the node itself |
| BookMarks.RevealFrame | src/pdf.rs:277-296 | the walk changes no node except the ancestors it expands (those strictly below the first one already expanded) and their direct children; every other node keeps its flags |
| BookMarks.RevealAboveStop | src/pdf.rs:286-294 | the first ancestor found already expanded, and every ancestor above it, keep their flags: the walk stops there |
| BookMarks.RevealMonotone | src/pdf.rs:286-291 | the walk only expands: no shown node is hidden and no expanded node collapsed |
| BookMarks.RevealIdempotent | src/pdf.rs:286-294 | a second walk from the same node changes nothing, because it stops at the parent the first one expanded |
| BookMarks.RevealInvariants | src/pdf.rs:277-296 | the walk keeps siblings shown together, expanded nodes' children shown, and the top level shown |
| BookMarks.StopLevelAfterToggle | src/pdf.rs:286-295 | expanding the node the walk has reached does not change where the rest of the walk stops |
| BookMarks.ExpandMonotone | src/pdf.rs:287-291 | expanding one node hides nothing and collapses nothing |
| BookMarks.ExpandShowsChild | src/pdf.rs:289-291 | expanding a node shows each of its children |
| BookMarks.ShowChildren | src/app.rs:131-135 | the per-child loop sets the node's expanded flag and every direct child's `show`, and changes nothing else |
| BookMarks.ToggleEffect | src/app.rs:126-139 | on a node with children, expansion sets its expanded flag and each direct child's `show`. Grandchildren, every other node and the tree's shape are unchanged. A leaf is left alone |
| BookMarks.ToggleInvariants | src/app.rs:131-135 | expanding or collapsing keeps siblings shown together, expanded nodes' children shown, and the top level shown |
| Pdf.PdfHandler.SetExpansion | src/app.rs:130-136 | the in-place change on the node looked up mutably is that toggle; the leaf list and the handler's invariant are kept |
| Application.ShiftPrevious | src/app.rs:72-87 | the shift move up lands at least one row up, unless already at the top. It lands on the nearest row above that is shallower than the start, or is top-level when the start is, or on row 0. Every row passed over fails that test |
| Application.ShiftNext | src/app.rs:101-115 | the shift move down mirrors the move up: it lands at least one row down, unless already at the bottom, on the nearest row below that stops it, or on the last row; the landing row stays in range |
| Application.ShiftPreviousUnique | src/app.rs:74-86 | the landing row of a shift move up is uniquely determined |
| Application.ShiftNextUnique | src/app.rs:102-114 | the landing row of a shift move down is uniquely determined |
| Application.App.constructor | src/app.rs:45-60 | a new app opens the document (its page map, its title from the file stem, and the tree parsed from its outline, or none without one) and its cache (the directory beside the document holding exactly the adopted pages), on the given page, with nothing selected or listed, the render flag clear, loading set and no request emitted |
| Application.App.ClearRendered | src/app.rs:147 | clearing the render flag keeps the one-request-per-reset invariant |
| Application.App.BookMarksPrevious | src/app.rs:70-96 | with no selection, row 0 is selected. Without shift, the selection moves up one row only from a row above 0. With shift, it moves to the landing row of a shift move up |
| Application.App.BookMarksNext | src/app.rs:98-124 | with no selection, row 0 is selected. Without shift, the selection moves down one row only from a row above the last. With shift, it moves to the landing row of a shift move down |
| Application.App.ToggleBookmarkExpansion | src/app.rs:126-139 | with a listed row selected, the node its path leads to is expanded or collapsed as the toggle describes; otherwise the tree is unchanged; the leaf list is kept |
| Application.App.JumpToBookMarkPage | src/app.rs:141-150 | with a listed row selected, the current page becomes the page of the selected bookmark and the render flag is cleared; otherwise neither changes |
| Application.App.NextPage | src/app.rs:152-157 | the page moves on by one only while it is below the page count (cast to `u32`), clearing the render flag; a page at or below the page count never passes it |
| Application.App.PreviousPage | src/app.rs:159-164 | the page moves back by one only from a page above 0, clearing the render flag; on page 0 nothing changes |
| Application.App.RenderPdf | src/ui.rs:82-89 | only with the flag clear does rendering set it, set loading and request the current page; with it set nothing changes, so at most one request is emitted per clearing of the flag |
| Application.App.RenderCatalog | src/ui.rs:91-103 | the catalog lists the labels of the visible rows and keeps their paths, every one of which leads to a node of the tree |
| Catalog.ParseBookMarksItem | src/ui.rs:105-127 | labels and paths are appended in lockstep, one of each per visible row in preorder, and the current path comes back as it was passed |
| Catalog.RowsHidden | src/ui.rs:109-111 | a hidden node adds no row, for itself or its subtree, and is not counted |
| Catalog.RowsShown | src/ui.rs:112-125 | a shown node adds its own row at the parent's path extended by the count of shown siblings before it, then its children's rows, and is counted |
| Catalog.UniformCount | src/ui.rs:107-124 | when siblings are shown together, the shown-sibling counter of a shown node is its index among its siblings |
| Catalog.RowsSound | src/ui.rs:105-127 | when siblings are shown together, every row's path is the index path of a node that, with all its ancestors, is shown, and the row carries that node's label |
| Catalog.RowsComplete | src/ui.rs:105-127 | when siblings are shown together, every node that is shown with all its ancestors has a row, whatever their expanded flags |
| Catalog.LabelLayout | src/ui.rs:113-116 | a row label is one space per level, the name, and " ▼" when expanded, " ▶" when collapsed with children, nothing for a leaf |
| Catalog.JumpPageNumber | src/ui.rs:42-43 | a typed page number is displayed as its `u32` value, and 0 when it does not parse |
| Catalog.JumpPageRoundTrip | src/ui.rs:42-43 | a buffer holding the decimal form of a page displays that page |
| Text.Spaces | src/ui.rs:116 | the indentation is exactly n spaces |
| Text.ParseU32 | src/cache.rs:39 | an accepted string is non-empty and unsigned, and its digits (after an optional `+`) denote the value |
| Text.Decimal | src/cache.rs:63 | the decimal form of a number is a non-empty run of digits without a leading zero |
| Text.ParseDecimal | src/cache.rs:63 | the `u32` parser reads back the decimal form of every `u32` |
| Text.DecimalInjective | src/cache.rs:63 | distinct numbers have distinct decimal forms |
| PageCache.CacheDirBeside | src/cache.rs:18-22 | the cache directory is in the document's own directory and is named the document's file stem followed by "-rpr" |
| PageCache.PageFileParts | src/cache.rs:63 | a page file name is one path component whose stem is the page in decimal |
| PageCache.PagePathParts | src/cache.rs:61-64 | a page path is a file named `<page>.jpeg`, whose stem is the page in decimal, inside the cache directory |
| PageCache.PagePathInjective | src/cache.rs:61-64 | different pages get different page paths |
| PageCache.AdoptedSound | src/cache.rs:35-44 | every adopted page is marked present and is named by some entry of the listing |
| PageCache.AdoptedComplete | src/cache.rs:35-44 | every page some entry names by its file stem is adopted |
| PageCache.AdoptedPagesExactly | src/cache.rs:30-45 | start-up adopts exactly the pages named by some readable entry's `u32` file stem, all marked present; no other entry contributes |
| PageCache.SavedPageAdopted | src/cache.rs:35-64 | a page image written at its page path is adopted again when the cache directory is listed at the next start |
| PageCache.InitPageCache | src/cache.rs:30-45 | the pass over the listing builds exactly the adopted map |
| PageCache.FileCache.constructor | src/cache.rs:18-28 | a new cache sits in the cache directory beside the document and holds exactly the adopted pages, all marked present |
| PageCache.FileCache.SavePage | src/cache.rs:47-49 | saving marks the page present and keeps every other entry; no entry is lost and none turns false, and the page then reads as present |
| PageCache.FileCache.GetPagePath | src/cache.rs:61-64 | the page path names the file `<page>.jpeg`, whose stem is the page in decimal, inside the cache directory; no other page has that path |
| PageCache.FileCache.GetPage | src/cache.rs:51-59 | the page path always comes back, with a flag that is true exactly when the page is marked present |

## Left out

- Document loading by the PDF library (`Document::load`, `get_outlines`, `page_iter`) is not modelled: the outline and the page ids are inputs.
- Title decoding (`src/decode.rs`) is a function parameter.
- The `unwrap` of a destination's title and page objects is not modelled: every destination carries both.
- A page reference missing from the page map is excluded by the precondition `Resolves`, because the source unwraps that lookup.
- Book titles that are not valid UTF-8 are not modelled: names are strings.
- `PdfSize` scaling (`increment`, `decrement`, `update`) and `App::increment_pdf_size`/`decrement_pdf_size` are not modelled: they are floating-point layout sizes.
- The read-ahead pipeline (`next_load_page`) is not modelled: nothing in the core acts on it.
- The page request of `render_pdf` is recorded in `App.requests` instead of being sent on the event bus (`src/event.rs`).
- The `running` flag, `tick` and `quit` are not modelled.
- Editing of the search and jump-to-page buffers is not modelled: neither the core files nor `src/event.rs`, `src/handler.rs` and `src/main.rs` edit them. `app_state` is only set to `Normal` at `src/app.rs:58` and read at `src/ui.rs:20-43`, and `src/event.rs:29` only declares a `ChangeState` event.
- `FileCache::convert_pdf_to_ppm` is not modelled: it runs an external converter, writes a file and sends an event.
- The creation of the cache directory and `read_dir` are not modelled: the listing is an input.
- `src/main.rs`, `src/handler.rs`, `src/image.rs`, `src/history.rs` and `src/lib.rs` are not part of this model.
- The ratatui drawing in `src/ui.rs` (`render`, `render_title`, `render_search_box`, the list widget) is not modelled; `RenderCatalog` keeps only the rows and their paths.
- Parent back-links are not stored: a node's parent is the node at its path minus the last index.
- The parent assignments at `src/pdf.rs:220-222` are implied by the tree's shape.
- `find_book_mark_mut`, called at `src/app.rs:130`, is not defined in `src/pdf.rs`. It is modelled as the path lookup together with the in-place change `SetExpansion`.
- `parse_book_marks_item` is modelled on the tree of values.
- `BookMarkIndex::len` is not a separate member: it is the length of a `Path`.
- `BookMark` levels are unbounded (`nat`) rather than `u32`: a 2^32-deep outline is not modelled.
- Paths are plain Unix paths (no `.` or empty components, UTF-8 names): the component normalisation of `std::path` is not modelled.
- Pdf.PdfHandler.FindBookMarkByPageNum: requires that the scan does not abort. The source panics when the page is below the first or above the last leaf page of a sorted list.
- Pdf.PdfHandler.FindBookMarkByPageNum: "the last leaf before the page" is stated only for a leaf list sorted by page. On an unsorted list the model follows the same steps, but no closer property is claimed.
- LeafSearch.SearchLeaves: the aborts, hits and nearest leaf are characterised only on a sorted list; on any list only the agreement with `Search` and the range facts are stated.
- Pdf.PdfHandler.FindBookMark: requires the first index to be in range. The source unwraps it.
- Application.App.BookMarksPrevious: requires a listed selection for a shift move. The source unwraps the list and indexes it.
- Application.App.BookMarksNext: requires a built, non-empty list whenever something is selected. The source unwraps the list and takes its length minus one.
- Application.App.ToggleBookmarkExpansion: requires a listed selection. The source indexes the list with it.
- Application.App.JumpToBookMarkPage: requires a listed selection. The source indexes the list with it.
