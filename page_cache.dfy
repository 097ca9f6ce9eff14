/**
 * The page cache (FileCache): a directory of rendered page images beside the
 * document, and a map from page number to "an image of this page is there".
 *
 * The directory listing read at start-up is an input: one entry per
 * directory entry, `None` for an entry the listing could not read and
 * `Some(name)` for a file name.
 */
module PageCache {
  import opened Wrappers
  import opened Text
  import opened FsPaths

  /** The suffix of the cache directory's name. */
  const CacheSuffix: string := "-rpr"
  /** The extension of a page image. */
  const ImageExtension: string := "jpeg"

  /**
   * FileCache::new: the directory named after the document's file stem with
   * "-rpr" appended, in the document's own directory.
   */
  function CacheDir(pdfPath: string): string
    requires PlainPath(pdfPath)
  {
    Join(Parent(pdfPath), FileStem(FileName(pdfPath)) + CacheSuffix)
  }

  /** The cache directory sits beside the document and is named `<stem>-rpr`. */
  lemma CacheDirBeside(pdfPath: string)
    requires PlainPath(pdfPath)
    ensures Parent(CacheDir(pdfPath)) == Parent(pdfPath)
    ensures FileName(CacheDir(pdfPath)) == FileStem(FileName(pdfPath)) + CacheSuffix
  {
    var stem := FileStem(FileName(pdfPath));
    var name := stem + CacheSuffix;
    assert '/' !in stem;
    assert name[|name| - 1] == 'r';
    assert PlainName(name);
    JoinParent(pdfPath, name);
    JoinFileName(Parent(pdfPath), name);
  }

  /** The name of a page image: `<page in decimal>.jpeg`. */
  function PageFile(p: U32): string
  {
    Decimal(p) + "." + ImageExtension
  }

  /** get_page_path: `<directory>/<page file>`. */
  function PagePath(dir: string, p: U32): string
  {
    dir + "/" + PageFile(p)
  }

  /** A page file name is a single component whose stem is the decimal page number. */
  lemma PageFileParts(p: U32)
    ensures '/' !in PageFile(p)
    ensures FileStem(PageFile(p)) == Decimal(p)
  {
    var d := Decimal(p);
    assert '/' !in PageFile(p) by {
      assert forall k :: 0 <= k < |d| ==> PageFile(p)[k] == d[k];
    }
    assert d != "." by {
      assert IsDigit(d[0]);
    }
    StemOfExtended(d, ImageExtension);
  }

  /**
   * The page file is named `<page>.jpeg`, its stem is the decimal page
   * number, and it lies in the cache directory.
   */
  lemma PagePathParts(dir: string, p: U32)
    ensures FileName(PagePath(dir, p)) == PageFile(p)
    ensures FileStem(FileName(PagePath(dir, p))) == Decimal(p)
    ensures dir != [] ==> Parent(PagePath(dir, p)) == dir
  {
    var name := PageFile(p);
    var s := PagePath(dir, p);
    PageFileParts(p);
    assert s == dir + ['/'] + name;
    LastIndexAfter(dir, '/', name);
    assert s[|dir| + 1..] == name;
    assert s[..|dir|] == dir;
  }

  /** Different pages are kept in different files. */
  lemma PagePathInjective(dir: string, p: U32, q: U32)
    requires PagePath(dir, p) == PagePath(dir, q)
    ensures p == q
  {
    PagePathParts(dir, p);
    PagePathParts(dir, q);
    DecimalInjective(p, q);
  }

  /** The page a directory entry names, when its file stem is a `u32`. */
  function EntryPage(entry: Option<string>): Option<U32>
  {
    match entry
    case None => None
    case Some(name) => ParseU32(FileStem(name))
  }

  /** The page each entry of the listing names, entry by entry. */
  function EntryPages(entries: seq<Option<string>>): (r: seq<Option<U32>>)
    ensures |r| == |entries| && forall i :: 0 <= i < |entries| ==> r[i] == EntryPage(entries[i])
  {
    seq(|entries|, i requires 0 <= i < |entries| => EntryPage(entries[i]))
  }

  /** The map of the named pages, each marked present, in listing order. */
  function Adopted(pages: seq<Option<U32>>): map<U32, bool>
    decreases |pages|
  {
    if pages == [] then map[]
    else
      var m := Adopted(pages[..|pages| - 1]);
      match pages[|pages| - 1]
      case None => m
      case Some(p) => m[p := true]
  }

  /** The map init_page_cache builds from the listing of the cache directory. */
  function AdoptedPages(entries: seq<Option<string>>): map<U32, bool>
  {
    Adopted(EntryPages(entries))
  }

  /** Entry `i` of the listing names page `p`. */
  predicate Names(pages: seq<Option<U32>>, i: int, p: U32)
  {
    0 <= i < |pages| && pages[i] == Some(p)
  }

  /** Every adopted page is marked present, and some entry names it. */
  lemma {:induction false} AdoptedSound(pages: seq<Option<U32>>, p: U32) returns (i: nat)
    requires p in Adopted(pages)
    ensures Adopted(pages)[p] && Names(pages, i, p)
    decreases |pages|
  {
    var n := |pages| - 1;
    if pages[n] == Some(p) {
      i := n;
    } else {
      i := AdoptedSound(pages[..n], p);
    }
  }

  /** Every page some entry names is adopted. */
  lemma {:induction false} AdoptedComplete(pages: seq<Option<U32>>, i: nat, p: U32)
    requires Names(pages, i, p)
    ensures p in Adopted(pages)
    decreases |pages|
  {
    var n := |pages| - 1;
    if i < n {
      AdoptedComplete(pages[..n], i, p);
    }
  }

  /**
   * init_page_cache adopts exactly the pages some entry of the listing names
   * by its file stem, each mapped to true; every other entry is ignored.
   */
  lemma AdoptedPagesExactly(entries: seq<Option<string>>)
    ensures forall p :: p in AdoptedPages(entries) ==> AdoptedPages(entries)[p]
    ensures forall p :: p in AdoptedPages(entries) <==>
              exists i :: 0 <= i < |entries| && EntryPage(entries[i]) == Some(p)
  {
    var pages := EntryPages(entries);
    forall p | p in Adopted(pages)
      ensures Adopted(pages)[p] && exists i :: 0 <= i < |entries| && EntryPage(entries[i]) == Some(p)
    {
      var i := AdoptedSound(pages, p);
    }
    forall p, i | 0 <= i < |entries| && EntryPage(entries[i]) == Some(p) ensures p in Adopted(pages) {
      AdoptedComplete(pages, i, p);
    }
  }

  /** A page image written into the cache directory is adopted again at the next start. */
  lemma SavedPageAdopted(dir: string, entries: seq<Option<string>>, i: nat, p: U32)
    requires i < |entries| && entries[i] == Some(FileName(PagePath(dir, p)))
    ensures p in AdoptedPages(entries) && AdoptedPages(entries)[p]
  {
    PagePathParts(dir, p);
    ParseDecimal(p);
    AdoptedComplete(EntryPages(entries), i, p);
    var j := AdoptedSound(EntryPages(entries), p);
  }

  /** init_page_cache: one pass over the listing, inserting each page an entry names. */
  method InitPageCache(entries: seq<Option<string>>) returns (cache: map<U32, bool>)
    ensures cache == AdoptedPages(entries)
  {
    cache := map[];
    ghost var pages := EntryPages(entries);
    for i := 0 to |entries|
      invariant cache == Adopted(pages[..i])
    {
      assert pages[..i + 1][..i] == pages[..i];
      var entry := entries[i];
      if entry.Some? {
        var pageId := ParseU32(FileStem(entry.value));
        if pageId.Some? {
          cache := cache[pageId.value := true];
        }
      }
    }
    assert pages[..|entries|] == pages;
  }

  /** A cache of rendered pages for one document. */
  class FileCache {
    /** The cache directory. */
    const path: string
    /** The pages known to have an image in the directory. */
    var pageCache: map<U32, bool>

    /** Every page in the map is marked present: the map never holds `false`. */
    ghost predicate Valid()
      reads this
    {
      forall p :: p in pageCache ==> pageCache[p]
    }

    /** FileCache::new, given the listing of the cache directory. */
    constructor (pdfPath: string, entries: seq<Option<string>>)
      requires PlainPath(pdfPath)
      ensures Valid()
      ensures path == CacheDir(pdfPath)
      ensures pageCache == AdoptedPages(entries)
    {
      path := CacheDir(pdfPath);
      var cache := InitPageCache(entries);
      AdoptedPagesExactly(entries);
      pageCache := cache;
    }

    /** save_page: mark one page present; every other entry stays as it was. */
    method SavePage(p: U32)
      requires Valid()
      modifies this
      ensures Valid()
      ensures pageCache == old(pageCache)[p := true]
      ensures GetPage(p).1
      ensures forall q :: q in old(pageCache) ==> q in pageCache && pageCache[q]
    {
      pageCache := pageCache[p := true];
    }

    /**
     * get_page_path: the file named `<page>.jpeg` in the cache directory; it
     * depends on the directory and the page alone.
     */
    function GetPagePath(p: U32): (r: string)
      reads this
      ensures FileName(r) == PageFile(p) && FileStem(FileName(r)) == Decimal(p)
      ensures path != [] ==> Parent(r) == path
      ensures forall q: U32 :: PagePath(path, q) == r ==> q == p
    {
      PagePathParts(path, p);
      forall q: U32 | PagePath(path, q) == PagePath(path, p) ensures q == p {
        PagePathInjective(path, q, p);
      }
      PagePath(path, p)
    }

    /**
     * get_page: the page's file path, always, with a flag that holds exactly
     * when the map marks the page present.
     */
    function GetPage(p: U32): (r: (string, bool))
      reads this
      ensures r.0 == PagePath(path, p)
      ensures r.1 <==> p in pageCache && pageCache[p]
    {
      var pagePath := GetPagePath(p);
      if p in pageCache && pageCache[p] then (pagePath, true) else (pagePath, false)
    }
  }
}
