/** The chapter locator of functions/book.py (`find_chapter`): a greedy scan of
    the document's pages for the chapter titles, the page range of the requested
    chapter, extraction of its text, and the chapter-text cache keyed by
    (book, chapter). The PDF is an input: one extracted text per page. */
module Book {
  import opened Text

  type Title = string

  /** The `chapters` dict: title -> recorded page (0 = never seen, -1 = not on the last page). */
  type Table = map<Title, int>

  /** Key of the chapter-text cache: (book name, chapter title). */
  type ChapterKey = (string, string)

  /** The exceptions `find_chapter` can raise on the scan path. */
  datatype Crash =
    | KeyMissing        // `chapters[chapter_name]` when the title is not in the list
    | NextTitleMissing  // `chapter_list[index + 1]` for the last title of the list
    | PageMissing       // `pdf.pages[i]` for an end page past the document

  /** Every way `find_chapter` can end. */
  datatype Outcome =
    | Cached(text: string)                       // cache hit, returned as stored
    | NotFound                                   // `return None`
    | Crashed(crash: Crash)                      // an exception escapes
    | Found(start: int, end: int, text: string)  // text extracted and saved

  // ---------------------------------------------------------------------------
  // The scan, as a reference definition

  /** `dict.fromkeys(chapter_list, 0)`. */
  function InitialTable(titles: seq<Title>): (t: Table)
    ensures t.Keys == set x | x in titles
    ensures forall x :: x in t ==> t[x] == 0
  {
    map x | x in titles :: 0
  }

  /** The inner `for chapter in chapter_list` loop on page `i`: the first title
      (in list order) found on the page gets `i`; on the last page the first
      title examined gets -1 if it is not there, and the loop stops. */
  function PageStep(table: Table, titles: seq<Title>, page: string, i: int, isLast: bool): (r: Table)
    requires forall j :: 0 <= j < |titles| ==> titles[j] in table
    ensures r.Keys == table.Keys
    decreases |titles|
  {
    if titles == [] then table
    else if Contains(page, titles[0]) then table[titles[0] := i]
    else if isLast then table[titles[0] := -1]
    else PageStep(table, titles[1..], page, i, isLast)
  }

  /** The table after the outer loop has processed pages `0 .. k-1`. */
  function ScanUpTo(titles: seq<Title>, pages: seq<string>, k: nat): (r: Table)
    requires k <= |pages|
    ensures r.Keys == set x | x in titles
  {
    if k == 0 then InitialTable(titles)
    else PageStep(ScanUpTo(titles, pages, k - 1), titles, pages[k - 1], k - 1, k - 1 == |pages| - 1)
  }

  /** One page writes its own index or -1, and nothing else. */
  lemma {:induction false} PageStepValues(table: Table, titles: seq<Title>, page: string, i: int, isLast: bool)
    requires forall j :: 0 <= j < |titles| ==> titles[j] in table
    ensures var r := PageStep(table, titles, page, i, isLast);
      forall x :: x in r ==> r[x] == table[x] || r[x] == i || r[x] == -1
    decreases |titles|
  {
    var r := PageStep(table, titles, page, i, isLast);
    if titles == [] {
      assert r == table;
    } else if Contains(page, titles[0]) {
      assert r == table[titles[0] := i];
    } else if isLast {
      assert r == table[titles[0] := -1];
    } else {
      assert r == PageStep(table, titles[1..], page, i, isLast);
      PageStepValues(table, titles[1..], page, i, isLast);
    }
  }

  /** After `k` pages every entry is 0, -1 or the index of a page already scanned. */
  lemma {:induction false} ScanRange(titles: seq<Title>, pages: seq<string>, k: nat)
    requires k <= |pages|
    ensures forall x :: x in ScanUpTo(titles, pages, k) ==>
              ScanUpTo(titles, pages, k)[x] == 0 || -1 <= ScanUpTo(titles, pages, k)[x] < k
  {
    if k > 0 {
      ScanRange(titles, pages, k - 1);
      PageStepValues(ScanUpTo(titles, pages, k - 1), titles, pages[k - 1], k - 1, k - 1 == |pages| - 1);
    }
  }

  /** The table after the whole scan (functions/book.py:38-47). */
  function Scan(titles: seq<Title>, pages: seq<string>): Table
  {
    ScanUpTo(titles, pages, |pages|)
  }

  // ---------------------------------------------------------------------------
  // An independent view of one page: which title it is attributed to

  /** Index of the first title, in list order, that occurs on `page`. */
  function FirstMatch(titles: seq<Title>, page: string): (r: Option<nat>)
    ensures r.Some? ==> r.value < |titles| && Contains(page, titles[r.value])
    ensures r.Some? ==> forall j :: 0 <= j < r.value ==> !Contains(page, titles[j])
    ensures r.None? ==> forall j :: 0 <= j < |titles| ==> !Contains(page, titles[j])
  {
    if titles == [] then None
    else if Contains(page, titles[0]) then Some(0)
    else match FirstMatch(titles[1..], page)
      case None => None
      case Some(j) => Some(j + 1)
  }

  /** Page `page` is attributed to title `t`: `t` is the first listed title on it. */
  predicate FirstMatchIs(titles: seq<Title>, page: string, t: Title)
  {
    var m := FirstMatch(titles, page);
    m.Some? && titles[m.value] == t
  }

  /** On a page other than the last, the inner loop records the page for the
      title FirstMatch picks and for no other title. */
  lemma {:induction false} PageStepInner(table: Table, titles: seq<Title>, page: string, i: int)
    requires forall j :: 0 <= j < |titles| ==> titles[j] in table
    ensures PageStep(table, titles, page, i, false) ==
              match FirstMatch(titles, page)
              case None => table
              case Some(j) => table[titles[j] := i]
    decreases |titles|
  {
    if titles != [] && !Contains(page, titles[0]) {
      PageStepInner(table, titles[1..], page, i);
    }
  }

  /** On the last page only the first listed title is examined: it gets the
      last page's index if it occurs there and -1 otherwise. */
  lemma FirstTitleRecorded(titles: seq<Title>, pages: seq<string>)
    requires |titles| > 0 && |pages| > 0
    ensures var n := |pages|;
      Scan(titles, pages)[titles[0]] == if Contains(pages[n - 1], titles[0]) then n - 1 else -1
  {
    var n := |pages|;
    assert Scan(titles, pages) ==
      PageStep(ScanUpTo(titles, pages, n - 1), titles, pages[n - 1], n - 1, true);
  }

  /** The last page changes the first listed title's entry and no other. */
  lemma LastPageTouchesFirstOnly(table: Table, titles: seq<Title>, page: string, i: int)
    requires forall j :: 0 <= j < |titles| ==> titles[j] in table
    requires |titles| > 0
    ensures PageStep(table, titles, page, i, true) ==
            table[titles[0] := if Contains(page, titles[0]) then i else -1]
  {
  }

  /** What one page does to the entry of a title other than the first listed one. */
  lemma StepOnLaterTitle(table: Table, titles: seq<Title>, page: string, i: int, isLast: bool, t: Title)
    requires forall j :: 0 <= j < |titles| ==> titles[j] in table
    requires |titles| > 0 && t in table && t != titles[0]
    ensures PageStep(table, titles, page, i, isLast)[t] ==
            if !isLast && FirstMatchIs(titles, page, t) then i else table[t]
  {
    if isLast {
      LastPageTouchesFirstOnly(table, titles, page, i);
    } else {
      PageStepInner(table, titles, page, i);
    }
  }

  /** Among pages `0 .. k-1` other than the last page of the document, `p`
      is the last one attributed to `t`, or 0 when none after page 0 is. */
  ghost predicate LastAttributed(titles: seq<Title>, pages: seq<string>, t: Title, k: nat, p: int)
    requires k <= |pages|
  {
    && 0 <= p
    && (p > 0 ==> p < k && p < |pages| - 1 && FirstMatchIs(titles, pages[p], t))
    && forall q :: p < q < k && q < |pages| - 1 ==> !FirstMatchIs(titles, pages[q], t)
  }

  /** Every other title ends at 0 or at a page before the last: the LAST page
      before the last one that is attributed to it (functions/book.py:40-44). */
  lemma {:induction false} LaterTitleUpTo(titles: seq<Title>, pages: seq<string>, t: Title, k: nat)
    requires t in titles && t != titles[0]
    requires k <= |pages|
    ensures LastAttributed(titles, pages, t, k, ScanUpTo(titles, pages, k)[t])
  {
    if k > 0 {
      LaterTitleUpTo(titles, pages, t, k - 1);
      var before := ScanUpTo(titles, pages, k - 1);
      assert t in before;
      StepOnLaterTitle(before, titles, pages[k - 1], k - 1, k - 1 == |pages| - 1, t);
      LastAttributedStep(titles, pages, t, k, before[t], ScanUpTo(titles, pages, k)[t]);
    }
  }

  /** Page `k-1` either is attributed to `t` and becomes its entry, or leaves
      the entry as it was. */
  lemma LastAttributedStep(titles: seq<Title>, pages: seq<string>, t: Title, k: nat, p: int, p': int)
    requires 0 < k <= |pages| && LastAttributed(titles, pages, t, k - 1, p)
    requires p' == if k - 1 < |pages| - 1 && FirstMatchIs(titles, pages[k - 1], t) then k - 1 else p
    ensures LastAttributed(titles, pages, t, k, p')
  {
  }

  /** LaterTitleUpTo for the finished scan. */
  lemma LaterTitleRecorded(titles: seq<Title>, pages: seq<string>, t: Title)
    requires t in titles && t != titles[0]
    ensures var p := Scan(titles, pages)[t];
      && (p == 0 || 1 <= p <= |pages| - 2)
      && (p > 0 ==> Contains(pages[p], t) && FirstMatchIs(titles, pages[p], t))
      && forall q :: p < q < |pages| - 1 ==> !FirstMatchIs(titles, pages[q], t)
  {
    LaterTitleUpTo(titles, pages, t, |pages|);
  }

  // ---------------------------------------------------------------------------
  // Extraction

  /** `chapter_text += page + " "` over a run of pages: each page followed by one space. */
  function Spaced(ps: seq<string>): string
  {
    if ps == [] then "" else ps[0] + " " + Spaced(ps[1..])
  }

  /** Appending one more page appends its text and one space. */
  lemma {:induction false} SpacedAppend(ps: seq<string>, p: string)
    ensures Spaced(ps + [p]) == Spaced(ps) + p + " "
  {
    if ps != [] {
      assert (ps + [p])[1..] == ps[1..] + [p];
      SpacedAppend(ps[1..], p);
    } else {
      assert Spaced([p]) == p + " " + Spaced([]);
    }
  }

  lemma SliceExtend(pages: seq<string>, start: nat, i: nat)
    requires start <= i < |pages|
    ensures pages[start..i + 1] == pages[start..i] + [pages[i]]
  {
  }

  /** The text of pages `start .. end` inclusive; "" when `end < start`. */
  function PageText(pages: seq<string>, start: nat, end: int): string
    requires end < |pages|
  {
    if end < start then "" else Spaced(pages[start..end + 1])
  }

  // ---------------------------------------------------------------------------
  // The locator, as a reference definition (functions/book.py:37-68 without the cache)

  function Locate(name: Title, titles: seq<Title>, pages: seq<string>): (r: Outcome)
    ensures !r.Cached?
    ensures r == Crashed(KeyMissing) <==> name !in titles
    ensures r.Found? ==> 1 <= r.start < |pages| && 1 <= r.end < |pages|
  {
    if name !in titles then Crashed(KeyMissing)
    else
      var table := Scan(titles, pages);
      ScanRange(titles, pages, |pages|);
      var start := table[name];
      if start == -1 || start == 0 then NotFound
      else
        var index := IndexOf(titles, name);
        if index + 1 >= |titles| then Crashed(NextTitleMissing)
        else
          var next := table[titles[index + 1]];
          var end := if next <= 0 then index + 5 else next;
          if end >= |pages| then Crashed(PageMissing)
          else Found(start, end, PageText(pages, start, end))
  }

  /** A title recorded at 0 or -1 is not found (functions/book.py:51-52). */
  lemma NotFoundWhenUnrecorded(name: Title, titles: seq<Title>, pages: seq<string>)
    requires name in titles
    ensures Locate(name, titles, pages) == NotFound <==> Scan(titles, pages)[name] in {0, -1}
  {
  }

  /** The boundaries of a found chapter: the start is the title's recorded page,
      the end is the next listed title's recorded page itself (not one before),
      and when that is 0 or -1 it is the title's list index + 5 (functions/book.py:54-66). */
  lemma FoundBoundaries(name: Title, titles: seq<Title>, pages: seq<string>)
    requires Locate(name, titles, pages).Found?
    ensures var r := Locate(name, titles, pages);
      var table := Scan(titles, pages);
      var index := IndexOf(titles, name);
      && index + 1 < |titles|
      && r.start == table[name]
      && (table[titles[index + 1]] > 0 ==> r.end == table[titles[index + 1]])
      && (table[titles[index + 1]] <= 0 ==> r.end == index + 5)
      && r.text == PageText(pages, r.start, r.end)
  {
  }

  /** A found chapter starts on a page that holds its title. Unless it is the
      first listed title, that page precedes the last page, no earlier-listed
      title occurs on it, and no later page before the last is attributed to it. */
  lemma FoundStartHoldsTitle(name: Title, titles: seq<Title>, pages: seq<string>)
    requires Locate(name, titles, pages).Found?
    ensures var r := Locate(name, titles, pages);
      && Contains(pages[r.start], name)
      && (name != titles[0] ==>
            && r.start <= |pages| - 2
            && FirstMatchIs(titles, pages[r.start], name)
            && forall q :: r.start < q < |pages| - 1 ==> !FirstMatchIs(titles, pages[q], name))
  {
    if name == titles[0] {
      FirstTitleRecorded(titles, pages);
    } else {
      LaterTitleRecorded(titles, pages, name);
    }
  }

  /** The first listed title can only start on the last page, so what is
      extracted for it is empty unless the document has exactly six pages. */
  lemma {:induction false} FirstChapterStartsOnLastPage(titles: seq<Title>, pages: seq<string>)
    requires |titles| > 1 && titles[1] != titles[0]
    requires Locate(titles[0], titles, pages).Found?
    ensures var r := Locate(titles[0], titles, pages);
      && r.start == |pages| - 1
      && (r.text == "" || (|pages| == 6 && r.text == pages[5] + " "))
  {
    var r := Locate(titles[0], titles, pages);
    FirstTitleRecorded(titles, pages);
    FoundBoundaries(titles[0], titles, pages);
    var next := Scan(titles, pages)[titles[1]];
    LaterTitleRecorded(titles, pages, titles[1]);
    assert IndexOf(titles, titles[0]) == 0;
    if r.start <= r.end {
      assert r.end == 5 && r.start == 5;
      assert pages[5..6] == [pages[5]];
      assert Spaced([pages[5]]) == pages[5] + " " + Spaced([]);
    }
  }

  /** When the first two listed titles are equal they share one entry, so the
      chapter found for them is the last page alone, followed by one space. */
  lemma FirstChapterRepeated(titles: seq<Title>, pages: seq<string>)
    requires |titles| > 1 && titles[1] == titles[0]
    requires Locate(titles[0], titles, pages).Found?
    ensures var r := Locate(titles[0], titles, pages);
      && r.start == r.end == |pages| - 1
      && r.text == pages[|pages| - 1] + " "
  {
    var r := Locate(titles[0], titles, pages);
    var n := |pages|;
    FirstTitleRecorded(titles, pages);
    FoundBoundaries(titles[0], titles, pages);
    assert IndexOf(titles, titles[0]) == 0;
    assert pages[n - 1..n] == [pages[n - 1]];
    assert Spaced([pages[n - 1]]) == pages[n - 1] + " " + Spaced([]);
  }

  /** The last listed title is never extracted: `chapter_list[index + 1]` raises
      before the branch meant for it runs (functions/book.py:57-60). */
  lemma LastChapterNeverFound(titles: seq<Title>, pages: seq<string>)
    requires |titles| > 0 && titles[|titles| - 1] !in titles[..|titles| - 1]
    ensures var r := Locate(titles[|titles| - 1], titles, pages);
      r == NotFound || r == Crashed(NextTitleMissing)
  {
    var name := titles[|titles| - 1];
    var index := IndexOf(titles, name);
  }

  /** The scan path's method: the nested loops fill the table, the end page is
      computed, and the pages are concatenated one by one. */
  method ScanPages(titles: seq<Title>, pages: seq<string>) returns (chapters: Table)
    ensures chapters == Scan(titles, pages)
  {
    chapters := map x | x in titles :: 0;
    var i := 0;
    while i < |pages|
      invariant 0 <= i <= |pages|
      invariant chapters == ScanUpTo(titles, pages, i)
    {
      var page := pages[i];
      var isLast := i == |pages| - 1;
      ghost var before := chapters;
      var j := 0;
      while j < |titles|
        invariant 0 <= j <= |titles|
        invariant chapters == before
        invariant PageStep(before, titles, page, i, isLast) == PageStep(before, titles[j..], page, i, isLast)
      {
        if Contains(page, titles[j]) {
          chapters := chapters[titles[j] := i];
          break;
        }
        if isLast {
          chapters := chapters[titles[j] := -1];
          break;
        }
        assert titles[j..][1..] == titles[j + 1..];
        j := j + 1;
      }
      i := i + 1;
    }
  }

  method LocateChapter(name: Title, titles: seq<Title>, pages: seq<string>) returns (r: Outcome)
    ensures r == Locate(name, titles, pages)
  {
    var chapters := ScanPages(titles, pages);
    if name !in chapters {
      return Crashed(KeyMissing);
    }
    if chapters[name] == -1 || chapters[name] == 0 {
      return NotFound;
    }
    ScanRange(titles, pages, |pages|);
    var index := IndexOf(titles, name);
    var start := chapters[name];
    if index + 1 >= |titles| {
      return Crashed(NextTitleMissing);
    }
    var end := chapters[titles[index + 1]];
    if index == |titles| - 1 {
      end := |pages| - 1;
    } else if end <= 0 {
      end := index + 5;
    }
    var text := "";
    var i := start;
    while i < end + 1
      invariant start <= i <= |pages|
      invariant i <= end + 1 || i == start
      invariant text == Spaced(pages[start..i])
    {
      if i >= |pages| {
        return Crashed(PageMissing);
      }
      SpacedAppend(pages[start..i], pages[i]);
      SliceExtend(pages, start, i);
      text := text + pages[i] + " ";
      i := i + 1;
    }
    return Found(start, end, text);
  }

  // ---------------------------------------------------------------------------
  // The chapter-text cache (functions.prompt_caching.get_chapter / save_chapter)

  class ChapterCache {
    var entries: map<ChapterKey, string>

    constructor ()
      ensures entries == map[]
    {
      entries := map[];
    }
  }

  /** `find_chapter` as a function of the cache contents. */
  function FindChapterSpec(entries: map<ChapterKey, string>, book: string, name: Title,
                           titles: seq<Title>, pages: seq<string>): Outcome
  {
    if (book, name) in entries then Cached(entries[(book, name)])
    else Locate(name, titles, pages)
  }

  /** A cache hit returns the stored text, whatever the document and the list
      are: no page is read (functions/book.py:33-34). */
  lemma CacheHitIgnoresDocument(entries: map<ChapterKey, string>, book: string, name: Title,
                                titles: seq<Title>, pages: seq<string>,
                                otherTitles: seq<Title>, otherPages: seq<string>)
    requires (book, name) in entries
    ensures FindChapterSpec(entries, book, name, titles, pages) == Cached(entries[(book, name)])
    ensures FindChapterSpec(entries, book, name, titles, pages) ==
            FindChapterSpec(entries, book, name, otherTitles, otherPages)
  {
  }

  /** A title missing from the list gets past `find_chapter` only on a cache
      hit; otherwise `chapters[chapter_name]` raises (functions/book.py:33-34
      and 51). */
  lemma UnlistedTitleNeedsCache(entries: map<ChapterKey, string>, book: string, name: Title,
                                titles: seq<Title>, pages: seq<string>)
    requires name !in titles
    ensures FindChapterSpec(entries, book, name, titles, pages) == Crashed(KeyMissing)
            <==> (book, name) !in entries
  {
  }

  /** `find_chapter(book_name, chapter_name, chapter_list)`: a cache hit returns
      the stored text; otherwise the scan path's text, "" included, is saved under
      (book, chapter) before it is returned, and every other path saves nothing. */
  method FindChapter(cache: ChapterCache, book: string, name: Title,
                     titles: seq<Title>, pages: seq<string>) returns (r: Outcome)
    modifies cache
    ensures r == FindChapterSpec(old(cache.entries), book, name, titles, pages)
    ensures cache.entries ==
            if r.Found? then old(cache.entries)[(book, name) := r.text] else old(cache.entries)
  {
    if (book, name) in cache.entries {
      return Cached(cache.entries[(book, name)]);
    }
    r := LocateChapter(name, titles, pages);
    if r.Found? {
      cache.entries := cache.entries[(book, name) := r.text];
    }
  }
}
