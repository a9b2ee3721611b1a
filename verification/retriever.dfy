/**
 * The retrieval side of the pipeline (rag/retriever.py): PDF pages become
 * labelled page records, pages are cut into overlapping character windows,
 * window texts are embedded into an index whose rows parallel the chunk
 * list, and the row numbers a nearest-neighbour search returns are mapped
 * back to chunk records.
 *
 * The embedding model is the parameter `embed` (any function from text to
 * an abstract vector type `V`), and the vector search is either a given
 * list of row labels or the parameter `search`.
 */
module Retriever {
  import opened Results
  import opened Text

  const ChunkSize: nat := 500
  const ChunkOverlap: nat := 50
  const DefaultTopK: nat := 3

  /** One non-empty page of one PDF file, with its provenance label. */
  datatype Page = Page(source: string, text: string)

  /** A window of a page's text, tagged with the page's label. */
  datatype Chunk = Chunk(text: string, source: string)

  /** A file of the document folder, in listing order, with the raw text of its pages. */
  datatype SourceFile = SourceFile(name: string, pages: seq<string>)

  function Min(a: int, b: int): int {
    if a <= b then a else b
  }

  // ---------------------------------------------------------------------------
  // load_documents

  /** The provenance label of page `pageNo` of file `name`. */
  function Label(name: string, pageNo: nat): string {
    name + " - Page " + Decimal(pageNo)
  }

  /** Whether the lower-cased file name ends in ".pdf". */
  predicate IsPdf(name: string) {
    EndsWith(Lower(name), ".pdf")
  }

  /** The record page `pageNo` yields: none when its stripped text is empty. */
  function PageRecord(name: string, pageNo: nat, raw: string): seq<Page> {
    var text := Strip(raw);
    if text == [] then [] else [Page(Label(name, pageNo), text)]
  }

  /** The records of the pages `texts` of file `name`, numbered from 1. */
  function PageRecords(name: string, texts: seq<string>): seq<Page> {
    if texts == [] then []
    else PageRecords(name, texts[..|texts| - 1]) + PageRecord(name, |texts|, texts[|texts| - 1])
  }

  function FileRecords(f: SourceFile): seq<Page> {
    if IsPdf(f.name) then PageRecords(f.name, f.pages) else []
  }

  /** The page records of all files, file by file in listing order. */
  function LoadAll(files: seq<SourceFile>): seq<Page> {
    if files == [] then []
    else LoadAll(files[..|files| - 1]) + FileRecords(files[|files| - 1])
  }

  /** Walks the files and their pages, appending a record per non-blank PDF page. */
  method LoadDocuments(files: seq<SourceFile>) returns (docs: seq<Page>)
    ensures docs == LoadAll(files)
  {
    docs := [];
    for k := 0 to |files|
      invariant docs == LoadAll(files[..k])
    {
      var name, pages := files[k].name, files[k].pages;
      ghost var before := docs;
      if IsPdf(name) {
        for j := 0 to |pages|
          invariant docs == before + PageRecords(name, pages[..j])
        {
          var text := Strip(pages[j]);
          if text != [] {
            docs := docs + [Page(Label(name, j + 1), text)];
          }
          PageRecordsStep(name, pages, j);
          ghost var done, next := PageRecords(name, pages[..j]), PageRecord(name, j + 1, pages[j]);
          assert docs == before + done + next;
          assert before + done + next == before + (done + next);
        }
        assert pages[..|pages|] == pages;
      }
      assert docs == before + FileRecords(files[k]);
      LoadAllStep(files, k);
    }
    assert files[..|files|] == files;
  }

  lemma PageRecordsStep(name: string, texts: seq<string>, j: nat)
    requires j < |texts|
    ensures PageRecords(name, texts[..j + 1]) == PageRecords(name, texts[..j]) + PageRecord(name, j + 1, texts[j])
  {
    assert texts[..j + 1][..j] == texts[..j];
  }

  lemma LoadAllStep(files: seq<SourceFile>, k: nat)
    requires k < |files|
    ensures LoadAll(files[..k + 1]) == LoadAll(files[..k]) + FileRecords(files[k])
  {
    assert files[..k + 1][..k] == files[..k];
  }

  /** A name passes the ".pdf" test exactly when its last four characters spell ".pdf" in any case. */
  lemma IsPdfIff(name: string)
    ensures IsPdf(name) <==>
      && |name| >= 4
      && name[|name| - 4] == '.'
      && (name[|name| - 3] == 'p' || name[|name| - 3] == 'P')
      && (name[|name| - 2] == 'd' || name[|name| - 2] == 'D')
      && (name[|name| - 1] == 'f' || name[|name| - 1] == 'F')
  {
    var low := Lower(name);
    if |name| >= 4 {
      assert low[|low| - 4..] == [low[|low| - 4], low[|low| - 3], low[|low| - 2], low[|low| - 1]];
    }
  }

  /** `p` is the record of page `j + 1` of file `name` whose page texts are `texts`. */
  predicate IsPageRecord(name: string, texts: seq<string>, j: int, p: Page) {
    0 <= j < |texts| && Strip(texts[j]) != [] && p == Page(Label(name, j + 1), Strip(texts[j]))
  }

  /** What one file's pages yield: exactly the non-blank pages, stripped, labelled with their 1-based number. */
  lemma {:induction false} PageRecordsMembers(name: string, texts: seq<string>, p: Page)
    ensures p in PageRecords(name, texts) <==> exists j :: IsPageRecord(name, texts, j, p)
    decreases |texts|
  {
    if texts != [] {
      var n := |texts| - 1;
      var init := texts[..n];
      PageRecordsMembers(name, init, p);
      assert PageRecords(name, texts) == PageRecords(name, init) + PageRecord(name, n + 1, texts[n]);
      assert p in PageRecord(name, n + 1, texts[n]) <==> IsPageRecord(name, texts, n, p);
      if p in PageRecords(name, init) {
        var j :| IsPageRecord(name, init, j, p);
        assert init[j] == texts[j];
        assert IsPageRecord(name, texts, j, p);
      }
      if exists j :: IsPageRecord(name, texts, j, p) {
        var j :| IsPageRecord(name, texts, j, p);
        if j < n {
          assert init[j] == texts[j];
          assert IsPageRecord(name, init, j, p);
        }
      }
    }
  }

  /** `p` is the record of page `j + 1` of the `k`-th listed file, a PDF. */
  predicate IsFileRecord(files: seq<SourceFile>, k: int, j: int, p: Page) {
    0 <= k < |files| && IsPdf(files[k].name) && IsPageRecord(files[k].name, files[k].pages, j, p)
  }

  /**
   * A page record is produced exactly for a non-blank page of a file whose
   * name passes the ".pdf" test; its text is the stripped page text and its
   * source the file name with the 1-based page number.
   */
  lemma {:induction false} LoadAllMembers(files: seq<SourceFile>, p: Page)
    ensures p in LoadAll(files) <==> exists k, j :: IsFileRecord(files, k, j, p)
    decreases |files|
  {
    if files != [] {
      var n := |files| - 1;
      var init := files[..n];
      var last := files[n];
      LoadAllMembers(init, p);
      PageRecordsMembers(last.name, last.pages, p);
      assert forall k, j :: 0 <= k < n ==> (IsFileRecord(init, k, j, p) <==> IsFileRecord(files, k, j, p)) by {
        forall k, j | 0 <= k < n ensures IsFileRecord(init, k, j, p) <==> IsFileRecord(files, k, j, p) {
          assert init[k] == files[k];
        }
      }
      if p in FileRecords(last) {
        var j :| IsPageRecord(last.name, last.pages, j, p);
        assert IsFileRecord(files, n, j, p);
      }
      if exists k, j :: IsFileRecord(files, k, j, p) {
        var k, j :| IsFileRecord(files, k, j, p);
        assert k < n ==> IsFileRecord(init, k, j, p);
        assert k == n ==> p in FileRecords(last);
      }
    }
  }

  // ---------------------------------------------------------------------------
  // chunk_text

  /** The window of at most `size` characters of `text` starting at `i`; Python's `text[i:i + size]`. */
  function Window(text: string, i: nat, size: nat): string
    requires i <= |text|
  {
    text[i..Min(i + size, |text|)]
  }

  /** The chunks of `page` whose windows start at `i`, `i + step`, ... below the text length. */
  function ChunksFrom(page: Page, i: nat, size: nat, step: nat): seq<Chunk>
    requires step > 0
    decreases |page.text| - i
  {
    if i >= |page.text| then []
    else [Chunk(Window(page.text, i, size), page.source)] + ChunksFrom(page, i + step, size, step)
  }

  /** The chunks of one page: windows of `size` characters advancing by `size - overlap`. */
  function PageChunks(page: Page, size: nat, overlap: nat): seq<Chunk>
    requires overlap < size
  {
    ChunksFrom(page, 0, size, size - overlap)
  }

  /** The chunks of all pages, page by page in input order. */
  function ChunkAll(pages: seq<Page>, size: nat, overlap: nat): seq<Chunk>
    requires overlap < size
  {
    if pages == [] then []
    else ChunkAll(pages[..|pages| - 1], size, overlap) + PageChunks(pages[|pages| - 1], size, overlap)
  }

  /** Slides the window over every page in turn, appending a tagged chunk per window. */
  method ChunkText(pages: seq<Page>, size: nat, overlap: nat) returns (chunks: seq<Chunk>)
    requires overlap < size
    ensures chunks == ChunkAll(pages, size, overlap)
  {
    var step := size - overlap;
    chunks := [];
    for d := 0 to |pages|
      invariant chunks == ChunkAll(pages[..d], size, overlap)
    {
      var text := pages[d].text;
      var source := pages[d].source;
      var i: nat := 0;
      while i < |text|
        invariant chunks + ChunksFrom(pages[d], i, size, step)
               == ChunkAll(pages[..d], size, overlap) + PageChunks(pages[d], size, overlap)
        decreases |text| - i
      {
        chunks := chunks + [Chunk(text[i..Min(i + size, |text|)], source)];
        i := i + step;
      }
      assert pages[..d + 1][..d] == pages[..d];
    }
    assert pages[..|pages|] == pages;
  }

  // ---------------------------------------------------------------------------
  // Properties of the chunker

  /** Division rounded up. */
  function CeilDiv(a: nat, b: nat): nat
    requires b > 0
  {
    (a + b - 1) / b
  }

  lemma MulNonNegative(a: nat, b: nat)
    ensures a * b >= 0
  {
  }

  lemma MulCancelLess(x: int, y: int, b: int)
    requires b > 0 && x * b < y * b
    ensures x < y
  {
    assert (y - x) * b == y * b - x * b;
  }

  lemma DivIsUnique(a: int, b: int, q: int)
    requires b > 0 && q * b <= a < q * b + b
    ensures a / b == q
  {
    var d := a / b;
    assert d * b <= a < d * b + b;
    assert (d + 1) * b == d * b + b && (q + 1) * b == q * b + b;
    MulCancelLess(q, d + 1, b);
    MulCancelLess(d, q + 1, b);
  }

  /** Window `k` of those starting at `i` starts at `i + k * step`, below the text length. */
  lemma {:induction false} ChunksFromAt(page: Page, i: nat, size: nat, step: nat, k: nat)
    requires step > 0 && k < |ChunksFrom(page, i, size, step)|
    ensures i + k * step < |page.text|
    ensures ChunksFrom(page, i, size, step)[k] == Chunk(Window(page.text, i + k * step, size), page.source)
    decreases k
  {
    if k > 0 {
      ChunksFromAt(page, i + step, size, step, k - 1);
      assert i + step + (k - 1) * step == i + k * step;
    }
  }

  /** The number of windows starting at `i` is the least `c` with `c * step` covering the rest of the text. */
  lemma {:induction false} ChunksFromCount(page: Page, i: nat, size: nat, step: nat)
    requires step > 0 && i < |page.text|
    ensures var c := |ChunksFrom(page, i, size, step)|;
      c >= 1 && (c - 1) * step < |page.text| - i <= c * step
    decreases |page.text| - i
  {
    if i + step < |page.text| {
      ChunksFromCount(page, i + step, size, step);
      var c := |ChunksFrom(page, i + step, size, step)|;
      assert (c + 1) * step == c * step + step;
    }
  }

  /**
   * Window starts are exactly 0, step, 2 * step, ... strictly below the text
   * length: there are ceil(n / step) of them, and the next multiple of the
   * step after the last one is at or past the end. Empty text has none.
   */
  lemma PageChunkCount(page: Page, size: nat, overlap: nat)
    requires overlap < size
    ensures var c := |PageChunks(page, size, overlap)|;
      && c == CeilDiv(|page.text|, size - overlap)
      && c * (size - overlap) >= |page.text|
      && (c > 0 ==> (c - 1) * (size - overlap) < |page.text|)
      && (c == 0 <==> page.text == [])
  {
    var step, n := size - overlap, |page.text|;
    if n == 0 {
      DivIsUnique(step - 1, step, 0);
    } else {
      ChunksFromCount(page, 0, size, step);
      var c := |PageChunks(page, size, overlap)|;
      assert (c - 1) * step == c * step - step;
      DivIsUnique(n + step - 1, step, c);
    }
  }

  /** Chunk `k` of a page is the window `text[k * step .. min(k * step + size, n)]` with the page's source. */
  lemma PageChunkWindow(page: Page, size: nat, overlap: nat, k: nat)
    requires overlap < size && k < |PageChunks(page, size, overlap)|
    ensures var step := size - overlap;
      var o, c := k * step, PageChunks(page, size, overlap)[k];
      && o < |page.text|
      && c.text == page.text[o..Min(o + size, |page.text|)]
      && c.source == page.source
  {
    ChunksFromAt(page, 0, size, size - overlap, k);
  }

  /** Every chunk has at most `size` characters (no padding), and fewer only when it runs to the end of its page. */
  lemma PageChunkLength(page: Page, size: nat, overlap: nat, k: nat)
    requires overlap < size && k < |PageChunks(page, size, overlap)|
    ensures var step := size - overlap;
      var o, c := k * step, PageChunks(page, size, overlap)[k];
      && |c.text| == Min(size, |page.text| - o) <= size
      && (|c.text| < size ==> o + |c.text| == |page.text|)
  {
    var step: nat := size - overlap;
    var o: nat, c := k * step, PageChunks(page, size, overlap)[k];
    assert o < |page.text| && c.text == Window(page.text, o, size) by {
      PageChunkWindow(page, size, overlap, k);
    }
    WindowLength(page.text, o, size);
  }

  /** A window has at most `size` characters, and fewer only when it runs to the end of the text. */
  lemma WindowLength(text: string, o: nat, size: nat)
    requires o <= |text|
    ensures |Window(text, o, size)| == Min(size, |text| - o) <= size
    ensures |Window(text, o, size)| < size ==> o + |Window(text, o, size)| == |text|
  {
  }

  /** Consecutive chunks of a page overlap: chunk `k` from offset `step` on is a prefix of chunk `k + 1`. */
  lemma ChunksOverlap(page: Page, size: nat, overlap: nat, k: nat)
    requires overlap < size && k + 1 < |PageChunks(page, size, overlap)|
    ensures var cs, step := PageChunks(page, size, overlap), size - overlap;
      step <= |cs[k].text| && cs[k].text[step..] <= cs[k + 1].text
  {
    var step: nat := size - overlap;
    var cs, o: nat := PageChunks(page, size, overlap), k * step;
    assert cs[k].text == Window(page.text, o, size) by {
      PageChunkWindow(page, size, overlap, k);
    }
    assert o + step < |page.text| && cs[k + 1].text == Window(page.text, o + step, size) by {
      PageChunkWindow(page, size, overlap, k + 1);
      assert (k + 1) * step == o + step;
    }
    WindowsOverlap(page.text, o, step, size);
  }

  /** The window at `o` from offset `step` on is a prefix of the window at `o + step`. */
  lemma WindowsOverlap(text: string, o: nat, step: nat, size: nat)
    requires step <= size && o + step < |text|
    ensures step <= |Window(text, o, size)| && Window(text, o, size)[step..] <= Window(text, o + step, size)
  {
    assert Window(text, o, size)[step..] == text[o + step..Min(o + size, |text|)];
  }

  /** The texts of `chunks`, one per chunk, in chunk order. */
  function Texts(chunks: seq<Chunk>): (ts: seq<string>)
    ensures |ts| == |chunks|
    ensures forall i :: 0 <= i < |chunks| ==> ts[i] == chunks[i].text
  {
    if chunks == [] then [] else [chunks[0].text] + Texts(chunks[1..])
  }

  /** Every window with its first `overlap` characters (or all of it, if shorter) removed, concatenated. */
  function DropOverlaps(windows: seq<string>, overlap: nat): string {
    if windows == [] then []
    else windows[0][Min(overlap, |windows[0]|)..] + DropOverlaps(windows[1..], overlap)
  }

  /** The first window followed by every later one without its overlap. */
  function Reassemble(windows: seq<string>, overlap: nat): string {
    if windows == [] then [] else windows[0] + DropOverlaps(windows[1..], overlap)
  }

  /** A window without its overlap is the text from `overlap` past its start to its end. */
  lemma WindowPastOverlap(text: string, j: nat, size: nat, overlap: nat)
    requires j < |text| && overlap <= size
    ensures var w := Window(text, j, size);
      w[Min(overlap, |w|)..] == text[Min(j + overlap, |text|)..Min(j + size, |text|)]
  {
  }

  lemma SliceSplit(s: string, a: nat, b: nat)
    requires a <= b <= |s|
    ensures s[a..] == s[a..b] + s[b..]
  {
  }

  /** The windows starting at `j` add, past their overlaps, exactly the text after the window before `j`. */
  lemma {:induction false} DropOverlapsFrom(page: Page, j: nat, size: nat, overlap: nat)
    requires overlap < size
    ensures DropOverlaps(Texts(ChunksFrom(page, j, size, size - overlap)), overlap)
         == page.text[Min(j + overlap, |page.text|)..]
    decreases |page.text| - j
  {
    var step, n := size - overlap, |page.text|;
    if j < n {
      DropOverlapsFrom(page, j + step, size, overlap);
      var w := Window(page.text, j, size);
      var rest := Texts(ChunksFrom(page, j + step, size, step));
      var cs := ChunksFrom(page, j, size, step);
      assert cs == [Chunk(w, page.source)] + ChunksFrom(page, j + step, size, step);
      var ts := Texts(cs);
      assert ts[0] == w && ts[1..] == rest by {
        assert Texts(cs) == [cs[0].text] + Texts(cs[1..]);
      }
      assert DropOverlaps(ts, overlap) == w[Min(overlap, |w|)..] + DropOverlaps(rest, overlap);
      WindowPastOverlap(page.text, j, size, overlap);
      SliceSplit(page.text, Min(j + overlap, n), Min(j + size, n));
    }
  }

  /** Coverage: the first chunk followed by each later chunk minus its overlap is the page text exactly. */
  lemma ChunksReassemble(page: Page, size: nat, overlap: nat)
    requires overlap < size
    ensures Reassemble(Texts(PageChunks(page, size, overlap)), overlap) == page.text
  {
    var step, n := size - overlap, |page.text|;
    if n > 0 {
      DropOverlapsFrom(page, step, size, overlap);
      var ts := Texts(PageChunks(page, size, overlap));
      assert ts[1..] == Texts(ChunksFrom(page, step, size, step));
      assert page.text == page.text[..Min(size, n)] + page.text[Min(size, n)..];
    }
  }

  /** With the default configuration a page of 1200 characters yields windows at 0, 450 and 900, of 500, 500 and 300 characters. */
  lemma TwelveHundredCharacterPage(page: Page)
    requires |page.text| == 1200
    ensures var cs := PageChunks(page, ChunkSize, ChunkOverlap);
      && |cs| == 3
      && cs[0].text == page.text[0..500]
      && cs[1].text == page.text[450..950]
      && cs[2].text == page.text[900..1200]
  {
    PageChunkCount(page, ChunkSize, ChunkOverlap);
    PageChunkWindow(page, ChunkSize, ChunkOverlap, 0);
    PageChunkWindow(page, ChunkSize, ChunkOverlap, 1);
    PageChunkWindow(page, ChunkSize, ChunkOverlap, 2);
  }

  /**
   * A short window need not be the last one: a page of 920 characters
   * yields windows of 500, 470 and 20 characters, and the last lies
   * entirely inside the one before it.
   */
  lemma NineHundredTwentyCharacterPage(page: Page)
    requires |page.text| == 920
    ensures var cs := PageChunks(page, ChunkSize, ChunkOverlap);
      && |cs| == 3
      && |cs[0].text| == 500 && |cs[1].text| == 470 && |cs[2].text| == 20
      && cs[1].text[450..] == cs[2].text
  {
    PageChunkCount(page, ChunkSize, ChunkOverlap);
    PageChunkWindow(page, ChunkSize, ChunkOverlap, 0);
    PageChunkWindow(page, ChunkSize, ChunkOverlap, 1);
    PageChunkWindow(page, ChunkSize, ChunkOverlap, 2);
  }

  /** Chunking distributes over concatenation of page lists: chunks stay grouped by page, in page order. */
  lemma {:induction false} ChunkAllAppend(a: seq<Page>, b: seq<Page>, size: nat, overlap: nat)
    requires overlap < size
    ensures ChunkAll(a + b, size, overlap) == ChunkAll(a, size, overlap) + ChunkAll(b, size, overlap)
    decreases |b|
  {
    if b == [] {
      assert a + b == a;
    } else {
      var n := |b| - 1;
      var init, last := b[..n], PageChunks(b[n], size, overlap);
      assert ChunkAll(a + b, size, overlap) == ChunkAll(a + init, size, overlap) + last by {
        assert (a + b)[..|a + b| - 1] == a + init;
        assert (a + b)[|a + b| - 1] == b[n];
      }
      assert ChunkAll(b, size, overlap) == ChunkAll(init, size, overlap) + last;
      ChunkAllAppend(a, init, size, overlap);
      var x, y := ChunkAll(a, size, overlap), ChunkAll(init, size, overlap);
      assert x + y + last == x + (y + last);
    }
  }

  /** Every chunk comes from exactly the windows of one input page (it never spans two), and every page's chunks are present. */
  lemma {:induction false} ChunkAllMembers(pages: seq<Page>, size: nat, overlap: nat, c: Chunk)
    requires overlap < size
    ensures c in ChunkAll(pages, size, overlap) <==>
      exists d :: 0 <= d < |pages| && c in PageChunks(pages[d], size, overlap)
    decreases |pages|
  {
    if pages != [] {
      var n := |pages| - 1;
      var init := pages[..n];
      ChunkAllMembers(init, size, overlap, c);
      assert ChunkAll(pages, size, overlap) == ChunkAll(init, size, overlap) + PageChunks(pages[n], size, overlap);
      if c in ChunkAll(init, size, overlap) {
        var d :| 0 <= d < n && c in PageChunks(init[d], size, overlap);
        assert pages[d] == init[d];
      }
      if exists d :: 0 <= d < |pages| && c in PageChunks(pages[d], size, overlap) {
        var d :| 0 <= d < |pages| && c in PageChunks(pages[d], size, overlap);
        if d < n {
          assert init[d] == pages[d];
        }
      }
    }
  }

  /** A chunk of a page carries the page's source and is the page's window at a multiple of the step. */
  lemma PageChunkProvenance(page: Page, size: nat, overlap: nat, c: Chunk)
    requires overlap < size && c in PageChunks(page, size, overlap)
    ensures c.source == page.source
    ensures exists o: nat :: o < |page.text| && o % (size - overlap) == 0 && c.text == Window(page.text, o, size)
  {
    var step: nat := size - overlap;
    var k: nat :| k < |PageChunks(page, size, overlap)| && PageChunks(page, size, overlap)[k] == c;
    PageChunkWindow(page, size, overlap, k);
    MulNonNegative(k, step);
    var o: nat := k * step;
    DivIsUnique(o, step, k);
    assert o % step == 0;
    assert c.text == Window(page.text, o, size);
  }

  // ---------------------------------------------------------------------------
  // build_faiss_index

  /** The persisted pair: the index's vector rows and the chunk list they stand for. */
  datatype Store<V> = Store(rows: seq<V>, chunks: seq<Chunk>)

  /** Building from no chunks fails: there is no first embedding to take the dimension from. */
  datatype BuildError = NoChunks

  /** Row `i` of the index is the embedding of the text of chunk `i`, for every `i`. */
  ghost predicate Aligned<V>(store: Store<V>, embed: string -> V) {
    && |store.rows| == |store.chunks|
    && forall i :: 0 <= i < |store.rows| ==> store.rows[i] == embed(store.chunks[i].text)
  }

  /** The model's batch encoding: one vector per text, in input order. */
  function EncodeBatch<V>(texts: seq<string>, embed: string -> V): (vs: seq<V>)
    ensures |vs| == |texts|
    ensures forall i :: 0 <= i < |texts| ==> vs[i] == embed(texts[i])
  {
    if texts == [] then [] else [embed(texts[0])] + EncodeBatch(texts[1..], embed)
  }

  /**
   * Embeds the chunk texts in one batch and stores the vectors beside the
   * unchanged chunk list, so that row `i` belongs to chunk `i`.
   */
  function BuildIndex<V>(chunks: seq<Chunk>, embed: string -> V): (r: Result<Store<V>, BuildError>)
    ensures r.Err? <==> chunks == []
    ensures r.Ok? ==> r.value.chunks == chunks && Aligned(r.value, embed)
  {
    var embeddings := EncodeBatch(Texts(chunks), embed);
    if embeddings == [] then Err(NoChunks) else Ok(Store(embeddings, chunks))
  }

  // ---------------------------------------------------------------------------
  // get_relevant_chunks

  /**
   * What a FAISS search for `k` neighbours among `n` rows returns: `k`
   * labels, the first `min(k, n)` of them row numbers, the rest the
   * padding label -1.
   */
  predicate SearchLabels(labels: seq<int>, k: nat, n: nat) {
    && |labels| == k
    && forall j :: 0 <= j < k ==> if j < n then 0 <= labels[j] < n else labels[j] == -1
  }

  /** Python's `chunks[i]`: a negative index counts from the end. */
  function PyIndex(chunks: seq<Chunk>, i: int): Chunk
    requires -|chunks| <= i < |chunks|
  {
    if i >= 0 then chunks[i] else chunks[|chunks| + i]
  }

  /** `[chunks[i] for i in labels]` as the source writes it, padding labels included. */
  function LookUpAsWritten(chunks: seq<Chunk>, labels: seq<int>): (r: seq<Chunk>)
    requires forall j :: 0 <= j < |labels| ==> -|chunks| <= labels[j] < |chunks|
    ensures |r| == |labels|
    ensures forall j :: 0 <= j < |labels| ==> r[j] == PyIndex(chunks, labels[j])
  {
    if labels == [] then [] else [PyIndex(chunks, labels[0])] + LookUpAsWritten(chunks, labels[1..])
  }

  /**
   * With fewer stored chunks than requested neighbours, the padding labels
   * turn into copies of the last chunk: the result is longer than the store
   * and repeats a chunk the search never returned in those places.
   */
  lemma PaddingRepeatsLastChunk(chunks: seq<Chunk>, labels: seq<int>, k: nat)
    requires 0 < |chunks| < k && SearchLabels(labels, k, |chunks|)
    ensures var r := LookUpAsWritten(chunks, labels);
      && |r| == k > |chunks|
      && forall j :: |chunks| <= j < k ==> r[j] == chunks[|chunks| - 1]
  {
  }

  /**
   * Two stored chunks and the default three neighbours: FAISS answers
   * [1, 0, -1], the source's look-up yields the second chunk twice, the
   * corrected one each found chunk once.
   */
  lemma TwoChunkStore(a: Chunk, b: Chunk)
    ensures LookUpAsWritten([a, b], [1, 0, -1]) == [b, a, b]
    ensures LookUp([a, b], [1, 0, -1]) == [b, a]
  {
    var cs, labels := [a, b], [1, 0, -1];
    assert labels[1..] == [0, -1] && labels[1..][1..] == [-1] && labels[1..][1..][1..] == [];
    assert LookUp(cs, [-1]) == [];
    assert LookUp(cs, [0, -1]) == [a];
  }

  /** The chunks the labels name, in search order, with FAISS's -1 padding dropped. */
  function LookUp(chunks: seq<Chunk>, labels: seq<int>): (r: seq<Chunk>)
    requires forall j :: 0 <= j < |labels| ==> labels[j] < |chunks|
    ensures |r| <= |labels|
    ensures forall c :: c in r ==> c in chunks
  {
    if labels == [] then []
    else (if labels[0] >= 0 then [chunks[labels[0]]] else []) + LookUp(chunks, labels[1..])
  }

  /** With every label a row number, the look-up has one record per label, `r[j] == chunks[labels[j]]`, as written. */
  lemma {:induction false} LookUpInRange(chunks: seq<Chunk>, labels: seq<int>)
    requires forall j :: 0 <= j < |labels| ==> 0 <= labels[j] < |chunks|
    ensures var r := LookUp(chunks, labels);
      && r == LookUpAsWritten(chunks, labels)
      && |r| == |labels|
      && forall j :: 0 <= j < |labels| ==> r[j] == chunks[labels[j]]
  {
    if labels != [] {
      LookUpInRange(chunks, labels[1..]);
    }
  }

  /** On a FAISS search result the look-up returns `min(k, n)` records, record `j` being `chunks[labels[j]]`. */
  lemma {:induction false} LookUpSearch(chunks: seq<Chunk>, labels: seq<int>, k: nat)
    requires SearchLabels(labels, k, |chunks|)
    ensures var r := LookUp(chunks, labels);
      && |r| == Min(k, |chunks|)
      && forall j :: 0 <= j < |r| ==> r[j] == chunks[labels[j]]
  {
    var m := Min(k, |chunks|);
    assert labels == labels[..m] + labels[m..];
    LookUpAppend(chunks, labels[..m], labels[m..]);
    LookUpInRange(chunks, labels[..m]);
    LookUpPadding(chunks, labels[m..]);
  }

  lemma {:induction false} LookUpAppend(chunks: seq<Chunk>, a: seq<int>, b: seq<int>)
    requires forall j :: 0 <= j < |a| ==> a[j] < |chunks|
    requires forall j :: 0 <= j < |b| ==> b[j] < |chunks|
    ensures LookUp(chunks, a + b) == LookUp(chunks, a) + LookUp(chunks, b)
    decreases |a|
  {
    if a == [] {
      assert a + b == b;
    } else {
      var head := if a[0] >= 0 then [chunks[a[0]]] else [];
      assert (a + b)[0] == a[0] && (a + b)[1..] == a[1..] + b;
      assert LookUp(chunks, a + b) == head + LookUp(chunks, a[1..] + b);
      LookUpAppend(chunks, a[1..], b);
    }
  }

  lemma {:induction false} LookUpPadding(chunks: seq<Chunk>, labels: seq<int>)
    requires forall j :: 0 <= j < |labels| ==> labels[j] == -1
    ensures LookUp(chunks, labels) == []
  {
    if labels != [] {
      LookUpPadding(chunks, labels[1..]);
    }
  }

  /**
   * Provenance survives retrieval: for an index built from `chunks`, the
   * record returned for label `l` is `chunks[l]`, and its embedding is
   * exactly the row the search matched.
   */
  lemma RetrievalProvenance<V>(chunks: seq<Chunk>, embed: string -> V, labels: seq<int>)
    requires BuildIndex(chunks, embed).Ok?
    requires forall j :: 0 <= j < |labels| ==> 0 <= labels[j] < |chunks|
    ensures var store := BuildIndex(chunks, embed).value;
      var r := LookUp(store.chunks, labels);
      && |r| == |labels|
      && forall j :: 0 <= j < |labels| ==> r[j] == chunks[labels[j]] && store.rows[labels[j]] == embed(r[j].text)
  {
    LookUpInRange(chunks, labels);
  }

  /**
   * Embeds the question with the same model, asks the index for `topK`
   * neighbours and maps the labels back to chunk records.
   */
  function GetRelevantChunks<V>(question: string, topK: nat, store: Store<V>, embed: string -> V,
                                search: (seq<V>, V, nat) -> seq<int>): (r: seq<Chunk>)
    requires var labels := search(store.rows, embed(question), topK);
      forall j :: 0 <= j < |labels| ==> labels[j] < |store.chunks|
    ensures var labels := search(store.rows, embed(question), topK);
      SearchLabels(labels, topK, |store.chunks|) ==>
        && |r| == Min(topK, |store.chunks|)
        && forall j :: 0 <= j < |r| ==> r[j] == store.chunks[labels[j]]
  {
    var labels := search(store.rows, embed(question), topK);
    if SearchLabels(labels, topK, |store.chunks|) then
      LookUpSearch(store.chunks, labels, topK);
      LookUp(store.chunks, labels)
    else
      LookUp(store.chunks, labels)
  }
}
