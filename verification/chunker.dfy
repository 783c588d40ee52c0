/** The overlapping word chunker of the ingestion pipeline (`chunk_text`):
    each page's text is split on whitespace and cut into windows of at most
    `chunkSize` words whose starts advance by `chunkSize - overlap`. */
module Chunker {
  import opened Common
  import opened Strings

  /** One page of extracted text, numbered as the OCR stage numbered it. */
  datatype Page = Page(num: int, text: string)

  datatype Metadata = Metadata(docId: string, page: int, filename: string)

  /** A chunk handed to the embedder: its text and where it came from. */
  datatype Chunk = Chunk(text: string, metadata: Metadata)

  /** The word range `[start, end)` of one chunk within its page. */
  datatype Window = Window(start: nat, end: nat)

  // ---------------------------------------------------------------------------
  // Window arithmetic

  /** How far the loop index moves after a chunk, as written:
      `chunkSize - overlap`, plus one when the guard for `chunkSize <= overlap`
      fires. The loop makes progress exactly when `overlap <= chunkSize`; for
      a larger overlap the index never increases and the loop does not end. */
  function Stride(chunkSize: nat, overlap: int): (s: int)
    ensures s >= 1 <==> overlap <= chunkSize
    ensures overlap <= chunkSize ==> s == Advance(chunkSize, overlap)
    ensures overlap > chunkSize ==> s <= 0
  {
    if chunkSize <= overlap then chunkSize - overlap + 1 else chunkSize - overlap
  }

  /** The advance the guard evidently intends: `chunkSize - overlap` when
      that is positive, otherwise one word. It always moves forward, and it
      is the stride the loop takes whenever that loop terminates. */
  function Advance(chunkSize: nat, overlap: int): (s: nat)
    ensures s >= 1
    ensures overlap < chunkSize ==> s == chunkSize - overlap
    ensures overlap >= chunkSize ==> s == 1
  {
    if chunkSize <= overlap then 1 else chunkSize - overlap
  }

  /** With chunks of two words overlapping by four, the index goes from 0 to
      -1 after the first chunk and never reaches the page end; the intended
      advance is one word. */
  lemma LargeOverlapStalls()
    ensures Stride(2, 4) == -1
    ensures Advance(2, 4) == 1
  {
  }

  /** The windows the loop visits from index `i` on a page of `n` words. */
  function WindowsFrom(i: nat, n: nat, size: nat, step: nat): (ws: seq<Window>)
    requires step >= 1
    ensures forall k | 0 <= k < |ws| :: ws[k].start < n && ws[k].start <= ws[k].end <= n
    decreases n - i
  {
    if i >= n then []
    else [Window(i, Min(i + size, n))] + WindowsFrom(i + step, n, size, step)
  }

  /** The windows of a page of `n` words. */
  function Windows(n: nat, chunkSize: nat, overlap: int): seq<Window> {
    WindowsFrom(0, n, chunkSize, Advance(chunkSize, overlap))
  }

  /** One stride further on, `k - 1` strides reach what `k` strides reach from `i`. */
  lemma StepShift(i: int, step: int, k: int)
    ensures (i + step) + (k - 1) * step == i + k * step
  {
    assert (k - 1) * step == k * step - step;
  }

  /** Window `k` from index `i` starts `k` strides after `i`. */
  lemma {:induction false} WindowsFromAt(i: nat, n: nat, size: nat, step: nat, k: nat)
    requires step >= 1 && k < |WindowsFrom(i, n, size, step)|
    ensures WindowsFrom(i, n, size, step)[k] == Window(i + k * step, Min(i + k * step + size, n))
    decreases k
  {
    if k > 0 {
      var rest := WindowsFrom(i + step, n, size, step);
      assert WindowsFrom(i, n, size, step)[k] == rest[k - 1];
      WindowsFromAt(i + step, n, size, step, k - 1);
      StepShift(i, step, k);
    }
  }

  /** From index `i` below `n` the loop visits the least number of windows
      whose strides carry it to the page end or past it. */
  lemma {:induction false} WindowsFromCount(i: nat, n: nat, size: nat, step: nat)
    requires step >= 1
    ensures var q := |WindowsFrom(i, n, size, step)|;
      && (i >= n ==> q == 0)
      && (i < n ==> q >= 1 && i + (q - 1) * step < n <= i + q * step)
    decreases n - i
  {
    if i < n {
      var q := |WindowsFrom(i, n, size, step)|;
      var r := |WindowsFrom(i + step, n, size, step)|;
      assert q == r + 1;
      WindowsFromCount(i + step, n, size, step);
      StepShift(i, step, q);
      if i + step < n {
        StepShift(i, step, r);
        assert (i + step) + (r - 1) * step == i + (q - 1) * step;
      } else {
        assert r == 0;
      }
    }
  }

  lemma {:induction false} WindowsFromShape(i: nat, n: nat, size: nat, step: nat)
    requires step >= 1
    ensures var ws := WindowsFrom(i, n, size, step);
      && (forall k | 0 <= k < |ws| :: ws[k] == Window(i + k * step, Min(i + k * step + size, n)))
      && (i >= n ==> |ws| == 0)
      && (i < n ==> |ws| >= 1 && i + (|ws| - 1) * step < n <= i + |ws| * step)
  {
    var ws := WindowsFrom(i, n, size, step);
    forall k | 0 <= k < |ws|
      ensures ws[k] == Window(i + k * step, Min(i + k * step + size, n))
    {
      WindowsFromAt(i, n, size, step, k);
    }
    WindowsFromCount(i, n, size, step);
  }

  lemma MultiplyMonotone(a: int, b: int, s: nat)
    requires a <= b
    ensures a * s <= b * s
  {
  }

  /** Euclidean division is unique: `q * s + r` with `0 <= r < s` divides to `q`. */
  lemma DivisionUnique(a: int, s: nat, q: int, r: int)
    requires s >= 1 && 0 <= r < s && a == q * s + r
    ensures a / s == q
  {
    var d := a / s;
    var m := a % s;
    assert a == d * s + m && 0 <= m < s;
    assert (d - q) * s == r - m;
    if d > q {
      MultiplyMonotone(1, d - q, s);
    } else if d < q {
      MultiplyMonotone(1, q - d, s);
    }
  }

  /** The quotient `j / s` times `s` lies at most one stride below `j`. */
  lemma QuotientBounds(j: nat, s: nat)
    requires s >= 1
    ensures (j / s) * s <= j < (j / s) * s + s
  {
    assert j == (j / s) * s + j % s;
  }

  /** `(q - 1) * s < n <= q * s` pins `q` down as the ceiling of `n / s`. */
  lemma CeilingDivision(n: nat, s: nat, q: nat)
    requires s >= 1 && q >= 1
    requires (q - 1) * s < n <= q * s
    ensures q == (n + s - 1) / s
  {
    assert (q - 1) * s == q * s - s;
    DivisionUnique(n + s - 1, s, q, n + s - 1 - q * s);
  }

  /** The start offsets on a page of `n` words are `0, s, 2s, ...`, each
      window ends `chunkSize` words later or at the page end, and there are
      `ceil(n / s)` of them. */
  lemma {:induction false} WindowStarts(n: nat, chunkSize: nat, overlap: int)
    ensures var ws := Windows(n, chunkSize, overlap);
      var s := Advance(chunkSize, overlap);
      && (forall k | 0 <= k < |ws| :: ws[k] == Window(k * s, Min(k * s + chunkSize, n)))
      && |ws| == (n + s - 1) / s
      && (|ws| == 0 <==> n == 0)
  {
    var ws := Windows(n, chunkSize, overlap);
    var s := Advance(chunkSize, overlap);
    WindowsFromShape(0, n, chunkSize, s);
    if n > 0 {
      CeilingDivision(n, s, |ws|);
    }
  }

  /** Conversely every multiple `k * s` below `n` is the start of a window:
      the starts are exactly the multiples of the stride below the page end. */
  lemma {:induction false} EveryStrideMultipleStarts(n: nat, chunkSize: nat, overlap: int, k: nat)
    requires k * Advance(chunkSize, overlap) < n
    ensures var ws := Windows(n, chunkSize, overlap);
      k < |ws| && ws[k].start == k * Advance(chunkSize, overlap)
  {
    var ws := Windows(n, chunkSize, overlap);
    var s := Advance(chunkSize, overlap);
    WindowsFromCount(0, n, chunkSize, s);
    if k >= |ws| {
      MultiplyMonotone(|ws|, k, s);
      assert false;
    }
    WindowsFromAt(0, n, chunkSize, s, k);
  }

  /** Whether word `j` falls inside some window of `ws`. */
  predicate Covered(ws: seq<Window>, j: nat) {
    exists k | 0 <= k < |ws| :: ws[k].start <= j < ws[k].end
  }

  /** With a non-negative overlap and a positive chunk size every word of the
      page lies in some chunk and the last chunk ends at the page end. (A
      negative overlap skips words between chunks.) */
  lemma {:induction false} WindowsCoverPage(n: nat, chunkSize: nat, overlap: int)
    requires 0 <= overlap && chunkSize >= 1
    ensures var ws := Windows(n, chunkSize, overlap);
      && (forall j: nat | j < n :: Covered(ws, j))
      && (n > 0 ==> ws[|ws| - 1].end == n)
  {
    var ws := Windows(n, chunkSize, overlap);
    var s := Advance(chunkSize, overlap);
    assert 1 <= s <= chunkSize;
    forall j: nat | j < n
      ensures Covered(ws, j)
    {
      var k := j / s;
      QuotientBounds(j, s);
      EveryStrideMultipleStarts(n, chunkSize, overlap, k);
      WindowsFromAt(0, n, chunkSize, s, k);
      assert ws[k].start <= j < ws[k].end;
    }
    if n > 0 {
      WindowsFromCount(0, n, chunkSize, s);
      var q := |ws|;
      WindowsFromAt(0, n, chunkSize, s, q - 1);
      StepShift(0, s, q);
      assert ws[q - 1].end == n;
    }
  }

  /** Consecutive windows start one stride apart, their ends never go back,
      and when the first of the two is not cut short by the page end the
      second begins exactly `overlap` words before the first one ends. */
  lemma {:induction false} ConsecutiveWindows(n: nat, chunkSize: nat, overlap: int)
    requires overlap < chunkSize
    ensures var ws := Windows(n, chunkSize, overlap);
      forall k | 0 <= k < |ws| - 1 ::
        && ws[k + 1].start == ws[k].start + (chunkSize - overlap)
        && ws[k].end <= ws[k + 1].end
        && (ws[k].end == ws[k].start + chunkSize ==> ws[k].end - ws[k + 1].start == overlap)
  {
    var ws := Windows(n, chunkSize, overlap);
    var s := Advance(chunkSize, overlap);
    WindowsFromShape(0, n, chunkSize, s);
    forall k | 0 <= k < |ws| - 1
      ensures ws[k + 1].start == ws[k].start + s
    {
      assert (k + 1) * s == k * s + s;
    }
  }

  /** A trailing chunk can lie wholly inside its predecessor: five words with
      chunks of four overlapping by two give `[0,4)`, `[2,5)` and `[4,5)`. */
  lemma TrailingWindowInsidePredecessor()
    ensures Windows(5, 4, 2) == [Window(0, 4), Window(2, 5), Window(4, 5)]
    ensures var ws := Windows(5, 4, 2); ws[1].start <= ws[2].start && ws[2].end <= ws[1].end
  {
  }

  // ---------------------------------------------------------------------------
  // Chunks

  /** The metadata of every chunk of a page: the document, the page number,
      and the stored file name `<doc_id>.pdf`. */
  function PageMetadata(docId: string, pageNum: int): Metadata {
    Metadata(docId, pageNum, docId + ".pdf")
  }

  /** Every window lies inside a page of `n` words. */
  predicate WithinPage(ws: seq<Window>, n: nat) {
    forall k | 0 <= k < |ws| :: ws[k].start <= ws[k].end <= n
  }

  /** The chunk for one window: its words joined by single spaces. */
  function ChunkOf(words: seq<string>, w: Window, meta: Metadata): Chunk
    requires w.start <= w.end <= |words|
  {
    Chunk(JoinWords(words[w.start..w.end]), meta)
  }

  /** One chunk per window, in window order. */
  function Render(words: seq<string>, ws: seq<Window>, meta: Metadata): seq<Chunk>
    requires WithinPage(ws, |words|)
  {
    seq(|ws|, k requires 0 <= k < |ws| => ChunkOf(words, ws[k], meta))
  }

  /** Rendering one more window appends that window's chunk. */
  lemma RenderAppend(words: seq<string>, ws: seq<Window>, w: Window, meta: Metadata)
    requires WithinPage(ws, |words|) && w.start <= w.end <= |words|
    ensures WithinPage(ws + [w], |words|)
    ensures Render(words, ws + [w], meta) == Render(words, ws, meta) + [ChunkOf(words, w, meta)]
  {
    var ws' := ws + [w];
    assert forall k | 0 <= k < |ws| :: ws'[k] == ws[k];
  }

  /** The chunks of one page. */
  function PageChunks(page: Page, docId: string, chunkSize: nat, overlap: int): seq<Chunk>
  {
    var words := SplitWords(page.text);
    Render(words, Windows(|words|, chunkSize, overlap), PageMetadata(docId, page.num))
  }

  /** `chunk_text(pages_text, doc_id)` with the two settings as parameters:
      every chunk is tagged with the document, a page that was passed in,
      and the file name `<doc_id>.pdf`. */
  function ChunkText(pages: seq<Page>, docId: string, chunkSize: nat, overlap: int): (chunks: seq<Chunk>)
    ensures forall c | c in chunks ::
      && c.metadata.docId == docId
      && c.metadata.filename == docId + ".pdf"
      && exists p | p in pages :: p.num == c.metadata.page
  {
    if |pages| == 0 then []
    else
      var first := PageChunks(pages[0], docId, chunkSize, overlap);
      assert forall c | c in first :: c.metadata == PageMetadata(docId, pages[0].num);
      var rest := ChunkText(pages[1..], docId, chunkSize, overlap);
      assert forall p | p in pages[1..] :: p in pages;
      first + rest
  }

  /** The chunks of a page sequence are the chunks of its first part followed
      by those of its second part: all chunks of an earlier page come before
      any chunk of a later page. */
  lemma {:induction false} ChunkTextAppend(a: seq<Page>, b: seq<Page>, docId: string, chunkSize: nat, overlap: int)
    ensures ChunkText(a + b, docId, chunkSize, overlap)
         == ChunkText(a, docId, chunkSize, overlap) + ChunkText(b, docId, chunkSize, overlap)
  {
    if |a| == 0 {
      assert a + b == b;
    } else {
      assert (a + b)[0] == a[0];
      assert (a + b)[1..] == a[1..] + b;
      ChunkTextAppend(a[1..], b, docId, chunkSize, overlap);
    }
  }

  /** A page contributes no chunk exactly when its text splits into no words. */
  lemma EmptyPageNoChunks(page: Page, docId: string, chunkSize: nat, overlap: int)
    ensures PageChunks(page, docId, chunkSize, overlap) == [] <==> SplitWords(page.text) == []
  {
  }

  /** Chunk `k` of a page starts at word `k * s`; re-splitting its text gives
      back exactly the contiguous words `words[k*s .. min(k*s + chunkSize, n)]`,
      so it holds at most `chunkSize` words; the text is those words joined
      by single blanks, the only whitespace in it; and its metadata names the
      document, the page and `<doc_id>.pdf`. */
  lemma PageChunkAt(page: Page, docId: string, chunkSize: nat, overlap: int, k: nat)
    requires k < |PageChunks(page, docId, chunkSize, overlap)|
    ensures k * Advance(chunkSize, overlap) < |SplitWords(page.text)|
    ensures var words := SplitWords(page.text);
      var c := PageChunks(page, docId, chunkSize, overlap)[k];
      var s := Advance(chunkSize, overlap);
      SplitWords(c.text) == words[k * s .. Min(k * s + chunkSize, |words|)]
    ensures var words := SplitWords(page.text);
      var c := PageChunks(page, docId, chunkSize, overlap)[k];
      var s := Advance(chunkSize, overlap);
      c.text == JoinWords(words[k * s .. Min(k * s + chunkSize, |words|)])
    ensures forall ch | ch in PageChunks(page, docId, chunkSize, overlap)[k].text && IsPySpace(ch) ::
      ch == ' '
    ensures |SplitWords(PageChunks(page, docId, chunkSize, overlap)[k].text)| <= chunkSize
    ensures PageChunks(page, docId, chunkSize, overlap)[k].metadata == Metadata(docId, page.num, docId + ".pdf")
  {
    var words := SplitWords(page.text);
    var ws := Windows(|words|, chunkSize, overlap);
    var meta := PageMetadata(docId, page.num);
    var c := PageChunks(page, docId, chunkSize, overlap)[k];
    var s := Advance(chunkSize, overlap);
    assert c == ChunkOf(words, ws[k], meta);
    WindowStarts(|words|, chunkSize, overlap);
    var w := ws[k];
    assert w == Window(k * s, Min(k * s + chunkSize, |words|));
    var slice := words[w.start..w.end];
    assert c.text == JoinWords(slice);
    SplitWordsAreWords(page.text);
    assert forall v | v in slice :: v in words;
    SplitJoin(slice);
    JoinBlanks(slice);
  }

  /** Every chunk of a page holds at most `chunkSize` words. */
  lemma PageChunksBounded(page: Page, docId: string, chunkSize: nat, overlap: int)
    ensures forall c | c in PageChunks(page, docId, chunkSize, overlap) ::
      |SplitWords(c.text)| <= chunkSize
  {
    var chunks := PageChunks(page, docId, chunkSize, overlap);
    forall c | c in chunks
      ensures |SplitWords(c.text)| <= chunkSize
    {
      var k :| 0 <= k < |chunks| && chunks[k] == c;
      PageChunkAt(page, docId, chunkSize, overlap, k);
    }
  }

  // ---------------------------------------------------------------------------
  // The loop as written

  /** The inner loop of `chunk_text` over one page's words, statement for
      statement; it produces exactly that page's chunks. */
  method ChunkWords(words: seq<string>, meta: Metadata, chunkSize: nat, overlap: int) returns (chunks: seq<Chunk>)
    requires overlap <= chunkSize
    ensures chunks == Render(words, Windows(|words|, chunkSize, overlap), meta)
  {
    ghost var s := Advance(chunkSize, overlap);
    ghost var done: seq<Window> := [];
    chunks := [];
    var i: int := 0;
    while i < |words|
      invariant 0 <= i
      invariant WithinPage(done, |words|)
      invariant Windows(|words|, chunkSize, overlap) == done + WindowsFrom(i, |words|, chunkSize, s)
      invariant chunks == Render(words, done, meta)
      decreases |words| - i
    {
      var end := Min(i + chunkSize, |words|);
      var chunkWords := words[i..end];
      var chunk := Chunk(JoinWords(chunkWords), meta);
      ChunkStep(words, meta, chunkSize, overlap, done, i);
      chunks := chunks + [chunk];
      done := done + [Window(i, end)];
      ghost var prev := i;
      i := i + (chunkSize - overlap);
      if chunkSize <= overlap {
        i := i + 1;
      }
      assert i == prev + Stride(chunkSize, overlap);
    }
  }

  /** One turn of the inner loop: the window at `i` is the next one the page
      owes, and its chunk is the next one rendered. */
  lemma ChunkStep(words: seq<string>, meta: Metadata, chunkSize: nat, overlap: int, done: seq<Window>, i: nat)
    requires i < |words| && WithinPage(done, |words|)
    requires Windows(|words|, chunkSize, overlap) == done + WindowsFrom(i, |words|, chunkSize, Advance(chunkSize, overlap))
    ensures var w := Window(i, Min(i + chunkSize, |words|));
      && WithinPage(done + [w], |words|)
      && Windows(|words|, chunkSize, overlap)
         == (done + [w]) + WindowsFrom(i + Advance(chunkSize, overlap), |words|, chunkSize, Advance(chunkSize, overlap))
      && Render(words, done + [w], meta)
         == Render(words, done, meta) + [Chunk(JoinWords(words[i..Min(i + chunkSize, |words|)]), meta)]
  {
    var w := Window(i, Min(i + chunkSize, |words|));
    var s := Advance(chunkSize, overlap);
    RenderAppend(words, done, w, meta);
    var rest := WindowsFrom(i + s, |words|, chunkSize, s);
    assert WindowsFrom(i, |words|, chunkSize, s) == [w] + rest;
    assert done + ([w] + rest) == (done + [w]) + rest;
  }

  /** One turn of the outer loop: the chunks of the first `p + 1` pages are
      those of the first `p` followed by page `p`'s. */
  lemma PagesStep(pages: seq<Page>, p: nat, docId: string, chunkSize: nat, overlap: int)
    requires p < |pages|
    ensures ChunkText(pages[..p + 1], docId, chunkSize, overlap)
         == ChunkText(pages[..p], docId, chunkSize, overlap) + PageChunks(pages[p], docId, chunkSize, overlap)
  {
    ChunkTextAppend(pages[..p], [pages[p]], docId, chunkSize, overlap);
    assert pages[..p + 1] == pages[..p] + [pages[p]];
    assert ChunkText([pages[p]], docId, chunkSize, overlap) == PageChunks(pages[p], docId, chunkSize, overlap) + [];
  }

  /** The outer loop of `chunk_text` over the pages; it produces exactly the
      chunks `ChunkText` describes. The loop ends only when `overlap` is at
      most `chunkSize`. */
  method ChunkPages(pages: seq<Page>, docId: string, chunkSize: nat, overlap: int) returns (chunks: seq<Chunk>)
    requires overlap <= chunkSize
    ensures chunks == ChunkText(pages, docId, chunkSize, overlap)
  {
    chunks := [];
    var p := 0;
    while p < |pages|
      invariant 0 <= p <= |pages|
      invariant chunks == ChunkText(pages[..p], docId, chunkSize, overlap)
    {
      var page := pages[p];
      PagesStep(pages, p, docId, chunkSize, overlap);
      var words := SplitWords(page.text);
      if |words| > 0 {
        var pageChunks := ChunkWords(words, PageMetadata(docId, page.num), chunkSize, overlap);
        chunks := chunks + pageChunks;
      } else {
        assert Windows(|words|, chunkSize, overlap) == [];
      }
      p := p + 1;
    }
    assert pages[..|pages|] == pages;
  }
}
