/**
 Step 3 of `_txt_to_pdf` (dmzj_txt2pdf.py): laying the cleaned text out on
 pages. Every line of the text is either blank, which only moves the cursor
 down, or cut into chunks of at most `maxChars` characters, each drawn at the
 cursor before the cursor moves down one line. When the cursor falls below
 the top margin the page is closed, the font re-applied, and the cursor put
 back at the top.

 The page geometry is integral here: the A4 height, the margins, the line
 height and the characters-per-line figure the source derives from the page
 width and font size are parameters.
 */
module Layout {
  import opened PyText
  import opened Pdf

  datatype Geometry = Geometry(
    height: int,      // page height
    xMargin: int,     // left edge of every drawn line
    topMargin: int,   // top margin, also the lowest `y` a line may be drawn at
    lineHeight: int,  // how far the cursor moves down per line
    maxChars: int,    // characters per chunk
    font: Font)       // the font every page is set to

  /** The `y` of the first line of every page. */
  function TopLine(g: Geometry): int
  {
    g.height - g.topMargin
  }

  /** A geometry in which the cursor bounds are meaningful: lines move down and fit on a page. */
  predicate Sane(g: Geometry)
  {
    g.maxChars >= 1 && g.lineHeight > 0 && g.topMargin <= TopLine(g)
  }

  // ---------------------------------------------------------------------------
  // Chunking a non-blank line
  // ---------------------------------------------------------------------------

  function Min(a: int, b: int): int
  {
    if a <= b then a else b
  }

  /** `[para[i:i + m] for i in range(0, len(para), m)]` */
  function Chunks(s: string, m: int): (chunks: seq<string>)
    requires m >= 1
    ensures chunks == [] <==> s == []
    ensures forall i :: 0 <= i < |chunks| ==> 0 < |chunks[i]| <= m
    decreases |s|
  {
    if s == [] then []
    else if |s| <= m then [s]
    else [s[..m]] + Chunks(s[m..], m)
  }

  /** The chunks of a line put back together are exactly the line. */
  lemma {:induction false} ChunksConcat(s: string, m: int)
    requires m >= 1
    ensures Concat(Chunks(s, m)) == s
    decreases |s|
  {
    if |s| > m {
      ChunksConcat(s[m..], m);
      ConcatCons(s[..m], Chunks(s[m..], m));
      assert s == s[..m] + s[m..];
    } else if s != [] {
      ConcatSingle(s);
    }
  }

  /** Every chunk is non-empty and at most `m` long; all but the last are exactly `m` long. */
  lemma {:induction false} ChunkSizes(s: string, m: int)
    requires m >= 1
    ensures forall i :: 0 <= i < |Chunks(s, m)| ==> 0 < |Chunks(s, m)[i]| <= m
    ensures forall i :: 0 <= i < |Chunks(s, m)| - 1 ==> |Chunks(s, m)[i]| == m
    decreases |s|
  {
    if |s| > m {
      ChunkSizes(s[m..], m);
      var r := Chunks(s, m);
      assert forall i :: 1 <= i < |r| ==> r[i] == Chunks(s[m..], m)[i - 1];
    }
  }

  /**
   There are `ceil(|s| / m)` chunks: none for an empty line, otherwise the
   `n` with `(n - 1) * m < |s| <= n * m`.
   */
  lemma {:induction false} ChunkCount(s: string, m: int)
    requires m >= 1
    ensures |Chunks(s, m)| == 0 <==> s == []
    ensures s != [] ==> (|Chunks(s, m)| - 1) * m < |s| <= |Chunks(s, m)| * m
    decreases |s|
  {
    if |s| > m {
      ChunkCount(s[m..], m);
      var n := |Chunks(s[m..], m)|;
      assert |Chunks(s, m)| == n + 1;
      assert (n + 1) * m == n * m + m;
    }
  }

  /** The `k`-th chunk is the slice `s[k*m : (k+1)*m]`, cut at the end of the line. */
  lemma {:induction false} ChunkAt(s: string, m: int, k: nat)
    requires m >= 1 && k < |Chunks(s, m)|
    ensures k * m < |s|
    ensures Chunks(s, m)[k] == s[k * m .. Min((k + 1) * m, |s|)]
    decreases |s|
  {
    if k > 0 {
      assert |s| > m;
      var t := s[m..];
      assert Chunks(s, m)[k] == Chunks(t, m)[k - 1];
      ChunkAt(t, m, k - 1);
      var lo, hi := (k - 1) * m, Min(k * m, |t|);
      var a, b := k * m, Min((k + 1) * m, |s|);
      assert lo + m == a && hi + m == b by {
        NextMultiple(k, m);
      }
      SliceShift(s, m, lo, hi);
      assert Chunks(s, m)[k] == s[a..b];
    }
  }

  /** The multiples of `m` either side of `k * m`. */
  lemma NextMultiple(k: int, m: int)
    ensures (k - 1) * m + m == k * m && k * m + m == (k + 1) * m
  {
  }

  // ---------------------------------------------------------------------------
  // The layout as a function of the text
  // ---------------------------------------------------------------------------

  /** The state between drawing steps: finished pages, the open page, the cursor `y`. */
  datatype Cursor = Cursor(pages: seq<Page>, current: Page, y: int)

  /** The document the cursor describes once the open page is closed. */
  function Pages(c: Cursor): Document
  {
    c.pages + [c.current]
  }

  /** An empty first page with the cursor at its top line. */
  function Start(g: Geometry): Cursor
  {
    Cursor([], [], TopLine(g))
  }

  /** `if y < top_margin: showPage(); setFont(...); y = height - top_margin` */
  function BreakIfLow(c: Cursor, g: Geometry): (r: Cursor)
    ensures c.y >= g.topMargin ==> r == c
    ensures c.y < g.topMargin ==> Pages(r) == Pages(c) + [[]] && r.y == TopLine(g)
  {
    if c.y < g.topMargin then Cursor(c.pages + [c.current], [], TopLine(g)) else c
  }

  /** `drawString(x_margin, y, chunk); y -= line_height`, then the page-break check. */
  function DrawChunk(c: Cursor, g: Geometry, chunk: string): Cursor
  {
    BreakIfLow(Cursor(c.pages, c.current + [Line(g.xMargin, c.y, chunk, g.font)], c.y - g.lineHeight), g)
  }

  /** Drawing the chunks one after the other. */
  function DrawChunks(c: Cursor, g: Geometry, chunks: seq<string>): (r: Cursor)
    decreases |chunks|
  {
    if chunks == [] then c
    else DrawChunk(DrawChunks(c, g, chunks[..|chunks| - 1]), g, chunks[|chunks| - 1])
  }

  /** One iteration of the loop over lines, including the check after it. */
  function LayParagraph(c: Cursor, g: Geometry, para: string): (r: Cursor)
    requires g.maxChars >= 1
    ensures g.topMargin <= TopLine(g) ==> g.topMargin <= r.y
  {
    var moved := if IsBlank(para) then c.(y := c.y - g.lineHeight)
                 else DrawChunks(c, g, Chunks(para, g.maxChars));
    BreakIfLow(moved, g)
  }

  /** The loop over lines. */
  function LayParagraphs(c: Cursor, g: Geometry, paras: seq<string>): Cursor
    requires g.maxChars >= 1
    decreases |paras|
  {
    if paras == [] then c
    else LayParagraph(LayParagraphs(c, g, paras[..|paras| - 1]), g, paras[|paras| - 1])
  }

  /** One more line laid out after a prefix of the lines. */
  lemma LayParagraphsSnoc(c: Cursor, g: Geometry, paras: seq<string>, n: int)
    requires g.maxChars >= 1 && 0 <= n < |paras|
    ensures LayParagraphs(c, g, paras[..n + 1]) == LayParagraph(LayParagraphs(c, g, paras[..n]), g, paras[n])
  {
    assert paras[..n + 1][..n] == paras[..n];
  }

  /** `cleaned.splitlines() or [" "]` */
  function Paragraphs(text: string): seq<string>
  {
    var lines := SplitLines(text);
    if lines == [] then [" "] else lines
  }

  /**
   The document `_txt_to_pdf` saves for `text`. The open page is always
   saved, because the font was set on it.
   */
  function Layout(text: string, g: Geometry): (doc: Document)
    requires g.maxChars >= 1
    ensures doc != []
  {
    Pages(LayParagraphs(Start(g), g, Paragraphs(text)))
  }

  // ---------------------------------------------------------------------------
  // The drawing loop
  // ---------------------------------------------------------------------------

  /**
   Lines 89-115 of `_txt_to_pdf`: the loop over the lines of the cleaned text
   that draws on a canvas, moves the cursor and breaks pages; the result is
   the document `save()` writes.
   */
  method Render(cleaned: string, g: Geometry) returns (doc: Document)
    requires g.maxChars >= 1
    ensures doc == Layout(cleaned, g)
  {
    var canvas := new Canvas();
    var y := TopLine(g);
    canvas.SetFont(g.font);
    var paras := SplitLines(cleaned);
    if paras == [] {
      paras := [" "];
    }
    var n := 0;
    while n < |paras|
      invariant n <= |paras|
      invariant canvas.font == g.font && canvas.dirty
      invariant Cursor(canvas.pages, canvas.current, y) == LayParagraphs(Start(g), g, paras[..n])
    {
      y := LayLine(canvas, paras[n], g, y);
      LayParagraphsSnoc(Start(g), g, paras, n);
      n := n + 1;
    }
    assert paras[..n] == paras && paras == Paragraphs(cleaned);
    doc := canvas.Save();
  }

  /**
   Lines 98-113, one pass of the loop over lines: a blank line only moves the
   cursor down, any other line is drawn in chunks; then the page-break check.
   */
  method LayLine(canvas: Canvas, para: string, g: Geometry, y0: int) returns (y: int)
    requires g.maxChars >= 1
    requires canvas.font == g.font && canvas.dirty
    modifies canvas
    ensures canvas.font == g.font && canvas.dirty
    ensures Cursor(canvas.pages, canvas.current, y) == LayParagraph(Cursor(old(canvas.pages), old(canvas.current), y0), g, para)
  {
    if IsBlank(para) {
      y := y0 - g.lineHeight;
    } else {
      y := DrawParagraph(canvas, para, g, y0);
    }
    y := BreakIfLowOn(canvas, g, y);
  }

  /**
   Lines 106-109 and 110-113: when the cursor is below the top margin, close
   the page, re-apply the font and put the cursor back at the top line.
   */
  method BreakIfLowOn(canvas: Canvas, g: Geometry, y0: int) returns (y: int)
    requires canvas.font == g.font && canvas.dirty
    modifies canvas
    ensures canvas.font == g.font && canvas.dirty
    ensures Cursor(canvas.pages, canvas.current, y) == BreakIfLow(Cursor(old(canvas.pages), old(canvas.current), y0), g)
  {
    y := y0;
    if y < g.topMargin {
      canvas.ShowPage();
      canvas.SetFont(g.font);
      y := TopLine(g);
    }
  }

  /**
   Lines 102-109: cut a non-blank line into chunks of `maxChars` characters,
   stepping the start index by `maxChars`, and draw each one.
   */
  method DrawParagraph(canvas: Canvas, para: string, g: Geometry, y0: int) returns (y: int)
    requires g.maxChars >= 1
    requires canvas.font == g.font && canvas.dirty
    modifies canvas
    ensures canvas.font == g.font && canvas.dirty
    ensures Cursor(canvas.pages, canvas.current, y)
            == DrawChunks(Cursor(old(canvas.pages), old(canvas.current), y0), g, Chunks(para, g.maxChars))
  {
    ghost var before := Cursor(canvas.pages, canvas.current, y0);
    y := y0;
    var i := 0;
    ghost var done: seq<string> := [];
    while i < |para|
      invariant canvas.font == g.font && canvas.dirty
      invariant Chunks(para, g.maxChars) == done + (if i < |para| then Chunks(para[i..], g.maxChars) else [])
      invariant Cursor(canvas.pages, canvas.current, y) == DrawChunks(before, g, done)
    {
      var chunk := para[i .. Min(i + g.maxChars, |para|)];
      ChunksAdvance(para, g.maxChars, i, done);
      DrawChunksSnoc(before, g, done, chunk);
      y := DrawChunkOn(canvas, chunk, g, y);
      done := done + [chunk];
      i := i + g.maxChars;
    }
    assert done + [] == done;
  }

  /** Lines 104-109: draw one chunk at the cursor, move down a line, then the page-break check. */
  method DrawChunkOn(canvas: Canvas, chunk: string, g: Geometry, y0: int) returns (y: int)
    requires canvas.font == g.font && canvas.dirty
    modifies canvas
    ensures canvas.font == g.font && canvas.dirty
    ensures Cursor(canvas.pages, canvas.current, y) == DrawChunk(Cursor(old(canvas.pages), old(canvas.current), y0), g, chunk)
  {
    canvas.DrawString(g.xMargin, y0, chunk);
    y := BreakIfLowOn(canvas, g, y0 - g.lineHeight);
  }

  /** One more iteration of the chunk loop: the chunk at `i` is the next one. */
  lemma ChunksAdvance(para: string, m: int, i: int, done: seq<string>)
    requires m >= 1 && 0 <= i < |para|
    requires Chunks(para, m) == done + Chunks(para[i..], m)
    ensures Chunks(para, m) ==
            (done + [para[i .. Min(i + m, |para|)]]) + (if i + m < |para| then Chunks(para[i + m..], m) else [])
  {
    var rest := para[i..];
    ChunksHead(rest, m);
    if i + m < |para| {
      assert rest[m..] == para[i + m..];
    }
    assert rest[..Min(m, |rest|)] == para[i .. Min(i + m, |para|)];
    Reassociate(done, [para[i .. Min(i + m, |para|)]], if i + m < |para| then Chunks(para[i + m..], m) else []);
  }

  /** Drawing one more chunk. */
  lemma DrawChunksSnoc(c: Cursor, g: Geometry, done: seq<string>, chunk: string)
    ensures DrawChunks(c, g, done + [chunk]) == DrawChunk(DrawChunks(c, g, done), g, chunk)
  {
    assert (done + [chunk])[..|done|] == done;
  }

  /** The first chunk of a non-empty line, and the chunks after it. */
  lemma ChunksHead(s: string, m: int)
    requires m >= 1 && s != []
    ensures Chunks(s, m) == [s[..Min(m, |s|)]] + (if m < |s| then Chunks(s[m..], m) else [])
  {
    if |s| <= m {
      assert s[..|s|] == s;
    }
  }

  // ---------------------------------------------------------------------------
  // What is drawn: no character of a non-blank line is lost
  // ---------------------------------------------------------------------------

  /** All lines of a document, page after page. */
  function AllLines(doc: Document): seq<Line>
  {
    if doc == [] then [] else doc[0] + AllLines(doc[1..])
  }

  /** The strings passed to `drawString`, in drawing order. */
  function Drawn(doc: Document): seq<string>
  {
    var lines := AllLines(doc);
    seq(|lines|, i requires 0 <= i < |lines| => lines[i].text)
  }

  /** The chunks the non-blank lines among `paras` are cut into, in order. */
  function DrawnChunks(paras: seq<string>, m: int): seq<string>
    requires m >= 1
  {
    if paras == [] then []
    else
      var last := paras[|paras| - 1];
      DrawnChunks(paras[..|paras| - 1], m) + (if IsBlank(last) then [] else Chunks(last, m))
  }

  /** The non-blank lines among `paras`, in order. */
  function NonBlank(paras: seq<string>): seq<string>
  {
    if paras == [] then []
    else
      var last := paras[|paras| - 1];
      NonBlank(paras[..|paras| - 1]) + (if IsBlank(last) then [] else [last])
  }

  lemma {:induction false} AllLinesAppend(a: Document, b: Document)
    ensures AllLines(a + b) == AllLines(a) + AllLines(b)
  {
    if a == [] {
      assert a + b == b;
    } else {
      assert (a + b)[1..] == a[1..] + b;
      AllLinesAppend(a[1..], b);
    }
  }

  /** A page break adds an empty page and draws nothing. */
  lemma BreakKeepsLines(c: Cursor, g: Geometry)
    ensures AllLines(Pages(BreakIfLow(c, g))) == AllLines(Pages(c))
  {
    if c.y < g.topMargin {
      AllLinesAppend(Pages(c), [[]]);
    }
  }

  /** Drawing a chunk adds exactly that chunk to what is drawn. */
  lemma DrawChunkLines(c: Cursor, g: Geometry, chunk: string)
    ensures Drawn(Pages(DrawChunk(c, g, chunk))) == Drawn(Pages(c)) + [chunk]
  {
    var l := Line(g.xMargin, c.y, chunk, g.font);
    var moved := Cursor(c.pages, c.current + [l], c.y - g.lineHeight);
    assert AllLines(Pages(moved)) == AllLines(Pages(c)) + [l] by {
      AllLinesAppend(c.pages, [c.current + [l]]);
      AllLinesAppend(c.pages, [c.current]);
      assert AllLines([c.current + [l]]) == c.current + [l] + AllLines([]);
      assert AllLines([c.current]) == c.current + AllLines([]);
    }
    BreakKeepsLines(moved, g);
    DrawnSnoc(Pages(c), Pages(DrawChunk(c, g, chunk)), l);
  }

  /** A document with one more line than another draws one more string. */
  lemma DrawnSnoc(a: Document, b: Document, l: Line)
    requires AllLines(b) == AllLines(a) + [l]
    ensures Drawn(b) == Drawn(a) + [l.text]
  {
    var la := AllLines(a);
    assert |Drawn(b)| == |la| + 1;
    forall i | 0 <= i < |la| + 1
      ensures Drawn(b)[i] == (Drawn(a) + [l.text])[i]
    {
      if i < |la| {
        assert AllLines(b)[i] == la[i];
      }
    }
  }

  lemma {:induction false} DrawChunksLines(c: Cursor, g: Geometry, chunks: seq<string>)
    ensures Drawn(Pages(DrawChunks(c, g, chunks))) == Drawn(Pages(c)) + chunks
    decreases |chunks|
  {
    if chunks != [] {
      var init := chunks[..|chunks| - 1];
      DrawChunksLines(c, g, init);
      DrawChunkLines(DrawChunks(c, g, init), g, chunks[|chunks| - 1]);
      assert init + [chunks[|chunks| - 1]] == chunks;
    }
  }

  lemma {:induction false} LayParagraphsLines(c: Cursor, g: Geometry, paras: seq<string>)
    requires g.maxChars >= 1
    ensures Drawn(Pages(LayParagraphs(c, g, paras))) == Drawn(Pages(c)) + DrawnChunks(paras, g.maxChars)
    decreases |paras|
  {
    if paras != [] {
      var init, last := paras[..|paras| - 1], paras[|paras| - 1];
      LayParagraphsLines(c, g, init);
      var before := LayParagraphs(c, g, init);
      if IsBlank(last) {
        BreakKeepsLines(before.(y := before.y - g.lineHeight), g);
      } else {
        var moved := DrawChunks(before, g, Chunks(last, g.maxChars));
        DrawChunksLines(before, g, Chunks(last, g.maxChars));
        BreakKeepsLines(moved, g);
      }
    }
  }

  /** Cutting every non-blank line into chunks and joining the chunks loses nothing. */
  lemma {:induction false} DrawnChunksConcat(paras: seq<string>, m: int)
    requires m >= 1
    ensures Concat(DrawnChunks(paras, m)) == Concat(NonBlank(paras))
    decreases |paras|
  {
    if paras != [] {
      var init, last := paras[..|paras| - 1], paras[|paras| - 1];
      DrawnChunksConcat(init, m);
      ConcatAppend(DrawnChunks(init, m), if IsBlank(last) then [] else Chunks(last, m));
      ConcatAppend(NonBlank(init), if IsBlank(last) then [] else [last]);
      if !IsBlank(last) {
        ChunksConcat(last, m);
        ConcatSingle(last);
      }
    }
  }

  /**
   Content preservation: the drawn strings, in order across all pages, are
   the chunks of the non-blank lines, and joined they give the non-blank
   lines of the cleaned text in their original order.
   */
  lemma LayoutContent(text: string, g: Geometry)
    requires g.maxChars >= 1
    ensures Drawn(Layout(text, g)) == DrawnChunks(Paragraphs(text), g.maxChars)
    ensures Concat(Drawn(Layout(text, g))) == Concat(NonBlank(Paragraphs(text)))
  {
    LayParagraphsLines(Start(g), g, Paragraphs(text));
    assert AllLines(Pages(Start(g))) == [] + AllLines([]);
    DrawnChunksConcat(Paragraphs(text), g.maxChars);
  }

  /** Dropping the blank lines does not change which visible characters there are. */
  lemma {:induction false} NonBlankVisible(paras: seq<string>)
    ensures Visible(Concat(NonBlank(paras))) == Visible(Concat(paras))
    decreases |paras|
  {
    if paras != [] {
      var init, last := paras[..|paras| - 1], paras[|paras| - 1];
      NonBlankVisible(init);
      assert init + [last] == paras;
      ConcatAppend(init, [last]);
      ConcatSingle(last);
      WithoutAppend(Concat(init), last, IsSpace);
      ConcatAppend(NonBlank(init), if IsBlank(last) then [] else [last]);
      WithoutAppend(Concat(NonBlank(init)), Concat(if IsBlank(last) then [] else [last]), IsSpace);
      VisibleBlank(last);
    }
  }

  /** Removing line boundaries first does not change the visible characters. */
  lemma {:induction false} VisibleWithoutBreaks(s: string)
    ensures Visible(Without(s, IsLineBreak)) == Visible(s)
  {
    if s != [] {
      VisibleWithoutBreaks(s[1..]);
      LineBreakIsSpace(s[0]);
      WithoutAppend(if IsLineBreak(s[0]) then [] else [s[0]], Without(s[1..], IsLineBreak), IsSpace);
    }
  }

  /**
   No visible character of the cleaned text is dropped: the drawn strings,
   joined, hold exactly the non-whitespace characters of the text, in order.
   */
  lemma NothingVisibleDropped(text: string, g: Geometry)
    requires g.maxChars >= 1
    ensures Visible(Concat(Drawn(Layout(text, g)))) == Visible(text)
  {
    LayoutContent(text, g);
    NonBlankVisible(Paragraphs(text));
    if SplitLines(text) == [] {
      ConcatSingle(" ");
    } else {
      SplitLinesContent(text);
      VisibleWithoutBreaks(text);
    }
  }

  /**
   Empty cleaned text is laid out as the single blank line `" "`: nothing is
   drawn, and the one page is empty unless that blank line alone overflows it.
   */
  lemma EmptyText(g: Geometry)
    requires g.maxChars >= 1
    ensures Paragraphs("") == [" "]
    ensures Drawn(Layout("", g)) == []
    ensures g.topMargin <= TopLine(g) - g.lineHeight ==> Layout("", g) == [[]]
  {
    LayoutContent("", g);
    assert [" "][..0] == [];
  }

  // ---------------------------------------------------------------------------
  // Where lines are drawn: the cursor invariant
  // ---------------------------------------------------------------------------

  /** A line at the left margin, in the page font, between the margins. */
  predicate LinePlaced(l: Line, g: Geometry)
  {
    l.x == g.xMargin && l.font == g.font && g.topMargin <= l.y <= TopLine(g)
  }

  /** Every line placed, each at least one line height below the one before. */
  predicate PagePlaced(p: Page, g: Geometry)
  {
    (forall i :: 0 <= i < |p| ==> LinePlaced(p[i], g))
    && (forall i :: 0 < i < |p| ==> p[i].y + g.lineHeight <= p[i - 1].y)
  }

  /** The cursor invariant kept between drawing steps. */
  predicate WellPlaced(c: Cursor, g: Geometry)
  {
    && g.topMargin <= c.y <= TopLine(g)
    && (forall k :: 0 <= k < |c.pages| ==> PagePlaced(c.pages[k], g))
    && PagePlaced(c.current, g)
    && (c.current != [] ==> c.y + g.lineHeight <= c.current[|c.current| - 1].y)
  }

  lemma StartPlaced(g: Geometry)
    requires Sane(g)
    ensures WellPlaced(Start(g), g)
  {
  }

  /** After the check, the cursor is back between the margins if it only moved down. */
  lemma BreakPlaced(c: Cursor, g: Geometry)
    requires Sane(g)
    requires c.y <= TopLine(g)
    requires forall k :: 0 <= k < |c.pages| ==> PagePlaced(c.pages[k], g)
    requires PagePlaced(c.current, g)
    requires c.current != [] ==> c.y + g.lineHeight <= c.current[|c.current| - 1].y
    ensures WellPlaced(BreakIfLow(c, g), g)
  {
  }

  lemma DrawChunkPlaced(c: Cursor, g: Geometry, chunk: string)
    requires Sane(g) && WellPlaced(c, g)
    ensures WellPlaced(DrawChunk(c, g, chunk), g)
  {
    var page := c.current + [Line(g.xMargin, c.y, chunk, g.font)];
    assert PagePlaced(page, g);
    BreakPlaced(Cursor(c.pages, page, c.y - g.lineHeight), g);
  }

  lemma {:induction false} DrawChunksPlaced(c: Cursor, g: Geometry, chunks: seq<string>)
    requires Sane(g) && WellPlaced(c, g)
    ensures WellPlaced(DrawChunks(c, g, chunks), g)
    decreases |chunks|
  {
    if chunks != [] {
      DrawChunksPlaced(c, g, chunks[..|chunks| - 1]);
      DrawChunkPlaced(DrawChunks(c, g, chunks[..|chunks| - 1]), g, chunks[|chunks| - 1]);
    }
  }

  lemma {:induction false} LayParagraphsPlaced(c: Cursor, g: Geometry, paras: seq<string>)
    requires Sane(g) && WellPlaced(c, g)
    ensures WellPlaced(LayParagraphs(c, g, paras), g)
    decreases |paras|
  {
    if paras != [] {
      var init, last := paras[..|paras| - 1], paras[|paras| - 1];
      LayParagraphsPlaced(c, g, init);
      var before := LayParagraphs(c, g, init);
      if IsBlank(last) {
        BreakPlaced(before.(y := before.y - g.lineHeight), g);
      } else {
        DrawChunksPlaced(before, g, Chunks(last, g.maxChars));
        BreakPlaced(DrawChunks(before, g, Chunks(last, g.maxChars)), g);
      }
    }
  }

  /**
   The cursor invariant: every line is drawn at the left margin, in the
   configured font, with `top_margin <= y <= height - top_margin`, and on each
   page every line sits at least one line height below the previous one.
   */
  lemma LayoutPlacement(text: string, g: Geometry)
    requires Sane(g)
    ensures forall p, i :: 0 <= p < |Layout(text, g)| && 0 <= i < |Layout(text, g)[p]| ==>
              LinePlaced(Layout(text, g)[p][i], g)
    ensures forall p, i :: 0 <= p < |Layout(text, g)| && 0 < i < |Layout(text, g)[p]| ==>
              Layout(text, g)[p][i].y + g.lineHeight <= Layout(text, g)[p][i - 1].y
  {
    var c := LayParagraphs(Start(g), g, Paragraphs(text));
    LayParagraphsPlaced(Start(g), g, Paragraphs(text));
    assert forall p :: 0 <= p < |Pages(c)| ==> PagePlaced(Pages(c)[p], g);
  }
}
