/**
 The chapter reader, `display_chapter_content` (chapter_controller.c): the
 text is extracted once, then every frame lays it out for the current
 terminal size, draws the lines in the scroll window, and reads one key that
 closes the reader or moves the scroll offset.
 */
module Reader {
  import opened Optional
  import opened CStrings
  import opened Terminal
  import opened Extraction
  import opened Layout

  /** The number of text rows in a terminal `maxY` rows high
      (`visible_end - visible_start`). */
  function Height(maxY: int): int {
    (maxY - 2) - FirstRow
  }

  /** The largest offset the scroll keys lead to once the window has settled. */
  function MaxOffset(total: int, h: int): nat {
    if total - h > 0 then total - h else 0
  }

  /** What one key does: `q`/`Q` closes the reader, anything else gives the
      next scroll offset. */
  datatype Outcome = Close | Scroll(offset: int)

  predicate IsQuit(key: Key) {
    key == Typed('q') || key == Typed('Q')
  }

  /** The key handling of one frame, for a text of `total` lines in a window
      of `h` rows. */
  function ScrollStep(offset: int, total: int, h: int, key: Key): (r: Outcome)
    ensures r == Close <==> IsQuit(key)
    ensures r.Scroll? && !(key == Up || key == Down || key == PageUp || key == PageDown) ==>
              r.offset == offset
    ensures r.Scroll? && key == Up ==>
              r.offset == (if offset > 0 then offset - 1 else offset)
    ensures r.Scroll? && key == Down ==>
              r.offset == (if offset < total - h then offset + 1 else offset)
    ensures r.Scroll? && key == PageUp ==> r.offset >= 0
    ensures r.Scroll? && key == PageDown ==> r.offset <= MaxOffset(total, h)
  {
    if IsQuit(key) then Close
    else if key == Up && offset > 0 then Scroll(offset - 1)
    else if key == Down && offset < total - h then Scroll(offset + 1)
    else if key == PageUp then
      var o := offset - h;
      Scroll(if o < 0 then 0 else o)
    else if key == PageDown then
      var o := offset + h;
      if o > total - h then Scroll(if total - h < 0 then 0 else total - h)
      else Scroll(o)
    else Scroll(offset)
  }

  /** Within a settled window, one page up is the offset `h` lines earlier but
      not before the first line, and one page down is `h` lines later but not
      past the last full window. */
  lemma PagingClamps(offset: int, total: int, h: int)
    requires h >= 1 && 0 <= offset
    ensures ScrollStep(offset, total, h, PageUp) == Scroll(if offset - h > 0 then offset - h else 0)
    ensures ScrollStep(offset, total, h, PageDown)
         == Scroll(if offset + h < MaxOffset(total, h) then offset + h else MaxOffset(total, h))
  {
  }

  /** A window of at least one row keeps the offset in `0 .. MaxOffset`; a
      text that fits in the window is never scrolled. */
  lemma ScrollStaysInRange(offset: int, total: int, h: int, key: Key)
    requires h >= 1 && 0 <= offset <= MaxOffset(total, h)
    ensures var r := ScrollStep(offset, total, h, key);
            r.Scroll? ==> 0 <= r.offset <= MaxOffset(total, h)
    ensures var r := ScrollStep(offset, total, h, key);
            r.Scroll? && total <= h ==> r.offset == 0
  {
  }

  /** Up undoes Down and Down undoes Up inside the settled range. */
  lemma UpDownInverse(offset: int, total: int, h: int)
    requires h >= 1
    ensures 0 <= offset < MaxOffset(total, h) ==>
              ScrollStep(ScrollStep(offset, total, h, Down).offset, total, h, Up) == Scroll(offset)
    ensures 0 < offset <= MaxOffset(total, h) ==>
              ScrollStep(ScrollStep(offset, total, h, Up).offset, total, h, Down) == Scroll(offset)
  {
  }

  /** Every line of the text can be brought into the window at some settled
      offset. */
  lemma EveryLineReachable(line: int, total: int, h: int)
    requires h >= 1 && 0 <= line < total
    ensures var o := if line < MaxOffset(total, h) then line else MaxOffset(total, h);
            0 <= o <= MaxOffset(total, h) && o <= line < o + h
  {
  }

  /** `n` frames of a `maxX` by `maxY` terminal, each answered with Down. */
  function Downs(n: nat, maxX: int, maxY: int): (r: seq<Frame>)
    ensures |r| == n && forall k | 0 <= k < n :: r[k] == Frame(maxX, maxY, Down)
  {
    seq(n, k => Frame(maxX, maxY, Down))
  }

  /** From offset `a`, `n` presses of Down that stay in the settled range
      lead to offset `a + n`, and the reader stays open. */
  lemma {:induction false} DownsReach(text: CString, a: nat, n: nat, maxX: int, maxY: int)
    requires Height(maxY) >= 1
    requires a + n <= MaxOffset(LayOut(text, maxX).totalLines, Height(maxY))
    ensures Scrolling(text, a, Downs(n, maxX, maxY)) == Open(a + n)
    decreases n
  {
    if n > 0 {
      var fs := Downs(n, maxX, maxY);
      var total := LayOut(text, maxX).totalLines;
      assert fs[0].key == Down && !IsQuit(Down);
      assert ScrollStep(a, total, Height(maxY), Down) == Scroll(a + 1);
      assert fs[1..] == Downs(n - 1, maxX, maxY);
      DownsReach(text, a + 1, n - 1, maxX, maxY);
    }
  }

  /** Every word of an accepted chapter text is drawn, at its column and on
      the row of its line, at an offset in the settled range that the reader,
      opened at offset 0, reaches after that many presses of Down: the text
      ends in a newline, so no word sits on the line the counter ends at. */
  lemma EveryWordShown(doc: Node, maxX: int, maxY: int, p: Placement)
    requires Extract(doc).Some? && Height(maxY) >= 1
    requires p in LayOut(Extract(doc).value, maxX).placements
    ensures var text := Extract(doc).value;
            var total := LayOut(text, maxX).totalLines;
            var o := if p.line < MaxOffset(total, Height(maxY)) then p.line else MaxOffset(total, Height(maxY));
            && 0 <= o <= MaxOffset(total, Height(maxY))
            && Scrolling(text, 0, Downs(o, maxX, maxY)) == Open(o)
            && Cell(FirstRow + p.line - o, p.col, p.word) in Screen(text, maxX, maxY, o)
  {
    var text := Extract(doc).value;
    var l := LayOut(text, maxX);
    var h := Height(maxY);
    ExtractEndsInNewline(doc);
    WordsAboveLastLine(text, 0, LeftColumn, maxX);
    assert l == LayoutFrom(text, 0, LeftColumn, maxX);
    var k :| 0 <= k < |l.placements| && l.placements[k] == p;
    assert p.line < l.totalLines;
    EveryLineReachable(p.line, l.totalLines, h);
    var o := if p.line < MaxOffset(l.totalLines, h) then p.line else MaxOffset(l.totalLines, h);
    VisibleComplete(l.placements, o, h);
    DownsReach(text, 0, o, maxX, maxY);
  }

  /** One frame: the terminal size when it is drawn and the key read after it. */
  datatype Frame = Frame(maxX: int, maxY: int, key: Key)

  /** The state after a sequence of frames: closed after `frames` frames, or
      still open at scroll offset `offset`. */
  datatype Session = Closed(frames: nat) | Open(offset: int)

  /** The render loop over the frames `fs`, starting at `offset`. */
  function Scrolling(text: CString, offset: int, fs: seq<Frame>): (r: Session)
    ensures r.Closed? <==> exists k | 0 <= k < |fs| :: IsQuit(fs[k].key)
    ensures r.Closed? ==> 1 <= r.frames <= |fs| && IsQuit(fs[r.frames - 1].key)
                          && forall k | 0 <= k < r.frames - 1 :: !IsQuit(fs[k].key)
    decreases |fs|
  {
    if |fs| == 0 then Open(offset)
    else
      var f := fs[0];
      var total := LayOut(text, f.maxX).totalLines;
      match ScrollStep(offset, total, Height(f.maxY), f.key)
      case Close => Closed(1)
      case Scroll(o) =>
        var r := Scrolling(text, o, fs[1..]);
        assert forall k | 1 <= k < |fs| :: fs[k] == fs[1..][k - 1];
        if r.Closed? then Closed(r.frames + 1) else r
  }

  /** On a terminal that keeps its size (at least one text row), the offset
      never leaves `0 .. MaxOffset`. */
  lemma {:induction false} ScrollingStaysInRange(text: CString, offset: int, fs: seq<Frame>, maxX: int, maxY: int)
    requires Height(maxY) >= 1
    requires forall k | 0 <= k < |fs| :: fs[k].maxX == maxX && fs[k].maxY == maxY
    requires 0 <= offset <= MaxOffset(LayOut(text, maxX).totalLines, Height(maxY))
    ensures var r := Scrolling(text, offset, fs);
            r.Open? ==> 0 <= r.offset <= MaxOffset(LayOut(text, maxX).totalLines, Height(maxY))
    decreases |fs|
  {
    if |fs| > 0 {
      var total := LayOut(text, maxX).totalLines;
      ScrollStaysInRange(offset, total, Height(maxY), fs[0].key);
      var s := ScrollStep(offset, total, Height(maxY), fs[0].key);
      if s.Scroll? {
        ScrollingStaysInRange(text, s.offset, fs[1..], maxX, maxY);
      }
    }
  }

  /** The words drawn in a frame, in text-line order. */
  function Screen(text: CString, maxX: int, maxY: int, offset: int): (r: seq<Cell>)
    ensures forall c | c in r :: FirstRow <= c.row < maxY - 2
  {
    Visible(LayOut(text, maxX).placements, offset, Height(maxY))
  }

  /** The result of `display_chapter_content` on a parsed page (or none),
      `None` while the reader is still waiting for keys. */
  function Display(doc: Option<Node>, fs: seq<Frame>): (r: Option<int>)
    ensures r == Some(1) <==> doc.None? || Extract(doc.value).None?
    ensures r == Some(0) <==> doc.Some? && Extract(doc.value).Some?
                              && exists k | 0 <= k < |fs| :: IsQuit(fs[k].key)
    ensures r.None? ==> forall k | 0 <= k < |fs| :: !IsQuit(fs[k].key)
  {
    if doc.None? then Some(1)
    else match Extract(doc.value)
      case None => Some(1)
      case Some(text) =>
        if Scrolling(text, 0, fs).Closed? then Some(0) else None
  }
}
