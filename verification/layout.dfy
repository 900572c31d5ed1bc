/**
 The word-wrap layout inside the render loop of `display_chapter_content`
 (chapter_controller.c), factored out as a pure function from the chapter
 text and the terminal width to the positions of the words and the line
 count, plus the rule that decides which of those lines are on screen.
 */
module Layout {
  import opened Optional
  import opened CStrings

  /** Every line starts at this column (`col = 4`). */
  const LeftColumn := 4

  /** `margin_right`: a word wraps once it would reach `max_x - RightMargin`. */
  const RightMargin := 4

  /** Screen row of the first text line (`visible_start`). */
  const FirstRow := 2

  /** Rows taken by the header, the separator and the footer area: the text
      window is `max_y - ReservedRows` rows high. */
  const ReservedRows := 4

  /** A word drawn at column `col` of text line `line`; `wrapped` when the
      soft-wrap rule moved it to a new line. */
  datatype Placement = Placement(line: nat, col: nat, word: CString, wrapped: bool)

  /** The words in reading order, and the final value of the line counter (`total_lines`). */
  datatype Layout = Layout(placements: seq<Placement>, totalLines: nat)

  /** The two bytes that end a word. */
  predicate Separator(c: CChar) {
    c == ' ' || c == '\n'
  }

  /** The word at the start of `s`: its longest prefix without a space or newline. */
  function WordAt(s: CString): (w: CString)
    ensures w <= s
    ensures forall i | 0 <= i < |w| :: !Separator(w[i])
    ensures |w| < |s| ==> Separator(s[|w|])
  {
    if |s| == 0 || Separator(s[0]) then [] else [s[0]] + WordAt(s[1..])
  }

  /** The words of `s`: its maximal runs without a space or newline, in order. */
  function Tokens(s: CString): seq<CString>
    decreases |s|
  {
    if |s| == 0 then []
    else if Separator(s[0]) then Tokens(s[1..])
    else
      var w := WordAt(s);
      [w] + Tokens(s[|w|..])
  }

  /** The number of newline bytes in `s`. */
  function Newlines(s: CString): nat {
    if |s| == 0 then 0 else (if s[0] == '\n' then 1 else 0) + Newlines(s[1..])
  }

  lemma {:induction false} NewlinesAfterWord(s: CString, n: nat)
    requires n <= |s|
    requires forall i | 0 <= i < n :: s[i] != '\n'
    ensures Newlines(s) == Newlines(s[n..])
    decreases n
  {
    if n > 0 {
      assert s[1..][n - 1..] == s[n..];
      NewlinesAfterWord(s[1..], n - 1);
    }
  }

  function Words(ps: seq<Placement>): seq<CString> {
    if |ps| == 0 then [] else [ps[0].word] + Words(ps[1..])
  }

  /** The number of placements the soft-wrap rule moved to a new line. */
  function Wraps(ps: seq<Placement>): nat {
    if |ps| == 0 then 0 else (if ps[0].wrapped then 1 else 0) + Wraps(ps[1..])
  }

  /** `q` comes right after `p`: one column after `p`'s last byte on the same
      line, or at the start of a later line. */
  predicate Follows(p: Placement, q: Placement) {
    || (q.line == p.line && q.col == p.col + |p.word| + 1)
    || (q.line > p.line && q.col == LeftColumn)
  }

  /** One turn of the render loop on the bytes `rest` still to read, with the
      line counter at `line` and the column at `col`: how many bytes it
      consumes, the word it draws (if any), and the new line and column. */
  datatype Step = Step(consumed: nat, placed: Option<Placement>, line: nat, col: nat)

  /** At the start of a line a space is skipped; a newline starts the next
      line; a space elsewhere is skipped; otherwise the next word is read,
      moved to a new line when it does not start the line and would reach
      `maxX - RightMargin`, drawn, and followed by one column of space when the
      next byte is a space and there is still room. */
  function StepAt(rest: CString, line: nat, col: nat, maxX: int): (s: Step)
    requires |rest| > 0 && col >= LeftColumn
    ensures 0 < s.consumed <= |rest| && s.col >= LeftColumn
  {
    if col == LeftColumn && rest[0] == ' ' then Step(1, None, line, col)
    else if rest[0] == '\n' then Step(1, None, line + 1, LeftColumn)
    else
      var w := WordAt(rest);
      if |w| == 0 then Step(1, None, line, col)
      else
        var wrap := col > LeftColumn && col + |w| >= maxX - RightMargin;
        var l := if wrap then line + 1 else line;
        var c := if wrap then LeftColumn else col;
        var end := c + |w|;
        var p := Placement(l, c, w, wrap);
        if |w| < |rest| && rest[|w|] == ' ' then
          Step(|w| + 1, Some(p), l, if end < maxX - RightMargin then end + 1 else end)
        else Step(|w|, Some(p), l, end)
  }

  /** The render loop from the bytes `rest` still to read. */
  function LayoutFrom(rest: CString, line: nat, col: nat, maxX: int): (r: Layout)
    requires col >= LeftColumn
    decreases |rest|
  {
    if |rest| == 0 then Layout([], line)
    else
      var s := StepAt(rest, line, col, maxX);
      var tail := LayoutFrom(rest[s.consumed..], s.line, s.col, maxX);
      Layout((if s.placed.Some? then [s.placed.value] else []) + tail.placements, tail.totalLines)
  }

  /** What the step draws, prepended to what the rest of the loop draws. */
  lemma LayoutUnfold(rest: CString, line: nat, col: nat, maxX: int)
    requires |rest| > 0 && col >= LeftColumn
    ensures var s := StepAt(rest, line, col, maxX);
            var tail := LayoutFrom(rest[s.consumed..], s.line, s.col, maxX);
            LayoutFrom(rest, line, col, maxX).totalLines == tail.totalLines
            && LayoutFrom(rest, line, col, maxX).placements
               == (if s.placed.Some? then [s.placed.value] else []) + tail.placements
  {
  }

  /** Words are drawn whole, in text order, each exactly once: the drawn words
      are exactly the words of the text. */
  lemma {:induction false} LayoutKeepsWords(rest: CString, line: nat, col: nat, maxX: int)
    requires col >= LeftColumn
    ensures Words(LayoutFrom(rest, line, col, maxX).placements) == Tokens(rest)
    decreases |rest|
  {
    if |rest| > 0 {
      var s := StepAt(rest, line, col, maxX);
      var tail := LayoutFrom(rest[s.consumed..], s.line, s.col, maxX);
      LayoutKeepsWords(rest[s.consumed..], s.line, s.col, maxX);
      LayoutUnfold(rest, line, col, maxX);
      if s.placed.Some? {
        var w := WordAt(rest);
        assert s.placed.value.word == w;
        assert Tokens(rest) == [w] + Tokens(rest[|w|..]);
        if s.consumed == |w| + 1 {
          assert rest[|w|..][1..] == rest[s.consumed..];
        }
        assert Words([s.placed.value] + tail.placements) == [w] + Words(tail.placements);
      } else {
        assert Separator(rest[0]) by { var w := WordAt(rest); }
        assert Tokens(rest) == Tokens(rest[1..]);
        assert [] + tail.placements == tail.placements;
      }
    }
  }

  /** The line counter ends at the number of newlines plus the number of soft wraps. */
  lemma {:induction false} LayoutCountsLines(rest: CString, line: nat, col: nat, maxX: int)
    requires col >= LeftColumn
    ensures var r := LayoutFrom(rest, line, col, maxX);
            r.totalLines == line + Newlines(rest) + Wraps(r.placements)
    decreases |rest|
  {
    if |rest| > 0 {
      var s := StepAt(rest, line, col, maxX);
      var tail := LayoutFrom(rest[s.consumed..], s.line, s.col, maxX);
      LayoutCountsLines(rest[s.consumed..], s.line, s.col, maxX);
      LayoutUnfold(rest, line, col, maxX);
      if s.placed.Some? {
        var w := WordAt(rest);
        NewlinesAfterWord(rest, s.consumed);
        assert Wraps([s.placed.value] + tail.placements) == (if s.placed.value.wrapped then 1 else 0) + Wraps(tail.placements);
      } else {
        assert Newlines(rest) == (if rest[0] == '\n' then 1 else 0) + Newlines(rest[1..]);
        assert [] + tail.placements == tail.placements;
      }
    }
  }

  /** How a single drawn word sits on its line: never left of the margin; past
      the first column only if it ends before `maxX - RightMargin`; at the first
      column when it was wrapped. A word at the first column is drawn even if it
      is too long: there is no hard split. */
  predicate Fits(p: Placement, maxX: int) {
    && p.col >= LeftColumn
    && |p.word| > 0
    && (p.col > LeftColumn ==> p.col + |p.word| < maxX - RightMargin)
    && (p.wrapped ==> p.col == LeftColumn)
  }

  lemma {:induction false} LayoutFits(rest: CString, line: nat, col: nat, maxX: int)
    requires col >= LeftColumn
    ensures var ps := LayoutFrom(rest, line, col, maxX).placements;
            forall k | 0 <= k < |ps| :: Fits(ps[k], maxX)
    decreases |rest|
  {
    if |rest| > 0 {
      var s := StepAt(rest, line, col, maxX);
      LayoutFits(rest[s.consumed..], s.line, s.col, maxX);
      LayoutUnfold(rest, line, col, maxX);
    }
  }

  /** Where the first drawn word goes: at the current column when it stays on
      the current line, otherwise at the first column of a later line; it
      never stays on the current line when the column is already past the
      wrap limit or the text starts with a newline. When the text starts with
      a word, that word is drawn first, and it is moved to the next line
      (and marked wrapped) exactly when it does not start the line and would
      reach `maxX - RightMargin`; otherwise it stays at the current column. */
  lemma {:induction false} LayoutFirst(rest: CString, line: nat, col: nat, maxX: int)
    requires col >= LeftColumn
    ensures var ps := LayoutFrom(rest, line, col, maxX).placements;
            |ps| > 0 ==>
              && line <= ps[0].line
              && (ps[0].line == line ==> ps[0].col == col)
              && (ps[0].line > line ==> ps[0].col == LeftColumn)
              && (col > LeftColumn && col >= maxX - RightMargin ==> ps[0].line > line)
              && (rest[0] == '\n' ==> ps[0].line > line)
    ensures var ps := LayoutFrom(rest, line, col, maxX).placements;
            |rest| > 0 && !Separator(rest[0]) ==>
              && |ps| > 0
              && ps[0].word == WordAt(rest)
              && (ps[0].wrapped <==> col > LeftColumn && col + |WordAt(rest)| >= maxX - RightMargin)
              && ps[0].line == (if ps[0].wrapped then line + 1 else line)
              && ps[0].col == (if ps[0].wrapped then LeftColumn else col)
    decreases |rest|
  {
    if |rest| > 0 {
      var s := StepAt(rest, line, col, maxX);
      LayoutFirst(rest[s.consumed..], s.line, s.col, maxX);
      LayoutUnfold(rest, line, col, maxX);
    }
  }

  /** Lines only grow along the layout and stay within the final line count. */
  lemma {:induction false} LayoutLinesBounded(rest: CString, line: nat, col: nat, maxX: int)
    requires col >= LeftColumn
    ensures var r := LayoutFrom(rest, line, col, maxX);
            line <= r.totalLines
            && forall k | 0 <= k < |r.placements| :: line <= r.placements[k].line <= r.totalLines
    decreases |rest|
  {
    if |rest| > 0 {
      var s := StepAt(rest, line, col, maxX);
      LayoutLinesBounded(rest[s.consumed..], s.line, s.col, maxX);
      LayoutUnfold(rest, line, col, maxX);
    }
  }

  /** A text with a newline ends at least that many lines further down. */
  lemma NewlinesCounted(rest: CString, line: nat, col: nat, maxX: int)
    requires col >= LeftColumn
    ensures LayoutFrom(rest, line, col, maxX).totalLines >= line + Newlines(rest)
  {
    LayoutCountsLines(rest, line, col, maxX);
  }

  lemma {:induction false} LastNewlineCounted(s: CString)
    requires |s| > 0 && Last(s) == '\n'
    ensures Newlines(s) >= 1
    decreases |s|
  {
    if |s| > 1 {
      assert Last(s[1..]) == Last(s);
      LastNewlineCounted(s[1..]);
    }
  }

  /** In a text that ends in a newline every word lies above the final line. */
  lemma {:induction false} WordsAboveLastLine(rest: CString, line: nat, col: nat, maxX: int)
    requires col >= LeftColumn && |rest| > 0 && Last(rest) == '\n'
    ensures var r := LayoutFrom(rest, line, col, maxX);
            forall k | 0 <= k < |r.placements| :: r.placements[k].line < r.totalLines
    decreases |rest|
  {
    var s := StepAt(rest, line, col, maxX);
    var rest' := rest[s.consumed..];
    LayoutUnfold(rest, line, col, maxX);
    if |rest'| > 0 {
      assert Last(rest') == Last(rest);
      WordsAboveLastLine(rest', s.line, s.col, maxX);
      if s.placed.Some? {
        LastNewlineCounted(rest');
        NewlinesCounted(rest', s.line, s.col, maxX);
        FirstPlacedOnStepLine(rest, line, col, maxX);
      }
    }
  }

  /** The word a step draws is on the line the step ends on. */
  lemma FirstPlacedOnStepLine(rest: CString, line: nat, col: nat, maxX: int)
    requires |rest| > 0 && col >= LeftColumn
    ensures var s := StepAt(rest, line, col, maxX);
            s.placed.Some? ==> s.placed.value.line == s.line
  {
  }

  /** Consecutive words follow each other: one column apart on the same line,
      or the later one at the first column of a later line. */
  lemma {:induction false} LayoutChains(rest: CString, line: nat, col: nat, maxX: int)
    requires col >= LeftColumn
    ensures var ps := LayoutFrom(rest, line, col, maxX).placements;
            forall k | 1 <= k < |ps| :: Follows(ps[k - 1], ps[k])
    decreases |rest|
  {
    if |rest| > 0 {
      var s := StepAt(rest, line, col, maxX);
      var rest' := rest[s.consumed..];
      var ts := LayoutFrom(rest', s.line, s.col, maxX).placements;
      LayoutChains(rest', s.line, s.col, maxX);
      LayoutUnfold(rest, line, col, maxX);
      if s.placed.Some? {
        var p := s.placed.value;
        FollowsStep(rest, line, col, maxX);
        ChainCons(p, ts);
      } else {
        assert [] + ts == ts;
      }
    }
  }

  /** The word a step draws is followed by the first word of the rest. */
  lemma FollowsStep(rest: CString, line: nat, col: nat, maxX: int)
    requires |rest| > 0 && col >= LeftColumn
    requires StepAt(rest, line, col, maxX).placed.Some?
    ensures var s := StepAt(rest, line, col, maxX);
            var rest' := rest[s.consumed..];
            var ts := LayoutFrom(rest', s.line, s.col, maxX).placements;
            |ts| > 0 ==> Follows(s.placed.value, ts[0])
  {
    var s := StepAt(rest, line, col, maxX);
    var rest' := rest[s.consumed..];
    var ts := LayoutFrom(rest', s.line, s.col, maxX).placements;
    if |ts| > 0 {
      LayoutFirst(rest', s.line, s.col, maxX);
      var p := s.placed.value;
      if s.consumed == |p.word| {
        assert rest'[0] == '\n';
      }
    }
  }

  lemma ChainCons(p: Placement, ts: seq<Placement>)
    requires |ts| > 0 ==> Follows(p, ts[0])
    requires forall k | 1 <= k < |ts| :: Follows(ts[k - 1], ts[k])
    ensures forall k | 1 <= k < |[p] + ts| :: Follows(([p] + ts)[k - 1], ([p] + ts)[k])
  {
    var ps := [p] + ts;
    forall k | 1 <= k < |ps|
      ensures Follows(ps[k - 1], ps[k])
    {
      if k > 1 {
        assert ps[k - 1] == ts[k - 2] && ps[k] == ts[k - 1];
      }
    }
  }

  /** The layout of a whole chapter text on a terminal `maxX` columns wide. */
  function LayOut(text: CString, maxX: int): Layout {
    LayoutFrom(text, 0, LeftColumn, maxX)
  }

  /** A word drawn on the screen at (`row`, `col`). */
  datatype Cell = Cell(row: int, col: nat, word: CString)

  /** The words the frame draws: those on lines `offset .. offset + height - 1`,
      line `l` going to screen row `FirstRow + l - offset`. */
  function Visible(ps: seq<Placement>, offset: int, height: int): (r: seq<Cell>)
    ensures forall c | c in r :: FirstRow <= c.row < FirstRow + height
  {
    if |ps| == 0 then []
    else
      var p := ps[0];
      var rest := Visible(ps[1..], offset, height);
      if offset <= p.line < offset + height then [Cell(FirstRow + p.line - offset, p.col, p.word)] + rest
      else rest
  }

  /** Every word on a line in the window is drawn, at its row. */
  lemma {:induction false} VisibleComplete(ps: seq<Placement>, offset: int, height: int)
    ensures forall p | p in ps && offset <= p.line < offset + height ::
              Cell(FirstRow + p.line - offset, p.col, p.word) in Visible(ps, offset, height)
  {
    if |ps| > 0 {
      VisibleComplete(ps[1..], offset, height);
      assert forall q | q in ps :: q == ps[0] || q in ps[1..];
    }
  }

  /** Only words on lines in the window are drawn. */
  lemma {:induction false} VisibleSound(ps: seq<Placement>, offset: int, height: int)
    ensures forall c | c in Visible(ps, offset, height) :: exists p | p in ps ::
              offset <= p.line < offset + height && c == Cell(FirstRow + p.line - offset, p.col, p.word)
  {
    if |ps| > 0 {
      VisibleSound(ps[1..], offset, height);
      assert forall q | q in ps[1..] :: q in ps;
    }
  }
}
