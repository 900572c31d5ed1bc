/**
 The plain-text book viewer `display_book` (ui.c): the stored lines are cut
 into rows one column narrower than the terminal and shown from a line
 offset that the keys move and then clamp.
 */
module Book {
  import opened Optional
  import opened CStrings
  import opened Terminal
  import opened Arith

  /** What one key does: `q` quits (`0`), Left goes back to the menu (`-1`),
      anything else gives the next line offset. */
  datatype BookReply = Quit | Back | Offset(offset: int)

  /** The clamp applied after every key: the last offset leaves one line and
      the footer on the last screen row. */
  function BookMax(count: int, rows: int): nat {
    if count - rows + 1 < 0 then 0 else count - rows + 1
  }

  /** The key handling of `display_book` for `count` stored lines on a
      terminal `rows` rows high. */
  function BookStep(offset: int, count: int, rows: int, key: Key): (r: BookReply)
    ensures r == Quit <==> key == Typed('q')
    ensures r == Back <==> key == Left
    ensures r.Offset? ==> 0 <= r.offset <= BookMax(count, rows)
  {
    if key == Typed('q') then Quit
    else
      var moved :=
        if key == Up && offset > 0 then offset - 1
        else if key == Down && offset < count - 1 then offset + 1
        else if key == PageDown then offset + rows
        else if key == PageUp then offset - rows
        else offset;
      if key == Left then Back
      else
        var o := if moved < 0 then 0 else moved;
        Offset(if o > BookMax(count, rows) then BookMax(count, rows) else o)
  }

  /** One frame: the terminal height when it is drawn and the key read after it. */
  datatype Frame = Frame(rows: int, key: Key)

  /** `display_book` on the lines of the file (`None` when it could not be
      opened) from the offset saved by the last session, fed the frames `fs`:
      `-2` without a file, `0` after `q`, `-1` after Left, `None` while it is
      still waiting for keys. */
  function ReadBook(file: Option<seq<CString>>, offset: int, fs: seq<Frame>): (r: Option<int>)
    ensures file.None? ==> r == Some(-2)
    ensures file.Some? ==> (r.Some? <==> exists k | 0 <= k < |fs| :: Leaves(fs[k].key))
    ensures file.Some? ==> (r == Some(0) <==> FirstLeave(fs, Typed('q')))
    ensures file.Some? ==> (r == Some(-1) <==> FirstLeave(fs, Left))
  {
    if file.None? then Some(-2) else Viewing(|file.value|, offset, fs).0
  }

  /** The two keys that leave the viewer. */
  predicate Leaves(key: Key) {
    key == Typed('q') || key == Left
  }

  /** The first key of `fs` that leaves the viewer is `key`. */
  predicate FirstLeave(fs: seq<Frame>, key: Key) {
    exists k | 0 <= k < |fs| :: fs[k].key == key && forall j | 0 <= j < k :: !Leaves(fs[j].key)
  }

  /** The key loop over `count` lines from `offset`: the result once `q` or
      Left is read (`0` for `q`, `-1` for Left, whichever comes first), and the
      offset the frames leave. */
  function Viewing(count: int, offset: int, fs: seq<Frame>): (r: (Option<int>, int))
    ensures r.0.Some? <==> exists k | 0 <= k < |fs| :: Leaves(fs[k].key)
    ensures r.0.Some? ==> r.0.value in {0, -1}
    ensures r.0 == Some(0) <==> FirstLeave(fs, Typed('q'))
    ensures r.0 == Some(-1) <==> FirstLeave(fs, Left)
    decreases |fs|
  {
    if |fs| == 0 then (None, offset)
    else match BookStep(offset, count, fs[0].rows, fs[0].key)
      case Quit => (Some(0), offset)
      case Back => (Some(-1), offset)
      case Offset(o) =>
        assert forall k | 1 <= k < |fs| :: fs[k] == fs[1..][k - 1];
        Viewing(count, o, fs[1..])
  }

  /** After the first key that moves it, the offset is in range for the height
      of the last frame, whatever the saved offset was. */
  lemma {:induction false} ViewingClamps(count: int, offset: int, fs: seq<Frame>)
    requires |fs| > 0
    ensures var r := Viewing(count, offset, fs);
            r.0.None? ==> 0 <= r.1 <= BookMax(count, fs[|fs| - 1].rows)
    decreases |fs|
  {
    var s := BookStep(offset, count, fs[0].rows, fs[0].key);
    if s.Offset? && |fs| > 1 {
      ViewingClamps(count, s.offset, fs[1..]);
    }
  }

  function Min(a: int, b: int): int {
    if a < b then a else b
  }

  function Max(a: int, b: int): int {
    if a < b then b else a
  }

  /** From a clamped offset, Up and Down move by one line where they can and
      the paging keys move by exactly `rows` lines before the clamp; any other
      key keeps the offset. */
  lemma BookKeys(offset: int, count: int, rows: int, key: Key)
    requires rows >= 1 && 0 <= offset <= BookMax(count, rows)
    requires key != Typed('q') && key != Left
    ensures key == Up ==> BookStep(offset, count, rows, key) == Offset(Max(offset - 1, 0))
    ensures key == Down && offset < count - 1 ==> BookStep(offset, count, rows, key) == Offset(Min(offset + 1, BookMax(count, rows)))
    ensures key == Down && offset >= count - 1 ==> BookStep(offset, count, rows, key) == Offset(offset)
    ensures key == PageDown ==> BookStep(offset, count, rows, key) == Offset(Min(offset + rows, BookMax(count, rows)))
    ensures key == PageUp ==> BookStep(offset, count, rows, key) == Offset(Max(offset - rows, 0))
    ensures !(key in {Up, Down, PageUp, PageDown}) ==> BookStep(offset, count, rows, key) == Offset(offset)
  {
  }

  /** The offset read from the progress file is used as it is until the first
      key: the first frame is drawn from it, and with no line at or after it
      that frame holds no text row. Past the last full screen, every key that
      does not leave moves it to the last full screen, except that the paging
      keys first move it by `rows` lines. */
  lemma FirstKeyClamps(lines: seq<CString>, offset: int, rows: int, cols: int, key: Key)
    requires offset > BookMax(|lines|, rows) && cols >= 2 && !Leaves(key)
    ensures Viewing(|lines|, offset, []).1 == offset
    ensures offset >= |lines| ==> Take(Rows(lines[Min(offset, |lines|)..], cols - 1), rows - 1) == []
    ensures key == PageUp ==>
              BookStep(offset, |lines|, rows, key) == Offset(Min(Max(offset - rows, 0), BookMax(|lines|, rows)))
    ensures key == PageDown ==>
              BookStep(offset, |lines|, rows, key) == Offset(Min(Max(offset + rows, 0), BookMax(|lines|, rows)))
    ensures key != PageUp && key != PageDown ==>
              BookStep(offset, |lines|, rows, key) == Offset(BookMax(|lines|, rows))
  {
    assert offset >= |lines| ==> lines[Min(offset, |lines|)..] == [];
  }

  /** The rows a stored line takes on a terminal `w + 1` columns wide: pieces of
      `w` bytes, the last one shorter; an empty line takes none. */
  function Chunks(s: CString, w: nat): (r: seq<CString>)
    requires w >= 1
    ensures forall k | 0 <= k < |r| :: 1 <= |r[k]| <= w
    decreases |s|
  {
    if |s| == 0 then []
    else if |s| <= w then [s]
    else [s[..w]] + Chunks(s[w..], w)
  }

  /** The bytes of the rows, in order. */
  function Concat(rs: seq<CString>): CString {
    if |rs| == 0 then [] else rs[0] + Concat(rs[1..])
  }

  /** Cutting into rows loses and adds nothing. */
  lemma {:induction false} ChunksJoin(s: CString, w: nat)
    requires w >= 1
    ensures Concat(Chunks(s, w)) == s
    decreases |s|
  {
    if |s| > w {
      ChunksJoin(s[w..], w);
      ConcatCons(s[..w], Chunks(s[w..], w));
      assert s == s[..w] + s[w..];
    } else if |s| > 0 {
      ConcatCons(s, []);
    }
  }

  lemma ConcatCons(r: CString, rs: seq<CString>)
    ensures Concat([r] + rs) == r + Concat(rs)
  {
    assert ([r] + rs)[1..] == rs;
  }

  /** A line of `len` bytes takes `ceil(len / w)` rows, and row `k` holds bytes
      `k * w` up to `(k + 1) * w` or the end of the line. */
  lemma {:induction false} ChunksCount(s: CString, w: nat)
    requires w >= 1
    ensures |Chunks(s, w)| == (|s| + w - 1) / w
    decreases |s|
  {
    if |s| == 0 {
      DivUnique(w - 1, 0, w - 1, w);
    } else if |s| <= w {
      DivUnique(|s| + w - 1, 1, |s| - 1, w);
    } else {
      ChunksCount(s[w..], w);
      var m := (|s| - w + w - 1) / w;
      var r := (|s| - w + w - 1) % w;
      assert |s| - w + w - 1 == m * w + r;
      assert |s| + w - 1 == (m + 1) * w + r;
      DivUnique(|s| + w - 1, m + 1, r, w);
    }
  }

  /** Where row `k` of a line starts: `w` bytes after row `k - 1`. */
  function ChunkStart(k: nat, w: nat): nat {
    if k == 0 then 0 else ChunkStart(k - 1, w) + w
  }

  /** Row `k` starts at byte `k * w`. */
  lemma {:induction false} ChunkStartIsProduct(k: nat, w: nat)
    ensures ChunkStart(k, w) == k * w
  {
    if k > 0 {
      ChunkStartIsProduct(k - 1, w);
      MulDistributes(k, 1, w);
    }
  }

  /** Row `k` of a line holds the bytes from `k * w` up to `(k + 1) * w` or the
      end of the line. */
  lemma {:induction false} ChunkAt(s: CString, w: nat, k: nat)
    requires w >= 1 && k < |Chunks(s, w)|
    ensures ChunkStart(k, w) < |s|
    ensures Chunks(s, w)[k] == s[ChunkStart(k, w) .. Min(|s|, ChunkStart(k + 1, w))]
    decreases k
  {
    if k == 0 {
      assert ChunkStart(1, w) == w;
    } else {
      ChunksTail(s, w);
      ChunkAt(s[w..], w, k - 1);
      ChunkShift(s, w, k);
    }
  }

  lemma ChunksTail(s: CString, w: nat)
    requires w >= 1 && |Chunks(s, w)| > 1
    ensures |s| > w && Chunks(s, w) == [s[..w]] + Chunks(s[w..], w)
  {
  }

  /** Row `k - 1` of the line without its first `w` bytes is row `k` of the line. */
  lemma ChunkShift(s: CString, w: nat, k: nat)
    requires w >= 1 && k >= 1 && |s| > w
    requires ChunkStart(k - 1, w) < |s| - w
    ensures ChunkStart(k, w) < |s|
    ensures s[w..][ChunkStart(k - 1, w) .. Min(|s| - w, ChunkStart(k, w))]
         == s[ChunkStart(k, w) .. Min(|s|, ChunkStart(k + 1, w))]
  {
    assert ChunkStart(k, w) == ChunkStart(k - 1, w) + w;
    assert ChunkStart(k + 1, w) == ChunkStart(k, w) + w;
    ShiftSlice(s, w, ChunkStart(k - 1, w), Min(|s| - w, ChunkStart(k, w)));
  }

  lemma ShiftSlice(s: CString, w: nat, lo: nat, hi: nat)
    requires w <= |s| && lo <= hi <= |s| - w
    ensures s[w..][lo..hi] == s[lo + w..hi + w]
  {
  }

  /** The rows of several lines, one after the other. */
  function Rows(lines: seq<CString>, w: nat): seq<CString>
    requires w >= 1
  {
    if |lines| == 0 then [] else Chunks(lines[0], w) + Rows(lines[1..], w)
  }

  lemma {:induction false} RowsSnoc(lines: seq<CString>, line: CString, w: nat)
    requires w >= 1
    ensures Rows(lines + [line], w) == Rows(lines, w) + Chunks(line, w)
    decreases |lines|
  {
    if |lines| == 0 {
      assert Rows([line], w) == Chunks(line, w) + Rows([], w);
    } else {
      assert (lines + [line])[1..] == lines[1..] + [line];
      RowsSnoc(lines[1..], line, w);
    }
  }

  lemma {:induction false} RowsAppend(a: seq<CString>, b: seq<CString>, w: nat)
    requires w >= 1
    ensures Rows(a + b, w) == Rows(a, w) + Rows(b, w)
    decreases |a|
  {
    if |a| > 0 {
      assert (a + b)[1..] == a[1..] + b;
      RowsAppend(a[1..], b, w);
    } else {
      assert a + b == b;
    }
  }

  /** The first `n` elements of `s` (all of them when it is shorter; none when
      `n` is not positive). */
  function Take<T>(s: seq<T>, n: int): (r: seq<T>)
    ensures r <= s && |r| == Max(0, Min(n, |s|))
  {
    if n <= 0 then [] else if |s| <= n then s else s[..n]
  }

  /** The text rows of one frame: at most `rows - 1` of them, the rows of the
      lines from `offset` on, in order; the last screen row holds the footer. */
  method Render(lines: seq<CString>, offset: int, rows: int, cols: int) returns (screen: seq<CString>)
    requires offset >= 0 && cols >= 2
    ensures screen == Take(Rows(lines[Min(offset, |lines|)..], cols - 1), rows - 1)
    ensures |screen| <= Max(0, rows - 1)
  {
    var w: nat := cols - 1;
    var first := Min(offset, |lines|);
    var limit := rows - 1;
    screen := [];
    var i := first;
    while i < |lines| && |screen| < limit
      invariant first <= i <= |lines|
      invariant screen == Take(Rows(lines[first..i], w), limit)
      invariant |screen| < limit ==> screen == Rows(lines[first..i], w)
      decreases |lines| - i
    {
      screen := DrawLine(screen, lines[i], w, limit);
      RowsStep(lines, first, i, w);
      TakeShort(Rows(lines[first..i + 1], w), limit);
      i := i + 1;
    }
    RenderDone(lines, first, i, w, limit, screen);
  }

  /** The rows of one line drawn after the rows already on the screen, until
      the screen holds `limit` rows. */
  method DrawLine(screen: seq<CString>, line: CString, w: nat, limit: int) returns (out: seq<CString>)
    requires w >= 1 && |screen| <= limit
    ensures out == Take(screen + Chunks(line, w), limit)
  {
    out := screen;
    var rest := line;
    while |rest| > 0 && |out| < limit
      invariant out + Chunks(rest, w) == screen + Chunks(line, w)
      invariant |out| <= limit
      decreases |rest|
    {
      var piece := if |rest| <= w then rest else rest[..w];
      var next := if |rest| <= w then [] else rest[w..];
      ChunksCons(out, rest, w);
      out := out + [piece];
      rest := next;
    }
    TakePrefix(out, Chunks(rest, w), screen + Chunks(line, w), limit);
  }

  /** A `Take` that is shorter than the limit is the whole sequence. */
  lemma TakeShort<T>(s: seq<T>, limit: int)
    ensures |Take(s, limit)| < limit ==> Take(s, limit) == s
  {
  }

  /** One row more on the screen, one row fewer in the rest of the line. */
  lemma ChunksCons(screen: seq<CString>, rest: CString, w: nat)
    requires w >= 1 && |rest| > 0
    ensures screen + Chunks(rest, w)
         == (screen + [if |rest| <= w then rest else rest[..w]]) + Chunks(if |rest| <= w then [] else rest[w..], w)
  {
  }

  /** The rows of the lines up to `i + 1` are those up to `i` and then line `i`'s. */
  lemma RowsStep(lines: seq<CString>, first: nat, i: nat, w: nat)
    requires w >= 1 && first <= i < |lines|
    ensures Rows(lines[first..i + 1], w) == Rows(lines[first..i], w) + Chunks(lines[i], w)
  {
    assert lines[first..i + 1] == lines[first..i] + [lines[i]];
    RowsSnoc(lines[first..i], lines[i], w);
  }

  /** When the loop stops, either every line was drawn or the screen was full. */
  lemma RenderDone(lines: seq<CString>, first: nat, i: nat, w: nat, limit: int, screen: seq<CString>)
    requires w >= 1 && first <= i <= |lines|
    requires screen == Take(Rows(lines[first..i], w), limit)
    requires i == |lines| || |screen| >= limit
    ensures screen == Take(Rows(lines[first..], w), limit)
    ensures |screen| <= Max(0, limit)
  {
    if i < |lines| {
      assert lines[first..] == lines[first..i] + lines[i..];
      RowsAppend(lines[first..i], lines[i..], w);
      TakeLonger(Rows(lines[first..i], w), Rows(lines[i..], w), limit);
    } else {
      assert lines[first..i] == lines[first..];
    }
  }

  /** A drawn prefix that stopped at the limit or at the end is `Take`. */
  lemma TakePrefix<T>(screen: seq<T>, tail: seq<T>, all: seq<T>, limit: int)
    requires screen + tail == all && |screen| <= limit
    requires |tail| == 0 || |screen| >= limit
    ensures screen == Take(all, limit)
    ensures |screen| < limit ==> screen == all
  {
    assert all[..|screen|] == screen;
  }

  lemma TakeLonger<T>(a: seq<T>, b: seq<T>, limit: int)
    requires |Take(a, limit)| >= limit
    ensures Take(a + b, limit) == Take(a, limit)
  {
  }
}
