/**
 The in-place `normalize_whitespace` pass of chapter_controller.c, as a fold
 over the input bytes carrying the pass's two flags, followed by the trim of
 trailing spaces and newlines.
 */
module Whitespace {
  import opened CStrings

  /** `last_was_space` and `last_was_newline`. */
  datatype Flags = Flags(lastWasSpace: bool, lastWasNewline: bool)

  /** The flags before the first byte: the pass starts as if after a space. */
  const Start := Flags(true, false)

  /** White space other than a space or a newline. */
  predicate OtherSpace(c: CChar) {
    IsSpace(c) && c != ' ' && c != '\n'
  }

  /** The bytes of `s` that are not white space, in order. */
  function Solid(s: CString): CString {
    if |s| == 0 then [] else (if IsSpace(s[0]) then [] else [s[0]]) + Solid(s[1..])
  }

  lemma {:induction false} SolidAppend(a: CString, b: CString)
    ensures Solid(a + b) == Solid(a) + Solid(b)
    decreases |a|
  {
    if |a| > 0 {
      assert (a + b)[1..] == a[1..] + b;
      SolidAppend(a[1..], b);
    } else {
      assert a + b == b;
    }
  }

  /** White space in `s` has been collapsed: only spaces and newlines remain, no
      space starts the string or follows a space or a newline, and no newline
      follows a newline. */
  predicate Collapsed(s: CString) {
    forall i | 0 <= i < |s| :: CollapsedAt(s, i)
  }

  /** The byte at `i` respects the rules of `Collapsed`. */
  predicate CollapsedAt(s: CString, i: nat)
    requires i < |s|
  {
    && !OtherSpace(s[i])
    && (s[i] == ' ' ==> i > 0 && s[i - 1] != ' ' && s[i - 1] != '\n')
    && (s[i] == '\n' ==> i == 0 || s[i - 1] != '\n')
  }

  /** Collapsed, and not ending in a space or a newline: the shape of a normalised string. */
  predicate Normal(s: CString) {
    Collapsed(s) && (|s| > 0 ==> Last(s) != ' ' && Last(s) != '\n')
  }

  /** The flags the pass holds once it has written `out`. */
  function FlagsAfter(out: CString): Flags {
    if |out| == 0 then Start
    else if Last(out) == '\n' then Flags(true, true)
    else if Last(out) == ' ' then Flags(true, false)
    else Flags(false, false)
  }

  /** Any prefix of a collapsed string is collapsed. */
  lemma CollapsedPrefix(s: CString, n: nat)
    requires Collapsed(s) && n <= |s|
    ensures Collapsed(s[..n])
  {
    forall i | 0 <= i < n
      ensures CollapsedAt(s[..n], i)
    {
      assert CollapsedAt(s, i);
      assert s[..n][i] == s[i];
      if i > 0 {
        assert s[..n][i - 1] == s[i - 1];
      }
    }
  }

  /** Appending one byte keeps a string collapsed when the byte respects the rules at its position. */
  lemma CollapsedSnoc(out: CString, c: CChar)
    requires Collapsed(out)
    requires !OtherSpace(c)
    requires c == ' ' ==> |out| > 0 && Last(out) != ' ' && Last(out) != '\n'
    requires c == '\n' ==> |out| == 0 || Last(out) != '\n'
    ensures Collapsed(out + [c])
  {
    var t := out + [c];
    forall i | 0 <= i < |t|
      ensures CollapsedAt(t, i)
    {
      if i < |out| {
        assert CollapsedAt(out, i);
        assert t[i] == out[i];
        if i > 0 {
          assert t[i - 1] == out[i - 1];
        }
      } else {
        assert t[i] == c;
        if i > 0 {
          assert t[i - 1] == Last(out);
        }
      }
    }
  }

  /** One iteration of the copying loop on byte `c`, with `out` written so far
      and flags `f`: a newline is written unless one was just written; other
      white space becomes one space unless a space or newline was just written;
      any other byte is copied. */
  function Emit(out: CString, f: Flags, c: CChar): (r: (CString, Flags))
    requires Collapsed(out) && f == FlagsAfter(out)
    ensures out <= r.0 && |r.0| <= |out| + 1
    ensures Collapsed(r.0) && r.1 == FlagsAfter(r.0)
    ensures Solid(r.0) == Solid(out) + Solid([c])
  {
    if c == '\n' then
      if f.lastWasNewline then (out, Flags(true, true))
      else
        CollapsedSnoc(out, '\n');
        SolidAppend(out, ['\n']);
        (out + ['\n'], Flags(true, true))
    else if IsSpace(c) then
      if !f.lastWasSpace && !f.lastWasNewline then
        CollapsedSnoc(out, ' ');
        SolidAppend(out, [' ']);
        (out + [' '], Flags(true, false))
      else (out, f)
    else
      CollapsedSnoc(out, c);
      SolidAppend(out, [c]);
      (out + [c], Flags(false, false))
  }

  /** The copying loop of `normalize_whitespace` over the bytes `s` still to read. */
  function Collapse(s: CString, out: CString, f: Flags): (r: CString)
    requires Collapsed(out) && f == FlagsAfter(out)
    ensures out <= r && Collapsed(r)
    ensures |r| <= |out| + |s|
    ensures Solid(r) == Solid(out) + Solid(s)
    decreases |s|
  {
    if |s| == 0 then out
    else
      var e := Emit(out, f, s[0]);
      assert Solid(s) == Solid([s[0]]) + Solid(s[1..]) by {
        assert s == [s[0]] + s[1..];
        SolidAppend([s[0]], s[1..]);
      }
      Collapse(s[1..], e.0, e.1)
  }

  /** The trim of trailing spaces and newlines. */
  function TrimEnd(s: CString): (r: CString)
    ensures r <= s
    ensures |r| > 0 ==> Last(r) != ' ' && Last(r) != '\n'
    ensures Solid(r) == Solid(s)
    decreases |s|
  {
    if |s| > 0 && (Last(s) == ' ' || Last(s) == '\n') then
      var r := TrimEnd(s[..|s| - 1]);
      assert Solid(s) == Solid(s[..|s| - 1]) by {
        assert s == s[..|s| - 1] + [Last(s)];
        SolidAppend(s[..|s| - 1], [Last(s)]);
      }
      r
    else s
  }

  /** `normalize_whitespace`: one copying pass, then the trailing trim. */
  function Normalize(s: CString): (r: CString)
    ensures forall i | 0 < i < |r| :: !(r[i - 1] == '\n' && r[i] == '\n')
    ensures forall i | 0 < i < |r| :: !(r[i - 1] == ' ' && r[i] == ' ')
    ensures forall i | 0 <= i < |r| && r[i] == ' ' :: i > 0 && r[i - 1] != '\n'
    ensures |r| > 0 ==> r[|r| - 1] != ' ' && r[|r| - 1] != '\n'
    ensures forall i | 0 <= i < |r| && IsSpace(r[i]) :: r[i] == ' ' || r[i] == '\n'
    ensures Solid(r) == Solid(s)
    ensures |r| <= |s|
    ensures Normal(r)
  {
    var c := Collapse(s, [], Start);
    var r := TrimEnd(c);
    assert r == c[..|r|];
    CollapsedPrefix(c, |r|);
    forall i | 0 < i < |r|
      ensures !(r[i - 1] == '\n' && r[i] == '\n') && !(r[i - 1] == ' ' && r[i] == ' ')
    {
      assert CollapsedAt(r, i);
    }
    forall i | 0 <= i < |r| && r[i] == ' '
      ensures i > 0 && r[i - 1] != '\n'
    {
      assert CollapsedAt(r, i);
    }
    forall i | 0 <= i < |r| && IsSpace(r[i])
      ensures r[i] == ' ' || r[i] == '\n'
    {
      assert CollapsedAt(r, i);
    }
    r
  }

  /** On a collapsed string the copying loop writes every byte back unchanged. */
  lemma {:induction false} CollapseOfCollapsed(s: CString, out: CString)
    requires Collapsed(out + s)
    ensures Collapsed(out)
    ensures Collapse(s, out, FlagsAfter(out)) == out + s
    decreases |s|
  {
    assert (out + s)[..|out|] == out;
    CollapsedPrefix(out + s, |out|);
    if |s| > 0 {
      var c := s[0];
      var out' := out + [c];
      assert out' + s[1..] == out + s;
      assert (out + s)[|out|] == c;
      if |out| > 0 {
        assert (out + s)[|out| - 1] == Last(out);
      }
      assert CollapsedAt(out + s, |out|);
      assert Emit(out, FlagsAfter(out), c).0 == out';
      CollapseOfCollapsed(s[1..], out');
    }
  }

  /** A normalised string is left unchanged by normalising it. */
  lemma NormalIsFixed(s: CString)
    requires Normal(s)
    ensures Normalize(s) == s
  {
    assert [] + s == s;
    CollapseOfCollapsed(s, []);
  }

  /** Normalising twice is normalising once. */
  lemma NormalizeIdempotent(s: CString)
    ensures Normalize(Normalize(s)) == Normalize(s)
  {
    NormalIsFixed(Normalize(s));
  }

  /** What a run of white space between two words becomes: a space, unless
      the run holds a newline; then a newline when the run starts with one,
      and otherwise a space followed by a newline. */
  function RunSeparator(ws: CString): (r: CString)
    requires |ws| > 0
  {
    if '\n' !in ws then " " else if ws[0] == '\n' then "\n" else " \n"
  }

  predicate AllSpace(ws: CString) {
    forall i | 0 <= i < |ws| :: IsSpace(ws[i])
  }

  /** The copying loop reads its bytes left to right. */
  lemma {:induction false} CollapseAppend(s: CString, t: CString, out: CString)
    requires Collapsed(out)
    ensures var c := Collapse(s, out, FlagsAfter(out));
            Collapse(s + t, out, FlagsAfter(out)) == Collapse(t, c, FlagsAfter(c))
    decreases |s|
  {
    if |s| == 0 {
      assert s + t == t;
    } else {
      assert (s + t)[0] == s[0];
      assert (s + t)[1..] == s[1..] + t;
      var e := Emit(out, FlagsAfter(out), s[0]);
      CollapseAppend(s[1..], t, e.0);
    }
  }

  /** What the loop writes after `out` depends on `out` only through its last byte. */
  lemma {:induction false} CollapseFrame(t: CString, out: CString, x: CString)
    requires |x| > 0 && Collapsed(out + x) && Collapsed(x)
    ensures Collapse(t, out + x, FlagsAfter(out + x)) == out + Collapse(t, x, FlagsAfter(x))
    decreases |t|
  {
    assert Last(out + x) == Last(x);
    if |t| > 0 {
      var e := Emit(out + x, FlagsAfter(out + x), t[0]);
      var e' := Emit(x, FlagsAfter(x), t[0]);
      assert e.0 == out + e'.0;
      assert e.0 == out + e'.0[..];
      CollapseFrame(t[1..], out, e'.0);
    }
  }

  /** A run of white space after a newline writes nothing. */
  lemma {:induction false} RunAfterNewline(ws: CString, out: CString)
    requires Collapsed(out) && |out| > 0 && Last(out) == '\n' && AllSpace(ws)
    ensures Collapse(ws, out, FlagsAfter(out)) == out
    decreases |ws|
  {
    if |ws| > 0 {
      RunAfterNewline(ws[1..], out);
    }
  }

  /** A run of white space at the start or after a space writes a newline
      exactly when the run holds one. */
  lemma {:induction false} RunAfterSpace(ws: CString, out: CString)
    requires Collapsed(out) && (|out| == 0 || Last(out) == ' ') && AllSpace(ws)
    ensures Collapse(ws, out, FlagsAfter(out)) == out + (if '\n' in ws then "\n" else [])
    decreases |ws|
  {
    if |ws| > 0 {
      if ws[0] == '\n' {
        CollapsedSnoc(out, '\n');
        RunAfterNewline(ws[1..], out + ['\n']);
      } else {
        RunAfterSpace(ws[1..], out);
        assert '\n' in ws <==> '\n' in ws[1..] by {
          assert ws == [ws[0]] + ws[1..];
        }
      }
    }
  }

  /** A run of white space after a word writes its separator. */
  lemma RunAfterWord(ws: CString, out: CString)
    requires Collapsed(out) && |out| > 0 && !IsSpace(Last(out)) && |ws| > 0 && AllSpace(ws)
    ensures Collapse(ws, out, FlagsAfter(out)) == out + RunSeparator(ws)
  {
    NewlineInCons(ws);
    if ws[0] == '\n' {
      NewlineRunAfterWord(ws, out);
    } else {
      SpaceRunAfterWord(ws, out);
      assert out + [' '] + "\n" == out + " \n";
    }
  }

  lemma NewlineInCons(ws: CString)
    requires |ws| > 0
    ensures '\n' in ws <==> ws[0] == '\n' || '\n' in ws[1..]
  {
    assert ws == [ws[0]] + ws[1..];
  }

  /** The loop's first step: the byte is emitted, then the rest is read. */
  lemma CollapseStep(s: CString, out: CString)
    requires Collapsed(out) && |s| > 0
    ensures var e := Emit(out, FlagsAfter(out), s[0]).0;
            Collapse(s, out, FlagsAfter(out)) == Collapse(s[1..], e, FlagsAfter(e))
  {
  }

  lemma NewlineRunAfterWord(ws: CString, out: CString)
    requires Collapsed(out) && |out| > 0 && !IsSpace(Last(out)) && |ws| > 0 && AllSpace(ws)
    requires ws[0] == '\n'
    ensures Collapse(ws, out, FlagsAfter(out)) == out + "\n"
  {
    CollapseStep(ws, out);
    CollapsedSnoc(out, '\n');
    RunAfterNewline(ws[1..], out + ['\n']);
  }

  lemma SpaceRunAfterWord(ws: CString, out: CString)
    requires Collapsed(out) && |out| > 0 && !IsSpace(Last(out)) && |ws| > 0 && AllSpace(ws)
    requires ws[0] != '\n'
    ensures Collapse(ws, out, FlagsAfter(out)) == out + [' '] + (if '\n' in ws[1..] then "\n" else [])
  {
    CollapseStep(ws, out);
    CollapsedSnoc(out, ' ');
    RunAfterSpace(ws[1..], out + [' ']);
  }

  /** Text that starts with a word is collapsed the same after any prefix. */
  lemma CollapseAfter(b: CString, out: CString)
    requires Collapsed(out) && |b| > 0 && !IsSpace(b[0])
    ensures Collapse(b, out, FlagsAfter(out)) == out + Collapse(b, [], Start)
  {
    CollapsedSnoc(out, b[0]);
    CollapsedSnoc([], b[0]);
    assert [] + [b[0]] == [b[0]];
    CollapseFrame(b[1..], out, [b[0]]);
  }

  /** The copying pass keeps a last byte that is not white space. */
  lemma CollapseEndsInWord(a: CString)
    requires |a| > 0 && !IsSpace(Last(a))
    ensures var c := Collapse(a, [], Start);
            |c| > 0 && Last(c) == Last(a)
  {
    var a' := a[..|a| - 1];
    assert a == a' + [Last(a)];
    CollapseAppend(a', [Last(a)], []);
  }

  /** The trim stops at a byte that is not a space or a newline. */
  lemma {:induction false} TrimEndFrame(out: CString, y: CString)
    requires |y| > 0 && y[0] != ' ' && y[0] != '\n'
    ensures TrimEnd(out + y) == out + TrimEnd(y)
    decreases |y|
  {
    var s := out + y;
    assert Last(s) == Last(y);
    if Last(y) == ' ' || Last(y) == '\n' {
      var y' := y[..|y| - 1];
      assert |y| > 1 && y'[0] == y[0];
      assert s[..|s| - 1] == out + y';
      assert TrimEnd(s) == TrimEnd(out + y');
      assert TrimEnd(y) == TrimEnd(y');
      TrimEndFrame(out, y');
    } else {
      assert TrimEnd(s) == s && TrimEnd(y) == y;
    }
  }

  /** `Normalize` is the copying pass followed by the trim. */
  lemma NormalizeUnfold(s: CString)
    ensures Normalize(s) == TrimEnd(Collapse(s, [], Start))
  {
  }

  /** The copying pass of text starting with a word starts with that word. */
  lemma CollapseStartsWord(b: CString)
    requires |b| > 0 && !IsSpace(b[0])
    ensures var cb := Collapse(b, [], Start);
            |cb| > 0 && cb[0] == b[0]
  {
    CollapsedSnoc([], b[0]);
    assert [] + [b[0]] == [b[0]];
  }

  /** The copying pass writes the separator of a run between two words. */
  lemma CollapseSeparator(a: CString, ws: CString, b: CString)
    requires |a| > 0 && !IsSpace(Last(a)) && |b| > 0 && !IsSpace(b[0])
    requires |ws| > 0 && AllSpace(ws)
    ensures Collapse(a + ws + b, [], Start)
            == Collapse(a, [], Start) + RunSeparator(ws) + Collapse(b, [], Start)
  {
    CollapseEndsInWord(a);
    assert a + ws + b == a + (ws + b);
    CollapseAppend(a, ws + b, []);
    RunThenWord(ws, b, Collapse(a, [], Start));
  }

  /** After a word, a run of white space and then a word are written as the
      run's separator followed by the word's own copy. */
  lemma RunThenWord(ws: CString, b: CString, out: CString)
    requires Collapsed(out) && |out| > 0 && !IsSpace(Last(out))
    requires |b| > 0 && !IsSpace(b[0]) && |ws| > 0 && AllSpace(ws)
    ensures Collapse(ws + b, out, FlagsAfter(out)) == out + RunSeparator(ws) + Collapse(b, [], Start)
  {
    CollapseAppend(ws, b, out);
    RunAfterWord(ws, out);
    CollapseAfter(b, out + RunSeparator(ws));
  }

  /** `SeparatorKept`, for the copying pass and the trim. */
  lemma PassKeepsSeparator(a: CString, ws: CString, b: CString)
    requires |a| > 0 && !IsSpace(Last(a)) && |b| > 0 && !IsSpace(b[0])
    requires |ws| > 0 && AllSpace(ws)
    ensures TrimEnd(Collapse(a + ws + b, [], Start))
            == TrimEnd(Collapse(a, [], Start)) + RunSeparator(ws) + TrimEnd(Collapse(b, [], Start))
  {
    var ca := Collapse(a, [], Start);
    var cb := Collapse(b, [], Start);
    CollapseSeparator(a, ws, b);
    CollapseEndsInWord(a);
    CollapseStartsWord(b);
    TrimEndFrame(ca + RunSeparator(ws), cb);
    assert TrimEnd(ca) == ca;
  }

  /** A run of white space between two words becomes exactly its separator:
      the words stay apart, a space before a newline survives, and nothing
      else of the run is kept. */
  lemma SeparatorKept(a: CString, ws: CString, b: CString)
    requires |a| > 0 && !IsSpace(Last(a)) && |b| > 0 && !IsSpace(b[0])
    requires |ws| > 0 && AllSpace(ws)
    ensures Normalize(a + ws + b) == Normalize(a) + RunSeparator(ws) + Normalize(b)
  {
    PassKeepsSeparator(a, ws, b);
    NormalizeUnfold(a + ws + b);
    NormalizeUnfold(a);
    NormalizeUnfold(b);
  }

  /** `LeadingRunKept`, for the copying pass and the trim. */
  lemma PassKeepsLeadingRun(ws: CString, b: CString)
    requires |b| > 0 && !IsSpace(b[0]) && AllSpace(ws)
    ensures TrimEnd(Collapse(ws + b, [], Start))
            == (if '\n' in ws then "\n" else []) + TrimEnd(Collapse(b, [], Start))
  {
    var cw: CString := if '\n' in ws then "\n" else [];
    CollapseLeadingRun(ws, b);
    CollapseStartsWord(b);
    TrimEndFrame(cw, Collapse(b, [], Start));
  }

  /** The copying pass writes a newline for a leading run exactly when it holds one. */
  lemma CollapseLeadingRun(ws: CString, b: CString)
    requires |b| > 0 && !IsSpace(b[0]) && AllSpace(ws)
    ensures Collapse(ws + b, [], Start)
            == (if '\n' in ws then "\n" else []) + Collapse(b, [], Start)
  {
    CollapseAppend(ws, b, []);
    RunAfterSpace(ws, []);
    var cw: CString := [] + (if '\n' in ws then "\n" else []);
    CollapseAfter(b, cw);
  }

  /** A run of white space at the start leaves a newline exactly when it holds one. */
  lemma LeadingRunKept(ws: CString, b: CString)
    requires |b| > 0 && !IsSpace(b[0]) && AllSpace(ws)
    ensures Normalize(ws + b) == (if '\n' in ws then "\n" else []) + Normalize(b)
  {
    PassKeepsLeadingRun(ws, b);
    NormalizeUnfold(ws + b);
    NormalizeUnfold(b);
  }
}
