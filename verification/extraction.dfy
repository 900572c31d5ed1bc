/**
 Chapter text extraction from chapter_controller.c: the recursive walk that
 collects the text of a parsed HTML subtree (`extract_text_recursive`), and the
 rule in `display_chapter_content` that walks every `div` whose `id` is
 exactly "chapterText", normalises what each walk produced, joins the pieces
 with "\n\n" and rejects a result that is missing or too short.

 The HTML parser is replaced by an abstract tree; the parser's collection of
 all `div` elements is taken to be in document order (pre-order).
 */
module Extraction {
  import opened Optional
  import opened CStrings
  import Whitespace

  /** The element kinds the extraction tells apart. */
  datatype Tag = Div | P | Br | OtherTag

  /** A node of the parsed document: a text node, or an element carrying the
      value of its first `id` attribute (None when it has none) and its
      children in document order. */
  datatype Node =
    | Text(text: CString)
    | Element(tag: Tag, id: Option<CString>, children: seq<Node>)

  /** The byte 0xA0, which the walk treats as white space. */
  const NoBreakByte: CChar := '\U{A0}'

  /** A byte the walk turns into (at most) a space. */
  predicate Blank(c: CChar) {
    IsSpace(c) || c == NoBreakByte
  }

  /** The bytes the walk copies: neither white space nor 0xA0, in order. */
  function Kept(s: CString): CString {
    if |s| == 0 then [] else (if Blank(s[0]) then [] else [s[0]]) + Kept(s[1..])
  }

  lemma {:induction false} KeptAppend(a: CString, b: CString)
    ensures Kept(a + b) == Kept(a) + Kept(b)
    decreases |a|
  {
    if |a| > 0 {
      assert (a + b)[1..] == a[1..] + b;
      KeptAppend(a[1..], b);
    } else {
      assert a + b == b;
    }
  }

  /** The contents of all text nodes under `n`, concatenated in document order. */
  function TextOf(n: Node): CString
    decreases n, 1
  {
    match n
    case Text(t) => t
    case Element(_, _, kids) => TextOfAll(kids)
  }

  function TextOfAll(ns: seq<Node>): CString
    decreases ns, 0
  {
    if |ns| == 0 then [] else TextOf(ns[0]) + TextOfAll(ns[1..])
  }

  /** A space is written only when the buffer is non-empty and does not already
      end in a space or a newline. */
  predicate SpaceWanted(buf: CString) {
    |buf| > 0 && Last(buf) != ' ' && Last(buf) != '\n'
  }

  /** A newline is written only when the buffer is non-empty and does not already end in one. */
  predicate NewlineWanted(buf: CString) {
    |buf| > 0 && Last(buf) != '\n'
  }

  lemma AppendKeepsCollapsed(buf: CString, c: CChar)
    requires !Whitespace.OtherSpace(c)
    requires c == ' ' ==> SpaceWanted(buf)
    requires c == '\n' ==> NewlineWanted(buf)
    ensures Whitespace.Collapsed(buf) ==> Whitespace.Collapsed(buf + [c])
  {
    if Whitespace.Collapsed(buf) {
      Whitespace.CollapsedSnoc(buf, c);
    }
  }

  /** The text-node branch of the walk: every run of blank bytes becomes at most
      one space, every other byte is copied. */
  function WalkText(t: CString, buf: CString): (r: CString)
    ensures buf <= r
    decreases |t|
  {
    if |t| == 0 then buf
    else if Blank(t[0]) then
      if SpaceWanted(buf) then WalkText(t[1..], buf + [' ']) else WalkText(t[1..], buf)
    else WalkText(t[1..], buf + [t[0]])
  }

  /** The text branch keeps a collapsed buffer collapsed and copies every
      non-blank byte, in order. */
  lemma WalkTextKeeps(t: CString, buf: CString)
    ensures var r := WalkText(t, buf);
            && (Whitespace.Collapsed(buf) ==> Whitespace.Collapsed(r))
            && Kept(r) == Kept(buf) + Kept(t)
  {
    if Whitespace.Collapsed(buf) {
      WalkTextCollapsed(t, buf);
    }
    WalkTextKept(t, buf);
  }

  lemma {:induction false} WalkTextCollapsed(t: CString, buf: CString)
    requires Whitespace.Collapsed(buf)
    ensures Whitespace.Collapsed(WalkText(t, buf))
    decreases |t|
  {
    if |t| > 0 {
      if Blank(t[0]) {
        if SpaceWanted(buf) {
          AppendKeepsCollapsed(buf, ' ');
          WalkTextCollapsed(t[1..], buf + [' ']);
        } else {
          WalkTextCollapsed(t[1..], buf);
        }
      } else {
        AppendKeepsCollapsed(buf, t[0]);
        WalkTextCollapsed(t[1..], buf + [t[0]]);
      }
    }
  }

  lemma {:induction false} WalkTextKept(t: CString, buf: CString)
    ensures Kept(WalkText(t, buf)) == Kept(buf) + Kept(t)
    decreases |t|
  {
    if |t| > 0 {
      KeptCons(t);
      if Blank(t[0]) {
        if SpaceWanted(buf) {
          KeptSnoc(buf, ' ');
          WalkTextKept(t[1..], buf + [' ']);
        } else {
          WalkTextKept(t[1..], buf);
        }
      } else {
        KeptSnoc(buf, t[0]);
        WalkTextKept(t[1..], buf + [t[0]]);
        assert Kept(buf) + [t[0]] + Kept(t[1..]) == Kept(buf) + ([t[0]] + Kept(t[1..]));
      }
    }
  }

  lemma KeptCons(t: CString)
    requires |t| > 0
    ensures Kept(t) == (if Blank(t[0]) then [] else [t[0]]) + Kept(t[1..])
  {
  }

  lemma KeptSnoc(buf: CString, c: CChar)
    ensures Kept(buf + [c]) == Kept(buf) + (if Blank(c) then [] else [c])
  {
    KeptAppend(buf, [c]);
    assert [c][1..] == [];
  }

  /** The text branch reads its bytes left to right: walking `t1 + t2` is walking `t1`, then `t2`. */
  lemma {:induction false} WalkTextConcat(t1: CString, t2: CString, buf: CString)
    ensures WalkText(t1 + t2, buf) == WalkText(t2, WalkText(t1, buf))
    decreases |t1|
  {
    if |t1| > 0 {
      assert (t1 + t2)[0] == t1[0];
      assert (t1 + t2)[1..] == t1[1..] + t2;
      if Blank(t1[0]) {
        var b := if SpaceWanted(buf) then buf + [' '] else buf;
        WalkTextConcat(t1[1..], t2, b);
      } else {
        WalkTextConcat(t1[1..], t2, buf + [t1[0]]);
      }
    } else {
      assert t1 + t2 == t2;
    }
  }

  /** A run of blank bytes adds at most one space, and adds it exactly when the
      buffer is non-empty and does not end in a space or a newline. */
  lemma {:induction false} WalkTextBlankRun(t: CString, buf: CString)
    requires forall i | 0 <= i < |t| :: Blank(t[i])
    ensures WalkText(t, buf) == buf + (if |t| > 0 && SpaceWanted(buf) then [' '] else [])
    decreases |t|
  {
    if |t| > 0 {
      if SpaceWanted(buf) {
        WalkTextBlankRun(t[1..], buf + [' ']);
        assert !SpaceWanted(buf + [' ']);
      } else {
        WalkTextBlankRun(t[1..], buf);
      }
    }
  }

  /** A run without blank bytes is copied unchanged. */
  lemma {:induction false} WalkTextWord(t: CString, buf: CString)
    requires forall i | 0 <= i < |t| :: !Blank(t[i])
    ensures WalkText(t, buf) == buf + t
    decreases |t|
  {
    if |t| > 0 {
      WalkTextWord(t[1..], buf + [t[0]]);
      assert buf + [t[0]] + t[1..] == buf + t;
    }
  }

  /** `extract_text_recursive`: a text node's bytes are appended; a P or BR
      element first appends a newline; then the children are walked in order. */
  function Walk(n: Node, buf: CString): (r: CString)
    ensures buf <= r
    decreases n, 1
  {
    match n
    case Text(t) => WalkText(t, buf)
    case Element(tag, _, kids) =>
      if (tag == P || tag == Br) && NewlineWanted(buf) then WalkChildren(kids, buf + ['\n'])
      else WalkChildren(kids, buf)
  }

  function WalkChildren(ns: seq<Node>, buf: CString): (r: CString)
    ensures buf <= r
    decreases ns, 0
  {
    if |ns| == 0 then buf else WalkChildren(ns[1..], Walk(ns[0], buf))
  }

  /** Walking a subtree keeps a collapsed buffer collapsed and copies the
      subtree's non-blank text bytes in document order. */
  lemma {:induction false} WalkKeeps(n: Node, buf: CString)
    ensures var r := Walk(n, buf);
            && (Whitespace.Collapsed(buf) ==> Whitespace.Collapsed(r))
            && Kept(r) == Kept(buf) + Kept(TextOf(n))
    decreases n, 1
  {
    match n
    case Text(t) => WalkTextKeeps(t, buf);
    case Element(tag, _, kids) =>
      if (tag == P || tag == Br) && NewlineWanted(buf) {
        KeptAppend(buf, ['\n']);
        AppendKeepsCollapsed(buf, '\n');
        WalkChildrenKeeps(kids, buf + ['\n']);
      } else {
        WalkChildrenKeeps(kids, buf);
      }
  }

  /** Children are walked left to right with the same guarantees. */
  lemma {:induction false} WalkChildrenKeeps(ns: seq<Node>, buf: CString)
    ensures var r := WalkChildren(ns, buf);
            && (Whitespace.Collapsed(buf) ==> Whitespace.Collapsed(r))
            && Kept(r) == Kept(buf) + Kept(TextOfAll(ns))
    decreases ns, 0
  {
    if |ns| > 0 {
      KeptAppend(TextOf(ns[0]), TextOfAll(ns[1..]));
      WalkKeeps(ns[0], buf);
      WalkChildrenKeeps(ns[1..], Walk(ns[0], buf));
    }
  }

  /** From an empty buffer or one ending in a newline, the first byte the
      walk adds (if any) is neither white space nor 0xA0. */
  lemma {:induction false} WalkTextFromLineStart(t: CString, buf: CString)
    requires |buf| == 0 || Last(buf) == '\n'
    ensures var r := WalkText(t, buf);
            |r| > |buf| ==> !Blank(r[|buf|])
    decreases |t|
  {
    if |t| > 0 && Blank(t[0]) {
      WalkTextFromLineStart(t[1..], buf);
    }
  }

  lemma {:induction false} WalkFromLineStart(n: Node, buf: CString)
    requires |buf| == 0 || Last(buf) == '\n'
    ensures var r := Walk(n, buf);
            |r| > |buf| ==> !Blank(r[|buf|])
    decreases n, 1
  {
    match n
    case Text(t) => WalkTextFromLineStart(t, buf);
    case Element(_, _, kids) => WalkChildrenFromLineStart(kids, buf);
  }

  lemma {:induction false} WalkChildrenFromLineStart(ns: seq<Node>, buf: CString)
    requires |buf| == 0 || Last(buf) == '\n'
    ensures var r := WalkChildren(ns, buf);
            |r| > |buf| ==> !Blank(r[|buf|])
    decreases ns, 0
  {
    if |ns| > 0 {
      var w := Walk(ns[0], buf);
      WalkFromLineStart(ns[0], buf);
      if |w| == |buf| {
        assert w == buf;
        WalkChildrenFromLineStart(ns[1..], buf);
      } else {
        assert WalkChildren(ns, buf) == WalkChildren(ns[1..], w);
        assert WalkChildren(ns[1..], w)[|buf|] == w[|buf|];
      }
    }
  }

  /** A P or BR element starts with a newline exactly when the buffer is
      non-empty and does not already end in one. */
  lemma BreakWritesNewline(tag: Tag, id: Option<CString>, kids: seq<Node>, buf: CString)
    requires tag == P || tag == Br
    ensures var r := Walk(Element(tag, id, kids), buf);
            (|r| > |buf| && r[|buf|] == '\n') <==> NewlineWanted(buf)
  {
    if !NewlineWanted(buf) {
      WalkChildrenFromLineStart(kids, buf);
    }
  }

  /** What the walk's rules can see of the buffer: nothing or a newline at its
      end, a space at its end, or some other byte at its end. */
  datatype Mode = LineStart | AfterSpace | InWord

  function ModeOf(buf: CString): Mode {
    if |buf| == 0 || Last(buf) == '\n' then LineStart
    else if Last(buf) == ' ' then AfterSpace
    else InWord
  }

  /** Two buffers in the same mode, extended by the same bytes, stay in the same mode. */
  lemma ModeOfExtension(a: CString, b: CString, ra: CString, rb: CString)
    requires ModeOf(a) == ModeOf(b)
    requires a <= ra && b <= rb && ra[|a|..] == rb[|b|..]
    ensures ModeOf(ra) == ModeOf(rb)
  {
    if |ra| > |a| {
      assert Last(ra) == ra[|a|..][|ra| - |a| - 1];
      assert Last(rb) == rb[|b|..][|rb| - |b| - 1];
    } else {
      assert ra == a && rb == b;
    }
  }

  /** What a suffix of the walk adds, given what the prefix added. */
  lemma SuffixAfter(a: CString, x: CString, r: CString)
    requires a + x <= r
    ensures r[|a|..] == x + r[|a| + |x|..]
  {
  }

  lemma WantedByMode(a: CString, b: CString)
    requires ModeOf(a) == ModeOf(b)
    ensures SpaceWanted(a) == SpaceWanted(b)
    ensures NewlineWanted(a) == NewlineWanted(b)
  {
  }

  lemma {:induction false} WalkTextByMode(t: CString, a: CString, b: CString)
    requires ModeOf(a) == ModeOf(b)
    ensures WalkText(t, a)[|a|..] == WalkText(t, b)[|b|..]
    decreases |t|
  {
    if |t| > 0 {
      WantedByMode(a, b);
      if Blank(t[0]) && !SpaceWanted(a) {
        WalkTextByMode(t[1..], a, b);
      } else {
        var x: CString := if Blank(t[0]) then [' '] else [t[0]];
        ModeOfExtension(a, b, a + x, b + x);
        WalkTextByMode(t[1..], a + x, b + x);
        SuffixAfter(a, x, WalkText(t[1..], a + x));
        SuffixAfter(b, x, WalkText(t[1..], b + x));
      }
    }
  }

  /** The walk's output depends on the buffer it starts from only through the
      buffer's mode: two buffers in the same mode receive the same bytes. */
  lemma {:induction false} WalkByMode(n: Node, a: CString, b: CString)
    requires ModeOf(a) == ModeOf(b)
    ensures Walk(n, a)[|a|..] == Walk(n, b)[|b|..]
    decreases n, 1
  {
    match n
    case Text(t) => WalkTextByMode(t, a, b);
    case Element(tag, _, kids) =>
      WantedByMode(a, b);
      if (tag == P || tag == Br) && NewlineWanted(a) {
        var x: CString := ['\n'];
        ModeOfExtension(a, b, a + x, b + x);
        WalkChildrenByMode(kids, a + x, b + x);
        SuffixAfter(a, x, WalkChildren(kids, a + x));
        SuffixAfter(b, x, WalkChildren(kids, b + x));
      } else {
        WalkChildrenByMode(kids, a, b);
      }
  }

  lemma {:induction false} WalkChildrenByMode(ns: seq<Node>, a: CString, b: CString)
    requires ModeOf(a) == ModeOf(b)
    ensures WalkChildren(ns, a)[|a|..] == WalkChildren(ns, b)[|b|..]
    decreases ns, 0
  {
    if |ns| > 0 {
      var wa := Walk(ns[0], a);
      var wb := Walk(ns[0], b);
      WalkByMode(ns[0], a, b);
      var x := wa[|a|..];
      assert wa == a + x;
      assert wb == b + x;
      ModeOfExtension(a, b, wa, wb);
      WalkChildrenByMode(ns[1..], wa, wb);
      SuffixAfter(a, x, WalkChildren(ns[1..], wa));
      SuffixAfter(b, x, WalkChildren(ns[1..], wb));
    }
  }

  /** Walking from a buffer that ends in a newline appends exactly what walking
      from an empty buffer produces. */
  lemma WalkAfterNewline(n: Node, buf: CString)
    requires |buf| > 0 && Last(buf) == '\n'
    ensures Walk(n, buf) == buf + Walk(n, [])
  {
    WalkByMode(n, buf, []);
  }

  /** The `id` value the extraction looks for. */
  const ChapterTextId: CString := "chapterText"

  /** Extractions shorter than this are rejected. */
  const MinLength := 10

  /** The separator appended after every matched div. */
  const ParagraphBreak: CString := "\n\n"

  /** A div whose `id` attribute is exactly "chapterText" (`strcmp` equality). */
  predicate IsChapterDiv(n: Node) {
    n.Element? && n.tag == Div && n.id == Some(ChapterTextId)
  }

  /** Every div element of the tree rooted at `n`, in document order; a div
      nested in another comes after it. */
  function Divs(n: Node): seq<Node>
    decreases n, 1
  {
    match n
    case Text(_) => []
    case Element(tag, _, kids) => (if tag == Div then [n] else []) + DivsIn(kids)
  }

  function DivsIn(ns: seq<Node>): seq<Node>
    decreases ns, 0
  {
    if |ns| == 0 then [] else Divs(ns[0]) + DivsIn(ns[1..])
  }

  /** The loop over the collected divs: each matching div is walked onto the
      buffer, the bytes the walk added are normalised in place and "\n\n" is
      appended. `found` records whether any div matched. */
  function Gather(divs: seq<Node>, buf: CString, found: bool): (CString, bool)
    decreases |divs|
  {
    if |divs| == 0 then (buf, found)
    else if IsChapterDiv(divs[0]) then Gather(divs[1..], Absorb(divs[0], buf), true)
    else Gather(divs[1..], buf, found)
  }

  /** One matching div: walk it onto `buf`, normalise the bytes the walk added,
      append "\n\n". */
  function Absorb(d: Node, buf: CString): CString {
    var walked := Walk(d, buf);
    buf + Whitespace.Normalize(walked[|buf|..]) + ParagraphBreak
  }

  /** The text one matching div contributes on its own: its walk from an empty
      buffer, normalised, followed by "\n\n". */
  function Piece(d: Node): CString {
    Whitespace.Normalize(Walk(d, [])) + ParagraphBreak
  }

  /** The pieces of the matching divs among `divs`, concatenated in order. */
  function Pieces(divs: seq<Node>): CString {
    if |divs| == 0 then []
    else (if IsChapterDiv(divs[0]) then Piece(divs[0]) else []) + Pieces(divs[1..])
  }

  predicate AnyChapterDiv(divs: seq<Node>) {
    exists i | 0 <= i < |divs| :: IsChapterDiv(divs[i])
  }

  lemma AnyChapterDivCons(divs: seq<Node>)
    requires |divs| > 0
    ensures AnyChapterDiv(divs) == (IsChapterDiv(divs[0]) || AnyChapterDiv(divs[1..]))
  {
    if AnyChapterDiv(divs[1..]) {
      var i :| 0 <= i < |divs[1..]| && IsChapterDiv(divs[1..][i]);
      assert IsChapterDiv(divs[i + 1]);
    }
    if AnyChapterDiv(divs) && !IsChapterDiv(divs[0]) {
      var i :| 0 <= i < |divs| && IsChapterDiv(divs[i]);
      assert i > 0 && IsChapterDiv(divs[1..][i - 1]);
    }
  }

  /** One matching div, gathered onto a buffer that is empty or ends in a newline, adds its piece. */
  lemma GatherOne(d: Node, buf: CString)
    requires |buf| == 0 || Last(buf) == '\n'
    ensures Absorb(d, buf) == buf + Piece(d)
  {
    if |buf| == 0 {
      assert Walk(d, buf)[|buf|..] == Walk(d, []);
    } else {
      WalkAfterNewline(d, buf);
      assert Walk(d, buf)[|buf|..] == Walk(d, []);
    }
  }

  /** A buffer that a piece was appended to ends in a newline. */
  lemma PieceEndsInNewline(buf: CString, d: Node)
    ensures |buf + Piece(d)| > 0 && Last(buf + Piece(d)) == '\n'
  {
  }

  /** The step of `GatherIsPieces` at a matching div. */
  lemma GatherMatch(divs: seq<Node>, buf: CString, found: bool)
    requires |divs| > 0 && IsChapterDiv(divs[0])
    requires |buf| == 0 || Last(buf) == '\n'
    requires Gather(divs[1..], buf + Piece(divs[0]), true) == (buf + Piece(divs[0]) + Pieces(divs[1..]), true)
    ensures Gather(divs, buf, found) == (buf + Pieces(divs), found || AnyChapterDiv(divs))
  {
    GatherOne(divs[0], buf);
    assert AnyChapterDiv(divs) by {
      assert IsChapterDiv(divs[0]);
    }
    PiecesCons(divs, buf);
  }

  lemma PiecesCons(divs: seq<Node>, buf: CString)
    requires |divs| > 0 && IsChapterDiv(divs[0])
    ensures buf + Piece(divs[0]) + Pieces(divs[1..]) == buf + Pieces(divs)
  {
    assert Pieces(divs) == Piece(divs[0]) + Pieces(divs[1..]);
  }

  /** The step of `GatherIsPieces` at a div that does not match. */
  lemma GatherSkip(divs: seq<Node>, buf: CString, found: bool)
    requires |divs| > 0 && !IsChapterDiv(divs[0])
    requires Gather(divs[1..], buf, found) == (buf + Pieces(divs[1..]), found || AnyChapterDiv(divs[1..]))
    ensures Gather(divs, buf, found) == (buf + Pieces(divs), found || AnyChapterDiv(divs))
  {
    AnyChapterDivCons(divs);
    assert Pieces(divs) == Pieces(divs[1..]);
  }

  /** Every piece starts from a buffer that is empty or ends in "\n\n", so each
      matching div contributes exactly its own piece, in collection order. */
  lemma {:induction false} GatherIsPieces(divs: seq<Node>, buf: CString, found: bool)
    requires |buf| == 0 || Last(buf) == '\n'
    ensures Gather(divs, buf, found) == (buf + Pieces(divs), found || AnyChapterDiv(divs))
    decreases |divs|
  {
    if |divs| == 0 {
      assert buf + Pieces(divs) == buf;
    } else if IsChapterDiv(divs[0]) {
      PieceEndsInNewline(buf, divs[0]);
      GatherIsPieces(divs[1..], buf + Piece(divs[0]), true);
      GatherMatch(divs, buf, found);
    } else {
      GatherIsPieces(divs[1..], buf, found);
      GatherSkip(divs, buf, found);
    }
  }

  /** The extraction and accept rule of `display_chapter_content`: the text
      gathered from the chapter divs of the document, or None (the "No chapter
      content found" exit) when no div matched or the text is shorter than
      MinLength. */
  function Extract(doc: Node): (r: Option<CString>)
    ensures r.Some? <==> AnyChapterDiv(Divs(doc)) && |Pieces(Divs(doc))| >= MinLength
    ensures r.Some? ==> r.value == Pieces(Divs(doc))
  {
    var g := Gather(Divs(doc), [], false);
    GatherIsPieces(Divs(doc), [], false);
    assert [] + Pieces(Divs(doc)) == Pieces(Divs(doc));
    if !g.1 || |g.0| < MinLength then None else Some(g.0)
  }

  /** Joined pieces end in the newline of their last "\n\n". */
  lemma {:induction false} PiecesEndInNewline(divs: seq<Node>)
    ensures |Pieces(divs)| > 0 ==> Last(Pieces(divs)) == '\n'
  {
    if |divs| > 0 {
      PiecesEndInNewline(divs[1..]);
      var head: CString := if IsChapterDiv(divs[0]) then Piece(divs[0]) else [];
      assert Pieces(divs) == head + Pieces(divs[1..]);
    }
  }

  /** An accepted chapter text ends in a newline. */
  lemma ExtractEndsInNewline(doc: Node)
    requires Extract(doc).Some?
    ensures |Extract(doc).value| > 0 && Last(Extract(doc).value) == '\n'
  {
    PiecesEndInNewline(Divs(doc));
  }

  /** A paragraph element holding one text node with no blank byte, walked onto
      a buffer that wants a newline, adds the newline and the text. */
  lemma WalkWordParagraph(w: CString, buf: CString)
    requires forall i | 0 <= i < |w| :: !Blank(w[i])
    requires NewlineWanted(buf)
    ensures Walk(Element(P, None, [Text(w)]), buf) == buf + ['\n'] + w
  {
    WalkTextWord(w, buf + ['\n']);
    var kids := [Text(w)];
    assert kids[1..] == [];
    assert WalkChildren(kids, buf + ['\n']) == WalkChildren(kids[1..], Walk(kids[0], buf + ['\n']));
  }

  /** The same paragraph at the start of the buffer adds just the text. */
  lemma WalkFirstParagraph(w1: CString, gap: CString, w2: CString)
    requires |w1| > 0 && |gap| > 0
    requires forall i | 0 <= i < |w1| :: !Blank(w1[i])
    requires forall i | 0 <= i < |gap| :: Blank(gap[i])
    requires forall i | 0 <= i < |w2| :: !Blank(w2[i])
    ensures Walk(Element(P, None, [Text(w1 + gap + w2)]), []) == w1 + [' '] + w2
  {
    WalkTextConcat(w1 + gap, w2, []);
    WalkTextConcat(w1, gap, []);
    WalkTextWord(w1, []);
    assert [] + w1 == w1;
    WalkTextBlankRun(gap, w1);
    WalkTextWord(w2, w1 + [' ']);
    var kids := [Text(w1 + gap + w2)];
    assert kids[1..] == [];
    assert WalkChildren(kids, []) == WalkChildren(kids[1..], Walk(kids[0], []));
  }

  /** A string without blank bytes, spaces or newlines is normal. */
  lemma JoinedIsNormal(w1: CString, w2: CString, w3: CString)
    requires |w1| > 0 && |w3| > 0
    requires forall i | 0 <= i < |w1| :: !Blank(w1[i])
    requires forall i | 0 <= i < |w2| :: !Blank(w2[i])
    requires forall i | 0 <= i < |w3| :: !Blank(w3[i])
    ensures Whitespace.Normal(w1 + [' '] + w2 + ['\n'] + w3)
  {
    var s := w1 + [' '] + w2 + ['\n'] + w3;
    var k := |w1| + 1 + |w2|;
    forall i | 0 <= i < |s|
      ensures Whitespace.CollapsedAt(s, i)
    {
      if i < |w1| {
        assert s[i] == w1[i];
      } else if i == |w1| {
        assert s[i] == ' ' && s[i - 1] == w1[i - 1];
      } else if i < k {
        assert s[i] == w2[i - |w1| - 1];
      } else if i == k {
        assert s[i] == '\n';
        assert s[i - 1] == ' ' || s[i - 1] == w2[|w2| - 1];
      } else {
        assert s[i] == w3[i - k - 1];
      }
    }
    assert Last(s) == Last(w3);
  }

  /** The divs of a div whose children are two paragraphs of text: the div alone. */
  lemma DivsOfFlatDiv(doc: Node, t1: CString, t2: CString)
    requires doc == Element(Div, Some(ChapterTextId), [Element(P, None, [Text(t1)]), Element(P, None, [Text(t2)])])
    ensures Divs(doc) == [doc]
  {
    var p1 := Element(P, None, [Text(t1)]);
    var p2 := Element(P, None, [Text(t2)]);
    assert [Text(t1)][1..] == [] && [Text(t2)][1..] == [];
    assert DivsIn([Text(t1)]) == Divs(Text(t1)) + DivsIn([]);
    assert DivsIn([Text(t2)]) == Divs(Text(t2)) + DivsIn([]);
    assert Divs(p1) == [] && Divs(p2) == [];
    assert [p1, p2][1..] == [p2];
    assert DivsIn([p1, p2]) == Divs(p1) + DivsIn([p2]);
    assert DivsIn([p2]) == Divs(p2) + DivsIn([]);
  }

  /** The walk of that div in the worked example. */
  lemma WalkTwoParagraphs(w1: CString, gap: CString, w2: CString, w3: CString)
    requires |w1| > 0 && |gap| > 0 && |w3| > 0
    requires forall i | 0 <= i < |w1| :: !Blank(w1[i])
    requires forall i | 0 <= i < |gap| :: Blank(gap[i])
    requires forall i | 0 <= i < |w2| :: !Blank(w2[i])
    requires forall i | 0 <= i < |w3| :: !Blank(w3[i])
    ensures Walk(Element(Div, Some(ChapterTextId), [Element(P, None, [Text(w1 + gap + w2)]), Element(P, None, [Text(w3)])]), [])
            == w1 + [' '] + w2 + ['\n'] + w3
  {
    var p1 := Element(P, None, [Text(w1 + gap + w2)]);
    var p2 := Element(P, None, [Text(w3)]);
    var first := w1 + [' '] + w2;
    WalkFirstParagraph(w1, gap, w2);
    assert Last(first) != '\n' by {
      if |w2| > 0 {
        assert Last(first) == Last(w2);
      } else {
        assert Last(first) == ' ';
      }
    }
    WalkWordParagraph(w3, first);
    var kids := [p1, p2];
    assert kids[1..] == [p2] && kids[1..][1..] == [];
    assert WalkChildren(kids, []) == WalkChildren([p2], first);
    assert WalkChildren([p2], first) == WalkChildren([], first + ['\n'] + w3);
  }

  /** The worked example of the extraction, in general form: a chapter div with
      `<p>w1 gap w2</p><p>w3</p>` (words without blank bytes, `gap` a run of
      blank bytes) yields "w1 w2\nw3\n\n", or nothing when that is shorter than
      MinLength. With w1 = "Hello", gap = "   ", w2 = "world." and w3 = "Second."
      it is "Hello world.\nSecond.\n\n". */
  lemma TwoParagraphDiv(w1: CString, gap: CString, w2: CString, w3: CString)
    requires |w1| > 0 && |gap| > 0 && |w3| > 0
    requires forall i | 0 <= i < |w1| :: !Blank(w1[i])
    requires forall i | 0 <= i < |gap| :: Blank(gap[i])
    requires forall i | 0 <= i < |w2| :: !Blank(w2[i])
    requires forall i | 0 <= i < |w3| :: !Blank(w3[i])
    ensures var text := w1 + [' '] + w2 + ['\n'] + w3 + ParagraphBreak;
            Extract(Element(Div, Some(ChapterTextId),
                            [Element(P, None, [Text(w1 + gap + w2)]), Element(P, None, [Text(w3)])]))
            == if |text| < MinLength then None else Some(text)
  {
    var doc := Element(Div, Some(ChapterTextId), [Element(P, None, [Text(w1 + gap + w2)]), Element(P, None, [Text(w3)])]);
    var body := w1 + [' '] + w2 + ['\n'] + w3;
    WalkTwoParagraphs(w1, gap, w2, w3);
    JoinedIsNormal(w1, w2, w3);
    Whitespace.NormalIsFixed(body);
    DivsOfFlatDiv(doc, w1 + gap + w2, w3);
    assert IsChapterDiv(Divs(doc)[0]);
    assert AnyChapterDiv(Divs(doc));
    assert Piece(doc) == body + ParagraphBreak;
    assert [doc][1..] == [];
    assert Pieces([doc]) == Piece(doc) + Pieces([]);
    assert Pieces(Divs(doc)) == body + ParagraphBreak;
  }
}
