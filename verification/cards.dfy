/**
 The search-result scanner `extract_novel_info` (webnovel.c): it walks a
 search page by substring searches, one result card at a time, and copies
 the slug, rating, title, yearly views and chapter count of each card.
 */
module Cards {
  import opened Optional
  import opened CStrings

  /** The fields of one result; a field that is not found stays empty, as the
      caller zero-initialised it. */
  datatype Card = Card(slug: CString, rating: CString, title: CString, views: CString, chapters: CString)

  const EmptyCard := Card([], [], [], [], [])

  /** The scanner stops after this many cards (`count < 15`). */
  const MaxCards := 15

  /** After a card the search resumes this many bytes past its root. */
  const CardStride := 1000

  const SlugMark: CString := "/novel/"
  const CardRoot: CString := "mantine-Card-root"
  const RatingClass: CString := "mantine-807m0k"
  /** The UTF-8 bytes of U+2B50 (a star). */
  const Star: CString := ['\U{E2}', '\U{AD}', '\U{90}']
  const TitleClass: CString := "mantine-pdrfb7"
  const ViewsClass: CString := "mantine-w7z63c"
  const ViewsLabel: CString := "Views:"
  const ChaptersClass: CString := "mantine-175mpop"
  const ChaptersLabel: CString := "Chapters:"
  const Amp: CString := "&amp;"

  /** The slug is kept only when it is shorter than this. */
  const MaxSlug := 100
  /** A rating is kept only when it is shorter than this. */
  const MaxRating := 10
  /** A title is kept only when it is longer than `MinTitle` and shorter than `MaxTitle`. */
  const MinTitle := 3
  const MaxTitle := 80
  /** A view or chapter count is kept only when it is shorter than this. */
  const MaxCount := 20

  /** The first index at or after `i` whose byte satisfies `stop`, or the end
      of `s`: the pointer loops `while (*p && !stop(*p)) p++`. */
  function SkipUntil(s: CString, i: nat, stop: CChar -> bool): (j: nat)
    requires i <= |s|
    ensures i <= j <= |s|
    ensures j < |s| ==> stop(s[j])
    ensures forall k | i <= k < j :: !stop(s[k])
    decreases |s| - i
  {
    if i == |s| || stop(s[i]) then i else SkipUntil(s, i + 1, stop)
  }

  predicate RatingByte(c: CChar) {
    c == '.' || IsDigit(c)
  }

  predicate RatingEnd(c: CChar) {
    !RatingByte(c)
  }

  predicate CountEnd(c: CChar) {
    IsSpace(c) || c == '<'
  }

  /** Inputs on which the scanner stays inside the page: every rating class
      is followed by a star, and every card root by `CardStride` more bytes.
      This asks it of every occurrence, also of those the scanner skips, so
      some pages it reads safely are not among them. */
  predicate Scannable(html: CString) {
    && (forall k | 0 <= k <= |html| && MatchAt(html, k, RatingClass) :: Find(html, Star, k).Some?)
    && (forall k | 0 <= k <= |html| && MatchAt(html, k, CardRoot) :: k + CardStride <= |html|)
  }

  /** The slug after the `"/novel/"` found at `m`: the bytes up to the next
      double quote, kept when fewer than `MaxSlug`. */
  function SlugAt(html: CString, m: nat): (r: Option<CString>)
    requires MatchAt(html, m, SlugMark)
    ensures r.Some? ==> |r.value| < MaxSlug && (forall k | 0 <= k < |r.value| :: r.value[k] != '"')
                        && m + |SlugMark| + |r.value| < |html|
                        && html[m + |SlugMark| .. m + |SlugMark| + |r.value|] == r.value
                        && html[m + |SlugMark| + |r.value|] == '"'
    ensures r.None? ==> var q := Find(html, "\"", m + |SlugMark|);
                        q.None? || q.value - (m + |SlugMark|) >= MaxSlug
  {
    var start := m + |SlugMark|;
    var q := Find(html, "\"", start);
    if q.Some? && q.value - start < MaxSlug then
      var s := html[start..q.value];
      forall k | 0 <= k < |s|
        ensures s[k] != '"'
      {
        assert s[k] == html[start + k];
        MatchByte(html, start + k, '"');
      }
      MatchByte(html, q.value, '"');
      Some(s)
    else None
  }

  /** The rating of the card whose root is at `card`: after the rating class
      and the star, the first run of digits and dots, kept when 0 < length <
      `MaxRating`. The pointer is moved two bytes past the start of the
      three-byte star, so its last byte is skipped with the other non-digits. */
  function RatingAt(html: CString, card: nat): (r: Option<CString>)
    requires card <= |html| && Scannable(html)
    ensures r.Some? ==> 0 < |r.value| < MaxRating && IsDigit(r.value[0])
                        && forall k | 0 <= k < |r.value| :: RatingByte(r.value[k])
    ensures Find(html, RatingClass, card).None? ==> r.None?
  {
    var cls := Find(html, RatingClass, card);
    if cls.None? then None
    else
      var star := Find(html, Star, cls.value);
      RatingRun(html, star.value + 2)
  }

  /** The first run of digits and dots at or after `i`, kept when
      0 < length < `MaxRating`. */
  function RatingRun(html: CString, i: nat): (r: Option<CString>)
    requires i <= |html|
    ensures r.Some? ==> 0 < |r.value| < MaxRating && IsDigit(r.value[0])
                        && forall k | 0 <= k < |r.value| :: RatingByte(r.value[k])
  {
    var a := SkipUntil(html, i, IsDigit);
    var b := SkipUntil(html, a, RatingEnd);
    if 0 < b - a < MaxRating then
      assert forall k | a <= k < b :: RatingByte(html[k]);
      Some(html[a..b])
    else None
  }

  /** Each `"&amp;"` becomes one space, scanning left to right; the space is
      not scanned again. */
  function DecodeAmp(s: CString): (r: CString)
    ensures |r| <= |s|
    decreases |s|
  {
    if |s| == 0 then []
    else if MatchAt(s, 0, Amp) then [' '] + DecodeAmp(s[|Amp|..])
    else [s[0]] + DecodeAmp(s[1..])
  }

  /** One step of decoding: the first output byte, then the decoding of the rest. */
  lemma DecodeCons(s: CString)
    requires |s| > 0
    ensures MatchAt(s, 0, Amp) ==> DecodeAmp(s) == [' '] + DecodeAmp(s[|Amp|..])
    ensures !MatchAt(s, 0, Amp) ==> DecodeAmp(s) == [s[0]] + DecodeAmp(s[1..])
  {
  }

  /** `"&amp;"` starts at 0 exactly when the byte `&` is followed by `"amp;"`. */
  lemma AmpSplit(s: CString)
    requires |s| > 0 && s[0] == '&'
    ensures MatchAt(s, 0, Amp) <==> |s| >= |Amp| && s[1..|Amp|] == "amp;"
  {
    if |s| >= |Amp| {
      assert s[..|Amp|] == [s[0]] + s[1..|Amp|];
    }
  }

  /** A match inside `[c] + rest` past the first byte is a match in `rest`. */
  lemma MatchShift(c: CChar, rest: CString, i: nat)
    requires 0 < i
    ensures MatchAt([c] + rest, i, Amp) ==> MatchAt(rest, i - 1, Amp)
  {
    if MatchAt([c] + rest, i, Amp) {
      assert ([c] + rest)[i..i + |Amp|] == rest[i - 1..i - 1 + |Amp|];
    }
  }

  /** An `&` that does not start `"&amp;"` is not followed by `"amp;"` after
      decoding either. */
  lemma NoAmpAfterAmp(s: CString, rest: CString)
    requires |s| > 0 && s[0] == '&' && !MatchAt(s, 0, Amp)
    requires rest == DecodeAmp(s[1..])
    ensures !MatchAt(['&'] + rest, 0, Amp)
  {
    var r: CString := ['&'] + rest;
    AmpSplit(r);
    AmpSplit(s);
    DecodedPrefix(s[1..], "amp;");
    if |r| >= |Amp| {
      assert r[1..|Amp|] == rest[..4];
    }
    if |s| >= |Amp| {
      assert s[1..][..4] == s[1..|Amp|];
    }
  }

  /** The decoded text never starts with `"&amp;"`. */
  lemma NoAmpAtStart(s: CString)
    requires |s| > 0
    ensures !MatchAt(DecodeAmp(s), 0, Amp)
  {
    DecodeCons(s);
    if !MatchAt(s, 0, Amp) && s[0] == '&' {
      NoAmpAfterAmp(s, DecodeAmp(s[1..]));
    }
  }

  /** `"&amp;"` never survives decoding: the spaces put in its place cannot
      start or complete another one. */
  lemma {:induction false} DecodeLeavesNoAmp(s: CString)
    ensures forall i | 0 <= i <= |DecodeAmp(s)| :: !MatchAt(DecodeAmp(s), i, Amp)
    decreases |s|
  {
    if |s| > 0 {
      DecodeCons(s);
      var r := DecodeAmp(s);
      var tail := if MatchAt(s, 0, Amp) then s[|Amp|..] else s[1..];
      var rest := DecodeAmp(tail);
      DecodeLeavesNoAmp(tail);
      NoAmpAtStart(s);
      forall i | 0 < i <= |r|
        ensures !MatchAt(r, i, Amp)
      {
        MatchShift(r[0], rest, i);
      }
    }
  }

  /** A prefix without spaces or ampersands comes out of decoding only when it
      went in. */
  lemma {:induction false} DecodedPrefix(t: CString, w: CString)
    requires forall k | 0 <= k < |w| :: w[k] != ' ' && w[k] != '&'
    ensures |w| <= |DecodeAmp(t)| && DecodeAmp(t)[..|w|] == w ==> |w| <= |t| && t[..|w|] == w
    decreases |w|
  {
    if |w| > 0 && |w| <= |DecodeAmp(t)| && DecodeAmp(t)[..|w|] == w {
      var r := DecodeAmp(t);
      assert r[0] == w[0];
      assert !MatchAt(t, 0, Amp);
      assert r == [t[0]] + DecodeAmp(t[1..]);
      assert DecodeAmp(t[1..])[..|w| - 1] == w[1..];
      DecodedPrefix(t[1..], w[1..]);
      assert t[..|w|] == [t[0]] + t[1..][..|w| - 1];
    }
  }

  /** Bytes before the first `&` are copied as they are. */
  lemma {:induction false} DecodeAfterPlain(a: CString, b: CString)
    requires forall k | 0 <= k < |a| :: a[k] != '&'
    ensures DecodeAmp(a + b) == a + DecodeAmp(b)
    decreases |a|
  {
    if |a| > 0 {
      PlainStep(a, b);
      DecodeAfterPlain(a[1..], b);
      var r := a[1..] + DecodeAmp(b);
      assert DecodeAmp(a + b) == [a[0]] + r;
      assert [a[0]] + r == a + DecodeAmp(b);
    } else {
      assert a + b == b;
    }
  }

  /** A first byte other than `&` is copied, and decoding goes on after it. */
  lemma PlainStep(a: CString, b: CString)
    requires |a| > 0 && a[0] != '&'
    ensures DecodeAmp(a + b) == [a[0]] + DecodeAmp(a[1..] + b)
  {
    var s := a + b;
    assert s[0] == a[0];
    NoMatchWithoutAmp(s);
    assert s[1..] == a[1..] + b;
  }

  lemma NoMatchWithoutAmp(s: CString)
    requires |s| > 0 && s[0] != '&'
    ensures !MatchAt(s, 0, Amp) && DecodeAmp(s) == [s[0]] + DecodeAmp(s[1..])
  {
    if |s| >= |Amp| {
      assert s[..|Amp|][0] == s[0];
    }
  }

  /** Each `"&amp;"` becomes exactly one space, and the text around it is
      decoded on its own. */
  lemma DecodeAmpSpace(a: CString, b: CString)
    requires forall k | 0 <= k < |a| :: a[k] != '&'
    ensures DecodeAmp(a + Amp + b) == a + " " + DecodeAmp(b)
  {
    assert a + Amp + b == a + (Amp + b);
    DecodeAfterPlain(a, Amp + b);
    assert (Amp + b)[..|Amp|] == Amp;
    assert (Amp + b)[|Amp|..] == b;
  }

  /** Text without `"&amp;"` is left as it is, so decoding twice is decoding once. */
  lemma {:induction false} DecodeKeepsPlain(s: CString)
    requires forall i | 0 <= i <= |s| :: !MatchAt(s, i, Amp)
    ensures DecodeAmp(s) == s
    decreases |s|
  {
    if |s| > 0 {
      assert !MatchAt(s, 0, Amp);
      forall i | 0 <= i <= |s| - 1
        ensures !MatchAt(s[1..], i, Amp)
      {
        if MatchAt(s[1..], i, Amp) {
          assert s[i + 1..i + 1 + |Amp|] == s[1..][i..i + |Amp|];
          assert MatchAt(s, i + 1, Amp);
        }
      }
      DecodeKeepsPlain(s[1..]);
    }
  }

  lemma DecodeIdempotent(s: CString)
    ensures DecodeAmp(DecodeAmp(s)) == DecodeAmp(s)
  {
    DecodeLeavesNoAmp(s);
    DecodeKeepsPlain(DecodeAmp(s));
  }

  /** Every decoded byte is a space or a byte of the input. */
  lemma {:induction false} DecodedBytes(s: CString)
    ensures forall k | 0 <= k < |DecodeAmp(s)| :: DecodeAmp(s)[k] == ' ' || DecodeAmp(s)[k] in s
    decreases |s|
  {
    if |s| > 0 {
      var tail := if MatchAt(s, 0, Amp) then s[|Amp|..] else s[1..];
      DecodedBytes(tail);
      var r := DecodeAmp(s);
      forall k | 0 <= k < |r|
        ensures r[k] == ' ' || r[k] in s
      {
        if k > 0 {
          assert r[k] == DecodeAmp(tail)[k - 1];
          assert forall c | c in tail :: c in s;
        }
      }
    }
  }

  /** Where the title of the card lies: from just after the first `>` after
      the title class up to the next `<`, when `MinTitle` < length < `MaxTitle`. */
  function TitleSpan(html: CString, card: nat): (r: Option<(nat, nat)>)
    requires card <= |html|
    ensures r.Some? ==> && 1 <= r.value.0 <= r.value.1 < |html|
                        && MinTitle < r.value.1 - r.value.0 < MaxTitle
                        && html[r.value.1] == '<' && html[r.value.0 - 1] == '>'
                        && (forall k | r.value.0 <= k < r.value.1 :: html[k] != '<')
    ensures Find(html, TitleClass, card).None? ==> r.None?
  {
    var cls := Find(html, TitleClass, card);
    if cls.None? then None
    else
      var gt := Find(html, ">", cls.value);
      if gt.None? then None
      else
        var t := gt.value + 1;
        var lt := Find(html, "<", t);
        if lt.Some? && MinTitle < lt.value - t < MaxTitle then
          var e := lt.value;
          MatchByte(html, e, '<');
          MatchByte(html, gt.value, '>');
          forall k | t <= k < e
            ensures html[k] != '<'
          {
            MatchByte(html, k, '<');
          }
          Some((t, e))
        else None
  }

  /** The title of the card: the bytes of its span, with each `"&amp;"`
      turned into a space. */
  function TitleAt(html: CString, card: nat): (r: Option<CString>)
    requires card <= |html|
    ensures r.Some? <==> TitleSpan(html, card).Some?
    ensures r.Some? ==> var sp := TitleSpan(html, card).value;
                        r.value == DecodeAmp(html[sp.0..sp.1])
  {
    var sp := TitleSpan(html, card);
    if sp.None? then None else Some(DecodeAmp(html[sp.value.0..sp.value.1]))
  }

  /** A view or chapter count: after the class and then the label, the first
      digit starts the count and the next white space or `<` ends it; kept when
      0 < length < `MaxCount`. */
  function CountAt(html: CString, card: nat, marker: CString, caption: CString): (r: Option<CString>)
    requires card <= |html| && |marker| > 0 && |caption| > 0
    ensures r.Some? ==> 0 < |r.value| < MaxCount && IsDigit(r.value[0])
                        && forall k | 0 <= k < |r.value| :: !CountEnd(r.value[k])
    ensures Find(html, marker, card).None? ==> r.None?
  {
    var cls := Find(html, marker, card);
    if cls.None? then None
    else
      var lab := Find(html, caption, cls.value);
      if lab.None? then None
      else
        var a := SkipUntil(html, lab.value + |caption|, IsDigit);
        var b := SkipUntil(html, a, CountEnd);
        if 0 < b - a < MaxCount then
          assert forall k | a <= k < b :: !CountEnd(html[k]);
          Some(html[a..b])
        else None
  }

  function OrEmpty(f: Option<CString>): CString {
    if f.Some? then f.value else []
  }

  /** The fields of the card whose root is at `card`, with the slug found at `m`. */
  function CardAt(html: CString, m: nat, card: nat): (c: Card)
    requires MatchAt(html, m, SlugMark) && card <= |html| && Scannable(html)
  {
    Card(OrEmpty(SlugAt(html, m)), OrEmpty(RatingAt(html, card)), OrEmpty(TitleAt(html, card)),
         OrEmpty(CountAt(html, card, ViewsClass, ViewsLabel)),
         OrEmpty(CountAt(html, card, ChaptersClass, ChaptersLabel)))
  }

  /** Every field of a card is within its bounds. */
  predicate WellBounded(c: Card) {
    && |c.slug| < MaxSlug
    && |c.rating| < MaxRating
    && |c.title| < MaxTitle
    && |c.views| < MaxCount
    && |c.chapters| < MaxCount
  }

  /** One turn of the loop of `extract_novel_info` from `pos`: the card it
      reads and where the next search starts, or None when `"/novel/"` or the
      card root is missing (the `break`s). */
  function Turn(html: CString, pos: nat): (r: Option<(nat, Card)>)
    requires pos <= |html| && Scannable(html)
    ensures r.None? <==> Find(html, SlugMark, pos).None? || Find(html, CardRoot, pos).None?
    ensures r.Some? ==> r.value.0 <= |html|
  {
    var m := Find(html, SlugMark, pos);
    var card := Find(html, CardRoot, pos);
    if m.None? || card.None? then None
    else Some((card.value + CardStride, CardAt(html, m.value, card.value)))
  }

  /** Where the next search starts after the turn from `pos`, when that turn
      finds both markers. */
  function NextPos(html: CString, pos: nat): (r: Option<nat>)
    requires pos <= |html| && Scannable(html)
    ensures r.Some? ==> r.value <= |html|
    ensures r.None? <==> Find(html, SlugMark, pos).None? || Find(html, CardRoot, pos).None?
  {
    var m := Find(html, SlugMark, pos);
    var card := Find(html, CardRoot, pos);
    if m.None? || card.None? then None else Some(card.value + CardStride)
  }

  /** Where turn `k` of the loop from `pos` starts, when every turn before it
      found a card. */
  function PosAfter(html: CString, pos: nat, k: nat): (r: Option<nat>)
    requires pos <= |html| && Scannable(html)
    ensures r.Some? ==> r.value <= |html|
    decreases k
  {
    if k == 0 then Some(pos)
    else match NextPos(html, pos)
      case None => None
      case Some(n) => PosAfter(html, n, k - 1)
  }

  /** The turn from `pos` stores a slug: it finds `"/novel/"` and a closing
      quote close enough behind it. The slug is written before the turn looks
      for the card root. */
  predicate StoresSlug(html: CString, pos: nat)
    requires pos <= |html|
  {
    var m := Find(html, SlugMark, pos);
    m.Some? && SlugAt(html, m.value).Some?
  }

  /** The cards of at most `n` turns of the loop from `pos`: the card of each
      turn in order, up to the first turn that finds none. */
  function Run(html: CString, pos: nat, n: nat): (r: seq<Card>)
    requires pos <= |html| && Scannable(html)
    ensures |r| <= n
    decreases n
  {
    if n == 0 then []
    else
      var t := Turn(html, pos);
      if t.None? then [] else [t.value.1] + Run(html, t.value.0, n - 1)
  }

  /** The loop of `extract_novel_info` from `pos`, with `cards` found so far:
      a turn that finds a card appends it, and the loop stops at `MaxCards`
      cards or at a turn that finds none. */
  function ScanFrom(html: CString, pos: nat, cards: seq<Card>): (r: seq<Card>)
    requires pos <= |html| && |cards| <= MaxCards && Scannable(html)
    ensures cards <= r && |r| <= MaxCards
    ensures Find(html, SlugMark, pos).None? || Find(html, CardRoot, pos).None? ==> r == cards
    ensures Turn(html, pos).Some? && |cards| < MaxCards ==>
              |r| > |cards| && r[|cards|] == Turn(html, pos).value.1
    decreases MaxCards - |cards|
  {
    if |cards| >= MaxCards then cards
    else
      var t := Turn(html, pos);
      if t.None? then cards
      else
        var r := ScanFrom(html, t.value.0, cards + [t.value.1]);
        assert r[|cards|] == (cards + [t.value.1])[|cards|];
        r
  }

  /** The loop with its accumulator is the run of its turns: the cards found
      so far, then the card of each further turn in order, up to `MaxCards`
      cards or the first turn that finds none. */
  lemma {:induction false} ScanFromIsRun(html: CString, pos: nat, cards: seq<Card>)
    requires pos <= |html| && |cards| <= MaxCards && Scannable(html)
    ensures ScanFrom(html, pos, cards) == cards + Run(html, pos, MaxCards - |cards|)
    decreases MaxCards - |cards|
  {
    if |cards| >= MaxCards {
      assert cards + [] == cards;
    } else {
      var t := Turn(html, pos);
      if t.None? {
        assert cards + [] == cards;
      } else {
        ScanFromIsRun(html, t.value.0, cards + [t.value.1]);
        RunStep(html, pos, MaxCards - |cards|, t.value.0, t.value.1);
        AppendCard(cards, t.value.1, Run(html, t.value.0, MaxCards - |cards| - 1));
      }
    }
  }

  /** A run that starts with a turn finding a card is that card, then the run
      from where the turn left off. */
  lemma RunStep(html: CString, pos: nat, n: nat, next: nat, c: Card)
    requires pos <= |html| && Scannable(html) && n > 0
    requires Turn(html, pos) == Some((next, c))
    ensures next <= |html| && Run(html, pos, n) == [c] + Run(html, next, n - 1)
  {
  }

  lemma AppendCard(cards: seq<Card>, c: Card, rest: seq<Card>)
    ensures cards + [c] + rest == cards + ([c] + rest)
  {
  }

  /** `extract_novel_info`: the cards of the turns of the loop from the start
      of the page, in order, until a turn finds none or `MaxCards` are read. */
  function Scan(html: CString): (r: seq<Card>)
    requires Scannable(html)
    ensures |r| <= MaxCards
    ensures r == Run(html, 0, MaxCards)
    ensures Find(html, SlugMark, 0).None? || Find(html, CardRoot, 0).None? ==> r == []
  {
    ScanFromIsRun(html, 0, []);
    assert [] + Run(html, 0, MaxCards) == Run(html, 0, MaxCards);
    ScanFrom(html, 0, [])
  }

  /** The bytes each stored field may hold: no double quote in the slug;
      digits and dots, starting with a digit, in the rating; no `<` and no
      `"&amp;"` in the title; digits first and no white space or `<` in the
      counts. */
  predicate WellFormedCard(c: Card) {
    && WellBounded(c)
    && (forall k | 0 <= k < |c.slug| :: c.slug[k] != '"')
    && (|c.rating| > 0 ==> IsDigit(c.rating[0]))
    && (forall k | 0 <= k < |c.rating| :: RatingByte(c.rating[k]))
    && (forall k | 0 <= k < |c.title| :: c.title[k] != '<')
    && (forall i | 0 <= i <= |c.title| :: !MatchAt(c.title, i, Amp))
    && (|c.views| > 0 ==> IsDigit(c.views[0]))
    && (forall k | 0 <= k < |c.views| :: !CountEnd(c.views[k]))
    && (|c.chapters| > 0 ==> IsDigit(c.chapters[0]))
    && (forall k | 0 <= k < |c.chapters| :: !CountEnd(c.chapters[k]))
  }

  /** A stored title is short, holds no `<` and no `"&amp;"`. */
  lemma TitleWellFormed(html: CString, card: nat)
    requires card <= |html|
    ensures var t := TitleAt(html, card);
            t.Some? ==> && |t.value| < MaxTitle
                        && (forall k | 0 <= k < |t.value| :: t.value[k] != '<')
                        && (forall i | 0 <= i <= |t.value| :: !MatchAt(t.value, i, Amp))
  {
    var t := TitleAt(html, card);
    if t.Some? {
      var sp := TitleSpan(html, card).value;
      var raw := html[sp.0..sp.1];
      DecodeLeavesNoAmp(raw);
      DecodedBytes(raw);
      assert forall k | 0 <= k < |raw| :: raw[k] != '<';
    }
  }

  lemma CardAtWellFormed(html: CString, m: nat, card: nat)
    requires MatchAt(html, m, SlugMark) && card <= |html| && Scannable(html)
    ensures WellFormedCard(CardAt(html, m, card))
  {
    TitleWellFormed(html, card);
  }

  /** The card a turn reads is well formed. */
  lemma TurnWellFormed(html: CString, pos: nat)
    requires pos <= |html| && Scannable(html)
    ensures var t := Turn(html, pos);
            t.Some? ==> WellFormedCard(t.value.1)
  {
    var m := Find(html, SlugMark, pos);
    var card := Find(html, CardRoot, pos);
    if m.Some? && card.Some? {
      CardAtWellFormed(html, m.value, card.value);
    }
  }

  /** Every card the scanner returns is well formed. */
  lemma {:induction false} ScanFromWellFormed(html: CString, pos: nat, cards: seq<Card>)
    requires pos <= |html| && |cards| <= MaxCards && Scannable(html)
    requires forall c | c in cards :: WellFormedCard(c)
    ensures forall c | c in ScanFrom(html, pos, cards) :: WellFormedCard(c)
    decreases MaxCards - |cards|
  {
    var t := Turn(html, pos);
    if |cards| < MaxCards && t.Some? {
      TurnWellFormed(html, pos);
      ScanFromWellFormed(html, t.value.0, cards + [t.value.1]);
    }
  }

  lemma ScanWellFormed(html: CString)
    requires Scannable(html)
    ensures forall c | c in Scan(html) :: WellFormedCard(c)
  {
    ScanFromWellFormed(html, 0, []);
  }

  /** `SkipUntil` stops at the first byte that satisfies `stop`. */
  lemma {:induction false} SkipUntilAt(s: CString, i: nat, j: nat, stop: CChar -> bool)
    requires i <= j <= |s|
    requires forall k | i <= k < j :: !stop(s[k])
    requires j == |s| || stop(s[j])
    ensures SkipUntil(s, i, stop) == j
    decreases j - i
  {
    if i < j {
      SkipUntilAt(s, i + 1, j, stop);
    }
  }

  /** A slug written as `/novel/<slug>"` is read back. */
  lemma SlugRoundTrip(html: CString, m: nat, e: nat)
    requires MatchAt(html, m, SlugMark) && m + |SlugMark| <= e < |html| && html[e] == '"'
    requires e - (m + |SlugMark|) < MaxSlug
    requires forall k | m + |SlugMark| <= k < e :: html[k] != '"'
    ensures SlugAt(html, m) == Some(html[m + |SlugMark|..e])
  {
    MatchByte(html, e, '"');
    FindFirst(html, "\"", m + |SlugMark|, e);
  }

  /** A count written right after its class and caption, behind bytes that are
      not digits and followed by the end of the page, white space or `<`, is
      read back, provided the class does not contain the caption's first byte. */
  lemma CountRoundTrip(html: CString, p: nat, marker: CString, caption: CString, v: nat, e: nat)
    requires |marker| > 0 && |caption| > 0
    requires forall k | 0 <= k < |marker| :: marker[k] != caption[0]
    requires MatchAt(html, p, marker) && MatchAt(html, p + |marker|, caption)
    requires p + |marker| + |caption| <= v < e <= |html| && e - v < MaxCount
    requires forall k | p + |marker| + |caption| <= k < v :: !IsDigit(html[k])
    requires IsDigit(html[v]) && forall k | v <= k < e :: !CountEnd(html[k])
    requires e == |html| || CountEnd(html[e])
    ensures CountAt(html, p, marker, caption) == Some(html[v..e])
  {
    FindFirst(html, marker, p, p);
    forall k | p <= k < p + |marker|
      ensures html[k] != caption[0]
    {
      assert html[k] == html[p..p + |marker|][k - p];
    }
    FindFirst(html, caption, p, p + |marker|);
    SkipUntilAt(html, p + |marker| + |caption|, v, IsDigit);
    SkipUntilAt(html, v, e, CountEnd);
  }

  lemma ViewsRoundTrip(html: CString, p: nat, v: nat, e: nat)
    requires MatchAt(html, p, ViewsClass) && MatchAt(html, p + |ViewsClass|, ViewsLabel)
    requires p + |ViewsClass| + |ViewsLabel| <= v < e <= |html| && e - v < MaxCount
    requires forall k | p + |ViewsClass| + |ViewsLabel| <= k < v :: !IsDigit(html[k])
    requires IsDigit(html[v]) && forall k | v <= k < e :: !CountEnd(html[k])
    requires e == |html| || CountEnd(html[e])
    ensures CountAt(html, p, ViewsClass, ViewsLabel) == Some(html[v..e])
  {
    CountRoundTrip(html, p, ViewsClass, ViewsLabel, v, e);
  }

  lemma ChaptersRoundTrip(html: CString, p: nat, v: nat, e: nat)
    requires MatchAt(html, p, ChaptersClass) && MatchAt(html, p + |ChaptersClass|, ChaptersLabel)
    requires p + |ChaptersClass| + |ChaptersLabel| <= v < e <= |html| && e - v < MaxCount
    requires forall k | p + |ChaptersClass| + |ChaptersLabel| <= k < v :: !IsDigit(html[k])
    requires IsDigit(html[v]) && forall k | v <= k < e :: !CountEnd(html[k])
    requires e == |html| || CountEnd(html[e])
    ensures CountAt(html, p, ChaptersClass, ChaptersLabel) == Some(html[v..e])
  {
    CountRoundTrip(html, p, ChaptersClass, ChaptersLabel, v, e);
  }

  /** The title read once the three searches have landed. */
  lemma TitleFrom(html: CString, card: nat, c: nat, g: nat, l: nat)
    requires card <= |html|
    requires Find(html, TitleClass, card) == Some(c) && Find(html, ">", c) == Some(g)
    requires g + 1 <= |html| && Find(html, "<", g + 1) == Some(l)
    requires MinTitle < l - (g + 1) < MaxTitle
    ensures TitleAt(html, card) == Some(DecodeAmp(html[g + 1..l]))
  {
    assert TitleSpan(html, card) == Some((g + 1, l));
  }

  /** A title written as `<title class ...>title<` is read back, decoded. */
  lemma TitleRoundTrip(html: CString, p: nat, gt: nat, e: nat)
    requires MatchAt(html, p, TitleClass) && p + |TitleClass| <= gt < e < |html|
    requires html[gt] == '>' && forall k | p + |TitleClass| <= k < gt :: html[k] != '>'
    requires html[e] == '<' && forall k | gt < k < e :: html[k] != '<'
    requires MinTitle < e - (gt + 1) < MaxTitle
    ensures TitleAt(html, p) == Some(DecodeAmp(html[gt + 1..e]))
  {
    FindFirst(html, TitleClass, p, p);
    forall k | p <= k < p + |TitleClass|
      ensures html[k] != '>'
    {
      assert html[k] == html[p..p + |TitleClass|][k - p];
    }
    MatchByte(html, gt, '>');
    FindFirst(html, ">", p, gt);
    MatchByte(html, e, '<');
    FindFirst(html, "<", gt + 1, e);
    TitleFrom(html, p, p, gt, e);
  }

  /** A rating written right after its class and the star, behind bytes that
      are not digits, is read back. */
  lemma RatingRoundTrip(html: CString, p: nat, v: nat, e: nat)
    requires Scannable(html)
    requires MatchAt(html, p, RatingClass) && MatchAt(html, p + |RatingClass|, Star)
    requires p + |RatingClass| + |Star| <= v < e <= |html| && e - v < MaxRating
    requires forall k | p + |RatingClass| + |Star| <= k < v :: !IsDigit(html[k])
    requires IsDigit(html[v]) && forall k | v <= k < e :: RatingByte(html[k])
    requires e == |html| || !RatingByte(html[e])
    ensures RatingAt(html, p) == Some(html[v..e])
  {
    var s := p + |RatingClass|;
    FindFirst(html, RatingClass, p, p);
    MatchAvoids(html, p, RatingClass, Star[0]);
    FindFirst(html, Star, p, s);
    assert html[s + 2] == html[s..s + |Star|][2];
    SkipUntilAt(html, s + 2, v, IsDigit);
    SkipUntilAt(html, v, e, RatingEnd);
    RatingFrom(html, p, p, s);
    RatingRunAt(html, s + 2, v, e);
  }

  /** The rating read once the two searches have landed. */
  lemma RatingFrom(html: CString, card: nat, c: nat, st: nat)
    requires card <= |html| && Scannable(html)
    requires Find(html, RatingClass, card) == Some(c) && Find(html, Star, c) == Some(st)
    requires st + 2 <= |html|
    ensures RatingAt(html, card) == RatingRun(html, st + 2)
  {
  }

  /** The run read once the two skips have landed. */
  lemma RatingRunAt(html: CString, i: nat, v: nat, e: nat)
    requires i <= |html|
    requires SkipUntil(html, i, IsDigit) == v && SkipUntil(html, v, RatingEnd) == e
    requires 0 < e - v < MaxRating
    ensures RatingRun(html, i) == Some(html[v..e])
  {
  }

  /** The bytes of a match avoid every byte its needle avoids. */
  lemma MatchAvoids(s: CString, p: nat, needle: CString, c: CChar)
    requires MatchAt(s, p, needle) && forall k | 0 <= k < |needle| :: needle[k] != c
    ensures forall k | p <= k < p + |needle| :: s[k] != c
  {
    forall k | p <= k < p + |needle|
      ensures s[k] != c
    {
      assert s[k] == s[p..p + |needle|][k - p];
    }
  }
}
