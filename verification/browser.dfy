/**
 The chapter list, `show_chapter_browser` and `display_chapter_list`
 (chapter_controller.c): a highlight moved over `total` chapters and a window
 of `ListRows` rows starting at `offset` that follows it.
 */
module Browser {
  import opened Optional
  import opened CStrings
  import opened Terminal

  /** `CHAPTERS_VISIBLE` (chapter_controller.h). */
  const ListRows := 15

  /** Bytes a chapter page must exceed before the reader opens it. */
  const MinPageLength := 1000

  /** `getnstr(search_buf, 15)` keeps at most this many typed bytes. */
  const SearchLength := 15

  /** The first row of the window, and the highlighted row. */
  datatype ListState = ListState(offset: int, highlight: int)

  /** One input of the browser. The two keys that do I/O carry its result:
      `Search` is `/` followed by the typed line, `Open` is Enter followed by the
      fetched page (`None` when the fetch failed). A bare `/` or Enter is read as
      an empty line or a failed fetch. */
  datatype Input = Press(key: Key) | Search(entry: CString) | Open(page: Option<CString>)

  /** What one input does: `q`/`Q` leaves (`-1`); otherwise the new state, and
      the number of the chapter handed to the reader, if any. */
  datatype Reply = Leave | Next(state: ListState, reading: Option<int>)

  function Normalized(input: Input): Input {
    if input == Press(Typed('/')) then Search([])
    else if input == Press(Enter) then Open(None)
    else input
  }

  /** The chapter a typed line selects: `atoi` of the line, when it is a
      chapter number. */
  function Target(entry: CString, total: int): (r: Option<int>)
    ensures r.Some? ==> 1 <= r.value <= total && r.value == Atoi(Prefix(entry, SearchLength))
    ensures r.None? ==> !(1 <= Atoi(Prefix(entry, SearchLength)) <= total)
  {
    var t := Atoi(Prefix(entry, SearchLength));
    if t > 0 && t <= total then Some(t) else None
  }

  /** The key handling of `show_chapter_browser` for `total` chapters. */
  function BrowserStep(s: ListState, total: int, input: Input): (r: Reply)
    ensures r == Leave <==> input == Press(Typed('q')) || input == Press(Typed('Q'))
    ensures r.Next? && r.reading.Some? ==>
              r.reading.value == s.highlight + 1 && r.state == s
              && Normalized(input).Open? && Normalized(input).page.Some?
              && |Normalized(input).page.value| > MinPageLength
    ensures r.Next? && Normalized(input).Press? && Normalized(input).key == Up ==>
              r.state.offset <= r.state.highlight
    ensures r.Next? && Normalized(input).Press? && Normalized(input).key in {PageUp, PageDown} ==>
              r.state.highlight == r.state.offset
    ensures r.Next? && Normalized(input).Press? && Normalized(input).key == PageUp ==>
              r.state.offset >= 0
    ensures r.Next? && Normalized(input).Press? && Normalized(input).key == PageDown ==>
              r.state.offset <= total - ListRows || r.state.offset == s.offset + ListRows
  {
    match Normalized(input)
    case Press(key) =>
      if key == Typed('q') || key == Typed('Q') then Leave
      else if key == Up then
        var h := if s.highlight > 0 then s.highlight - 1 else s.highlight;
        Next(ListState(if h < s.offset then h else s.offset, h), None)
      else if key == Down then
        var h := if s.highlight < total - 1 then s.highlight + 1 else s.highlight;
        Next(ListState(if h >= s.offset + ListRows then s.offset + 1 else s.offset, h), None)
      else if key == PageUp then
        var o := s.offset - ListRows;
        var o' := if o < 0 then 0 else o;
        Next(ListState(o', o'), None)
      else if key == PageDown then
        var o := s.offset + ListRows;
        var o' := if o > total - ListRows then total - ListRows else o;
        Next(ListState(o', o'), None)
      else Next(s, None)
    case Search(entry) =>
      var target := Target(entry, total);
      if target.Some? then
        var t := target.value;
        Next(ListState(if t - 5 < 0 then 0 else t - 5, t - 1), None)
      else Next(s, None)
    case Open(page) =>
      if page.Some? && |page.value| > MinPageLength then Next(s, Some(s.highlight + 1))
      else Next(s, None)
  }

  /** The window shows the highlight and lies within the list. */
  predicate Settled(s: ListState, total: int) {
    0 <= s.offset <= s.highlight < s.offset + ListRows && s.highlight <= total - 1
  }

  /** Every input keeps a settled state settled, except Page Down on a list
      shorter than the window, which the code moves to a negative offset. */
  lemma BrowserKeepsSettled(s: ListState, total: int, input: Input)
    requires Settled(s, total)
    requires Normalized(input) == Press(PageDown) ==> total >= ListRows
    ensures var r := BrowserStep(s, total, input);
            r.Next? ==> Settled(r.state, total)
  {
  }

  /** Page Down on a list shorter than the window leaves the valid range. */
  lemma PageDownOnShortList(s: ListState, total: int)
    requires Settled(s, total) && total < ListRows
    ensures var r := BrowserStep(s, total, Press(PageDown));
            r.Next? && r.state.highlight < 0
  {
  }

  /** Up and Down alone keep the highlight on a chapter. */
  lemma UpDownKeepHighlight(s: ListState, total: int, key: Key)
    requires total >= 1 && 0 <= s.highlight <= total - 1
    requires key == Up || key == Down
    ensures var r := BrowserStep(s, total, Press(key));
            r.Next? && 0 <= r.state.highlight <= total - 1
  {
  }

  /** Typing the number `n` of a chapter highlights it, with the window
      starting four rows above it (or at the top). */
  lemma SearchSelects(s: ListState, total: int, n: nat)
    requires 1 <= n <= total && n < 0x8000_0000
    ensures BrowserStep(s, total, Search(Decimal(n)))
         == Next(ListState(if n - 5 < 0 then 0 else n - 5, n - 1), None)
  {
    DecimalLength(n, 10);
    AtoiOfDecimal(n);
  }

  /** A line that names no chapter changes nothing. */
  lemma SearchMissLeavesState(s: ListState, total: int, entry: CString)
    requires !(1 <= Atoi(Prefix(entry, SearchLength)) <= total)
    ensures BrowserStep(s, total, Search(entry)) == Next(s, None)
  {
  }

  /** The rows `display_chapter_list` draws: chapters `offset` up to the end of
      the window or of the list, whichever comes first, with the two paging
      hints. */
  datatype ListView = ListView(first: int, end: int, moreAbove: bool, moreBelow: bool)

  /** Chapter `i` (zero-based) is on one of the listed rows. */
  predicate Listed(v: ListView, i: int) {
    v.first <= i < v.end
  }

  /** The chapters listed are those of the window that exist; the upper hint
      shows when the window does not start at the first chapter, the lower one
      when some chapter lies past the window. */
  function View(s: ListState, total: int): (r: ListView)
    ensures r.end - r.first <= ListRows
    ensures forall i :: Listed(r, i) <==> s.offset <= i < s.offset + ListRows && i < total
    ensures r.moreAbove <==> s.offset > 0
    ensures r.moreBelow <==> s.offset + ListRows < total
  {
    var end := if s.offset + ListRows > total then total else s.offset + ListRows;
    ListView(s.offset, end, s.offset > 0, end < total)
  }

  /** In a settled state the highlighted chapter is on screen. */
  lemma HighlightShown(s: ListState, total: int)
    requires Settled(s, total)
    ensures var v := View(s, total);
            0 <= v.first <= s.highlight < v.end <= total
  {
  }
}
