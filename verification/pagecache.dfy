/**
 The search-result page cache of webnovel.c: `MaxPages` slots, looked up by
 page number (`get_cached_page`), reset (`clear_cache`) and filled from a
 freshly scanned page (`fetch_page`), as the search loop of `search_webnovel`
 uses them.
 */
module PageCache {
  import opened Optional
  import opened CStrings
  import opened Cards

  /** `MAX_PAGES`. */
  const MaxPages := 50

  /** A slot holds the rows of this many cards (`char titles[12][256]`, ...). */
  const CardRows := 12

  /** `PageCache` (cache.h): the page it holds, its number of cards, the cards,
      and `is_valid`. */
  datatype Slot = Slot(pageNumber: int, count: int, cards: seq<Card>, valid: bool)

  /** The scanner writes only the rows the caller's arrays have: it reads at
      most `CardRows` cards, and once it has that many the next turn stores no
      slug (the slug row is written before the card root is looked for). */
  predicate FitsRows(html: CString)
    requires Scannable(html)
  {
    && |Scan(html)| <= CardRows
    && (|Scan(html)| == CardRows ==>
          var p := PosAfter(html, 0, CardRows);
          p.Some? ==> !StoresSlug(html, p.value))
  }

  /** The slot holds page `page`. */
  predicate Holds(s: Slot, page: int) {
    s.valid && s.pageNumber == page
  }

  /** `get_cached_page`: the lowest slot that holds the page, if any. */
  function Lookup(cache: seq<Slot>, page: int): (r: Option<nat>)
    ensures r.Some? ==> r.value < |cache| && Holds(cache[r.value], page)
    ensures forall j | 0 <= j < |cache| && (r.None? || j < r.value) :: !Holds(cache[j], page)
  {
    if |cache| == 0 then None
    else if Holds(cache[0], page) then Some(0)
    else match Lookup(cache[1..], page)
      case None => None
      case Some(i) => Some(i + 1)
  }

  /** `clear_cache`: every slot invalid, with page number `-1` and no cards
      counted; the card rows themselves are left as they were. */
  function Clear(cache: seq<Slot>): (r: seq<Slot>)
    ensures |r| == |cache|
    ensures forall i | 0 <= i < |r| ::
              !r[i].valid && r[i].pageNumber == -1 && r[i].count == 0 && r[i].cards == cache[i].cards
  {
    seq(|cache|, i requires 0 <= i < |cache| => cache[i].(valid := false, pageNumber := -1, count := 0))
  }

  /** After a reset no page is found. */
  lemma ClearForgets(cache: seq<Slot>, page: int)
    ensures Lookup(Clear(cache), page).None?
  {
  }

  /** `fetch_page` on the slot `slot` (`None` is a NULL pointer) with the page
      the network returned (`None` when the fetch failed): the number of
      cards, or `-1`; the slot is filled only when at least one card was
      found. */
  function FetchPage(slot: Option<Slot>, page: int, html: Option<CString>): (r: (int, Option<Slot>))
    requires html.Some? ==> Scannable(html.value) && FitsRows(html.value)
    ensures r.0 == -1 || r.0 > 0
    ensures r.0 == -1 ==> r.1 == slot
    ensures r.0 > 0 <==> slot.Some? && html.Some? && |Scan(html.value)| > 0
    ensures r.0 > 0 ==> r.0 == |Scan(html.value)| <= CardRows
    ensures r.0 > 0 ==> r.1 == Some(Slot(page, r.0, Scan(html.value), true))
  {
    if slot.None? then (-1, slot)
    else if html.None? then (-1, slot)
    else
      var cards := Scan(html.value);
      var count := |cards|;
      if count <= 0 then (-1, slot)
      else (count, Some(slot.value.(pageNumber := page, count := count, valid := true, cards := cards)))
  }

  /** One turn of the search loop on page `page`: a cached page is shown as it
      is; otherwise it is fetched into slot `page`. `None` is the "No Search
      Results Found" exit; otherwise the cache afterwards and the slot shown. */
  function Visit(cache: seq<Slot>, page: int, html: Option<CString>): (r: Option<(seq<Slot>, nat)>)
    requires |cache| == MaxPages
    requires Lookup(cache, page).None? ==> 0 <= page < MaxPages
    requires html.Some? ==> Scannable(html.value) && FitsRows(html.value)
    ensures r.Some? ==> |r.value.0| == MaxPages && r.value.1 < MaxPages && Holds(r.value.0[r.value.1], page)
    ensures Lookup(cache, page).Some? ==> r == Some((cache, Lookup(cache, page).value))
    ensures Lookup(cache, page).None? && r.Some? ==>
              html.Some? && r.value.1 == page
              && r.value.0 == cache[page := Slot(page, |Scan(html.value)|, Scan(html.value), true)]
  {
    var hit := Lookup(cache, page);
    if hit.Some? then Some((cache, hit.value))
    else
      var (n, slot) := FetchPage(Some(cache[page]), page, html);
      if n <= 0 then None
      else Some((cache[page := slot.value], page))
  }

  /** A page fetched on a miss is then found by lookup, in the slot it was
      written to, and no other slot changes. */
  lemma VisitThenLookup(cache: seq<Slot>, page: int, html: Option<CString>)
    requires |cache| == MaxPages && Lookup(cache, page).None? && 0 <= page < MaxPages
    requires html.Some? ==> Scannable(html.value) && FitsRows(html.value)
    ensures var r := Visit(cache, page, html);
            r.Some? ==> Lookup(r.value.0, page) == Some(page)
                        && forall j | 0 <= j < MaxPages && j != page :: r.value.0[j] == cache[j]
    ensures Visit(cache, page, html).None? <==> html.None? || |Scan(html.value)| == 0
  {
  }

  /** A search starts from a cleared cache, so its first page is always
      fetched. */
  lemma FirstVisitFetches(cache: seq<Slot>, html: Option<CString>)
    requires |cache| == MaxPages
    requires html.Some? ==> Scannable(html.value) && FitsRows(html.value)
    ensures var r := Visit(Clear(cache), 1, html);
            r.Some? ==> r.value.1 == 1 && r.value.0[1].cards == Scan(html.value)
  {
    ClearForgets(cache, 1);
  }
}
