/**
 The recent-reading list kept by `save_to_history` (history.c): at most
 `MaxHistory` entries, newest first; saving a chapter moves it to the front.
 */
module History {
  import opened Optional
  import opened CStrings

  /** `MAX_HISTORY` (history.h). */
  const MaxHistory := 15

  /** The string fields are 256-byte arrays filled by `strncpy(.., 255)`. */
  const FieldLength := 255

  /** `HistoryEntry` (history.h). */
  datatype Entry = Entry(novelTitle: CString, chapterTitle: CString, chapterSlug: CString,
                         novelSlug: CString, chapterNum: int)

  /** The entry written to slot 0: every string cut to `FieldLength` bytes. */
  function NewEntry(nTitle: CString, cTitle: CString, cSlug: CString, nSlug: CString, cNum: int): (e: Entry)
    ensures e.novelTitle <= nTitle && e.chapterTitle <= cTitle
    ensures e.chapterSlug <= cSlug && e.novelSlug <= nSlug
    ensures |nTitle| <= FieldLength ==> e.novelTitle == nTitle
    ensures |nTitle| > FieldLength ==> |e.novelTitle| == FieldLength
    ensures |cTitle| <= FieldLength ==> e.chapterTitle == cTitle
    ensures |cTitle| > FieldLength ==> |e.chapterTitle| == FieldLength
    ensures |cSlug| <= FieldLength ==> e.chapterSlug == cSlug
    ensures |cSlug| > FieldLength ==> |e.chapterSlug| == FieldLength
    ensures |nSlug| <= FieldLength ==> e.novelSlug == nSlug
    ensures |nSlug| > FieldLength ==> |e.novelSlug| == FieldLength
    ensures e.chapterNum == cNum
  {
    Entry(Prefix(nTitle, FieldLength), Prefix(cTitle, FieldLength), Prefix(cSlug, FieldLength),
          Prefix(nSlug, FieldLength), cNum)
  }

  /** The first entry whose chapter slug equals `key`. */
  function FindSlug(h: seq<Entry>, key: CString): (r: Option<nat>)
    ensures r.Some? ==> r.value < |h| && h[r.value].chapterSlug == key
    ensures forall j | 0 <= j < |h| && (r.None? || j < r.value) :: h[j].chapterSlug != key
  {
    if |h| == 0 then None
    else if h[0].chapterSlug == key then Some(0)
    else match FindSlug(h[1..], key)
      case None => None
      case Some(i) => Some(i + 1)
  }

  function Min(a: int, b: int): int {
    if a < b then a else b
  }

  /** The list after putting `e` in front: the entry at `found` is taken out;
      when nothing was found the oldest entry is dropped from a full list. */
  function MoveToFront(h: seq<Entry>, e: Entry, found: Option<nat>): seq<Entry>
    requires found.Some? ==> found.value < |h|
  {
    if found.Some? then [e] + h[..found.value] + h[found.value + 1..]
    else [e] + h[..Min(|h|, MaxHistory - 1)]
  }

  /** The body of `save_to_history` on the `MaxHistory` slots of the array, of
      which the first `count` are in use: find the first slot whose slug is
      `key`, shift the slots before it (or all, or all but the last) down by
      one, write `e` to slot 0 and count the new entry. */
  method SaveSlots(slots: seq<Entry>, count: nat, e: Entry, key: CString)
    returns (slots': seq<Entry>, count': nat)
    requires |slots| == MaxHistory && count <= MaxHistory
    ensures |slots'| == MaxHistory && count' <= MaxHistory
    ensures slots'[..count'] == MoveToFront(slots[..count], e, FindSlug(slots[..count], key))
  {
    var existing := -1;
    var i := 0;
    while i < count
      invariant 0 <= i <= count
      invariant existing == -1
      invariant forall j | 0 <= j < i :: slots[j].chapterSlug != key
    {
      if slots[i].chapterSlug == key {
        existing := i;
        break;
      }
      i := i + 1;
    }
    var found := FindSlug(slots[..count], key);
    assert existing == -1 ==> found.None?;
    assert existing != -1 ==> found == Some(existing);
    var moveCount := if existing != -1 then existing else if count < MaxHistory then count else MaxHistory - 1;
    slots' := slots;
    var k := moveCount;
    while k > 0
      invariant 0 <= k <= moveCount < MaxHistory
      invariant |slots'| == MaxHistory
      invariant forall j | 0 <= j <= k :: slots'[j] == slots[j]
      invariant forall j | k < j <= moveCount :: slots'[j] == slots[j - 1]
      invariant forall j | moveCount < j < MaxHistory :: slots'[j] == slots[j]
    {
      slots' := slots'[k := slots'[k - 1]];
      k := k - 1;
    }
    slots' := slots'[0 := e];
    count' := if existing == -1 && count < MaxHistory then count + 1 else count;
    ShiftedIsMoveToFront(slots, slots', count, count', moveCount, e, found);
  }

  lemma ShiftedIsMoveToFront(slots: seq<Entry>, slots': seq<Entry>, count: nat, count': nat,
                             moveCount: nat, e: Entry, found: Option<nat>)
    requires |slots| == |slots'| == MaxHistory && count <= MaxHistory
    requires found.Some? ==> found.value < count && moveCount == found.value && count' == count
    requires found.None? ==> moveCount == Min(count, MaxHistory - 1) && count' == Min(count + 1, MaxHistory)
    requires slots'[0] == e
    requires forall j | 0 < j <= moveCount :: slots'[j] == slots[j - 1]
    requires forall j | moveCount < j < MaxHistory :: slots'[j] == slots[j]
    ensures slots'[..count'] == MoveToFront(slots[..count], e, found)
  {
    var r := MoveToFront(slots[..count], e, found);
    assert |r| == count';
    forall j | 0 <= j < count'
      ensures slots'[j] == r[j]
    {
      if j > 0 && found.Some? && j > moveCount {
        assert r[j] == slots[..count][found.value + 1..][j - found.value - 1];
      }
    }
  }

  /** `save_to_history` with the comparison the code makes: the stored slugs,
      cut to `FieldLength` bytes, against the whole `cSlug`. */
  function SaveAsWritten(h: seq<Entry>, nTitle: CString, cTitle: CString, cSlug: CString,
                         nSlug: CString, cNum: int): (r: seq<Entry>)
    requires |h| <= MaxHistory
    ensures |r| <= MaxHistory && |r| > 0
    ensures r[0] == NewEntry(nTitle, cTitle, cSlug, nSlug, cNum)
  {
    MoveToFront(h, NewEntry(nTitle, cTitle, cSlug, nSlug, cNum), FindSlug(h, cSlug))
  }

  /** `save_to_history` matching the slug as it is stored. This is the
      definition the rest of the model uses. */
  function Save(h: seq<Entry>, nTitle: CString, cTitle: CString, cSlug: CString,
                nSlug: CString, cNum: int): (r: seq<Entry>)
    requires |h| <= MaxHistory
    ensures |r| <= MaxHistory && |r| > 0
    ensures r[0] == NewEntry(nTitle, cTitle, cSlug, nSlug, cNum)
  {
    var e := NewEntry(nTitle, cTitle, cSlug, nSlug, cNum);
    MoveToFront(h, e, FindSlug(h, e.chapterSlug))
  }

  /** Both agree on slugs that fit in the field, which is every slug the
      chapter list hands over. */
  lemma ShortSlugsAgree(h: seq<Entry>, nTitle: CString, cTitle: CString, cSlug: CString, nSlug: CString, cNum: int)
    requires |h| <= MaxHistory && |cSlug| <= FieldLength
    ensures SaveAsWritten(h, nTitle, cTitle, cSlug, nSlug, cNum) == Save(h, nTitle, cTitle, cSlug, nSlug, cNum)
  {
  }

  /** Saving a slug that is already listed keeps the length, moves the entries
      before it down one place and leaves the entries after it where they were. */
  lemma SaveExisting(h: seq<Entry>, e: Entry, i: nat)
    requires |h| <= MaxHistory && FindSlug(h, e.chapterSlug) == Some(i)
    ensures var r := MoveToFront(h, e, FindSlug(h, e.chapterSlug));
            |r| == |h| && r[0] == e
            && (forall j | 0 <= j < i :: r[j + 1] == h[j])
            && (forall j | i < j < |h| :: r[j] == h[j])
  {
  }

  /** Saving a new slug adds one entry (dropping the oldest from a full list)
      and moves every kept entry down one place. */
  lemma SaveNew(h: seq<Entry>, e: Entry)
    requires |h| <= MaxHistory && FindSlug(h, e.chapterSlug).None?
    ensures var r := MoveToFront(h, e, None);
            |r| == Min(|h| + 1, MaxHistory) && r[0] == e
            && (forall j | 0 <= j < |r| - 1 :: r[j + 1] == h[j])
  {
  }

  /** No slug is listed twice. */
  predicate DistinctSlugs(h: seq<Entry>) {
    forall i, j | 0 <= i < j < |h| :: h[i].chapterSlug != h[j].chapterSlug
  }

  /** Behind the new entry, `MoveToFront` keeps the old list without the
      entry at `found`, or a prefix of the old list when nothing was found. */
  lemma MoveToFrontKeeps(h: seq<Entry>, e: Entry, found: Option<nat>)
    requires found.Some? ==> found.value < |h|
    ensures var r := MoveToFront(h, e, found);
            |r| > 0
            && (found.Some? ==> r[1..] == h[..found.value] + h[found.value + 1..])
            && (found.None? ==> r[1..] <= h)
  {
    var r := MoveToFront(h, e, found);
    var kept := if found.Some? then h[..found.value] + h[found.value + 1..] else h[..Min(|h|, MaxHistory - 1)];
    assert r == [e] + kept;
    assert r[1..] == kept;
  }

  /** The kept entries are the old list minus at most one entry at one place,
      or a prefix of it: the old order is kept. */
  lemma SaveKeepsOrder(h: seq<Entry>, e: Entry)
    requires |h| <= MaxHistory
    ensures var f := FindSlug(h, e.chapterSlug);
            var r := MoveToFront(h, e, f);
            (f.Some? ==> r[1..] == h[..f.value] + h[f.value + 1..])
            && (f.None? ==> r[1..] <= h)
  {
    MoveToFrontKeeps(h, e, FindSlug(h, e.chapterSlug));
  }

  /** Saving with the stored slug keeps the list free of repeated slugs. */
  lemma {:induction false} SaveKeepsDistinct(h: seq<Entry>, nTitle: CString, cTitle: CString, cSlug: CString,
                                             nSlug: CString, cNum: int)
    requires |h| <= MaxHistory && DistinctSlugs(h)
    ensures DistinctSlugs(Save(h, nTitle, cTitle, cSlug, nSlug, cNum))
  {
    var e := NewEntry(nTitle, cTitle, cSlug, nSlug, cNum);
    var f := FindSlug(h, e.chapterSlug);
    var r := Save(h, nTitle, cTitle, cSlug, nSlug, cNum);
    var rest := r[1..];
    if f.Some? {
      var i := f.value;
      assert rest == h[..i] + h[i + 1..];
      forall a, b | 0 <= a < b < |rest|
        ensures rest[a].chapterSlug != rest[b].chapterSlug
      {
        var a' := if a < i then a else a + 1;
        var b' := if b < i then b else b + 1;
        assert rest[a] == h[a'] && rest[b] == h[b'];
      }
      forall j | 0 <= j < |rest|
        ensures rest[j].chapterSlug != e.chapterSlug
      {
        var j' := if j < i then j else j + 1;
        assert rest[j] == h[j'];
      }
    } else {
      assert rest <= h;
      forall a, b | 0 <= a < b < |rest|
        ensures rest[a].chapterSlug != rest[b].chapterSlug
      {
        assert rest[a] == h[a] && rest[b] == h[b];
      }
    }
    forall a, b | 0 <= a < b < |r|
      ensures r[a].chapterSlug != r[b].chapterSlug
    {
      assert r[b] == rest[b - 1];
      if a > 0 {
        assert r[a] == rest[a - 1];
      }
    }
  }

  /** The comparison the code makes misses a slug longer than the field: the
      list holding the stored copy of such a slug gets a second copy. */
  lemma LongSlugDuplicated(stored: Entry, nTitle: CString, cTitle: CString, cSlug: CString, nSlug: CString, cNum: int)
    requires |cSlug| > FieldLength && stored.chapterSlug == Prefix(cSlug, FieldLength)
    ensures var r := SaveAsWritten([stored], nTitle, cTitle, cSlug, nSlug, cNum);
            |r| == 2 && r[0].chapterSlug == r[1].chapterSlug
            && !DistinctSlugs(r)
  {
    assert stored.chapterSlug != cSlug;
  }

  /** Such a slug exists: 256 bytes suffice. */
  lemma LongSlugExample()
    ensures var s: CString := seq(256, _ => 'a');
            var stored := Entry([], [], Prefix(s, FieldLength), [], 1);
            !DistinctSlugs(SaveAsWritten([stored], [], [], s, [], 1))
  {
    var s: CString := seq(256, _ => 'a');
    LongSlugDuplicated(Entry([], [], Prefix(s, FieldLength), [], 1), [], [], s, [], 1);
  }
}
