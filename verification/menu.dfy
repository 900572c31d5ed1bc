/**
 The option menu `display_menu` (ui.c): a highlight that wraps around at both
 ends of `n` options, returned when Enter is pressed.
 */
module Menu {
  import opened Optional
  import opened Terminal
  import opened Arith

  /** What one key does: Enter picks the highlighted option; Up and Down move
      the highlight. */
  datatype MenuReply = Chosen(index: int) | Highlight(index: int)

  /** `choice` stays `-1` until Enter, and the loop ends once it is not `-1`. */
  const NoChoice := -1

  function MenuStep(h: int, n: int, key: Key): (r: MenuReply)
    ensures r.Chosen? <==> key == Enter && h != NoChoice
    ensures r.Chosen? ==> r.index == h
    ensures r.Highlight? && key != Up && key != Down ==> r.index == h
  {
    if key == Up then Highlight(if h - 1 < 0 then n - 1 else h - 1)
    else if key == Down then Highlight(if h + 1 >= n then 0 else h + 1)
    else if key == Enter && h != NoChoice then Chosen(h)
    else Highlight(h)
  }

  /** For at least one option the highlight stays on an option; Up from the
      first option goes to the last and Down from the last to the first. */
  lemma MenuWraps(h: int, n: int, key: Key)
    requires n >= 1 && 0 <= h < n
    ensures var r := MenuStep(h, n, key);
            0 <= r.index < n
    ensures h == 0 ==> MenuStep(h, n, Up) == Highlight(n - 1)
    ensures h == n - 1 ==> MenuStep(h, n, Down) == Highlight(0)
    ensures MenuStep(h, n, key) == Chosen(h) <==> key == Enter
  {
  }

  /** Moving the highlight is a rotation: Up steps back by one and Down
      forward by one, modulo `n`. */
  lemma MenuStepIsRotation(h: int, n: int)
    requires n >= 1 && 0 <= h < n
    ensures MenuStep(h, n, Up) == Highlight((h - 1) % n)
    ensures MenuStep(h, n, Down) == Highlight((h + 1) % n)
  {
    if h == 0 {
      ModUnique(h - 1, -1, n - 1, n);
    } else {
      ModUnique(h - 1, 0, h - 1, n);
    }
    if h + 1 == n {
      ModUnique(h + 1, 1, 0, n);
    } else {
      ModUnique(h + 1, 0, h + 1, n);
    }
  }

  /** How far one key moves the highlight: Down one step on, Up one step back. */
  function Delta(key: Key): int {
    if key == Down then 1 else if key == Up then -1 else 0
  }

  /** Down presses minus Up presses. */
  function Net(keys: seq<Key>): int {
    if |keys| == 0 then 0 else Delta(keys[0]) + Net(keys[1..])
  }

  /** `display_menu` fed the keys `keys` from highlight `h`: the option chosen,
      or `None` while it is still waiting for Enter. */
  function Choose(h: int, n: int, keys: seq<Key>): (r: Option<int>)
    decreases |keys|
  {
    if |keys| == 0 then None
    else match MenuStep(h, n, keys[0])
      case Chosen(c) => Some(c)
      case Highlight(h') => Choose(h', n, keys[1..])
  }

  /** The menu returns exactly when Enter is pressed, with an option: the
      result is never `-1`. */
  lemma {:induction false} ChooseOnEnter(h: int, n: int, keys: seq<Key>)
    requires n >= 1 && 0 <= h < n
    ensures var r := Choose(h, n, keys);
            (r.Some? <==> Enter in keys) && (r.Some? ==> 0 <= r.value < n)
    decreases |keys|
  {
    if |keys| > 0 {
      MenuWraps(h, n, keys[0]);
      if keys[0] != Enter {
        ChooseOnEnter(MenuStep(h, n, keys[0]).index, n, keys[1..]);
        assert Enter in keys <==> Enter in keys[1..];
      }
    }
  }

  /** A key other than Enter moves the highlight by its `Delta`, modulo `n`,
      and the menu carries on with the remaining keys. */
  lemma ChooseSkips(h: int, n: int, keys: seq<Key>)
    requires n >= 1 && 0 <= h < n
    requires |keys| > 0 && keys[0] != Enter
    ensures 0 <= (h + Delta(keys[0])) % n < n
    ensures Choose(h, n, keys) == Choose((h + Delta(keys[0])) % n, n, keys[1..])
  {
    MenuStepIsRotation(h, n);
    if keys[0] != Up && keys[0] != Down {
      ModUnique(h, 0, h, n);
    }
  }

  /** Rotating by `d` and then by `rest` is rotating by `d + rest`. */
  lemma RotateTwice(h: int, d: int, rest: int, n: int)
    requires n >= 1
    ensures ((h + d) % n + rest) % n == (h + (d + rest)) % n
  {
    ModShift(h + d, rest, n);
  }

  /** The net movement of a non-empty prefix splits off its first key. */
  lemma NetPrefix(keys: seq<Key>, k: nat)
    requires 0 < k <= |keys|
    ensures Net(keys[..k]) == Delta(keys[0]) + Net(keys[1..][..k - 1])
  {
    assert keys[..k][1..] == keys[1..][..k - 1];
  }

  /** One step of `ChooseRotates`: rotating by the first key and then by the
      rest of the prefix is rotating by the whole prefix. */
  lemma RotateStep(h: int, n: int, keys: seq<Key>, k: nat, rest: int)
    requires n >= 1 && 0 <= h < n
    requires 0 < k < |keys| && keys[0] != Enter && rest == Net(keys[1..][..k - 1])
    requires Choose((h + Delta(keys[0])) % n, n, keys[1..]) == Some(((h + Delta(keys[0])) % n + rest) % n)
    ensures Choose(h, n, keys) == Some((h + Net(keys[..k])) % n)
  {
    var d := Delta(keys[0]);
    calc {
      Choose(h, n, keys);
      { ChooseSkips(h, n, keys); }
      Choose((h + d) % n, n, keys[1..]);
      Some(((h + d) % n + rest) % n);
      { RotateTwice(h, d, rest, n); }
      Some((h + (d + rest)) % n);
      { NetPrefix(keys, k); }
      Some((h + Net(keys[..k])) % n);
    }
  }

  /** The option returned is the start position rotated by the net number of
      Down presses before the first Enter. */
  lemma {:induction false} ChooseRotates(h: int, n: int, keys: seq<Key>, k: nat)
    requires n >= 1 && 0 <= h < n
    requires k < |keys| && keys[k] == Enter && forall i | 0 <= i < k :: keys[i] != Enter
    ensures Choose(h, n, keys) == Some((h + Net(keys[..k])) % n)
    decreases k
  {
    if k == 0 {
      assert keys[..k] == [];
      ModUnique(h, 0, h, n);
    } else {
      ChooseSkips(h, n, keys);
      ChooseRotates((h + Delta(keys[0])) % n, n, keys[1..], k - 1);
      RotateStep(h, n, keys, k, Net(keys[1..][..k - 1]));
    }
  }
}
