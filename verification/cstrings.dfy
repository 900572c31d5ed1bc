/**
 Byte strings as the C code sees them, and the few C library routines the
 modelled code relies on: the `isspace`/`isdigit` classes of the C locale,
 `strstr`/`strchr` searches, `strncpy` truncation and `atoi`.
 */
module CStrings {
  import opened Optional

  /** One byte of a NUL-terminated C string. A NUL ends the string, so the
      bytes that can occur inside it have codes 1..255. */
  type CChar = c: char | 1 <= c as int <= 255 witness 'a'

  type CString = seq<CChar>

  /** `isspace` in the C locale: space, tab, newline, vertical tab, form feed, carriage return. */
  predicate IsSpace(c: CChar) {
    c == ' ' || c == '\t' || c == '\n' || c as int == 11 || c as int == 12 || c == '\r'
  }

  /** `isdigit`. */
  predicate IsDigit(c: CChar) {
    '0' <= c <= '9'
  }

  function Last(s: CString): CChar
    requires |s| > 0
  {
    s[|s| - 1]
  }

  /** `needle` occurs in `s` starting at index `i`. */
  predicate MatchAt(s: CString, i: int, needle: CString) {
    0 <= i && i + |needle| <= |s| && s[i..i + |needle|] == needle
  }

  /** A one-byte needle matches exactly where that byte is. */
  lemma MatchByte(s: CString, k: nat, c: CChar)
    requires k < |s|
    ensures MatchAt(s, k, [c]) <==> s[k] == c
  {
    assert s[k..k + 1] == [s[k]];
  }

  /** `strstr(s + from, needle)`, as an index into `s`: the first position at or
      after `from` where `needle` occurs, or None (the NULL result). With a
      one-byte needle this is `strchr`. */
  function Find(s: CString, needle: CString, from: nat): (r: Option<nat>)
    requires from <= |s|
    requires |needle| > 0
    ensures r.Some? ==> from <= r.value && MatchAt(s, r.value, needle)
    ensures forall k | from <= k && (r.None? || k < r.value) :: !MatchAt(s, k, needle)
    decreases |s| - from
  {
    if from + |needle| > |s| then None
    else if s[from..from + |needle|] == needle then Some(from)
    else Find(s, needle, from + 1)
  }

  /** The search lands on `at` when the needle occurs there and its first byte
      does not occur before it. */
  lemma {:induction false} FindFirst(s: CString, needle: CString, from: nat, at: nat)
    requires |needle| > 0 && from <= at && MatchAt(s, at, needle)
    requires forall k | from <= k < at :: s[k] != needle[0]
    ensures Find(s, needle, from) == Some(at)
    decreases at - from
  {
    if from < at {
      assert s[from..from + |needle|][0] == s[from];
      FindFirst(s, needle, from + 1, at);
    }
  }

  /** The string `strncpy(dst, src, n)` leaves in a buffer of more than `n`
      bytes whose byte `n` is NUL: the whole source when it fits, otherwise
      its first `n` bytes. */
  function Prefix(s: CString, n: nat): (r: CString)
    ensures |r| <= n && r <= s
    ensures |s| <= n ==> r == s
    ensures |s| > n ==> |r| == n
  {
    if |s| <= n then s else s[..n]
  }

  /** Value of a run of decimal digits. */
  function DigitsValue(s: CString): nat
    requires forall i | 0 <= i < |s| :: IsDigit(s[i])
  {
    if |s| == 0 then 0
    else
      assert IsDigit(s[|s| - 1]);
      DigitsValue(s[..|s| - 1]) * 10 + (s[|s| - 1] as int - '0' as int)
  }

  /** The longest prefix of `s` made of decimal digits. */
  function LeadingDigits(s: CString): (r: CString)
    ensures r <= s
    ensures forall i | 0 <= i < |r| :: IsDigit(r[i])
    ensures |r| < |s| ==> !IsDigit(s[|r|])
  {
    if |s| == 0 || !IsDigit(s[0]) then [] else [s[0]] + LeadingDigits(s[1..])
  }

  const LongMax := 0x7fff_ffff_ffff_ffff
  const LongMin := -0x8000_0000_0000_0000

  /** The conversion of a `long` to a 32-bit `int` on the target: the value modulo 2^32,
      read as two's complement. */
  function ToInt32(v: int): (r: int)
    ensures -0x8000_0000 <= r < 0x8000_0000
    ensures (r - v) % 0x1_0000_0000 == 0
  {
    (v + 0x8000_0000) % 0x1_0000_0000 - 0x8000_0000
  }

  /** `atoi` as glibc defines it, `(int) strtol(s, NULL, 10)`: leading white space
      is skipped, one optional sign is read, then the longest run of digits; the
      `long` result saturates at the `long` range and is then cut to 32 bits. A
      string without digits gives 0. */
  function Atoi(s: CString): (r: int)
    ensures -0x8000_0000 <= r < 0x8000_0000
    decreases |s|
  {
    if |s| > 0 && IsSpace(s[0]) then Atoi(s[1..])
    else
      var negative := |s| > 0 && s[0] == '-';
      var body := if |s| > 0 && (s[0] == '-' || s[0] == '+') then s[1..] else s;
      var magnitude: int := DigitsValue(LeadingDigits(body));
      var v: int := if negative then -magnitude else magnitude;
      ToInt32(if v > LongMax then LongMax else if v < LongMin then LongMin else v)
  }

  /** The decimal rendering of a natural number, without leading zeros. */
  function Decimal(n: nat): (r: CString)
    ensures |r| > 0 && IsDigit(r[0])
    ensures forall i | 0 <= i < |r| :: IsDigit(r[i])
  {
    var d := ['0', '1', '2', '3', '4', '5', '6', '7', '8', '9'][n % 10];
    if n < 10 then [d] else Decimal(n / 10) + [d]
  }

  lemma {:induction false} DecimalValue(n: nat)
    ensures DigitsValue(Decimal(n)) == n
    decreases n
  {
    var d := ['0', '1', '2', '3', '4', '5', '6', '7', '8', '9'][n % 10];
    assert d as int - '0' as int == n % 10;
    if n >= 10 {
      DecimalValue(n / 10);
      assert Decimal(n)[..|Decimal(n)| - 1] == Decimal(n / 10);
    } else {
      assert Decimal(n)[..0] == [];
    }
  }

  lemma LeadingDigitsOfDigits(s: CString)
    requires forall i | 0 <= i < |s| :: IsDigit(s[i])
    ensures LeadingDigits(s) == s
  {
  }

  /** Typing the decimal number `n` gives back `n`: `atoi` inverts `Decimal` on the `int` range. */
  lemma AtoiOfDecimal(n: nat)
    requires n < 0x8000_0000
    ensures Atoi(Decimal(n)) == n
  {
    var s := Decimal(n);
    DecimalValue(n);
    LeadingDigitsOfDigits(s);
    AtoiOfUnsigned(s);
  }

  /** On a string that starts with a digit, `atoi` reads the leading digits. */
  lemma AtoiOfUnsigned(s: CString)
    requires |s| > 0 && IsDigit(s[0])
    ensures DigitsValue(LeadingDigits(s)) < 0x8000_0000 ==> Atoi(s) == DigitsValue(LeadingDigits(s))
  {
    assert !IsSpace(s[0]) && s[0] != '-' && s[0] != '+';
    var v: int := DigitsValue(LeadingDigits(s));
    if v < 0x8000_0000 {
      ToInt32InRange(v);
    }
  }

  /** Cutting to 32 bits keeps every value of the `int` range. */
  lemma ToInt32InRange(v: int)
    requires -0x8000_0000 <= v < 0x8000_0000
    ensures ToInt32(v) == v
  {
    var u := v + 0x8000_0000;
    assert 0 <= u < 0x1_0000_0000;
    assert u % 0x1_0000_0000 == u;
  }

  function Pow10(k: nat): nat {
    if k == 0 then 1 else 10 * Pow10(k - 1)
  }

  /** A number below `10^k` takes at most `k` digits. */
  lemma {:induction false} DecimalLength(n: nat, k: nat)
    requires 1 <= k && n < Pow10(k)
    ensures |Decimal(n)| <= k
    decreases k
  {
    if n >= 10 {
      assert k > 1;
      assert n / 10 < Pow10(k - 1);
      DecimalLength(n / 10, k - 1);
    }
  }
}
