/**
 Names of event-log segment files: six-digit zero-padded decimal numbers with
 the suffix `.events`. The log finds its newest segment by sorting these names
 as strings and parsing the last one, so the two orders have to agree.
 */
module SegmentNames {
  import opened Prelude
  import opened Ordering

  const SUFFIX := ".events"
  const U32_LIMIT := 0x1_0000_0000

  /** The largest number that six digits can hold. */
  const LAST_PADDED: nat := 999999

  function Digit(d: nat): char
    requires d < 10
  {
    ('0' as int + d) as char
  }

  /** `n` modulo 10^w, in exactly `w` digits. */
  function Pad(n: nat, w: nat): (s: string)
    ensures |s| == w
  {
    if w == 0 then "" else Pad(n / 10, w - 1) + [Digit(n % 10)]
  }

  function Decimal(n: nat): string {
    if n < 10 then [Digit(n)] else Decimal(n / 10) + [Digit(n % 10)]
  }

  /** `format!("{:06}.events", n)` */
  function SegName(n: nat): string {
    (if n <= LAST_PADDED then Pad(n, 6) else Decimal(n)) + SUFFIX
  }

  predicate EndsWith(s: string, t: string) {
    |t| <= |s| && s[|s| - |t|..] == t
  }

  lemma EndsWithExactly(s: string, t: string)
    ensures EndsWith(s, t) <==> exists before: string :: s == before + t
  {
    if EndsWith(s, t) { assert s == s[..|s| - |t|] + t; }
  }

  /** `s.trim_end_matches(".events")`: the suffix is removed as often as it occurs. */
  function TrimSuffix(s: string): string {
    if EndsWith(s, SUFFIX) then TrimSuffix(s[..|s| - |SUFFIX|]) else s
  }

  predicate IsDigit(c: char) { '0' <= c <= '9' }

  function DigitsValue(s: string): (n: nat)
    requires forall c | c in s :: IsDigit(c)
  {
    if s == "" then 0
    else
      assert IsDigit(s[|s| - 1]);
      10 * DigitsValue(s[..|s| - 1]) + (s[|s| - 1] as int - '0' as int)
  }

  /** `s.parse::<u32>()`: an optional plus sign, then digits, within range. */
  function ParseU32(s: string): Option<nat> {
    var digits := if s != "" && s[0] == '+' then s[1..] else s;
    if digits == "" || exists c | c in digits :: !IsDigit(c) then None
    else if DigitsValue(digits) < U32_LIMIT then Some(DigitsValue(digits))
    else None
  }

  /** The name chosen when segment `last` is full; an unparsable name counts as 0. */
  function NextName(last: string): string {
    var n := match ParseU32(TrimSuffix(last)) case Some(v) => v case None => 0;
    SegName((n + 1) % U32_LIMIT)
  }

  function Pow10(w: nat): (p: nat)
    ensures p >= 1
  {
    if w == 0 then 1 else 10 * Pow10(w - 1)
  }

  lemma {:induction false} PadOrder(a: nat, b: nat, w: nat)
    requires a < b < Pow10(w)
    ensures Leq(Pad(a, w), Pad(b, w)) && Pad(a, w) != Pad(b, w)
  {
    if a / 10 < b / 10 {
      PadOrder(a / 10, b / 10, w - 1);
      LeqExtend(Pad(a / 10, w - 1), Pad(b / 10, w - 1), [Digit(a % 10)], [Digit(b % 10)]);
    } else {
      assert a % 10 < b % 10;
      LeqCommonPrefix(Pad(a / 10, w - 1), [Digit(a % 10)], [Digit(b % 10)]);
      assert Pad(a, w)[w - 1] != Pad(b, w)[w - 1];
    }
  }

  lemma {:induction false} PadDigits(n: nat, w: nat)
    requires n < Pow10(w)
    ensures forall c | c in Pad(n, w) :: IsDigit(c)
    ensures DigitsValue(Pad(n, w)) == n
  {
    if w > 0 {
      PadDigits(n / 10, w - 1);
      assert Pad(n, w)[..w - 1] == Pad(n / 10, w - 1);
    }
  }

  /** Sorting padded names as strings is sorting them by number. */
  lemma NameOrder(a: nat, b: nat)
    requires a < b <= LAST_PADDED
    ensures Leq(SegName(a), SegName(b)) && SegName(a) != SegName(b)
  {
    PadOrder(a, b, 6);
    LeqExtend(Pad(a, 6), Pad(b, 6), SUFFIX, SUFFIX);
  }

  /** Parsing undoes the six-digit format. */
  lemma ParseName(n: nat)
    requires n <= LAST_PADDED
    ensures ParseU32(TrimSuffix(SegName(n))) == Some(n)
  {
    PadDigits(n, 6);
    var p := Pad(n, 6);
    assert p[5] in p && p[0] in p;
  }

  lemma {:induction false} PowerOfTen(w: nat)
    ensures |Decimal(Pow10(w))| == w + 1 && Decimal(Pow10(w))[0] == '1'
  {
    if w > 0 { PowerOfTen(w - 1); }
  }

  lemma {:induction false} AllNines(w: nat)
    requires w > 0
    ensures Pad(Pow10(w) - 1, w)[0] == '9'
  {
    if w > 1 {
      assert (Pow10(w) - 1) / 10 == Pow10(w - 1) - 1;
      AllNines(w - 1);
    }
  }

  /** The millionth name is longer, and sorts before the names that start with a 9. */
  lemma MillionName()
    ensures |SegName(LAST_PADDED + 1)| == 14 && SegName(LAST_PADDED + 1)[0] == '1'
    ensures |SegName(LAST_PADDED)| == 13 && SegName(LAST_PADDED)[0] == '9'
  {
    PowerOfTen(6);
    AllNines(6);
  }

  lemma NamesDistinct(a: nat, b: nat)
    requires a <= LAST_PADDED + 1 && b <= LAST_PADDED + 1
    ensures SegName(a) == SegName(b) <==> a == b
  {
    MillionName();
    if a < b && b <= LAST_PADDED { NameOrder(a, b); }
    if b < a && a <= LAST_PADDED { NameOrder(b, a); }
    if a <= LAST_PADDED { assert |SegName(a)| == 13; }
    if b <= LAST_PADDED { assert |SegName(b)| == 13; }
  }

  /** Which of the segments 1..n sorts last: number n, until there are a million of
      them; then number 999999 sorts last, because its name is shorter. */
  function LastNumber(n: nat): nat { if n <= LAST_PADDED then n else LAST_PADDED }

  lemma LastOfNames(k: nat, n: nat)
    requires 1 <= k <= n <= LAST_PADDED + 1
    ensures Leq(SegName(k), SegName(LastNumber(n)))
  {
    MillionName();
    if k == LastNumber(n) {
      LeqReflexive(SegName(k));
    } else if k <= LAST_PADDED {
      NameOrder(k, LastNumber(n));
    } else {
      assert '1' < '9';
    }
  }

  lemma NameIsSegment(n: nat)
    ensures EndsWith(SegName(n), SUFFIX)
  {
  }
}
