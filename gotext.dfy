/**
 * The pieces of Go's standard library the core relies on: `strings.Contains`,
 * `strconv.ParseInt(s, 10, 64)` with its inverse `strconv.FormatInt(n, 10)`,
 * and two's-complement `int64` arithmetic.
 */
module GoText {
  import opened Wrappers

  const MinInt64 := -0x8000_0000_0000_0000
  const MaxInt64 := 0x7FFF_FFFF_FFFF_FFFF
  const TwoTo64 := 0x1_0000_0000_0000_0000

  /** `sub` occurs in `s` starting at index `i`. */
  ghost predicate OccursAt(s: string, sub: string, i: int) {
    0 <= i && i + |sub| <= |s| && s[i..i + |sub|] == sub
  }

  /** `strings.Contains(s, sub)`: `sub` occurs somewhere in `s`. */
  function Contains(s: string, sub: string): (r: bool)
    ensures r <==> exists i :: OccursAt(s, sub, i)
  {
    if sub <= s then
      assert OccursAt(s, sub, 0);
      true
    else if s == [] then
      false
    else
      var r := Contains(s[1..], sub);
      assert r ==> exists i :: OccursAt(s, sub, i) by {
        if r {
          var j :| OccursAt(s[1..], sub, j);
          assert s[1..][j..j + |sub|] == s[j + 1..j + 1 + |sub|];
          assert OccursAt(s, sub, j + 1);
        }
      }
      assert (exists i :: OccursAt(s, sub, i)) ==> r by {
        if exists i :: OccursAt(s, sub, i) {
          var i :| OccursAt(s, sub, i);
          assert i != 0;
          assert s[1..][i - 1..i - 1 + |sub|] == s[i..i + |sub|];
          assert OccursAt(s[1..], sub, i - 1);
        }
      }
      r
  }

  predicate IsDigit(c: char) {
    '0' <= c <= '9'
  }

  predicate AllDigits(ds: string) {
    forall i :: 0 <= i < |ds| ==> IsDigit(ds[i])
  }

  /** The number a string of decimal digits denotes, most significant first. */
  function DigitsValue(ds: string): nat
    requires AllDigits(ds)
  {
    if ds == [] then 0
    else 10 * DigitsValue(ds[..|ds| - 1]) + (ds[|ds| - 1] as int - '0' as int)
  }

  /** Integer `n` lies in Go's `int64` range. */
  predicate InInt64(n: int) {
    MinInt64 <= n <= MaxInt64
  }

  /** `s` is an optional `+` or `-` followed by one or more decimal digits. */
  ghost predicate DecimalSyntax(s: string) {
    && (forall i :: 0 <= i < |s| ==> IsDigit(s[i]) || (i == 0 && (s[i] == '+' || s[i] == '-')))
    && (exists i :: 0 <= i < |s| && IsDigit(s[i]))
  }

  /** The signed number a decimal string denotes, leading zeros allowed. */
  ghost function SignedValue(s: string): int
    requires DecimalSyntax(s)
  {
    if IsDigit(s[0]) then DigitsValue(s)
    else if s[0] == '-' then 0 - DigitsValue(s[1..]) as int
    else DigitsValue(s[1..])
  }

  /**
   * `strconv.ParseInt(s, 10, 64)`: an optional sign followed by at least one
   * decimal digit, whose value fits in `int64`; anything else is an error.
   */
  function ParseInt(s: string): (r: Option<int>)
    ensures r.Some? <==> DecimalSyntax(s) && InInt64(SignedValue(s))
    ensures r.Some? ==> r.value == SignedValue(s)
    ensures r.Some? ==> InInt64(r.value)
    ensures s == [] ==> r.None?
    ensures (exists i :: 0 <= i < |s| && !IsDigit(s[i]) && !(i == 0 && (s[0] == '+' || s[0] == '-'))) ==> r.None?
  {
    if s == [] then None
    else
      var digits := if s[0] == '+' || s[0] == '-' then s[1..] else s;
      if digits == [] || !AllDigits(digits) then None
      else
        var n: int := if s[0] == '-' then 0 - DigitsValue(digits) as int else DigitsValue(digits) as int;
        if InInt64(n) then Some(n) else None
  }

  /** The decimal digits of a natural number, without leading zeros. */
  function FormatNat(n: nat): (ds: string)
    ensures ds != [] && AllDigits(ds)
  {
    if n < 10 then ["0123456789"[n]]
    else FormatNat(n / 10) + ["0123456789"[n % 10]]
  }

  /** `strconv.FormatInt(n, 10)`. */
  function FormatInt(n: int): string {
    if n < 0 then "-" + FormatNat(-n) else FormatNat(n)
  }

  lemma {:induction false} DigitsValueOfFormatNat(n: nat)
    ensures DigitsValue(FormatNat(n)) == n
  {
    var ds := FormatNat(n);
    if n >= 10 {
      DigitsValueOfFormatNat(n / 10);
      assert ds[..|ds| - 1] == FormatNat(n / 10);
    }
  }

  /** A digit string, bare or after a minus sign, parses to its value when that fits. */
  lemma ParseIntOfDigits(ds: string)
    requires ds != [] && AllDigits(ds)
    ensures ParseInt(ds) == if InInt64(DigitsValue(ds)) then Some(DigitsValue(ds) as int) else None
    ensures ParseInt("-" + ds) == if InInt64(0 - DigitsValue(ds)) then Some(0 - DigitsValue(ds)) else None
  {
    assert !IsDigit('-') && !IsDigit('+') && IsDigit(ds[0]);
    assert ("-" + ds)[0] == '-' && ("-" + ds)[1..] == ds;
  }

  /** The decimal text of a natural number, bare or negated, parses back when it fits. */
  lemma ParseFormatNat(m: nat)
    ensures ParseInt(FormatNat(m)) == if m <= MaxInt64 then Some(m) else None
    ensures ParseInt("-" + FormatNat(m)) == if MinInt64 <= 0 - m then Some(0 - m) else None
  {
    DigitsValueOfFormatNat(m);
    ParseIntOfDigits(FormatNat(m));
  }

  /** Parsing the decimal rendering of any `int64` gives the number back. */
  lemma ParseFormatInt(n: int)
    requires InInt64(n)
    ensures ParseInt(FormatInt(n)) == Some(n)
  {
    if n < 0 {
      ParseFormatNat(-n);
    } else {
      ParseFormatNat(n);
    }
  }

  /** A leading `+` and leading zeros are accepted; a lone sign is an error. */
  lemma ParseIntEdgeCases()
    ensures ParseInt("+7") == Some(7)
    ensures ParseInt("007") == Some(7)
    ensures ParseInt("-0") == Some(0)
    ensures ParseInt("+").None? && ParseInt("-").None?
  {
    assert "007"[..2] == "00" && "00"[..1] == "0";
  }

  /** The decimal rendering of a number outside `int64` does not parse. */
  lemma ParseIntOutOfRange(n: int)
    requires !InInt64(n)
    ensures ParseInt(FormatInt(n)).None?
  {
    if n < 0 {
      ParseFormatNat(-n);
    } else {
      ParseFormatNat(n);
    }
  }

  /** Go's `int64` result of an exact integer: wrap-around modulo 2^64. */
  function Wrap64(x: int): (r: int)
    ensures InInt64(r)
    ensures (x - r) % TwoTo64 == 0
    ensures InInt64(x) ==> r == x
  {
    (x - MinInt64) % TwoTo64 + MinInt64
  }
}
