/** Base-10 text for integers: `strconv.ParseInt(s, 10, 64)` and `fmt`'s `%d`. */
module Decimal {
  import opened Bytes
  import opened Int64
  import opened Outcomes

  const PLUS: byte := 43
  const MINUS: byte := 45

  predicate IsDigit(b: byte)
  {
    48 <= b <= 57
  }

  predicate AllDigits(s: seq<byte>)
  {
    forall i :: 0 <= i < |s| ==> IsDigit(s[i])
  }

  /** The value of a string of decimal digits, most significant first. */
  function DigitsValue(s: seq<byte>): nat
    requires AllDigits(s)
  {
    if s == [] then 0 else 10 * DigitsValue(s[..|s| - 1]) + (s[|s| - 1] - 48)
  }

  /** `strconv.ParseInt(s, 10, 64)` when it returns no error: an optional sign, at least
      one decimal digit and nothing else, with a value inside the int64 range. */
  function ParseInt64(s: seq<byte>): Option<int64>
  {
    var signed := |s| > 0 && (s[0] == PLUS || s[0] == MINUS);
    var digits := if signed then s[1..] else s;
    if digits == [] || !AllDigits(digits) then None
    else
      var v := if signed && s[0] == MINUS then -(DigitsValue(digits) as int) else DigitsValue(digits);
      if -TWO_63 <= v < TWO_63 then Some(v) else None
  }

  /** `%d` of a non-negative number: its digits without leading zeros. */
  function FormatNat(n: nat): (r: seq<byte>)
    ensures |r| > 0 && AllDigits(r)
    ensures DigitsValue(r) == n
    ensures |r| > 1 ==> r[0] != 48
  {
    if n < 10 then [48 + n]
    else
      var r := FormatNat(n / 10) + [48 + n % 10];
      assert r[..|r| - 1] == FormatNat(n / 10);
      r
  }

  /** `%d` of any integer. */
  function FormatInt(v: int): seq<byte>
  {
    if v < 0 then [MINUS] + FormatNat(-v) else FormatNat(v)
  }

  /** Parsing what `%d` prints gives the number back. */
  lemma ParseFormat(v: int64)
    ensures ParseInt64(FormatInt(v)) == Some(v)
  {
    var s := FormatInt(v);
    if v < 0 {
      var n: nat := -(v as int);
      var d := FormatNat(n);
      assert s == [MINUS] + d;
      assert s[1..] == d;
      assert s[0] == MINUS;
    } else {
      var d := FormatNat(v);
      assert IsDigit(d[0]);
      assert !(d[0] == PLUS || d[0] == MINUS);
    }
  }

  /** Parsing succeeds only on a sign-optional run of digits; the empty string, a lone sign
      and any other byte are errors. */
  lemma ParseInt64Syntax(s: seq<byte>)
    ensures ParseInt64(s).Some? ==>
      && |s| > 0
      && (IsDigit(s[0]) || s[0] == PLUS || s[0] == MINUS)
      && (forall i :: 1 <= i < |s| ==> IsDigit(s[i]))
      && (!IsDigit(s[0]) ==> |s| > 1)
  {
    if ParseInt64(s).Some? {
      var signed := s[0] == PLUS || s[0] == MINUS;
      if signed {
        assert forall i :: 1 <= i < |s| ==> s[i] == s[1..][i - 1];
      }
    }
  }

  /** Unsigned digits parse to their value when it fits in 63 bits. */
  lemma ParseInt64Value(s: seq<byte>)
    requires |s| > 0 && AllDigits(s)
    ensures ParseInt64(s) == if DigitsValue(s) < TWO_63 then Some(DigitsValue(s)) else None
  {
    assert IsDigit(s[0]);
  }

  /** A minus sign negates the digits' value; -2^63 is the one value with no positive twin. */
  lemma ParseInt64Negative(s: seq<byte>)
    requires |s| > 0 && AllDigits(s)
    ensures ParseInt64([MINUS] + s) == if DigitsValue(s) <= TWO_63 then Some(-(DigitsValue(s) as int)) else None
  {
    assert ([MINUS] + s)[1..] == s;
  }

  /** A plus sign changes nothing. */
  lemma ParseInt64Plus(s: seq<byte>)
    requires |s| > 0 && AllDigits(s)
    ensures ParseInt64([PLUS] + s) == ParseInt64(s)
  {
    assert ([PLUS] + s)[1..] == s;
    assert IsDigit(s[0]);
  }
}
