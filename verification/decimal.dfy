/** Decimal text of integers: Rust's `i64::to_string` (canonical, with a `-`
    sign for negatives) and `str::parse::<i64>` (optional `+` or `-`, then one
    or more ASCII digits, leading zeros allowed, value within `i64`). */
module Decimal {
  import opened Wrappers
  import opened Bytes

  /** Canonical decimal digits of `n`: no leading zero except for `0` itself. */
  function Digits(n: nat): (r: seq<u8>)
    ensures |r| >= 1 && AllDigits(r)
    ensures r[0] == ZERO ==> n == 0
    decreases n
  {
    if n < 10 then [ZERO + n] else Digits(n / 10) + [ZERO + n % 10]
  }

  /** The number a run of ASCII digits denotes (most significant first). */
  function DigitsValue(ds: seq<u8>): nat
    requires AllDigits(ds)
  {
    if |ds| == 0 then 0 else DigitsValue(ds[..|ds| - 1]) * 10 + (ds[|ds| - 1] - ZERO)
  }

  /** `DigitsValue` inverts `Digits`. */
  lemma {:induction false} DigitsValueOfDigits(n: nat)
    ensures DigitsValue(Digits(n)) == n
    decreases n
  {
    if n >= 10 {
      var d := Digits(n);
      assert d[..|d| - 1] == Digits(n / 10);
      DigitsValueOfDigits(n / 10);
    }
  }

  /** Distinct numbers have distinct decimal texts. */
  lemma DigitsInjective(m: nat, n: nat)
    ensures Digits(m) == Digits(n) <==> m == n
  {
    if Digits(m) == Digits(n) {
      DigitsValueOfDigits(m);
      DigitsValueOfDigits(n);
    }
  }

  /** `i64::to_string`. */
  function ToDecimal(v: i64): (r: seq<u8>)
  {
    if v < 0 then [MINUS] + Digits(-(v as int)) else Digits(v)
  }

  /** `str::parse::<i64>`: `None` for an empty field, a lone sign, any byte that
      is not an ASCII digit after the optional sign, or a value outside `i64`. */
  function ParseI64(f: seq<u8>): (r: Option<i64>)
    ensures r.Some? ==> |f| >= 1 && SPACE !in f
    ensures r.Some? ==> forall i :: 0 <= i < |f| ==> !IsWhitespace(f[i])
  {
    if |f| == 0 then None
    else
      var negative := f[0] == MINUS;
      var ds := if f[0] == MINUS || f[0] == PLUS then f[1..] else f;
      if |ds| == 0 || !AllDigits(ds) then None
      else
        var v: int := if negative then 0 - DigitsValue(ds) as int else DigitsValue(ds);
        if InI64Range(v) then Some(v) else None
  }

  /** The decimal text of every `i64` is a non-empty run of non-whitespace bytes
      that starts with a sign or a digit and ends with a digit. */
  lemma ToDecimalShape(v: i64)
    ensures |ToDecimal(v)| >= 1
    ensures forall i :: 0 <= i < |ToDecimal(v)| ==> !IsWhitespace(ToDecimal(v)[i])
    ensures IsDigit(ToDecimal(v)[|ToDecimal(v)| - 1])
    ensures v < 0 <==> ToDecimal(v)[0] == MINUS
  {
  }

  /** Parsing the decimal text of `v` gives back `v`. */
  lemma ParseToDecimal(v: i64)
    ensures ParseI64(ToDecimal(v)) == Some(v)
  {
    var f := ToDecimal(v);
    if v < 0 {
      assert f[1..] == Digits(-(v as int));
      DigitsValueOfDigits(-(v as int));
    } else {
      DigitsValueOfDigits(v);
    }
  }

  /** `i64::to_string` is injective. */
  lemma ToDecimalInjective(v: i64, w: i64)
    ensures ToDecimal(v) == ToDecimal(w) <==> v == w
  {
    if ToDecimal(v) == ToDecimal(w) {
      ParseToDecimal(v);
      ParseToDecimal(w);
    }
  }
}
