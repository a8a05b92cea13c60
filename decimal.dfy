/** `str(n).encode("utf-8")` for a Python int, and the parse that reads it back. */
module Decimal {
  import opened Text

  predicate IsDigit(b: int) { 0x30 <= b <= 0x39 }

  /** ASCII decimal digits of a natural number, most significant first, no leading zeros. */
  function NatDigits(n: nat): (ds: seq<Byte>)
    ensures |ds| >= 1
    ensures forall i :: 0 <= i < |ds| ==> IsDigit(ds[i])
    ensures |ds| > 1 ==> ds[0] != 0x30
  {
    if n < 10 then [0x30 + n] else NatDigits(n / 10) + [0x30 + n % 10]
  }

  /** `str(n)`: an optional minus sign followed by the digits of |n|. */
  function IntToDecimal(n: int): (ds: seq<Byte>)
    ensures |ds| >= 1
    ensures forall i :: 0 <= i < |ds| ==> ds[i] != Colon
  {
    if n < 0 then [Minus] + NatDigits(-n) else NatDigits(n)
  }

  function ParseNat(ds: seq<Byte>): (r: Option<nat>)
    ensures r.Some? <==> |ds| >= 1 && forall i :: 0 <= i < |ds| ==> IsDigit(ds[i])
  {
    if |ds| == 0 then None
    else
      var last := ds[|ds| - 1];
      if !IsDigit(last) then None
      else if |ds| == 1 then Some(last - 0x30)
      else match ParseNat(ds[..|ds| - 1])
        case None => None
        case Some(v) => Some(v * 10 + (last - 0x30))
  }

  /** `int(s)` restricted to what `str` produces: optional minus, then digits. */
  function ParseInt(ds: seq<Byte>): (r: Option<int>)
  {
    if |ds| >= 1 && ds[0] == Minus then
      match ParseNat(ds[1..])
      case None => None
      case Some(v) => Some(-(v as int))
    else
      match ParseNat(ds)
      case None => None
      case Some(v) => Some(v)
  }

  lemma {:induction false} ParseNatDigits(n: nat)
    ensures ParseNat(NatDigits(n)) == Some(n)
  {
    if n >= 10 {
      var ds := NatDigits(n);
      assert ds[..|ds| - 1] == NatDigits(n / 10);
      ParseNatDigits(n / 10);
    }
  }

  /** Round trip: the decimal text of every int parses back to that int. */
  lemma ParseIntDecimal(n: int)
    ensures ParseInt(IntToDecimal(n)) == Some(n)
  {
    if n < 0 {
      assert IntToDecimal(n)[1..] == NatDigits(-n);
      ParseNatDigits(-n);
    } else {
      ParseNatDigits(n);
    }
  }

  /** Distinct ints have distinct decimal texts. */
  lemma DecimalInjective(m: int, n: int)
    requires IntToDecimal(m) == IntToDecimal(n)
    ensures m == n
  {
    ParseIntDecimal(m);
    ParseIntDecimal(n);
  }
}
