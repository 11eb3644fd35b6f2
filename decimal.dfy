/** Decimal header fields: how the encoders render an integer and how the
    decoders accumulate one, byte by byte. */
module Decimal {
  import opened PpmBytes

  /** `std::to_string` of a non-negative value: its base-ten digits, most
      significant first, with no leading zero. */
  function ToDecimal(n: nat): (s: seq<Byte>)
    ensures 1 <= |s|
    ensures forall k :: 0 <= k < |s| ==> IsDigit(s[k])
    ensures |s| > 1 ==> s[0] != '0' as int
  {
    if n < 10 then ['0' as int + n] else ToDecimal(n / 10) + ['0' as int + n % 10]
  }

  /** `std::to_string` of a signed `int`: a minus sign before the digits of a negative value. */
  function IntToString(n: int): (s: seq<Byte>)
    ensures 1 <= |s|
    ensures s[0] == '-' as int <==> n < 0
    ensures forall k :: (if n < 0 then 1 else 0) <= k < |s| ==> IsDigit(s[k])
  {
    if n < 0 then ['-' as int] + ToDecimal(-n) else ToDecimal(n)
  }

  /** The decoders' accumulation `ans = ans * 10 + (b - '0')` over `s`, from
      the left, in unbounded integers. It does not check that the bytes are digits. */
  function DecimalFold(s: seq<Byte>): int {
    if s == [] then 0 else DecimalFold(s[..|s| - 1]) * 10 + (s[|s| - 1] - '0' as int)
  }

  /** The same accumulation on a `uint32_t`, which wraps after every step.
      Wrapping at every step gives the exact value reduced once: the
      `uint32_t` accumulation is the exact one modulo 2^32. */
  function AccumulateU32(s: seq<Byte>): (v: uint32)
    ensures v == DecimalFold(s) % U32_MODULUS
  {
    if s == [] then 0
    else
      var init, d := s[..|s| - 1], s[|s| - 1] - '0' as int;
      ModuloAbsorbs(DecimalFold(init), d);
      (AccumulateU32(init) * 10 + d) % U32_MODULUS
  }

  lemma ModuloAbsorbs(a: int, d: int)
    ensures ((a % U32_MODULUS) * 10 + d) % U32_MODULUS == (a * 10 + d) % U32_MODULUS
  {
    var q := a / U32_MODULUS;
    var r := a % U32_MODULUS;
    assert a == q * U32_MODULUS + r;
    assert a * 10 + d == (r * 10 + d) + (10 * q) * U32_MODULUS;
  }

  /** Accumulating the digits that `to_string` renders gives the number back. */
  lemma {:induction false} FoldToDecimal(n: nat)
    ensures DecimalFold(ToDecimal(n)) == n
  {
    if n >= 10 {
      var s := ToDecimal(n);
      assert s[..|s| - 1] == ToDecimal(n / 10);
      FoldToDecimal(n / 10);
    }
  }

  /** Hence a rendered `uint32_t` is read back exactly by the wrapping accumulation. */
  lemma AccumulateToDecimal(n: uint32)
    ensures AccumulateU32(ToDecimal(n)) == n
  {
    FoldToDecimal(n);
  }
}
