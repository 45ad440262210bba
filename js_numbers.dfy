/** JavaScript's bitwise OR, as the browser port uses it on non-negative values below 2^32: once
    to reassemble the four-character tree length, once to set a channel's lowest bit. The digits
    are combined one at a time, from the lowest. */
module JsNumbers {
  import opened Outcomes
  import opened Binary

  /** `a | b` on non-negative integers. */
  function BitOr(a: nat, b: nat): (r: nat)
    decreases a + b
  {
    if a == 0 then b
    else if b == 0 then a
    else 2 * BitOr(a / 2, b / 2) + (if a % 2 == 1 || b % 2 == 1 then 1 else 0)
  }

  /** Where the lowest set digits of a and b do not overlap, OR is addition: here a is a multiple
      of 2^k and b is below it. */
  lemma {:induction false} OrShift(x: nat, k: nat, b: nat)
    requires b < Pow2(k)
    ensures BitOr(x * Pow2(k), b) == x * Pow2(k) + b
  {
    if k > 0 && x != 0 && b != 0 {
      var a := x * Pow2(k);
      assert a == 2 * (x * Pow2(k - 1));
      assert a / 2 == x * Pow2(k - 1) && a % 2 == 0;
      OrShift(x, k - 1, b / 2);
    }
  }

  /** `parseInt(c)` of one character, radix 10: its digit value for '0' to '9', and `None`
      (NaN) for any other character, a sign or white space alone included. */
  function DecimalDigit(c: CodeUnit): (r: Option<nat>)
    ensures r.Some? <==> Bit0 <= c <= Bit0 + 9
    ensures r.Some? ==> r.value < 10 && r.value == c as int - 48
  {
    if 48 <= c <= 57 then Some(c as int - 48) else None
  }

  /** `x | NaN`: NaN converts to 0 for a bitwise operator. */
  function OrNumber(x: nat, v: Option<nat>): nat {
    match v
    case Some(d) => BitOr(x, d)
    case None => x
  }
}
