/** Strings of UTF-16 code units (a Java `char`, one element of a JavaScript string) and the
    binary-digit strings the codec passes between its layers: the characters '0' and '1',
    most significant bit first. Also the number renderings and parsers of the two runtimes that
    the codec relies on. */
module Binary {
  import opened Outcomes

  newtype CodeUnit = c: int | 0 <= c < 0x1_0000

  type Text = seq<CodeUnit>

  const Bit0: CodeUnit := 48   // '0'
  const Bit1: CodeUnit := 49   // '1'
  const Bar: CodeUnit := 124   // '|'
  const Dot: CodeUnit := 46    // '.'
  const Plus: CodeUnit := 43   // '+'
  const Minus: CodeUnit := 45  // '-'

  const IntMax: int := 0x7FFF_FFFF                 // Integer.MAX_VALUE
  const LongMax: int := 0x7FFF_FFFF_FFFF_FFFF      // Long.MAX_VALUE

  function Min(a: int, b: int): int { if a <= b then a else b }
  function Max(a: int, b: int): int { if a <= b then b else a }

  /** The least n with 3n >= m: how many pixels (three channels each) hold m bits. */
  function CeilDiv3(m: nat): nat { (m + 2) / 3 }

  function Pow2(n: nat): (r: nat)
    ensures r >= 1
  {
    if n == 0 then 1 else 2 * Pow2(n - 1)
  }

  predicate IsBits(s: Text) {
    forall i | 0 <= i < |s| :: s[i] == Bit0 || s[i] == Bit1
  }

  predicate IsBytes(s: Text) {
    forall i | 0 <= i < |s| :: s[i] < 256
  }

  function BitValue(c: CodeUnit): nat {
    if c == Bit1 then 1 else 0
  }

  function Digit(b: nat): CodeUnit
    requires b < 2
  {
    if b == 0 then Bit0 else Bit1
  }

  /** The number a bit string denotes, read most significant bit first. */
  function Value(s: Text): (v: nat)
    ensures v < Pow2(|s|)
  {
    if s == [] then 0 else 2 * Value(s[..|s| - 1]) + BitValue(s[|s| - 1])
  }

  /** `Integer.toBinaryString(n)`, `BigInteger.toString(2)` and JavaScript's `n.toString(2)` for
      n >= 0: the binary digits of n without leading zeros, "0" for zero. */
  function BinaryString(n: nat): (s: Text)
    ensures IsBits(s) && |s| >= 1
    ensures Value(s) == n
    ensures n > 0 ==> s[0] == Bit1
  {
    if n < 2 then [Digit(n)]
    else
      var s := BinaryString(n / 2) + [Digit(n % 2)];
      assert s[..|s| - 1] == BinaryString(n / 2);
      s
  }

  /** The binary rendering fits in w digits exactly when n < 2^w. */
  lemma {:induction false} BinaryStringWidth(n: nat, w: nat)
    requires w >= 1
    ensures |BinaryString(n)| <= w <==> n < Pow2(w)
  {
    if n >= 2 {
      if w == 1 {
        assert |BinaryString(n)| == |BinaryString(n / 2)| + 1;
      } else {
        BinaryStringWidth(n / 2, w - 1);
      }
    }
  }

  function Zeros(k: nat): (z: Text)
    ensures |z| == k
    ensures forall i | 0 <= i < k :: z[i] == Bit0
  {
    seq(k, _ => Bit0)
  }

  /** Left padding with '0' to at least w characters: `String.format("%8s", s).replace(' ', '0')`
      on a digit string, `"0".repeat(w - s.length()) + s`, and JavaScript's `s.padStart(w, '0')`.
      A string already w long or longer is returned as it is. */
  function PadLeft(s: Text, w: int): (r: Text)
    ensures |r| == Max(|s|, w)
    ensures r[|r| - |s|..] == s
    ensures forall i | 0 <= i < |r| - |s| :: r[i] == Bit0
  {
    if |s| < w then Zeros(w - |s|) + s else s
  }

  lemma {:induction false} LeadingZerosValue(k: nat, s: Text)
    ensures Value(Zeros(k) + s) == Value(s)
    decreases |s|, k
  {
    if s == [] {
      assert Zeros(k) + s == Zeros(k);
      if k > 0 {
        assert Zeros(k)[..k - 1] == Zeros(k - 1);
        LeadingZerosValue(k - 1, []);
        assert Zeros(k - 1) + [] == Zeros(k - 1);
      }
    } else {
      var t := Zeros(k) + s;
      assert t[..|t| - 1] == Zeros(k) + s[..|s| - 1];
      LeadingZerosValue(k, s[..|s| - 1]);
    }
  }

  /** Padding a bit string keeps it a bit string and keeps its value. */
  lemma PadLeftValue(s: Text, w: int)
    requires IsBits(s)
    ensures IsBits(PadLeft(s, w)) && Value(PadLeft(s, w)) == Value(s)
  {
    if |s| < w {
      LeadingZerosValue(w - |s|, s);
    }
  }

  /** `PadLeft(BinaryString(n), 8)`: how `serialize` and `TextToBinary.convert` write one
      character code as eight digits. */
  function ByteDigits(n: nat): (s: Text)
    ensures IsBits(s) && Value(s) == n
    ensures n < 256 ==> |s| == 8
  {
    PadLeftValue(BinaryString(n), 8);
    assert n < 256 ==> |BinaryString(n)| <= 8 by {
      if n < 256 { BinaryStringWidth(n, 8); }
    }
    PadLeft(BinaryString(n), 8)
  }

  /** The syntax shared by `Integer.parseInt(s, 2)`, `Long.parseLong(s, 2)` and
      `new BigInteger(s, 2)`: an optional '+' or '-' and then at least one binary digit. `None`
      stands for the NumberFormatException. Range limits are applied by `ParseInt`. Unicode
      digits other than ASCII '0' and '1' are not accepted here (see README). */
  function ParseSigned(s: Text): (r: Option<int>)
    ensures IsBits(s) && s != [] ==> r == Some(Value(s))
    ensures r.Some? ==> s != [] && (IsBits(s) || s[0] == Plus || s[0] == Minus)
  {
    if s == [] then None
    else if s[0] == Plus || s[0] == Minus then
      if |s| > 1 && IsBits(s[1..]) then
        Some(if s[0] == Minus then -(Value(s[1..]) as int) else Value(s[1..]))
      else None
    else if IsBits(s) then Some(Value(s))
    else None
  }

  /** `Integer.parseInt(s, 2)`: `None` is the NumberFormatException. */
  function ParseInt(s: Text): (r: Option<int>)
    ensures r.Some? ==> -IntMax - 1 <= r.value <= IntMax
    ensures IsBits(s) && s != [] && |s| <= 8 ==> r == Some(Value(s))
  {
    assert IsBits(s) && s != [] && |s| <= 8 ==> Pow2(|s|) <= 256 by {
      if |s| <= 8 { Pow2Monotone(|s|, 8); Pow2Byte(); }
    }
    match ParseSigned(s)
    case Some(v) => if -IntMax - 1 <= v <= IntMax then Some(v) else None
    case None => None
  }

  /** Eight digits written by `ByteDigits` parse back to the character code. */
  lemma ParseByteDigits(n: nat)
    requires n < 256
    ensures ParseInt(ByteDigits(n)) == Some(n)
  {
    var d := ByteDigits(n);
    assert d != [];
  }

  lemma Pow2Byte()
    ensures Pow2(8) == 256
  {
    assert Pow2(1) == 2;
    assert Pow2(2) == 4;
    assert Pow2(3) == 8;
    assert Pow2(4) == 16;
    assert Pow2(5) == 32;
    assert Pow2(6) == 64;
    assert Pow2(7) == 128;
  }

  lemma {:induction false} Pow2Monotone(m: nat, n: nat)
    requires m <= n
    ensures Pow2(m) <= Pow2(n)
    decreases n
  {
    if m < n { Pow2Monotone(m, n - 1); }
  }

  lemma {:induction false} Pow2Add(a: nat, b: nat)
    ensures Pow2(a + b) == Pow2(a) * Pow2(b)
    decreases b
  {
    if b > 0 {
      Pow2Add(a, b - 1);
      assert Pow2(a + b) == 2 * Pow2(a + b - 1);
    }
  }

  /** A header of 64 bits or more can hold every length up to `Long.MAX_VALUE`. */
  lemma Pow2Wide(n: nat)
    requires n >= 64
    ensures LongMax < Pow2(n)
  {
    Pow2Byte();
    Pow2Add(8, 8);
    assert Pow2(16) == 0x1_0000;
    Pow2Add(16, 16);
    assert Pow2(32) == 0x1_0000_0000;
    Pow2Add(32, 32);
    assert Pow2(64) == 0x1_0000_0000_0000_0000;
    Pow2Monotone(64, n);
  }

  /** Java's `(char) v` cast and JavaScript's ToUint16: the value modulo 2^16. */
  function ToCodeUnit(v: int): (c: CodeUnit)
    ensures 0 <= v < 0x1_0000 ==> c as int == v
  {
    (v % 0x1_0000) as CodeUnit
  }

  /** The characters ECMAScript trims before `parseInt` reads digits (WhiteSpace and
      LineTerminator). */
  predicate IsJsSpace(c: CodeUnit) {
    c == 9 || c == 10 || c == 11 || c == 12 || c == 13 || c == 32 || c == 0xA0 || c == 0x1680
    || (0x2000 <= c <= 0x200A) || c == 0x2028 || c == 0x2029 || c == 0x202F || c == 0x205F
    || c == 0x3000 || c == 0xFEFF
  }

  function TrimStart(s: Text): (t: Text)
    ensures |t| <= |s| && t == s[|s| - |t|..]
    ensures t == [] || !IsJsSpace(t[0])
  {
    if s != [] && IsJsSpace(s[0]) then TrimStart(s[1..]) else s
  }

  /** Length of the longest prefix of s made of binary digits. */
  function DigitRun(s: Text): (k: nat)
    ensures k <= |s| && IsBits(s[..k])
    ensures k < |s| ==> s[k] != Bit0 && s[k] != Bit1
  {
    if s == [] || (s[0] != Bit0 && s[0] != Bit1) then 0
    else
      var k := 1 + DigitRun(s[1..]);
      assert s[..k] == [s[0]] + s[1..][..k - 1];
      k
  }

  lemma {:induction false} DigitRunOfBits(s: Text)
    requires IsBits(s)
    ensures DigitRun(s) == |s|
  {
    if s != [] { DigitRunOfBits(s[1..]); }
  }

  /** JavaScript's `parseInt(s, 2)`: leading white space skipped, an optional sign, then the
      longest run of binary digits; `None` is NaN (no digit at all). */
  function JsParseInt(s: Text): Option<int> {
    var t := TrimStart(s);
    var signed := t != [] && (t[0] == Plus || t[0] == Minus);
    var u := if signed then t[1..] else t;
    var k := DigitRun(u);
    if k == 0 then None
    else if signed && t[0] == Minus then Some(-(Value(u[..k]) as int))
    else Some(Value(u[..k]))
  }

  /** On a non-empty string of binary digits, `parseInt(s, 2)` is the number the digits denote. */
  lemma JsParseIntBits(s: Text)
    requires IsBits(s) && s != []
    ensures JsParseInt(s) == Some(Value(s))
  {
    assert s[0] == Bit0 || s[0] == Bit1;
    assert !IsJsSpace(s[0]);
    assert TrimStart(s) == s;
    DigitRunOfBits(s);
    assert s[..|s|] == s;
  }

  /** A string with no binary digit after the white space and the sign is NaN. */
  lemma JsParseIntNaN(s: Text)
    requires TrimStart(s) == [] || (TrimStart(s)[0] != Bit0 && TrimStart(s)[0] != Bit1
      && TrimStart(s)[0] != Plus && TrimStart(s)[0] != Minus)
    ensures JsParseInt(s) == None
  {
  }

  /** `String.fromCharCode(x)`: ToUint16 of the number, NaN giving 0. */
  function FromCharCode(x: Option<int>): (c: CodeUnit)
    ensures x.Some? && 0 <= x.value < 0x1_0000 ==> c as int == x.value
  {
    match x
    case None => 0
    case Some(v) => ToCodeUnit(v)
  }
}
