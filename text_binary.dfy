/** The byte layer between the Huffman codec and the pixels: `TextToBinary.convert` writes each
    character of the compressed text as eight binary digits, and `BinaryToText.convert` reads
    the groups back and decompresses. `SteganographyApp.TextBinary` is the same pair, except that
    `fromBinary` lets a parse failure escape instead of folding it into the uniform error. */
module TextBinary {
  import opened Outcomes
  import opened Binary
  import opened HuffmanCoding

  /** Every character of h as `ByteDigits` of its code, in order. */
  function Pack(h: Text): Text {
    if h == [] then [] else Pack(h[..|h| - 1]) + ByteDigits(h[|h| - 1] as nat)
  }

  /** Packing writes binary digits only. */
  lemma {:induction false} PackBits(h: Text)
    ensures IsBits(Pack(h))
  {
    if h != [] {
      PackBits(h[..|h| - 1]);
      BitsConcat(Pack(h[..|h| - 1]), ByteDigits(h[|h| - 1] as nat));
    }
  }

  lemma BitsConcat(a: Text, b: Text)
    requires IsBits(a) && IsBits(b)
    ensures IsBits(a + b)
  {
  }

  /** An 8-bit character takes exactly eight digits. */
  lemma {:induction false} PackLength(h: Text)
    requires IsBytes(h)
    ensures |Pack(h)| == 8 * |h|
  {
    if h != [] {
      assert IsBytes(h[..|h| - 1]);
      PackLength(h[..|h| - 1]);
    }
  }

  /** The i-th group of eight digits spells the i-th character's code. */
  lemma {:induction false} PackGroup(h: Text, i: nat)
    requires IsBytes(h) && i < |h|
    ensures |Pack(h)| == 8 * |h|
    ensures Pack(h)[8 * i..8 * i + 8] == ByteDigits(h[i] as nat)
  {
    PackLength(h);
    var n := |h| - 1;
    var init := h[..n];
    assert IsBytes(init);
    PackLength(init);
    var p, last := Pack(init), ByteDigits(h[n] as nat);
    assert Pack(h) == p + last;
    if i < n {
      PackGroup(init, i);
      assert init[i] == h[i];
      PrefixSlice(p, last, 8 * i, 8 * i + 8);
    } else {
      assert i == n;
      LastGroup(p, last, i);
    }
  }

  lemma LastGroup(a: Text, b: Text, i: nat)
    requires |a| == 8 * i && |b| == 8
    ensures (a + b)[8 * i..8 * i + 8] == b
  {
  }

  lemma PrefixSlice(a: Text, b: Text, i: nat, j: nat)
    requires i <= j <= |a|
    ensures (a + b)[i..j] == a[i..j]
  {
  }

  /** The characters rebuilt from the n groups of b by `Integer.parseInt(group, 2)` and a
      `(char)` cast. A group that does not parse is the NumberFormatException. */
  function Unpack(b: Text, n: nat): (r: Result<Text>)
    requires |b| == 8 * n
    ensures r.Ok? ==> |r.value| == n
    ensures r.Thrown? ==> r.fault == NumberFormat
  {
    if n == 0 then Ok([])
    else
      match Unpack(b[..8 * (n - 1)], n - 1)
      case Thrown(e) => Thrown(e)
      case Ok(h) =>
        match ParseInt(b[8 * (n - 1)..])
        case None => Thrown(NumberFormat)
        case Some(v) => Ok(h + [ToCodeUnit(v)])
  }

  /** Reading the groups back gives the packed characters, for 8-bit characters. */
  lemma {:induction false} UnpackPack(h: Text)
    requires IsBytes(h)
    ensures |Pack(h)| == 8 * |h| && Unpack(Pack(h), |h|) == Ok(h)
  {
    PackLength(h);
    if h != [] {
      var n := |h| - 1;
      var init, last := h[..n], h[n];
      assert IsBytes(init);
      PackLength(init);
      var p, digits := Pack(init), ByteDigits(last as nat);
      assert Pack(h) == p + digits;
      Halves(p, digits);
      UnpackPack(init);
      ParseByteDigits(last as nat);
      assert Unpack(Pack(h), |h|) == Ok(init + [last]);
      SplitLast(h);
    }
  }

  lemma Halves(a: Text, b: Text)
    ensures (a + b)[..|a|] == a && (a + b)[|a|..] == b
  {
  }

  lemma SplitLast(h: Text)
    requires h != []
    ensures h[..|h| - 1] + [h[|h| - 1]] == h
  {
  }

  /** One more group read: the loop step of `UnpackLoop`. */
  lemma UnpackStep(b: Text, k: nat, h: Text, v: Option<int>)
    requires 8 * (k + 1) <= |b|
    requires Unpack(b[..8 * k], k) == Ok(h)
    requires v == ParseInt(b[8 * k..8 * (k + 1)])
    ensures v.None? ==> Unpack(b[..8 * (k + 1)], k + 1).Thrown?
    ensures v.Some? ==> Unpack(b[..8 * (k + 1)], k + 1) == Ok(h + [ToCodeUnit(v.value)])
  {
    var prefix := b[..8 * (k + 1)];
    assert prefix[..8 * k] == b[..8 * k] && prefix[8 * k..] == b[8 * k..8 * (k + 1)];
  }

  /** Once a prefix of whole groups fails to parse, the whole input does. */
  lemma {:induction false} UnpackPrefixThrown(b: Text, n: nat, k: nat)
    requires |b| == 8 * n && k <= n
    requires Unpack(b[..8 * k], k).Thrown?
    ensures Unpack(b, n).Thrown?
  {
    if k < n {
      var init := b[..8 * (n - 1)];
      assert init[..8 * k] == b[..8 * k];
      UnpackPrefixThrown(init, n - 1, k);
    } else {
      assert b[..8 * k] == b;
    }
  }

  /** `BinaryToText.convert(b)`: a length that is not a multiple of eight, a group that does not
      parse, and every exception of `decompress` all end in the one "There is no hidden
      message" error. */
  function ToTextSpec(b: Text): (r: Result<Text>)
    ensures r.Thrown? ==> r.fault == NoHiddenMessage
    ensures |b| % 8 != 0 ==> r.Thrown?
    ensures b == [] ==> r == Ok([])
  {
    if |b| % 8 != 0 then Thrown(NoHiddenMessage)
    else
      match Unpack(b, |b| / 8)
      case Thrown(_) => Thrown(NoHiddenMessage)
      case Ok(h) =>
        match DecompressSpec(h)
        case Thrown(_) => Thrown(NoHiddenMessage)
        case Ok(t) => Ok(t)
  }

  /** `TextBinary.fromBinary(b)`: only the length check raises the uniform error; a parse
      failure or an exception of `decompress` escapes as it is. */
  function FromBinarySpec(b: Text): (r: Result<Text>)
    ensures |b| % 8 != 0 ==> r == Thrown(NoHiddenMessage)
  {
    if |b| % 8 != 0 then Thrown(NoHiddenMessage)
    else
      match Unpack(b, |b| / 8)
      case Thrown(e) => Thrown(e)
      case Ok(h) => DecompressSpec(h)
  }

  /** The two readers accept the same inputs and return the same text; they differ only in
      which exception a rejected input raises. */
  lemma FromBinaryAgrees(b: Text)
    ensures FromBinarySpec(b).Ok? <==> ToTextSpec(b).Ok?
    ensures FromBinarySpec(b).Ok? ==> FromBinarySpec(b).value == ToTextSpec(b).value
    ensures |b| % 8 == 0 && Unpack(b, |b| / 8).Thrown? ==> FromBinarySpec(b) == Thrown(NumberFormat)
  {
  }

  /** The compressed form of any text has only 8-bit characters ('0', '1' and '|'). */
  lemma CompressedBytes(root: Node, text: Text)
    requires text == [] || HuffmanTree(root, text)
    ensures IsBytes(CompressWith(root, text))
  {
    CompressedAlphabet(root, text);
  }

  /** The packed form of a text is eight binary digits per compressed character. */
  lemma PackedLength(root: Node, text: Text)
    requires text == [] || HuffmanTree(root, text)
    ensures |Pack(CompressWith(root, text))| == 8 * |CompressWith(root, text)|
  {
    CompressedBytes(root, text);
    PackLength(CompressWith(root, text));
  }

  /** The empty text packs to "01111100", the code of the '|' sentinel. */
  lemma PackedEmpty(root: Node)
    ensures Pack(CompressWith(root, [])) == [Bit0, Bit1, Bit1, Bit1, Bit1, Bit1, Bit0, Bit0]
  {
    assert CompressWith(root, []) == [Bar];
    assert BinaryString(3) == [Bit1, Bit1];
    assert BinaryString(7) == [Bit1, Bit1, Bit1];
    assert BinaryString(15) == [Bit1, Bit1, Bit1, Bit1];
    assert BinaryString(31) == [Bit1, Bit1, Bit1, Bit1, Bit1];
    assert BinaryString(62) == [Bit1, Bit1, Bit1, Bit1, Bit1, Bit0];
    assert BinaryString(124) == [Bit1, Bit1, Bit1, Bit1, Bit1, Bit0, Bit0];
    assert Pack([Bar]) == Pack([]) + ByteDigits(124);
  }

  /** `BinaryToText.convert(TextToBinary.convert(t)) == t` and the same for `fromBinary`, for
      every text of 8-bit characters and every Huffman tree the queue may have built. */
  lemma TextRoundTrip(root: Node, text: Text)
    requires IsBytes(text)
    requires text == [] || HuffmanTree(root, text)
    ensures ToTextSpec(Pack(CompressWith(root, text))) == Ok(text)
    ensures FromBinarySpec(Pack(CompressWith(root, text))) == Ok(text)
  {
    var h := CompressWith(root, text);
    CompressedBytes(root, text);
    var b := Pack(h);
    UnpackPack(h);
    assert |b| % 8 == 0 && |b| / 8 == |h|;
    CompressRoundTrip(root, text);
    assert Unpack(b, |b| / 8) == Ok(h) && DecompressSpec(h) == Ok(text);
  }

  // ---------------------------------------------------------------------------------------
  // The loops

  /** The digit-appending loop of `TextToBinary.convert`. */
  method PackLoop(h: Text) returns (b: Text)
    ensures b == Pack(h)
  {
    b := [];
    for i := 0 to |h|
      invariant b == Pack(h[..i])
    {
      assert h[..i + 1][..i] == h[..i];
      b := b + ByteDigits(h[i] as nat);
    }
    assert h[..|h|] == h;
  }

  /** `TextToBinary.convert(text)` and `TextBinary.toBinary(text)`: compress, then pack. The
      ghost `root` is the tree the compressor built. */
  method ToBinary(text: Text) returns (b: Text, ghost root: Node)
    ensures text != [] ==> HuffmanTree(root, text)
    ensures b == Pack(CompressWith(root, text))
  {
    var h;
    h, root := Compress(text);
    b := PackLoop(h);
  }

  /** The group-reading loop shared by `BinaryToText.convert` and `TextBinary.fromBinary`. */
  method UnpackLoop(b: Text, ghost n: nat) returns (r: Result<Text>)
    requires |b| == 8 * n
    ensures r == Unpack(b, n)
  {
    var h: Text := [];
    var i := 0;
    ghost var k := 0;
    assert b[..0] == [];
    while i < |b|
      invariant i == 8 * k && k <= n
      invariant Unpack(b[..8 * k], k) == Ok(h)
    {
      var v := ReadGroup(b, i, k, n, h);
      if v.None? {
        UnpackPrefixThrown(b, n, k + 1);
        return Thrown(NumberFormat);
      }
      h := h + [ToCodeUnit(v.value)];
      i, k := i + 8, k + 1;
    }
    assert k == n && b[..8 * k] == b;
    return Ok(h);
  }

  /** One pass of that loop: `Integer.parseInt(binary.substring(i, i + 8), 2)` on group k. */
  method ReadGroup(b: Text, i: nat, ghost k: nat, ghost n: nat, ghost h: Text) returns (v: Option<int>)
    requires i == 8 * k && k < n && |b| == 8 * n
    requires Unpack(b[..8 * k], k) == Ok(h)
    ensures v == ParseInt(b[8 * k..8 * (k + 1)])
    ensures v.None? ==> Unpack(b[..8 * (k + 1)], k + 1).Thrown?
    ensures v.Some? ==> Unpack(b[..8 * (k + 1)], k + 1) == Ok(h + [ToCodeUnit(v.value)])
  {
    v := ParseInt(b[i..i + 8]);
    UnpackStep(b, k, h, v);
  }

  /** `BinaryToText.convert(b)`. */
  method ToText(b: Text) returns (r: Result<Text>)
    ensures r == ToTextSpec(b)
  {
    if |b| % 8 != 0 {
      return Thrown(NoHiddenMessage);
    }
    var h := UnpackLoop(b, |b| / 8);
    if h.Thrown? {
      return Thrown(NoHiddenMessage);
    }
    var t := Decompress(h.value);
    if t.Thrown? {
      return Thrown(NoHiddenMessage);
    }
    return t;
  }

  /** `TextBinary.fromBinary(b)`. */
  method FromBinary(b: Text) returns (r: Result<Text>)
    ensures r == FromBinarySpec(b)
  {
    if |b| % 8 != 0 {
      return Thrown(NoHiddenMessage);
    }
    var h := UnpackLoop(b, |b| / 8);
    if h.Thrown? {
      return h;
    }
    r := Decompress(h.value);
  }
}
