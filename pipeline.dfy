/** The composition the two command-line programs wire together: a secret text is compressed and
    packed into binary digits, embedded behind a 64-digit header, read back, unpacked and
    decompressed. `Main` uses `DecodeBinary` (header read with `Long.parseLong`) and
    `BinaryToText.convert`; `SteganographyApp` uses its `Decoder` (header read with
    `BigInteger.longValue`) and `TextBinary.fromBinary`. */
module Pipeline {
  import opened Outcomes
  import opened Binary
  import opened HuffmanCoding
  import opened TextBinary
  import opened EncodeBinary
  import opened DecodeBinary
  import WebTextBinary

  /** When each of the first k 8-digit groups of msg is printable, all k are counted. */
  lemma {:induction false} AllPrintable(msg: Text, k: nat)
    requires 8 * k <= |msg|
    requires forall i | 0 <= i < k :: IsPrintable(Value(msg[8 * i..8 * i + 8]))
    ensures Printable(msg, k) == k
  {
    if k > 0 {
      AllPrintable(msg, k - 1);
      var j := k - 1;
      assert msg[8 * (k - 1)..8 * k] == msg[8 * j..8 * j + 8];
    }
  }

  /** A string of '0', '1' and '|' packs into bytes that are all printable: the first k of them
      count k printable bytes. */
  lemma PackedPrintable(h: Text, k: nat)
    requires forall i | 0 <= i < |h| :: h[i] == Bit0 || h[i] == Bit1 || h[i] == Bar
    requires k <= |h|
    ensures 8 * k <= |Pack(h)|
    ensures Printable(Pack(h), k) == k
  {
    assert IsBytes(h);
    PackLength(h);
    forall i | 0 <= i < k
      ensures IsPrintable(Value(Pack(h)[8 * i..8 * i + 8]))
    {
      PackedByte(h, i);
    }
    AllPrintable(Pack(h), k);
  }

  /** Group i of a packed string of '0', '1' and '|' is the code of one of those three, which are
      printable. */
  lemma PackedByte(h: Text, i: nat)
    requires forall j | 0 <= j < |h| :: h[j] == Bit0 || h[j] == Bit1 || h[j] == Bar
    requires i < |h|
    ensures 8 * i + 8 <= |Pack(h)| && IsPrintable(Value(Pack(h)[8 * i..8 * i + 8]))
  {
    assert IsBytes(h);
    PackGroup(h, i);
    var c := h[i];
    assert c == Bit0 || c == Bit1 || c == Bar;
    assert Value(ByteDigits(c as nat)) == c as nat;
  }

  /** Whatever the text and the tree, the packed compressed form passes the 70% printable
      filter: each of its bytes is '0', '1' or '|'. */
  lemma CompressedPrintable(root: Node, text: Text)
    requires text == [] || HuffmanTree(root, text)
    ensures MostlyPrintable(Pack(CompressWith(root, text)))
  {
    var h := CompressWith(root, text);
    CompressedAlphabet(root, text);
    CompressedBytes(root, text);
    PackLength(h);
    var checked := Min(|Pack(h)| / 8, 50);
    PackedPrintable(h, checked);
  }

  /** The packed compressed form is a positive, whole number of bytes of binary digits. */
  lemma PackedPayload(root: Node, text: Text)
    requires text == [] || HuffmanTree(root, text)
    ensures var b := Pack(CompressWith(root, text));
      IsBits(b) && 0 < |b| && |b| % 8 == 0 && |b| == 8 * |CompressWith(root, text)|
  {
    var h := CompressWith(root, text);
    CompressedAlphabet(root, text);
    assert Bar in h;
    PackedLength(root, text);
    PackBits(h);
    WebTextBinary.EightGroups(|h|);
  }

  /** The end-to-end theorem of both command-line programs: for a text of 8-bit characters whose
      packed compressed form fits in half of what the grid holds after the 64-digit header (and,
      with the header, in a Java string), encoding it into any grid and decoding that grid gives
      the packed form back, with either header reader, and unpacking it gives the text back,
      with either reader of the packed form. */
  lemma SecretRoundTrip(pixels: seq<bv32>, root: Node, text: Text, reader: HeaderReader)
    requires IsBytes(text)
    requires text == [] || HuffmanTree(root, text)
    requires 8 * |CompressWith(root, text)| <= (3 * |pixels| - 64) / 2
    requires 64 + 8 * |CompressWith(root, text)| <= IntMax
    ensures var b := Pack(CompressWith(root, text));
      && EncodeSpec(pixels, b, 64).Ok?
      && DecodeSpec(EncodeSpec(pixels, b, 64).value, 64, reader) == Ok(b)
      && ToTextSpec(b) == Ok(text)
      && FromBinarySpec(b) == Ok(text)
  {
    var b := Pack(CompressWith(root, text));
    PackedPayload(root, text);
    CompressedPrintable(root, text);
    assert 64 + 2 * |b| <= 3 * |pixels|;
    DecodeEncoded(pixels, b, 64, reader);
    TextRoundTrip(root, text);
  }
}
