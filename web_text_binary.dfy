/** The browser port's text/binary converter, `textToBinaryWithHuffman` and
    `binaryToTextWithHuffman`: the compressed form of `huffmanCompress` spelled as eight binary
    digits per character, and back. Unlike the Java readers, a group that does not parse does
    not raise an error: `parseInt` gives NaN and `String.fromCharCode(NaN)` the character 0. */
module WebTextBinary {
  import opened Outcomes
  import opened Binary
  import opened HuffmanCoding
  import opened TextBinary
  import opened WebHuffman

  /** The characters the grouping loop rebuilds from n groups of eight digits: each group read by
      `parseInt(group, 2)` and turned into a character by `String.fromCharCode`. */
  function JsUnpack(b: Text, n: nat): (h: Text)
    requires |b| == 8 * n
    ensures |h| == n
  {
    seq(n, i requires 0 <= i < n => FromCharCode(JsParseInt(b[8 * i..8 * i + 8])))
  }

  /** `binaryToTextWithHuffman(b)`: a length that is not a multiple of eight is the "Invalid
      binary format" error; otherwise the rebuilt characters go to `huffmanDecompress`. */
  function JsFromBinarySpec(b: Text): (r: Result<Text>) {
    if |b| % 8 != 0 then Thrown(InvalidBinaryFormat)
    else JsDecompressSpec(JsUnpack(b, |b| / 8))
  }

  /** The length check is the only error: decompression itself never throws. */
  lemma JsFromBinaryFaults(b: Text)
    ensures JsFromBinarySpec(b).Thrown? <==> |b| % 8 != 0
    ensures JsFromBinarySpec(b).Thrown? ==> JsFromBinarySpec(b).fault == InvalidBinaryFormat
  {
    if |b| % 8 == 0 {
      JsDecompressTotal(JsUnpack(b, |b| / 8));
    }
  }

  /** Reading the groups of a packed text of 8-bit characters gives the text back. */
  lemma JsUnpackPack(h: Text)
    requires IsBytes(h)
    ensures |Pack(h)| == 8 * |h| && JsUnpack(Pack(h), |h|) == h
  {
    PackLength(h);
    forall i | 0 <= i < |h| ensures JsUnpack(Pack(h), |h|)[i] == h[i] {
      JsUnpackAt(h, i);
    }
  }

  lemma JsUnpackAt(h: Text, i: nat)
    requires IsBytes(h) && i < |h| && |Pack(h)| == 8 * |h|
    ensures JsUnpack(Pack(h), |h|)[i] == h[i]
  {
    PackGroup(h, i);
    JsParseIntBits(ByteDigits(h[i] as nat));
    assert FromCharCode(Some(h[i] as int)) == h[i];
  }

  /** The compressed form of a text of 8-bit characters has only 8-bit characters. */
  lemma JsCompressedBytes(root: Node, text: Text)
    requires IsBytes(text) && (text == [] || HuffmanTree(root, text))
    ensures IsBytes(JsCompressWith(root, text))
  {
    if text != [] {
      JsCompressedLayout(root, text);
      BytesThenDigits(JsCompressWith(root, text), 4);
    }
  }

  lemma BytesThenDigits(s: Text, k: nat)
    requires k <= |s| && IsBytes(s[..k]) && IsBits(s[k..])
    ensures IsBytes(s)
  {
    forall i | 0 <= i < |s| ensures s[i] < 256 {
      if i >= k {
        assert s[i] == s[k..][i - k];
      } else {
        assert s[i] == s[..k][i];
      }
    }
  }

  lemma EightGroups(n: nat)
    ensures (8 * n) % 8 == 0 && (8 * n) / 8 == n
  {
  }

  lemma TakeOneMore(s: Text, k: nat)
    requires k < |s|
    ensures s[..k] + [s[k]] == s[..k + 1]
  {
  }

  /** `binaryToTextWithHuffman(textToBinaryWithHuffman(t)) == t` for every text of 8-bit
      characters, whichever Huffman tree the compressor used. */
  lemma JsTextRoundTrip(root: Node, text: Text)
    requires IsBytes(text)
    requires text == [] || HuffmanTree(root, text)
    ensures JsFromBinarySpec(Pack(JsCompressWith(root, text))) == Ok(text)
  {
    var h := JsCompressWith(root, text);
    JsCompressedBytes(root, text);
    JsUnpackPack(h);
    var b := Pack(h);
    EightGroups(|h|);
    assert JsFromBinarySpec(b) == JsDecompressSpec(JsUnpack(b, |h|));
    JsRoundTrip(root, text);
  }

  /** `textToBinaryWithHuffman(text)`: compress, then spell every character in eight digits. */
  method JsToBinary(text: Text) returns (b: Text)
    ensures text == [] ==> b == Pack([0, 0, 0, 0])
    ensures text != [] ==> HuffmanTree(JsTree(text), text) && b == Pack(JsCompressWith(JsTree(text), text))
  {
    var h := JsCompress(text);
    b := PackLoop(h);
  }

  /** The grouping loop of `binaryToTextWithHuffman`. */
  method JsUnpackLoop(b: Text, ghost n: nat) returns (h: Text)
    requires |b| == 8 * n
    ensures h == JsUnpack(b, n)
  {
    h := [];
    var i := 0;
    ghost var k := 0;
    while i < |b|
      invariant i == 8 * k && k <= n
      invariant h == JsUnpack(b, n)[..k]
    {
      var c := JsReadGroup(b, i, k, n);
      h := h + [c];
      i, k := i + 8, k + 1;
    }
    assert k == n;
  }

  /** One pass of that loop: `String.fromCharCode(parseInt(binary.substring(i, i + 8), 2))` on
      group k, which extends the characters read so far by one. */
  method JsReadGroup(b: Text, i: nat, ghost k: nat, ghost n: nat) returns (c: CodeUnit)
    requires i == 8 * k && k < n && |b| == 8 * n
    ensures JsUnpack(b, n)[..k] + [c] == JsUnpack(b, n)[..k + 1]
  {
    c := FromCharCode(JsParseInt(b[i..i + 8]));
    assert c == JsUnpack(b, n)[k];
    TakeOneMore(JsUnpack(b, n), k);
  }

  /** `binaryToTextWithHuffman(b)`. */
  method JsFromBinary(b: Text) returns (r: Result<Text>)
    ensures r == JsFromBinarySpec(b)
  {
    if |b| % 8 != 0 {
      return Thrown(InvalidBinaryFormat);
    }
    var h := JsUnpackLoop(b, |b| / 8);
    r := JsDecompress(h);
  }
}
