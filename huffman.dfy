/** The Huffman layer of HuffmanCoding.java. The nested `Huffman` class of
    Short/SteganographyApp.java is the same procedure line for line and is modelled by these
    members too.

    `compress` writes the serialised coding tree, a '|' and the code of every character of the
    text; `decompress` splits at the first '|', rebuilds the tree with a moving cursor and walks
    it digit by digit. The main theorem, `CompressRoundTrip`, holds for every tree the merge loop
    can build, whatever order the priority queue breaks ties in. */
module HuffmanCoding {
  import opened Outcomes
  import opened Binary

  /** `HuffmanCoding.Node` with its possibly-null children (`Nil` is Java's null). A node whose
      two children are null is a leaf. The frequency field is kept beside the node while the
      tree is built (`Weighted`); the finished tree never reads it. */
  datatype Node = Nil | Node(ch: CodeUnit, left: Node, right: Node)

  /** A node of the build queue: a subtree and its frequency. */
  datatype Weighted = Weighted(freq: nat, node: Node)

  predicate IsLeaf(n: Node) {
    n.Node? && n.left == Nil && n.right == Nil
  }

  /** A tree as `compress` builds it: every internal node has two children and the label '\0'. */
  predicate Full(n: Node) {
    n.Node? && (IsLeaf(n) || (n.ch == 0 && Full(n.left) && Full(n.right)))
  }

  /** The leaf labels from left to right. */
  function LeafList(n: Node): seq<CodeUnit> {
    match n
    case Nil => []
    case Node(c, l, r) => if l == Nil && r == Nil then [c] else LeafList(l) + LeafList(r)
  }

  /** How many leaves of n carry the character c. */
  function Occ(n: Node, c: CodeUnit): nat {
    match n
    case Nil => 0
    case Node(d, l, r) => if l == Nil && r == Nil then (if d == c then 1 else 0) else Occ(l, c) + Occ(r, c)
  }

  lemma {:induction false} OccLeafList(n: Node, c: CodeUnit)
    ensures Occ(n, c) > 0 <==> c in LeafList(n)
  {
    match n
    case Nil =>
    case Node(d, l, r) =>
      if !(l == Nil && r == Nil) {
        OccLeafList(l, c);
        OccLeafList(r, c);
      }
  }

  /** The tree `compress` hands to `serialize`: full, and its leaves are the distinct characters
      of the text, each exactly once. */
  ghost predicate HuffmanTree(root: Node, text: Text) {
    Full(root) && forall c :: Occ(root, c) == (if c in text then 1 else 0)
  }

  /** The leaves of a Huffman tree are exactly the characters of its text. */
  lemma HuffmanTreeLeaves(root: Node, text: Text)
    requires HuffmanTree(root, text)
    ensures forall c :: c in LeafList(root) <==> c in text
  {
    forall c ensures c in LeafList(root) <==> c in text {
      OccLeafList(root, c);
    }
  }

  /** A Huffman tree of a text of 8-bit characters has 8-bit leaves. */
  lemma HuffmanTreeBytes(root: Node, text: Text)
    requires HuffmanTree(root, text) && IsBytes(text)
    ensures IsBytes(LeafList(root))
  {
    var leaves := LeafList(root);
    forall i | 0 <= i < |leaves| ensures leaves[i] < 256 {
      var c := leaves[i];
      OccLeafList(root, c);
      assert c in text;
      var j :| 0 <= j < |text| && text[j] == c;
    }
  }

  // ---------------------------------------------------------------------------------------
  // serialize / deserialize

  /** `serialize(n)`: pre-order, a leaf as '1' and the eight-digit code of its character, an
      internal node as '0' followed by its two subtrees. */
  function Serialize(n: Node): (s: Text)
    requires Full(n)
    ensures s != []
  {
    if n.left == Nil then [Bit1] + ByteDigits(n.ch as nat)
    else [Bit0] + Serialize(n.left) + Serialize(n.right)
  }

  /** The serialised tree is made of binary digits only. */
  lemma {:induction false} SerializeBits(n: Node)
    requires Full(n)
    ensures IsBits(Serialize(n))
  {
    if !IsLeaf(n) {
      SerializeBits(n.left);
      SerializeBits(n.right);
    }
  }

  lemma BytesSplit(a: Text, b: Text)
    requires IsBytes(a + b)
    ensures IsBytes(a) && IsBytes(b)
  {
    forall i | 0 <= i < |a| ensures a[i] < 256 {
      assert (a + b)[i] == a[i];
    }
    forall i | 0 <= i < |b| ensures b[i] < 256 {
      assert (a + b)[|a| + i] == b[i];
    }
  }

  /** The leaves of the two subtrees of a byte-labelled tree are byte-labelled too. */
  lemma SubtreeBytes(n: Node)
    requires Full(n) && !IsLeaf(n) && IsBytes(LeafList(n))
    ensures IsBytes(LeafList(n.left)) && IsBytes(LeafList(n.right))
  {
    BytesSplit(LeafList(n.left), LeafList(n.right));
  }

  /** A full tree with k byte-valued leaves serialises to 10k - 1 digits. */
  lemma {:induction false} SerializedLength(n: Node)
    requires Full(n) && IsBytes(LeafList(n))
    ensures |Serialize(n)| == 10 * |LeafList(n)| - 1
  {
    if IsLeaf(n) {
      assert LeafList(n)[0] == n.ch;
    } else {
      assert LeafList(n) == LeafList(n.left) + LeafList(n.right);
      SubtreeBytes(n);
      SerializedLength(n.left);
      SerializedLength(n.right);
    }
  }

  /** `deserialize(data, pos)`. The shared `int[] pos` cursor is modelled by threading the part
      of the input not read yet: the second component of the result is what lies after the
      cursor once the subtree is read. A tag other than '1' is read as an internal node; running
      out of input gives a null child, and a leaf whose eight digits are cut short is the
      StringIndexOutOfBoundsException of `substring`. */
  function Deserialize(s: Text): (r: Result<(Node, Text)>)
    ensures r.Ok? ==> |r.value.1| <= |s|
    decreases |s|
  {
    if s == [] then Ok((Nil, s))
    else if s[0] == Bit1 then
      if |s| < 9 then Thrown(IndexOutOfBounds)
      else
        match ParseInt(s[1..9])
        case None => Thrown(NumberFormat)
        case Some(v) => Ok((Node(ToCodeUnit(v), Nil, Nil), s[9..]))
    else
      match Deserialize(s[1..])
      case Thrown(e) => Thrown(e)
      case Ok(l) =>
        match Deserialize(l.1)
        case Thrown(e) => Thrown(e)
        case Ok(r) => Ok((Node(0, l.0, r.0), r.1))
  }

  /** Deserialising a serialised tree, whatever follows it, rebuilds the tree and stops just
      after it. */
  lemma {:induction false} DeserializeSerialize(t: Node, rest: Text)
    requires Full(t) && IsBytes(LeafList(t))
    ensures Deserialize(Serialize(t) + rest) == Ok((t, rest))
  {
    if IsLeaf(t) {
      assert LeafList(t)[0] == t.ch;
      assert Serialize(t) == [Bit1] + ByteDigits(t.ch as nat);
      DeserializeLeaf(t.ch, rest);
    } else {
      var sl, sr := Serialize(t.left), Serialize(t.right);
      assert Serialize(t) == [Bit0] + sl + sr;
      TagThenTwo(Bit0, sl, sr, rest);
      SubtreeBytes(t);
      DeserializeSerialize(t.left, sr + rest);
      DeserializeSerialize(t.right, rest);
    }
  }

  lemma TagThenTwo(x: CodeUnit, a: Text, b: Text, rest: Text)
    ensures var s := [x] + a + b + rest; s != [] && s[0] == x && s[1..] == a + (b + rest)
  {
    var s := [x] + a + b + rest;
    assert s[1..] == a + (b + rest);
  }

  lemma DeserializeLeaf(c: CodeUnit, rest: Text)
    requires c < 256
    ensures Deserialize([Bit1] + ByteDigits(c as nat) + rest) == Ok((Node(c, Nil, Nil), rest))
  {
    var digits := ByteDigits(c as nat);
    var s := [Bit1] + digits + rest;
    TagThenGroup(Bit1, digits, rest);
    ParseByteDigits(c as nat);
    assert ParseInt(s[1..9]) == Some(c as int);
    assert ToCodeUnit(c as int) == c;
  }

  lemma TagThenGroup(x: CodeUnit, group: Text, rest: Text)
    requires |group| == 8
    ensures var s := [x] + group + rest; |s| >= 9 && s[0] == x && s[1..9] == group && s[9..] == rest
  {
    var s := [x] + group + rest;
    assert s[1..9] == group;
    assert s[9..] == rest;
  }

  // ---------------------------------------------------------------------------------------
  // generateCodes and the decoding walk

  /** The child a payload digit selects: '0' the left one, any other character the right one. */
  function Child(n: Node, bit: CodeUnit): Node
    requires n.Node?
  {
    if bit == Bit0 then n.left else n.right
  }

  /** Following the digits of p from n ends on a leaf labelled c, passing no leaf before. */
  predicate PathTo(n: Node, p: Text, c: CodeUnit)
    decreases |p|
  {
    n.Node? &&
    if p == [] then IsLeaf(n) && n.ch == c
    else !IsLeaf(n) && PathTo(Child(n, p[0]), p[1..], c)
  }

  /** `generateCodes(n, code, codes)`: the map it fills is threaded through and returned. */
  function GenerateCodes(n: Node, code: Text, codes: map<CodeUnit, Text>): map<CodeUnit, Text> {
    match n
    case Nil => codes
    case Node(c, l, r) =>
      if l == Nil && r == Nil then codes[c := if code == [] then [Bit0] else code]
      else GenerateCodes(r, code + [Bit1], GenerateCodes(l, code + [Bit0], codes))
  }

  /** Below a prefix `code`, `generateCodes` gives every leaf of n the digits of its path from n,
      adds exactly the leaves of n to the map and leaves the other entries alone. */
  lemma {:induction false} GenerateCodesPaths(n: Node, code: Text, codes: map<CodeUnit, Text>)
    requires Full(n) && (code != [] || !IsLeaf(n))
    ensures var m := GenerateCodes(n, code, codes);
      && (forall c :: c in m <==> c in codes || c in LeafList(n))
      && (forall c | c in LeafList(n) ::
            |code| <= |m[c]| && m[c][..|code|] == code && PathTo(n, m[c][|code|..], c))
      && (forall c | c in codes && c !in LeafList(n) :: m[c] == codes[c])
  {
    if !IsLeaf(n) {
      var l, r := n.left, n.right;
      var cl, cr := code + [Bit0], code + [Bit1];
      GenerateCodesPaths(l, cl, codes);
      var m1 := GenerateCodes(l, cl, codes);
      GenerateCodesPaths(r, cr, m1);
      var m := GenerateCodes(r, cr, m1);
      assert LeafList(n) == LeafList(l) + LeafList(r);
      forall c | c in LeafList(n)
        ensures |code| <= |m[c]| && m[c][..|code|] == code && PathTo(n, m[c][|code|..], c)
      {
        var sub, p := if c in LeafList(r) then r else l, if c in LeafList(r) then cr else cl;
        assert m[c][..|p|] == p && PathTo(sub, m[c][|p|..], c);
        assert m[c][..|code|] == p[..|code|] == code;
        var q := m[c][|code|..];
        assert q[0] == p[|code|] && q[1..] == m[c][|p|..];
        assert Child(n, q[0]) == sub;
      }
    }
  }

  /** The codes of a tree with at least two leaves form a prefix-free code: every code is a
      non-empty path, and two different characters never have one code a prefix of the other. */
  lemma {:induction false} PathsPrefixFree(n: Node, p: Text, q: Text, c: CodeUnit, d: CodeUnit)
    requires PathTo(n, p, c) && PathTo(n, q, d)
    requires |p| <= |q| && q[..|p|] == p
    ensures p == q && c == d
    decreases |p|
  {
    if p != [] {
      assert q != [] && q[0] == p[0];
      assert q[1..][..|p| - 1] == p[1..];
      PathsPrefixFree(Child(n, p[0]), p[1..], q[1..], c, d);
    }
  }

  lemma CodesPrefixFree(root: Node, c: CodeUnit, d: CodeUnit)
    requires Full(root) && !IsLeaf(root)
    requires c in LeafList(root) && d in LeafList(root) && c != d
    ensures var codes := GenerateCodes(root, [], map[]);
      && c in codes && d in codes && codes[c] != [] && codes[d] != []
      && !(|codes[c]| <= |codes[d]| && codes[d][..|codes[c]|] == codes[c])
  {
    var codes := GenerateCodes(root, [], map[]);
    GenerateCodesPaths(root, [], map[]);
    assert codes[c][0..] == codes[c] && codes[d][0..] == codes[d];
    if |codes[c]| <= |codes[d]| && codes[d][..|codes[c]|] == codes[c] {
      PathsPrefixFree(root, codes[c], codes[d], c, d);
    }
  }

  function Prepend(c: CodeUnit, r: Result<Text>): Result<Text> {
    match r
    case Ok(s) => Ok([c] + s)
    case Thrown(e) => Thrown(e)
  }

  /** The digit loop of `decompress` from node `cur`: step to the child each digit selects, emit
      the label of every leaf reached and restart at the root. Stepping on from a null child is
      the NullPointerException; digits that end between leaves are dropped. */
  function Walk(root: Node, cur: Node, bits: Text): (r: Result<Text>)
    ensures r.Ok? ==> |r.value| <= |bits|
    decreases |bits|
  {
    if bits == [] then Ok([])
    else if cur == Nil then Thrown(NullPointer)
    else
      var next := Child(cur, bits[0]);
      if IsLeaf(next) then Prepend(next.ch, Walk(root, root, bits[1..]))
      else Walk(root, next, bits[1..])
  }

  /** Walking the digits of a path emits the leaf it ends on and continues from the root. */
  lemma {:induction false} WalkPath(root: Node, sub: Node, p: Text, c: CodeUnit, rest: Text)
    requires PathTo(sub, p, c) && p != []
    ensures Walk(root, sub, p + rest) == Prepend(c, Walk(root, root, rest))
    decreases |p|
  {
    var bits := p + rest;
    assert bits[0] == p[0] && bits[1..] == p[1..] + rest;
    if p[1..] != [] {
      WalkPath(root, Child(sub, p[0]), p[1..], c, rest);
    } else {
      assert bits[1..] == rest;
    }
  }

  /** The payload `compress` appends: the code of each character of the text, in order. */
  function EncodeSymbols(codes: map<CodeUnit, Text>, text: Text): Text
    requires forall i | 0 <= i < |text| :: text[i] in codes
  {
    if text == [] then [] else EncodeSymbols(codes, text[..|text| - 1]) + codes[text[|text| - 1]]
  }

  lemma {:induction false} EncodeSymbolsFront(codes: map<CodeUnit, Text>, text: Text)
    requires text != [] && forall i | 0 <= i < |text| :: text[i] in codes
    ensures EncodeSymbols(codes, text) == codes[text[0]] + EncodeSymbols(codes, text[1..])
    decreases |text|
  {
    if |text| > 1 {
      var init := text[..|text| - 1];
      EncodeSymbolsFront(codes, init);
      assert init[1..] == text[1..][..|text[1..]| - 1];
    } else {
      assert text[1..] == [] && text[..0] == [];
    }
  }

  /** With a code table that maps every character of the text to its path, the walk decodes the
      concatenated codes back to the text. */
  lemma {:induction false} WalkEncoded(root: Node, codes: map<CodeUnit, Text>, text: Text)
    requires Full(root) && !IsLeaf(root)
    requires forall i | 0 <= i < |text| :: text[i] in codes && PathTo(root, codes[text[i]], text[i])
    ensures Walk(root, root, EncodeSymbols(codes, text)) == Ok(text)
    decreases |text|
  {
    if text != [] {
      EncodeSymbolsFront(codes, text);
      assert codes[text[0]] != [];
      WalkPath(root, root, codes[text[0]], text[0], EncodeSymbols(codes, text[1..]));
      WalkEncoded(root, codes, text[1..]);
      assert [text[0]] + text[1..] == text;
    }
  }

  // ---------------------------------------------------------------------------------------
  // compress / decompress

  /** The code table of `compress`: "0" for the one character of a single-leaf tree, otherwise
      what `generateCodes` fills in from the root. */
  function CodeTable(root: Node): map<CodeUnit, Text>
    requires Full(root)
  {
    if IsLeaf(root) then map[root.ch := [Bit0]] else GenerateCodes(root, [], map[])
  }

  /** Every character of a text whose Huffman tree is `root` has a code, and on a tree of two or
      more leaves that code is its path from the root. */
  lemma CodeTableCovers(root: Node, text: Text)
    requires text != [] && HuffmanTree(root, text)
    ensures forall i | 0 <= i < |text| :: text[i] in CodeTable(root)
    ensures !IsLeaf(root) ==>
      forall i | 0 <= i < |text| :: PathTo(root, CodeTable(root)[text[i]], text[i])
  {
    HuffmanTreeLeaves(root, text);
    if IsLeaf(root) {
      forall i | 0 <= i < |text| ensures text[i] == root.ch {
        assert Occ(root, text[i]) == 1;
      }
    } else {
      GenerateCodesPaths(root, [], map[]);
      forall i | 0 <= i < |text|
        ensures PathTo(root, CodeTable(root)[text[i]], text[i])
      {
        assert text[i] in LeafList(root);
        assert CodeTable(root)[text[i]][0..] == CodeTable(root)[text[i]];
      }
    }
  }

  /** The output of `compress` once its tree is built: "|" for the empty text, otherwise the
      serialised tree, '|' and the codes of the characters in order. */
  function CompressWith(root: Node, text: Text): Text
    requires text == [] || HuffmanTree(root, text)
  {
    if text == [] then [Bar]
    else
      CodeTableCovers(root, text);
      Serialize(root) + [Bar] + EncodeSymbols(CodeTable(root), text)
  }

  function Repeat(c: CodeUnit, n: nat): (s: Text)
    ensures |s| == n && forall i | 0 <= i < n :: s[i] == c
  {
    seq(n, _ => c)
  }

  /** The index of the first occurrence of c in s: where `data.split("\\|", 2)` cuts. */
  function FirstIndex(s: Text, c: CodeUnit): (r: Option<nat>)
    ensures r.None? <==> c !in s
    ensures r.Some? ==> r.value < |s| && s[r.value] == c && c !in s[..r.value]
  {
    if s == [] then None
    else if s[0] == c then Some(0)
    else
      match FirstIndex(s[1..], c)
      case None => None
      case Some(i) =>
        assert s[..i + 1] == [s[0]] + s[1..][..i];
        Some(i + 1)
  }

  lemma {:induction false} FirstIndexAt(s: Text, c: CodeUnit, k: nat)
    requires k < |s| && s[k] == c && c !in s[..k]
    ensures FirstIndex(s, c) == Some(k)
    decreases k
  {
    if k > 0 {
      assert s[0] == s[..k][0];
      assert s[1..][..k - 1] == s[..k][1..];
      FirstIndexAt(s[1..], c, k - 1);
    }
  }

  /** What `decompress(data)` returns or throws. The "|" sentinel and an input without a '|' give
      the empty text, and so does an empty tree part; a one-leaf tree repeats its character once
      per payload character, whatever that character is; otherwise the payload is walked. */
  function DecompressSpec(data: Text): (r: Result<Text>)
    ensures Bar !in data ==> r == Ok([])
    ensures data != [] && data[0] == Bar ==> r == Ok([])
    ensures r.Ok? ==> |r.value| <= |data|
  {
    if data == [Bar] then Ok([])
    else
      match FirstIndex(data, Bar)
      case None => Ok([])
      case Some(k) => DecodeParts(data[..k], data[k + 1..])
  }

  /** What `decompress` does once the input is split into the tree part and the payload. */
  function DecodeParts(tree: Text, payload: Text): (r: Result<Text>)
    ensures tree == [] ==> r == Ok([])
    ensures r.Ok? ==> |r.value| <= |payload|
  {
    match Deserialize(tree)
    case Thrown(e) => Thrown(e)
    case Ok(d) =>
      var root := d.0;
      if root == Nil then Ok([])
      else if IsLeaf(root) then Ok(Repeat(root.ch, |payload|))
      else Walk(root, root, payload)
  }

  /** The input splits at the '|' that ends the tree part. */
  lemma DecompressSplit(tree: Text, payload: Text)
    requires Bar !in tree
    ensures DecompressSpec(tree + [Bar] + payload) == DecodeParts(tree, payload)
  {
    var data := tree + [Bar] + payload;
    assert data[..|tree|] == tree && data[|tree|] == Bar && data[|tree| + 1..] == payload;
    FirstIndexAt(data, Bar, |tree|);
  }


  /** Every text of 8-bit characters comes back unchanged from its compressed form, for every
      Huffman tree of the text: the result does not depend on how the queue broke ties. */
  lemma CompressRoundTrip(root: Node, text: Text)
    requires IsBytes(text)
    requires text == [] || HuffmanTree(root, text)
    ensures DecompressSpec(CompressWith(root, text)) == Ok(text)
  {
    if text != [] {
      var tree := Serialize(root);
      CodeTableCovers(root, text);
      var payload := EncodeSymbols(CodeTable(root), text);
      var data := CompressWith(root, text);
      assert data == tree + [Bar] + payload;
      HuffmanTreeBytes(root, text);
      SerializeBits(root);
      assert Bar !in tree;
      DecompressSplit(tree, payload);
      DeserializeSerialize(root, []);
      assert tree + [] == tree;
      if IsLeaf(root) {
        forall i | 0 <= i < |text| ensures text[i] == root.ch {
          assert Occ(root, text[i]) == 1;
        }
        EncodeZeros(root.ch, text);
        assert Repeat(root.ch, |payload|) == text;
      } else {
        WalkEncoded(root, CodeTable(root), text);
      }
    }
  }

  lemma {:induction false} EncodeZeros(c: CodeUnit, text: Text)
    requires forall i | 0 <= i < |text| :: text[i] == c
    ensures EncodeSymbols(map[c := [Bit0]], text) == Repeat(Bit0, |text|)
    ensures |EncodeSymbols(map[c := [Bit0]], text)| == |text|
    decreases |text|
  {
    if text != [] {
      var init := text[..|text| - 1];
      EncodeZeros(c, init);
      assert Repeat(Bit0, |init|) + [Bit0] == Repeat(Bit0, |text|);
    }
  }

  /** Only '0', '1' and '|' occur in s, and '|' exactly once. */
  predicate DigitsAroundOneBar(s: Text) {
    && (forall i | 0 <= i < |s| :: s[i] == Bit0 || s[i] == Bit1 || s[i] == Bar)
    && Bar in s
    && (forall i, j | 0 <= i < |s| && 0 <= j < |s| && s[i] == Bar && s[j] == Bar :: i == j)
  }

  lemma JoinedByBar(a: Text, b: Text)
    requires IsBits(a) && IsBits(b)
    ensures DigitsAroundOneBar(a + [Bar] + b)
  {
    var s := a + [Bar] + b;
    forall i | 0 <= i < |s|
      ensures s[i] == (if i < |a| then a[i] else if i == |a| then Bar else b[i - |a| - 1])
    {
    }
    assert s[|a|] == Bar;
  }

  /** The compressed form holds exactly one '|', and otherwise only '0' and '1'. */
  lemma CompressedAlphabet(root: Node, text: Text)
    requires text == [] || HuffmanTree(root, text)
    ensures DigitsAroundOneBar(CompressWith(root, text))
  {
    if text == [] {
      JoinedByBar([], []);
      assert [] + [Bar] + [] == [Bar];
    } else {
      CodeTableCovers(root, text);
      var codes := CodeTable(root);
      CodeTableDigits(root);
      EncodeSymbolsBits(codes, text);
      SerializeBits(root);
      JoinedByBar(Serialize(root), EncodeSymbols(codes, text));
    }
  }


  lemma {:induction false} GenerateCodesDigits(n: Node, code: Text, codes: map<CodeUnit, Text>)
    requires IsBits(code) && forall c | c in codes :: IsBits(codes[c])
    ensures forall c | c in GenerateCodes(n, code, codes) :: IsBits(GenerateCodes(n, code, codes)[c])
  {
    match n
    case Nil =>
    case Node(_, l, r) =>
      if l == Nil && r == Nil {
        assert IsBits([Bit0]);
      } else {
        assert IsBits(code + [Bit0]) && IsBits(code + [Bit1]);
        var m1 := GenerateCodes(l, code + [Bit0], codes);
        GenerateCodesDigits(l, code + [Bit0], codes);
        assert forall d | d in m1 :: IsBits(m1[d]);
        GenerateCodesDigits(r, code + [Bit1], m1);
      }
  }

  lemma CodeTableDigits(root: Node)
    requires Full(root)
    ensures forall c | c in CodeTable(root) :: IsBits(CodeTable(root)[c])
  {
    if IsLeaf(root) {
      assert IsBits([Bit0]);
    } else {
      GenerateCodesDigits(root, [], map[]);
    }
  }

  lemma {:induction false} EncodeSymbolsBits(codes: map<CodeUnit, Text>, text: Text)
    requires forall i | 0 <= i < |text| :: text[i] in codes
    requires forall c | c in codes :: IsBits(codes[c])
    ensures IsBits(EncodeSymbols(codes, text))
    decreases |text|
  {
    if text != [] { EncodeSymbolsBits(codes, text[..|text| - 1]); }
  }

  /** A serialised one-leaf tree: the payload length alone fixes the output, one copy of the
      leaf's character per payload character whatever its value. */
  lemma DecompressSingleLeaf(c: CodeUnit, payload: Text)
    requires c < 256
    ensures DecompressSpec(Serialize(Node(c, Nil, Nil)) + [Bar] + payload) == Ok(Repeat(c, |payload|))
  {
    var leaf := Node(c, Nil, Nil);
    var tree := Serialize(leaf);
    SerializeBits(leaf);
    BitsNoBar(tree);
    DecompressSplit(tree, payload);
    assert LeafList(leaf) == [c];
    DeserializeSerialize(leaf, []);
    assert tree + [] == tree;
    assert Deserialize(tree) == Ok((leaf, []));
    assert DecodeParts(tree, payload) == Ok(Repeat(c, |payload|));
  }

  lemma BitsNoBar(s: Text)
    requires IsBits(s)
    ensures Bar !in s
  {
  }

  /** A tree part made of a lone '0' deserialises to an internal node with two null children,
      which `decompress` then takes for a leaf labelled '\0'. */
  lemma DecompressLoneZero(payload: Text)
    ensures DecompressSpec([Bit0, Bar] + payload) == Ok(Repeat(0, |payload|))
  {
    var data := [Bit0, Bar] + payload;
    assert FirstIndex(data, Bar) == Some(1);
    assert data[..1] == [Bit0] && data[2..] == payload;
    assert [Bit0][1..] == [];
    assert Deserialize([]) == Ok((Nil, []));
    assert Deserialize([Bit0]) == Ok((Node(0, Nil, Nil), []));
  }

  // ---------------------------------------------------------------------------------------
  // The imperative procedures

  /** How many leaves of the nodes in a build queue carry the character c. */
  function Count(q: seq<Weighted>, c: CodeUnit): nat {
    if q == [] then 0 else Occ(q[0].node, c) + Count(q[1..], c)
  }

  lemma {:induction false} CountConcat(a: seq<Weighted>, b: seq<Weighted>, c: CodeUnit)
    ensures Count(a + b, c) == Count(a, c) + Count(b, c)
    decreases |a|
  {
    if a == [] {
      assert a + b == b;
    } else {
      assert (a + b)[1..] == a[1..] + b && (a + b)[0] == a[0];
      CountConcat(a[1..], b, c);
    }
  }

  lemma CountAppend(q: seq<Weighted>, w: Weighted, c: CodeUnit)
    ensures Count(q + [w], c) == Count(q, c) + Occ(w.node, c)
  {
    CountConcat(q, [w], c);
    assert [w][1..] == [];
  }

  lemma CountRemove(q: seq<Weighted>, i: nat, c: CodeUnit)
    requires i < |q|
    ensures Count(q, c) == Count(q[..i] + q[i + 1..], c) + Occ(q[i].node, c)
  {
    var a, x, b := q[..i], q[i], q[i + 1..];
    assert q == a + ([x] + b);
    CountConcat(a, [x] + b, c);
    CountConcat(a, b, c);
    assert ([x] + b)[1..] == b;
  }

  /** Removing the nodes at i and then at j and appending their parent keeps the leaves of the
      queue, provided the first is not null (the parent of two nulls would be a leaf). */
  lemma MergeKeepsLeaves(q: seq<Weighted>, i: nat, j: nat, c: CodeUnit)
    requires i < |q| && j < |q| - 1 && q[i].node != Nil
    ensures var a, q1 := q[i], q[..i] + q[i + 1..];
      var b, q2 := q1[j], q1[..j] + q1[j + 1..];
      Count(q2 + [Weighted(a.freq + b.freq, Node(0, a.node, b.node))], c) == Count(q, c)
  {
    var a, q1 := q[i], q[..i] + q[i + 1..];
    var b, q2 := q1[j], q1[..j] + q1[j + 1..];
    var m := Weighted(a.freq + b.freq, Node(0, a.node, b.node));
    CountRemove(q, i, c);
    CountRemove(q1, j, c);
    CountAppend(q2, m, c);
    assert Occ(m.node, c) == Occ(a.node, c) + Occ(b.node, c);
  }

  /** The first-occurrence order of the distinct characters of a text. */
  function FirstOccurrences(text: Text): (order: seq<CodeUnit>)
    ensures forall c :: c in order <==> c in text
    ensures forall i, j | 0 <= i < j < |order| :: order[i] != order[j]
  {
    if text == [] then []
    else
      var init := FirstOccurrences(text[..|text| - 1]);
      var c := text[|text| - 1];
      assert forall d :: d in text <==> d in text[..|text| - 1] || d == c by {
        assert text == text[..|text| - 1] + [c];
      }
      if c in text[..|text| - 1] then init else init + [c]
  }

  /** How often c occurs in the text. */
  function Frequency(text: Text, c: CodeUnit): nat {
    if text == [] then 0
    else Frequency(text[..|text| - 1], c) + (if text[|text| - 1] == c then 1 else 0)
  }

  /** The frequency table, built by the counting loop of `compress`. `order` is the key order a
      JavaScript `Map` keeps (first occurrence); a Java `HashMap` has no order to speak of. */
  method Tally(text: Text) returns (freq: map<CodeUnit, nat>, order: seq<CodeUnit>)
    ensures forall c :: c in freq <==> c in text
    ensures forall c | c in freq :: freq[c] == Frequency(text, c) > 0
    ensures order == FirstOccurrences(text)
  {
    freq, order := map[], [];
    for i := 0 to |text|
      invariant forall c :: c in freq <==> c in text[..i]
      invariant forall c :: Frequency(text[..i], c) == if c in freq then freq[c] else 0
      invariant forall c | c in freq :: freq[c] > 0
      invariant order == FirstOccurrences(text[..i])
    {
      var c := text[i];
      PrefixStep(text, i);
      freq := freq[c := (if c in freq then freq[c] else 0) + 1];
      if c !in order {
        order := order + [c];
      }
    }
    assert text[..|text|] == text;
  }

  /** What one more character does to the counts, the characters seen and their order. */
  lemma PrefixStep(text: Text, i: nat)
    requires i < |text|
    ensures forall d :: d in text[..i + 1] <==> d in text[..i] || d == text[i]
    ensures forall d :: Frequency(text[..i + 1], d) == Frequency(text[..i], d) + (if d == text[i] then 1 else 0)
    ensures FirstOccurrences(text[..i + 1]) ==
      FirstOccurrences(text[..i]) + (if text[i] in text[..i] then [] else [text[i]])
  {
    var t := text[..i + 1];
    assert t[..i] == text[..i] && t[i] == text[i];
    assert t == text[..i] + [text[i]];
  }

  /** The least-frequency node a stable sort brings to the front: the earliest of the least
      frequency. */
  function FirstMin(pq: seq<Weighted>): (i: nat)
    requires |pq| > 0
    ensures i < |pq|
    ensures forall j | 0 <= j < |pq| :: pq[i].freq <= pq[j].freq
    ensures forall j | 0 <= j < i :: pq[i].freq < pq[j].freq
  {
    if |pq| == 1 then 0
    else
      var k := FirstMin(pq[..|pq| - 1]);
      if pq[|pq| - 1].freq < pq[k].freq then |pq| - 1 else k
  }

  /** `PriorityQueue.poll()` under the frequency comparator: the index of some node of least
      frequency. Which of several equal ones is taken is left open, as Java leaves it. */
  method PollMin(pq: seq<Weighted>) returns (i: nat)
    requires |pq| > 0
    ensures i < |pq| && forall j | 0 <= j < |pq| :: pq[i].freq <= pq[j].freq
  {
    var w := FirstMin(pq);
    assert w < |pq| && forall j | 0 <= j < |pq| :: pq[w].freq <= pq[j].freq;
    i :| i < |pq| && forall j | 0 <= j < |pq| :: pq[i].freq <= pq[j].freq;
  }

  /** The queue `compress` starts from: one leaf per entry of the frequency table, offered in
      the table's iteration order, which Java leaves unspecified. */
  method InitialQueue(freq: map<CodeUnit, nat>) returns (pq: seq<Weighted>)
    ensures |pq| == |freq|
    ensures forall i | 0 <= i < |pq| ::
      IsLeaf(pq[i].node) && pq[i].node.ch in freq && pq[i].freq == freq[pq[i].node.ch]
    ensures forall c :: Count(pq, c) == if c in freq then 1 else 0
  {
    pq := [];
    var keys := freq.Keys;
    while keys != {}
      invariant keys <= freq.Keys
      invariant |pq| + |keys| == |freq.Keys|
      invariant forall i | 0 <= i < |pq| ::
        IsLeaf(pq[i].node) && pq[i].node.ch in freq && pq[i].freq == freq[pq[i].node.ch]
      invariant forall c :: Count(pq, c) == if c in freq.Keys - keys then 1 else 0
      decreases |keys|
    {
      var c :| c in keys;
      var leaf := Weighted(freq[c], Node(c, Nil, Nil));
      forall d ensures Count(pq + [leaf], d) == Count(pq, d) + Occ(leaf.node, d) {
        CountAppend(pq, leaf, d);
      }
      pq := pq + [leaf];
      keys := keys - {c};
    }
  }

  /** Every node in the build queue is a full tree. */
  predicate AllFull(q: seq<Weighted>) {
    forall i | 0 <= i < |q| :: Full(q[i].node)
  }

  lemma RemoveFull(q: seq<Weighted>, i: nat)
    requires AllFull(q) && i < |q|
    ensures AllFull(q[..i] + q[i + 1..])
  {
    var r := q[..i] + q[i + 1..];
    forall k | 0 <= k < |r| ensures Full(r[k].node) {
      if k < i { assert r[k] == q[k]; } else { assert r[k] == q[k + 1]; }
    }
  }

  lemma AppendFull(q: seq<Weighted>, w: Weighted)
    requires AllFull(q) && Full(w.node)
    ensures AllFull(q + [w])
  {
    var r := q + [w];
    forall k | 0 <= k < |r| ensures Full(r[k].node) {
      if k < |q| { assert r[k] == q[k]; }
    }
  }

  /** One round of the merge loop: poll two nodes of least frequency and offer their parent,
      which carries the summed frequency. The queue shrinks by one and keeps its leaves. */
  method MergeTwo(pq: seq<Weighted>) returns (next: seq<Weighted>)
    requires |pq| > 1 && AllFull(pq)
    ensures |next| == |pq| - 1 && AllFull(next)
    ensures forall c :: Count(next, c) == Count(pq, c)
    ensures !IsLeaf(next[|next| - 1].node)
  {
    var i := PollMin(pq);
    var a := pq[i];
    var rest := pq[..i] + pq[i + 1..];
    RemoveFull(pq, i);
    var j := PollMin(rest);
    var b := rest[j];
    var left := rest[..j] + rest[j + 1..];
    RemoveFull(rest, j);
    var parent := Weighted(a.freq + b.freq, Node(0, a.node, b.node));
    assert Full(a.node) && Full(b.node);
    forall c ensures Count(left + [parent], c) == Count(pq, c) {
      MergeKeepsLeaves(pq, i, j, c);
    }
    AppendFull(left, parent);
    next := left + [parent];
  }

  /** The merge loop of `compress`: take two nodes of least frequency, queue their parent with
      the summed frequency, until one node is left; that node is the root. */
  method MergeAll(pq0: seq<Weighted>) returns (root: Node)
    requires |pq0| >= 1 && AllFull(pq0)
    ensures Full(root)
    ensures forall c :: Occ(root, c) == Count(pq0, c)
    ensures |pq0| > 1 ==> !IsLeaf(root)
    ensures |pq0| == 1 ==> root == pq0[0].node
  {
    var pq := pq0;
    while |pq| > 1
      invariant |pq| >= 1 && AllFull(pq)
      invariant forall c :: Count(pq, c) == Count(pq0, c)
      invariant |pq0| > 1 && |pq| == 1 ==> !IsLeaf(pq[0].node)
      invariant |pq0| == 1 ==> pq == pq0
      decreases |pq|
    {
      pq := MergeTwo(pq);
    }
    root := pq[0].node;
    forall c ensures Occ(root, c) == Count(pq, c) {
      CountAppend([], pq[0], c);
      assert [] + [pq[0]] == pq;
    }
  }

  /** The last loop of `compress`: append the code of every character of the text. */
  method AppendCodes(head: Text, codes: map<CodeUnit, Text>, text: Text) returns (out: Text)
    requires forall i | 0 <= i < |text| :: text[i] in codes
    ensures out == head + EncodeSymbols(codes, text)
  {
    out := head;
    for k := 0 to |text|
      invariant out == head + EncodeSymbols(codes, text[..k])
    {
      assert text[..k + 1][..k] == text[..k];
      out := out + codes[text[k]];
    }
    assert text[..|text|] == text;
  }

  /** `compress(text)`. The queue is filled from the frequency table in no particular order and
      merged with `PollMin`, so the tree is any one a Java runtime may build; the ghost `root` is
      that tree. */
  method Compress(text: Text) returns (out: Text, ghost root: Node)
    ensures text != [] ==> HuffmanTree(root, text)
    ensures out == CompressWith(root, text)
  {
    root := Nil;
    if text == [] {
      return [Bar], root;
    }
    var freq, _ := Tally(text);
    assert text[0] in freq.Keys;
    var pq := InitialQueue(freq);
    var tree := MergeAll(pq);
    root := tree;
    assert HuffmanTree(root, text);
    var codes := if |freq| == 1 then map[tree.ch := [Bit0]] else GenerateCodes(tree, [], map[]);
    assert codes == CodeTable(root);
    CodeTableCovers(root, text);
    out := AppendCodes(Serialize(tree) + [Bar], codes, text);
  }

  /** `decompress(data)`: the same split, the tree rebuilt by `Deserialize`, and the two digit
      loops over the payload. */
  method Decompress(data: Text) returns (r: Result<Text>)
    ensures r == DecompressSpec(data)
  {
    if data == [Bar] {
      return Ok([]);
    }
    var cut := FirstIndex(data, Bar);
    if cut.None? {
      return Ok([]);
    }
    var tree, payload := data[..cut.value], data[cut.value + 1..];
    var parsed := Deserialize(tree);
    if parsed.Thrown? {
      return Thrown(parsed.fault);
    }
    var root := parsed.value.0;
    if root == Nil {
      return Ok([]);
    }
    var out: Text := [];
    if IsLeaf(root) {
      for i := 0 to |payload|
        invariant out == Repeat(root.ch, i)
      {
        out := out + [root.ch];
      }
      return Ok(out);
    }
    var curr := root;
    assert payload[0..] == payload;
    assert Append([], Walk(root, root, payload)) == Walk(root, root, payload) by {
      match Walk(root, root, payload)
      case Ok(t) => assert [] + t == t;
      case Thrown(_) =>
    }
    for i := 0 to |payload|
      invariant Walk(root, root, payload) == Append(out, Walk(root, curr, payload[i..]))
    {
      if curr == Nil {
        return Thrown(NullPointer);
      }
      assert payload[i..][1..] == payload[i + 1..] && payload[i..][0] == payload[i];
      ghost var rest := Walk(root, root, payload[i + 1..]);
      curr := Child(curr, payload[i]);
      if IsLeaf(curr) {
        assert Append(out, Prepend(curr.ch, rest)) == Append(out + [curr.ch], rest) by {
          match rest
          case Ok(t) => assert out + ([curr.ch] + t) == (out + [curr.ch]) + t;
          case Thrown(_) =>
        }
        out := out + [curr.ch];
        curr := root;
      }
    }
    assert payload[|payload|..] == [] && out + [] == out;
    return Ok(out);
  }

  function Append(out: Text, r: Result<Text>): Result<Text> {
    match r
    case Ok(s) => Ok(out + s)
    case Thrown(e) => Thrown(e)
  }
}
