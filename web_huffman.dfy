/** The Huffman codec of the browser port, `huffmanCompress` and `huffmanDecompress`. It shares
    the tree shape, `generateCodes` and the leaf/internal serialisation with the Java codec, and
    differs in three ways: the queue is a plain array that is stable-sorted by frequency before
    every merge, so the tree is fully determined by the text; the serialised tree is preceded by
    its length in four characters instead of being followed by '|'; and a tree that does not
    parse reads as `null`, for which decompression returns '' instead of throwing. */
module WebHuffman {
  import opened Outcomes
  import opened Binary
  import opened HuffmanCoding
  import opened JsNumbers

  // ---------------------------------------------------------------------------------------
  // The stable sort of the queue

  /** Stable insertion by frequency: w goes after every node whose frequency is not above its
      own. */
  function Insert(w: Weighted, q: seq<Weighted>): (r: seq<Weighted>)
    ensures |r| == |q| + 1
  {
    if q == [] then [w]
    else if w.freq < q[0].freq then [w] + q
    else [q[0]] + Insert(w, q[1..])
  }

  /** `pq.sort((a, b) => a.f - b.f)`. `Array.prototype.sort` is stable, so its result is the one
      ordering by frequency that keeps nodes of equal frequency in queue order; insertion
      computes that ordering. */
  function SortByFreq(q: seq<Weighted>): (r: seq<Weighted>)
    ensures |r| == |q|
  {
    if q == [] then [] else Insert(q[|q| - 1], SortByFreq(q[..|q| - 1]))
  }

  predicate SortedByFreq(q: seq<Weighted>) {
    forall i, j | 0 <= i < j < |q| :: q[i].freq <= q[j].freq
  }

  /** The nodes of frequency f, in queue order. */
  function WithFreq(q: seq<Weighted>, f: nat): seq<Weighted> {
    if q == [] then [] else (if q[0].freq == f then [q[0]] else []) + WithFreq(q[1..], f)
  }

  lemma {:induction false} InsertBound(w: Weighted, q: seq<Weighted>, m: nat)
    requires m <= w.freq && forall i | 0 <= i < |q| :: m <= q[i].freq
    ensures forall k | 0 <= k < |q| + 1 :: m <= Insert(w, q)[k].freq
  {
    if q != [] && w.freq >= q[0].freq {
      InsertBound(w, q[1..], m);
    }
  }

  lemma {:induction false} InsertSorted(w: Weighted, q: seq<Weighted>)
    requires SortedByFreq(q)
    ensures SortedByFreq(Insert(w, q))
  {
    if q != [] && w.freq >= q[0].freq {
      InsertSorted(w, q[1..]);
      InsertBound(w, q[1..], q[0].freq);
    }
  }

  lemma {:induction false} InsertMultiset(w: Weighted, q: seq<Weighted>)
    ensures multiset(Insert(w, q)) == multiset(q) + multiset{w}
  {
    if q != [] && w.freq >= q[0].freq {
      InsertMultiset(w, q[1..]);
      assert q == [q[0]] + q[1..];
    }
  }

  /** The sort puts the queue in order of frequency and loses and gains no node. */
  lemma {:induction false} SortSorted(q: seq<Weighted>)
    ensures SortedByFreq(SortByFreq(q))
    ensures multiset(SortByFreq(q)) == multiset(q)
  {
    if q != [] {
      var init := q[..|q| - 1];
      SortSorted(init);
      InsertSorted(q[|q| - 1], SortByFreq(init));
      InsertMultiset(q[|q| - 1], SortByFreq(init));
      assert q == init + [q[|q| - 1]];
    }
  }

  lemma {:induction false} NoneWithFreq(q: seq<Weighted>, f: nat)
    requires forall i | 0 <= i < |q| :: q[i].freq > f
    ensures WithFreq(q, f) == []
  {
    if q != [] { NoneWithFreq(q[1..], f); }
  }

  lemma {:induction false} WithFreqAppend(q: seq<Weighted>, x: Weighted, f: nat)
    ensures WithFreq(q + [x], f) == WithFreq(q, f) + (if x.freq == f then [x] else [])
  {
    if q == [] {
      assert [x][1..] == [];
      assert q + [x] == [x];
    } else {
      var head := if q[0].freq == f then [q[0]] else [];
      var tail := if x.freq == f then [x] else [];
      assert (q + [x])[0] == q[0];
      assert (q + [x])[1..] == q[1..] + [x];
      assert WithFreq(q + [x], f) == head + WithFreq(q[1..] + [x], f);
      WithFreqAppend(q[1..], x, f);
      assert head + (WithFreq(q[1..], f) + tail) == (head + WithFreq(q[1..], f)) + tail;
    }
  }

  lemma {:induction false} InsertWithFreq(w: Weighted, q: seq<Weighted>, f: nat)
    requires SortedByFreq(q)
    ensures WithFreq(Insert(w, q), f) == WithFreq(q, f) + (if w.freq == f then [w] else [])
  {
    if q == [] {
      assert [w][1..] == [];
    } else if w.freq < q[0].freq {
      assert ([w] + q)[1..] == q;
      if w.freq == f {
        NoneWithFreq(q, f);
      }
    } else {
      assert ([q[0]] + Insert(w, q[1..]))[1..] == Insert(w, q[1..]);
      InsertWithFreq(w, q[1..], f);
    }
  }

  /** The sort is stable: the nodes of any one frequency keep their queue order. */
  lemma {:induction false} SortStable(q: seq<Weighted>, f: nat)
    ensures WithFreq(SortByFreq(q), f) == WithFreq(q, f)
  {
    if q != [] {
      var init, last := q[..|q| - 1], q[|q| - 1];
      SortStable(init, f);
      SortSorted(init);
      InsertWithFreq(last, SortByFreq(init), f);
      WithFreqAppend(init, last, f);
      assert init + [last] == q;
    }
  }

  lemma {:induction false} InsertCount(w: Weighted, q: seq<Weighted>, c: CodeUnit)
    ensures Count(Insert(w, q), c) == Count(q, c) + Occ(w.node, c)
  {
    if q == [] {
      assert [w][1..] == [];
    } else if w.freq < q[0].freq {
      assert ([w] + q)[1..] == q;
    } else {
      assert ([q[0]] + Insert(w, q[1..]))[1..] == Insert(w, q[1..]);
      InsertCount(w, q[1..], c);
    }
  }

  /** Sorting keeps the leaves of the queue. */
  lemma {:induction false} SortCount(q: seq<Weighted>, c: CodeUnit)
    ensures Count(SortByFreq(q), c) == Count(q, c)
  {
    if q != [] {
      var init, last := q[..|q| - 1], q[|q| - 1];
      SortCount(init, c);
      InsertCount(last, SortByFreq(init), c);
      CountAppend(init, last, c);
      assert init + [last] == q;
    }
  }

  lemma {:induction false} InsertFull(w: Weighted, q: seq<Weighted>)
    requires AllFull(q) && Full(w.node)
    ensures AllFull(Insert(w, q))
  {
    if q != [] && w.freq >= q[0].freq {
      InsertFull(w, q[1..]);
    }
  }

  lemma {:induction false} SortFull(q: seq<Weighted>)
    requires AllFull(q)
    ensures AllFull(SortByFreq(q))
  {
    if q != [] {
      var init := q[..|q| - 1];
      SortFull(init);
      InsertFull(q[|q| - 1], SortByFreq(init));
    }
  }

  // ---------------------------------------------------------------------------------------
  // The merge loop and the tree it builds

  /** One pass of `while (pq.length > 1)`: sort, shift the two front nodes and push their parent,
      labelled '\0' and carrying the summed frequency. */
  function MergeOnce(pq: seq<Weighted>): (next: seq<Weighted>)
    requires |pq| >= 2
    ensures |next| == |pq| - 1
  {
    var s := SortByFreq(pq);
    s[2..] + [Weighted(s[0].freq + s[1].freq, Node(0, s[0].node, s[1].node))]
  }

  /** A pass keeps every tree of the queue full and ends the queue with an internal node. */
  lemma MergeOnceFull(pq: seq<Weighted>)
    requires |pq| >= 2 && AllFull(pq)
    ensures AllFull(MergeOnce(pq))
    ensures !IsLeaf(MergeOnce(pq)[|pq| - 2].node)
  {
    var s := SortByFreq(pq);
    SortFull(pq);
    var parent := Weighted(s[0].freq + s[1].freq, Node(0, s[0].node, s[1].node));
    assert Full(s[0].node) && Full(s[1].node);
    forall k | 0 <= k < |s| - 2 ensures Full(s[2..][k].node) {
      assert s[2..][k] == s[k + 2];
    }
    AppendFull(s[2..], parent);
  }

  /** A pass keeps every leaf of the queue: the two nodes it takes out hang below the node it
      puts in. */
  lemma MergeOnceCount(pq: seq<Weighted>, c: CodeUnit)
    requires |pq| >= 2 && AllFull(pq)
    ensures Count(MergeOnce(pq), c) == Count(pq, c)
  {
    var s := SortByFreq(pq);
    SortFull(pq);
    assert s[0].node.Node? && s[1].node.Node?;
    var parent := Weighted(s[0].freq + s[1].freq, Node(0, s[0].node, s[1].node));
    CountAppend(s[2..], parent, c);
    assert s[1..][1..] == s[2..];
    SortCount(pq, c);
  }

  /** The queue after every pass of the loop: a single node. */
  function Rounds(pq: seq<Weighted>): (r: seq<Weighted>)
    requires |pq| >= 1
    ensures |r| == 1
    decreases |pq|
  {
    if |pq| == 1 then pq else Rounds(MergeOnce(pq))
  }

  /** The node the loop leaves is a full tree with the leaves of the whole starting queue. */
  lemma {:induction false} RoundsKeep(pq: seq<Weighted>)
    requires |pq| >= 1 && AllFull(pq)
    ensures Full(Rounds(pq)[0].node)
    ensures forall c :: Occ(Rounds(pq)[0].node, c) == Count(pq, c)
    ensures |pq| > 1 ==> !IsLeaf(Rounds(pq)[0].node)
    decreases |pq|
  {
    if |pq| == 1 {
      forall c ensures Occ(pq[0].node, c) == Count(pq, c) {
        CountAppend([], pq[0], c);
        assert [] + [pq[0]] == pq;
      }
    } else {
      MergeOnceFull(pq);
      forall c ensures Count(MergeOnce(pq), c) == Count(pq, c) {
        MergeOnceCount(pq, c);
      }
      RoundsKeep(MergeOnce(pq));
      if |pq| == 2 {
        assert Rounds(pq) == MergeOnce(pq);
      }
    }
  }

  /** `Array.from(freq.entries()).map(...)`: one leaf per distinct character, in order of first
      occurrence (a `Map` iterates in insertion order), carrying its frequency. */
  function Leaves(order: seq<CodeUnit>, text: Text): (q: seq<Weighted>)
    ensures |q| == |order|
  {
    seq(|order|, i requires 0 <= i < |order| => Weighted(Frequency(text, order[i]), Node(order[i], Nil, Nil)))
  }

  lemma {:induction false} LeavesCount(order: seq<CodeUnit>, text: Text, c: CodeUnit)
    requires forall i, j | 0 <= i < j < |order| :: order[i] != order[j]
    ensures Count(Leaves(order, text), c) == if c in order then 1 else 0
  {
    if order != [] {
      assert Leaves(order, text)[1..] == Leaves(order[1..], text);
      LeavesCount(order[1..], text, c);
      assert order == [order[0]] + order[1..];
    }
  }

  /** The tree `huffmanCompress` builds for a non-empty text. */
  function JsTree(text: Text): Node
    requires text != []
  {
    assert text[0] in FirstOccurrences(text);
    Rounds(Leaves(FirstOccurrences(text), text))[0].node
  }

  /** That tree is a Huffman tree of the text: full, with each distinct character on exactly
      one leaf. */
  lemma JsTreeHuffman(text: Text)
    requires text != []
    ensures HuffmanTree(JsTree(text), text)
  {
    var order := FirstOccurrences(text);
    assert text[0] in order;
    var pq := Leaves(order, text);
    RoundsKeep(pq);
    forall c ensures Occ(JsTree(text), c) == if c in text then 1 else 0 {
      LeavesCount(order, text, c);
    }
  }

  // ---------------------------------------------------------------------------------------
  // The four-character tree length

  /** `String.fromCharCode((n >>> 24) & 0xFF, (n >>> 16) & 0xFF, (n >>> 8) & 0xFF, n & 0xFF)`:
      `>>>` first takes n modulo 2^32, then each character carries one byte, most significant
      first. */
  function LengthPrefix(n: nat): (p: Text)
    ensures |p| == 4 && IsBytes(p)
  {
    var v := n % 0x1_0000_0000;
    [((v / 0x100_0000) % 256) as CodeUnit, ((v / 0x1_0000) % 256) as CodeUnit,
     ((v / 0x100) % 256) as CodeUnit, (v % 256) as CodeUnit]
  }

  /** `((d0 << 24) | (d1 << 16) | (d2 << 8) | d3) >>> 0` over the first four characters: the
      shifts keep the low 32 bits, and the ORs and the final `>>> 0` read the 32 bits as an
      unsigned number. */
  function ReadLength(d: Text): (n: nat)
    requires |d| >= 4
  {
    BitOr(BitOr(BitOr((d[0] as int * 0x100_0000) % 0x1_0000_0000, d[1] as int * 0x1_0000),
                d[2] as int * 0x100), d[3] as int)
  }

  lemma Pow2Bytes()
    ensures Pow2(8) == 0x100 && Pow2(16) == 0x1_0000 && Pow2(24) == 0x100_0000
  {
    Pow2Add(8, 8);
    Pow2Add(16, 8);
    Pow2Byte();
  }

  /** The four bytes of a number below 2^32 add up to it again. */
  lemma ByteDigitsOfWord(v: nat)
    requires v < 0x1_0000_0000
    ensures (v / 0x100_0000) % 256 * 0x100_0000 + (v / 0x1_0000) % 256 * 0x1_0000
            + (v / 0x100) % 256 * 0x100 + v % 256 == v
  {
    var q1 := v / 0x100;
    var q2 := q1 / 0x100;
    assert v / 0x1_0000 == q2;
    assert v / 0x100_0000 == q2 / 0x100;
    assert q2 / 0x100 < 256;
  }

  /** Four bytes placed at their shifts do not overlap, so OR-ing them adds them. */
  lemma OrBytes(a: nat, b: nat, c: nat, d: nat)
    requires a < 256 && b < 256 && c < 256 && d < 256
    ensures BitOr(BitOr(BitOr(a * 0x100_0000, b * 0x1_0000), c * 0x100), d)
            == a * 0x100_0000 + b * 0x1_0000 + c * 0x100 + d
  {
    Pow2Bytes();
    OrShift(a, 24, b * 0x1_0000);
    var s1 := a * 0x100_0000 + b * 0x1_0000;
    assert s1 == (a * 0x100 + b) * Pow2(16);
    OrShift(a * 0x100 + b, 16, c * 0x100);
    var s2 := s1 + c * 0x100;
    assert s2 == (a * 0x1_0000 + b * 0x100 + c) * Pow2(8);
    OrShift(a * 0x1_0000 + b * 0x100 + c, 8, d);
  }

  /** The tree length read back from the prefix is the length that was written, for every
      length below 2^32. */
  lemma PrefixRoundTrip(n: nat)
    requires n < 0x1_0000_0000
    ensures ReadLength(LengthPrefix(n)) == n
  {
    var p := LengthPrefix(n);
    assert n % 0x1_0000_0000 == n;
    var a, b, c, d := (n / 0x100_0000) % 256, (n / 0x1_0000) % 256, (n / 0x100) % 256, n % 256;
    assert p[0] as int == a && p[1] as int == b && p[2] as int == c && p[3] as int == d;
    assert (a * 0x100_0000) % 0x1_0000_0000 == a * 0x100_0000;
    assert ReadLength(p) == BitOr(BitOr(BitOr(a * 0x100_0000, b * 0x1_0000), c * 0x100), d);
    OrBytes(a, b, c, d);
    ByteDigitsOfWord(n);
  }

  // ---------------------------------------------------------------------------------------
  // deserializeTree

  /** `deserializeTree(d, pos)`, with the unread rest of the string standing for the cursor:
      `None` (null) when the input runs out, when a leaf has fewer than 8 digits, or when either
      child fails. A leaf's character is `String.fromCharCode(parseInt(digits, 2))`; any tag other
      than '1' opens an internal node. */
  function JsDeserialize(s: Text): (r: Option<(Node, Text)>)
    ensures r.Some? ==> Full(r.value.0) && |r.value.1| < |s|
    decreases |s|
  {
    if s == [] then None
    else if s[0] == Bit1 then
      if |s| < 9 then None
      else Some((Node(FromCharCode(JsParseInt(s[1..9])), Nil, Nil), s[9..]))
    else
      match JsDeserialize(s[1..])
      case None => None
      case Some(l) =>
        match JsDeserialize(l.1)
        case None => None
        case Some(r) => Some((Node(0, l.0, r.0), r.1))
  }

  lemma JsDeserializeLeaf(c: CodeUnit, rest: Text)
    requires c < 256
    ensures JsDeserialize([Bit1] + ByteDigits(c as nat) + rest) == Some((Node(c, Nil, Nil), rest))
  {
    var digits := ByteDigits(c as nat);
    TagThenGroup(Bit1, digits, rest);
    JsParseIntBits(digits);
    assert FromCharCode(Some(c as int)) == c;
  }

  /** Deserialising a serialised tree, whatever follows it, rebuilds the tree and stops just
      after it. */
  lemma {:induction false} JsDeserializeSerialize(t: Node, rest: Text)
    requires Full(t) && IsBytes(LeafList(t))
    ensures JsDeserialize(Serialize(t) + rest) == Some((t, rest))
  {
    if IsLeaf(t) {
      assert LeafList(t)[0] == t.ch;
      assert Serialize(t) == [Bit1] + ByteDigits(t.ch as nat);
      JsDeserializeLeaf(t.ch, rest);
    } else {
      var sl, sr := Serialize(t.left), Serialize(t.right);
      assert Serialize(t) == [Bit0] + sl + sr;
      TagThenTwo(Bit0, sl, sr, rest);
      SubtreeBytes(t);
      JsDeserializeSerialize(t.left, sr + rest);
      JsDeserializeSerialize(t.right, rest);
    }
  }

  // ---------------------------------------------------------------------------------------
  // huffmanDecompress

  /** UTF-16 surrogate halves: a high half followed by a low half is one code point. */
  predicate IsHighSurrogate(c: CodeUnit) {
    0xD800 <= c <= 0xDBFF
  }

  predicate IsLowSurrogate(c: CodeUnit) {
    0xDC00 <= c <= 0xDFFF
  }

  /** The code units `for (const bit of s)` takes as its next step: a surrogate pair is one
      step of two code units, every other code unit (a lone surrogate included) is one step. */
  function StepLength(s: Text): (k: nat)
    requires s != []
    ensures 1 <= k <= |s|
    ensures k == 2 <==> |s| >= 2 && IsHighSurrogate(s[0]) && IsLowSurrogate(s[1])
  {
    if |s| >= 2 && IsHighSurrogate(s[0]) && IsLowSurrogate(s[1]) then 2 else 1
  }

  /** No surrogate pair anywhere in s, so iterating its code points visits its code units. */
  predicate NoSurrogatePairs(s: Text) {
    forall i | 0 <= i < |s| - 1 :: !(IsHighSurrogate(s[i]) && IsLowSurrogate(s[i + 1]))
  }

  /** `(bit === '0') ? cur.l : cur.r` for the next code point of `bits`: only the one-unit
      string '0' selects the left child. */
  function NextNode(cur: Node, bits: Text): Node
    requires cur.Node? && bits != []
  {
    if bits[..StepLength(bits)] == [Bit0] then cur.left else cur.right
  }

  /** The bit loop of `huffmanDecompress` from node `cur`. It steps by code points: `bit` is one
      code unit or a surrogate pair, and only the one-unit string '0' selects the left child. A
      null `cur` is the "traversal failed" error, a null child the "invalid tree structure"
      error; each leaf reached is emitted and the walk restarts at the root; digits that end
      between leaves are dropped. */
  function JsWalk(root: Node, cur: Node, bits: Text): (r: Result<Text>)
    decreases |bits|
  {
    if bits == [] then Ok([])
    else if cur == Nil then Thrown(TraversalFailed)
    else
      var next := NextNode(cur, bits);
      if next == Nil then Thrown(InvalidTree)
      else if IsLeaf(next) then Prepend(next.ch, JsWalk(root, root, bits[StepLength(bits)..]))
      else JsWalk(root, next, bits[StepLength(bits)..])
  }

  /** On a full tree of two or more leaves neither error can happen, whatever the payload. */
  lemma {:induction false} JsWalkOk(root: Node, cur: Node, bits: Text)
    requires Full(root) && !IsLeaf(root) && Full(cur) && !IsLeaf(cur)
    ensures JsWalk(root, cur, bits).Ok?
    decreases |bits|
  {
    if bits != [] {
      var next := NextNode(cur, bits);
      assert Full(next);
      JsWalkOk(root, if IsLeaf(next) then root else next, bits[StepLength(bits)..]);
    }
  }

  /** On a payload without surrogate pairs the code-point walk is the Java code-unit walk. */
  lemma {:induction false} JsWalkAgrees(root: Node, cur: Node, bits: Text)
    requires Full(root) && !IsLeaf(root) && Full(cur) && !IsLeaf(cur)
    requires NoSurrogatePairs(bits)
    ensures JsWalk(root, cur, bits) == Walk(root, cur, bits)
    decreases |bits|
  {
    if bits != [] {
      assert StepLength(bits) == 1 by {
        if |bits| >= 2 {
          assert !(IsHighSurrogate(bits[0]) && IsLowSurrogate(bits[0 + 1]));
        }
      }
      assert bits[..1] == [bits[0]];
      var next := Child(cur, bits[0]);
      assert NextNode(cur, bits) == next;
      assert Full(next);
      assert NoSurrogatePairs(bits[1..]) by {
        forall i | 0 <= i < |bits[1..]| - 1
          ensures !(IsHighSurrogate(bits[1..][i]) && IsLowSurrogate(bits[1..][i + 1]))
        {
          assert bits[1..][i] == bits[i + 1] && bits[1..][i + 1] == bits[(i + 1) + 1];
        }
      }
      JsWalkAgrees(root, if IsLeaf(next) then root else next, bits[1..]);
    }
  }

  /** What `huffmanDecompress` does once the tree part and the payload are cut apart. */
  function JsDecodeParts(tree: Text, payload: Text): (r: Result<Text>) {
    match JsDeserialize(tree)
    case None => Ok([])
    case Some(d) =>
      var root := d.0;
      if IsLeaf(root) then Ok(Repeat(root.ch, |payload|))
      else JsWalk(root, root, payload)
  }

  /** `huffmanDecompress(data)`: '' for four characters or fewer, for a tree length of 0 or
      longer than the rest of the data, and for a tree that does not parse. */
  function JsDecompressSpec(data: Text): (r: Result<Text>) {
    if |data| <= 4 then Ok([])
    else
      var treeLen := ReadLength(data);
      if treeLen == 0 || treeLen > |data| - 4 then Ok([])
      else JsDecodeParts(data[4..4 + treeLen], data[4 + treeLen..])
  }

  /** The early returns of `huffmanDecompress`, stated on their own. */
  lemma JsDecompressEmpty(data: Text)
    ensures |data| <= 4 ==> JsDecompressSpec(data) == Ok([])
    ensures |data| > 4 && (ReadLength(data) == 0 || ReadLength(data) > |data| - 4) ==>
      JsDecompressSpec(data) == Ok([])
    ensures (|data| > 4 && 0 < ReadLength(data) <= |data| - 4
             && JsDeserialize(data[4..4 + ReadLength(data)]).None?) ==> JsDecompressSpec(data) == Ok([])
  {
  }

  /** The two `throw`s of `huffmanDecompress` are unreachable: every tree `deserializeTree`
      builds is full, so the walk always finds a child and never stands on null. */
  lemma JsDecompressTotal(data: Text)
    ensures JsDecompressSpec(data).Ok?
  {
    if |data| > 4 {
      var treeLen := ReadLength(data);
      if 0 < treeLen <= |data| - 4 {
        var tree, payload := data[4..4 + treeLen], data[4 + treeLen..];
        match JsDeserialize(tree)
        case None =>
        case Some(d) =>
          if !IsLeaf(d.0) {
            JsWalkOk(d.0, d.0, payload);
          }
      }
    }
  }

  /** On a serialised tree both decoders rebuild the same tree, and they read a payload without
      surrogate pairs alike. */
  lemma JsDecodePartsAgree(root: Node, payload: Text)
    requires Full(root) && IsBytes(LeafList(root))
    requires NoSurrogatePairs(payload)
    ensures JsDecodeParts(Serialize(root), payload) == DecodeParts(Serialize(root), payload)
  {
    var tree := Serialize(root);
    assert tree + [] == tree;
    DeserializeSerialize(root, []);
    JsDeserializeSerialize(root, []);
    if !IsLeaf(root) {
      JsWalkAgrees(root, root, payload);
    }
  }

  /** Where the two walks part: when the root's right child is a leaf, the surrogate pair
      U+D83D U+DE00 is one step to the right for the JavaScript loop, so it gives that leaf once,
      and two steps to the right for the Java loop, so it gives that leaf twice. */
  lemma SurrogatePairOneStep(root: Node)
    requires Full(root) && !IsLeaf(root) && IsLeaf(root.right) && IsBytes(LeafList(root))
    ensures JsDecodeParts(Serialize(root), [0xD83D, 0xDE00]) == Ok([root.right.ch])
    ensures DecodeParts(Serialize(root), [0xD83D, 0xDE00]) == Ok([root.right.ch, root.right.ch])
  {
    var tree := Serialize(root);
    assert tree + [] == tree;
    DeserializeSerialize(root, []);
    JsDeserializeSerialize(root, []);
    PairWalks(root);
  }

  /** The two walks of the surrogate pair from a root whose right child is a leaf. */
  lemma PairWalks(root: Node)
    requires root.Node? && IsLeaf(root.right)
    ensures JsWalk(root, root, [0xD83D, 0xDE00]) == Ok([root.right.ch])
    ensures Walk(root, root, [0xD83D, 0xDE00]) == Ok([root.right.ch, root.right.ch])
  {
    var pair: Text := [0xD83D, 0xDE00];
    var low: Text := [0xDE00];
    var b := root.right.ch;
    assert StepLength(pair) == 2;
    assert pair[..2] == pair && pair[2..] == [];
    assert NextNode(root, pair) == root.right;
    assert JsWalk(root, root, []) == Ok([]) && [b] + [] == [b];
    assert JsWalk(root, root, pair) == Prepend(b, JsWalk(root, root, []));
    assert pair[1..] == low && low[1..] == [];
    assert Child(root, pair[0]) == root.right && Child(root, low[0]) == root.right;
    assert Walk(root, root, []) == Ok([]);
    assert Walk(root, root, low) == Prepend(b, Walk(root, root, [])) == Ok([b]);
    assert [b] + [b] == [b, b];
    assert Walk(root, root, pair) == Prepend(b, Walk(root, root, low));
  }

  /** `huffmanDecompress`: the length check, the cut, `deserializeTree`, and the two loops over
      the payload. */
  method JsDecompress(data: Text) returns (r: Result<Text>)
    ensures r == JsDecompressSpec(data)
  {
    if |data| <= 4 {
      return Ok([]);
    }
    var treeLen := ReadLength(data);
    if treeLen <= 0 || treeLen > |data| - 4 {
      return Ok([]);
    }
    var treeStr, compressedData := data[4..4 + treeLen], data[4 + treeLen..];
    var parsed := JsDeserialize(treeStr);
    if parsed.None? {
      return Ok([]);
    }
    var root := parsed.value.0;
    var out: Text := [];
    if IsLeaf(root) {
      for i := 0 to |compressedData|
        invariant out == Repeat(root.ch, i)
      {
        out := out + [root.ch];
      }
      return Ok(out);
    }
    r := WalkPayload(root, compressedData);
  }

  /** The `for (const bit of compressedData)` loop of `huffmanDecompress` from the root, one code point
      per step. */
  method WalkPayload(root: Node, compressedData: Text) returns (r: Result<Text>)
    requires root.Node?
    ensures r == JsWalk(root, root, compressedData)
  {
    var out: Text := [];
    var cur := root;
    assert compressedData[0..] == compressedData;
    assert Append([], JsWalk(root, root, compressedData)) == JsWalk(root, root, compressedData) by {
      match JsWalk(root, root, compressedData)
      case Ok(t) => assert [] + t == t;
      case Thrown(_) =>
    }
    var i := 0;
    while i < |compressedData|
      invariant 0 <= i <= |compressedData|
      invariant JsWalk(root, root, compressedData) == Append(out, JsWalk(root, cur, compressedData[i..]))
      decreases |compressedData| - i
    {
      if cur == Nil {
        return Thrown(TraversalFailed);
      }
      var k := StepLength(compressedData[i..]);
      assert compressedData[i..][k..] == compressedData[i + k..];
      ghost var rest := JsWalk(root, root, compressedData[i + k..]);
      cur := NextNode(cur, compressedData[i..]);
      if cur == Nil {
        return Thrown(InvalidTree);
      }
      if IsLeaf(cur) {
        assert Append(out, Prepend(cur.ch, rest)) == Append(out + [cur.ch], rest) by {
          match rest
          case Ok(t) => assert out + ([cur.ch] + t) == (out + [cur.ch]) + t;
          case Thrown(_) =>
        }
        out := out + [cur.ch];
        cur := root;
      }
      i := i + k;
    }
    assert compressedData[|compressedData|..] == [] && out + [] == out;
    return Ok(out);
  }

  // ---------------------------------------------------------------------------------------
  // huffmanCompress

  /** The compressed form for a given tree: four NUL characters for the empty text; otherwise
      the tree length prefix, the serialised tree and the code of every character. */
  function JsCompressWith(root: Node, text: Text): (out: Text)
    requires text == [] || HuffmanTree(root, text)
  {
    if text == [] then [0, 0, 0, 0]
    else
      CodeTableCovers(root, text);
      var tree := Serialize(root);
      LengthPrefix(|tree|) + tree + EncodeSymbols(CodeTable(root), text)
  }

  /** Distinct leaves have as many labels as there are leaves. */
  lemma {:induction false} DistinctLeaves(n: Node)
    requires forall c :: Occ(n, c) <= 1
    ensures |LeafList(n)| == |set c | c in LeafList(n)|
  {
    match n
    case Nil =>
    case Node(d, l, r) =>
      if !(l == Nil && r == Nil) {
        assert forall c :: Occ(l, c) <= 1 && Occ(r, c) <= 1 by {
          forall c ensures Occ(l, c) <= 1 && Occ(r, c) <= 1 {
            assert Occ(n, c) == Occ(l, c) + Occ(r, c);
          }
        }
        DistinctLeaves(l);
        DistinctLeaves(r);
        var a, b := set c | c in LeafList(l), set c | c in LeafList(r);
        assert (set c | c in LeafList(n)) == a + b;
        forall c | c in a ensures c !in b {
          OccLeafList(l, c);
          OccLeafList(r, c);
          assert Occ(n, c) == Occ(l, c) + Occ(r, c);
        }
        assert a * b == {};
      } else {
        assert (set c | c in LeafList(n)) == {d};
      }
  }

  /** A set of characters below k has at most k elements. */
  lemma {:induction false} SetBelow(s: set<CodeUnit>, k: nat)
    requires k <= 0x1_0000 && forall c | c in s :: c as int < k
    ensures |s| <= k
  {
    if k > 0 {
      var x := (k - 1) as CodeUnit;
      SetBelow(s - {x}, k - 1);
    }
  }

  /** A Huffman tree of a text of 8-bit characters has at most 256 leaves, so its serialised
      form is far shorter than 2^32 and its length fits the four-character prefix. */
  lemma TreeFitsPrefix(root: Node, text: Text)
    requires HuffmanTree(root, text) && IsBytes(text)
    ensures |Serialize(root)| < 0x1_0000_0000
  {
    HuffmanTreeBytes(root, text);
    var leaves := LeafList(root);
    assert forall c :: Occ(root, c) <= 1;
    DistinctLeaves(root);
    SetBelow(set c | c in leaves, 256);
    SerializedLength(root);
  }

  /** Cutting a four-character prefix, a tree and a payload apart again. */
  lemma ThreeParts(prefix: Text, tree: Text, payload: Text)
    requires |prefix| == 4
    ensures var out := prefix + tree + payload;
      && ReadLength(out) == ReadLength(prefix) && out[..4] == prefix
      && out[4..4 + |tree|] == tree && out[4 + |tree|..] == payload && out[4..] == tree + payload
  {
    var out := prefix + tree + payload;
    assert out[0] == prefix[0] && out[1] == prefix[1] && out[2] == prefix[2] && out[3] == prefix[3];
    assert out[..4] == prefix;
    assert out[4..] == tree + payload;
  }

  /** After the prefix, the compressed form holds binary digits only. */
  lemma PayloadDigits(root: Node, text: Text)
    requires Full(root) && forall i | 0 <= i < |text| :: text[i] in CodeTable(root)
    ensures IsBits(Serialize(root) + EncodeSymbols(CodeTable(root), text))
  {
    SerializeBits(root);
    CodeTableDigits(root);
    EncodeSymbolsBits(CodeTable(root), text);
  }

  /** The compressed form of a non-empty text: a prefix that reads back as exactly the length of
      the serialised tree, the tree, then a payload of binary digits. */
  lemma JsCompressedLayout(root: Node, text: Text)
    requires IsBytes(text) && text != [] && HuffmanTree(root, text)
    ensures var out, tree := JsCompressWith(root, text), Serialize(root);
      && |out| > 4 + |tree|
      && ReadLength(out) == |tree| && out[..4] == LengthPrefix(|tree|)
      && out[4..4 + |tree|] == tree
      && IsBits(out[4..])
  {
    var tree := Serialize(root);
    CodeTableCovers(root, text);
    var payload := EncodeSymbols(CodeTable(root), text);
    var prefix := LengthPrefix(|tree|);
    assert JsCompressWith(root, text) == prefix + tree + payload;
    ThreeParts(prefix, tree, payload);
    TreeFitsPrefix(root, text);
    PrefixRoundTrip(|tree|);
    PayloadDigits(root, text);
    PayloadNonEmpty(root, text);
  }

  /** A non-empty text has a non-empty payload: its last character's code is not empty. */
  lemma PayloadNonEmpty(root: Node, text: Text)
    requires text != [] && HuffmanTree(root, text)
    ensures forall i | 0 <= i < |text| :: text[i] in CodeTable(root)
    ensures EncodeSymbols(CodeTable(root), text) != []
  {
    CodeTableCovers(root, text);
    var last := text[|text| - 1];
    assert EncodeSymbols(CodeTable(root), text)
        == EncodeSymbols(CodeTable(root), text[..|text| - 1]) + CodeTable(root)[last];
    assert CodeTable(root)[last] != [] by {
      if !IsLeaf(root) {
        assert PathTo(root, CodeTable(root)[text[|text| - 1]], text[|text| - 1]);
      }
    }
  }

  /** Every text of 8-bit characters comes back unchanged from the compressed form, for every
      Huffman tree of it and so for the one `huffmanCompress` builds. */
  lemma JsRoundTrip(root: Node, text: Text)
    requires IsBytes(text)
    requires text == [] || HuffmanTree(root, text)
    ensures JsDecompressSpec(JsCompressWith(root, text)) == Ok(text)
  {
    if text != [] {
      var tree := Serialize(root);
      CodeTableCovers(root, text);
      var payload := EncodeSymbols(CodeTable(root), text);
      var data := JsCompressWith(root, text);
      JsCompressedLayout(root, text);
      assert data == LengthPrefix(|tree|) + tree + payload;
      assert data[4 + |tree|..] == payload;
      CompressRoundTrip(root, text);
      SerializeBits(root);
      BitsNoBar(tree);
      assert CompressWith(root, text) == tree + [Bar] + payload;
      DecompressSplit(tree, payload);
      HuffmanTreeBytes(root, text);
      CodeTableDigits(root);
      EncodeSymbolsBits(CodeTable(root), text);
      assert NoSurrogatePairs(payload) by {
        assert IsBits(payload);
      }
      JsDecodePartsAgree(root, payload);
    }
  }

  /** A frequency table keyed by the characters of a non-empty order without repeats has one
      entry exactly when the order has one character. */
  lemma SingleEntry(freq: map<CodeUnit, nat>, order: seq<CodeUnit>)
    requires order != [] && forall c :: c in freq <==> c in order
    requires forall i, j | 0 <= i < j < |order| :: order[i] != order[j]
    ensures |freq| == 1 <==> |order| == 1
  {
    if |order| == 1 {
      assert freq.Keys == {order[0]};
    } else {
      var t := freq.Keys - {order[0]};
      assert |t| == |freq.Keys| - 1;
      assert order[1] in t;
    }
  }

  /** The sort-and-merge loop of `huffmanCompress`: sort the queue by frequency, shift the two
      front nodes, push their parent; the node left at the end is the root. */
  method MergeRounds(pq0: seq<Weighted>) returns (root: Node)
    requires |pq0| >= 1
    ensures root == Rounds(pq0)[0].node
  {
    var pq := pq0;
    while |pq| > 1
      invariant |pq| >= 1 && Rounds(pq) == Rounds(pq0)
      decreases |pq|
    {
      ghost var was := pq;
      pq := SortByFreq(pq);
      var a := pq[0];
      pq := pq[1..];
      var b := pq[0];
      pq := pq[1..];
      pq := pq + [Weighted(a.freq + b.freq, Node(0, a.node, b.node))];
      assert pq == MergeOnce(was);
    }
    root := pq[0].node;
  }

  /** `huffmanCompress(text)`: the counting loop, the queue in first-occurrence order, the
      sort-and-merge loop, the code table (a single '0' when the text has one distinct
      character), and the output loop. */
  method JsCompress(text: Text) returns (out: Text)
    ensures text == [] ==> out == [0, 0, 0, 0]
    ensures text != [] ==> HuffmanTree(JsTree(text), text) && out == JsCompressWith(JsTree(text), text)
  {
    if text == [] {
      return [0, 0, 0, 0];
    }
    var freq, order := Tally(text);
    assert text[0] in order;
    var pq := seq(|order|, i requires 0 <= i < |order| => Weighted(freq[order[i]], Node(order[i], Nil, Nil)));
    assert pq == Leaves(order, text);
    var root := MergeRounds(pq);
    JsTreeHuffman(text);
    RoundsKeep(pq);
    SingleEntry(freq, order);
    var codes := if |freq| == 1 then map[root.ch := [Bit0]] else GenerateCodes(root, [], map[]);
    assert codes == CodeTable(root);
    CodeTableCovers(root, text);
    var treeStr := Serialize(root);
    var treeLen := |treeStr|;
    out := AppendCodes(LengthPrefix(treeLen) + treeStr, codes, text);
  }
}
