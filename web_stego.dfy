/** The browser port's LSB codec, `calculateCapacity`, `encodeToImage` and `decodeFromImage`. An
    `ImageData` is a width × height grid stored as one flat `Uint8ClampedArray` of RGBA bytes,
    four per pixel, row after row. The frame (a binary length header, then the payload) goes
    into the lowest bits of the R, G and B bytes in order; alpha is skipped and set to 255. */
module WebSteganography {
  import opened Outcomes
  import opened Binary
  import opened JsNumbers
  import DecodeBinary

  /** A byte of a `Uint8ClampedArray`. */
  newtype Octet = x: int | 0 <= x < 256

  /** `imageData`: its dimensions and its RGBA bytes. */
  class JsImage {
    const width: nat
    const height: nat
    const data: array<Octet>

    ghost predicate Valid()
      reads this
    {
      data.Length == 4 * (width * height)
    }

    /** `new ImageData(data, width, height)`, which takes over the given array. */
    constructor (w: nat, h: nat, d: array<Octet>)
      requires d.Length == 4 * (w * h)
      ensures width == w && height == h && data == d && Valid()
    {
      width, height, data := w, h, d;
    }
  }

  /** `calculateCapacity(width, height)`: three bits per pixel. */
  function CalculateCapacity(width: nat, height: nat): nat {
    width * height * 3
  }

  /** Storing into a `Uint8ClampedArray` clamps to 0..255. */
  function Clamp(x: int): Octet {
    if x < 0 then 0 else if x > 255 then 255 else x as Octet
  }

  /** `(d & 0xFE) | parseInt(c)`: the byte with its lowest bit cleared, OR the decimal value of
      the frame character (NaN, for a character that is not a digit, ORs as 0), stored with
      clamping. */
  function SetLowest(d: Octet, c: CodeUnit): Octet {
    Clamp(OrNumber(d as nat - d as nat % 2, DecimalDigit(c)))
  }

  /** `(d & 1).toString()`. */
  function LowBitOf(d: Octet): CodeUnit {
    if d % 2 == 0 then Bit0 else Bit1
  }

  /** A frame digit stored by `SetLowest` is the byte's new lowest bit, and the other seven bits
      are kept. */
  lemma SetLowestBit(d: Octet, c: CodeUnit)
    requires c == Bit0 || c == Bit1
    ensures LowBitOf(SetLowest(d, c)) == c
    ensures SetLowest(d, c) / 2 == d / 2
  {
    var b: nat := if c == Bit0 then 0 else 1;
    assert DecimalDigit(c) == Some(b);
    assert d as nat - d as nat % 2 == (d as nat / 2) * Pow2(1);
    OrShift(d as nat / 2, 1, b);
  }

  /** A colour byte and frame position k: the frame character goes in while the frame lasts. */
  function Channel(d: Octet, full: Text, k: nat): Octet {
    if k < |full| then SetLowest(d, full[k]) else d
  }

  /** Byte c (0 = R, 1 = G, 2 = B, 3 = A) of the pixel whose R byte takes frame position k. */
  function QuadByte(d: Octet, full: Text, k: nat, c: nat): Octet {
    if c == 3 then 255 else Channel(d, full, k + c)
  }

  /** Byte c of pixel p after the loop: pixel p is visited when frame position 3p is still inside
      the frame, and left alone otherwise. */
  function ByteAfter(d: Octet, full: Text, p: nat, c: nat): Octet {
    if 3 * p < |full| then QuadByte(d, full, 3 * p, c) else d
  }

  /** The bytes after the embedding loop over the frame `full`. */
  function JsEmbedded(data: seq<Octet>, full: Text): (e: seq<Octet>)
    ensures |e| == |data|
  {
    seq(|data|, k requires 0 <= k < |data| => ByteAfter(data[k], full, k / 4, k % 4))
  }

  /** `msgLen.toString(2).padStart(headerBits, '0') + binaryData`. A length with more digits than
      headerBits is not cut: the header is then longer than headerBits. */
  function JsFrame(data: Text, headerBits: int): Text {
    PadLeft(BinaryString(|data|), headerBits) + data
  }

  /** With a length below 2^headerBits the header is exactly headerBits digits that spell the
      length, and the payload follows it. */
  lemma JsFrameHeader(data: Text, headerBits: nat)
    requires headerBits >= 1 && |data| < Pow2(headerBits)
    ensures var f := JsFrame(data, headerBits);
      && |f| == headerBits + |data| && f[headerBits..] == data
      && IsBits(f[..headerBits]) && Value(f[..headerBits]) == |data|
  {
    var s := BinaryString(|data|);
    BinaryStringWidth(|data|, headerBits);
    PadLeftValue(s, headerBits);
    var h := PadLeft(s, headerBits);
    assert JsFrame(data, headerBits) == h + data;
    assert (h + data)[..headerBits] == h && (h + data)[headerBits..] == data;
  }

  /** What the loop does to the bytes of pixel p, for a frame of binary digits: while the frame
      lasts, R, G and B take the next frame digits as their lowest bits and keep the rest, and
      alpha becomes 255; a byte the frame does not reach keeps its value. */
  lemma JsEmbeddedByte(data: seq<Octet>, full: Text, p: nat, c: nat)
    requires IsBits(full) && c < 4 && 4 * p + c < |data|
    ensures var e := JsEmbedded(data, full)[4 * p + c];
      && (c < 3 && 3 * p + c < |full| ==> LowBitOf(e) == full[3 * p + c] && e / 2 == data[4 * p + c] / 2)
      && (c < 3 && 3 * p + c >= |full| ==> e == data[4 * p + c])
      && (c == 3 && 3 * p < |full| ==> e == 255)
      && (c == 3 && 3 * p >= |full| ==> e == data[4 * p + c])
  {
    var k := 4 * p + c;
    assert k / 4 == p && k % 4 == c;
    if c < 3 && 3 * p + c < |full| {
      SetLowestBit(data[k], full[3 * p + c]);
    }
  }

  // ---------------------------------------------------------------------------------------
  // encodeToImage

  /** Bytes of the first p pixels are as the loop leaves them; the others are as they were. */
  ghost predicate EmbeddedUpTo(now: seq<Octet>, before: seq<Octet>, full: Text, p: nat) {
    && |now| == |before|
    && forall k | 0 <= k < |before| ::
         now[k] == if k < 4 * p then JsEmbedded(before, full)[k] else before[k]
  }

  /** `encodeToImage(imageData, binaryData, headerBits)`: a copy of the bytes takes the frame,
      and a new image is made from it; the given image is not changed. */
  method EncodeToImage(image: JsImage, binaryData: Text, headerBits: int) returns (out: JsImage)
    requires image.Valid()
    ensures fresh(out) && fresh(out.data) && out.Valid()
    ensures out.width == image.width && out.height == image.height
    ensures out.data[..] == JsEmbedded(image.data[..], JsFrame(binaryData, headerBits))
  {
    var data := new Octet[image.data.Length];
    forall k | 0 <= k < data.Length {
      data[k] := image.data[k];
    }
    assert data[..] == image.data[..];
    var msgLen := |binaryData|;
    var header := PadLeft(BinaryString(msgLen), headerBits);
    var full := header + binaryData;
    EmbedFrame(data, image.width * image.height, full);
    out := new JsImage(image.width, image.height, data);
  }

  /** The pixel loop of `encodeToImage`, with its exit once the frame is used up. */
  method EmbedFrame(data: array<Octet>, ghost n: nat, full: Text)
    requires data.Length == 4 * n
    modifies data
    ensures data[..] == JsEmbedded(old(data[..]), full)
  {
    ghost var before := data[..];
    ghost var p: nat := 0;
    var di := 0;
    var i := 0;
    while i < data.Length
      invariant i == 4 * p && p <= n
      invariant di == Min(3 * p, |full|) && 3 * p < |full| + 3
      invariant EmbeddedUpTo(data[..], before, full, p)
    {
      if di >= |full| {
        break;
      }
      assert data[i] == before[i] && data[i + 1] == before[i + 1] && data[i + 2] == before[i + 2];
      ghost var was := data[..];
      di := EmbedPixel(data, i, full, di);
      EmbedStep(was, data[..], before, full, p);
      p := p + 1;
      i := i + 4;
    }
    EmbeddedAll(data[..], before, full, p, n);
  }

  /** The loop body for the pixel at byte i: R, G and B each take the next frame character while
      there is one, and alpha is set to 255. */
  method EmbedPixel(data: array<Octet>, i: nat, full: Text, di: nat) returns (next: nat)
    requires i + 4 <= data.Length && di <= |full|
    modifies data
    ensures next == Min(di + 3, |full|)
    ensures data[..] == old(data[..])[i := QuadByte(old(data[i]), full, di, 0)]
                                     [i + 1 := QuadByte(old(data[i + 1]), full, di, 1)]
                                     [i + 2 := QuadByte(old(data[i + 2]), full, di, 2)]
                                     [i + 3 := 255]
  {
    next := di;
    if next < |full| {
      data[i] := SetLowest(data[i], full[next]);
      next := next + 1;
    }
    if next < |full| {
      data[i + 1] := SetLowest(data[i + 1], full[next]);
      next := next + 1;
    }
    if next < |full| {
      data[i + 2] := SetLowest(data[i + 2], full[next]);
      next := next + 1;
    }
    data[i + 3] := 255;
  }

  /** Writing pixel p's four bytes extends the finished prefix by one pixel. */
  lemma EmbedStep(was: seq<Octet>, now: seq<Octet>, before: seq<Octet>, full: Text, p: nat)
    requires EmbeddedUpTo(was, before, full, p) && 4 * p + 4 <= |before| && 3 * p < |full|
    requires now == was[4 * p := QuadByte(before[4 * p], full, 3 * p, 0)]
                       [4 * p + 1 := QuadByte(before[4 * p + 1], full, 3 * p, 1)]
                       [4 * p + 2 := QuadByte(before[4 * p + 2], full, 3 * p, 2)]
                       [4 * p + 3 := 255]
    ensures EmbeddedUpTo(now, before, full, p + 1)
  {
    forall k | 0 <= k < |before|
      ensures now[k] == if k < 4 * (p + 1) then JsEmbedded(before, full)[k] else before[k]
    {
      if 4 * p <= k < 4 * p + 4 {
        assert k / 4 == p && k % 4 == k - 4 * p;
      }
    }
  }

  /** When the loop ends, every byte is as `JsEmbedded` says. */
  lemma EmbeddedAll(now: seq<Octet>, before: seq<Octet>, full: Text, p: nat, n: nat)
    requires EmbeddedUpTo(now, before, full, p) && |before| == 4 * n && p <= n
    requires p == n || 3 * p >= |full|
    ensures now == JsEmbedded(before, full)
  {
    forall k | 0 <= k < |before| ensures now[k] == JsEmbedded(before, full)[k] {
      if k >= 4 * p {
        assert k / 4 >= p;
      }
    }
  }

  // ---------------------------------------------------------------------------------------
  // decodeFromImage

  /** The reading loop gives up after headerBits + this many digits. */
  const ReadCap: nat := 10_000_000

  /** The largest message length the header check accepts. */
  const MaxMessage: nat := 100_000_000

  /** The digits `(data[i] & 1).toString()` of R, G and B of the first p pixels, in order. */
  function JsLsbs(data: seq<Octet>, p: nat): (bits: Text)
    requires 4 * p <= |data|
    ensures |bits| == 3 * p && IsBits(bits)
  {
    if p == 0 then [] else JsLsbs(data, p - 1) + JsPixelBits(data, p - 1)
  }

  /** The three digits the loop appends for pixel q. */
  function JsPixelBits(data: seq<Octet>, q: nat): Text
    requires 4 * q + 4 <= |data|
  {
    [LowBitOf(data[4 * q]), LowBitOf(data[4 * q + 1]), LowBitOf(data[4 * q + 2])]
  }

  /** Reading more pixels only appends: the digits of the first m pixels stay where they were. */
  lemma {:induction false} JsLsbsPrefix(data: seq<Octet>, m: nat, p: nat)
    requires m <= p && 4 * p <= |data|
    ensures JsLsbs(data, p)[..3 * m] == JsLsbs(data, m)
    decreases p
  {
    if m < p {
      JsLsbsPrefix(data, m, p - 1);
      assert JsLsbs(data, p)[..3 * (p - 1)] == JsLsbs(data, p - 1);
      assert JsLsbs(data, p)[..3 * m] == JsLsbs(data, p)[..3 * (p - 1)][..3 * m];
    } else {
      assert JsLsbs(data, p)[..3 * m] == JsLsbs(data, p);
    }
  }

  /** The value of the header digits, complete after the first `CeilDiv3(headerBits)` pixels. */
  function HeaderValue(data: seq<Octet>, headerBits: nat): nat
    requires headerBits >= 1 && 4 * CeilDiv3(headerBits) <= |data|
  {
    Value(JsLsbs(data, CeilDiv3(headerBits))[..headerBits])
  }

  /** The header check of the reading loop: `messageLength <= 0 || messageLength > 100000000`. */
  predicate HeaderRejected(v: nat) {
    v == 0 || v > MaxMessage
  }

  /** How many pixels the loop reads after an accepted header: it stops at the first pixel that
      completes headerBits + v digits, or at the first that reaches headerBits + cap, or at the
      end of the data. */
  function JsPixelsRead(n: nat, headerBits: nat, v: nat, cap: nat): nat {
    Min(n, CeilDiv3(headerBits + Min(v, cap)))
  }

  /** The digits the reading loop collects when it reads at most headerBits + cap of them, or its
      "There is no hidden message" on a rejected header. */
  function JsStreamSpec(data: seq<Octet>, headerBits: nat, cap: nat): (r: Result<Text>)
    requires |data| % 4 == 0 && 1 <= headerBits <= 3 * (|data| / 4)
    ensures r.Thrown? ==> r.fault == NoHiddenMessage
  {
    var v := HeaderValue(data, headerBits);
    if HeaderRejected(v) then Thrown(NoHiddenMessage)
    else Ok(JsLsbs(data, JsPixelsRead(|data| / 4, headerBits, v, cap)))
  }

  /** The checks after the reading loop: enough digits for the header, a positive length, enough
      digits after the header for the message, and a message length divisible by 8. */
  function JsValidate(bits: Text, headerBits: nat): (r: Result<Text>)
    requires IsBits(bits) && headerBits >= 1
    ensures r.Ok? <==> && headerBits <= |bits|
                        && 0 < Value(bits[..headerBits]) <= |bits| - headerBits
                        && Value(bits[..headerBits]) % 8 == 0
    ensures r.Ok? ==> r.value == bits[headerBits..headerBits + Value(bits[..headerBits])]
    ensures r.Ok? ==> IsBits(r.value)
    ensures r.Thrown? ==> r.fault == NoHiddenMessage
  {
    if |bits| < headerBits then Thrown(NoHiddenMessage)
    else
      var v := Value(bits[..headerBits]);
      if v <= 0 || v > |bits| - headerBits then Thrown(NoHiddenMessage)
      else if |bits[headerBits..headerBits + v]| % 8 != 0 then Thrown(NoHiddenMessage)
      else
        DecodeBinary.BitsSlice(bits, headerBits, headerBits + v);
        Ok(bits[headerBits..headerBits + v])
  }

  /** `decodeFromImage` with the reading loop capped at headerBits + cap digits: a grid smaller
      than the header, then the reading loop, then the checks. */
  function JsDecodeCapped(data: seq<Octet>, headerBits: nat, cap: nat): (r: Result<Text>)
    requires |data| % 4 == 0 && headerBits >= 1
    ensures 3 * (|data| / 4) < headerBits ==> r == Thrown(NoHiddenMessage)
    ensures r.Ok? ==> IsBits(r.value) && 0 < |r.value| <= MaxMessage && |r.value| % 8 == 0
    ensures r.Ok? ==> headerBits + |r.value| <= 3 * (|data| / 4)
    ensures r.Thrown? ==> r.fault == NoHiddenMessage
  {
    if 3 * (|data| / 4) < headerBits then Thrown(NoHiddenMessage)
    else match JsStreamSpec(data, headerBits, cap)
      case Thrown(e) => Thrown(e)
      case Ok(bits) =>
        JsStreamHeader(data, headerBits, cap, bits);
        JsValidate(bits, headerBits)
  }

  /** The digits the loop returns start with the header digits, whose value passed the header
      check. */
  lemma JsStreamHeader(data: seq<Octet>, headerBits: nat, cap: nat, bits: Text)
    requires |data| % 4 == 0 && 1 <= headerBits <= 3 * (|data| / 4)
    requires JsStreamSpec(data, headerBits, cap) == Ok(bits)
    ensures headerBits <= |bits| <= 3 * (|data| / 4)
    ensures Value(bits[..headerBits]) == HeaderValue(data, headerBits)
    ensures !HeaderRejected(HeaderValue(data, headerBits))
  {
    var v := HeaderValue(data, headerBits);
    var p := JsPixelsRead(|data| / 4, headerBits, v, cap);
    JsHeaderStable(data, headerBits, p);
  }

  /** `decodeFromImage(imageData, headerBits)` as written, reading at most headerBits + 10^7
      digits. */
  function JsDecodeSpec(data: seq<Octet>, headerBits: nat): (r: Result<Text>)
    requires |data| % 4 == 0 && headerBits >= 1
  {
    JsDecodeCapped(data, headerBits, ReadCap)
  }

  /** `decodeFromImage` with the reading cap raised to the 10^8 digits its header check admits. */
  function JsDecodeFixedSpec(data: seq<Octet>, headerBits: nat): (r: Result<Text>)
    requires |data| % 4 == 0 && headerBits >= 1
  {
    JsDecodeCapped(data, headerBits, MaxMessage)
  }

  // ---------------------------------------------------------------------------------------
  // The reading loop and the checks

  /** The pixel after which the reading loop stops: the one that completes the header when the
      header is rejected, and `JsPixelsRead` otherwise. */
  ghost function JsStopPixel(data: seq<Octet>, headerBits: nat, cap: nat): (stop: nat)
    requires |data| % 4 == 0 && 1 <= headerBits <= 3 * (|data| / 4) && cap >= 1
    ensures CeilDiv3(headerBits) <= stop <= |data| / 4
  {
    var v := HeaderValue(data, headerBits);
    if HeaderRejected(v) then CeilDiv3(headerBits) else JsPixelsRead(|data| / 4, headerBits, v, cap)
  }

  /** The digits the loop returns are those of the first `JsStopPixel` pixels. */
  lemma JsStreamStop(data: seq<Octet>, headerBits: nat, cap: nat)
    requires |data| % 4 == 0 && 1 <= headerBits <= 3 * (|data| / 4) && cap >= 1
    ensures HeaderRejected(HeaderValue(data, headerBits)) ==>
      JsStreamSpec(data, headerBits, cap) == Thrown(NoHiddenMessage)
    ensures !HeaderRejected(HeaderValue(data, headerBits)) ==>
      JsStreamSpec(data, headerBits, cap) == Ok(JsLsbs(data, JsStopPixel(data, headerBits, cap)))
  {
  }

  /** One more pixel read, after pixels that gave no reason to stop: the loop either stops there,
      at `stop`, or still has no reason to stop (no later pixel may be read once the cap or the
      end of the data is reached). */
  lemma JsReadStep(n: nat, headerBits: nat, v: nat, cap: nat, stop: nat, q: nat)
    requires 1 <= headerBits <= 3 * n && cap >= 1 && 0 < q <= n
    requires stop == if HeaderRejected(v) then CeilDiv3(headerBits) else JsPixelsRead(n, headerBits, v, cap)
    requires q - 1 < stop
    ensures q <= stop
    ensures 3 * q >= headerBits && HeaderRejected(v) ==> q == stop
    ensures 3 * q >= headerBits && !HeaderRejected(v) && 3 * q >= headerBits + v ==> q == stop
    ensures 3 * q < headerBits || (!HeaderRejected(v) && 3 * q < headerBits + v) ==>
      q < stop || q == n || 3 * q >= headerBits + cap
  {
  }

  /** When the loop runs out of data or reaches the cap, it has read `stop` pixels. */
  lemma JsReadEnd(n: nat, headerBits: nat, v: nat, cap: nat, stop: nat, p: nat)
    requires 1 <= headerBits <= 3 * n && cap >= 1 && p <= stop
    requires stop == if HeaderRejected(v) then CeilDiv3(headerBits) else JsPixelsRead(n, headerBits, v, cap)
    requires stop <= n && (p == n || 3 * p >= headerBits + cap)
    requires 3 * p >= headerBits ==> !HeaderRejected(v)
    ensures p == stop
  {
  }

  /** Once p pixels hold the header, the first headerBits digits read are the header digits. */
  lemma JsHeaderStable(data: seq<Octet>, headerBits: nat, p: nat)
    requires 1 <= headerBits <= 3 * p && 4 * p <= |data|
    ensures JsLsbs(data, p)[..headerBits] == JsLsbs(data, CeilDiv3(headerBits))[..headerBits]
  {
    var first := CeilDiv3(headerBits);
    JsLsbsPrefix(data, first, p);
    assert JsLsbs(data, p)[..headerBits] == JsLsbs(data, p)[..3 * first][..headerBits];
  }

  /** The three digits of pixel p extend those of the pixels before it. */
  lemma JsLsbsStep(data: seq<Octet>, p: nat, read: Text)
    requires 4 * p + 4 <= |data| && read == JsLsbs(data, p)
    ensures read + [LowBitOf(data[4 * p])] + [LowBitOf(data[4 * p + 1])] + [LowBitOf(data[4 * p + 2])]
            == JsLsbs(data, p + 1)
  {
  }

  /** The reading loop of `decodeFromImage`, at most headerBits + cap digits: three digits per
      pixel, the header check once the header is complete, and the break once the announced
      message is in. */
  method JsReadBits(image: JsImage, headerBits: nat, cap: nat) returns (r: Result<Text>)
    requires image.Valid() && 1 <= headerBits <= 3 * (image.width * image.height) && cap >= 1
    ensures r == JsStreamSpec(image.data[..], headerBits, cap)
  {
    var data := image.data;
    ghost var d := data[..];
    ghost var n := image.width * image.height;
    assert |d| / 4 == n;
    ghost var v := HeaderValue(d, headerBits);
    ghost var stop := JsStopPixel(d, headerBits, cap);
    JsStreamStop(d, headerBits, cap);
    ghost var p: nat := 0;
    ghost var stopped := false;
    var bitsArray: Text := [];
    var bitsRead := 0;
    var messageLength := 0;
    var totalNeeded := 0;
    var i := 0;
    while i < data.Length && bitsRead < headerBits + cap
      invariant i == 4 * p && p <= stop <= n
      invariant bitsRead == 3 * p && bitsArray == JsLsbs(d, p)
      invariant p < stop || p == n || 3 * p >= headerBits + cap
      invariant 3 * p >= headerBits ==>
        !HeaderRejected(v) && messageLength == v && totalNeeded == headerBits + v
      invariant 3 * p < headerBits ==> messageLength == 0 && totalNeeded == 0
      decreases data.Length - i
    {
      bitsArray, bitsRead := JsReadPixel(data, i, bitsArray, bitsRead, p);
      p := p + 1;
      JsReadStep(n, headerBits, v, cap, stop, p);
      var rejected;
      rejected, messageLength, totalNeeded :=
        JsHeaderCheck(bitsArray, headerBits, bitsRead, messageLength, totalNeeded, d, p, v);
      if rejected {
        return Thrown(NoHiddenMessage);
      }
      if totalNeeded > 0 && bitsRead >= totalNeeded {
        assert p == stop && !HeaderRejected(v);
        stopped := true;
        break;
      }
      i := i + 4;
    }
    if !stopped {
      JsReadEnd(n, headerBits, v, cap, stop, p);
    }
    return Ok(bitsArray);
  }

  /** The header check of one pass: once the header is complete and no length is known yet,
      the header is parsed, a length of 0 or above 10^8 is rejected, and the total number of
      digits needed is set. */
  method JsHeaderCheck(bits: Text, headerBits: nat, bitsRead: int, messageLength: int,
                       totalNeeded: int, ghost d: seq<Octet>, ghost p: nat, ghost v: nat)
    returns (rejected: bool, length: int, needed: int)
    requires headerBits >= 1 && p >= 1 && 4 * p <= |d| && bits == JsLsbs(d, p) && bitsRead == 3 * p
    requires 4 * CeilDiv3(headerBits) <= |d| && v == HeaderValue(d, headerBits)
    requires 3 * (p - 1) >= headerBits ==>
      !HeaderRejected(v) && messageLength == v && totalNeeded == headerBits + v
    requires 3 * (p - 1) < headerBits ==> messageLength == 0 && totalNeeded == 0
    ensures rejected <==> 3 * p >= headerBits && HeaderRejected(v)
    ensures !rejected && 3 * p >= headerBits ==> length == v && needed == headerBits + v
    ensures 3 * p < headerBits ==> length == 0 && needed == 0
  {
    rejected, length, needed := false, messageLength, totalNeeded;
    if bitsRead >= headerBits && messageLength == 0 {
      JsHeaderStable(d, headerBits, p);
      length := ParseHeader(bits, headerBits);
      if length <= 0 || length > MaxMessage {
        return true, length, needed;
      }
      needed := headerBits + length;
    }
  }

  /** Pushing the R, G and B digits of the pixel at byte i, counting each. */
  method JsReadPixel(data: array<Octet>, i: nat, bits: Text, read: int, ghost p: nat)
    returns (next: Text, nextRead: int)
    requires i == 4 * p && i + 4 <= data.Length && bits == JsLsbs(data[..], p) && read == 3 * p
    ensures next == JsLsbs(data[..], p + 1) && nextRead == 3 * (p + 1)
  {
    JsLsbsStep(data[..], p, bits);
    next, nextRead := bits, read;
    next := next + [LowBitOf(data[i])];
    nextRead := nextRead + 1;
    next := next + [LowBitOf(data[i + 1])];
    nextRead := nextRead + 1;
    next := next + [LowBitOf(data[i + 2])];
    nextRead := nextRead + 1;
  }

  /** `parseInt(bits.slice(0, headerBits).join(''), 2)` on digits read from the image. */
  method ParseHeader(bits: Text, headerBits: nat) returns (v: int)
    requires IsBits(bits) && 1 <= headerBits <= |bits|
    ensures v == Value(bits[..headerBits])
  {
    var headerBinary := bits[..headerBits];
    DecodeBinary.BitsSlice(bits, 0, headerBits);
    assert bits[0..headerBits] == headerBinary;
    JsParseIntBits(headerBinary);
    v := JsParseInt(headerBinary).value;
  }

  /** The checks after the reading loop, with `parseInt(headerBinary, 2)` for the length. */
  method JsCheckBits(allBits: Text, headerBits: nat) returns (r: Result<Text>)
    requires IsBits(allBits) && headerBits >= 1
    ensures r == JsValidate(allBits, headerBits)
  {
    if |allBits| < headerBits {
      return Thrown(NoHiddenMessage);
    }
    var messageBitLength := ParseHeader(allBits, headerBits);
    if messageBitLength <= 0 {
      return Thrown(NoHiddenMessage);
    }
    if messageBitLength > |allBits| - headerBits {
      return Thrown(NoHiddenMessage);
    }
    var messageBinary := allBits[headerBits..headerBits + messageBitLength];
    if |messageBinary| % 8 != 0 {
      return Thrown(NoHiddenMessage);
    }
    return Ok(messageBinary);
  }

  /** `decodeFromImage` with the reading loop capped at headerBits + cap digits. */
  method JsDecodeWithCap(image: JsImage, headerBits: nat, cap: nat) returns (r: Result<Text>)
    requires image.Valid() && headerBits >= 1 && cap >= 1
    ensures r == JsDecodeCapped(image.data[..], headerBits, cap)
  {
    var maxPossible := image.width * image.height * 3;
    assert image.data.Length / 4 == image.width * image.height;
    if maxPossible < headerBits {
      return Thrown(NoHiddenMessage);
    }
    var bits := JsReadBits(image, headerBits, cap);
    if bits.Thrown? {
      return bits;
    }
    r := JsCheckBits(bits.value, headerBits);
  }

  /** `decodeFromImage(imageData, headerBits)`, as written. */
  method DecodeFromImage(image: JsImage, headerBits: nat) returns (r: Result<Text>)
    requires image.Valid() && headerBits >= 1
    ensures r == JsDecodeSpec(image.data[..], headerBits)
  {
    r := JsDecodeWithCap(image, headerBits, ReadCap);
  }

  /** `decodeFromImage` with the reading cap it evidently intends: as far as the header check
      admits. */
  method DecodeFromImageFixed(image: JsImage, headerBits: nat) returns (r: Result<Text>)
    requires image.Valid() && headerBits >= 1
    ensures r == JsDecodeFixedSpec(image.data[..], headerBits)
  {
    r := JsDecodeWithCap(image, headerBits, MaxMessage);
  }

  // ---------------------------------------------------------------------------------------
  // Decoding what was encoded

  /** Pixel q of the bytes e gives back frame digits 3q, 3q + 1 and 3q + 2, as far as the frame
      goes. */
  predicate JsCarries(e: seq<Octet>, full: Text, q: nat)
    requires 4 * q + 4 <= |e|
  {
    forall c | 0 <= c < 3 && 3 * q + c < |full| :: JsPixelBits(e, q)[c] == full[3 * q + c]
  }

  /** Every pixel of an embedded image carries its part of the frame. */
  lemma JsPixelDigits(data: seq<Octet>, full: Text, q: nat)
    requires IsBits(full) && 4 * q + 4 <= |data|
    ensures JsCarries(JsEmbedded(data, full), full, q)
  {
    forall c | 0 <= c < 3 && 3 * q + c < |full|
      ensures JsPixelBits(JsEmbedded(data, full), q)[c] == full[3 * q + c]
    {
      JsChannelCarried(data, full, q, c);
    }
  }

  lemma JsChannelCarried(data: seq<Octet>, full: Text, q: nat, c: nat)
    requires IsBits(full) && 4 * q + 4 <= |data| && c < 3 && 3 * q + c < |full|
    ensures JsPixelBits(JsEmbedded(data, full), q)[c] == full[3 * q + c]
  {
    JsEmbeddedByte(data, full, q, c);
  }

  /** Pixels that each carry their part of a frame are read back as the frame. */
  lemma {:induction false} JsLsbsCarried(e: seq<Octet>, full: Text, m: nat)
    requires 4 * m <= |e|
    requires forall q | 0 <= q < m :: JsCarries(e, full, q)
    ensures forall j | 0 <= j < 3 * m && j < |full| :: JsLsbs(e, m)[j] == full[j]
  {
    if m > 0 {
      var k := m - 1;
      JsLsbsCarried(e, full, k);
      var before := JsLsbs(e, k);
      var last := JsPixelBits(e, k);
      var now := JsLsbs(e, m);
      assert now == before + last;
      assert JsCarries(e, full, k);
      forall j | 0 <= j < 3 * m && j < |full|
        ensures now[j] == full[j]
      {
        if j < 3 * k {
          assert now[j] == before[j];
        } else {
          assert now[j] == last[j - 3 * k];
        }
      }
    }
  }

  /** The frame of a payload of binary digits is made of binary digits. */
  lemma JsFrameBits(payload: Text, headerBits: nat)
    requires headerBits >= 1 && |payload| < Pow2(headerBits) && IsBits(payload)
    ensures IsBits(JsFrame(payload, headerBits))
  {
    var f := JsFrame(payload, headerBits);
    JsFrameHeader(payload, headerBits);
    assert f == f[..headerBits] + f[headerBits..];
  }

  /** The first k digits read from pixels that carry a frame are the frame's first k. */
  lemma JsCarriedPrefix(e: seq<Octet>, full: Text, p: nat, k: nat)
    requires 4 * p <= |e| && k <= 3 * p && k <= |full|
    requires forall q | 0 <= q < |e| / 4 :: JsCarries(e, full, q)
    ensures JsLsbs(e, p)[..k] == full[..k]
  {
    JsLsbsCarried(e, full, p);
    DecodeBinary.AgreeSlice(JsLsbs(e, p), full, 0, k);
    assert JsLsbs(e, p)[0..k] == JsLsbs(e, p)[..k] && full[0..k] == full[..k];
  }

  /** The reading loop over pixels that carry a frame whose header announces length L: it accepts
      the header, reads the pixels `JsPixelsRead` gives, and those start with the header; when
      the cap does not cut the reading short, they start with the whole frame. */
  lemma JsStreamCarried(e: seq<Octet>, full: Text, headerBits: nat, L: nat, cap: nat)
    requires |e| % 4 == 0 && headerBits >= 1 && cap >= 1 && |full| == headerBits + L
    requires Value(full[..headerBits]) == L && 0 < L <= MaxMessage
    requires headerBits + L <= 3 * (|e| / 4)
    requires forall q | 0 <= q < |e| / 4 :: JsCarries(e, full, q)
    ensures var p := JsPixelsRead(|e| / 4, headerBits, L, cap);
      && JsStreamSpec(e, headerBits, cap) == Ok(JsLsbs(e, p))
      && headerBits <= 3 * p
      && JsLsbs(e, p)[..headerBits] == full[..headerBits]
      && (L <= cap ==> |full| <= 3 * p && JsLsbs(e, p)[..|full|] == full)
  {
    var n := |e| / 4;
    JsCarriedPrefix(e, full, CeilDiv3(headerBits), headerBits);
    assert HeaderValue(e, headerBits) == L;
    JsStreamStop(e, headerBits, cap);
    var p := JsPixelsRead(n, headerBits, L, cap);
    assert JsStopPixel(e, headerBits, cap) == p;
    JsCarriedPrefix(e, full, p, headerBits);
    if L <= cap {
      JsCarriedPrefix(e, full, p, |full|);
      assert full[..|full|] == full;
    }
  }

  /** Collected digits that start with a frame announcing a whole number of bytes pass the checks,
      which return its payload. */
  lemma JsAcceptFrame(bits: Text, full: Text, payload: Text, headerBits: nat)
    requires IsBits(bits) && headerBits >= 1
    requires |full| == headerBits + |payload| <= |bits| && bits[..|full|] == full
    requires full[headerBits..] == payload && Value(full[..headerBits]) == |payload|
    requires 0 < |payload| && |payload| % 8 == 0
    ensures JsValidate(bits, headerBits) == Ok(payload)
  {
    var need := |full|;
    assert bits[..headerBits] == full[..headerBits] by {
      assert bits[..headerBits] == bits[..need][..headerBits];
    }
    assert bits[headerBits..need] == payload by {
      assert bits[headerBits..need] == bits[..need][headerBits..];
    }
  }

  /** `decodeFromImage(encodeToImage(img, m, headerBits), headerBits) == m` for every message of
      binary digits that the header can count, that the image holds, that is whole bytes, and that
      is no longer than the reading cap and the header check allow. */
  lemma JsDecodeEncoded(data: seq<Octet>, payload: Text, headerBits: nat, cap: nat)
    requires |data| % 4 == 0 && headerBits >= 1 && cap >= 1
    requires IsBits(payload) && |payload| < Pow2(headerBits)
    requires 0 < |payload| <= cap && |payload| <= MaxMessage && |payload| % 8 == 0
    requires headerBits + |payload| <= 3 * (|data| / 4)
    ensures JsDecodeCapped(JsEmbedded(data, JsFrame(payload, headerBits)), headerBits, cap) == Ok(payload)
  {
    var f := JsFrame(payload, headerBits);
    var e := JsEmbedded(data, f);
    JsFrameHeader(payload, headerBits);
    JsFrameBits(payload, headerBits);
    forall q | 0 <= q < |e| / 4 ensures JsCarries(e, f, q) {
      JsPixelDigits(data, f, q);
    }
    JsStreamCarried(e, f, headerBits, |payload|, cap);
    var p := JsPixelsRead(|e| / 4, headerBits, |payload|, cap);
    JsAcceptFrame(JsLsbs(e, p), f, payload, headerBits);
  }

  /** The decoder as written loses every message longer than 10^7 digits that its header check
      admits: the reading loop stops at headerBits + 10^7 digits, at most two more, so the
      announced length exceeds the digits available, or is not whole bytes. */
  lemma JsDecodeDropsLong(data: seq<Octet>, payload: Text, headerBits: nat)
    requires |data| % 4 == 0 && headerBits >= 1
    requires IsBits(payload) && |payload| < Pow2(headerBits)
    requires ReadCap < |payload| <= MaxMessage
    requires headerBits + |payload| <= 3 * (|data| / 4)
    ensures JsDecodeSpec(JsEmbedded(data, JsFrame(payload, headerBits)), headerBits) == Thrown(NoHiddenMessage)
  {
    var f := JsFrame(payload, headerBits);
    var e := JsEmbedded(data, f);
    JsFrameHeader(payload, headerBits);
    JsFrameBits(payload, headerBits);
    forall q | 0 <= q < |e| / 4 ensures JsCarries(e, f, q) {
      JsPixelDigits(data, f, q);
    }
    JsStreamCarried(e, f, headerBits, |payload|, ReadCap);
    var p := JsPixelsRead(|e| / 4, headerBits, |payload|, ReadCap);
    CapCutsShort(|e| / 4, headerBits, |payload|);
    var bits := JsLsbs(e, p);
    assert Value(bits[..headerBits]) == |payload|;
    assert JsValidate(bits, headerBits) == Thrown(NoHiddenMessage);
    assert JsStreamSpec(e, headerBits, ReadCap) == Ok(bits);
    assert JsDecodeCapped(e, headerBits, ReadCap) == JsValidate(bits, headerBits);
  }

  /** Arithmetic of the cut: reading stops within two digits past headerBits + 10^7, which
      leaves too few digits for a longer length, unless that length is 10^7 + 1 or 10^7 + 2,
      neither a whole number of bytes. */
  lemma CapCutsShort(n: nat, headerBits: nat, L: nat)
    requires ReadCap < L && headerBits + L <= 3 * n
    ensures var p := JsPixelsRead(n, headerBits, L, ReadCap);
      L > 3 * p - headerBits || L % 8 != 0
  {
    var p := JsPixelsRead(n, headerBits, L, ReadCap);
    assert p <= CeilDiv3(headerBits + ReadCap);
    assert 3 * p <= headerBits + ReadCap + 2;
    if L <= ReadCap + 2 {
      assert ReadCap % 8 == 0;
      assert L % 8 == 1 || L % 8 == 2;
    }
  }

  /** With the cap the header check implies, every message it admits comes back: the corrected
      decoder inverts `encodeToImage` for all lengths up to 10^8. */
  lemma JsDecodeFixedEncoded(data: seq<Octet>, payload: Text, headerBits: nat)
    requires |data| % 4 == 0 && headerBits >= 1
    requires IsBits(payload) && |payload| < Pow2(headerBits)
    requires 0 < |payload| <= MaxMessage && |payload| % 8 == 0
    requires headerBits + |payload| <= 3 * (|data| / 4)
    ensures JsDecodeFixedSpec(JsEmbedded(data, JsFrame(payload, headerBits)), headerBits) == Ok(payload)
  {
    JsDecodeEncoded(data, payload, headerBits, MaxMessage);
  }

  /** `calculateCapacity` is the number of digits the reading loop can collect from the image. */
  lemma CapacityIsDigits(data: seq<Octet>, width: nat, height: nat)
    requires |data| == 4 * (width * height)
    ensures CalculateCapacity(width, height) == |JsLsbs(data, width * height)|
  {
  }
}
