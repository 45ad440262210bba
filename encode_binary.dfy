/** `EncodeBinary.encode` and `SteganographyApp.Encoder.encode`: the payload's length is written
    as a fixed-width binary header in front of it, and the frame (header then payload) is spread
    over the lowest bits of the red, green and blue channels, pixel after pixel in row-major
    order. Reading the image and writing it back to a file are not part of the model: the
    method receives the grid and changes it in place. */
module EncodeBinary {
  import opened Outcomes
  import opened Binary
  import opened Raster

  /** `fullData.charAt(i) - '0'` as a Java int in two's complement: 0 for '0' and 1 for '1'. */
  function DigitBits(c: CodeUnit): bv32 {
    if c == Bit0 then 0 else if c == Bit1 then 1 else IntBits(c as int - 48)
  }

  /** The 32 bits of a Java int in two's complement. */
  function IntBits(v: int): bv32 {
    (v % 0x1_0000_0000) as bv32
  }

  /** `(c & 0xFE) | d`: the channel with its lowest bit replaced. */
  function SetLsb(c: bv32, d: bv32): bv32 {
    (c & 0xFE) | d
  }

  /** The value a channel takes for frame position k; past the end of the frame it is kept. */
  function Channel(c: bv32, frame: Text, k: nat): bv32 {
    if k < |frame| then SetLsb(c, DigitBits(frame[k])) else c
  }

  /** A visited pixel: frame positions k, k + 1 and k + 2 go into red, green and blue, and the
      channels are packed again. */
  function StampPixel(rgb: bv32, frame: Text, k: nat): bv32 {
    Pack(Channel(Red(rgb), frame, k), Channel(Green(rgb), frame, k + 1),
         Channel(Blue(rgb), frame, k + 2))
  }

  /** The grid after the embedding loop. Pixel p is visited when its first channel, frame position
      3p, is still inside the frame; every later pixel keeps its value. */
  function Embedded(pixels: seq<bv32>, frame: Text): seq<bv32> {
    seq(|pixels|, p requires 0 <= p < |pixels| =>
      if 3 * p < |frame| then StampPixel(pixels[p], frame, 3 * p) else pixels[p])
  }

  /** A pixel that took frame positions k, k + 1 and k + 2: each channel keeps its upper seven
      bits; its lowest bit is the frame digit when the frame reaches that channel, and the channel
      is kept whole otherwise; the top (alpha) byte is 0. */
  predicate LsbStamped(was: bv32, now: bv32, frame: Text, k: nat)
    requires k < |frame|
  {
    && now >> 24 == 0
    && Red(now) & 0xFE == Red(was) & 0xFE
    && Green(now) & 0xFE == Green(was) & 0xFE
    && Blue(now) & 0xFE == Blue(was) & 0xFE
    && LowBit(Red(now)) == frame[k]
    && (k + 1 < |frame| ==> LowBit(Green(now)) == frame[k + 1])
    && (k + 1 >= |frame| ==> Green(now) == Green(was))
    && (k + 2 < |frame| ==> LowBit(Blue(now)) == frame[k + 2])
    && (k + 2 >= |frame| ==> Blue(now) == Blue(was))
  }

  /** What embedding a frame of binary digits does to pixel p: a pixel the frame does not reach
      is left as it was, and a visited one is stamped with its three frame digits. */
  lemma EmbeddedPixel(pixels: seq<bv32>, frame: Text, p: nat)
    requires IsBits(frame) && p < |pixels|
    ensures 3 * p >= |frame| ==> Embedded(pixels, frame)[p] == pixels[p]
    ensures 3 * p < |frame| ==> LsbStamped(pixels[p], Embedded(pixels, frame)[p], frame, 3 * p)
  {
    if 3 * p < |frame| {
      StampedPixel(pixels[p], frame, 3 * p);
    }
  }

  /** A pixel stamped with frame positions k, k + 1 and k + 2. */
  lemma StampedPixel(rgb: bv32, frame: Text, k: nat)
    requires IsBits(frame) && k < |frame|
    ensures LsbStamped(rgb, StampPixel(rgb, frame, k), frame, k)
  {
    var r, g, b := Channel(Red(rgb), frame, k), Channel(Green(rgb), frame, k + 1),
                   Channel(Blue(rgb), frame, k + 2);
    var now := StampPixel(rgb, frame, k);
    assert now == Pack(r, g, b);
    ChannelBits(Red(rgb), frame, k);
    ChannelBits(Green(rgb), frame, k + 1);
    ChannelBits(Blue(rgb), frame, k + 2);
    PackChannels(r, g, b);
    assert Red(now) == r && Green(now) == g && Blue(now) == b;
  }

  /** One channel: an 8-bit value stays 8-bit, keeps its upper bits, and takes the frame digit as
      its lowest bit when the frame reaches it. */
  lemma ChannelBits(c: bv32, frame: Text, k: nat)
    requires IsBits(frame) && c <= 0xFF
    ensures Channel(c, frame, k) <= 0xFF
    ensures Channel(c, frame, k) & 0xFE == c & 0xFE
    ensures k < |frame| ==> LowBit(Channel(c, frame, k)) == frame[k]
    ensures k >= |frame| ==> Channel(c, frame, k) == c
  {
    if k < |frame| {
      var d := DigitBits(frame[k]);
      assert Channel(c, frame, k) == SetLsb(c, d);
      assert d <= 1 by {
        if frame[k] != Bit0 { assert frame[k] == Bit1; }
      }
      SetLsbBits(c, d);
    }
  }

  lemma SetLsbBits(c: bv32, d: bv32)
    requires c <= 0xFF && d <= 1
    ensures SetLsb(c, d) <= 0xFF && SetLsb(c, d) & 0xFE == c & 0xFE
    ensures LowBit(SetLsb(c, d)) == if d == 0 then Bit0 else Bit1
  {
  }

  /** `bigIntToFixedBinary(value, width)`: the binary digits of value, left-padded with '0' to
      width characters; a value with more digits than that is rejected. */
  function BigIntToFixedBinary(value: nat, width: nat): (r: Result<Text>)
    ensures width >= 1 ==> (r.Ok? <==> value < Pow2(width))
    ensures r.Ok? ==> |r.value| == width && IsBits(r.value) && Value(r.value) == value
    ensures r.Thrown? ==> r.fault == MessageTooLong
  {
    var s := BinaryString(value);
    assert width >= 1 ==> (|s| <= width <==> value < Pow2(width)) by {
      if width >= 1 { BinaryStringWidth(value, width); }
    }
    if |s| > width then Thrown(MessageTooLong)
    else
      PadLeftValue(s, width);
      Ok(PadLeft(s, width))
  }

  /** The string the loop embeds: the fixed-width length header, then the payload. */
  function Frame(data: Text, headerBits: nat): (frame: Text)
    requires headerBits >= 1 && |data| < Pow2(headerBits)
    ensures |frame| == headerBits + |data|
    ensures frame[headerBits..] == data
    ensures IsBits(frame[..headerBits]) && Value(frame[..headerBits]) == |data|
  {
    var header := BigIntToFixedBinary(|data|, headerBits).value;
    assert (header + data)[..headerBits] == header;
    header + data
  }

  /** What `encode(image, binaryData, headerBits)` does to the grid, or the exception it raises
      before touching it. */
  function EncodeSpec(pixels: seq<bv32>, data: Text, headerBits: int): (r: Result<seq<bv32>>)
    ensures r.Ok? <==> (headerBits == 64 || headerBits == 128) && |data| < Pow2(headerBits)
    ensures headerBits != 64 && headerBits != 128 ==> r == Thrown(BadHeaderWidth)
    ensures (headerBits == 64 || headerBits == 128) && |data| >= Pow2(headerBits) ==>
      r == Thrown(MessageTooLong)
    ensures r.Ok? ==> |r.value| == |pixels|
  {
    if headerBits != 64 && headerBits != 128 then Thrown(BadHeaderWidth)
    else if |data| > Pow2(headerBits) - 1 then Thrown(MessageTooLong)
    else Ok(Embedded(pixels, Frame(data, headerBits)))
  }

  /** `encode`: the header-width check, the length check, and the embedding loop over the grid. */
  method Encode(image: Image, binaryData: Text, headerBits: int) returns (r: Result<()>)
    requires image.Valid()
    modifies image.pixels
    ensures EncodeSpec(old(image.pixels[..]), binaryData, headerBits).Ok? ==>
      r == Ok(()) && image.pixels[..] == EncodeSpec(old(image.pixels[..]), binaryData, headerBits).value
    ensures EncodeSpec(old(image.pixels[..]), binaryData, headerBits).Thrown? ==>
      r == Thrown(EncodeSpec(old(image.pixels[..]), binaryData, headerBits).fault)
      && image.pixels[..] == old(image.pixels[..])
  {
    if headerBits != 64 && headerBits != 128 {
      return Thrown(BadHeaderWidth);
    }
    var messageLength := |binaryData|;
    if messageLength > Pow2(headerBits) - 1 {
      return Thrown(MessageTooLong);
    }
    var headerBinary := BigIntToFixedBinary(messageLength, headerBits).value;
    var fullData := headerBinary + binaryData;
    assert fullData == Frame(binaryData, headerBits);
    EmbedFrame(image, fullData);
    return Ok(());
  }

  /** The pixels before p carry their stamp and the others are still as they were. */
  ghost predicate StampedUpTo(now: seq<bv32>, before: seq<bv32>, frame: Text, p: nat) {
    && |now| == |before| && p <= |before|
    && forall q | 0 <= q < |before| ::
         now[q] == if q < p then StampPixel(before[q], frame, 3 * q) else before[q]
  }

  /** The nested row and column loops of `encode`, with the early exit once the frame is used
      up. */
  method EmbedFrame(image: Image, fullData: Text)
    requires image.Valid()
    modifies image.pixels
    ensures image.pixels[..] == Embedded(old(image.pixels[..]), fullData)
  {
    ghost var before := image.pixels[..];
    ghost var p: nat := 0;
    var dataIndex := 0;
    var y := 0;
    label outer:
    while y < image.height
      invariant y <= image.height && p == y * image.width
      invariant dataIndex == Min(3 * p, |fullData|) && 3 * p < |fullData| + 3
      invariant StampedUpTo(image.pixels[..], before, fullData, p)
    {
      var x := 0;
      ghost var rowStart := p;
      while x < image.width
        invariant x <= image.width && p == rowStart + x
        invariant dataIndex == Min(3 * p, |fullData|) && 3 * p < |fullData| + 3
        invariant StampedUpTo(image.pixels[..], before, fullData, p)
      {
        if dataIndex >= |fullData| {
          break outer;
        }
        assert Index(x, y, image.width, image.height) == p;
        var rgb := image.GetRGB(x, y);
        assert rgb == before[p];
        assert dataIndex == 3 * p;
        var stamped;
        stamped, dataIndex := EmbedPixel(rgb, fullData, dataIndex);
        ghost var was := image.pixels[..];
        image.SetRGB(x, y, stamped);
        StampStep(was, before, fullData, p);
        p := p + 1;
        x := x + 1;
      }
      RowEnd(y, image.width);
      y := y + 1;
    }
    assert p == |before| || 3 * p >= |fullData| by {
      if 3 * p < |fullData| {
        assert y == image.height;
        GridEnd(y, image.width, image.height);
      }
    }
    StampedAll(image.pixels[..], before, fullData, p);
  }

  /** The loop body for one pixel: its channels are taken apart, the next frame digits go into
      red, green and blue in turn, and the channels are packed again. */
  method EmbedPixel(rgb: bv32, fullData: Text, dataIndex: nat) returns (stamped: bv32, next: nat)
    requires dataIndex <= |fullData|
    ensures stamped == StampPixel(rgb, fullData, dataIndex)
    ensures next == Min(dataIndex + 3, |fullData|)
  {
    var r, g, b;
    next := dataIndex;
    r, next := EmbedChannel(Red(rgb), fullData, next);
    ChannelPast(Green(rgb), fullData, dataIndex + 1);
    g, next := EmbedChannel(Green(rgb), fullData, next);
    ChannelPast(Blue(rgb), fullData, dataIndex + 2);
    b, next := EmbedChannel(Blue(rgb), fullData, next);
    stamped := Pack(r, g, b);
  }

  /** A position clamped to the end of the frame leaves a channel as the position itself does. */
  lemma ChannelPast(c: bv32, frame: Text, k: nat)
    ensures Channel(c, frame, Min(k, |frame|)) == Channel(c, frame, k)
  {
  }

  /** One channel of the loop body: when frame digits are left, the next one goes into the
      channel's lowest bit and the position advances. */
  method EmbedChannel(c: bv32, fullData: Text, dataIndex: nat) returns (d: bv32, next: nat)
    requires dataIndex <= |fullData|
    ensures d == Channel(c, fullData, dataIndex)
    ensures next == Min(dataIndex + 1, |fullData|)
  {
    d, next := c, dataIndex;
    if dataIndex < |fullData| {
      d := SetLsb(c, DigitBits(fullData[dataIndex]));
      next := dataIndex + 1;
    }
  }

  /** Stamping pixel p extends the stamped prefix by one. */
  lemma StampStep(now: seq<bv32>, before: seq<bv32>, frame: Text, p: nat)
    requires StampedUpTo(now, before, frame, p) && p < |before|
    ensures StampedUpTo(now[p := StampPixel(before[p], frame, 3 * p)], before, frame, p + 1)
  {
  }

  /** When the loop ends, every pixel is as `Embedded` says. */
  lemma StampedAll(now: seq<bv32>, before: seq<bv32>, frame: Text, p: nat)
    requires StampedUpTo(now, before, frame, p)
    requires p == |before| || 3 * p >= |frame|
    requires 3 * p < |frame| + 3
    ensures now == Embedded(before, frame)
  {
    forall q | 0 <= q < |before|
      ensures now[q] == Embedded(before, frame)[q]
    {
    }
  }
}
