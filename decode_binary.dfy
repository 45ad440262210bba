/** `DecodeBinary.decode` and `SteganographyApp.Decoder.decode`: the lowest bits of red, green and
    blue are read back pixel after pixel, in the order the encoder wrote them, stopping once the
    header and the message it announces are in; then a chain of plausibility guards decides
    whether the bits after the header are a hidden message. The two versions differ only in how
    the reading loop turns the header into a number: `Long.parseLong` (which throws above
    `Long.MAX_VALUE`) or `BigInteger.longValue` (which keeps the low 64 bits). */
module DecodeBinary {
  import opened Outcomes
  import opened Binary
  import opened Raster
  import EncodeBinary

  /** The three digits `decode` appends for one pixel. */
  function PixelBits(rgb: bv32): Text {
    [LowBit(Red(rgb)), LowBit(Green(rgb)), LowBit(Blue(rgb))]
  }

  /** The digits read from the given pixels, in order. */
  function Lsbs(pixels: seq<bv32>): (bits: Text)
    ensures |bits| == 3 * |pixels| && IsBits(bits)
  {
    if pixels == [] then []
    else Lsbs(pixels[..|pixels| - 1]) + PixelBits(pixels[|pixels| - 1])
  }

  lemma LsbsStep(pixels: seq<bv32>, p: nat)
    requires p < |pixels|
    ensures Lsbs(pixels[..p + 1]) == Lsbs(pixels[..p]) + PixelBits(pixels[p])
  {
    assert pixels[..p + 1][..p] == pixels[..p];
  }

  /** Reading more pixels only appends: the digits of the first m pixels stay where they were. */
  lemma {:induction false} LsbsPrefix(pixels: seq<bv32>, m: nat, n: nat)
    requires m <= n <= |pixels|
    ensures Lsbs(pixels[..n])[..3 * m] == Lsbs(pixels[..m])
    decreases n
  {
    if m < n {
      LsbsStep(pixels, n - 1);
      LsbsPrefix(pixels, m, n - 1);
    } else {
      assert Lsbs(pixels[..n])[..3 * m] == Lsbs(pixels[..n]);
    }
  }

  /** How the reading loop turns the header digits into a length. */
  datatype HeaderReader =
    | ParseLong   // `Long.parseLong(header, 2)`, in `DecodeBinary`
    | LongValue   // `new BigInteger(header, 2).longValue()`, in `SteganographyApp.Decoder`

  /** A Java `long` result: the value modulo 2^64, in two's complement. */
  function WrapLong(v: int): (w: int)
    ensures -LongMax - 1 <= w <= LongMax
    ensures -LongMax - 1 <= v <= LongMax ==> w == v
  {
    (v + LongMax + 1) % (2 * LongMax + 2) - LongMax - 1
  }

  /** `a + b` for an int and a long: a long sum, wrapping past `Long.MAX_VALUE`. */
  function LongAdd(a: int, b: int): (sum: int)
    ensures -LongMax - 1 <= a + b <= LongMax ==> sum == a + b
  {
    WrapLong(a + b)
  }

  /** The length the reading loop takes from the header digits, or the NumberFormatException
      `Long.parseLong` throws when they exceed `Long.MAX_VALUE`. */
  function StreamLength(header: Text, reader: HeaderReader): (r: Result<int>)
    ensures Value(header) <= LongMax ==> r == Ok(Value(header))
    ensures reader == ParseLong && Value(header) > LongMax ==> r == Thrown(NumberFormat)
  {
    match reader
    case ParseLong => if Value(header) > LongMax then Thrown(NumberFormat) else Ok(Value(header))
    case LongValue => Ok(WrapLong(Value(header)))
  }

  /** The header digits: the first headerBits digits, complete after `CeilDiv3(headerBits)`
      pixels. */
  function HeaderDigits(pixels: seq<bv32>, headerBits: nat): (h: Text)
    requires 1 <= headerBits <= 3 * |pixels|
    ensures |h| == headerBits && IsBits(h)
  {
    Lsbs(pixels[..CeilDiv3(headerBits)])[..headerBits]
  }

  /** How many pixels the loop reads. From the pixel that completes the header on, it stops after
      the first pixel whose end reaches `need` = headerBits + length digits; when none does it
      reads the whole grid. */
  function PixelsRead(count: nat, headerBits: nat, need: int): (n: nat)
    requires headerBits <= 3 * count
    ensures CeilDiv3(headerBits) <= n <= count
  {
    var first := CeilDiv3(headerBits);
    if need <= 3 * first then first else Min(count, CeilDiv3(need))
  }

  /** The digits the reading loop collects, or the exception it raises. */
  function StreamSpec(pixels: seq<bv32>, headerBits: nat, reader: HeaderReader): (r: Result<Text>)
    requires 1 <= headerBits <= 3 * |pixels|
  {
    match StreamLength(HeaderDigits(pixels, headerBits), reader)
    case Thrown(e) => Thrown(e)
    case Ok(length) =>
      Ok(Lsbs(pixels[..PixelsRead(|pixels|, headerBits, LongAdd(headerBits, length))]))
  }

  /** Where the loop stops: when the grid runs out first it has read every pixel, otherwise the
      pixel it stops at reaches `need`; and no earlier pixel from the one that completes the
      header on reaches it. */
  lemma PixelsReadStops(count: nat, headerBits: nat, need: int, q: nat)
    requires 1 <= headerBits <= 3 * count
    ensures PixelsRead(count, headerBits, need) < count ==>
      need <= 3 * PixelsRead(count, headerBits, need)
    ensures CeilDiv3(headerBits) <= q < PixelsRead(count, headerBits, need) ==> 3 * q < need
  {
  }

  /** When the grid holds the announced frame, the loop reads all of it and at most two digits
      more (the rest of the last pixel). */
  lemma ReadStopsAfterFrame(count: nat, headerBits: nat, need: int)
    requires 1 <= headerBits <= need <= 3 * count
    ensures need <= 3 * PixelsRead(count, headerBits, need) <= need + 2
  {
  }

  /** Bytes the plausibility filter counts as text: printable ASCII, tab, line feed and carriage
      return. */
  predicate IsPrintable(v: nat) {
    (32 <= v <= 126) || v == 9 || v == 10 || v == 13
  }

  /** How many of the first k 8-digit groups of msg are printable. */
  function Printable(msg: Text, k: nat): (n: nat)
    requires 8 * k <= |msg|
    ensures n <= k
  {
    if k == 0 then 0
    else Printable(msg, k - 1) + (if IsPrintable(Value(msg[8 * (k - 1)..8 * k])) then 1 else 0)
  }

  /** The 70% filter over the first min(L / 8, 50) bytes. With at most 50 bytes checked, the
      `double` comparison `printable / checked < 0.7` rejects exactly when 10 · printable is less
      than 7 · checked. */
  predicate MostlyPrintable(msg: Text) {
    var checked := Min(|msg| / 8, 50);
    checked == 0 || 10 * Printable(msg, checked) >= 7 * checked
  }

  /** When the guards accept the collected digits: a header that is a positive length L, at most
      half of what the grid holds after the header, all of it read, small enough for an int
      substring, a whole number of bytes, and mostly printable. */
  predicate Plausible(bits: Text, headerBits: nat, capacity: nat)
    requires headerBits <= capacity
  {
    && headerBits <= |bits|
    && var length := Value(bits[..headerBits]);
    && 0 < length <= (capacity - headerBits) / 2
    && headerBits + length <= |bits|
    && length <= IntMax - headerBits
    && length % 8 == 0
    && MostlyPrintable(bits[headerBits..headerBits + length])
  }

  /** The guard chain after the reading loop: the message is the L digits after the header, and
      it is returned exactly when the digits are plausible. Every rejection is the uniform error,
      except a length past `Integer.MAX_VALUE - headerBits`. */
  function Validate(bits: Text, headerBits: nat, capacity: nat): (r: Result<Text>)
    requires headerBits <= capacity
    ensures r.Ok? <==> Plausible(bits, headerBits, capacity)
    ensures r.Ok? ==> r.value == bits[headerBits..headerBits + Value(bits[..headerBits])]
    ensures r.Thrown? ==> r.fault == NoHiddenMessage || r.fault == MessageTooLarge
  {
    if |bits| < headerBits then Thrown(NoHiddenMessage)
    else
      var length := Value(bits[..headerBits]);
      if length > LongMax || length <= 0 then Thrown(NoHiddenMessage)
      else
        var remaining := capacity - headerBits;
        if length > remaining || length > remaining / 2 then Thrown(NoHiddenMessage)
        else if |bits| < headerBits + length then Thrown(NoHiddenMessage)
        else if length > IntMax - headerBits then Thrown(MessageTooLarge)
        else Screen(bits[headerBits..headerBits + length])
  }

  /** "Message too large" needs more than `Integer.MAX_VALUE` collected digits: the guard before
      it already rejects a stream shorter than the frame, so the fault is out of reach for any
      stream a Java `StringBuilder` can hold. */
  lemma TooLargeNeedsLongStream(bits: Text, headerBits: nat, capacity: nat)
    requires headerBits <= capacity
    ensures Validate(bits, headerBits, capacity) == Thrown(MessageTooLarge) ==> |bits| > IntMax
  {
  }

  /** The last two guards, on the message digits alone: a whole number of bytes, mostly
      printable. */
  function Screen(msg: Text): (r: Result<Text>)
    ensures r.Ok? <==> |msg| % 8 == 0 && MostlyPrintable(msg)
    ensures r.Ok? ==> r.value == msg
    ensures r.Thrown? ==> r.fault == NoHiddenMessage
  {
    if |msg| % 8 != 0 || !MostlyPrintable(msg) then Thrown(NoHiddenMessage) else Ok(msg)
  }

  /** A stretch of binary digits is binary digits. */
  lemma BitsSlice(s: Text, i: nat, j: nat)
    requires IsBits(s) && i <= j <= |s|
    ensures IsBits(s[i..j])
  {
    assert forall k | 0 <= k < j - i :: s[i..j][k] == s[i + k];
  }

  /** What `decode(image, headerBits)` returns or throws for a grid of pixels. */
  function DecodeSpec(pixels: seq<bv32>, headerBits: nat, reader: HeaderReader): (r: Result<Text>)
    requires headerBits >= 1
    ensures 3 * |pixels| < headerBits ==> r == Thrown(NoHiddenMessage)
    ensures r.Ok? ==> IsBits(r.value) && 0 < |r.value| && |r.value| % 8 == 0
    ensures r.Ok? ==> headerBits + 2 * |r.value| <= 3 * |pixels|
  {
    if 3 * |pixels| < headerBits then Thrown(NoHiddenMessage)
    else
      match StreamSpec(pixels, headerBits, reader)
      case Thrown(e) => Thrown(e)
      case Ok(bits) => Validate(bits, headerBits, 3 * |pixels|)
  }

  // ---------------------------------------------------------------------------------------
  // Decoding what was encoded

  /** Pixel p of e gives back frame digits 3p, 3p + 1 and 3p + 2, as far as the frame goes. */
  predicate Carries(e: seq<bv32>, frame: Text, p: nat)
    requires p < |e|
  {
    forall j | 0 <= j < 3 && 3 * p + j < |frame| :: PixelBits(e[p])[j] == frame[3 * p + j]
  }

  /** The digits read from a stamped pixel are the frame digits it took. */
  lemma PixelDigits(pixels: seq<bv32>, frame: Text, p: nat)
    requires IsBits(frame) && p < |pixels|
    ensures Carries(EncodeBinary.Embedded(pixels, frame), frame, p)
  {
    if 3 * p < |frame| {
      var now := EncodeBinary.Embedded(pixels, frame)[p];
      EncodeBinary.EmbeddedPixel(pixels, frame, p);
      assert EncodeBinary.LsbStamped(pixels[p], now, frame, 3 * p);
    }
  }

  /** Pixels that each carry their part of a frame are read back as the frame. */
  lemma {:induction false} LsbsCarried(e: seq<bv32>, frame: Text, n: nat)
    requires n <= |e|
    requires forall p | 0 <= p < n :: Carries(e, frame, p)
    ensures forall k | 0 <= k < 3 * n && k < |frame| :: Lsbs(e[..n])[k] == frame[k]
  {
    if n > 0 {
      var m := n - 1;
      LsbsCarried(e, frame, m);
      LsbsStep(e, m);
      var before, last := Lsbs(e[..m]), PixelBits(e[m]);
      var now := Lsbs(e[..n]);
      assert now == before + last;
      assert Carries(e, frame, m);
      forall k | 0 <= k < 3 * n && k < |frame|
        ensures now[k] == frame[k]
      {
        if k < 3 * m {
          assert now[k] == before[k];
        } else {
          assert now[k] == last[k - 3 * m];
        }
      }
    }
  }

  /** Reading back an embedded frame of binary digits: the digits of the first n pixels agree
      with the frame as far as both go. */
  lemma LsbsEmbedded(pixels: seq<bv32>, frame: Text, n: nat)
    requires IsBits(frame) && n <= |pixels|
    ensures forall k | 0 <= k < 3 * n && k < |frame| ::
      Lsbs(EncodeBinary.Embedded(pixels, frame)[..n])[k] == frame[k]
  {
    var e := EncodeBinary.Embedded(pixels, frame);
    forall p | 0 <= p < n
      ensures Carries(e, frame, p)
    {
      PixelDigits(pixels, frame, p);
    }
    LsbsCarried(e, frame, n);
  }

  /** Digits that agree position by position give equal slices. */
  lemma AgreeSlice(a: Text, b: Text, i: nat, j: nat)
    requires i <= j <= |a| && j <= |b|
    requires forall k | 0 <= k < j :: a[k] == b[k]
    ensures a[i..j] == b[i..j]
  {
  }

  /** The frame `encode` embeds is made of binary digits when the payload is. */
  lemma FrameBits(data: Text, headerBits: nat)
    requires headerBits >= 1 && |data| < Pow2(headerBits) && IsBits(data)
    ensures IsBits(EncodeBinary.Frame(data, headerBits))
  {
    var frame := EncodeBinary.Frame(data, headerBits);
    assert frame == frame[..headerBits] + frame[headerBits..];
  }

  /** The reading loop over pixels that carry a frame whose header announces the rest: it finds
      the announced length and reads the whole frame back. */
  lemma StreamCarried(e: seq<bv32>, frame: Text, headerBits: nat, length: nat,
                      reader: HeaderReader)
    requires headerBits >= 1 && |frame| == headerBits + length
    requires IsBits(frame[..headerBits]) && Value(frame[..headerBits]) == length
    requires headerBits + length <= 3 * |e| && headerBits + length <= LongMax
    requires forall p | 0 <= p < |e| :: Carries(e, frame, p)
    ensures StreamSpec(e, headerBits, reader).Ok?
    ensures |frame| <= |StreamSpec(e, headerBits, reader).value|
    ensures StreamSpec(e, headerBits, reader).value[..|frame|] == frame
  {
    var first := CeilDiv3(headerBits);
    LsbsCarried(e, frame, first);
    AgreeSlice(Lsbs(e[..first]), frame, 0, headerBits);
    assert HeaderDigits(e, headerBits) == frame[..headerBits];
    assert StreamLength(HeaderDigits(e, headerBits), reader) == Ok(length);
    var need := headerBits + length;
    assert LongAdd(headerBits, length) == need;
    var n := PixelsRead(|e|, headerBits, need);
    ReadStopsAfterFrame(|e|, headerBits, need);
    StreamSpecStop(e, headerBits, reader);
    assert StopPixel(e, headerBits, reader) == n;
    var bits := Lsbs(e[..n]);
    LsbsCarried(e, frame, n);
    AgreeSlice(bits, frame, 0, need);
    assert frame[0..need] == frame;
  }

  /** The guards accept what the reading loop collects from pixels that carry a plausible frame,
      and return its payload. */
  lemma DecodeCarried(e: seq<bv32>, frame: Text, payload: Text, headerBits: nat,
                      reader: HeaderReader)
    requires headerBits >= 1 && |frame| == headerBits + |payload|
    requires frame[..headerBits] + payload == frame
    requires IsBits(frame[..headerBits]) && Value(frame[..headerBits]) == |payload|
    requires 0 < |payload| && |payload| % 8 == 0 && MostlyPrintable(payload)
    requires headerBits + 2 * |payload| <= 3 * |e| && headerBits + |payload| <= IntMax
    requires forall p | 0 <= p < |e| :: Carries(e, frame, p)
    ensures DecodeSpec(e, headerBits, reader) == Ok(payload)
  {
    StreamCarried(e, frame, headerBits, |payload|, reader);
    AcceptFrame(StreamSpec(e, headerBits, reader).value, frame, payload, headerBits, 3 * |e|);
  }

  /** Collected digits that start with a plausible frame pass the guards, which return its
      payload. */
  lemma AcceptFrame(bits: Text, frame: Text, payload: Text, headerBits: nat, capacity: nat)
    requires |frame| == headerBits + |payload| <= |bits| && bits[..|frame|] == frame
    requires frame[..headerBits] + payload == frame
    requires IsBits(frame[..headerBits]) && Value(frame[..headerBits]) == |payload|
    requires 0 < |payload| && |payload| % 8 == 0 && MostlyPrintable(payload)
    requires headerBits + 2 * |payload| <= capacity && headerBits + |payload| <= IntMax
    ensures Validate(bits, headerBits, capacity) == Ok(payload)
  {
    var need := |frame|;
    assert bits[..headerBits] == frame[..headerBits] by {
      assert bits[..headerBits] == bits[..need][..headerBits];
    }
    assert bits[headerBits..need] == payload by {
      assert bits[headerBits..need] == bits[..need][headerBits..];
      assert frame[headerBits..] == payload;
    }
    var length := |payload|;
    assert Value(bits[..headerBits]) == length;
    assert length <= (capacity - headerBits) / 2;
    assert bits[headerBits..headerBits + length] == payload;
    assert Plausible(bits, headerBits, capacity);
  }

  /** Decoding a grid that `encode` accepted returns the payload unchanged, with either header
      reader, provided the payload is a whole number of bytes, fits in half of what the grid
      holds after the header, fits in a Java string together with the header, and passes the
      printable filter. */
  lemma DecodeEncoded(pixels: seq<bv32>, payload: Text, headerBits: nat, reader: HeaderReader)
    requires headerBits == 64 || headerBits == 128
    requires IsBits(payload) && 0 < |payload| && |payload| % 8 == 0
    requires headerBits + 2 * |payload| <= 3 * |pixels|
    requires headerBits + |payload| <= IntMax
    requires MostlyPrintable(payload)
    ensures EncodeBinary.EncodeSpec(pixels, payload, headerBits).Ok?
    ensures DecodeSpec(EncodeBinary.EncodeSpec(pixels, payload, headerBits).value, headerBits,
                       reader) == Ok(payload)
  {
    Pow2Wide(headerBits);
    var frame := EncodeBinary.Frame(payload, headerBits);
    FrameBits(payload, headerBits);
    assert frame[..headerBits] + payload == frame;
    var e := EncodeBinary.Embedded(pixels, frame);
    assert EncodeBinary.EncodeSpec(pixels, payload, headerBits) == Ok(e);
    forall p | 0 <= p < |e|
      ensures Carries(e, frame, p)
    {
      PixelDigits(pixels, frame, p);
    }
    DecodeCarried(e, frame, payload, headerBits, reader);
  }

  // ---------------------------------------------------------------------------------------
  // The loops

  /** The pixel after which the reading loop stops: the one that completes the header when the
      header does not parse, and `PixelsRead` otherwise. */
  ghost function StopPixel(pixels: seq<bv32>, headerBits: nat, reader: HeaderReader): (stop: nat)
    requires 1 <= headerBits <= 3 * |pixels|
    ensures CeilDiv3(headerBits) <= stop <= |pixels|
  {
    match StreamLength(HeaderDigits(pixels, headerBits), reader)
    case Thrown(_) => CeilDiv3(headerBits)
    case Ok(length) => PixelsRead(|pixels|, headerBits, LongAdd(headerBits, length))
  }

  /** One more pixel read, after p pixels that gave no reason to stop: either the loop stops
      there, at `StopPixel`, or it still has no reason to stop. */
  lemma ReadStep(pixels: seq<bv32>, headerBits: nat, reader: HeaderReader, q: nat,
                 header: Result<int>, need: int, stop: nat)
    requires 1 <= headerBits <= 3 * |pixels| && 0 < q <= |pixels|
    requires header == StreamLength(HeaderDigits(pixels, headerBits), reader)
    requires need == Need(headerBits, header)
    requires stop == StopPixel(pixels, headerBits, reader)
    requires q - 1 < stop && (3 * (q - 1) >= headerBits ==> header.Ok?)
    ensures 3 * q >= headerBits && header.Ok? && 3 * q >= need ==> q == stop
    ensures 3 * q < headerBits || (header.Ok? && 3 * q < need) ==>
      && q <= stop && (q < stop || q == |pixels|)
      && (3 * q >= headerBits ==> header.Ok?)
  {
    if header.Ok? {
      PixelsReadStops(|pixels|, headerBits, need, q - 1);
      PixelsReadStops(|pixels|, headerBits, need, q);
    }
  }

  /** Once the header is complete, the first headerBits digits read are the header digits. */
  lemma HeaderStable(pixels: seq<bv32>, headerBits: nat, p: nat)
    requires 1 <= headerBits <= 3 * p && p <= |pixels|
    ensures Lsbs(pixels[..p])[..headerBits] == HeaderDigits(pixels, headerBits)
  {
    var first := CeilDiv3(headerBits);
    LsbsPrefix(pixels, first, p);
    assert Lsbs(pixels[..p])[..headerBits] == Lsbs(pixels[..p])[..3 * first][..headerBits];
  }

  /** The digits the loop returns are those of the first `StopPixel` pixels. */
  lemma StreamSpecStop(pixels: seq<bv32>, headerBits: nat, reader: HeaderReader)
    requires 1 <= headerBits <= 3 * |pixels|
    ensures StreamLength(HeaderDigits(pixels, headerBits), reader).Thrown? ==>
      StreamSpec(pixels, headerBits, reader)
      == Thrown(StreamLength(HeaderDigits(pixels, headerBits), reader).fault)
    ensures StreamLength(HeaderDigits(pixels, headerBits), reader).Ok? ==>
      StreamSpec(pixels, headerBits, reader)
      == Ok(Lsbs(pixels[..StopPixel(pixels, headerBits, reader)]))
  {
  }

  lemma AppendThree(s: Text, a: CodeUnit, b: CodeUnit, c: CodeUnit)
    ensures s + [a] + [b] + [c] == s + [a, b, c]
  {
  }

  /** The bits-needed total `headerBits + messageBitLength` as a Java long, once the header has
      parsed. */
  function Need(headerBits: nat, header: Result<int>): int {
    if header.Ok? then LongAdd(headerBits, header.value) else 0
  }

  /** The nested row and column loops of `decode`, with the header check after every pixel
      and the labelled break once the announced frame is in. */
  method ReadBits(image: Image, headerBits: nat, reader: HeaderReader) returns (r: Result<Text>)
    requires image.Valid() && 1 <= headerBits <= 3 * image.pixels.Length
    ensures r == StreamSpec(image.pixels[..], headerBits, reader)
  {
    ghost var pixels := image.pixels[..];
    ghost var header := StreamLength(HeaderDigits(pixels, headerBits), reader);
    ghost var stop := StopPixel(pixels, headerBits, reader);
    ghost var p: nat := 0;
    ghost var need := Need(headerBits, header);
    StreamSpecStop(pixels, headerBits, reader);
    var allBits: Text := [];
    var totalBitsRead := 0;
    var y := 0;
    label outer:
    while y < image.height
      invariant y <= image.height && p == y * image.width
      invariant p <= stop <= |pixels|
      invariant totalBitsRead == 3 * p && allBits == Lsbs(pixels[..p])
      invariant p <= stop && (p < stop || p == |pixels|)
      invariant 3 * p >= headerBits ==> header.Ok?
    {
      var x := 0;
      ghost var rowStart := p;
      while x < image.width
        invariant x <= image.width && p == rowStart + x
        invariant p <= stop <= |pixels|
        invariant totalBitsRead == 3 * p && allBits == Lsbs(pixels[..p])
        invariant p <= stop && (p < stop || p == |pixels|)
        invariant 3 * p >= headerBits ==> header.Ok?
      {
        assert Index(x, y, image.width, image.height) == p;
        var rgb := image.GetRGB(x, y);
        LsbsStep(pixels, p);
        ghost var read := allBits;
        allBits := allBits + [LowBit(Red(rgb))];
        totalBitsRead := totalBitsRead + 1;
        allBits := allBits + [LowBit(Green(rgb))];
        totalBitsRead := totalBitsRead + 1;
        allBits := allBits + [LowBit(Blue(rgb))];
        totalBitsRead := totalBitsRead + 1;
        AppendThree(read, LowBit(Red(rgb)), LowBit(Green(rgb)), LowBit(Blue(rgb)));
        assert allBits == Lsbs(pixels[..p + 1]);
        p := p + 1;
        ReadStep(pixels, headerBits, reader, p, header, need, stop);
        if totalBitsRead >= headerBits {
          HeaderStable(pixels, headerBits, p);
          var headerBinary := allBits[..headerBits];
          var messageBitLength := StreamLength(headerBinary, reader);
          assert messageBitLength == header;
          if messageBitLength.Thrown? {
            return Thrown(messageBitLength.fault);
          }
          var totalNeededBits := LongAdd(headerBits, messageBitLength.value);
          assert totalNeededBits == Need(headerBits, messageBitLength);
          if totalBitsRead >= totalNeededBits {
            break outer;
          }
        }
        x := x + 1;
      }
      RowEnd(y, image.width);
      y := y + 1;
    }
    assert p == stop by {
      if p != stop {
        assert y == image.height;
        GridEnd(y, image.width, image.height);
      }
    }
    return Ok(allBits);
  }

  /** The guard chain and the printable count after the reading loop. */
  method CheckMessage(allBits: Text, headerBits: nat, maxPossibleBits: nat) returns (r: Result<Text>)
    requires IsBits(allBits) && headerBits <= maxPossibleBits
    ensures r == Validate(allBits, headerBits, maxPossibleBits)
  {
    if |allBits| < headerBits {
      return Thrown(NoHiddenMessage);
    }
    var headerValue := Value(allBits[..headerBits]);
    if headerValue > LongMax {
      return Thrown(NoHiddenMessage);
    }
    if headerValue <= 0 {
      return Thrown(NoHiddenMessage);
    }
    var messageBitLength := headerValue;
    var remainingBits := maxPossibleBits - headerBits;
    if messageBitLength > remainingBits {
      return Thrown(NoHiddenMessage);
    }
    if messageBitLength > remainingBits / 2 {
      return Thrown(NoHiddenMessage);
    }
    if |allBits| < headerBits + messageBitLength {
      return Thrown(NoHiddenMessage);
    }
    if messageBitLength > IntMax - headerBits {
      return Thrown(MessageTooLarge);
    }
    var messageBinary := allBits[headerBits..headerBits + messageBitLength];
    BitsSlice(allBits, headerBits, headerBits + messageBitLength);
    r := ScreenMessage(messageBinary);
  }

  /** The byte-length check and the printable count over the first 50 bytes. */
  method ScreenMessage(messageBinary: Text) returns (r: Result<Text>)
    requires IsBits(messageBinary)
    ensures r == Screen(messageBinary)
  {
    if |messageBinary| % 8 != 0 {
      return Thrown(NoHiddenMessage);
    }
    var printableCount := 0;
    var totalBytes := |messageBinary| / 8;
    var checkedBytes := Min(totalBytes, 50);
    for i := 0 to checkedBytes
      invariant printableCount == Printable(messageBinary, i)
    {
      var byteStr := messageBinary[i * 8..(i + 1) * 8];
      BitsSlice(messageBinary, i * 8, (i + 1) * 8);
      var charValue := ParseInt(byteStr);
      if IsPrintable(charValue.value) {
        printableCount := printableCount + 1;
      }
    }
    if checkedBytes > 0 && 10 * printableCount < 7 * checkedBytes {
      return Thrown(NoHiddenMessage);
    }
    return Ok(messageBinary);
  }

  /** `decode(image, headerBits)`: the capacity check, the reading loop, and the guards. */
  method Decode(image: Image, headerBits: nat, reader: HeaderReader) returns (r: Result<Text>)
    requires image.Valid() && headerBits >= 1
    ensures r == DecodeSpec(image.pixels[..], headerBits, reader)
  {
    var maxPossibleBits := image.width * image.height * 3;
    assert maxPossibleBits == 3 * image.pixels.Length;
    if maxPossibleBits < headerBits {
      return Thrown(NoHiddenMessage);
    }
    var allBits := ReadBits(image, headerBits, reader);
    if allBits.Thrown? {
      return allBits;
    }
    r := CheckMessage(allBits.value, headerBits, maxPossibleBits);
  }
}
