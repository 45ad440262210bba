# Pixel-Vailt codec, modelled in Dafny

Pixel-Vailt hides a text in a picture. The text is Huffman-compressed, and the compressed string
is written as eight binary digits per character. A binary length header goes in front of the
digits. Header and digits then go into the lowest bit of the red, green and blue channels of
the pixels, one pixel after another. Decoding reads those bits back and stops once the header
and the message it announces are in. A chain of plausibility checks then decides whether the
bits really are a message. The repository holds three copies of this pipeline:

- the Java command-line program (`HuffmanCoding`, `TextToBinary`, `BinaryToText`,
  `EncodeBinary`, `DecodeBinary`, `SteganographyHelper`, wired together by `Main`);
- a one-file Java version (`Short/SteganographyApp.java`) whose nested classes repeat the same
  procedures. Two things differ: its decoder reads the header with `BigInteger.longValue`, and
  its `fromBinary` lets a parse error escape;
- the browser port (`Web/script.js`). Its Huffman string starts with a four-character tree
  length instead of a '|' separator (the character 124, called the bar below). Its image is a flat RGBA byte array, it sets alpha to 255,
  and it runs a different set of decoder checks.

Characters are UTF-16 code units (`Binary.CodeUnit`, 0..65535) and strings are sequences of
them. Exceptions and JavaScript `Error`s become the `Thrown` case of `Outcomes.Result`. There
is one `Fault` per distinct exception.

Modules, one per source component:

| module | models |
|---|---|
| Outcomes | `Result`/`Option` and the faults |
| Binary | `Integer.toBinaryString`, `%8s`/`padStart` padding, `Integer.parseInt(s, 2)`, JavaScript `parseInt(s, 2)`, `String.fromCharCode` |
| HuffmanCoding | `HuffmanCoding.compress/decompress/generateCodes/serialize/deserialize` and `SteganographyApp.Huffman` |
| TextBinary | `TextToBinary.convert`, `BinaryToText.convert`, `SteganographyApp.TextBinary` |
| Raster | the packed-RGB pixel grid of a `BufferedImage` |
| EncodeBinary | `EncodeBinary.encode`, `bigIntToFixedBinary`, `SteganographyApp.Encoder` |
| DecodeBinary | `DecodeBinary.decode`, `SteganographyApp.Decoder` |
| SteganographyHelper | `getImageFormat`, `StegoHelper.getFormat` |
| JsNumbers | JavaScript bitwise OR on non-negative numbers and `parseInt` of one digit |
| WebHuffman | `huffmanCompress`, `generateCodes`, `serializeTree`, `huffmanDecompress`, `deserializeTree` |
| WebTextBinary | `textToBinaryWithHuffman`, `binaryToTextWithHuffman` |
| WebSteganography | `calculateCapacity`, `encodeToImage`, `decodeFromImage` |
| Pipeline | the encode/decode flow of `Main` and `SteganographyApp.main` |

Java's `PriorityQueue` and `HashMap` leave some orders open: the order in which the frequency
table is iterated, and which of several equal-frequency nodes `poll` returns. The Java
`Compress` resolves them by choice, and its contracts hold for every choice. They are stated
through `HuffmanTree(root, text)`: a full tree with exactly one leaf per distinct character.
The browser port's stable sort leaves nothing open, so `WebHuffman.JsTree` is a function of
the text.

## Model

| member | source | states |
|---|---|---|
| Binary.Value | HuffmanCoding.java:87 | the number a string of binary digits denotes is below 2^length |
| Binary.BinaryString | HuffmanCoding.java:80 | `Integer.toBinaryString(n)`: binary digits, at least one, denoting n, with a leading '1' when n > 0 |
| Binary.BinaryStringWidth | EncodeBinary.java:65-68 | the binary rendering of n fits in w digits exactly when n < 2^w |
| Binary.Zeros | EncodeBinary.java:68 | `"0".repeat(k)`: k characters, all '0' |
| Binary.PadLeft | TextToBinary.java:9 | `String.format("%8s", …).replace(' ', '0')` and `padStart(w, '0')`: length the larger of w and the length of s, s at the end, '0' before it |
| Binary.LeadingZerosValue | TextToBinary.java:9 | leading zeros do not change the value of a digit string |
| Binary.PadLeftValue | TextToBinary.java:9 | padding keeps the digits binary and keeps their value |
| Binary.ByteDigits | TextToBinary.java:8-10 | the eight-digit rendering of a character: binary digits whose value is the code, eight of them when the code is below 256 |
| Binary.ParseSigned | BinaryToText.java:12 | the radix-2 syntax: a non-empty digit string parses to its value; anything accepted is digits or starts with a sign |
| Binary.ParseInt | BinaryToText.java:12 | `Integer.parseInt(s, 2)`: results stay in int range; up to eight binary digits parse to their value |
| Binary.ParseByteDigits | BinaryToText.java:10-14 | eight digits written for a byte parse back to that byte |
| Binary.ToCodeUnit | BinaryToText.java:13 | the `(char)` cast keeps every value in 0..65535 |
| Binary.TrimStart | Web/script.js:151 | `parseInt` first skips JavaScript white space: the result is a suffix that does not start with white space |
| Binary.DigitRun | Web/script.js:151 | the longest prefix of binary digits `parseInt(s, 2)` consumes: all digits, followed by a non-digit or the end |
| Binary.DigitRunOfBits | Web/script.js:151 | a string of binary digits is consumed whole |
| Binary.JsParseIntBits | Web/script.js:151 | `parseInt(s, 2)` of a non-empty binary digit string is its value |
| Binary.JsParseIntNaN | Web/script.js:151 | `parseInt` gives NaN when the first non-space character is not a digit or a sign |
| Binary.FromCharCode | Web/script.js:152 | `String.fromCharCode(x)` returns x itself for x in 0..65535 |
| HuffmanCoding.OccLeafList | HuffmanCoding.java:69-77 | a character has a leaf in the tree exactly when it is among the leaves `generateCodes` visits |
| HuffmanCoding.HuffmanTreeLeaves | HuffmanCoding.java:12-23 | a tree built from the frequency table has a leaf for exactly the characters of the text |
| HuffmanCoding.HuffmanTreeBytes | HuffmanCoding.java:12-23 | a tree of an 8-bit text has only 8-bit leaves |
| HuffmanCoding.Serialize | HuffmanCoding.java:79-82 | `serialize` of a tree is never empty |
| HuffmanCoding.SerializeBits | HuffmanCoding.java:79-82 | `serialize` writes only '0' and '1' |
| HuffmanCoding.SerializedLength | HuffmanCoding.java:79-82 | for 8-bit leaves the serialised tree has 10 characters per leaf, less one |
| HuffmanCoding.Deserialize | HuffmanCoding.java:84-89 | `deserialize` with its moving cursor: on success it consumes part of the input and returns the unread rest |
| HuffmanCoding.DeserializeSerialize | HuffmanCoding.java:79-89 | `deserialize` reads back exactly the tree `serialize` wrote, and leaves whatever follows unread |
| HuffmanCoding.DeserializeLeaf | HuffmanCoding.java:86-87 | '1' followed by eight digits reads as a leaf of that character |
| HuffmanCoding.GenerateCodesPaths | HuffmanCoding.java:69-77 | `generateCodes` adds exactly the tree's characters to the table, gives each the code prefix plus the path to its leaf, and leaves other entries alone |
| HuffmanCoding.PathsPrefixFree | HuffmanCoding.java:69-77 | one path to a leaf is never a proper prefix of another |
| HuffmanCoding.CodesPrefixFree | HuffmanCoding.java:31 | in a tree with two or more leaves, distinct characters get non-empty codes and neither code is a prefix of the other |
| HuffmanCoding.Walk | HuffmanCoding.java:58-65 | the digit loop of `decompress` emits at most one character per digit |
| HuffmanCoding.WalkPath | HuffmanCoding.java:59-64 | walking a character's code from the root emits that character and restarts at the root |
| HuffmanCoding.EncodeSymbolsFront | HuffmanCoding.java:35 | the codes appended for a text are the first character's code followed by the codes of the rest |
| HuffmanCoding.WalkEncoded | HuffmanCoding.java:35 | walking the concatenated codes of a text gives the text back |
| HuffmanCoding.CodeTableCovers | HuffmanCoding.java:25-32 | the code table (the "0" special case or `generateCodes`) has an entry for every character of the text, and in a multi-leaf tree each entry is the path to that character's leaf |
| HuffmanCoding.FirstIndex | HuffmanCoding.java:41 | the split point of the two-way split at the separator: none exactly when there is no bar, otherwise the first bar |
| HuffmanCoding.FirstIndexAt | HuffmanCoding.java:41 | a bar with none before it is where the string is split |
| HuffmanCoding.DecompressSpec | HuffmanCoding.java:39-67 | `decompress`: "" when there is no bar and when the tree part is empty; never more characters than the input |
| HuffmanCoding.DecodeParts | HuffmanCoding.java:44-66 | an empty tree part gives ""; a result has at most one character per payload digit |
| HuffmanCoding.DecompressSplit | HuffmanCoding.java:41 | a tree string without a bar, followed by a bar, splits back into tree and payload |
| HuffmanCoding.CompressRoundTrip | HuffmanCoding.java:10-67 | `decompress(compress(t)) == t` for every 8-bit text t, whatever tree the queue order builds |
| HuffmanCoding.EncodeZeros | HuffmanCoding.java:27-29 | with one distinct character, whose code is "0", the payload is exactly one '0' per character of the text |
| HuffmanCoding.JoinedByBar | HuffmanCoding.java:34 | two digit strings joined by a bar hold only '0', '1' and exactly one bar |
| HuffmanCoding.CompressedAlphabet | HuffmanCoding.java:10-37 | `compress` output holds only '0', '1' and exactly one bar |
| HuffmanCoding.GenerateCodesDigits | HuffmanCoding.java:69-77 | `generateCodes` only ever writes binary-digit codes |
| HuffmanCoding.CodeTableDigits | HuffmanCoding.java:27-32 | every code in the table is binary digits |
| HuffmanCoding.EncodeSymbolsBits | HuffmanCoding.java:35 | the appended codes are binary digits |
| HuffmanCoding.DecompressSingleLeaf | HuffmanCoding.java:51-56 | a one-leaf tree decodes to its character repeated once per payload character, whatever those characters are |
| HuffmanCoding.BitsNoBar | HuffmanCoding.java:41 | binary digits contain no bar |
| HuffmanCoding.DecompressLoneZero | HuffmanCoding.java:86-88 | a tree part of a lone '0' reads as the leaf '\0', so the payload decodes to NUL characters |
| HuffmanCoding.CountConcat | HuffmanCoding.java:15-23 | leaf counts of a queue add up over concatenation |
| HuffmanCoding.CountAppend | HuffmanCoding.java:22 | `offer` adds the new node's leaves to the queue's count |
| HuffmanCoding.CountRemove | HuffmanCoding.java:20-21 | `poll` removes the polled node's leaves from the count |
| HuffmanCoding.MergeKeepsLeaves | HuffmanCoding.java:20-22 | polling two nodes and offering their parent keeps every character's leaf count |
| HuffmanCoding.FirstOccurrences | HuffmanCoding.java:13 | the characters of the text, each once |
| HuffmanCoding.Tally | HuffmanCoding.java:12-13 | the frequency loop: a key for exactly the text's characters, each mapped to its positive number of occurrences |
| HuffmanCoding.PrefixStep | HuffmanCoding.java:13 | one more character adds one to its own count only |
| HuffmanCoding.PollMin | HuffmanCoding.java:20 | `PriorityQueue.poll` under `a.freq - b.freq` returns a node of minimal frequency |
| HuffmanCoding.InitialQueue | HuffmanCoding.java:15-16 | one leaf per table entry, carrying that character's frequency; every character counted once |
| HuffmanCoding.RemoveFull | HuffmanCoding.java:20 | removing a node keeps every queued tree full |
| HuffmanCoding.AppendFull | HuffmanCoding.java:22 | offering a full node keeps every queued tree full |
| HuffmanCoding.MergeTwo | HuffmanCoding.java:20-22 | one merge round: one node fewer, trees still full, leaf counts unchanged, the new node internal |
| HuffmanCoding.MergeAll | HuffmanCoding.java:19-26 | the merge loop ends with one full tree holding each queued leaf once; internal unless the queue held one leaf |
| HuffmanCoding.AppendCodes | HuffmanCoding.java:34-35 | the StringBuilder loop appends exactly the codes of the text in order |
| HuffmanCoding.Compress | HuffmanCoding.java:10-37 | `compress(text)`: the one-bar string for the empty text, otherwise the serialised tree, a bar, and the codes. The tree it builds is a Huffman tree of the text (`HuffmanTree`) |
| HuffmanCoding.Decompress | HuffmanCoding.java:39-67 | the `decompress` loops return exactly `DecompressSpec`, including the NullPointerException of a walk past a missing child |
| TextBinary.PackBits | TextToBinary.java:8-10 | the packed form is binary digits |
| TextBinary.PackLength | TextToBinary.java:8-10 | eight digits per 8-bit character |
| TextBinary.PackGroup | TextToBinary.java:8-10 | group i of the packed form is the eight-digit rendering of character i |
| TextBinary.Unpack | BinaryToText.java:10-14 | the group loop: one character per group, and a parse failure is a NumberFormatException |
| TextBinary.UnpackPack | BinaryToText.java:10-14 | reading the groups of a packed 8-bit string gives that string back |
| TextBinary.UnpackStep | BinaryToText.java:11-13 | one loop step appends the parsed group or stops with the exception |
| TextBinary.UnpackPrefixThrown | BinaryToText.java:10-14 | once a group fails to parse the whole read fails |
| TextBinary.ToTextSpec | BinaryToText.java:2-21 | `BinaryToText.convert`: every failure is the uniform error, a length that is not a multiple of 8 fails, and "" decodes to "" |
| TextBinary.FromBinarySpec | Short/SteganographyApp.java:82-87 | `fromBinary`: a length that is not a multiple of 8 is the uniform error |
| TextBinary.FromBinaryAgrees | Short/SteganographyApp.java:82-87 | `fromBinary` and `BinaryToText.convert` accept the same inputs with the same text; a bad group escapes from `fromBinary` as NumberFormatException |
| TextBinary.CompressedBytes | TextToBinary.java:4 | compressed output is 8-bit characters |
| TextBinary.PackedLength | TextToBinary.java:2-12 | `TextToBinary.convert` writes eight digits per compressed character |
| TextBinary.PackedEmpty | TextToBinary.java:2-12 | the empty text converts to the digits of the one-bar string, 01111100 |
| TextBinary.TextRoundTrip | TextToBinary.java:2-12 | both readers give back any 8-bit text from its converted form |
| TextBinary.PackLoop | TextToBinary.java:8-10 | the loop builds exactly the packed form |
| TextBinary.ToBinary | Short/SteganographyApp.java:75-80 | `toBinary`/`TextToBinary.convert` returns the packed `compress` output of some Huffman tree of the text |
| TextBinary.UnpackLoop | BinaryToText.java:10-14 | the group loop computes `Unpack` |
| TextBinary.ReadGroup | BinaryToText.java:11-13 | one group: parses it and extends the characters read so far, or stops |
| TextBinary.ToText | BinaryToText.java:2-21 | the method returns exactly `ToTextSpec` |
| TextBinary.FromBinary | Short/SteganographyApp.java:82-87 | the method returns exactly `FromBinarySpec` |
| Raster.Image.constructor | EncodeBinary.java:11 | a grid of the given size holding the given pixels |
| Raster.Image.SetRGB | EncodeBinary.java:56 | `setRGB` replaces exactly pixel (x, y) |
| Raster.Index | EncodeBinary.java:32-33 | pixel (x, y) of the row-major grid lies inside it |
| Raster.PackChannels | EncodeBinary.java:37-39 | shifting red, green and blue into one int of three bytes gives the bytes back from `>>16&0xFF`, `>>8&0xFF`, `&0xFF` and clears the top byte |
| EncodeBinary.EmbeddedPixel | EncodeBinary.java:30-58 | in the encoded grid, a pixel the frame does not reach is unchanged; any other pixel carries the next frame digits in its red, green and blue low bits and keeps everything else |
| EncodeBinary.StampedPixel | EncodeBinary.java:36-56 | writing one pixel puts the frame digits in the channel low bits, keeps the rest |
| EncodeBinary.ChannelBits | EncodeBinary.java:42-45 | clearing the low bit of c and OR-ing in the digit stays a byte, keeps the upper seven bits, and ends in the digit; past the frame the channel is unchanged |
| EncodeBinary.SetLsbBits | EncodeBinary.java:43 | the bit operation on a byte and a 0/1 digit |
| EncodeBinary.BigIntToFixedBinary | EncodeBinary.java:65-69 | accepts exactly the values below 2^width, returns width digits denoting the value, and throws "too long" otherwise |
| EncodeBinary.Frame | EncodeBinary.java:25-28 | header then payload: the header is headerBits digits denoting the payload length |
| EncodeBinary.EncodeSpec | EncodeBinary.java:6-62 | succeeds exactly for a header width of 64 or 128 and a length below 2^width; the two error cases; the grid keeps its size |
| EncodeBinary.Encode | EncodeBinary.java:6-62 | on success the grid becomes `EncodeSpec`'s; on an exception the grid is untouched |
| EncodeBinary.EmbedFrame | EncodeBinary.java:30-58 | the nested loops leave exactly the embedded grid |
| EncodeBinary.EmbedPixel | EncodeBinary.java:36-56 | one pixel: its new value, and the data index advanced by up to three |
| EncodeBinary.ChannelPast | EncodeBinary.java:42-53 | once the index reaches the frame end the channel guards are all false |
| EncodeBinary.EmbedChannel | EncodeBinary.java:42-45 | one guarded channel write and index step |
| EncodeBinary.StampStep | EncodeBinary.java:56 | writing pixel p extends the written prefix of the grid by one |
| EncodeBinary.StampedAll | EncodeBinary.java:32-34 | the loop exit (grid end or frame end) leaves the whole embedded grid |
| DecodeBinary.Lsbs | DecodeBinary.java:31-38 | three binary digits per pixel read |
| DecodeBinary.LsbsStep | DecodeBinary.java:31-38 | reading one more pixel appends its red, green and blue low bits |
| DecodeBinary.LsbsPrefix | DecodeBinary.java:43 | the first digits read do not change as more pixels are read |
| DecodeBinary.WrapLong | Short/SteganographyApp.java:132 | `longValue` keeps values in long range and leaves long-range values alone |
| DecodeBinary.LongAdd | DecodeBinary.java:47 | `headerBits + messageBitLength` in long arithmetic is the sum when no overflow occurs |
| DecodeBinary.StreamLength | DecodeBinary.java:44 | a header up to `Long.MAX_VALUE` is its value; above it `Long.parseLong` throws |
| DecodeBinary.HeaderDigits | DecodeBinary.java:43 | the header is headerBits binary digits |
| DecodeBinary.PixelsRead | DecodeBinary.java:22-53 | the loop reads at least the header's pixels and at most the whole grid |
| DecodeBinary.PixelsReadStops | DecodeBinary.java:48-49 | the loop stops early only once the needed digits are in, and not before |
| DecodeBinary.ReadStopsAfterFrame | DecodeBinary.java:48-49 | when the frame fits, reading stops within one pixel after its end |
| DecodeBinary.Printable | DecodeBinary.java:123-134 | the count of printable groups is at most the number checked |
| DecodeBinary.Validate | DecodeBinary.java:56-142 | the guard chain accepts exactly the plausible digits and returns the L digits after the header; every rejection is the uniform error or "too large" |
| DecodeBinary.TooLargeNeedsLongStream | DecodeBinary.java:102-113 | "Message too large" needs more than `Integer.MAX_VALUE` collected digits, because the shorter-than-frame check comes first; a Java string never holds that many |
| DecodeBinary.Screen | DecodeBinary.java:117-140 | accepts exactly a whole number of bytes that passes the 70% printable filter |
| DecodeBinary.DecodeSpec | DecodeBinary.java:6-151 | `decode`: a grid smaller than the header throws; a result is binary digits, a positive whole number of bytes, at most half of the capacity after the header |
| DecodeBinary.PixelDigits | DecodeBinary.java:31-38 | every pixel of an encoded grid carries its three frame digits in its low bits |
| DecodeBinary.LsbsCarried | DecodeBinary.java:19-53 | reading pixels that carry a frame gives back the frame's digits |
| DecodeBinary.LsbsEmbedded | DecodeBinary.java:19-53 | the digits read from an encoded grid are the frame's digits |
| DecodeBinary.FrameBits | EncodeBinary.java:28 | header plus binary payload is binary digits |
| DecodeBinary.StreamCarried | DecodeBinary.java:19-53 | on a grid carrying a frame whose length fits, the loop succeeds and has read the whole frame |
| DecodeBinary.DecodeCarried | DecodeBinary.java:6-151 | a grid carrying a plausible frame decodes to its payload |
| DecodeBinary.AcceptFrame | DecodeBinary.java:56-142 | the checks accept a frame whose payload is plausible and return the payload |
| DecodeBinary.DecodeEncoded | DecodeBinary.java:6-151 | decode(encode(grid, b)) == b for every payload that is a positive whole number of bytes, mostly printable, fits in half of the capacity, and whose frame (header width plus payload length) is at most `Integer.MAX_VALUE`, the most a Java string can collect; with either header reader |
| DecodeBinary.StopPixel | DecodeBinary.java:22-53 | where the reading loop stops: between the header's end and the grid's end |
| DecodeBinary.ReadStep | DecodeBinary.java:41-51 | one loop step either reaches the stop pixel or keeps reading |
| DecodeBinary.HeaderStable | DecodeBinary.java:43 | the header read inside the loop is the same header at every later step |
| DecodeBinary.StreamSpecStop | DecodeBinary.java:22-53 | the loop throws the header reader's exception, or returns the digits of the pixels up to the stop pixel |
| DecodeBinary.ReadBits | DecodeBinary.java:19-53 | the nested reading loop returns exactly `StreamSpec` |
| DecodeBinary.CheckMessage | DecodeBinary.java:56-115 | the checks after the loop return exactly `Validate` |
| DecodeBinary.ScreenMessage | DecodeBinary.java:117-142 | the byte and printable checks return exactly `Screen` |
| DecodeBinary.Decode | DecodeBinary.java:6-151 | the method returns exactly `DecodeSpec` |
| SteganographyHelper.LastIndexOf | SteganographyHelper.java:17 | `lastIndexOf`: none exactly when the character is absent, otherwise its last position |
| SteganographyHelper.GetImageFormat | SteganographyHelper.java:16-19 | "png" without a '.'; otherwise the text after the last '.', which contains no '.' |
| SteganographyHelper.FormatOfSplit | Short/SteganographyApp.java:14 | name '.' extension gives back the extension when it has no '.' |
| SteganographyHelper.TrailingDot | SteganographyHelper.java:18 | a name ending in '.' has the empty format |
| JsNumbers.OrShift | Web/script.js:83-88 | OR of a multiple of 2^k and a number below 2^k is their sum |
| JsNumbers.DecimalDigit | Web/script.js:261 | `parseInt(c)` of one character: a number exactly for '0'..'9', its digit value |
| WebHuffman.Insert | Web/script.js:25 | inserting into the sorted queue adds one element |
| WebHuffman.SortByFreq | Web/script.js:25 | the sort keeps the length |
| WebHuffman.InsertBound | Web/script.js:25 | insertion keeps a lower bound on frequencies |
| WebHuffman.InsertSorted | Web/script.js:25 | insertion keeps the queue sorted |
| WebHuffman.InsertMultiset | Web/script.js:25 | insertion adds exactly the one element |
| WebHuffman.SortSorted | Web/script.js:25 | `pq.sort((a, b) => a.f - b.f)` sorts by frequency and is a permutation |
| WebHuffman.NoneWithFreq | Web/script.js:25 | no element of a given frequency when all are larger |
| WebHuffman.WithFreqAppend | Web/script.js:25 | elements of one frequency, after appending |
| WebHuffman.InsertWithFreq | Web/script.js:25 | insertion places the new element after the earlier ones of its frequency |
| WebHuffman.SortStable | Web/script.js:25 | the sort is stable: elements of equal frequency keep their order |
| WebHuffman.InsertCount | Web/script.js:25 | insertion adds the node's leaves to the count |
| WebHuffman.SortCount | Web/script.js:25 | sorting keeps every character's leaf count |
| WebHuffman.InsertFull | Web/script.js:25 | insertion keeps the trees full |
| WebHuffman.SortFull | Web/script.js:25 | sorting keeps the trees full |
| WebHuffman.MergeOnce | Web/script.js:25-28 | one round of sort, two shifts and a push leaves one node fewer |
| WebHuffman.MergeOnceFull | Web/script.js:25-28 | a round keeps the trees full and pushes an internal node last |
| WebHuffman.MergeOnceCount | Web/script.js:25-28 | a round keeps every character's leaf count |
| WebHuffman.Rounds | Web/script.js:24-29 | the loop ends with a single node |
| WebHuffman.RoundsKeep | Web/script.js:24-31 | that node is a full tree with each queued leaf once, internal when the queue held several |
| WebHuffman.Leaves | Web/script.js:22 | one leaf per map entry |
| WebHuffman.LeavesCount | Web/script.js:17-22 | the initial queue holds each distinct character's leaf once |
| WebHuffman.JsTreeHuffman | Web/script.js:14-31 | the tree `huffmanCompress` builds is a Huffman tree of the text |
| WebHuffman.LengthPrefix | Web/script.js:46-51 | the tree length prefix is four 8-bit characters |
| WebHuffman.Pow2Bytes | Web/script.js:83-88 | proof step for PrefixRoundTrip: the powers of two behind the shift amounts 8, 16 and 24 |
| WebHuffman.ByteDigitsOfWord | Web/script.js:46-51 | the four `>>> k & 0xFF` bytes recompose a 32-bit length |
| WebHuffman.OrBytes | Web/script.js:83-88 | the OR of shifted bytes is their sum |
| WebHuffman.PrefixRoundTrip | Web/script.js:46-51 | reading the four-character prefix back gives the tree length, for lengths below 2^32 |
| WebHuffman.JsDeserialize | Web/script.js:136-162 | `deserializeTree`: a tree it returns is full and consumed at least one character |
| WebHuffman.JsDeserializeLeaf | Web/script.js:142-152 | '1' and eight digits read back as that leaf |
| WebHuffman.JsDeserializeSerialize | Web/script.js:72-77 | `deserializeTree(serializeTree(t))` is t, with the rest unread |
| WebHuffman.JsWalkOk | Web/script.js:115-131 | on a full tree the code-point walk never throws, whatever the payload |
| WebHuffman.JsWalkAgrees | Web/script.js:115-131 | on a full tree and a payload without surrogate pairs, the code-point walk emits what the Java code-unit walk emits |
| WebHuffman.PairWalks | Web/script.js:117-122 | a surrogate pair is one step for `for…of` and two steps for the Java `toCharArray` loop |
| WebHuffman.SurrogatePairOneStep | Web/script.js:100-133 | the decoders differ on surrogate pairs: with a leaf as right child, the payload U+D83D U+DE00 decodes to that leaf once in JavaScript and twice in Java |
| WebHuffman.JsDecompressEmpty | Web/script.js:80-105 | "" for data of four characters or fewer, for a zero or oversized tree length, and for a tree that does not parse |
| WebHuffman.JsDecompressTotal | Web/script.js:79-134 | `huffmanDecompress` never throws: the tree parsed from the prefix is full |
| WebHuffman.JsDecodePartsAgree | Web/script.js:100-133 | on a serialised tree and a payload without surrogate pairs, the JavaScript decoding equals the Java one |
| WebHuffman.JsDecompress | Web/script.js:79-134 | the method returns exactly `JsDecompressSpec`, whose walk steps by code points |
| WebHuffman.WalkPayload | Web/script.js:115-131 | the `for…of` loop, stepping one or two code units at a time, returns exactly `JsWalk` |
| WebHuffman.DistinctLeaves | Web/script.js:72-77 | leaves that are all distinct are as many as the characters they hold |
| WebHuffman.SetBelow | Web/script.js:46-51 | a set of code units below k has at most k members |
| WebHuffman.TreeFitsPrefix | Web/script.js:45-51 | the serialised tree of an 8-bit text is shorter than 2^32, so the four-byte prefix holds it |
| WebHuffman.ThreeParts | Web/script.js:53 | prefix, tree and payload split back at 4 and 4 + tree length |
| WebHuffman.PayloadDigits | Web/script.js:53-56 | tree and codes are binary digits |
| WebHuffman.PayloadNonEmpty | Web/script.js:33-56 | a non-empty text gets a non-empty payload: the last character's code is not empty |
| WebHuffman.JsCompressedLayout | Web/script.js:40-59 | the output is the prefix holding the tree length, then the tree, then digits |
| WebHuffman.JsRoundTrip | Web/script.js:14-134 | `huffmanDecompress(huffmanCompress(t)) == t` for every 8-bit text |
| WebHuffman.SingleEntry | Web/script.js:34 | `freq.size === 1` exactly when the text has one distinct character |
| WebHuffman.MergeRounds | Web/script.js:24-31 | the merge loop returns the tree of `Rounds` |
| WebHuffman.JsCompress | Web/script.js:14-60 | four NUL characters for the empty text; otherwise the output built on the Huffman tree `JsTree` |
| WebTextBinary.JsUnpack | Web/script.js:222-227 | one character per group |
| WebTextBinary.JsFromBinaryFaults | Web/script.js:217-231 | `binaryToTextWithHuffman` throws exactly for a length that is not a multiple of 8, with 'Invalid binary format' |
| WebTextBinary.JsUnpackPack | Web/script.js:222-227 | reading the groups of a packed 8-bit string gives it back |
| WebTextBinary.JsUnpackAt | Web/script.js:224-226 | group i reads back as character i |
| WebTextBinary.JsCompressedBytes | Web/script.js:184-192 | the compressed form of an 8-bit text is 8-bit |
| WebTextBinary.BytesThenDigits | Web/script.js:53 | proof step for JsCompressedBytes: bytes followed by digits are bytes |
| WebTextBinary.JsTextRoundTrip | Web/script.js:184-231 | `binaryToTextWithHuffman(textToBinaryWithHuffman(t)) == t` for every 8-bit text |
| WebTextBinary.JsToBinary | Web/script.js:184-192 | eight digits for each character of `huffmanCompress(text)` |
| WebTextBinary.JsUnpackLoop | Web/script.js:222-227 | the loop computes `JsUnpack` |
| WebTextBinary.JsReadGroup | Web/script.js:224-226 | one group: the next character |
| WebTextBinary.JsFromBinary | Web/script.js:217-231 | the method returns exactly `JsFromBinarySpec` |
| WebSteganography.JsImage.constructor | Web/script.js:280 | an `ImageData` of the given size over the given bytes |
| WebSteganography.SetLowestBit | Web/script.js:261 | clearing the low bit and OR-ing in `parseInt(digit)` ends in the digit and keeps the upper seven bits |
| WebSteganography.JsEmbedded | Web/script.js:256-276 | the encoded byte array has the length of the original |
| WebSteganography.JsFrameHeader | Web/script.js:246-247 | `msgLen.toString(2).padStart(headerBits, '0')`: for a length below 2^headerBits, headerBits digits denoting the length, then the payload |
| WebSteganography.JsEmbeddedByte | Web/script.js:256-276 | each R, G, B byte the frame reaches carries its digit and keeps its upper bits; others are unchanged; alpha becomes 255 on pixels the frame reaches |
| WebSteganography.EncodeToImage | Web/script.js:241-281 | a new image of the same size whose bytes are the embedded frame; the input image is copied, not changed |
| WebSteganography.EmbedFrame | Web/script.js:256-276 | the pixel loop leaves exactly the embedded bytes |
| WebSteganography.EmbedPixel | Web/script.js:259-275 | one pixel's four writes and the index advanced by up to three |
| WebSteganography.EmbedStep | Web/script.js:256-276 | writing pixel p extends the written prefix by four bytes |
| WebSteganography.EmbeddedAll | Web/script.js:256-257 | the loop exit (array end or frame end) leaves the whole embedded array |
| WebSteganography.JsLsbs | Web/script.js:318-325 | three binary digits per pixel read |
| WebSteganography.JsLsbsPrefix | Web/script.js:329 | the first digits read do not change as more pixels are read |
| WebSteganography.JsStreamSpec | Web/script.js:316-344 | the reading loop fails only with 'There is no hidden message' |
| WebSteganography.JsValidate | Web/script.js:351-388 | the checks after the loop accept exactly a header that is a positive multiple of 8 no larger than the digits read after it, and return those digits |
| WebSteganography.JsDecodeCapped | Web/script.js:283-389 | `decodeFromImage`: a grid smaller than the header throws; a result is binary digits, a positive whole number of bytes, at most 10^8, inside the capacity |
| WebSteganography.JsStreamHeader | Web/script.js:328-343 | after a successful read the header is the one the loop checked, and it was not rejected |
| WebSteganography.JsStopPixel | Web/script.js:316-343 | where the loop stops: between the header's end and the array's end |
| WebSteganography.JsStreamStop | Web/script.js:316-344 | the loop throws on a rejected header, otherwise returns the digits up to the stop pixel |
| WebSteganography.JsReadStep | Web/script.js:316-343 | one step reaches the stop pixel or keeps reading |
| WebSteganography.JsReadEnd | Web/script.js:316 | leaving the loop by its condition is leaving at the stop pixel |
| WebSteganography.JsHeaderStable | Web/script.js:329 | the header read inside the loop is the same at every later step |
| WebSteganography.JsLsbsStep | Web/script.js:318-325 | one more pixel appends its R, G, B low bits |
| WebSteganography.JsReadBits | Web/script.js:311-344 | the reading loop returns exactly `JsStreamSpec` |
| WebSteganography.JsHeaderCheck | Web/script.js:328-338 | the header check fires once, throws exactly on a header of 0 or above 10^8, and records length and total |
| WebSteganography.JsReadPixel | Web/script.js:318-325 | one pixel's three pushes |
| WebSteganography.ParseHeader | Web/script.js:329-330 | `parseInt` of the header digits is their value |
| WebSteganography.JsCheckBits | Web/script.js:347-388 | the checks after the loop return exactly `JsValidate` |
| WebSteganography.JsDecodeWithCap | Web/script.js:283-389 | the decoder with a given read cap returns exactly `JsDecodeCapped` |
| WebSteganography.DecodeFromImage | Web/script.js:283-389 | `decodeFromImage` as written, read cap 10^7 after the header |
| WebSteganography.DecodeFromImageFixed | Web/script.js:316 | the decoder with the read cap raised to the 10^8 the header check admits |
| WebSteganography.JsPixelDigits | Web/script.js:318-325 | every pixel of an encoded array carries its three frame digits |
| WebSteganography.JsChannelCarried | Web/script.js:261-271 | channel c of pixel q carries frame digit 3q + c |
| WebSteganography.JsLsbsCarried | Web/script.js:316-325 | reading pixels that carry a frame gives back the frame's digits |
| WebSteganography.JsFrameBits | Web/script.js:246-247 | header plus binary payload is binary digits |
| WebSteganography.JsCarriedPrefix | Web/script.js:316-325 | any prefix of the digits read from an encoded array is the frame's prefix |
| WebSteganography.JsStreamCarried | Web/script.js:316-344 | on an encoded array the loop succeeds, reads the header, and reads the whole frame when its length is within the cap |
| WebSteganography.JsAcceptFrame | Web/script.js:351-388 | the checks accept a read frame and return its payload |
| WebSteganography.JsDecodeEncoded | Web/script.js:241-389 | decode(encode(data, b)) == b for every binary payload that is a positive whole number of bytes, below 2^headerBits, within the read cap and 10^8, and fits the capacity |
| WebSteganography.JsDecodeDropsLong | Web/script.js:316 | as written, an encoded payload of more than 10^7 and at most 10^8 digits is rejected with 'There is no hidden message' |
| WebSteganography.CapCutsShort | Web/script.js:316 | with the 10^7 cap, the digits read after the header are fewer than a longer message or not a whole number of bytes |
| WebSteganography.JsDecodeFixedEncoded | Web/script.js:316-332 | with the cap at 10^8, every payload the header check admits round-trips |
| WebSteganography.CapacityIsDigits | Web/script.js:237-239 | `calculateCapacity(w, h)` is the number of digits the whole image holds |
| Pipeline.AllPrintable | DecodeBinary.java:123-134 | when every checked group is printable, all are counted |
| Pipeline.PackedByte | DecodeBinary.java:131 | a packed '0', '1' or bar is a printable byte |
| Pipeline.PackedPrintable | DecodeBinary.java:123-140 | a packed compressed string passes the printable count in full |
| Pipeline.CompressedPrintable | DecodeBinary.java:136-140 | the packed compressed form of any text passes the 70% filter |
| Pipeline.PackedPayload | DecodeBinary.java:118-120 | the packed compressed form is a positive whole number of bytes of binary digits |
| Pipeline.SecretRoundTrip | Main.java:24-45 | for an 8-bit text whose packed compressed form fits in half the grid after the 64-digit header, encoding and decoding give the packed form back with either header reader, and unpacking it gives the text (also `SteganographyApp.main`, Short/SteganographyApp.java:171-187) |

## Left out

- Reading and writing image files (`ImageIO`, canvas, `FileReader`, downloads), the menus of
  both `main` methods and the whole browser UI: these are I/O. The codec receives the pixel
  grid or byte array directly.
- `console.log`/`console.error` calls, and the first-48-bits debug loop of `decodeFromImage`
  (Web/script.js:291-303). They only log.
- The UTF-8 `textToBinary`/`binaryToText` that the web UI uses around encode/decode: they rely
  on `TextEncoder`/`TextDecoder`, whose UTF-8 coding is not part of this model. The Huffman
  converters, `textToBinaryWithHuffman` and `binaryToTextWithHuffman`, are modelled.
- `for (const c of text)` in `huffmanCompress` iterates code points: a surrogate pair is one
  character there. The model iterates UTF-16 code units, which agree for every text without
  surrogate pairs, including every 8-bit text in the round-trip lemmas. The payload loop of
  `huffmanDecompress` (Web/script.js:117) is modelled by code points (`WebHuffman.JsWalk`).
- The round-trip lemmas require 8-bit characters (`IsBytes`). A character above 255 renders in
  more than eight digits, and the readers cut it apart. That behaviour is modelled, but no
  round trip is claimed for it.
- WebSteganography.JsDecodeWithCap, DecodeFromImage and DecodeFromImageFixed require
  `headerBits >= 1`. The source never checks it, and the UI passes whatever number the form
  holds. A header width of 0, a negative one, or NaN is not modelled.
- DecodeBinary.Decode and ReadBits require `headerBits >= 1` for the same reason. Both Java
  callers pass 64.
- `(long) width * height * 3` cannot overflow for any real image. The model uses unbounded
  integers for capacities and for `totalBitsRead`. Only the `headerBits + messageBitLength` sum
  in the reading loop is wrapped as a long, in `DecodeBinary.LongAdd`.
- `parseInt` of the header inside `decodeFromImage` always gets binary digits, so its NaN
  case cannot arise. `ParseHeader` computes the digit value directly
  (`Binary.JsParseIntBits` proves this is what `parseInt` returns).
- Digits other than ASCII '0' and '1' that Java's parsers accept through
  `Character.digit` (for example, full-width digits): `Binary.ParseSigned` accepts ASCII digits
  only. The codec writes only ASCII digits.
- A `StackOverflowError` from deep recursion in `serialize`/`deserialize`, and
  `OutOfMemoryError`: the model has unbounded stack and memory.
- DecodeBinary.DecodeEncoded requires `headerBits + |payload| <= Integer.MAX_VALUE`. A Java
  `StringBuilder` cannot hold a longer frame, so the decoder could never collect one: the
  length check at DecodeBinary.java:102-104 (Short/SteganographyApp.java:146) rejects such a
  frame as "no hidden message", and the "Message too large" guard at DecodeBinary.java:111-113
  is unreachable in Java. The model's digit stream is unbounded, and `MessageTooLarge` arises
  there only past `Integer.MAX_VALUE` collected digits (`DecodeBinary.TooLargeNeedsLongStream`).
  No round trip is claimed beyond the bound.
- Pipeline.SecretRoundTrip requires `64 + 8·|compressed| <= Integer.MAX_VALUE` for the same
  reason: a longer frame cannot be collected in a Java string. Half of any real image's
  capacity is far below it.
- `deserialize` is modelled on the unread suffix of its input (`Result<(Node, Text)>`) instead
  of a string and a shared `int[]` cursor. Both read the same characters in the same order.
- `Array.prototype.sort` is modelled as a function: a stable insertion sort (`SortByFreq`). The
  model does not sort an array in place.
- Java's `HashMap` iteration order and `PriorityQueue` tie-breaking are not pinned down.
  `HuffmanCoding.Compress` returns its tree as a ghost value, and every property is proved for
  any Huffman tree of the text.
- The nested classes of `Short/SteganographyApp.java` are not separate members: they are the
  same code as the long version, and the differences (header reader, `fromBinary` errors,
  `getFormat`) are parameters or separate functions of the shared modules.

## Findings

| source | as written | input that shows it | evidently intended | confidence | as-written member | corrected member |
|---|---|---|---|---|---|---|
| Web/script.js:316 | the reading loop stops after `headerBits + 10000000` digits, while the header check at line 332 admits lengths up to 10^8; a longer message is cut short, and the check at line 369 (or at line 380) then rejects it | headerBits = 32, a payload of 10,000,008 binary digits (a multiple of 8), an image of at least 3,333,347 pixels: `encodeToImage` embeds it, `decodeFromImage` throws 'There is no hidden message' | every length the header check admits is read in full | not executed | WebSteganography.JsDecodeDropsLong | WebSteganography.JsDecodeFixedEncoded |
