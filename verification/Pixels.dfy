/** Colours, the 32-bit pixels they are encoded as, and the bytes of a pixel in memory. */
module Pixels {
  import opened Images

  const BYTES_PER_PIXEL: nat := 4

  type Byte = bv8

  datatype Color = Color(r: bv8, g: bv8, b: bv8)

  const BLACK := Color(0, 0, 0)
  const WHITE := Color(255, 255, 255)

  /** Where the colour channels sit in a pixel. */
  datatype Format = Format(red: Shift, green: Shift, blue: Shift)

  type Shift = s: bv8 | s < 32

  function Placed(x: bv8, s: Shift): Pixel {
    (x as Pixel) << s
  }

  /** `color_to_u32`. */
  function Encode(f: Format, c: Color): Pixel {
    Placed(c.r, f.red) | Placed(c.g, f.green) | Placed(c.b, f.blue)
  }

  // ---------------------------------------------------------------- bits of a pixel

  predicate BitSet(x: Pixel, n: Shift) {
    (x >> n) & 1 == 1
  }

  /** Bit `n` of a pixel belongs to the channel at `s`, whose value `x` has it set. */
  predicate ChannelBit(x: bv8, s: Shift, n: Shift) {
    s <= n && BitSet(x as Pixel, n - s)
  }

  lemma PlacedBit(x: bv8, s: Shift, n: Shift)
    ensures BitSet(Placed(x, s), n) <==> ChannelBit(x, s, n)
  {
  }

  lemma BitOfThree(r: Pixel, g: Pixel, b: Pixel, n: Shift)
    ensures BitSet(r | g | b, n) <==> BitSet(r, n) || BitSet(g, n) || BitSet(b, n)
  {
  }

  lemma BitOfEncode(f: Format, c: Color, n: Shift)
    ensures BitSet(Encode(f, c), n)
            <==> BitSet(Placed(c.r, f.red), n) || BitSet(Placed(c.g, f.green), n) || BitSet(Placed(c.b, f.blue), n)
  {
    hide BitSet, Placed;
    BitOfThree(Placed(c.r, f.red), Placed(c.g, f.green), Placed(c.b, f.blue), n);
  }

  /** In every format a bit is set exactly when the channel it belongs to, or one of several, has it set. */
  lemma EncodeBits(f: Format, c: Color, n: Shift)
    ensures BitSet(Encode(f, c), n)
            <==> ChannelBit(c.r, f.red, n) || ChannelBit(c.g, f.green, n) || ChannelBit(c.b, f.blue, n)
  {
    hide *;
    BitOfEncode(f, c, n);
    PlacedBit(c.r, f.red, n);
    PlacedBit(c.g, f.green, n);
    PlacedBit(c.b, f.blue, n);
  }

  // ---------------------------------------------------------------- reading colours back

  predicate Apart(i: Shift, j: Shift) {
    (i >= j && i - j >= 8) || (j >= i && j - i >= 8)
  }

  /** Three channels of 8 bits inside the pixel that do not overlap. */
  predicate Separate(f: Format) {
    && f.red <= 24 && f.green <= 24 && f.blue <= 24
    && Apart(f.red, f.green) && Apart(f.red, f.blue) && Apart(f.green, f.blue)
  }

  function Channel(p: Pixel, s: Shift): bv8 {
    ((p >> s) & 0xFF) as bv8
  }

  function Decode(f: Format, p: Pixel): Color {
    Color(Channel(p, f.red), Channel(p, f.green), Channel(p, f.blue))
  }

  lemma OwnChannel(x: bv8, s: Shift)
    requires s <= 24
    ensures Channel(Placed(x, s), s) == x
  {
  }

  lemma OtherChannel(x: bv8, s: Shift, t: Shift)
    requires s <= 24 && t <= 24 && Apart(s, t)
    ensures Channel(Placed(x, s), t) == 0
  {
  }

  lemma ChannelOfThree(r: Pixel, g: Pixel, b: Pixel, s: Shift, x: bv8)
    requires Channel(r, s) == x && Channel(g, s) == 0 && Channel(b, s) == 0
    ensures Channel(r | g | b, s) == x && Channel(g | r | b, s) == x && Channel(g | b | r, s) == x
  {
  }

  lemma ChannelsOfEncode(f: Format, c: Color)
    requires Separate(f)
    ensures Channel(Encode(f, c), f.red) == c.r
    ensures Channel(Encode(f, c), f.green) == c.g
    ensures Channel(Encode(f, c), f.blue) == c.b
  {
    RedOfEncode(f, c);
    GreenOfEncode(f, c);
    BlueOfEncode(f, c);
  }

  lemma RedOfEncode(f: Format, c: Color)
    requires Separate(f)
    ensures Channel(Encode(f, c), f.red) == c.r
  {
    hide Placed, Channel;
    OwnChannel(c.r, f.red);
    OtherChannel(c.g, f.green, f.red);
    OtherChannel(c.b, f.blue, f.red);
    ChannelOfThree(Placed(c.r, f.red), Placed(c.g, f.green), Placed(c.b, f.blue), f.red, c.r);
  }

  lemma GreenOfEncode(f: Format, c: Color)
    requires Separate(f)
    ensures Channel(Encode(f, c), f.green) == c.g
  {
    hide Placed, Channel;
    OwnChannel(c.g, f.green);
    OtherChannel(c.r, f.red, f.green);
    OtherChannel(c.b, f.blue, f.green);
    ChannelOfThree(Placed(c.g, f.green), Placed(c.r, f.red), Placed(c.b, f.blue), f.green, c.g);
  }

  lemma BlueOfEncode(f: Format, c: Color)
    requires Separate(f)
    ensures Channel(Encode(f, c), f.blue) == c.b
  {
    hide Placed, Channel;
    OwnChannel(c.b, f.blue);
    OtherChannel(c.r, f.red, f.blue);
    OtherChannel(c.g, f.green, f.blue);
    ChannelOfThree(Placed(c.b, f.blue), Placed(c.r, f.red), Placed(c.g, f.green), f.blue, c.b);
  }

  /** If the channels do not overlap the colour can be read back, so different colours have different pixels. */
  lemma DecodeEncode(f: Format, c: Color)
    requires Separate(f)
    ensures Decode(f, Encode(f, c)) == c
    ensures forall d :: Encode(f, d) == Encode(f, c) ==> d == c
  {
    hide Channel, Encode, Separate;
    ChannelsOfEncode(f, c);
    forall d | Encode(f, d) == Encode(f, c) ensures d == c {
      ChannelsOfEncode(f, d);
    }
  }

  // ---------------------------------------------------------------- pixels in memory

  /** Byte `i` of a pixel in memory, least significant first. */
  function ByteOf(p: Pixel, i: nat): Byte
    requires i < BYTES_PER_PIXEL
  {
    if i == 0 then (p & 0xFF) as Byte else ByteOf(p >> 8, i - 1)
  }

  /** Byte `b` of pixels laid out in memory. */
  function ByteAt(pixels: seq<Pixel>, b: nat): Byte
    requires b < BYTES_PER_PIXEL * |pixels|
  {
    ByteOf(pixels[b / BYTES_PER_PIXEL], b % BYTES_PER_PIXEL)
  }

  /** The pixel that four bytes in memory make up, the first one least significant. */
  function FromBytes(b0: Byte, b1: Byte, b2: Byte, b3: Byte): Pixel {
    (b0 as Pixel) | ((b1 as Pixel) << 8) | ((b2 as Pixel) << 16) | ((b3 as Pixel) << 24)
  }

  lemma PixelOfBytes(p: Pixel)
    ensures FromBytes(ByteOf(p, 0), ByteOf(p, 1), ByteOf(p, 2), ByteOf(p, 3)) == p
  {
  }

  /** Pixel `x` of a line of bytes. */
  function PixelAt(line: seq<Byte>, x: nat): Pixel
    requires 4 * x + 4 <= |line|
  {
    FromBytes(line[4 * x], line[4 * x + 1], line[4 * x + 2], line[4 * x + 3])
  }

  /** A line of bytes that are those of a row shows the pixels of the row. */
  lemma LineShowsRow(row: seq<Pixel>, line: seq<Byte>, x: nat)
    requires |line| == 4 * |row| && x < |row| && forall j :: 0 <= j < |line| ==> line[j] == ByteAt(row, j)
    ensures PixelAt(line, x) == row[x]
  {
    hide ByteOf, FromBytes;
    forall k | 0 <= k < 4 ensures line[4 * x + k] == ByteOf(row[x], k) {
      assert (4 * x + k) / 4 == x && (4 * x + k) % 4 == k;
    }
    PixelOfBytes(row[x]);
  }
}
