/** The layouts that the webcam library's header promises (libwebcam/libwebcam.h), and grey and primary colours. */
module ColourFormats {
  import opened Words
  import opened Pixels
  import opened PixelMemory
  import opened Colorspaces

  /** The field of a pixel that is `bits` wide and begins at `at`. */
  function FieldAt(p: word, at: nat, bits: nat): word {
    And(Shr(p, at), Ones(bits))
  }

  /** That field at the top of eight bits, with zeros below. */
  function Lifted(p: word, at: nat, bits: nat): word
    requires bits <= 8
  {
    Shl(FieldAt(p, at, bits), 8 - bits)
  }

  /** The highest `bits` of eight. */
  function Highest(channel: word, bits: nat): word
    requires bits <= 8
  {
    Shr(channel, 8 - bits)
  }

  /**
   * The packed formats are decoded as the header draws them: each channel is its field, lifted. Only
   * green of RGB565 loses the lowest bit of six.
   */
  lemma DecodedChannels(c: Convertible, s: seq<byte>, bigEndian: bool)
    requires |s| == PixelSize(c)
    ensures var col := Decode(c, s, bigEndian);
            match c
            case Rgb32 => col == Loaded(s, bigEndian)
            case Rgb24 => col == 0 <==> s == [0, 0, 0]
            case Bgr24 => col == 0 <==> s == [0, 0, 0]
            case Rgb555 => var p := Loaded(s, bigEndian); col == Rgb(Lifted(p, 10, 5), Lifted(p, 5, 5), Lifted(p, 0, 5))
            case Rgb565 => var p := Loaded(s, bigEndian); col == Rgb(Lifted(p, 11, 5), Lifted(p, 6, 5), Lifted(p, 0, 5))
            case Rgb332 => var p := Loaded(s, bigEndian); col == Rgb(Lifted(p, 5, 3), Lifted(p, 2, 3), Lifted(p, 0, 2))
            case Bgr233 => var p := Loaded(s, bigEndian); col == Rgb(Lifted(p, 0, 3), Lifted(p, 3, 3), Lifted(p, 6, 2))
            case Yuv => true
            case Gray => col == Decode(Yuv, [s[0], 128, 128], bigEndian)
    ensures (c == Rgb24 || c == Bgr24) && s != [0, 0, 0] ==> Decode(c, s, bigEndian) == 1
  {
    hide Loaded, Lifted, From555, From565, From332, From233, Bits, YuvToRgb;
    match c
    case Rgb555 => Fields555(Loaded(s, bigEndian));
    case Rgb565 => Fields565(Loaded(s, bigEndian));
    case Rgb332 => Fields332(Loaded(s, bigEndian));
    case Bgr233 => Fields233(Loaded(s, bigEndian));
    case Gray => BitsOf128();
    case _ =>
  }

  /** And encoded so: each field holds the highest bits of its channel, and there are no others. */
  lemma EncodedChannels(c: Convertible, col: word, bigEndian: bool)
    ensures var s := Encode(c, col, bigEndian);
            var p := if |s| == 3 then 0 else Loaded(s, bigEndian);
            var r, g, b := Red(col), Green(col), Blue(col);
            match c
            case Rgb32 => p == col
            case Rgb24 => s == [FromBits(r), FromBits(g), FromBits(b)]
            case Bgr24 => s == [FromBits(b), FromBits(g), FromBits(r)]
            case Rgb555 => p <= 0x7fff && FieldAt(p, 10, 5) == Highest(r, 5)
                           && FieldAt(p, 5, 5) == Highest(g, 5) && FieldAt(p, 0, 5) == Highest(b, 5)
            case Rgb565 => p <= 0xffff && FieldAt(p, 11, 5) == Highest(r, 5)
                           && FieldAt(p, 5, 6) == Highest(g, 6) && FieldAt(p, 0, 5) == Highest(b, 5)
            case Rgb332 => p <= 0xff && FieldAt(p, 5, 3) == Highest(r, 3)
                           && FieldAt(p, 2, 3) == Highest(g, 3) && FieldAt(p, 0, 2) == Highest(b, 2)
            case Bgr233 => p <= 0xff && FieldAt(p, 0, 3) == Highest(r, 3)
                           && FieldAt(p, 3, 3) == Highest(g, 3) && FieldAt(p, 6, 2) == Highest(b, 2)
            case Yuv => s[..1] == Encode(Gray, col, bigEndian)
            case Gray => true
  {
    hide Loaded, Stored, FieldAt, Highest, To555, To565, To332, To233, And, Red, Green, Blue, FromBits;
    ShortPixels(col);
    match c
    case Rgb32 => AndLaws(col, 0); LoadedStored(col, 4, bigEndian);
    case Rgb24 => ChannelBytes(col);
    case Bgr24 => ChannelBytes(col);
    case Rgb555 => LoadedStored(To555(col), 2, bigEndian); Packed555(col);
    case Rgb565 => LoadedStored(To565(col), 2, bigEndian); Packed565(col);
    case Rgb332 => LoadedStored(To332(col), 1, bigEndian); Packed332(col);
    case Bgr233 => LoadedStored(To233(col), 1, bigEndian); Packed233(col);
    case _ =>
  }

  lemma ChannelBytes(col: word)
    ensures Byte2(col) == FromBits(Red(col)) && Byte1(col) == FromBits(Green(col)) && Byte0(col) == FromBits(Blue(col))
  {
    hide FromBits;
  }

  lemma ShortPixels(col: word)
    ensures And(To555(col), 0xffff) == To555(col) <= 0x7fff && And(To565(col), 0xffff) == To565(col) <= 0xffff
    ensures And(To332(col), 0xff) == To332(col) <= 0xff && And(To233(col), 0xff) == To233(col) <= 0xff
  {
  }

  lemma BitsOf128()
    ensures Bits(128) == 128
  {
    assert FromNat(8, 4) == 8;
    assert FromNat(128, 8) == 128;
  }

  // ---------------------------------------------------------------------------------------
  // Luma and chroma
  // ---------------------------------------------------------------------------------------

  function Grey(v: byte): word {
    Rgb(Bits(v), Bits(v), Bits(v))
  }

  /** Grey leaves the converter as its own luma; its chroma bytes are 64, where 128 is meant. */
  lemma GreyEncoded(v: byte, bigEndian: bool)
    ensures Encode(Gray, Grey(v), bigEndian) == [v]
    ensures Encode(Yuv, Grey(v), bigEndian) == [v, 64, 64]
  {
    hide Bits, FromBits, LumaOf, ChromaUOf, ChromaVOf, Rgb, Part0;
    ByteBits(v);
    SixtyFour();
    GreyWeights(Bits(v));
    LowPart(Bits(v));
    LowPart(64);
  }

  lemma LowPart(v: word)
    ensures v <= 0xff ==> Part0(v) == v
  {
  }

  lemma GreyChannels(v: word)
    requires v <= 0xff
    ensures Red(Rgb(v, v, v)) == v && Green(Rgb(v, v, v)) == v && Blue(Rgb(v, v, v)) == v
  {
  }

  lemma GreyWeights(v: word)
    requires v <= 0xff
    ensures LumaOf(Rgb(v, v, v)) == v && ChromaUOf(Rgb(v, v, v)) == 64 && ChromaVOf(Rgb(v, v, v)) == 64
  {
    hide Red, Green, Blue, Rgb, Luma, ChromaU, ChromaV;
    GreyChannels(v);
    LumaOfEqual(v);
    ChromaOfEqual(v);
  }

  lemma LumaOfEqual(v: word)
    requires v <= 0xff
    ensures Luma(v, v, v) == v
  {
  }

  lemma ChromaOfEqual(v: word)
    ensures ChromaU(v, v, v) == 64 && ChromaV(v, v, v) == 64
  {
  }

  /** What comes in is grey of its own luma exactly if both chroma bytes are 0. */
  lemma GreyDecodedExact(y: byte, u: byte, v: byte, bigEndian: bool)
    ensures Decode(Yuv, [y, u, v], bigEndian) == Grey(y) <==> u == 0 && v == 0
  {
    hide Bits, FromBits, YuvToRgb, Rgb;
    ByteBits(y);
    ByteBits(u);
    ByteBits(v);
    ByteBits(0);
    BitsOfZero();
    GreyInput(Bits(y), Bits(u), Bits(v));
  }

  /** GRAY is read with chroma bytes of 128, and never comes in as grey. */
  lemma GrayIsNeverGrey(y: byte, bigEndian: bool)
    ensures Decode(Gray, [y], bigEndian) != Grey(y)
  {
    hide Bits, FromBits, YuvToRgb, Rgb;
    ByteBits(y);
    GreyInput(Bits(y), 128, 128);
  }

  lemma GreyInput(y: word, u: word, v: word)
    requires y <= 0xff && u <= 0xff && v <= 0xff
    ensures YuvToRgb(y, u, v) == Rgb(y, y, y) <==> u == 0 && v == 0
  {
  }

  /** What two tints are read as. */
  lemma TintsDecoded(bigEndian: bool)
    ensures Decode(Yuv, [100, 0, 100], bigEndian) == 0xd6_2964
    ensures Decode(Yuv, [100, 50, 0], bigEndian) == 0x64_50c9
  {
    hide Bits, YuvToRgb;
    BitsOf100();
    BitsOf50();
    BitsOfZero();
    Tints();
  }

  lemma BitsOf100()
    ensures Bits(100) == 100
  {
    assert FromNat(6, 4) == 6;
    assert FromNat(12, 5) == 12;
    assert FromNat(25, 6) == 25;
    assert FromNat(50, 7) == 50;
  }

  lemma BitsOf50()
    ensures Bits(50) == 50
  {
    assert FromNat(3, 4) == 3;
    assert FromNat(6, 5) == 6;
    assert FromNat(12, 6) == 12;
    assert FromNat(25, 7) == 25;
  }

  lemma Tints()
    ensures YuvToRgb(100, 0, 100) == 0xd6_2964 && YuvToRgb(100, 50, 0) == 0x64_50c9
  {
  }

  /** The luma and chroma of full red, green and blue. */
  lemma PrimariesEncoded(bigEndian: bool)
    ensures Encode(Yuv, 0xff_0000, bigEndian) == [75, 26, 220]
    ensures Encode(Yuv, 0x00_ff00, bigEndian) == [149, 246, 188]
    ensures Encode(Yuv, 0x00_00ff, bigEndian) == [29, 175, 39]
  {
    hide LumaOf, ChromaUOf, ChromaVOf, Part0, FromBits;
    Primaries();
    RedBytes();
    GreenBytes();
    BlueBytes();
  }

  lemma Primaries()
    ensures Part0(LumaOf(0xff_0000)) == 75 && Part0(LumaOf(0xff00)) == 149 && Part0(LumaOf(0xff)) == 29
    ensures Part0(ChromaUOf(0xff_0000)) == 26 && Part0(ChromaUOf(0xff00)) == 246 && Part0(ChromaUOf(0xff)) == 175
    ensures Part0(ChromaVOf(0xff_0000)) == 220 && Part0(ChromaVOf(0xff00)) == 188 && Part0(ChromaVOf(0xff)) == 39
  {
  }

  lemma RedBytes()
    ensures FromBits(75) == 75 && FromBits(26) == 26 && FromBits(220) == 220
  {
    assert ToNat(1, 4) == 1 && ToNat(4, 4) == 4 && ToNat(13, 4) == 13;
    assert Down(Down(Down(Down(75)))) == 4;
    assert Down(Down(Down(Down(26)))) == 1;
    assert Down(Down(Down(Down(220)))) == 13;
  }

  lemma GreenBytes()
    ensures FromBits(149) == 149 && FromBits(246) == 246 && FromBits(188) == 188
  {
    assert ToNat(9, 4) == 9 && ToNat(11, 4) == 11 && ToNat(15, 4) == 15;
    assert Down(Down(Down(Down(149)))) == 9;
    assert Down(Down(Down(Down(246)))) == 15;
    assert Down(Down(Down(Down(188)))) == 11;
  }

  lemma BlueBytes()
    ensures FromBits(29) == 29 && FromBits(175) == 175 && FromBits(39) == 39
  {
    assert ToNat(1, 4) == 1 && ToNat(2, 4) == 2 && ToNat(10, 4) == 10;
    assert Down(Down(Down(Down(29)))) == 1;
    assert Down(Down(Down(Down(175)))) == 10;
    assert Down(Down(Down(Down(39)))) == 2;
  }

  lemma SixtyFour()
    ensures FromBits(64) == 64
  {
    assert ToNat(4, 4) == 4;
    assert Down(Down(Down(Down(64)))) == 4;
  }

  // ---------------------------------------------------------------------------------------
  // The shifts, format by format
  // ---------------------------------------------------------------------------------------

  lemma DownFurther(x: word)
    ensures Down(x >> 8) == x >> 9 && Down(x >> 9) == x >> 10 && Down(x >> 10) == x >> 11
  {
  }

  lemma ShrBeyondEight(x: word)
    ensures Shr(x, 10) == x >> 10 && Shr(x, 11) == x >> 11
  {
    ShrByEight(x);
    DownFurther(x);
    hide Down;
    assert Shr(x, 9) == x >> 9;
    assert Shr(x, 10) == x >> 10;
  }

  lemma OnesAre()
    ensures Ones(2) == 0x03 && Ones(3) == 0x07 && Ones(5) == 0x1f && Ones(6) == 0x3f
  {
    assert Ones(4) == 0x0f;
  }

  lemma Lift5(p: word, at: nat, x: word)
    requires Shr(p, at) == x
    ensures Lifted(p, at, 5) == (x & 0x1f) << 3
  {
    hide Shl, Shr, Ones;
    OnesAre();
    ShlBy(x & 0x1f);
  }

  lemma Lift3(p: word, at: nat, x: word)
    requires Shr(p, at) == x
    ensures Lifted(p, at, 3) == (x & 0x07) << 5
  {
    hide Shl, Shr, Ones;
    OnesAre();
    ShlBy(x & 0x07);
  }

  lemma Lift2(p: word, at: nat, x: word)
    requires Shr(p, at) == x
    ensures Lifted(p, at, 2) == (x & 0x03) << 6
  {
    hide Shl, Shr, Ones;
    OnesAre();
    ShlBy(x & 0x03);
  }

  lemma Field6(p: word, at: nat, x: word, channel: word)
    requires Shr(p, at) == x
    ensures FieldAt(p, at, 6) == x & 0x3f && Highest(channel, 6) == channel >> 2
  {
    hide Shr, Ones;
    OnesAre();
    ShrBy(channel);
  }

  lemma Field5(p: word, at: nat, x: word, channel: word)
    requires Shr(p, at) == x
    ensures FieldAt(p, at, 5) == x & 0x1f && Highest(channel, 5) == channel >> 3
  {
    hide Shr, Ones;
    OnesAre();
    ShrBy(channel);
  }

  lemma Field3(p: word, at: nat, x: word, channel: word)
    requires Shr(p, at) == x
    ensures FieldAt(p, at, 3) == x & 0x07 && Highest(channel, 3) == channel >> 5
  {
    hide Shr, Ones;
    OnesAre();
    ShrBy(channel);
  }

  lemma Field2(p: word, at: nat, x: word, channel: word)
    requires Shr(p, at) == x
    ensures FieldAt(p, at, 2) == x & 0x03 && Highest(channel, 2) == channel >> 6
  {
    hide Shr, Ones;
    OnesAre();
    ShrBy(channel);
  }

  lemma Fields555(p: word)
    ensures From555(p) == Rgb(Lifted(p, 10, 5), Lifted(p, 5, 5), Lifted(p, 0, 5))
  {
    hide Lifted, Shr, From555, Rgb;
    ShrBy(p);
    ShrBeyondEight(p);
    Lift5(p, 10, p >> 10);
    Lift5(p, 5, p >> 5);
    Lift5(p, 0, p);
    Bits555(p);
  }

  lemma Bits555(p: word)
    ensures From555(p) == Rgb(((p >> 10) & 0x1f) << 3, ((p >> 5) & 0x1f) << 3, (p & 0x1f) << 3)
  {
  }

  lemma Fields565(p: word)
    ensures From565(p) == Rgb(Lifted(p, 11, 5), Lifted(p, 6, 5), Lifted(p, 0, 5))
  {
    hide Lifted, Shr, From565, Rgb;
    ShrBy(p);
    ShrBeyondEight(p);
    Lift5(p, 11, p >> 11);
    Lift5(p, 6, p >> 6);
    Lift5(p, 0, p);
    Bits565(p);
  }

  lemma Bits565(p: word)
    ensures From565(p) == Rgb(((p >> 11) & 0x1f) << 3, ((p >> 6) & 0x1f) << 3, (p & 0x1f) << 3)
  {
  }

  lemma Fields332(p: word)
    ensures From332(p) == Rgb(Lifted(p, 5, 3), Lifted(p, 2, 3), Lifted(p, 0, 2))
  {
    hide Lifted, Shr, From332, Rgb;
    ShrBy(p);
    Lift3(p, 5, p >> 5);
    Lift3(p, 2, p >> 2);
    Lift2(p, 0, p);
    Bits332(p);
  }

  lemma Bits332(p: word)
    ensures From332(p) == Rgb(((p >> 5) & 0x07) << 5, ((p >> 2) & 0x07) << 5, (p & 0x03) << 6)
  {
  }

  lemma Fields233(p: word)
    ensures From233(p) == Rgb(Lifted(p, 0, 3), Lifted(p, 3, 3), Lifted(p, 6, 2))
  {
    hide Lifted, Shr, From233, Rgb;
    ShrBy(p);
    Lift3(p, 0, p);
    Lift3(p, 3, p >> 3);
    Lift2(p, 6, p >> 6);
    Bits233(p);
  }

  lemma Bits233(p: word)
    ensures From233(p) == Rgb((p & 0x07) << 5, ((p >> 3) & 0x07) << 5, ((p >> 6) & 0x03) << 6)
  {
  }

  lemma Packed555(col: word)
    ensures FieldAt(To555(col), 10, 5) == Highest(Red(col), 5)
    ensures FieldAt(To555(col), 5, 5) == Highest(Green(col), 5)
    ensures FieldAt(To555(col), 0, 5) == Highest(Blue(col), 5)
  {
    hide FieldAt, Highest, To555, Red, Green, Blue, Shr;
    var q := To555(col);
    ShrBy(q);
    ShrBeyondEight(q);
    Field5(q, 10, q >> 10, Red(col));
    Field5(q, 5, q >> 5, Green(col));
    Field5(q, 0, q, Blue(col));
    Parts555(col);
  }

  lemma Parts555(col: word)
    ensures (To555(col) >> 10) & 0x1f == Red(col) >> 3
    ensures (To555(col) >> 5) & 0x1f == Green(col) >> 3
    ensures To555(col) & 0x1f == Blue(col) >> 3
  {
  }

  lemma Packed565(col: word)
    ensures FieldAt(To565(col), 11, 5) == Highest(Red(col), 5)
    ensures FieldAt(To565(col), 5, 6) == Highest(Green(col), 6)
    ensures FieldAt(To565(col), 0, 5) == Highest(Blue(col), 5)
  {
    hide FieldAt, Highest, To565, Red, Green, Blue, Shr;
    var q := To565(col);
    ShrBy(q);
    ShrBeyondEight(q);
    Field5(q, 11, q >> 11, Red(col));
    Field6(q, 5, q >> 5, Green(col));
    Field5(q, 0, q, Blue(col));
    Parts565(col);
  }

  lemma Parts565(col: word)
    ensures (To565(col) >> 11) & 0x1f == Red(col) >> 3
    ensures (To565(col) >> 5) & 0x3f == Green(col) >> 2
    ensures To565(col) & 0x1f == Blue(col) >> 3
  {
  }

  lemma Packed332(col: word)
    ensures FieldAt(To332(col), 5, 3) == Highest(Red(col), 3)
    ensures FieldAt(To332(col), 2, 3) == Highest(Green(col), 3)
    ensures FieldAt(To332(col), 0, 2) == Highest(Blue(col), 2)
  {
    hide FieldAt, Highest, To332, Red, Green, Blue, Shr;
    var q := To332(col);
    ShrBy(q);
    Field3(q, 5, q >> 5, Red(col));
    Field3(q, 2, q >> 2, Green(col));
    Field2(q, 0, q, Blue(col));
    Parts332(col);
  }

  lemma Parts332(col: word)
    ensures (To332(col) >> 5) & 0x07 == Red(col) >> 5
    ensures (To332(col) >> 2) & 0x07 == Green(col) >> 5
    ensures To332(col) & 0x03 == Blue(col) >> 6
  {
  }

  lemma Packed233(col: word)
    ensures FieldAt(To233(col), 0, 3) == Highest(Red(col), 3)
    ensures FieldAt(To233(col), 3, 3) == Highest(Green(col), 3)
    ensures FieldAt(To233(col), 6, 2) == Highest(Blue(col), 2)
  {
    hide FieldAt, Highest, To233, Red, Green, Blue, Shr;
    var q := To233(col);
    ShrBy(q);
    Field3(q, 0, q, Red(col));
    Field3(q, 3, q >> 3, Green(col));
    Field2(q, 6, q >> 6, Blue(col));
    Parts233(col);
  }

  lemma Parts233(col: word)
    ensures To233(col) & 0x07 == Red(col) >> 5
    ensures (To233(col) >> 3) & 0x07 == Green(col) >> 5
    ensures (To233(col) >> 6) & 0x03 == Blue(col) >> 6
  {
  }
}
