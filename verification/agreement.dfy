/**
 * What the converter loses, that its short cut for RGB32 would change nothing, and that it
 * packs pixels as the framebuffer does.
 */
module Agreement {
  import opened Words
  import opened Pixels
  import opened PixelMemory
  import opened Framebuffers
  import opened Colorspaces

  // ---------------------------------------------------------------------------------------
  // The short cut
  // ---------------------------------------------------------------------------------------

  /** Decoding RGB32 is reading words. */
  lemma Rgb32IsWords(data: seq<byte>, n: nat, bigEndian: bool)
    requires Size(4, n) <= |data|
    ensures ToColours(Rgb32, data, n, bigEndian) == WordsOf(data, 4, bigEndian, n)
  {
    hide Loaded;
    forall i | 0 <= i < n
      ensures ToColours(Rgb32, data, n, bigEndian)[i] == WordsOf(data, 4, bigEndian, n)[i]
    {
      assert PixelAt(data, 4, i) == Cell(data, 4, i);
    }
  }

  /** Encoding RGB32 is writing words. */
  lemma {:induction false} Rgb32IsBytes(cols: seq<word>, bigEndian: bool)
    ensures FromColours(Rgb32, cols, bigEndian) == BytesOf(cols, 4, bigEndian)
    decreases |cols|
  {
    hide Stored;
    if cols != [] {
      Rgb32IsBytes(cols[..|cols| - 1], bigEndian);
    }
  }

  /**
   * The comparison that should choose the direct path is never true. Where RGB32 is the source or
   * the target, one call of the other format's function, on the words in memory, would write the
   * same bytes as the loop over the lines.
   */
  lemma DirectPathAgrees(c: Convertible, data: seq<byte>, n: nat, bigEndian: bool)
    ensures Size(4, n) <= |data| ==>
              Recoloured(Rgb32, c, data, n, bigEndian) == FromColours(c, WordsOf(data, 4, bigEndian, n), bigEndian)
    ensures Span(PixelSize(c), n) <= |data| ==>
              Recoloured(c, Rgb32, data, n, bigEndian) == BytesOf(ToColours(c, data, n, bigEndian), 4, bigEndian)
  {
    hide PixelSize, FromColours, ToColours, BytesOf, WordsOf;
    if Size(4, n) <= |data| {
      Rgb32IsWords(data, n, bigEndian);
      Rgb32Size();
    }
    if Span(PixelSize(c), n) <= |data| {
      Rgb32IsBytes(ToColours(c, data, n, bigEndian), bigEndian);
    }
  }

  lemma Rgb32Size()
    ensures PixelSize(Rgb32) == 4
  {
  }

  // ---------------------------------------------------------------------------------------
  // Round trips
  // ---------------------------------------------------------------------------------------

  lemma RoundTrip332(p: word)
    requires p <= 0xff
    ensures To332(From332(p)) == p
  {
  }

  lemma RoundTrip233(p: word)
    requires p <= 0xff
    ensures To233(From233(p)) == p
  {
  }

  lemma RoundTrip555(p: word)
    requires p <= 0xffff
    ensures To555(From555(p)) == p & 0x7fff
  {
  }

  lemma RoundTrip565(p: word)
    requires p <= 0xffff
    ensures To565(From565(p)) == p & 0xffdf
  {
  }

  /** With green masked by 0xfc, as is meant, RGB565 would lose nothing. */
  lemma Meant565(p: word)
    requires p <= 0xffff
    ensures To565(Rgb((p >> 8) & 0xf8, (p >> 3) & 0xfc, (p << 3) & 0xf8)) == p
  {
  }

  /** With the bitwise or, as is meant, neither would the 24-bit formats. */
  lemma Meant24(r: byte, g: byte, b: byte)
    ensures var col := Rgb(Bits(r), Bits(g), Bits(b));
            Byte2(col) == r && Byte1(col) == g && Byte0(col) == b
  {
    hide Bits, FromBits;
    ByteBits(r);
    ByteBits(g);
    ByteBits(b);
    JoinedParts(Bits(r), Bits(g), Bits(b));
  }

  /** The formats for which the header promises a layout of the three channels. */
  predicate IsRgb(c: Convertible) {
    c != Yuv && c != Gray
  }

  /** A pixel that survives the way to RGB32 and back. */
  predicate Survives(c: Convertible, s: seq<byte>, bigEndian: bool)
    requires IsRgb(c) && |s| == PixelSize(c)
  {
    match c
    case Rgb32 => true
    case Rgb24 => s[0] == 0 && s[1] == 0 && s[2] <= 1
    case Bgr24 => s[0] <= 1 && s[1] == 0 && s[2] == 0
    case Rgb555 => And(Loaded(s, bigEndian), 0x8000) == 0
    case Rgb565 => And(Loaded(s, bigEndian), 0x0020) == 0
    case Rgb332 => true
    case Bgr233 => true
  }

  /**
   * RGB332, BGR233 and RGB32 lose nothing; RGB555 loses its unused bit, RGB565 the lowest bit of
   * green, and the 24-bit formats everything but black and the darkest blue or, in BGR24, the
   * value 1 in their first byte.
   */
  lemma PixelRoundTripExact(c: Convertible, s: seq<byte>, bigEndian: bool)
    requires IsRgb(c) && |s| == PixelSize(c)
    ensures Encode(c, Decode(c, s, bigEndian), bigEndian) == s <==> Survives(c, s, bigEndian)
  {
    hide Loaded, Stored, And, Encode, Decode, Survives;
    match c
    case Rgb32 => OneByteExact(c, s, bigEndian);
    case Rgb24 => ThreeBytesExact(c, s, bigEndian);
    case Bgr24 => ThreeBytesExact(c, s, bigEndian);
    case Rgb555 => Rgb555Exact(s, bigEndian);
    case Rgb565 => Rgb565Exact(s, bigEndian);
    case Rgb332 => OneByteExact(c, s, bigEndian);
    case Bgr233 => OneByteExact(c, s, bigEndian);
  }

  lemma OneByteExact(c: Convertible, s: seq<byte>, bigEndian: bool)
    requires c == Rgb32 || c == Rgb332 || c == Bgr233
    requires |s| == PixelSize(c)
    ensures Encode(c, Decode(c, s, bigEndian), bigEndian) == s && Survives(c, s, bigEndian)
  {
    hide Loaded, Stored, And, From332, To332, From233, To233;
    StoredLoaded(s, bigEndian);
    ByteWord(Loaded(s, bigEndian));
    if c == Rgb332 {
      RoundTrip332(Loaded(s, bigEndian));
    } else if c == Bgr233 {
      RoundTrip233(Loaded(s, bigEndian));
    }
  }

  lemma ThreeBytesExact(c: Convertible, s: seq<byte>, bigEndian: bool)
    requires c == Rgb24 || c == Bgr24
    requires |s| == 3
    ensures Encode(c, Decode(c, s, bigEndian), bigEndian) == s <==> Survives(c, s, bigEndian)
  {
    hide Byte0, Byte1, Byte2, AnyOf;
    if c == Rgb24 {
      TwentyFour(s[0], s[1], s[2]);
    } else {
      TwentyFour(s[2], s[1], s[0]);
    }
  }

  lemma Rgb555Exact(s: seq<byte>, bigEndian: bool)
    requires |s| == 2
    ensures Encode(Rgb555, Decode(Rgb555, s, bigEndian), bigEndian) == s <==> Survives(Rgb555, s, bigEndian)
  {
    hide Loaded, Stored, And, From555, To555;
    var w := Loaded(s, bigEndian);
    StoredLoaded(s, bigEndian);
    ShortWord(w);
    RoundTrip555(w);
    TopBit(w);
    StoredDiffers(s, w & 0x7fff, bigEndian);
  }

  lemma Rgb565Exact(s: seq<byte>, bigEndian: bool)
    requires |s| == 2
    ensures Encode(Rgb565, Decode(Rgb565, s, bigEndian), bigEndian) == s <==> Survives(Rgb565, s, bigEndian)
  {
    hide Loaded, Stored, And, From565, To565;
    var w := Loaded(s, bigEndian);
    StoredLoaded(s, bigEndian);
    ShortWord(w);
    RoundTrip565(w);
    GreenBit(w);
    StoredDiffers(s, w & 0xffdf, bigEndian);
  }

  lemma ByteWord(w: word)
    ensures And(w, 0xff) == w ==> w <= 0xff
  {
  }

  lemma ShortWord(w: word)
    ensures And(w, 0xffff) == w ==> w <= 0xffff
  {
  }

  lemma TopBit(w: word)
    requires w <= 0xffff
    ensures And(w & 0x7fff, 0xffff) == w & 0x7fff
    ensures w & 0x7fff == w <==> And(w, 0x8000) == 0
  {
  }

  lemma GreenBit(w: word)
    requires w <= 0xffff
    ensures And(w & 0xffdf, 0xffff) == w & 0xffdf
    ensures w & 0xffdf == w <==> And(w, 0x0020) == 0
  {
  }

  /** Two-byte memory holds a word exactly if storing the word gives that memory. */
  lemma StoredDiffers(s: seq<byte>, w: word, bigEndian: bool)
    requires |s| == 2 && And(w, 0xffff) == w
    ensures Stored(w, 2, bigEndian) == s <==> w == Loaded(s, bigEndian)
  {
    hide Loaded, Stored, And;
    LoadedStored(w, 2, bigEndian);
    StoredLoaded(s, bigEndian);
  }

  lemma TwentyFour(r: byte, g: byte, b: byte)
    ensures var col := AnyOf(r, g, b);
            Byte2(col) == r && Byte1(col) == g && Byte0(col) == b <==> r == 0 && g == 0 && b <= 1
  {
    hide FromBits;
    SmallBytes();
    assert Part2(0) == 0 && Part1(0) == 0 && Part0(0) == 0;
    assert Part2(1) == 0 && Part1(1) == 0 && Part0(1) == 1;
  }

  lemma SmallBytes()
    ensures FromBits(0) == 0 && FromBits(1) == 1
  {
    assert ToNat(0, 4) == 0;
    assert Down(1) == 0;
  }

  lemma {:induction false} EncodedPixel(c: Convertible, cols: seq<word>, i: nat, bigEndian: bool)
    requires i < |cols|
    ensures Span(PixelSize(c), i + 1) <= Span(PixelSize(c), |cols|)
    ensures PixelAt(FromColours(c, cols, bigEndian), PixelSize(c), i) == Encode(c, cols[i], bigEndian)
    decreases |cols|
  {
    hide Encode, PixelSize, Span, FromColours;
    var n := |cols| - 1;
    SpanGrows(PixelSize(c), i, n + 1);
    SpanGrows(PixelSize(c), n, n + 1);
    OneColour(c, cols, bigEndian);
    if i < n {
      SpanGrows(PixelSize(c), i, n);
      EncodedPixel(c, cols[..n], i, bigEndian);
      assert PixelAt(FromColours(c, cols, bigEndian), PixelSize(c), i)
             == PixelAt(FromColours(c, cols[..n], bigEndian), PixelSize(c), i);
    }
  }

  /** Pixel `i` of the converted image is pixel `i` of the image, decoded and encoded. */
  lemma ConvertedPixel(f: Convertible, t: Convertible, data: seq<byte>, n: nat, i: nat, bigEndian: bool)
    requires i < n && Span(PixelSize(f), n) <= |data|
    ensures Span(PixelSize(f), i + 1) <= |data| && Span(PixelSize(t), i + 1) <= Span(PixelSize(t), n)
    ensures PixelAt(Recoloured(f, t, data, n, bigEndian), PixelSize(t), i)
            == Encode(t, Decode(f, PixelAt(data, PixelSize(f), i), bigEndian), bigEndian)
  {
    hide Encode, Decode, PixelSize, Span, FromColours, ToColours;
    SpanGrows(PixelSize(f), i, n);
    EncodedPixel(t, ToColours(f, data, n, bigEndian), i, bigEndian);
    ColourOf(f, data, n, i, bigEndian);
  }

  /** Decoding and encoding an image again, without the detour. */
  lemma Recoded(c: Convertible, data: seq<byte>, n: nat, bigEndian: bool)
    requires IsRgb(c) && |data| == Span(PixelSize(c), n)
    requires AllSurvive(c, data, n, bigEndian)
    ensures FromColours(c, ToColours(c, data, n, bigEndian), bigEndian) == data
    decreases n
  {
    hide PixelAt, PixelSize, Span, FromColours, ToColours, AllSurvive;
    var ps := PixelSize(c);
    var back := FromColours(c, ToColours(c, data, n, bigEndian), bigEndian);
    forall i: nat | i < n
      ensures SamePixel(ps, back, data, i)
    {
      RecodedPixel(c, data, n, i, bigEndian);
    }
    SamePixels(ps, back, data, n);
  }

  predicate SamePixel(ps: nat, a: seq<byte>, b: seq<byte>, i: nat)
    requires 1 <= ps <= 4
  {
    Span(ps, i + 1) <= |a| && Span(ps, i + 1) <= |b| && PixelAt(a, ps, i) == PixelAt(b, ps, i)
  }

  lemma RecodedPixel(c: Convertible, data: seq<byte>, n: nat, i: nat, bigEndian: bool)
    requires IsRgb(c) && |data| == Span(PixelSize(c), n) && i < n
    requires AllSurvive(c, data, n, bigEndian)
    ensures SamePixel(PixelSize(c), FromColours(c, ToColours(c, data, n, bigEndian), bigEndian), data, i)
  {
    hide Encode, Decode, PixelSize, Span, FromColours, ToColours, Survives;
    SpanGrows(PixelSize(c), i, n);
    EncodedPixel(c, ToColours(c, data, n, bigEndian), i, bigEndian);
    ColourOf(c, data, n, i, bigEndian);
    PixelRoundTripExact(c, PixelAt(data, PixelSize(c), i), bigEndian);
  }

  ghost predicate AllSurvive(c: Convertible, data: seq<byte>, n: nat, bigEndian: bool)
    requires IsRgb(c) && |data| == Span(PixelSize(c), n)
  {
    forall i: nat {:trigger PixelAt(data, PixelSize(c), i)} | i < n ::
      Span(PixelSize(c), i + 1) <= |data| && Survives(c, PixelAt(data, PixelSize(c), i), bigEndian)
  }

  lemma SamePixels(ps: nat, a: seq<byte>, b: seq<byte>, n: nat)
    requires 1 <= ps <= 4 && |a| == |b| == Span(ps, n)
    requires forall i: nat | i < n :: SamePixel(ps, a, b, i)
    ensures a == b
  {
    forall k | 0 <= k < |a|
      ensures a[k] == b[k]
    {
      var i := k / ps;
      assert i < n && Span(ps, i) <= k < Span(ps, i + 1) by {
        PixelOfOffset(ps, n, k);
      }
      assert SamePixel(ps, a, b, i);
      assert a[k] == PixelAt(a, ps, i)[k - Span(ps, i)] && b[k] == PixelAt(b, ps, i)[k - Span(ps, i)];
    }
  }

  lemma PixelOfOffset(ps: nat, n: nat, k: nat)
    requires 1 <= ps <= 4 && k < Span(ps, n)
    ensures k / ps < n && Span(ps, k / ps) <= k < Span(ps, k / ps + 1)
  {
    if ps == 1 {
    } else if ps == 2 {
      assert k / 2 < n;
    } else if ps == 3 {
      assert k / 3 < n;
    } else {
      assert k / 4 < n;
    }
  }

  /** An image comes back from RGB32 exactly when each of its pixels survives. */
  lemma ImageRoundTripExact(c: Convertible, data: seq<byte>, n: nat, bigEndian: bool)
    requires IsRgb(c) && |data| == Span(PixelSize(c), n)
    ensures Recoloured(Rgb32, c, Recoloured(c, Rgb32, data, n, bigEndian), n, bigEndian) == data
            <==> AllSurvive(c, data, n, bigEndian)
  {
    hide Encode, Decode, FromColours, ToColours, Survives, BytesOf, WordsOf, AllSurvive;
    var cols := ToColours(c, data, n, bigEndian);
    ThroughRgb32(c, cols, bigEndian);
    if AllSurvive(c, data, n, bigEndian) {
      Recoded(c, data, n, bigEndian);
    }
    if FromColours(c, cols, bigEndian) == data {
      RecodedSurvives(c, data, n, bigEndian);
    }
  }

  lemma ThroughRgb32(c: Convertible, cols: seq<word>, bigEndian: bool)
    ensures |FromColours(Rgb32, cols, bigEndian)| == Size(4, |cols|)
    ensures ToColours(Rgb32, FromColours(Rgb32, cols, bigEndian), |cols|, bigEndian) == cols
  {
    hide Stored, Loaded;
    Rgb32IsBytes(cols, bigEndian);
    Rgb32IsWords(BytesOf(cols, 4, bigEndian), |cols|, bigEndian);
    forall i | 0 <= i < |cols|
      ensures And(cols[i], Limit(4)) == cols[i]
    {
      AndLaws(cols[i], 0);
    }
    WordsOfBytes(cols, 4, bigEndian);
  }

  lemma RecodedSurvives(c: Convertible, data: seq<byte>, n: nat, bigEndian: bool)
    requires IsRgb(c) && |data| == Span(PixelSize(c), n)
    requires FromColours(c, ToColours(c, data, n, bigEndian), bigEndian) == data
    ensures AllSurvive(c, data, n, bigEndian)
  {
    hide Encode, Decode, PixelSize, Span, FromColours, ToColours, Survives;
    var ps, cols := PixelSize(c), ToColours(c, data, n, bigEndian);
    forall i: nat {:trigger PixelAt(data, ps, i)} | i < n
      ensures Span(ps, i + 1) <= |data| && Survives(c, PixelAt(data, ps, i), bigEndian)
    {
      SpanGrows(ps, i, n);
      EncodedPixel(c, cols, i, bigEndian);
      ColourOf(c, data, n, i, bigEndian);
      PixelRoundTripExact(c, PixelAt(data, ps, i), bigEndian);
    }
  }

  // ---------------------------------------------------------------------------------------
  // The framebuffer packs alike
  // ---------------------------------------------------------------------------------------

  lemma NormsOfBuiltIns()
    ensures NormFromMask(7) == 5 && NormFromMask(3) == 6 && NormFromMask(0x1f) == 3 && NormFromMask(0x3f) == 2
    ensures NormFromMask(0xff) == 0
  {
  }

  /** A pixel of the RGB32 layout is its own colour, but for the unused byte. */
  lemma UnpackFB32(c: word)
    ensures Unpack(FB32, c) == c & 0x00ff_ffff
  {
    NormsOfBuiltIns();
    ShlTwice(c, 0, 0);
    ShrSixteen(c);
    Colour32(c);
  }

  lemma ShrSixteen(x: word)
    ensures Shr(x, 8) == x >> 8 && Shr(x, 16) == x >> 16
  {
    ShrBy(x);
    ShrBy(x >> 8);
    ShrTwice(x, 8, 8);
    HalfWord(x);
  }

  lemma HalfWord(x: word)
    ensures (x >> 8) >> 8 == x >> 16
  {
  }

  lemma Colour32(c: word)
    ensures Rgb((c >> 16) & 0xff, (c >> 8) & 0xff, c & 0xff) == c & 0x00ff_ffff
  {
  }

  lemma PackFB8(col: word)
    ensures Pack(FB8, col) == To233(col)
  {
    NormsOfBuiltIns();
    ShrBy(Red(col));
    ShrBy(Green(col));
    ShrBy(Blue(col));
    ShlBy(And(Shr(Green(col), 5), 7));
    ShlBy(And(Shr(Blue(col), 6), 3));
    Bits233(col);
  }

  lemma Bits233(col: word)
    ensures ((((Red(col) >> 5) & 7) | (((Green(col) >> 5) & 7) << 3)) | (((Blue(col) >> 6) & 3) << 6)) & 0xff
            == To233(col)
  {
  }

  lemma PackFB16(col: word)
    ensures Pack(FB16, col) == To565(col)
  {
    NormsOfBuiltIns();
    ShrBy(Red(col));
    ShrBy(Green(col));
    ShrBy(Blue(col));
    ShlBy(And(Shr(Red(col), 3), 0x1f));
    ShlBy(And(Shr(Green(col), 2), 0x3f));
    Bits565(col);
  }

  lemma Bits565(col: word)
    ensures (((((Red(col) >> 3) & 0x1f) << 11) | (((Green(col) >> 2) & 0x3f) << 5))
             | ((Blue(col) >> 3) & 0x1f)) & 0xffff
            == To565(col)
  {
  }

  lemma UnusedByte(c: word)
    ensures To233(c & 0x00ff_ffff) == To233(c)
    ensures To565(c & 0x00ff_ffff) == To565(c)
  {
  }

  /** One pixel of an RGB32 image, in both libraries. */
  lemma PixelAgrees(w: word)
    ensures Pack(FB8, Unpack(FB32, w)) == To233(w)
    ensures Pack(FB16, Unpack(FB32, w)) == To565(w)
  {
    hide Pack, Unpack, To233, To565;
    UnpackFB32(w);
    PackFB8(Unpack(FB32, w));
    PackFB16(Unpack(FB32, w));
    UnusedByte(w);
  }

  lemma OneMorePixel(words: seq<word>, to: Layout, bigEndian: bool)
    requires words != [] && Supported(to.bpp)
    ensures BytesOf(Repacked(FB32, to, words), to.bpp, bigEndian)
            == BytesOf(Repacked(FB32, to, words[..|words| - 1]), to.bpp, bigEndian)
               + Stored(Pack(to, Unpack(FB32, words[|words| - 1])), to.bpp, bigEndian)
  {
    hide Pack, Unpack, Stored;
    assert Repacked(FB32, to, words)[..|words| - 1] == Repacked(FB32, to, words[..|words| - 1]);
  }

  /**
   * Converting an RGB32 image to BGR233 or RGB565 in the webcam library gives the pixel memory
   * that a framebuffer of the built-in one- or two-byte layout has after showing that image.
   */
  lemma {:induction false} LibrariesAgree(words: seq<word>, bigEndian: bool)
    ensures FromColours(Bgr233, words, bigEndian) == BytesOf(Repacked(FB32, FB8, words), 1, bigEndian)
    ensures FromColours(Rgb565, words, bigEndian) == BytesOf(Repacked(FB32, FB16, words), 2, bigEndian)
    decreases |words|
  {
    hide Pack, Unpack, Stored, To233, To565, BytesOf, Repacked;
    if words != [] {
      var n := |words| - 1;
      LibrariesAgree(words[..n], bigEndian);
      PixelAgrees(words[n]);
      OneMorePixel(words, FB8, bigEndian);
      OneMorePixel(words, FB16, bigEndian);
    }
  }

  /**
   * In memory: where `dst` has the built-in one- or two-byte layout and shows what `src` shows in
   * RGB32's, as it does after conversion, its pixels are the bytes that the webcam library makes of
   * the pixels of `src`.
   */
  lemma MemoriesAgree(src: Framebuffer, dst: Framebuffer)
    requires src.Valid() && dst.Valid() && src.hostBigEndian == dst.hostBigEndian && src.Shape() == FB32
    requires dst.Shape() == FB8 || dst.Shape() == FB16
    requires dst.View() == Framebuffers.Converted(src.View(), dst.Shape())
    ensures var t, n := if dst.Shape() == FB8 then Bgr233 else Rgb565, src.width * src.height;
            && Span(PixelSize(Rgb32), n) <= src.pixels.Length
            && dst.pixels[..] == Recoloured(Rgb32, t, src.pixels[..], n, src.hostBigEndian)
  {
    hide FromColours, BytesOf, Repacked, WordsOf, PixelSize, Span, Size, NormFromMask;
    var n, host := src.width * src.height, src.hostBigEndian;
    var words := WordsOf(src.pixels[..], 4, host, n);
    SizesAlike(n);
    BytesOfWords(dst.pixels[..], dst.bpp, host, n);
    Rgb32IsWords(src.pixels[..], n, host);
    LibrariesAgree(words, host);
  }

  lemma SizesAlike(n: nat)
    ensures Span(PixelSize(Rgb32), n) == Size(4, n)
  {
  }
}
