/** Images, and the framebuffer object that keeps one in memory (src/fb.c). */
module Framebuffers {
  import opened Words
  import opened Pixels
  import opened PixelMemory

  const MAX_DIMENSION := 0xffff

  // ---------------------------------------------------------------------------------------
  // Images as values
  // ---------------------------------------------------------------------------------------

  /** Row by row, `words[y * width + x]` is the pixel at column x of row y. */
  datatype Image = Image(width: nat, height: nat, layout: Layout, words: seq<word>)

  predicate ValidImage(img: Image) {
    && img.width <= MAX_DIMENSION && img.height <= MAX_DIMENSION
    && |img.words| == img.width * img.height
    && Supported(img.layout.bpp)
    && Fit(img.words, img.layout.bpp)
  }

  const WRAP := 0x1_0000_0000

  /** The bytes of an image, as C's 32-bit unsigned arithmetic counts them. */
  function ByteCount(bpp: nat, width: nat, height: nat): u32
    requires Supported(bpp)
  {
    Size(bpp, width * height) % WRAP
  }

  /** The count does not wrap round. */
  predicate Countable(bpp: nat, width: nat, height: nat)
    requires Supported(bpp)
  {
    Size(bpp, width * height) < WRAP
  }

  /** Memory allocated by that count has room for the image exactly if the count does not wrap. */
  lemma AllocationExact(bpp: nat, width: nat, height: nat)
    requires Supported(bpp)
    ensures ByteCount(bpp, width, height) >= Size(bpp, width * height) <==> Countable(bpp, width, height)
    ensures Countable(bpp, width, height) ==> ByteCount(bpp, width, height) == Size(bpp, width * height)
  {
    var n := Size(bpp, width * height);
    assert n == WRAP * (n / WRAP) + n % WRAP;
  }

  /** 2^30 pixels of four bytes are counted as none; 40000 by 40000 pixels of one or two are counted right. */
  lemma AllocationCounterexample()
    ensures ByteCount(4, 32768, 32768) == 0 && Size(4, 32768 * 32768) == WRAP
    ensures Countable(1, 40000, 40000) && Countable(2, 40000, 40000) && !Countable(4, 40000, 40000)
  {
  }

  lemma IndexBound(width: nat, height: nat, x: nat, y: nat)
    requires x < width && y < height
    ensures y * width + x < width * height
  {
    assert (y + 1) * width <= height * width;
  }

  /** Pixels are counted and indexed below 2^32, so that one-byte images are always countable. */
  lemma IndicesFit(width: nat, height: nat, x: nat, y: nat)
    requires width <= MAX_DIMENSION && height <= MAX_DIMENSION
    ensures width * height < WRAP && Countable(1, width, height)
    ensures x < width && y < height ==> y * width + x < width * height
  {
    ProductBound(width, height, MAX_DIMENSION);
    if x < width && y < height {
      IndexBound(width, height, x, y);
    }
  }

  lemma ProductBound(a: nat, b: nat, m: nat)
    requires a <= m && b <= m
    ensures a * b <= m * m
  {
    assert a * b <= m * b <= m * m;
  }

  lemma RowBound(width: nat, height: nat, y: nat)
    requires y < height
    ensures (y + 1) * width == y * width + width <= height * width == width * height
  {
    assert (y + 1) * width <= height * width;
  }

  lemma RowRoom(width: nat, height: nat, y: nat, w: nat)
    requires y < height && w <= width
    ensures y * width + w <= width * height
  {
    RowBound(width, height, y);
  }

  function ColourAt(img: Image, x: nat, y: nat): word
    requires ValidImage(img) && x < img.width && y < img.height
  {
    IndexBound(img.width, img.height, x, y);
    Unpack(img.layout, img.words[y * img.width + x])
  }

  function Repacked(from: Layout, to: Layout, words: seq<word>): (r: seq<word>)
    ensures |r| == |words|
  {
    seq(|words|, i requires 0 <= i < |words| => Pack(to, Unpack(from, words[i])))
  }

  /** The image in another layout; equal layouts are copied, not re-packed. */
  function Converted(src: Image, to: Layout): Image {
    Image(src.width, src.height, to, if src.layout == to then src.words else Repacked(src.layout, to, src.words))
  }

  lemma PackFits(l: Layout, col: word)
    ensures And(Pack(l, col), Limit(l.bpp)) == Pack(l, col)
  {
    hide And, Or, Limit, Field;
    var all := Or(Or(Field(Red(col), l.rmask, l.rshift), Field(Green(col), l.gmask, l.gshift)),
                  Field(Blue(col), l.bmask, l.bshift));
    AndAssoc(all, Limit(l.bpp), Limit(l.bpp));
    AndLaws(Limit(l.bpp), Limit(l.bpp));
  }

  lemma ConvertedValid(src: Image, to: Layout)
    requires ValidImage(src) && Supported(to.bpp)
    ensures ValidImage(Converted(src, to))
  {
    hide Pack, Unpack, Limit, And;
    if src.layout != to {
      forall i | 0 <= i < |src.words|
        ensures And(Converted(src, to).words[i], Limit(to.bpp)) == Converted(src, to).words[i]
      {
        PackFits(to, Unpack(src.layout, src.words[i]));
      }
    }
  }

  predicate Rectangular(img: Image) {
    |img.words| == img.width * img.height
  }

  /** The image at another size: the common rectangle stays where it is, the rest is zero. */
  function Resized(img: Image, width: nat, height: nat): (r: Image)
    requires Rectangular(img) && width > 0
    ensures |r.words| == width * height
  {
    Image(width, height, img.layout, RowsKept(img, width, height, height))
  }

  /** The resized image once its first `rows` rows have been copied into zeroed memory. */
  function RowsKept(img: Image, width: nat, height: nat, rows: nat): (ws: seq<word>)
    requires Rectangular(img) && width > 0
    ensures |ws| == width * height
  {
    seq(width * height, i requires 0 <= i < width * height =>
      if i / width < rows then ResizedWord(img, i % width, i / width) else 0)
  }

  function ResizedWord(img: Image, x: nat, y: nat): word
    requires Rectangular(img)
  {
    if x < img.width && y < img.height then
      IndexBound(img.width, img.height, x, y);
      img.words[y * img.width + x]
    else 0
  }

  lemma RowAndColumn(width: nat, x: nat, y: nat)
    requires x < width
    ensures (y * width + x) / width == y && (y * width + x) % width == x
  {
    var i := y * width + x;
    var q, r := i / width, i % width;
    assert i == q * width + r && 0 <= r < width;
    assert q > y ==> q * width >= (y + 1) * width;
    assert q < y ==> y * width >= (q + 1) * width;
  }

  /** Where every pixel of a resized image comes from. */
  lemma ResizedAt(img: Image, width: nat, height: nat, x: nat, y: nat)
    requires Rectangular(img) && x < width && y < height
    ensures y * width + x < width * height
    ensures Resized(img, width, height).words[y * width + x] == ResizedWord(img, x, y)
  {
    IndexBound(width, height, x, y);
    RowAndColumn(width, x, y);
  }

  /** Growing an image and shrinking it back gives the image again. */
  lemma GrowAndShrink(img: Image, width: nat, height: nat)
    requires Rectangular(img) && img.width > 0
    requires img.width <= width && img.height <= height
    ensures Resized(Resized(img, width, height), img.width, img.height) == img
  {
    hide ResizedWord, RowsKept;
    var big := Resized(img, width, height);
    var back := Resized(big, img.width, img.height);
    forall i | 0 <= i < |img.words|
      ensures back.words[i] == img.words[i]
    {
      BackAt(img, width, height, i);
    }
    assert back.words == img.words;
  }

  lemma BackAt(img: Image, width: nat, height: nat, i: nat)
    requires Rectangular(img) && img.width <= width && img.height <= height && i < |img.words|
    requires img.width > 0
    ensures Resized(Resized(img, width, height), img.width, img.height).words[i] == img.words[i]
  {
    hide RowsKept, ResizedWord;
    RowAndColumnOf(img.width, img.height, i);
    BackFrom(img, width, height, i % img.width, i / img.width);
  }

  lemma BackFrom(img: Image, width: nat, height: nat, x: nat, y: nat)
    requires Rectangular(img) && x < img.width <= width && y < img.height <= height
    ensures y * img.width + x < |img.words|
    ensures Resized(Resized(img, width, height), img.width, img.height).words[y * img.width + x]
            == img.words[y * img.width + x]
  {
    hide RowsKept, ResizedWord;
    Kept(img, width, height, x, y);
    ResizedAt(Resized(img, width, height), img.width, img.height, x, y);
  }

  lemma RowAndColumnOf(width: nat, height: nat, i: nat)
    requires width > 0 && i < width * height
    ensures i == (i / width) * width + i % width && i / width < height
  {
    var y := i / width;
    assert y >= height ==> y * width >= height * width;
  }

  lemma Kept(img: Image, width: nat, height: nat, x: nat, y: nat)
    requires Rectangular(img) && x < img.width <= width && y < img.height <= height
    ensures y * img.width + x < |img.words|
    ensures ResizedWord(Resized(img, width, height), x, y) == img.words[y * img.width + x]
  {
    hide RowsKept;
    IndexBound(img.width, img.height, x, y);
    ResizedAt(img, width, height, x, y);
  }

  /** Copying row `y` of the image adds that row, and needs to touch nothing else. */
  lemma RowStep(img: Image, width: nat, height: nat, y: nat, ws: seq<word>)
    requires Rectangular(img) && width > 0 && y < height && y < img.height
    requires |ws| == width * height
    requires var w := if width < img.width then width else img.width;
             forall i | 0 <= i < |ws| ::
               ws[i] == if y * width <= i < y * width + w
                        then ResizedWord(img, i - y * width, y)
                        else RowsKept(img, width, height, y)[i]
    ensures ws == RowsKept(img, width, height, y + 1)
  {
    hide ResizedWord;
    var w := if width < img.width then width else img.width;
    forall i | 0 <= i < |ws|
      ensures ws[i] == RowsKept(img, width, height, y + 1)[i]
    {
      RowOf(width, y, i);
      if i / width == y && w <= i % width {
        OutsideRow(img, i % width, y);
      }
    }
  }

  lemma OutsideRow(img: Image, x: nat, y: nat)
    requires Rectangular(img) && x >= img.width
    ensures ResizedWord(img, x, y) == 0
  {
  }

  /** Index `i` lies in row `y` exactly when it lies in that row's run of indices. */
  lemma RowOf(width: nat, y: nat, i: nat)
    requires width > 0
    ensures i / width == y <==> y * width <= i < y * width + width
    ensures i / width == y ==> i % width == i - y * width
  {
    if y * width <= i < y * width + width {
      RowAndColumn(width, i - y * width, y);
    }
  }

  lemma AllRowsKept(img: Image, width: nat, height: nat, rows: nat)
    requires Rectangular(img) && width > 0
    requires rows == if height < img.height then height else img.height
    ensures RowsKept(img, width, height, rows) == Resized(img, width, height).words
  {
  }

  // ---------------------------------------------------------------------------------------
  // The object
  // ---------------------------------------------------------------------------------------

  function BuiltIn(bpp: nat): Layout {
    if bpp == 1 then FB8 else if bpp == 2 then FB16 else FB32
  }

  /** A pixel format as the protocol writes it; one number per field of the message. */
  datatype Format = Format(
    bpp: u8, depth: u8, bigEndian: u8, trueColour: u8,
    rmax: u16, gmax: u16, bmax: u16,
    rshift: u8, gshift: u8, bshift: u8)

  function MaskOf(max: u16): word {
    Join2((max % 256) as byte, (max / 256) as byte)
  }

  function MaxOf(mask: word): u16 {
    U16(Byte1(mask), Byte0(mask))
  }

  /** The layout a format asks for, its `bpp` already in bytes. */
  function LayoutOf(f: Format): Layout {
    Layout(f.bpp, MaskOf(f.rmax), MaskOf(f.gmax), MaskOf(f.bmax), f.rshift, f.gshift, f.bshift)
  }

  lemma MaskOfMax(mask: word)
    requires And(mask, 0xffff) == mask
    ensures MaskOf(MaxOf(mask)) == mask
  {
    hide And, Glue2, Part0, Part1, Bits, FromBits;
    var hi, lo := Byte1(mask), Byte0(mask);
    assert MaxOf(mask) / 256 == hi as nat && MaxOf(mask) % 256 == lo as nat;
    PartsOf(mask);
    PartsOfShort(mask);
    BitsByte(Part0(mask));
    BitsByte(Part1(mask));
  }

  /** Masks and maxima are the same numbers. */
  lemma MaskNumber(max: u16)
    ensures ToNat(MaskOf(max), 32) == max
  {
    hide ToNat, Bits, FromBits, Glue2, Part0, Part1, Part2, Part3;
    var lo, hi := (max % 256) as byte, (max / 256) as byte;
    assert max == U16(hi, lo);
    ByteBits(lo);
    ByteBits(hi);
    ByteBits(0);
    BitsOfZero();
    GluedShort(Bits(lo), Bits(hi));
    NumberOfBytes(MaskOf(max));
  }

  lemma GluedShort(a: word, b: word)
    requires a <= 0xff && b <= 0xff
    ensures Part0(Glue2(a, b)) == a && Part1(Glue2(a, b)) == b && Part2(Glue2(a, b)) == 0 && Part3(Glue2(a, b)) == 0
  {
  }

  lemma MaxNumber(mask: word)
    ensures MaxOf(mask) == ToNat(mask, 16)
  {
    NumberOfBytes(mask);
  }

  /** A layout has a format's numbers, the size in bytes instead of bits. */
  ghost predicate HasNumbers(l: Layout, f: Format) {
    && l.bpp == f.bpp / 8
    && ToNat(l.rmask, 32) == f.rmax && ToNat(l.gmask, 32) == f.gmax && ToNat(l.bmask, 32) == f.bmax
    && l.rshift == f.rshift && l.gshift == f.gshift && l.bshift == f.bshift
  }

  lemma LayoutNumbers(f: Format)
    ensures HasNumbers(LayoutOf(f.(bpp := f.bpp / 8)), f)
  {
    hide MaskOf, ToNat;
    MaskNumber(f.rmax);
    MaskNumber(f.gmax);
    MaskNumber(f.bmax);
  }

  class Framebuffer {
    const hostBigEndian: bool
    var width: nat
    var height: nat
    var bpp: nat
    var rmask: word
    var gmask: word
    var bmask: word
    var rshift: nat
    var gshift: nat
    var bshift: nat
    var rnorm: nat
    var gnorm: nat
    var bnorm: nat
    var pixels: array<byte>

    ghost predicate Valid()
      reads this
    {
      && Supported(bpp)
      && width <= MAX_DIMENSION && height <= MAX_DIMENSION
      && pixels.Length == Size(bpp, width * height)
      && rnorm == NormFromMask(rmask) && gnorm == NormFromMask(gmask) && bnorm == NormFromMask(bmask)
    }

    ghost function Shape(): Layout
      reads this
    {
      Layout(bpp, rmask, gmask, bmask, rshift, gshift, bshift)
    }

    /** The image the host reads out of the pixel memory. */
    ghost function View(): Image
      requires Valid()
      reads this, pixels
    {
      Image(width, height, Shape(), WordsOf(pixels[..], bpp, hostBigEndian, width * height))
    }

    constructor Blank(width: nat, height: nat, bpp: nat, hostBigEndian: bool)
      requires Supported(bpp) && width <= MAX_DIMENSION && height <= MAX_DIMENSION
      ensures Valid() && fresh(pixels) && this.hostBigEndian == hostBigEndian
      ensures this.width == width && this.height == height && Shape() == BuiltIn(bpp)
      ensures forall i | 0 <= i < pixels.Length :: pixels[i] == 0
    {
      hide NormFromMask;
      this.hostBigEndian := hostBigEndian;
      this.width, this.height, this.bpp := width, height, bpp;
      var l := BuiltIn(bpp);
      var r := ComputeNorm(l.rmask);
      var g := ComputeNorm(l.gmask);
      var b := ComputeNorm(l.bmask);
      rmask, gmask, bmask := l.rmask, l.gmask, l.bmask;
      rshift, gshift, bshift := l.rshift, l.gshift, l.bshift;
      pixels := new byte[Size(bpp, width * height)](_ => 0);
      rnorm, gnorm, bnorm := r, g, b;
    }

    /** A zeroed framebuffer in the built-in layout of its pixel size; null when it is refused. */
    static method Create(width: nat, height: nat, bpp: nat, hostBigEndian: bool, memory: bool)
      returns (fb: Framebuffer?)
      ensures fb != null <==> width <= 0xffff && height <= 0xffff && (bpp == 1 || bpp == 2 || bpp == 4) && memory
      ensures fb != null ==> fresh(fb) && fresh(fb.pixels) && fb.Valid() && fb.hostBigEndian == hostBigEndian
      ensures fb != null ==> fb.width == width && fb.height == height && fb.Shape() == BuiltIn(bpp)
      ensures fb != null && bpp == 1 ==> fb.Shape() == Layout(1, 0x07, 0x07, 0x03, 0, 3, 6)
      ensures fb != null && bpp == 2 ==> fb.Shape() == Layout(2, 0x1f, 0x3f, 0x1f, 11, 5, 0)
      ensures fb != null && bpp == 4 ==> fb.Shape() == Layout(4, 0xff, 0xff, 0xff, 16, 8, 0)
      ensures fb != null ==> forall i | 0 <= i < fb.pixels.Length :: fb.pixels[i] == 0
    {
      if width > MAX_DIMENSION || height > MAX_DIMENSION {
        return null;
      }
      if (bpp != 1 && bpp != 2 && bpp != 4) || !memory {
        return null;
      }
      fb := new Framebuffer.Blank(width, height, bpp, hostBigEndian);
    }

    /** The colour of one pixel. */
    method GetPixel(x: nat, y: nat) returns (col: word)
      requires Valid() && x < width && y < height
      ensures y * width + x < |View().words|
      ensures col == Unpack(Shape(), View().words[y * width + x])
    {
      hide Loaded, And, Shl, Shr, Rgb, NormFromMask, WordsOf, Size;
      IndexBound(width, height, x, y);
      var i := y * width + x;
      SizeGrows(bpp, i, width * height);
      WordAt(pixels[..], bpp, hostBigEndian, width * height, i);
      assert pixels[..][Size(bpp, i)..Size(bpp, i + 1)] == pixels[Size(bpp, i)..Size(bpp, i + 1)];
      var c := Loaded(pixels[Size(bpp, i)..Size(bpp, i + 1)], hostBigEndian);
      col := Rgb(
        Shl(Channel(c, rmask, rshift), rnorm),
        Shl(Channel(c, gmask, gshift), gnorm),
        Shl(Channel(c, bmask, bshift), bnorm));
    }

    /** Store one pixel; every other pixel keeps its value. */
    method SetPixel(x: nat, y: nat, col: word)
      requires Valid() && x < width && y < height
      modifies pixels
      ensures Valid() && y * width + x < |old(View().words)|
      ensures View() == old(View()).(words := old(View().words)[y * width + x := Pack(Shape(), col)])
    {
      hide And, Or, Limit, Shl, Shr, NormFromMask;
      IndexBound(width, height, x, y);
      var i := y * width + x;
      var c := And(Or(Or(Shl(And(Shr(Red(col), rnorm), rmask), rshift),
        Shl(And(Shr(Green(col), gnorm), gmask), gshift)),
                      Shl(And(Shr(Blue(col), bnorm), bmask), bshift)),
                   Limit(bpp));
      assert c == Pack(Shape(), col);
      PackFits(Shape(), col);
      StoreWord(i, c);
    }

    /** The typed store of one pixel word. */
    method StoreWord(i: nat, c: word)
      requires Valid() && i < width * height && And(c, Limit(bpp)) == c
      modifies pixels
      ensures Valid() && View() == old(View()).(words := old(View().words)[i := c])
    {
      hide Stored, Loaded, And, Limit, Size;
      ghost var data := pixels[..];
      SizeGrows(bpp, i, width * height);
      var s := Stored(c, bpp, hostBigEndian);
      Spliced(data, Size(bpp, i), s);
      PutBytes(Size(bpp, i), s);
      StoreCell(data, pixels[..], bpp, hostBigEndian, width * height, i, c);
    }

    method PutBytes(at: nat, s: seq<byte>)
      requires at + |s| <= pixels.Length
      modifies pixels
      ensures pixels[..] == old(pixels[..])[..at] + s + old(pixels[..])[at + |s|..]
    {
      forall k | at <= k < at + |s| {
        pixels[k] := s[k - at];
      }
    }

    /**
     * Make this framebuffer show what `src` shows, in this framebuffer's own layout. What the
     * pixel memory held before does not matter.
     */
    method Convert(src: Framebuffer, memory: bool) returns (ok: bool)
      requires Valid() && src.Valid() && src != this && src.pixels != pixels
      requires src.hostBigEndian == hostBigEndian && !Wraps(src, memory)
      modifies this, pixels
      ensures Valid() && Shape() == old(Shape()) && (pixels == old(pixels) || fresh(pixels))
      ensures ok <==> src.width > 0 && src.height > 0 && old(width) > 0 && old(height) > 0 &&
                      (memory || (old(width) == src.width && old(height) == src.height))
      ensures ok ==> View() == Converted(src.View(), Shape())
    {
      if src.width == 0 || src.height == 0 || width == 0 || height == 0 {
        return false;
      }
      hide WordsOf, Repacked, NormFromMask, Size, SameLayout, View, Shape;
      if width != src.width || height != src.height {
        if !memory {
          return false;
        }
        Reallocate(src.width, src.height);
      }
      ok := true;
      if SameLayout(src) {
        CopyPixels(src);
      } else {
        Repaint(src);
      }
    }

    /** The conversion would go on with a count of bytes that has wrapped round. */
    predicate Wraps(src: Framebuffer, memory: bool)
      requires Supported(bpp)
      reads this, src
    {
      && src.width > 0 && src.height > 0 && width > 0 && height > 0
      && (memory || (width == src.width && height == src.height))
      && !Countable(bpp, src.width, src.height)
    }

    /** The test for the fast path: all but the norms, which the masks determine. */
    predicate SameLayout(src: Framebuffer)
      reads this, src
      ensures SameLayout(src) <==> Shape() == src.Shape()
    {
      && bpp == src.bpp
      && rmask == src.rmask && gmask == src.gmask && bmask == src.bmask
      && rshift == src.rshift && gshift == src.gshift && bshift == src.bshift
    }

    /** New memory for another size, with whatever it contains. */
    method Reallocate(newWidth: nat, newHeight: nat)
      requires Valid() && newWidth <= MAX_DIMENSION && newHeight <= MAX_DIMENSION && Countable(bpp, newWidth, newHeight)
      modifies this
      ensures Valid() && fresh(pixels) && Shape() == old(Shape())
      ensures width == newWidth && height == newHeight
    {
      AllocationExact(bpp, newWidth, newHeight);
      pixels := new byte[ByteCount(bpp, newWidth, newHeight)];
      width, height := newWidth, newHeight;
    }

    /** The fast path: one block copy. */
    method CopyPixels(src: Framebuffer)
      requires Valid() && src.Valid() && src != this && src.pixels != pixels
      requires src.hostBigEndian == hostBigEndian
      requires bpp == src.bpp && width == src.width && height == src.height && Countable(bpp, width, height)
      modifies pixels
      ensures Valid() && View() == Image(width, height, Shape(), src.View().words)
    {
      AllocationExact(bpp, width, height);
      forall k | 0 <= k < ByteCount(bpp, src.width, src.height) {
        pixels[k] := src.pixels[k];
      }
      assert pixels[..] == src.pixels[..];
    }

    /** The slow path: pixel by pixel. */
    method Repaint(src: Framebuffer)
      requires Valid() && src.Valid() && src != this && src.pixels != pixels
      requires src.hostBigEndian == hostBigEndian
      requires width == src.width && height == src.height
      modifies pixels
      ensures Valid()
      ensures View() == Image(width, height, Shape(), Repacked(src.Shape(), Shape(), src.View().words))
    {
      hide Pack, Unpack, WordsOf, NormFromMask;
      ghost var target := Repacked(src.Shape(), Shape(), src.View().words);
      ghost var n := 0;
      var y := 0;
      while y < src.height
        invariant 0 <= y <= height && n == y * width <= |target|
        invariant Valid() && View().words[..n] == target[..n]
      {
        var x := 0;
        RowBound(width, height, y);
        while x < src.width
          invariant 0 <= x <= width && n == y * width + x <= |target|
          invariant Valid() && View().words[..n] == target[..n]
        {
          IndexBound(width, height, x, y);
          ghost var before := View().words;
          var col := src.GetPixel(x, y);
          SetPixel(x, y, col);
          OneMoreWord(before, View().words, target, n);
          x, n := x + 1, n + 1;
        }
        y := y + 1;
      }
      assert View().words == View().words[..n] && target == target[..n];
    }

    lemma OneMoreWord(before: seq<word>, after: seq<word>, target: seq<word>, n: nat)
      requires n < |before| == |target| && before[..n] == target[..n] && after == before[n := target[n]]
      ensures after[..n + 1] == target[..n + 1]
    {
      assert after[..n + 1] == before[..n] + [target[n]];
    }

    /** Swap the bytes of every pixel in place unless the host already has the wanted order. */
    method Endian(bigEndian: bool)
      requires Valid() && Countable(bpp, width, height)
      modifies pixels
      ensures Valid() && pixels[..] == BytesOf(old(View()).words, bpp, bigEndian)
    {
      hide Loaded, BytesOf;
      ghost var data := pixels[..];
      ghost var ws := View().words;
      var n := width * height;
      BytesOfWords(data, bpp, hostBigEndian, n);
      if bpp == 1 {
        SameBytes(ws, bigEndian, hostBigEndian);
        return;
      }
      if hostBigEndian == bigEndian {
        return;
      }
      AllocationExact(bpp, width, height);
      if bpp == 2 {
        Swap2(ByteCount(2, width, height), n);
      } else {
        Swap4(ByteCount(4, width, height), n);
      }
      SwappedCells(data, pixels[..], bpp, hostBigEndian, n);
    }

    method Swap2(len: nat, ghost n: nat)
      requires pixels.Length == len == 2 * n
      modifies pixels
      ensures Reversed(old(pixels[..]), pixels[..], 2, n)
    {
      hide Reversed;
      ghost var data := pixels[..];
      ghost var j := 0;
      var i := 0;
      NoneReversed(data, 2);
      while i < len
        invariant 0 <= j <= n && i == 2 * j
        invariant pixels[..][i..] == data[i..] && Reversed(data, pixels[..], 2, j)
      {
        ghost var before := pixels[..];
        Flip2(i);
        FlippedStep(data, before, pixels[..], 2, j);
        i, j := i + 2, j + 1;
      }
    }

    method Flip2(i: nat)
      requires i + 2 <= pixels.Length
      modifies pixels
      ensures Flipped(old(pixels[..]), pixels[..], i, 2)
    {
      pixels[i], pixels[i + 1] := pixels[i + 1], pixels[i];
    }

    method Swap4(len: nat, ghost n: nat)
      requires pixels.Length == len == 4 * n
      modifies pixels
      ensures Reversed(old(pixels[..]), pixels[..], 4, n)
    {
      hide Reversed;
      ghost var data := pixels[..];
      ghost var j := 0;
      var i := 0;
      NoneReversed(data, 4);
      while i < len
        invariant 0 <= j <= n && i == 4 * j
        invariant pixels[..][i..] == data[i..] && Reversed(data, pixels[..], 4, j)
      {
        ghost var before := pixels[..];
        Flip4(i);
        FlippedStep(data, before, pixels[..], 4, j);
        i, j := i + 4, j + 1;
      }
    }

    method Flip4(i: nat)
      requires i + 4 <= pixels.Length
      modifies pixels
      ensures Flipped(old(pixels[..]), pixels[..], i, 4)
    {
      pixels[i], pixels[i + 3] := pixels[i + 3], pixels[i];
      pixels[i + 1], pixels[i + 2] := pixels[i + 2], pixels[i + 1];
    }

    /** Change the size, keeping what both sizes show. */
    method Resize(newWidth: nat, newHeight: nat, memory: bool) returns (ok: bool)
      requires Valid()
      modifies this
      ensures Valid() && Shape() == old(Shape()) && (pixels == old(pixels) || fresh(pixels))
      ensures ok <==> 0 < newWidth <= MAX_DIMENSION && 0 < newHeight <= MAX_DIMENSION && memory
      ensures ok ==> View() == Resized(old(View()), newWidth, newHeight)
      ensures !ok ==> View() == old(View())
    {
      if newWidth == 0 || newHeight == 0 || newWidth > MAX_DIMENSION || newHeight > MAX_DIMENSION || !memory {
        return false;
      }
      hide WordsOf, Size, RowsKept;
      ghost var img := View();
      var h := if newHeight < height then newHeight else height;
      var np := new byte[Size(bpp, newWidth * newHeight)](_ => 0);
      NoRows(np[..], newWidth, newHeight, img);
      var y := 0;
      while y < h
        invariant 0 <= y <= h
        invariant WordsOf(np[..], bpp, hostBigEndian, newWidth * newHeight) == RowsKept(img, newWidth, newHeight, y)
        modifies np
      {
        CopyRow(np, newWidth, newHeight, y);
        y := y + 1;
      }
      AllRowsKept(img, newWidth, newHeight, h);
      pixels := np;
      width, height := newWidth, newHeight;
      ok := true;
    }

    lemma NoRows(data: seq<byte>, newWidth: nat, newHeight: nat, img: Image)
      requires Valid() && newWidth > 0 && Rectangular(img)
      requires |data| == Size(bpp, newWidth * newHeight)
      requires forall k | 0 <= k < |data| :: data[k] == 0
      ensures WordsOf(data, bpp, hostBigEndian, newWidth * newHeight) == RowsKept(img, newWidth, newHeight, 0)
    {
      hide WordsOf, ResizedWord, Bits, NormFromMask, Supported;
      var n := newWidth * newHeight;
      ZeroWords(data, bpp, hostBigEndian, n);
      assert forall i | 0 <= i < n :: RowsKept(img, newWidth, newHeight, 0)[i] == 0;
    }

    /** One block copy of the part of row `y` that both sizes have. */
    method CopyRow(np: array<byte>, newWidth: nat, newHeight: nat, y: nat)
      requires Valid() && np != pixels && np.Length == Size(bpp, newWidth * newHeight)
      requires newWidth > 0 && y < newHeight && y < height
      requires WordsOf(np[..], bpp, hostBigEndian, newWidth * newHeight) == RowsKept(View(), newWidth, newHeight, y)
      modifies np
      ensures WordsOf(np[..], bpp, hostBigEndian, newWidth * newHeight) == RowsKept(View(), newWidth, newHeight, y + 1)
    {
      hide WordsOf, RowsKept, NormFromMask, ResizedWord, Moved, Size, View;
      var w := if newWidth < width then newWidth else width;
      RowRoom(newWidth, newHeight, y, w);
      RowRoom(width, height, y, w);
      CopyCells(np, y * newWidth, y * width, w, newWidth * newHeight);
      RowCopied(newWidth, newHeight, y, WordsOf(np[..], bpp, hostBigEndian, newWidth * newHeight));
    }

    /** The copied run of words is row `y` of the resized image. */
    lemma RowCopied(newWidth: nat, newHeight: nat, y: nat, ws: seq<word>)
      requires Valid() && newWidth > 0 && y < newHeight && y < height
      requires |ws| == newWidth * newHeight
      requires var w := if newWidth < width then newWidth else width;
               Moved(ws, RowsKept(View(), newWidth, newHeight, y), View().words, y * newWidth, y * width, w)
      ensures ws == RowsKept(View(), newWidth, newHeight, y + 1)
    {
      hide WordsOf, RowsKept, NormFromMask;
      RowStep(View(), newWidth, newHeight, y, ws);
    }

    /** memcpy of `count` pixels from cell `b` of this framebuffer to cell `a` of `np`. */
    method CopyCells(np: array<byte>, a: nat, b: nat, count: nat, ghost n: nat)
      requires Valid() && np != pixels && np.Length == Size(bpp, n)
      requires a + count <= n && b + count <= width * height
      modifies np
      ensures Moved(WordsOf(np[..], bpp, hostBigEndian, n), WordsOf(old(np[..]), bpp, hostBigEndian, n),
                    View().words, a, b, count)
    {
      hide WordsOf, NormFromMask, Moved;
      var to, from, len := Size(bpp, a), Size(bpp, b), Size(bpp, count);
      ghost var data := np[..];
      forall k | 0 <= k < len {
        np[to + k] := pixels[from + k];
      }
      CopiedCells(data, np[..], pixels[..], bpp, hostBigEndian, n, width * height, a, b, count);
    }

    /** The object that shows a given image: a framebuffer as its lock's next owner finds it. */
    constructor Showing(img: Image, hostBigEndian: bool)
      requires ValidImage(img)
      ensures fresh(pixels) && Valid() && this.hostBigEndian == hostBigEndian && View() == img
    {
      hide NormFromMask, Limit, And, BytesOf, WordsOf;
      var l := img.layout;
      var r := ComputeNorm(l.rmask);
      var g := ComputeNorm(l.gmask);
      var b := ComputeNorm(l.bmask);
      this.hostBigEndian := hostBigEndian;
      width, height, bpp := img.width, img.height, l.bpp;
      rmask, gmask, bmask := l.rmask, l.gmask, l.bmask;
      rshift, gshift, bshift := l.rshift, l.gshift, l.bshift;
      rnorm, gnorm, bnorm := r, g, b;
      var data := BytesOf(img.words, l.bpp, hostBigEndian);
      pixels := new byte[|data|](k requires 0 <= k < |data| => data[k]);
      new;
      assert pixels[..] == data;
      WordsOfBytes(img.words, l.bpp, hostBigEndian);
    }

    constructor Clone(src: Framebuffer)
      requires src.Valid() && Countable(src.bpp, src.width, src.height)
      ensures fresh(pixels) && Valid() && hostBigEndian == src.hostBigEndian && View() == src.View()
    {
      hostBigEndian := src.hostBigEndian;
      width, height, bpp := src.width, src.height, src.bpp;
      rmask, gmask, bmask := src.rmask, src.gmask, src.bmask;
      rshift, gshift, bshift := src.rshift, src.gshift, src.bshift;
      rnorm, gnorm, bnorm := src.rnorm, src.gnorm, src.bnorm;
      AllocationExact(src.bpp, src.width, src.height);
      var len := ByteCount(src.bpp, src.width, src.height);
      pixels := new byte[len](k requires 0 <= k < len == src.pixels.Length reads src, src.pixels => src.pixels[k]);
      new;
      assert pixels[..] == src.pixels[..];
    }

    method Copy(memory: bool) returns (c: Framebuffer?)
      requires Valid() && (memory ==> Countable(bpp, width, height))
      ensures c != null <==> memory
      ensures c != null ==> fresh(c) && fresh(c.pixels) && c.Valid()
      ensures c != null ==> c.hostBigEndian == hostBigEndian && c.View() == View()
    {
      if !memory {
        return null;
      }
      c := new Framebuffer.Clone(this);
    }

    /** A framebuffer in the layout a client asked for. The format's `bpp` becomes bytes in place. */
    static method CreateOfFormat(width: nat, height: nat, fmt: Format, hostBigEndian: bool, memory: bool)
      returns (fb: Framebuffer?, fmt': Format)
      ensures fmt' == fmt.(bpp := fmt.bpp / 8)
      ensures fb != null <==> width <= MAX_DIMENSION && height <= MAX_DIMENSION && Supported(fmt'.bpp) && memory
      ensures fb != null ==> fresh(fb) && fresh(fb.pixels) && fb.Valid() && fb.hostBigEndian == hostBigEndian
      ensures fb != null ==> fb.width == width && fb.height == height && fb.Shape() == LayoutOf(fmt')
      ensures fb != null ==> fb.bpp == fmt.bpp / 8
      ensures fb != null ==> ToNat(fb.rmask, 32) == fmt.rmax && fb.rshift == fmt.rshift
      ensures fb != null ==> ToNat(fb.gmask, 32) == fmt.gmax && fb.gshift == fmt.gshift
      ensures fb != null ==> ToNat(fb.bmask, 32) == fmt.bmax && fb.bshift == fmt.bshift
    {
      hide MaskOf, NormFromMask, ToNat;
      LayoutNumbers(fmt);
      fmt' := fmt.(bpp := fmt.bpp / 8);
      if fmt'.bpp != 1 && fmt'.bpp != 2 && fmt'.bpp != 4 {
        return null, fmt';
      }
      fb := Create(width, height, fmt'.bpp, hostBigEndian, memory);
      if fb != null {
        fb.Relayout(LayoutOf(fmt'));
      }
    }

    method Relayout(l: Layout)
      requires Valid() && l.bpp == bpp
      modifies this
      ensures Valid() && Shape() == l && pixels == old(pixels) && width == old(width) && height == old(height)
    {
      hide NormFromMask, Size;
      var r := ComputeNorm(l.rmask);
      var g := ComputeNorm(l.gmask);
      var b := ComputeNorm(l.bmask);
      rmask, gmask, bmask := l.rmask, l.gmask, l.bmask;
      rshift, gshift, bshift := l.rshift, l.gshift, l.bshift;
      rnorm, gnorm, bnorm := r, g, b;
    }

    /** The format that describes this framebuffer. */
    method Describe() returns (f: Format)
      requires Valid() && rshift < 256 && gshift < 256 && bshift < 256
      ensures f.bpp == 8 * bpp && (f.bigEndian != 0 <==> hostBigEndian)
      ensures f.trueColour == 0 <==> bpp == 1 && rmask == 0
      ensures f.depth == if bpp == 1 then 8 else if bpp == 2 then 16 else 24
      ensures f.rmax == ToNat(rmask, 16) && f.gmax == ToNat(gmask, 16) && f.bmax == ToNat(bmask, 16)
      ensures f.rshift == rshift && f.gshift == gshift && f.bshift == bshift
      ensures And(rmask, 0xffff) == rmask && And(gmask, 0xffff) == gmask && And(bmask, 0xffff) == bmask ==>
                LayoutOf(f.(bpp := f.bpp / 8)) == Shape()
    {
      hide MaskOf, MaxOf, NormFromMask, And, ToNat;
      MaxNumber(rmask);
      MaxNumber(gmask);
      MaxNumber(bmask);
      f := Format(
        8 * bpp,
        if bpp == 1 then 8 else if bpp == 2 then 16 else 24,
        if hostBigEndian then 1 else 0,
        if bpp == 1 && rmask == 0 then 0 else 1,
        MaxOf(rmask), MaxOf(gmask), MaxOf(bmask), rshift, gshift, bshift);
      if And(rmask, 0xffff) == rmask && And(gmask, 0xffff) == gmask && And(bmask, 0xffff) == bmask {
        MaskOfMax(rmask);
        MaskOfMax(gmask);
        MaskOfMax(bmask);
      }
    }
  }
}
