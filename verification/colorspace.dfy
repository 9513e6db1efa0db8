/** The webcam library's colour space converter (libwebcam/colorspace.c). */
module Colorspaces {
  import opened Words
  import opened Pixels
  import opened PixelMemory

  /** The formats whose pixels are converted one by one; Jpeg has no converter. */
  datatype Colorspace = Rgb32 | Rgb24 | Bgr24 | Rgb555 | Rgb565 | Rgb332 | Bgr233 | Yuv | Gray | Jpeg

  type Convertible = c: Colorspace | c != Jpeg witness Rgb32

  function PixelSize(c: Convertible): (n: nat)
    ensures 1 <= n <= 4
  {
    match c
    case Rgb32 => 4
    case Rgb24 => 3
    case Bgr24 => 3
    case Rgb555 => 2
    case Rgb565 => 2
    case Rgb332 => 1
    case Bgr233 => 1
    case Yuv => 3
    case Gray => 1
  }

  // ---------------------------------------------------------------------------------------
  // One pixel
  // ---------------------------------------------------------------------------------------

  /** All three in C's unsigned 32-bit arithmetic. */
  function YuvToRgb(y: word, u: word, v: word): word {
    Rgb((y * 256 + v * 292) >> 8, (256 * y - 101 * u - 149 * v) >> 8, (256 * y + 520 * u) >> 8)
  }

  function Luma(r: word, g: word, b: word): word {
    (r * 76 + g * 150 + b * 30) >> 8
  }

  function ChromaU(r: word, g: word, b: word): word {
    (16384 + 112 * b - 38 * r - 74 * g) >> 8
  }

  function ChromaV(r: word, g: word, b: word): word {
    (16384 + 157 * r - 132 * g - 25 * b) >> 8
  }

  function LumaOf(c: word): word {
    Luma(Red(c), Green(c), Blue(c))
  }

  function ChromaUOf(c: word): word {
    ChromaU(Red(c), Green(c), Blue(c))
  }

  function ChromaVOf(c: word): word {
    ChromaV(Red(c), Green(c), Blue(c))
  }

  /** The source joins the three bytes with the logical or: any colour but black becomes 1. */
  function AnyOf(a: byte, b: byte, c: byte): word {
    if a != 0 || b != 0 || c != 0 then 1 else 0
  }

  function From555(p: word): word {
    Rgb((p >> 7) & 0xf8, (p >> 2) & 0xf8, (p << 3) & 0xf8)
  }

  function To555(col: word): word {
    ((col >> 9) & 0x7c00) | ((col >> 6) & 0x03e0) | ((col >> 3) & 0x1f)
  }

  /** Green is masked like red and blue, and loses the lowest of its six bits. */
  function From565(p: word): word {
    Rgb((p >> 8) & 0xf8, (p >> 3) & 0xf8, (p << 3) & 0xf8)
  }

  function To565(col: word): word {
    ((col >> 8) & 0xf800) | ((col >> 5) & 0x07e0) | ((col >> 3) & 0x1f)
  }

  function From332(p: word): word {
    Rgb(p & 0xe0, (p << 3) & 0xe0, (p << 6) & 0xc0)
  }

  function To332(col: word): word {
    ((col >> 16) & 0xe0) | ((col >> 11) & 0x1c) | ((col >> 6) & 0x03)
  }

  function From233(p: word): word {
    Rgb((p << 5) & 0xe0, (p << 2) & 0xe0, p & 0xc0)
  }

  function To233(col: word): word {
    ((col >> 21) & 0x07) | ((col >> 10) & 0x38) | (col & 0xc0)
  }

  /** A pixel's bytes as a colour. */
  function Decode(c: Convertible, s: seq<byte>, bigEndian: bool): word
    requires |s| == PixelSize(c)
  {
    match c
    case Rgb32 => Loaded(s, bigEndian)
    case Rgb24 => AnyOf(s[0], s[1], s[2])
    case Bgr24 => AnyOf(s[2], s[1], s[0])
    case Rgb555 => From555(Loaded(s, bigEndian))
    case Rgb565 => From565(Loaded(s, bigEndian))
    case Rgb332 => From332(Loaded(s, bigEndian))
    case Bgr233 => From233(Loaded(s, bigEndian))
    case Yuv => YuvToRgb(Bits(s[0]), Bits(s[1]), Bits(s[2]))
    case Gray => YuvToRgb(Bits(s[0]), 128, 128)
  }

  /** A colour as a pixel's bytes. */
  function Encode(c: Convertible, col: word, bigEndian: bool): (s: seq<byte>)
    ensures |s| == PixelSize(c)
  {
    match c
    case Rgb32 => Stored(col, 4, bigEndian)
    case Rgb24 => [Byte2(col), Byte1(col), Byte0(col)]
    case Bgr24 => [Byte0(col), Byte1(col), Byte2(col)]
    case Rgb555 => Stored(To555(col), 2, bigEndian)
    case Rgb565 => Stored(To565(col), 2, bigEndian)
    case Rgb332 => Stored(To332(col), 1, bigEndian)
    case Bgr233 => Stored(To233(col), 1, bigEndian)
    case Yuv => [Byte0(LumaOf(col)), Byte0(ChromaUOf(col)), Byte0(ChromaVOf(col))]
    case Gray => [Byte0(LumaOf(col))]
  }

  // ---------------------------------------------------------------------------------------
  // Whole images, in one go
  // ---------------------------------------------------------------------------------------

  /** Bytes taken by `n` pixels of `ps` bytes. */
  function Span(ps: nat, n: nat): nat
    requires 1 <= ps <= 4
  {
    if ps == 1 then n else if ps == 2 then 2 * n else if ps == 3 then 3 * n else 4 * n
  }

  lemma SpanGrows(ps: nat, i: nat, n: nat)
    requires 1 <= ps <= 4 && i < n
    ensures Span(ps, i + 1) == Span(ps, i) + ps <= Span(ps, n)
  {
  }

  lemma SpanAdds(ps: nat, i: nat, n: nat)
    requires 1 <= ps <= 4
    ensures Span(ps, i + n) == Span(ps, i) + Span(ps, n)
  {
  }

  function PixelAt(data: seq<byte>, ps: nat, i: nat): (s: seq<byte>)
    requires 1 <= ps <= 4 && Span(ps, i + 1) <= |data|
    ensures |s| == ps
  {
    data[Span(ps, i)..Span(ps, i + 1)]
  }

  function ToColours(c: Convertible, data: seq<byte>, n: nat, bigEndian: bool): (cols: seq<word>)
    requires Span(PixelSize(c), n) <= |data|
    ensures |cols| == n
  {
    seq(n, i requires 0 <= i < n => DecodeAt(c, data, n, i, bigEndian))
  }

  function DecodeAt(c: Convertible, data: seq<byte>, n: nat, i: nat, bigEndian: bool): word
    requires i < n && Span(PixelSize(c), n) <= |data|
  {
    SpanGrows(PixelSize(c), i, n);
    Decode(c, PixelAt(data, PixelSize(c), i), bigEndian)
  }

  function FromColours(c: Convertible, cols: seq<word>, bigEndian: bool): (data: seq<byte>)
    ensures |data| == Span(PixelSize(c), |cols|)
    decreases |cols|
  {
    if cols == [] then [] else FromColours(c, cols[..|cols| - 1], bigEndian) + Encode(c, cols[|cols| - 1], bigEndian)
  }

  /** The whole image decoded, then the whole image encoded. */
  function Recoloured(f: Convertible, t: Convertible, data: seq<byte>, n: nat, bigEndian: bool): (r: seq<byte>)
    requires Span(PixelSize(f), n) <= |data|
    ensures |r| == Span(PixelSize(t), n)
  {
    FromColours(t, ToColours(f, data, n, bigEndian), bigEndian)
  }

  lemma NothingConverted(f: Convertible, t: Convertible, data: seq<byte>, width: nat, bigEndian: bool)
    ensures Area(0, width) == 0 && Span(PixelSize(f), 0) == 0 && Span(PixelSize(t), 0) == 0
    ensures Recoloured(f, t, data, 0, bigEndian) == []
  {
  }

  /** One more line. */
  lemma LineConverted(f: Convertible, t: Convertible, a: seq<byte>, n: nat, line: seq<byte>, width: nat,
    bigEndian: bool)
    requires |a| == Span(PixelSize(f), n) && |line| == Span(PixelSize(f), width)
    ensures Span(PixelSize(f), n + width) == |a + line|
    ensures Recoloured(f, t, a + line, n + width, bigEndian) ==
            Recoloured(f, t, a, n, bigEndian) + FromColours(t, ToColours(f, line, width, bigEndian), bigEndian)
  {
    hide PixelSize, Span, FromColours, ToColours;
    ToColoursConcat(f, a, n, line, width, bigEndian);
    FromColoursConcat(t, ToColours(f, a, n, bigEndian), ToColours(f, line, width, bigEndian), bigEndian);
  }

  function Area(height: nat, width: nat): nat {
    height * width
  }

  lemma NextLine(ps: nat, width: nat, height: nat, i: nat)
    requires 1 <= ps <= 4 && i < height
    ensures Area(i + 1, width) == Area(i, width) + width
    ensures Span(ps, Area(i, width)) + Span(ps, width) == Span(ps, Area(i + 1, width)) <= Span(ps, Area(height, width))
  {
    assert (i + 1) * width == i * width + width;
    assert (i + 1) * width <= height * width;
    SpanAdds(ps, i * width, width);
  }

  /** Bytes after the image do not matter. */
  lemma PrefixConverted(f: Convertible, t: Convertible, data: seq<byte>, n: nat, bigEndian: bool)
    requires Span(PixelSize(f), n) <= |data|
    ensures Recoloured(f, t, data[..Span(PixelSize(f), n)], n, bigEndian) == Recoloured(f, t, data, n, bigEndian)
  {
    hide Decode, Span, PixelSize, FromColours;
    var ps := PixelSize(f);
    var front := data[..Span(ps, n)];
    forall i | 0 <= i < n
      ensures ToColours(f, front, n, bigEndian)[i] == ToColours(f, data, n, bigEndian)[i]
    {
      SpanGrows(ps, i, n);
      assert PixelAt(front, ps, i) == PixelAt(data, ps, i);
    }
    assert ToColours(f, front, n, bigEndian) == ToColours(f, data, n, bigEndian);
  }

  /** Images can be encoded in parts. */
  lemma {:induction false} FromColoursConcat(c: Convertible, a: seq<word>, b: seq<word>, bigEndian: bool)
    ensures FromColours(c, a + b, bigEndian) == FromColours(c, a, bigEndian) + FromColours(c, b, bigEndian)
    decreases |b|
  {
    hide FromColours, Encode;
    if b == [] {
      NoColours(c, bigEndian);
      assert a + b == a;
    } else {
      var init, last := b[..|b| - 1], b[|b| - 1];
      assert (a + b)[..|a + b| - 1] == a + init && (a + b)[|a + b| - 1] == last;
      OneColour(c, a + b, bigEndian);
      OneColour(c, b, bigEndian);
      FromColoursConcat(c, a, init, bigEndian);
    }
  }

  /** Images can be decoded in parts. */
  lemma ToColoursConcat(c: Convertible, a: seq<byte>, n: nat, b: seq<byte>, m: nat, bigEndian: bool)
    requires |a| == Span(PixelSize(c), n) && |b| == Span(PixelSize(c), m)
    ensures Span(PixelSize(c), n + m) == |a + b|
    ensures ToColours(c, a + b, n + m, bigEndian) == ToColours(c, a, n, bigEndian) + ToColours(c, b, m, bigEndian)
  {
    hide Decode, PixelSize, Span;
    var ps := PixelSize(c);
    SpanAdds(ps, n, m);
    forall i | 0 <= i < n + m
      ensures ToColours(c, a + b, n + m, bigEndian)[i]
              == (ToColours(c, a, n, bigEndian) + ToColours(c, b, m, bigEndian))[i]
    {
      SpanGrows(ps, i, n + m);
      SliceOfConcat(a, b, Span(ps, i), Span(ps, i + 1));
      if i < n {
        SpanGrows(ps, i, n);
        assert PixelAt(a + b, ps, i) == PixelAt(a, ps, i);
      } else {
        SpanGrows(ps, i - n, m);
        SpanAdds(ps, n, i - n);
        assert PixelAt(a + b, ps, i) == PixelAt(b, ps, i - n);
      }
    }
  }

  // ---------------------------------------------------------------------------------------
  // Line by line
  // ---------------------------------------------------------------------------------------

  /** Decode one line of `width` pixels; gives the bytes it took. */
  method ToRgb(c: Convertible, width: nat, from: array<byte>, off: nat, out: array<word>, bigEndian: bool)
    returns (l: nat)
    requires off + Span(PixelSize(c), width) <= from.Length && width <= out.Length && from as object != out
    modifies out
    ensures l == Span(PixelSize(c), width)
    ensures out[..width] == ToColours(c, from[off..off + l], width, bigEndian)
  {
    hide Decode, PixelSize, Span, ToColours;
    var ps := PixelSize(c);
    l := Span(ps, width);
    ghost var data := from[off..off + l];
    var i := 0;
    while i < width
      invariant 0 <= i <= width
      invariant forall k | 0 <= k < i :: out[k] == ToColours(c, data, width, bigEndian)[k]
    {
      SpanGrows(ps, i, width);
      var p := from[off + Span(ps, i)..off + Span(ps, i + 1)];
      assert p == PixelAt(data, ps, i);
      ColourOf(c, data, width, i, bigEndian);
      out[i] := Decode(c, p, bigEndian);
      i := i + 1;
    }
  }

  lemma ColourOf(c: Convertible, data: seq<byte>, n: nat, i: nat, bigEndian: bool)
    requires i < n && Span(PixelSize(c), i + 1) <= Span(PixelSize(c), n) <= |data|
    ensures ToColours(c, data, n, bigEndian)[i] == Decode(c, PixelAt(data, PixelSize(c), i), bigEndian)
  {
    hide Decode;
  }

  /** Encode one line of `width` pixels; gives the bytes it wrote. */
  method FromRgb(c: Convertible, width: nat, cols: array<word>, to: array<byte>, off: nat, bigEndian: bool)
    returns (l: nat)
    requires off + Span(PixelSize(c), width) <= to.Length && width <= cols.Length && cols as object != to
    modifies to
    ensures l == Span(PixelSize(c), width)
    ensures to[..] == old(to[..off]) + FromColours(c, cols[..width], bigEndian)
            + old(to[off + Span(PixelSize(c), width)..])
  {
    hide Encode, PixelSize, Span, FromColours;
    var ps := PixelSize(c);
    l := Span(ps, width);
    ghost var start := to[..];
    var i := 0;
    NoColours(c, bigEndian);
    assert to[..] == start[..off] + FromColours(c, cols[..0], bigEndian) + start[off..];
    while i < width
      invariant 0 <= i <= width && Span(ps, i) <= l
      invariant to[..] == start[..off] + FromColours(c, cols[..i], bigEndian) + start[off + Span(ps, i)..]
    {
      SpanGrows(ps, i, width);
      OneColour(c, cols[..i + 1], bigEndian);
      assert cols[..i + 1][..i] == cols[..i];
      ghost var done := start[..off] + FromColours(c, cols[..i], bigEndian);
      PutPixel(to, off + Span(ps, i), Encode(c, cols[i], bigEndian));
      Splice(to[..], done, start, off + Span(ps, i), Encode(c, cols[i], bigEndian));
      assert start[..off] + FromColours(c, cols[..i + 1], bigEndian) == done + Encode(c, cols[i], bigEndian);
      i := i + 1;
    }
  }

  lemma NoColours(c: Convertible, bigEndian: bool)
    ensures FromColours(c, [], bigEndian) == [] && Span(PixelSize(c), 0) == 0
  {
  }

  lemma OneColour(c: Convertible, cols: seq<word>, bigEndian: bool)
    requires cols != []
    ensures FromColours(c, cols, bigEndian) ==
            FromColours(c, cols[..|cols| - 1], bigEndian) + Encode(c, cols[|cols| - 1], bigEndian)
  {
  }

  /** Writing behind the part that is done extends that part. */
  lemma Splice(after: seq<byte>, done: seq<byte>, start: seq<byte>, at: nat, s: seq<byte>)
    requires |done| == at && at + |s| <= |start|
    requires var before := done + start[at..]; after == before[..at] + s + before[at + |s|..]
    ensures after == (done + s) + start[at + |s|..]
  {
    var before := done + start[at..];
    assert before[..at] == done && before[at + |s|..] == start[at + |s|..];
  }

  method PutPixel(to: array<byte>, at: nat, s: seq<byte>)
    requires at + |s| <= to.Length
    modifies to
    ensures to[..] == old(to[..at]) + s + old(to[at + |s|..])
  {
    forall k | at <= k < at + |s| {
      to[k] := s[k - at];
    }
  }

  /** One line, through the buffer. */
  method ConvertLine(
    width: nat, f: Convertible, from: array<byte>, lf: nat, t: Convertible, to: array<byte>, lt: nat,
    buffer: array<word>, ghost done: seq<byte>, ghost start: seq<byte>, bigEndian: bool)
    returns (df: nat, dt: nat, ghost next: seq<byte>)
    requires from != to && buffer as object != from && buffer as object != to && buffer.Length == width
    requires lf + Span(PixelSize(f), width) <= from.Length && lt + Span(PixelSize(t), width) <= to.Length
    requires |done| == lt <= |start| == to.Length && to[..] == done + start[lt..]
    modifies to, buffer
    ensures df == Span(PixelSize(f), width) && dt == Span(PixelSize(t), width) == |next|
    ensures next == FromColours(t, ToColours(f, from[..][lf..lf + df], width, bigEndian), bigEndian)
    ensures to[..] == (done + next) + start[lt + dt..]
  {
    hide PixelSize, Span, FromColours, ToColours;
    df := ToRgb(f, width, from, lf, buffer, bigEndian);
    next := FromColours(t, buffer[..width], bigEndian);
    dt := FromRgb(t, width, buffer, to, lt, bigEndian);
    Splice(to[..], done, start, lt, next);
    assert from[..][lf..lf + df] == from[lf..lf + df];
  }

  /** The loop over the lines, with one line's buffer and two running offsets. */
  method ConvertLines(width: nat, height: nat, f: Convertible, from: array<byte>, t: Convertible, to: array<byte>,
    bigEndian: bool)
    requires from != to
    requires Span(PixelSize(f), Area(height, width)) <= from.Length
             && Span(PixelSize(t), Area(height, width)) <= to.Length
    modifies to
    ensures to[..] == Recoloured(f, t, from[..], Area(height, width), bigEndian)
            + old(to[Span(PixelSize(t), Area(height, width))..])
  {
    hide PixelSize, Span, FromColours, ToColours, Area, Recoloured, Converted;
    var buffer := new word[width];
    ghost var lt, done := ConvertRows(width, height, f, from, t, to, buffer, bigEndian);
    AllConverted(f, t, from[..], done, Area(height, width), bigEndian);
    assert old(to[..])[lt..] == old(to[lt..]);
  }

  method ConvertRows(
    width: nat, height: nat, f: Convertible, from: array<byte>, t: Convertible, to: array<byte>, buffer: array<word>,
      bigEndian: bool)
    returns (ghost lt': nat, ghost done: seq<byte>)
    requires from != to && buffer as object != from && buffer as object != to && buffer.Length == width
    requires Span(PixelSize(f), Area(height, width)) <= from.Length
             && Span(PixelSize(t), Area(height, width)) <= to.Length
    modifies to, buffer
    ensures Converted(f, t, from[..], done, Area(height, width), bigEndian)
    ensures |done| == lt' <= to.Length && to[..] == done + old(to[..])[lt'..]
  {
    hide PixelSize, Span, FromColours, ToColours, Area, Recoloured, Converted;
    ghost var start := to[..];
    done := [];
    var lf, lt := 0, 0;
    var i := 0;
    StartsConverted(f, t, from[..], width, bigEndian);
    assert done + start[0..] == start;
    while i < height
      invariant 0 <= i <= height
      invariant lf == Span(PixelSize(f), Area(i, width)) <= from.Length && |done| == lt <= |start|
      invariant lt == Span(PixelSize(t), Area(i, width))
      invariant Converted(f, t, from[..], done, Area(i, width), bigEndian)
      invariant to[..] == done + start[lt..]
    {
      NextLine(PixelSize(f), width, height, i);
      NextLine(PixelSize(t), width, height, i);
      ghost var next;
      var df, dt;
      df, dt, next := ConvertLine(width, f, from, lf, t, to, lt, buffer, done, start, bigEndian);
      NextConverted(f, t, from[..], lf, df, done, next, Area(i, width), width, bigEndian);
      done := done + next;
      lf, lt := lf + df, lt + dt;
      i := i + 1;
    }
    lt' := lt;
  }

  /** The first `n` pixels have been converted to `done`. */
  ghost predicate Converted(f: Convertible, t: Convertible, data: seq<byte>, done: seq<byte>, n: nat, bigEndian: bool) {
    && Span(PixelSize(f), n) <= |data|
    && done == Recoloured(f, t, data[..Span(PixelSize(f), n)], n, bigEndian)
  }

  lemma StartsConverted(f: Convertible, t: Convertible, data: seq<byte>, width: nat, bigEndian: bool)
    ensures Area(0, width) == 0 && Span(PixelSize(f), 0) == 0 && Span(PixelSize(t), 0) == 0
    ensures Converted(f, t, data, [], 0, bigEndian)
  {
    NothingConverted(f, t, data[..0], width, bigEndian);
  }

  lemma AllConverted(f: Convertible, t: Convertible, data: seq<byte>, done: seq<byte>, n: nat, bigEndian: bool)
    requires Converted(f, t, data, done, n, bigEndian)
    ensures Span(PixelSize(f), n) <= |data| && |done| == Span(PixelSize(t), n)
    ensures done == Recoloured(f, t, data, n, bigEndian)
  {
    hide PixelSize, Span;
    PrefixConverted(f, t, data, n, bigEndian);
  }

  lemma NextConverted(
    f: Convertible, t: Convertible, data: seq<byte>, lf: nat, df: nat, done: seq<byte>, next: seq<byte>,
    n: nat, width: nat, bigEndian: bool)
    requires Converted(f, t, data, done, n, bigEndian) && lf == Span(PixelSize(f), n)
    requires df == Span(PixelSize(f), width) && lf + df <= |data|
    requires next == FromColours(t, ToColours(f, data[lf..lf + df], width, bigEndian), bigEndian)
    ensures Converted(f, t, data, done + next, n + width, bigEndian)
  {
    hide PixelSize, Span, FromColours, ToColours, Recoloured;
    assert data[..lf] + data[lf..lf + df] == data[..lf + df];
    LineConverted(f, t, data[..lf], n, data[lf..lf + df], width, bigEndian);
  }

  /** The low 32 bits of a number. */
  function Low32(n: nat): (r: nat)
    ensures n < WORDS ==> r == n
    ensures n >= WORDS ==> r < n
  {
    n % WORDS
  }

  const WORDS := 0x1_0000_0000

  /**
   * The size of an image as the `_sz` functions count it: in 32-bit unsigned arithmetic, where only
   * RGB32's factor of four is a 64-bit one.
   */
  function SizeOf(c: Convertible, width: nat, height: nat): (size: nat)
    ensures Countable(c, width, height) ==> size == Span(PixelSize(c), Area(height, width))
  {
    var n := Area(height, width);
    if c == Rgb32 then Span(4, Low32(n)) else Low32(Span(PixelSize(c), n))
  }

  predicate Countable(c: Convertible, width: nat, height: nat) {
    if c == Rgb32 then Area(height, width) < WORDS else Span(PixelSize(c), Area(height, width)) < WORDS
  }

  /** The counted size has room for the image exactly if the count does not wrap round. */
  lemma SizeExact(c: Convertible, width: nat, height: nat)
    ensures SizeOf(c, width, height) >= Span(PixelSize(c), Area(height, width)) <==> Countable(c, width, height)
  {
    hide Low32, Area;
  }

  /** 65536 by 65536 pixels are counted as none; 2^30 pixels of RGB32, and 2^32 - 1 of GRAY, are counted right. */
  lemma SizeCounterexample()
    ensures SizeOf(Gray, 65536, 65536) == 0 && SizeOf(Rgb24, 65536, 65536) == 0 && SizeOf(Rgb32, 65536, 65536) == 0
    ensures SizeOf(Rgb32, 32768, 32768) == 0x1_0000_0000 && SizeOf(Gray, 65535, 65537) == 0xffff_ffff
  {
  }

  predicate HoldsImage(c: Convertible, data: seq<byte>, width: nat, height: nat) {
    Span(PixelSize(c), Area(height, width)) <= |data|
  }

  /** The conversion gets as far as writing pixels. */
  predicate Converts(
    width: nat, height: nat, f: Colorspace, fromSize: nat, t: Colorspace, toSize: nat, target: bool, memory: bool)
  {
    && f != Jpeg && t != Jpeg && SizeOf(f, width, height) <= fromSize
    && target && SizeOf(t, width, height) <= toSize && memory
  }

  /**
   * The conversion of a whole image. `to` is null when only the size is asked for; `memory` is
   * false when no line buffer can be had.
   */
  method ConvertImage(
    width: nat, height: nat, f: Colorspace, from: array<byte>, fromSize: nat,
    t: Colorspace, to: array?<byte>, toSize: nat, bigEndian: bool, memory: bool)
    returns (rc: int, toSize': nat)
    requires fromSize <= from.Length && to != from && (to != null ==> toSize <= to.Length)
    requires Converts(width, height, f, fromSize, t, toSize, to != null, memory) ==>
               Countable(f, width, height) && Countable(t, width, height)
    modifies to
    ensures f == Jpeg || t == Jpeg || SizeOf(f, width, height) > fromSize ==> rc == -1 && toSize' == toSize
    ensures f != Jpeg && t != Jpeg && SizeOf(f, width, height) <= fromSize ==>
              && toSize' == SizeOf(t, width, height)
              && rc == (if to == null then 0 else if toSize < toSize' then 1 else if memory then 0 else -1)
              && (to != null && rc == 0 ==>
                    HoldsImage(f, from[..], width, height)
                    && to[..] == Recoloured(f, t, from[..], Area(height, width), bigEndian) + old(to[toSize'..]))
    ensures to != null && rc != 0 ==> to[..] == old(to[..])
  {
    hide Recoloured, PixelSize, Span, SizeOf, Countable;
    if f == Jpeg || t == Jpeg {
      return -1, toSize;
    }
    if SizeOf(f, width, height) > fromSize {
      return -1, toSize;
    }
    toSize' := SizeOf(t, width, height);
    if to == null {
      return 0, toSize';
    }
    if toSize < toSize' {
      return 1, toSize';
    }
    if !memory {
      return -1, toSize';
    }
    ConvertLines(width, height, f, from, t, to, bigEndian);
    rc := 0;
  }
}
