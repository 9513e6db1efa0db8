/** Pixel memory: rows of one-, two- or four-byte words in either byte order. */
module PixelMemory {
  import opened Words
  import opened Pixels

  // ---------------------------------------------------------------------------------------
  // One word
  // ---------------------------------------------------------------------------------------

  function Glue2(a: word, b: word): word {
    a | (b << 8)
  }

  function Glue4(a: word, b: word, c: word, d: word): word {
    a | (b << 8) | (c << 16) | (d << 24)
  }

  function Part0(w: word): word { w & 0xff }
  function Part1(w: word): word { (w >> 8) & 0xff }
  function Part2(w: word): word { (w >> 16) & 0xff }
  function Part3(w: word): word { (w >> 24) & 0xff }

  function Join2(lo: byte, hi: byte): word {
    Glue2(Bits(lo), Bits(hi))
  }

  function Join4(a: byte, b: byte, c: byte, d: byte): word {
    Glue4(Bits(a), Bits(b), Bits(c), Bits(d))
  }

  function Byte0(w: word): byte { FromBits(Part0(w)) }
  function Byte1(w: word): byte { FromBits(Part1(w)) }
  function Byte2(w: word): byte { FromBits(Part2(w)) }
  function Byte3(w: word): byte { FromBits(Part3(w)) }

  /** A word as the host, or the client, keeps it in memory. */
  function Stored(w: word, bpp: nat, bigEndian: bool): (s: seq<byte>)
    requires Supported(bpp)
    ensures |s| == bpp
  {
    if bpp == 1 then [Byte0(w)]
    else if bpp == 2 then
      if bigEndian then [Byte1(w), Byte0(w)] else [Byte0(w), Byte1(w)]
    else
      if bigEndian then [Byte3(w), Byte2(w), Byte1(w), Byte0(w)] else [Byte0(w), Byte1(w), Byte2(w), Byte3(w)]
  }

  function Loaded(s: seq<byte>, bigEndian: bool): word
    requires Supported(|s|)
  {
    if |s| == 1 then Bits(s[0])
    else if |s| == 2 then
      if bigEndian then Join2(s[1], s[0]) else Join2(s[0], s[1])
    else
      if bigEndian then Join4(s[3], s[2], s[1], s[0]) else Join4(s[0], s[1], s[2], s[3])
  }

  lemma PartsOf(w: word)
    ensures Part0(w) <= 0xff && Part1(w) <= 0xff && Part2(w) <= 0xff && Part3(w) <= 0xff
    ensures Glue4(Part0(w), Part1(w), Part2(w), Part3(w)) == w
  {
  }

  lemma PartsOfShort(w: word)
    ensures And(w, 0xff) == w ==> Part0(w) == w
    ensures And(w, 0xffff) == w ==> Glue2(Part0(w), Part1(w)) == w
  {
  }

  lemma GluedParts(a: word, b: word)
    requires a <= 0xff && b <= 0xff
    ensures And(a, 0xff) == a && Part0(a) == a
    ensures Part0(Glue2(a, b)) == a && Part1(Glue2(a, b)) == b
  {
  }

  lemma GlueIsShort(a: word, b: word)
    requires a <= 0xff && b <= 0xff
    ensures And(Glue2(a, b), 0xffff) == Glue2(a, b)
  {
  }

  lemma GluedParts4(a: word, b: word, c: word, d: word)
    requires a <= 0xff && b <= 0xff && c <= 0xff && d <= 0xff
    ensures Part0(Glue4(a, b, c, d)) == a && Part1(Glue4(a, b, c, d)) == b
    ensures Part2(Glue4(a, b, c, d)) == c && Part3(Glue4(a, b, c, d)) == d
  {
  }

  /** Loading is the inverse of storing, in either byte order. */
  lemma LoadedStored(w: word, bpp: nat, bigEndian: bool)
    requires Supported(bpp) && And(w, Limit(bpp)) == w
    ensures Loaded(Stored(w, bpp, bigEndian), bigEndian) == w
  {
    hide And, Glue2, Glue4, Bits, FromBits, Part0, Part1, Part2, Part3;
    PartsOf(w);
    PartsOfShort(w);
    BitsByte(Part0(w));
    BitsByte(Part1(w));
    BitsByte(Part2(w));
    BitsByte(Part3(w));
  }

  lemma StoredLoaded(s: seq<byte>, bigEndian: bool)
    requires Supported(|s|)
    ensures Stored(Loaded(s, bigEndian), |s|, bigEndian) == s
    ensures And(Loaded(s, bigEndian), Limit(|s|)) == Loaded(s, bigEndian)
  {
    hide And, Glue2, Glue4, Bits, FromBits, Part0, Part1, Part2, Part3;
    ByteBits(s[0]);
    if |s| == 1 {
      GluedParts(Bits(s[0]), Bits(s[0]));
    } else if |s| == 2 {
      ByteBits(s[1]);
      GluedParts(Bits(s[0]), Bits(s[1]));
      GluedParts(Bits(s[1]), Bits(s[0]));
      GlueIsShort(Bits(s[0]), Bits(s[1]));
      GlueIsShort(Bits(s[1]), Bits(s[0]));
    } else {
      ByteBits(s[1]);
      ByteBits(s[2]);
      ByteBits(s[3]);
      GluedParts4(Bits(s[0]), Bits(s[1]), Bits(s[2]), Bits(s[3]));
      GluedParts4(Bits(s[3]), Bits(s[2]), Bits(s[1]), Bits(s[0]));
      AndLaws(Loaded(s, bigEndian), 0);
    }
  }

  // ---------------------------------------------------------------------------------------
  // The number in a word
  // ---------------------------------------------------------------------------------------

  /** The number in a word is that of its bytes, and `Byte0` is the lowest one. */
  lemma NumberOfBytes(w: word)
    ensures ToNat(w, 8) == Byte0(w) as nat
    ensures ToNat(w, 16) == U16(Byte1(w), Byte0(w))
    ensures ToNat(w, 32) == U32(Byte3(w), Byte2(w), Byte1(w), Byte0(w))
  {
    hide FromBits, ToNat, Shr, Part0, Part1, Part2, Part3;
    PartsByShifts(w);
    NumberOfByte(w);
    NumberOfByte(Shr(w, 8));
    NumberOfByte(Shr(w, 16));
    NumberOfByte(Shr(w, 24));
    ToNatSplit(w, 8, 24);
    ToNatSplit(w, 8, 8);
    ToNatSplit(Shr(w, 8), 8, 16);
    ToNatSplit(Shr(w, 16), 8, 8);
    ShrTwice(w, 8, 8);
    ShrTwice(w, 16, 8);
    ToNatBound(w, 8);
  }

  lemma NumberOfByte(w: word)
    ensures ToNat(w, 8) == FromBits(Part0(w)) as nat
  {
    LowByte(w);
    ToNatBound(Part0(w), 8);
  }

  /** A word eight places down has the next byte at each place. */
  lemma NextParts(w: word)
    ensures Part1(w) == Part0(Shr(w, 8)) && Part2(w) == Part1(Shr(w, 8)) && Part3(w) == Part2(Shr(w, 8))
  {
    hide Shr;
    ShrByEight(w);
  }

  lemma PartsByShifts(w: word)
    ensures Part1(w) == Part0(Shr(w, 8)) && Part2(w) == Part0(Shr(w, 16)) && Part3(w) == Part0(Shr(w, 24))
  {
    hide Shr, Part0, Part1, Part2, Part3;
    NextParts(w);
    NextParts(Shr(w, 8));
    NextParts(Shr(w, 16));
    ShrTwice(w, 8, 8);
    ShrTwice(w, 16, 8);
  }

  /** The bytes in the order in which the other kind of host keeps them. */
  function Turned(s: seq<byte>): (r: seq<byte>)
    ensures |r| == |s|
    ensures forall i | 0 <= i < |s| :: r[i] == s[|s| - 1 - i]
  {
    seq(|s|, i requires 0 <= i < |s| => s[|s| - 1 - i])
  }

  /**
   * Big-endian memory has the digits of the word's number from the highest one on, little-endian
   * memory from the lowest one on.
   */
  lemma StoredNumber(w: word, bpp: nat)
    requires Supported(bpp)
    ensures Value(Stored(w, bpp, true)) == ToNat(w, 8 * bpp)
    ensures Value(Turned(Stored(w, bpp, false))) == ToNat(w, 8 * bpp)
  {
    hide Byte0, Byte1, Byte2, Byte3, ToNat, Value, Turned, U16, U32;
    NumberOfBytes(w);
    ValueOfOne(Byte0(w));
    ValueOfTwo(Byte1(w), Byte0(w));
    ValueOfFour(Byte3(w), Byte2(w), Byte1(w), Byte0(w));
    assert Turned(Stored(w, bpp, false)) == Stored(w, bpp, true);
  }

  lemma LoadedNumber(s: seq<byte>)
    requires Supported(|s|)
    ensures ToNat(Loaded(s, true), 8 * |s|) == Value(s)
    ensures ToNat(Loaded(s, false), 8 * |s|) == Value(Turned(s))
  {
    hide Stored, Loaded, ToNat, Value, Turned;
    StoredLoaded(s, true);
    StoredLoaded(s, false);
    StoredNumber(Loaded(s, true), |s|);
    StoredNumber(Loaded(s, false), |s|);
  }

  /** A colour's bytes, from the highest one on, are unused, red, green and blue. */
  lemma ColourNumber(col: word, r: byte, g: byte, b: byte)
    ensures Value([Byte3(col), FromBits(Red(col)), FromBits(Green(col)), FromBits(Blue(col))]) == ToNat(col, 32)
    ensures Value([0, r, g, b]) == ToNat(Rgb(Bits(r), Bits(g), Bits(b)), 32)
  {
    hide Bits, FromBits, ToNat, Value;
    NumberOfBytes(col);
    ValueOfFour(Byte3(col), Byte2(col), Byte1(col), Byte0(col));
    ByteBits(r);
    ByteBits(g);
    ByteBits(b);
    ByteBits(0);
    var joined := Rgb(Bits(r), Bits(g), Bits(b));
    JoinedParts(Bits(r), Bits(g), Bits(b));
    BitsOfZero();
    NumberOfBytes(joined);
    ValueOfFour(0, r, g, b);
  }

  lemma JoinedParts(r: word, g: word, b: word)
    requires r <= 0xff && g <= 0xff && b <= 0xff
    ensures Part2(Rgb(r, g, b)) == r && Part1(Rgb(r, g, b)) == g && Part0(Rgb(r, g, b)) == b
    ensures Part3(Rgb(r, g, b)) == 0
  {
  }

  // ---------------------------------------------------------------------------------------
  // A run of words
  // ---------------------------------------------------------------------------------------

  /** Bytes taken by `n` pixels. */
  function Size(bpp: nat, n: nat): nat
    requires Supported(bpp)
  {
    if bpp == 1 then n else if bpp == 2 then 2 * n else 4 * n
  }

  /** The bytes of pixel `i`. */
  function Cell(data: seq<byte>, bpp: nat, i: nat): (s: seq<byte>)
    requires Supported(bpp) && Size(bpp, i + 1) <= |data|
    ensures |s| == bpp
  {
    data[Size(bpp, i)..Size(bpp, i + 1)]
  }

  function WordsOf(data: seq<byte>, bpp: nat, bigEndian: bool, n: nat): (ws: seq<word>)
    requires Supported(bpp) && Size(bpp, n) <= |data|
    ensures |ws| == n
  {
    seq(n, i requires 0 <= i < n => Loaded(Cell(data, bpp, i), bigEndian))
  }

  function BytesOf(ws: seq<word>, bpp: nat, bigEndian: bool): (data: seq<byte>)
    requires Supported(bpp)
    ensures |data| == Size(bpp, |ws|)
    decreases |ws|
  {
    if ws == [] then [] else BytesOf(ws[..|ws| - 1], bpp, bigEndian) + Stored(ws[|ws| - 1], bpp, bigEndian)
  }

  /** Every word fits a pixel. */
  predicate Fit(ws: seq<word>, bpp: nat) {
    forall i | 0 <= i < |ws| :: And(ws[i], Limit(bpp)) == ws[i]
  }

  lemma SizeGrows(bpp: nat, i: nat, n: nat)
    requires Supported(bpp) && i < n
    ensures Size(bpp, i + 1) == Size(bpp, i) + bpp <= Size(bpp, n)
  {
  }

  lemma {:induction false} BytesOfCell(ws: seq<word>, bpp: nat, bigEndian: bool, i: nat)
    requires Supported(bpp) && i < |ws|
    ensures Size(bpp, i + 1) <= Size(bpp, |ws|)
    ensures Cell(BytesOf(ws, bpp, bigEndian), bpp, i) == Stored(ws[i], bpp, bigEndian)
    decreases |ws|
  {
    hide Stored, Size;
    SizeGrows(bpp, i, |ws|);
    SizeGrows(bpp, |ws| - 1, |ws|);
    var init := ws[..|ws| - 1];
    var front, last := BytesOf(init, bpp, bigEndian), Stored(ws[|ws| - 1], bpp, bigEndian);
    SliceOfConcat(front, last, Size(bpp, i), Size(bpp, i + 1));
    if i < |init| {
      SizeGrows(bpp, i, |init|);
      BytesOfCell(init, bpp, bigEndian, i);
    }
  }

  lemma SliceOfConcat(a: seq<byte>, b: seq<byte>, i: nat, j: nat)
    requires i <= j <= |a| + |b|
    ensures j <= |a| ==> (a + b)[i..j] == a[i..j]
    ensures |a| <= i ==> (a + b)[i..j] == b[i - |a|..j - |a|]
    ensures i == |a| && j == |a| + |b| ==> (a + b)[i..j] == b
  {
  }

  lemma SameFront(s: seq<byte>, t: seq<byte>, n: nat, i: nat, j: nat)
    requires i <= j <= n <= |s| == |t| && s[..n] == t[..n]
    ensures s[i..j] == t[i..j]
  {
    forall k | i <= k < j
      ensures s[k] == t[k]
    {
      assert s[..n][k] == t[..n][k];
    }
  }

  lemma SameBack(s: seq<byte>, t: seq<byte>, n: nat, i: nat, j: nat)
    requires n <= i <= j <= |s| == |t| && s[n..] == t[n..]
    ensures s[i..j] == t[i..j]
  {
    forall k | i <= k < j
      ensures s[k] == t[k]
    {
      assert s[n..][k - n] == t[n..][k - n];
    }
  }

  /** Every cell of the memory holds its word. */
  predicate Holds(data: seq<byte>, ws: seq<word>, bpp: nat, bigEndian: bool)
    requires Supported(bpp) && |data| == Size(bpp, |ws|)
  {
    forall i: nat | i < |ws| :: HoldsAt(data, ws, bpp, bigEndian, i)
  }

  predicate HoldsAt(data: seq<byte>, ws: seq<word>, bpp: nat, bigEndian: bool, i: nat)
    requires Supported(bpp) && i < |ws|
  {
    Size(bpp, i + 1) <= |data| && Cell(data, bpp, i) == Stored(ws[i], bpp, bigEndian)
  }

  /** The pixel that byte `k` belongs to. */
  function PixelOf(bpp: nat, k: nat): nat
    requires Supported(bpp)
  {
    if bpp == 1 then k else if bpp == 2 then k / 2 else k / 4
  }

  lemma PixelOfByte(bpp: nat, n: nat, k: nat)
    requires Supported(bpp) && k < Size(bpp, n)
    ensures PixelOf(bpp, k) < n
    ensures Size(bpp, PixelOf(bpp, k)) <= k < Size(bpp, PixelOf(bpp, k) + 1) <= Size(bpp, n)
  {
  }

  /** Memory whose cells hold the given words is the image of those words. */
  lemma CellsMakeBytes(data: seq<byte>, ws: seq<word>, bpp: nat, bigEndian: bool)
    requires Supported(bpp) && |data| == Size(bpp, |ws|)
    requires Holds(data, ws, bpp, bigEndian)
    ensures data == BytesOf(ws, bpp, bigEndian)
  {
    hide Stored, Size, PixelOf, BytesOf;
    var image := BytesOf(ws, bpp, bigEndian);
    forall k | 0 <= k < |data|
      ensures data[k] == image[k]
    {
      PixelOfByte(bpp, |ws|, k);
      var i := PixelOf(bpp, k);
      BytesOfCell(ws, bpp, bigEndian, i);
      assert HoldsAt(data, ws, bpp, bigEndian, i);
      assert Cell(data, bpp, i) == Cell(image, bpp, i);
      assert data[k] == Cell(data, bpp, i)[k - Size(bpp, i)];
      assert image[k] == Cell(image, bpp, i)[k - Size(bpp, i)];
    }
  }

  /** Reading memory as words and writing it back gives the same bytes. */
  lemma BytesOfWords(data: seq<byte>, bpp: nat, bigEndian: bool, n: nat)
    requires Supported(bpp) && |data| == Size(bpp, n)
    ensures BytesOf(WordsOf(data, bpp, bigEndian, n), bpp, bigEndian) == data
    ensures Fit(WordsOf(data, bpp, bigEndian, n), bpp)
  {
    hide Stored, Loaded, And, Limit, Size;
    var ws := WordsOf(data, bpp, bigEndian, n);
    forall i: nat | i < n
      ensures HoldsAt(data, ws, bpp, bigEndian, i)
      ensures And(ws[i], Limit(bpp)) == ws[i]
    {
      SizeGrows(bpp, i, n);
      StoredLoaded(Cell(data, bpp, i), bigEndian);
    }
    CellsMakeBytes(data, ws, bpp, bigEndian);
  }

  /** Reading an image in its own byte order gives back its words. */
  lemma WordsOfBytes(ws: seq<word>, bpp: nat, bigEndian: bool)
    requires Supported(bpp) && Fit(ws, bpp)
    ensures WordsOf(BytesOf(ws, bpp, bigEndian), bpp, bigEndian, |ws|) == ws
  {
    hide Stored, Loaded, And, Limit, Size;
    forall i | 0 <= i < |ws|
      ensures WordsOf(BytesOf(ws, bpp, bigEndian), bpp, bigEndian, |ws|)[i] == ws[i]
    {
      BytesOfCell(ws, bpp, bigEndian, i);
      LoadedStored(ws[i], bpp, bigEndian);
    }
  }

  /** Writing a run of bytes writes that run and nothing else. */
  lemma Spliced(data: seq<byte>, at: nat, s: seq<byte>)
    requires at + |s| <= |data|
    ensures var data' := data[..at] + s + data[at + |s|..];
            && |data'| == |data| && data'[at..at + |s|] == s
            && forall k | 0 <= k < |data| && !(at <= k < at + |s|) :: data'[k] == data[k]
  {
  }

  lemma WordAt(data: seq<byte>, bpp: nat, bigEndian: bool, n: nat, i: nat)
    requires Supported(bpp) && Size(bpp, n) <= |data| && i < n
    ensures Size(bpp, i + 1) <= |data|
    ensures WordsOf(data, bpp, bigEndian, n)[i] == Loaded(Cell(data, bpp, i), bigEndian)
  {
    hide Loaded;
    SizeGrows(bpp, i, n);
  }

  /** Storing into one cell changes that word only. */
  lemma StoreCell(data: seq<byte>, data': seq<byte>, bpp: nat, bigEndian: bool, n: nat, i: nat, w: word)
    requires Supported(bpp) && |data| == |data'| == Size(bpp, n) && i < n
    requires Size(bpp, i + 1) <= Size(bpp, n)
    requires And(w, Limit(bpp)) == w
    requires Cell(data', bpp, i) == Stored(w, bpp, bigEndian)
    requires forall k | 0 <= k < |data| && !(Size(bpp, i) <= k < Size(bpp, i + 1)) :: data'[k] == data[k]
    ensures WordsOf(data', bpp, bigEndian, n) == WordsOf(data, bpp, bigEndian, n)[i := w]
  {
    hide Stored, Loaded, And, Limit, Size;
    LoadedStored(w, bpp, bigEndian);
    forall j | 0 <= j < n && j != i
      ensures WordsOf(data', bpp, bigEndian, n)[j] == WordsOf(data, bpp, bigEndian, n)[j]
    {
      SizeGrows(bpp, j, n);
      if j < i {
        SizeGrows(bpp, j, i);
      } else {
        SizeGrows(bpp, i, j);
      }
      assert Cell(data', bpp, j) == Cell(data, bpp, j);
    }
  }

  lemma {:induction false} SameBytes(ws: seq<word>, be1: bool, be2: bool)
    ensures BytesOf(ws, 1, be1) == BytesOf(ws, 1, be2)
    decreases |ws|
  {
    if ws != [] {
      SameBytes(ws[..|ws| - 1], be1, be2);
    }
  }

  function Backwards(s: seq<byte>): (r: seq<byte>)
    requires |s| == 2 || |s| == 4
    ensures |r| == |s|
  {
    if |s| == 2 then [s[1], s[0]] else [s[3], s[2], s[1], s[0]]
  }

  /** The first `m` cells are reversed. */
  predicate Reversed(data: seq<byte>, data': seq<byte>, bpp: nat, m: nat)
    requires bpp == 2 || bpp == 4
    requires Size(bpp, m) <= |data| == |data'|
  {
    forall j {:trigger Cell(data, bpp, j)} | 0 <= j < m :: Cell(data', bpp, j) == Backwards(Cell(data, bpp, j))
  }

  /** Reversing one more cell. */
  lemma ReversedStep(data: seq<byte>, before: seq<byte>, after: seq<byte>, bpp: nat, j: nat)
    requires bpp == 2 || bpp == 4
    requires Size(bpp, j) <= Size(bpp, j + 1) <= |data| == |before| == |after|
    requires Reversed(data, before, bpp, j)
    requires before[Size(bpp, j)..] == data[Size(bpp, j)..]
    requires after[..Size(bpp, j)] == before[..Size(bpp, j)]
    requires Cell(after, bpp, j) == Backwards(Cell(before, bpp, j))
    ensures Reversed(data, after, bpp, j + 1)
  {
    hide Backwards;
    var at := Size(bpp, j);
    SameBack(before, data, at, at, Size(bpp, j + 1));
    forall k {:trigger Cell(data, bpp, k)} | 0 <= k < j + 1
      ensures Size(bpp, k + 1) <= |data| && Cell(after, bpp, k) == Backwards(Cell(data, bpp, k))
    {
      SizeGrows(bpp, k, j + 1);
      if k < j {
        SizeGrows(bpp, k, j);
        SameFront(after, before, at, Size(bpp, k), Size(bpp, k + 1));
      }
    }
  }

  /** The `bpp` bytes at `at` are reversed, all others are as they were. */
  predicate Flipped(before: seq<byte>, after: seq<byte>, at: nat, bpp: nat)
    requires (bpp == 2 || bpp == 4) && at + bpp <= |before|
  {
    && |after| == |before|
    && after[at..at + bpp] == Backwards(before[at..at + bpp])
    && forall k | 0 <= k < |before| && !(at <= k < at + bpp) :: after[k] == before[k]
  }

  lemma NoneReversed(data: seq<byte>, bpp: nat)
    requires bpp == 2 || bpp == 4
    ensures Reversed(data, data, bpp, 0)
  {
  }

  lemma FlippedStep(data: seq<byte>, before: seq<byte>, after: seq<byte>, bpp: nat, j: nat)
    requires bpp == 2 || bpp == 4
    requires Size(bpp, j + 1) <= |data| == |before| && Size(bpp, j) + bpp == Size(bpp, j + 1)
    requires Flipped(before, after, Size(bpp, j), bpp)
    requires Reversed(data, before, bpp, j) && before[Size(bpp, j)..] == data[Size(bpp, j)..]
    ensures |after| == |data| && Reversed(data, after, bpp, j + 1)
    ensures after[Size(bpp, j + 1)..] == data[Size(bpp, j + 1)..]
  {
    hide Reversed, Backwards, Size;
    var at, end := Size(bpp, j), Size(bpp, j + 1);
    assert after[..at] == before[..at] && after[end..] == before[end..];
    ReversedStep(data, before, after, bpp, j);
    SameBack(before, data, at, end, |data|);
    assert before[end..] == before[end..|data|] && data[end..] == data[end..|data|];
  }

  /** Reversing every cell turns one byte order into the other. */
  lemma SwappedCells(data: seq<byte>, data': seq<byte>, bpp: nat, bigEndian: bool, n: nat)
    requires bpp == 2 || bpp == 4
    requires |data| == |data'| == Size(bpp, n) && Reversed(data, data', bpp, n)
    ensures data' == BytesOf(WordsOf(data, bpp, bigEndian, n), bpp, !bigEndian)
  {
    hide Stored, Loaded, Size, Backwards, WordsOf, HoldsAt;
    var ws, other := WordsOf(data, bpp, bigEndian, n), !bigEndian;
    forall i: nat | i < |ws|
      ensures HoldsAt(data', ws, bpp, other, i)
    {
      SwappedCell(data, data', bpp, bigEndian, n, i);
    }
    CellsMakeBytes(data', ws, bpp, other);
  }

  lemma SwappedCell(data: seq<byte>, data': seq<byte>, bpp: nat, bigEndian: bool, n: nat, i: nat)
    requires bpp == 2 || bpp == 4
    requires |data| == |data'| == Size(bpp, n) && Reversed(data, data', bpp, n)
    requires i < n
    ensures HoldsAt(data', WordsOf(data, bpp, bigEndian, n), bpp, !bigEndian, i)
  {
    hide Stored, Loaded, Size, Backwards;
    SizeGrows(bpp, i, n);
    StoredBackwards(Cell(data, bpp, i), bigEndian);
  }

  lemma StoredBackwards(s: seq<byte>, bigEndian: bool)
    requires |s| == 2 || |s| == 4
    ensures Stored(Loaded(s, bigEndian), |s|, !bigEndian) == Backwards(s)
  {
    hide Byte0, Byte1, Byte2, Byte3, Loaded;
    StoredLoaded(s, bigEndian);
  }

  lemma SameCell(s: seq<byte>, i: nat, t: seq<byte>, j: nat, bpp: nat)
    requires Supported(bpp) && Size(bpp, i + 1) <= |s| && Size(bpp, j + 1) <= |t|
    requires forall k | Size(bpp, i) <= k < Size(bpp, i + 1) :: s[k] == t[Size(bpp, j) + (k - Size(bpp, i))]
    ensures Cell(s, bpp, i) == Cell(t, bpp, j)
  {
  }

  /** `ws` after the `count` words from `source[b]` on were put at `a`. */
  predicate Moved(ws': seq<word>, ws: seq<word>, source: seq<word>, a: nat, b: nat, count: nat) {
    && |ws'| == |ws| && b + count <= |source|
    && forall i | 0 <= i < |ws'| :: ws'[i] == if a <= i < a + count then source[b + (i - a)] else ws[i]
  }

  /** Copying `count` cells, from cell `b` of `src` to cell `a` of `data`, copies that many words. */
  lemma CopiedCells(
    data: seq<byte>, data': seq<byte>, src: seq<byte>, bpp: nat, bigEndian: bool,
    n: nat, m: nat, a: nat, b: nat, count: nat)
    requires Supported(bpp) && |data| == |data'| == Size(bpp, n) && |src| == Size(bpp, m)
    requires a + count <= n && b + count <= m
    requires Size(bpp, a) + Size(bpp, count) <= |data| && Size(bpp, b) + Size(bpp, count) <= |src|
    requires forall k | 0 <= k < |data| ::
               data'[k] == if Size(bpp, a) <= k < Size(bpp, a) + Size(bpp, count)
                           then src[Size(bpp, b) + (k - Size(bpp, a))] else data[k]
    ensures Moved(WordsOf(data', bpp, bigEndian, n), WordsOf(data, bpp, bigEndian, n),
                  WordsOf(src, bpp, bigEndian, m), a, b, count)
  {
    hide Loaded, Cell;
    forall i: nat | i < n
      ensures WordsOf(data', bpp, bigEndian, n)[i] ==
              if a <= i < a + count then WordsOf(src, bpp, bigEndian, m)[b + (i - a)]
              else WordsOf(data, bpp, bigEndian, n)[i]
    {
      if a <= i < a + count {
        SameCell(data', i, src, b + (i - a), bpp);
      } else {
        SameCell(data', i, data, i, bpp);
      }
    }
  }

  lemma ZeroWords(data: seq<byte>, bpp: nat, bigEndian: bool, n: nat)
    requires Supported(bpp) && |data| == Size(bpp, n)
    requires forall k | 0 <= k < |data| :: data[k] == 0
    ensures forall i | 0 <= i < n :: WordsOf(data, bpp, bigEndian, n)[i] == 0
  {
    BitsOfZero();
  }

  lemma BitsOfZero()
    ensures Bits(0) == 0
  {
    assert FromNat(0, 4) == 0;
  }
}
