/** Pixel layouts: how three channels are packed into one pixel, and what a pixel means. */
module Pixels {
  import opened Words

  /** The seven fields that describe a pixel; `bpp` is in bytes, a channel's mask is unshifted. */
  datatype Layout = Layout(
    bpp: nat,
    rmask: word, gmask: word, bmask: word,
    rshift: nat, gshift: nat, bshift: nat)

  const FB8 := Layout(1, 0x07, 0x07, 0x03, 0, 3, 6)
  const FB16 := Layout(2, 0x1f, 0x3f, 0x1f, 11, 5, 0)
  const FB32 := Layout(4, 0xff, 0xff, 0xff, 16, 8, 0)

  predicate Supported(bpp: nat) {
    bpp == 1 || bpp == 2 || bpp == 4
  }

  /** The bits a pixel of `bpp` bytes can hold. */
  function Limit(bpp: nat): word {
    if bpp == 1 then 0xff else if bpp == 2 then 0xffff else ONES
  }

  // ---------------------------------------------------------------------------------------
  // Normalisation: the shift that lifts a mask to the top of eight bits
  // ---------------------------------------------------------------------------------------

  function ByteOf(mask: word): word {
    And(mask, 0xff)
  }

  /** How many doublings of `c` still fit eight bits. */
  function Room(c: word): nat {
    if c >= 0x80 then 0 else if c >= 0x40 then 1 else if c >= 0x20 then 2 else if c >= 0x10 then 3
    else if c >= 8 then 4 else if c >= 4 then 5 else if c >= 2 then 6 else 7
  }

  function NormFromMask(mask: word): nat {
    if ByteOf(mask) == 0 then 0 else Room(ByteOf(mask))
  }

  method ComputeNorm(mask: word) returns (r: nat)
    ensures r == NormFromMask(mask)
  {
    var c := ByteOf(mask);
    r := 0;
    if c == 0 {
      return 0;
    }
    ByteBound(mask);
    while true
      invariant 1 <= c <= 0xff
      invariant r + Room(c) == NormFromMask(mask)
      decreases Room(c)
    {
      Doubling(c);
      c := Up(c);
      if c >= 0x100 {
        return;
      }
      r := r + 1;
    }
  }

  lemma ByteBound(mask: word)
    ensures ByteOf(mask) <= 0xff
  {
  }

  lemma Doubling(c: word)
    requires 1 <= c <= 0xff
    ensures Up(c) >= 0x100 <==> c >= 0x80
    ensures Up(c) < 0x100 ==> 1 <= Up(c) <= 0xff && Room(Up(c)) == Room(c) - 1
    ensures Up(c) >= 0x100 ==> Room(c) == 0
  {
  }

  lemma {:induction false} RoomLifts(c: word)
    requires 1 <= c <= 0xff
    ensures 0x80 <= Shl(c, Room(c)) <= 0xff
    decreases Room(c)
  {
    Doubling(c);
    if Room(c) > 0 {
      RoomLifts(Up(c));
    }
  }

  /** A mask of 1..255 is lifted to 128..255. */
  lemma NormLiftsMask(mask: word)
    requires 1 <= mask <= 0xff
    ensures NormFromMask(mask) <= 7
    ensures 0x80 <= Shl(mask, NormFromMask(mask)) <= 0xff
  {
    assert ByteOf(mask) == mask;
    RoomLifts(mask);
  }

  // ---------------------------------------------------------------------------------------
  // Packing and unpacking
  // ---------------------------------------------------------------------------------------

  function Rgb(r: word, g: word, b: word): word {
    (r << 16) | (g << 8) | b
  }

  function Red(col: word): word {
    (col >> 16) & 0xff
  }

  function Green(col: word): word {
    (col >> 8) & 0xff
  }

  function Blue(col: word): word {
    col & 0xff
  }

  /** One channel of a stored pixel, as the protocol defines it: shift down, mask. */
  function Channel(c: word, mask: word, shift: nat): word {
    And(Shr(c, shift), mask)
  }

  /** The field a channel value occupies in a pixel. */
  function Field(x: word, mask: word, shift: nat): word {
    Shl(And(Shr(x, NormFromMask(mask)), mask), shift)
  }

  /** The colour of a pixel, each channel lifted to eight bits. */
  function Unpack(l: Layout, c: word): word {
    Rgb(
      Shl(Channel(c, l.rmask, l.rshift), NormFromMask(l.rmask)),
      Shl(Channel(c, l.gmask, l.gshift), NormFromMask(l.gmask)),
      Shl(Channel(c, l.bmask, l.bshift), NormFromMask(l.bmask)))
  }

  /** The pixel that stores a colour; the store keeps the low `bpp` bytes. */
  function Pack(l: Layout, col: word): word {
    And(Or(Or(Field(Red(col), l.rmask, l.rshift), Field(Green(col), l.gmask, l.gshift)),
           Field(Blue(col), l.bmask, l.bshift)),
        Limit(l.bpp))
  }

  // ---------------------------------------------------------------------------------------
  // Layouts whose channels are disjoint fields of the pixel, and those of at most eight bits each
  // ---------------------------------------------------------------------------------------

  predicate FieldFits(mask: word, shift: nat, bpp: nat) {
    && Shr(Shl(mask, shift), shift) == mask
    && And(Shl(mask, shift), Limit(bpp)) == Shl(mask, shift)
  }

  predicate Apart(m1: word, s1: nat, m2: word, s2: nat) {
    And(Shl(m1, s1), Shl(m2, s2)) == 0
  }

  predicate Disjoint(l: Layout) {
    && Supported(l.bpp)
    && FieldFits(l.rmask, l.rshift, l.bpp)
    && FieldFits(l.gmask, l.gshift, l.bpp)
    && FieldFits(l.bmask, l.bshift, l.bpp)
    && Apart(l.rmask, l.rshift, l.gmask, l.gshift)
    && Apart(l.rmask, l.rshift, l.bmask, l.bshift)
    && Apart(l.gmask, l.gshift, l.bmask, l.bshift)
  }

  predicate WellFormed(l: Layout) {
    Disjoint(l) && l.rmask <= 0xff && l.gmask <= 0xff && l.bmask <= 0xff
  }

  /** A layout's channels as they look in an eight-bit colour. */
  function Kept(mask: word): word {
    Shl(mask, NormFromMask(mask))
  }

  /** The colour with each channel cut to what the layout can hold. */
  function Quantised(l: Layout, col: word): word {
    Rgb(And(Red(col), Kept(l.rmask)), And(Green(col), Kept(l.gmask)), And(Blue(col), Kept(l.bmask)))
  }

  /** A field survives being read back through its own mask and shift. */
  lemma OwnField(y: word, m: word, s: nat)
    requires Shr(Shl(m, s), s) == m
    ensures And(Shr(Shl(And(y, m), s), s), m) == And(y, m)
  {
    hide And, Shl, Shr;
    var k := Shr(ONES, s);
    ShrShl(And(y, m), s);
    ShrShl(m, s);
    AndAssoc(y, m, k);
    AndAssoc(y, m, m);
    AndLaws(m, m);
  }

  /** A field reads as nothing through the mask and shift of another one. */
  lemma OtherField(y: word, m: word, s: nat, m2: word, s2: nat)
    requires Apart(m, s, m2, s2)
    requires Shr(Shl(m2, s2), s2) == m2
    ensures And(Shr(Shl(And(y, m), s), s2), m2) == 0
  {
    hide And, Shl, Shr;
    calc {
      And(Shr(Shl(And(y, m), s), s2), m2);
      { ShrAnd(Shl(And(y, m), s), Shl(m2, s2), s2); }
      Shr(And(Shl(And(y, m), s), Shl(m2, s2)), s2);
      { ShlAnd(y, m, s); AndAssoc(Shl(y, s), Shl(m, s), Shl(m2, s2)); OrLaws(Shl(y, s)); }
      Shr(0, s2);
      { ShiftZero(s2); }
      0;
    }
  }

  lemma ApartSymmetric(m1: word, s1: nat, m2: word, s2: nat)
    requires Apart(m1, s1, m2, s2)
    ensures Apart(m2, s2, m1, s1)
  {
    AndLaws(Shl(m1, s1), Shl(m2, s2));
  }

  /** A field that fits the pixel is not cut by the store. */
  lemma FieldStored(y: word, m: word, s: nat, bpp: nat)
    requires FieldFits(m, s, bpp)
    ensures And(Shl(And(y, m), s), Limit(bpp)) == Shl(And(y, m), s)
  {
    hide And, Shl, Limit;
    ShlAnd(y, m, s);
    AndAssoc(Shl(y, s), Shl(m, s), Limit(bpp));
  }

  /** Reading a channel from three joined fields reads it from each of them. */
  lemma ChannelOfOr(a: word, b: word, c: word, m: word, s: nat)
    ensures Channel(Or(Or(a, b), c), m, s) == Or(Or(Channel(a, m, s), Channel(b, m, s)), Channel(c, m, s))
  {
    hide And, Or, Shr;
    ShrOr(Or(a, b), c, s);
    ShrOr(a, b, s);
    AndOr(Or(Shr(a, s), Shr(b, s)), Shr(c, s), m);
    AndOr(Shr(a, s), Shr(b, s), m);
  }

  /**
   * The client's view of a packed pixel: each channel, read with the layout's own shift and
   * maximum, is that channel of the colour brought down to the layout's width.
   */
  lemma PackedChannels(l: Layout, col: word)
    requires Disjoint(l)
    ensures Channel(Pack(l, col), l.rmask, l.rshift) == And(Shr(Red(col), NormFromMask(l.rmask)), l.rmask)
    ensures Channel(Pack(l, col), l.gmask, l.gshift) == And(Shr(Green(col), NormFromMask(l.gmask)), l.gmask)
    ensures Channel(Pack(l, col), l.bmask, l.bshift) == And(Shr(Blue(col), NormFromMask(l.bmask)), l.bmask)
  {
    hide And, Or, Shl, Shr, Limit, NormFromMask, Red, Green, Blue;
    var r := And(Shr(Red(col), NormFromMask(l.rmask)), l.rmask);
    var g := And(Shr(Green(col), NormFromMask(l.gmask)), l.gmask);
    var b := And(Shr(Blue(col), NormFromMask(l.bmask)), l.bmask);
    var fr, fg, fb := Shl(r, l.rshift), Shl(g, l.gshift), Shl(b, l.bshift);
    assert Pack(l, col) == Or(Or(fr, fg), fb) by {
      FieldStored(Shr(Red(col), NormFromMask(l.rmask)), l.rmask, l.rshift, l.bpp);
      FieldStored(Shr(Green(col), NormFromMask(l.gmask)), l.gmask, l.gshift, l.bpp);
      FieldStored(Shr(Blue(col), NormFromMask(l.bmask)), l.bmask, l.bshift, l.bpp);
      AndOr(Or(fr, fg), fb, Limit(l.bpp));
      AndOr(fr, fg, Limit(l.bpp));
    }
    JoinedChannels(l, Shr(Red(col), NormFromMask(l.rmask)), Shr(Green(col), NormFromMask(l.gmask)),
                   Shr(Blue(col), NormFromMask(l.bmask)));
  }

  /** Three disjoint fields, joined and read back. */
  lemma JoinedChannels(l: Layout, x: word, y: word, z: word)
    requires Disjoint(l)
    ensures
      var p := Or(Or(Shl(And(x, l.rmask), l.rshift), Shl(And(y, l.gmask), l.gshift)), Shl(And(z, l.bmask), l.bshift));
      && Channel(p, l.rmask, l.rshift) == And(x, l.rmask)
      && Channel(p, l.gmask, l.gshift) == And(y, l.gmask)
      && Channel(p, l.bmask, l.bshift) == And(z, l.bmask)
  {
    hide And, Or, Shl, Shr, Limit;
    var fr, fg, fb := Shl(And(x, l.rmask), l.rshift), Shl(And(y, l.gmask), l.gshift), Shl(And(z, l.bmask), l.bshift);
    ApartSymmetric(l.rmask, l.rshift, l.gmask, l.gshift);
    ApartSymmetric(l.rmask, l.rshift, l.bmask, l.bshift);
    ApartSymmetric(l.gmask, l.gshift, l.bmask, l.bshift);
    ChannelOfOr(fr, fg, fb, l.rmask, l.rshift);
    OwnField(x, l.rmask, l.rshift);
    OtherField(y, l.gmask, l.gshift, l.rmask, l.rshift);
    OtherField(z, l.bmask, l.bshift, l.rmask, l.rshift);
    ChannelOfOr(fr, fg, fb, l.gmask, l.gshift);
    OwnField(y, l.gmask, l.gshift);
    OtherField(x, l.rmask, l.rshift, l.gmask, l.gshift);
    OtherField(z, l.bmask, l.bshift, l.gmask, l.gshift);
    ChannelOfOr(fr, fg, fb, l.bmask, l.bshift);
    OwnField(z, l.bmask, l.bshift);
    OtherField(x, l.rmask, l.rshift, l.bmask, l.bshift);
    OtherField(y, l.gmask, l.gshift, l.bmask, l.bshift);
    OrLaws(And(x, l.rmask));
    OrLaws(And(y, l.gmask));
    OrLaws(And(z, l.bmask));
    OrLaws(0);
  }

  /** Bringing a channel down to a mask and up again is one AND. */
  lemma DownAndUp(x: word, m: word, n: nat)
    ensures Shl(And(Shr(x, n), m), n) == And(x, Shl(m, n))
  {
    hide And, Shl, Shr;
    ShlAnd(Shr(x, n), m, n);
    ShlShr(x, n);
    AndAssoc(x, Shl(ONES, n), Shl(m, n));
    ShlAnd(ONES, m, n);
    AndLaws(m, m);
  }

  /** Storing a colour and reading it back cuts each channel to its mask, and nothing more. */
  lemma PackUnpack(l: Layout, col: word)
    requires Disjoint(l)
    ensures Unpack(l, Pack(l, col)) == Quantised(l, col)
  {
    hide And, Or, Shl, Shr, Limit, NormFromMask, Red, Green, Blue, Pack, Rgb;
    PackedChannels(l, col);
    DownAndUp(Red(col), l.rmask, NormFromMask(l.rmask));
    DownAndUp(Green(col), l.gmask, NormFromMask(l.gmask));
    DownAndUp(Blue(col), l.bmask, NormFromMask(l.bmask));
  }

  // ---------------------------------------------------------------------------------------
  // Re-packing: fast path, idempotence, widening
  // ---------------------------------------------------------------------------------------

  /** The part of a pixel that lies in the three fields. */
  function InFields(l: Layout, c: word): word {
    Or(Or(And(c, Shl(l.rmask, l.rshift)), And(c, Shl(l.gmask, l.gshift))), And(c, Shl(l.bmask, l.bshift)))
  }

  /** No bit of the pixel lies outside the three fields. */
  predicate Canonical(l: Layout, c: word) {
    InFields(l, c) == c
  }

  lemma RgbParts(r: word, g: word, b: word)
    requires r <= 0xff && g <= 0xff && b <= 0xff
    ensures Red(Rgb(r, g, b)) == r && Green(Rgb(r, g, b)) == g && Blue(Rgb(r, g, b)) == b
  {
  }

  lemma AndBelow(x: word, k: word)
    requires k <= 0xff
    ensures And(x, k) <= 0xff
  {
  }

  /** A lifted mask stays in eight bits, and comes down again unharmed. */
  lemma KeptFits(mask: word)
    requires mask <= 0xff
    ensures Kept(mask) <= 0xff
    ensures Shr(Kept(mask), NormFromMask(mask)) == mask
  {
    if mask == 0 {
      assert ByteOf(mask) == 0;
      ShiftZero(0);
    } else {
      NormLiftsMask(mask);
      ShrShl(mask, NormFromMask(mask));
      TopRoom(mask, NormFromMask(mask));
    }
  }

  lemma TopRoom(mask: word, n: nat)
    requires mask <= 0xff && n <= 7
    ensures And(mask, Shr(ONES, n)) == mask
  {
    assert Shr(ONES, 1) == 0x7fff_ffff;
    assert Shr(ONES, 2) == 0x3fff_ffff;
    assert Shr(ONES, 3) == 0x1fff_ffff;
    assert Shr(ONES, 4) == 0x0fff_ffff;
    assert Shr(ONES, 5) == 0x07ff_ffff;
    assert Shr(ONES, 6) == 0x03ff_ffff;
    assert Shr(ONES, 7) == 0x01ff_ffff;
    CoversByte(mask, Shr(ONES, n));
  }

  lemma CoversByte(mask: word, k: word)
    requires mask <= 0xff && And(0xff, k) == 0xff
    ensures And(mask, k) == mask
  {
  }

  /**
   * The channel of a colour overflows its eight bits exactly when the mask is wider than the
   * byte that the normalisation looks at.
   */
  lemma LiftedMaskFits(mask: word)
    requires mask <= 0xffff
    ensures Kept(mask) <= 0xff <==> mask <= 0xff
  {
    if mask <= 0xff {
      KeptFits(mask);
    } else {
      ByteBound(mask);
      ShlGrows(mask, NormFromMask(mask));
    }
  }

  lemma ShlGrows(x: word, n: nat)
    requires n <= 7 && 0xff < x <= 0xffff
    ensures Shl(x, n) > 0xff
  {
    var x1 := Up(x);
    var x2 := Up(x1);
    var x3 := Up(x2);
    var x4 := Up(x3);
    var x5 := Up(x4);
    var x6 := Up(x5);
    var x7 := Up(x6);
    assert Shl(x, 1) == x1;
    assert Shl(x, 2) == Shl(x1, 1) == x2;
    assert Shl(x, 3) == Shl(x2, 1) == x3;
    assert Shl(x, 4) == Shl(x3, 1) == x4;
    assert Shl(x, 5) == Shl(x4, 1) == x5;
    assert Shl(x, 6) == Shl(x5, 1) == x6;
    assert Shl(x, 7) == Shl(x6, 1) == x7;
  }

  /**
   * A channel of more than eight bits is never full: white reaches the maximum of a channel exactly
   * if its mask is at most 255.
   */
  lemma WhiteIsFullExact(mask: word)
    requires mask <= 0xffff
    ensures And(Shr(0xff, NormFromMask(mask)), mask) == mask <==> mask <= 0xff
  {
    WhiteShifted();
    hide Shr;
    ByteBound(mask);
  }

  lemma WhiteShifted()
    ensures Shr(0xff, 0) == 0xff && Shr(0xff, 1) == 0x7f && Shr(0xff, 2) == 0x3f && Shr(0xff, 3) == 0x1f
    ensures Shr(0xff, 4) == 0xf && Shr(0xff, 5) == 7 && Shr(0xff, 6) == 3 && Shr(0xff, 7) == 1
  {
    assert Shr(0xff, 1) == Down(0xff) == 0x7f;
    assert Shr(0xff, 2) == Down(0x7f) == 0x3f;
    assert Shr(0xff, 3) == Down(0x3f) == 0x1f;
    assert Shr(0xff, 4) == Down(0x1f) == 0xf;
    assert Shr(0xff, 5) == Down(0xf) == 7;
    assert Shr(0xff, 6) == Down(7) == 3;
  }

  /** Ten bits for each channel. */
  const TEN_BIT := Layout(4, 0x3ff, 0x3ff, 0x3ff, 20, 10, 0)

  /** Its channels are disjoint, and wider than the normalisation can see: white is a quarter of full. */
  lemma TenBitLayout()
    ensures Disjoint(TEN_BIT) && !WellFormed(TEN_BIT)
    ensures And(Shr(0xff, NormFromMask(0x3ff)), 0x3ff) == 0xff
  {
    TenBitsUp();
    TenBitsDown();
    assert NormFromMask(0x3ff) == 0;
    assert Shl(0x3ff, 0) == 0x3ff && Shr(0x3ff, 0) == 0x3ff && Shr(0xff, 0) == 0xff;
    hide Shl, Shr;
  }

  lemma TenBitsUp()
    ensures Shl(0x3ff, 10) == 0xf_fc00 && Shl(0x3ff, 20) == 0x3ff0_0000
  {
    ShlTwice(0x3ff, 5, 5);
    ShlTwice(0x3ff, 10, 10);
    ShlTwice(0xf_fc00, 5, 5);
    assert Shl(0x3ff, 5) == 0x7fe0 && Shl(0x7fe0, 5) == 0xf_fc00;
    assert Shl(0xf_fc00, 5) == 0x1ff_8000 && Shl(0x1ff_8000, 5) == 0x3ff0_0000;
  }

  lemma TenBitsDown()
    ensures Shr(0xf_fc00, 10) == 0x3ff && Shr(0x3ff0_0000, 20) == 0x3ff
  {
    ShrTwice(0xf_fc00, 5, 5);
    ShrTwice(0x3ff0_0000, 10, 10);
    ShrTwice(0x3ff0_0000, 5, 5);
    assert Shr(0xf_fc00, 5) == 0x7fe0 && Shr(0x7fe0, 5) == 0x3ff;
    assert Shr(0x3ff0_0000, 5) == 0x1ff_8000 && Shr(0x1ff_8000, 5) == 0xf_fc00;
  }

  /** The colour of any pixel, channel by channel. */
  lemma UnpackedParts(l: Layout, c: word)
    requires WellFormed(l)
    ensures Red(Unpack(l, c)) == Shl(Channel(c, l.rmask, l.rshift), NormFromMask(l.rmask))
            == And(Red(Unpack(l, c)), Kept(l.rmask))
    ensures Green(Unpack(l, c)) == Shl(Channel(c, l.gmask, l.gshift), NormFromMask(l.gmask))
            == And(Green(Unpack(l, c)), Kept(l.gmask))
    ensures Blue(Unpack(l, c)) == Shl(Channel(c, l.bmask, l.bshift), NormFromMask(l.bmask))
            == And(Blue(Unpack(l, c)), Kept(l.bmask))
  {
    hide And, Shl, Shr, Limit, NormFromMask, Red, Green, Blue, Rgb;
    LiftedChannel(Shr(c, l.rshift), l.rmask);
    LiftedChannel(Shr(c, l.gshift), l.gmask);
    LiftedChannel(Shr(c, l.bshift), l.bmask);
    RgbParts(
      Shl(Channel(c, l.rmask, l.rshift), NormFromMask(l.rmask)),
      Shl(Channel(c, l.gmask, l.gshift), NormFromMask(l.gmask)),
      Shl(Channel(c, l.bmask, l.bshift), NormFromMask(l.bmask)));
  }

  lemma LiftedChannel(y: word, m: word)
    requires m <= 0xff
    ensures Shl(And(y, m), NormFromMask(m)) <= 0xff
    ensures Shl(And(y, m), NormFromMask(m)) == And(Shl(And(y, m), NormFromMask(m)), Kept(m))
  {
    hide And, Shl, Shr, NormFromMask;
    var n := NormFromMask(m);
    ShlAnd(y, m, n);
    KeptFits(m);
    AndBelow(Shl(y, n), Kept(m));
    AndAssoc(Shl(y, n), Kept(m), Kept(m));
    AndLaws(Kept(m), Kept(m));
  }

  /** The field written from a lifted channel is the field that was read. */
  lemma FieldAgain(c: word, m: word, s: nat)
    requires m <= 0xff
    ensures Field(Shl(Channel(c, m, s), NormFromMask(m)), m, s) == And(c, Shl(m, s))
  {
    hide And, Shl, Shr, NormFromMask;
    KeptFits(m);
    OwnField(Shr(c, s), m, NormFromMask(m));
    DownAndUp(c, m, s);
  }

  /** The slow path on equal layouts: a re-packed pixel keeps its fields and loses all else. */
  lemma UnpackPack(l: Layout, c: word)
    requires WellFormed(l)
    ensures Pack(l, Unpack(l, c)) == InFields(l, c)
  {
    hide And, Or, Shl, Shr, Limit, NormFromMask, Red, Green, Blue, Unpack;
    UnpackedParts(l, c);
    FieldAgain(c, l.rmask, l.rshift);
    FieldAgain(c, l.gmask, l.gshift);
    FieldAgain(c, l.bmask, l.bshift);
    var fr, fg, fb := And(c, Shl(l.rmask, l.rshift)), And(c, Shl(l.gmask, l.gshift)), And(c, Shl(l.bmask, l.bshift));
    AndOr(Or(fr, fg), fb, Limit(l.bpp));
    AndOr(fr, fg, Limit(l.bpp));
    AndAssoc(c, Shl(l.rmask, l.rshift), Limit(l.bpp));
    AndAssoc(c, Shl(l.gmask, l.gshift), Limit(l.bpp));
    AndAssoc(c, Shl(l.bmask, l.bshift), Limit(l.bpp));
  }

  /** A quantised colour is the colour of some pixel; quantising it again changes nothing. */
  lemma UnpackQuantised(l: Layout, c: word)
    requires WellFormed(l)
    ensures Quantised(l, Unpack(l, c)) == Unpack(l, c)
  {
    hide And, Shl, Shr, NormFromMask, Red, Green, Blue;
    UnpackedParts(l, c);
  }

  /** Every packed pixel is canonical. */
  lemma PackCanonical(l: Layout, col: word)
    requires WellFormed(l)
    ensures Canonical(l, Pack(l, col))
    ensures Pack(l, Unpack(l, Pack(l, col))) == Pack(l, col)
  {
    UnpackPack(l, Pack(l, col));
    PackUnpack(l, col);
    QuantisedPacksAlike(l, col);
  }

  lemma QuantisedPacksAlike(l: Layout, col: word)
    requires WellFormed(l)
    ensures Pack(l, Quantised(l, col)) == Pack(l, col)
  {
    hide And, Or, Shl, Shr, Limit, NormFromMask, Red, Green, Blue, Rgb;
    QuantisedField(Red(col), l.rmask, l.rshift);
    QuantisedField(Green(col), l.gmask, l.gshift);
    QuantisedField(Blue(col), l.bmask, l.bshift);
    RgbParts(And(Red(col), Kept(l.rmask)), And(Green(col), Kept(l.gmask)), And(Blue(col), Kept(l.bmask)));
  }

  lemma QuantisedField(x: word, m: word, s: nat)
    requires m <= 0xff
    ensures And(x, Kept(m)) <= 0xff
    ensures Field(And(x, Kept(m)), m, s) == Field(x, m, s)
  {
    hide And, Shl, Shr, NormFromMask;
    var n := NormFromMask(m);
    KeptFits(m);
    AndBelow(x, Kept(m));
    ShrAnd(x, Kept(m), n);
    AndAssoc(Shr(x, n), m, m);
    AndLaws(m, m);
  }

  /** Each channel of `a` fits in the same channel of `b`. */
  predicate Narrower(a: Layout, b: Layout) {
    && And(Kept(a.rmask), Kept(b.rmask)) == Kept(a.rmask)
    && And(Kept(a.gmask), Kept(b.gmask)) == Kept(a.gmask)
    && And(Kept(a.bmask), Kept(b.bmask)) == Kept(a.bmask)
  }

  /** Widening loses nothing: a canonical pixel comes back from any wider layout. */
  lemma WidenAndBack(a: Layout, b: Layout, c: word)
    requires WellFormed(a) && WellFormed(b) && Narrower(a, b) && Canonical(a, c)
    ensures Pack(a, Unpack(b, Pack(b, Unpack(a, c)))) == c
  {
    hide And, Or, Shl, Shr, NormFromMask, Red, Green, Blue, Rgb, Pack, Unpack, InFields, Kept;
    var col := Unpack(a, c);
    PackUnpack(b, col);
    UnpackPack(a, c);
    UnpackQuantised(a, c);
    UnpackedParts(a, c);
    AndAssoc(Red(col), Kept(a.rmask), Kept(b.rmask));
    AndAssoc(Green(col), Kept(a.gmask), Kept(b.gmask));
    AndAssoc(Blue(col), Kept(a.bmask), Kept(b.bmask));
  }

  /** The three built-in layouts are well formed, and wider in the order of their size. */
  lemma BuiltInLayouts()
    ensures WellFormed(FB8) && WellFormed(FB16) && WellFormed(FB32)
  {
    BuiltInFB8();
    BuiltInFB16();
    BuiltInFB32();
  }

  lemma BuiltInFB8()
    ensures WellFormed(FB8)
  {
    assert Shl(7, 0) == 7 && Shl(7, 3) == 0x38 && Shl(3, 6) == 0xc0;
    assert Shr(7, 0) == 7 && Shr(0x38, 3) == 7 && Shr(0xc0, 6) == 3;
  }

  lemma BuiltInFB16()
    ensures WellFormed(FB16)
  {
    assert Shl(0x1f, 0) == 0x1f && Shr(0x1f, 0) == 0x1f;
    assert Shl(0x3f, 5) == 0x7e0 && Shr(0x7e0, 5) == 0x3f;
    ShlTwice(0x1f, 5, 6);
    assert Shl(0x1f, 5) == 0x3e0 && Shl(0x3e0, 6) == 0xf800;
    ShrTwice(0xf800, 6, 5);
    assert Shr(0xf800, 6) == 0x3e0 && Shr(0x3e0, 5) == 0x1f;
  }

  lemma BuiltInFB32()
    ensures WellFormed(FB32)
  {
    assert Shl(0xff, 0) == 0xff && Shr(0xff, 0) == 0xff;
    EightUp();
    EightDown();
    hide Shl, Shr;
  }

  lemma EightUp()
    ensures Shl(0xff, 8) == 0xff00 && Shl(0xff, 16) == 0xff_0000
  {
    ShlTwice(0xff, 4, 4);
    ShlTwice(0xff, 8, 8);
    ShlTwice(0xff00, 4, 4);
    assert Shl(0xff, 4) == 0xff0 && Shl(0xff0, 4) == 0xff00;
    assert Shl(0xff00, 4) == 0xf_f000 && Shl(0xf_f000, 4) == 0xff_0000;
  }

  lemma EightDown()
    ensures Shr(0xff00, 8) == 0xff && Shr(0xff_0000, 16) == 0xff
  {
    ShrTwice(0xff00, 4, 4);
    ShrTwice(0xff_0000, 8, 8);
    ShrTwice(0xff_0000, 4, 4);
    assert Shr(0xff00, 4) == 0xff0 && Shr(0xff0, 4) == 0xff;
    assert Shr(0xff_0000, 4) == 0xf_f000 && Shr(0xf_f000, 4) == 0xff00;
  }

  lemma BuiltInNorms()
    ensures Kept(7) == 0xe0 && Kept(3) == 0xc0 && Kept(0x1f) == 0xf8 && Kept(0x3f) == 0xfc && Kept(0xff) == 0xff
  {
    assert Shl(7, 5) == 0xe0 && Shl(3, 6) == 0xc0 && Shl(0x1f, 3) == 0xf8 && Shl(0x3f, 2) == 0xfc;
  }

  lemma BuiltInNarrower()
    ensures Narrower(FB8, FB16) && Narrower(FB16, FB32) && Narrower(FB8, FB32)
  {
    hide Kept;
    BuiltInNorms();
  }
}
