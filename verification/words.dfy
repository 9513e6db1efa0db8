/** Bytes, the big-endian numbers of the protocol, and 32-bit words with C's shifts. */
module Words {

  datatype Option<+T> = None | Some(value: T)

  newtype byte = i: int | 0 <= i < 256

  type u8 = n: nat | n < 0x100
  type u16 = n: nat | n < 0x1_0000
  type u32 = n: nat | n < 0x1_0000_0000

  /** A pixel word or a mask. */
  type word = bv32

  // Numbers as the protocol sends them: most significant byte first.

  function U16(hi: byte, lo: byte): (v: u16) {
    hi as nat * 256 + lo as nat
  }

  function Join16(hi: u16, lo: u16): (v: u32) {
    hi * 0x1_0000 + lo
  }

  function U32(a: byte, b: byte, c: byte, d: byte): (v: u32) {
    Join16(U16(a, b), U16(c, d))
  }

  function Bytes16(v: u16): (s: seq<byte>)
    ensures |s| == 2 && U16(s[0], s[1]) == v
  {
    Digits16(v);
    var hi: byte, lo: byte :| U16(hi, lo) == v;
    [hi, lo]
  }

  function Bytes32(v: u32): (s: seq<byte>)
    ensures |s| == 4 && U32(s[0], s[1], s[2], s[3]) == v
  {
    Digits32(v);
    var hi: u16, lo: u16 :| Join16(hi, lo) == v;
    Bytes16(hi) + Bytes16(lo)
  }

  lemma Digits16(v: u16)
    ensures exists hi: byte, lo: byte :: U16(hi, lo) == v
  {
    assert U16((v / 256) as byte, (v % 256) as byte) == v;
  }

  lemma Digits32(v: u32)
    ensures exists hi: u16, lo: u16 :: Join16(hi, lo) == v
    ensures forall hi: u16, lo: u16, hi': u16, lo': u16 ::
              Join16(hi, lo) == v && Join16(hi', lo') == v ==> hi == hi' && lo == lo'
  {
    assert Join16(v / 0x1_0000, v % 0x1_0000) == v;
    forall hi: u16, lo: u16, hi': u16, lo': u16 | Join16(hi, lo) == v && Join16(hi', lo') == v
      ensures hi == hi' && lo == lo'
    {
      SameHalves(hi, lo, hi', lo');
    }
  }

  lemma SameHalves(hi: u16, lo: u16, hi': u16, lo': u16)
    requires Join16(hi, lo) == Join16(hi', lo')
    ensures hi == hi' && lo == lo'
  {
  }

  lemma SameBytes16(hi: byte, lo: byte, hi': byte, lo': byte)
    requires U16(hi, lo) == U16(hi', lo')
    ensures hi == hi' && lo == lo'
  {
  }

  lemma Bytes16Of(hi: byte, lo: byte)
    ensures Bytes16(U16(hi, lo)) == [hi, lo]
  {
  }

  lemma Bytes32Of(a: byte, b: byte, c: byte, d: byte)
    ensures Bytes32(U32(a, b, c, d)) == [a, b, c, d]
  {
    hide Bytes32, U16, Join16;
    var s := Bytes32(U32(a, b, c, d));
    SameHalves(U16(s[0], s[1]), U16(s[2], s[3]), U16(a, b), U16(c, d));
    SameBytes16(s[0], s[1], a, b);
    SameBytes16(s[2], s[3], c, d);
  }

  // What those numbers are: the bytes are the digits of base 256, the first one the highest.

  function Value(s: seq<byte>): (v: nat)
    ensures s == [] ==> v == 0
  {
    if s == [] then 0 else 256 * Value(s[..|s| - 1]) + s[|s| - 1] as nat
  }

  lemma ValueOfOne(a: byte)
    ensures Value([a]) == a as nat
  {
    assert [a][..0] == [];
  }

  lemma ValueOfTwo(a: byte, b: byte)
    ensures Value([a, b]) == U16(a, b)
  {
    assert [a, b][..1] == [a];
    ValueOfOne(a);
  }

  lemma ValueOfFour(a: byte, b: byte, c: byte, d: byte)
    ensures Value([a, b, c, d]) == U32(a, b, c, d)
  {
    assert [a, b, c, d][..3] == [a, b, c] && [a, b, c][..2] == [a, b];
    ValueOfTwo(a, b);
  }

  lemma SmallValue(b: byte)
    ensures Value([0, b]) == b as nat && Value([0, 0, 0, b]) == b as nat
  {
    hide Value;
    ValueOfTwo(0, b);
    ValueOfFour(0, 0, 0, b);
  }

  lemma Bytes16Value(v: u16)
    ensures Value(Bytes16(v)) == v
  {
    hide Value, U16, Bytes16;
    var s := Bytes16(v);
    assert s == [s[0], s[1]];
    ValueOfTwo(s[0], s[1]);
  }

  lemma Bytes32Value(v: u32)
    ensures Value(Bytes32(v)) == v
  {
    hide Value, U32, Bytes32;
    var s := Bytes32(v);
    assert s == [s[0], s[1], s[2], s[3]];
    ValueOfFour(s[0], s[1], s[2], s[3]);
  }

  /** The numbers that are read and written are the values of their bytes. */
  lemma NumbersAreValues(a: byte, b: byte, c: byte, d: byte, v: u16, w: u32)
    ensures U16(a, b) == Value([a, b])
    ensures U32(a, b, c, d) == Value([a, b, c, d])
    ensures |Bytes16(v)| == 2 && Value(Bytes16(v)) == v
    ensures |Bytes32(w)| == 4 && Value(Bytes32(w)) == w
  {
    hide Value, U16, U32, Bytes16, Bytes32;
    ValueOfTwo(a, b);
    ValueOfFour(a, b, c, d);
    Bytes16Value(v);
    Bytes32Value(w);
  }

  // Bit operations. They are named so that the algebra below can hide their definitions.

  function And(x: word, y: word): word {
    x & y
  }

  function Or(x: word, y: word): word {
    x | y
  }

  function Up(x: word): word {
    x << 1
  }

  function Down(x: word): word {
    x >> 1
  }

  // C's shifts, one place at a time, so that a shift by the word's width or more gives 0.

  function Shl(x: word, s: nat): word
    decreases s
  {
    if s == 0 then x else Shl(Up(x), s - 1)
  }

  function Shr(x: word, s: nat): word {
    if s == 0 then x else Down(Shr(x, s - 1))
  }

  const ONES: word := 0xffff_ffff

  lemma UpAnd(x: word, y: word)
    ensures Up(And(x, y)) == And(Up(x), Up(y))
  {
  }

  lemma DownAnd(x: word, y: word)
    ensures Down(And(x, y)) == And(Down(x), Down(y))
  {
  }

  lemma DownOr(x: word, y: word)
    ensures Down(Or(x, y)) == Or(Down(x), Down(y))
  {
  }

  lemma DownUp(x: word, k: word)
    ensures Down(And(Up(x), k)) == And(x, Down(k))
  {
  }

  lemma UpDown(x: word)
    ensures Up(Down(x)) == And(x, 0xffff_fffe)
  {
  }

  lemma UpOnes()
    ensures Up(ONES) == 0xffff_fffe
  {
  }

  lemma AndAssoc(x: word, y: word, z: word)
    ensures And(And(x, y), z) == And(x, And(y, z))
  {
  }

  lemma AndLaws(x: word, y: word)
    ensures And(x, y) == And(y, x)
    ensures And(x, x) == x
    ensures And(x, ONES) == x
    ensures And(ONES, x) == x
  {
  }

  lemma AndOr(x: word, y: word, z: word)
    ensures And(Or(x, y), z) == Or(And(x, z), And(y, z))
  {
  }

  lemma OrLaws(x: word)
    ensures Or(x, 0) == x
    ensures Or(0, x) == x
    ensures And(x, 0) == 0
    ensures And(0, x) == 0
  {
  }

  lemma {:induction false} ShlAnd(x: word, y: word, s: nat)
    ensures Shl(And(x, y), s) == And(Shl(x, s), Shl(y, s))
    decreases s
  {
    hide And, Up;
    if s > 0 {
      UpAnd(x, y);
      ShlAnd(Up(x), Up(y), s - 1);
    }
  }

  lemma {:induction false} ShrAnd(x: word, y: word, s: nat)
    ensures Shr(And(x, y), s) == And(Shr(x, s), Shr(y, s))
  {
    hide And, Down;
    if s > 0 {
      DownAnd(Shr(x, s - 1), Shr(y, s - 1));
      ShrAnd(x, y, s - 1);
    }
  }

  lemma {:induction false} ShrOr(x: word, y: word, s: nat)
    ensures Shr(Or(x, y), s) == Or(Shr(x, s), Shr(y, s))
  {
    hide Or, Down;
    if s > 0 {
      DownOr(Shr(x, s - 1), Shr(y, s - 1));
      ShrOr(x, y, s - 1);
    }
  }

  lemma {:induction false} ShiftZero(s: nat)
    ensures Shr(0, s) == 0
    ensures Shl(0, s) == 0
  {
    if s > 0 {
      ShiftZero(s - 1);
    }
  }

  lemma {:induction false} ShlTwice(x: word, s: nat, t: nat)
    ensures Shl(x, s + t) == Shl(Shl(x, s), t)
    decreases s
  {
    hide Up;
    if s > 0 {
      ShlTwice(Up(x), s - 1, t);
    }
  }

  lemma {:induction false} ShrTwice(x: word, s: nat, t: nat)
    ensures Shr(x, s + t) == Shr(Shr(x, s), t)
    decreases t
  {
    hide Down;
    if t > 0 {
      ShrTwice(x, s, t - 1);
    }
  }

  lemma DownMore(x: word)
    ensures Down(x) == x >> 1 && Down(x >> 1) == x >> 2 && Down(x >> 2) == x >> 3 && Down(x >> 3) == x >> 4
    ensures Down(x >> 4) == x >> 5 && Down(x >> 5) == x >> 6 && Down(x >> 6) == x >> 7 && Down(x >> 7) == x >> 8
  {
  }

  lemma ShrBy(x: word)
    ensures Shr(x, 0) == x && Shr(x, 1) == x >> 1 && Shr(x, 2) == x >> 2 && Shr(x, 3) == x >> 3 && Shr(x, 4) == x >> 4
    ensures Shr(x, 5) == x >> 5 && Shr(x, 6) == x >> 6 && Shr(x, 7) == x >> 7 && Shr(x, 8) == x >> 8
  {
    DownMore(x);
    hide Down;
    assert Shr(x, 1) == x >> 1;
    assert Shr(x, 2) == x >> 2;
    assert Shr(x, 3) == x >> 3;
    assert Shr(x, 4) == x >> 4;
    assert Shr(x, 5) == x >> 5;
    assert Shr(x, 6) == x >> 6;
    assert Shr(x, 7) == x >> 7;
  }

  lemma ShrByEight(x: word)
    ensures Shr(x, 8) == x >> 8
  {
    ShrBy(x);
  }

  lemma UpMore(x: word)
    ensures Up(Up(x)) == x << 2 && Up(x << 2) == x << 3 && Up(Up(x << 3)) == x << 5
    ensures Up(x << 5) == x << 6 && Up(Up(Up(Up(Up(x << 6))))) == x << 11
  {
  }

  lemma ShlTwo(x: word)
    ensures Shl(x, 1) == Up(x) && Shl(x, 2) == Up(Up(x))
  {
  }

  lemma ShlBy(x: word)
    ensures Shl(x, 3) == x << 3 && Shl(x, 5) == x << 5 && Shl(x, 6) == x << 6 && Shl(x, 11) == x << 11
  {
    UpMore(x);
    hide Shl, Up;
    ShlTwo(x);
    ShlTwo(x << 2);
    ShlTwo(x << 3);
    ShlTwo(x << 5);
    ShlTwo(x << 6);
    ShlTwo(Up(Up(x << 6)));
    ShlTwo(Up(Up(Up(Up(x << 6)))));
    ShlTwice(x, 2, 1);
    ShlTwice(x, 3, 2);
    ShlTwice(x, 5, 1);
    ShlTwice(x, 6, 2);
    ShlTwice(x, 8, 2);
    ShlTwice(x, 10, 1);
  }

  /** Shifting up and back down drops the bits that left the word at the top. */
  lemma {:induction false} ShrShl(x: word, s: nat)
    ensures Shr(Shl(x, s), s) == And(x, Shr(ONES, s))
    decreases s
  {
    hide And, Up, Down;
    if s == 0 {
      AndLaws(x, x);
    } else {
      ShrShl(Up(x), s - 1);
      DownUp(x, Shr(ONES, s - 1));
    }
  }

  /** Shifting down and back up clears the low bits. */
  lemma {:induction false} ShlShr(x: word, s: nat)
    ensures Shl(Shr(x, s), s) == And(x, Shl(ONES, s))
  {
    hide And, Up, Down;
    if s == 0 {
      AndLaws(x, x);
    } else {
      var y, k := Shr(x, s - 1), 0xffff_fffe;
      calc {
        Shl(Shr(x, s), s);
        { UpDown(y); }
        Shl(And(y, k), s - 1);
        { ShlAnd(y, k, s - 1); ShlShr(x, s - 1); }
        And(And(x, Shl(ONES, s - 1)), Shl(k, s - 1));
        { AndAssoc(x, Shl(ONES, s - 1), Shl(k, s - 1)); ShlAnd(ONES, k, s - 1); }
        And(x, Shl(And(ONES, k), s - 1));
        { AndLaws(k, k); UpOnes(); }
        And(x, Shl(ONES, s));
      }
    }
  }

  // Bytes and their bits.

  /** The low `k` bits of a number. */
  function FromNat(n: nat, k: nat): word
    decreases k
  {
    if k == 0 then 0 else Or(Up(FromNat(n / 2, k - 1)), if n % 2 == 1 then 1 else 0)
  }

  /** The number in the low `k` bits of a word. */
  function ToNat(w: word, k: nat): (n: nat)
    decreases k
  {
    if k == 0 then 0 else 2 * ToNat(Down(w), k - 1) + if And(w, 1) == 1 then 1 else 0
  }

  function Bits(b: byte): word {
    FromNat(b as nat, 8)
  }

  function FromBits(w: word): (b: byte) {
    ToNatBound(w, 8);
    ToNat(w, 8) as byte
  }

  function Pow2(k: nat): nat {
    if k == 0 then 1 else 2 * Pow2(k - 1)
  }

  /** The word of `k` ones. */
  function Ones(k: nat): word {
    if k == 0 then 0 else Or(Up(Ones(k - 1)), 1)
  }

  lemma {:induction false} ToNatBound(w: word, k: nat)
    ensures ToNat(w, k) < Pow2(k)
    ensures Pow2(8) == 256
    decreases k
  {
    if k > 0 {
      ToNatBound(Down(w), k - 1);
    }
  }

  lemma OnesBound(k: nat)
    requires k <= 8
    ensures Ones(k) <= 0xff
    ensures Ones(8) == 0xff
  {
    assert Ones(4) == 0xf;
  }

  lemma LastBit(x: word, b: word)
    requires x <= 0x7fff_ffff && b <= 1
    ensures Down(Or(Up(x), b)) == x && And(Or(Up(x), b), 1) == b
  {
  }

  lemma SplitBit(x: word)
    ensures Or(Up(Down(x)), And(x, 1)) == x
    ensures And(x, 1) == 0 || And(x, 1) == 1
  {
  }

  lemma AppendBound(x: word, m: word, b: word)
    requires x <= m <= 0x7fff_ffff && b <= 1
    ensures Or(Up(x), b) <= Or(Up(m), 1)
  {
  }

  /** The word has no bit at position `k` or above. */
  predicate Fits(w: word, k: nat)
    decreases k
  {
    if k == 0 then w == 0 else Fits(Down(w), k - 1)
  }

  lemma ByteFits(w: word)
    requires w <= 0xff
    ensures Fits(w, 8)
  {
    assert Fits(Down(Down(Down(Down(w)))), 4);
  }

  lemma Halves(n: nat, low: nat)
    requires low < 2
    ensures (2 * n + low) / 2 == n && (2 * n + low) % 2 == low
  {
  }

  lemma {:induction false} FromNatBound(n: nat, k: nat)
    requires k <= 8
    ensures FromNat(n, k) <= Ones(k) <= 0xff
    decreases k
  {
    OnesBound(k);
    if k > 0 {
      hide Or, Up, And, Down;
      FromNatBound(n / 2, k - 1);
      AppendBound(FromNat(n / 2, k - 1), Ones(k - 1), if n % 2 == 1 then 1 else 0);
    }
  }

  lemma {:induction false} ToNatFromNat(n: nat, k: nat)
    requires k <= 8 && n < Pow2(k)
    ensures ToNat(FromNat(n, k), k) == n
    decreases k
  {
    if k > 0 {
      hide Or, Up, And, Down;
      FromNatBound(n / 2, k - 1);
      LastBit(FromNat(n / 2, k - 1), if n % 2 == 1 then 1 else 0);
      ToNatFromNat(n / 2, k - 1);
    }
  }

  lemma {:induction false} FromNatToNat(w: word, k: nat)
    requires Fits(w, k)
    ensures FromNat(ToNat(w, k), k) == w
    decreases k
  {
    if k > 0 {
      hide Or, Up, And, Down;
      var low := if And(w, 1) == 1 then 1 else 0;
      Halves(ToNat(Down(w), k - 1), low);
      calc {
        FromNat(ToNat(w, k), k);
        Or(Up(FromNat(ToNat(Down(w), k - 1), k - 1)), if low == 1 then 1 else 0);
        { FromNatToNat(Down(w), k - 1); }
        Or(Up(Down(w)), if low == 1 then 1 else 0);
        { SplitBit(w); }
        w;
      }
    }
  }

  // The number in a word.

  /** Words are numbered from zero, in order: the word with the next number is the next word. */
  lemma WordsAreNumbered(w: word)
    ensures ToNat(0, 32) == 0
    ensures w != ONES ==> ToNat(w + 1, 32) == ToNat(w, 32) + 1
  {
    hide And, Down, Fits, ToNat;
    AllFit(w);
    AllFit(w + 1);
    NumbersCount(w, 32);
  }

  lemma {:induction false} NumbersCount(w: word, k: nat)
    requires Fits(w, k)
    ensures ToNat(0, k) == 0
    ensures w != ONES && Fits(w + 1, k) ==> ToNat(w + 1, k) == ToNat(w, k) + 1
    decreases k
  {
    hide And, Down;
    Successor(w);
    if k == 0 {
      assert w == 0;
    } else if w != ONES && Fits(w + 1, k) {
      assert Fits(Down(w + 1), k - 1);
      NumbersCount(Down(w), k - 1);
    } else {
      NumbersCount(Down(w), k - 1);
    }
  }

  lemma AllFit(w: word)
    ensures Fits(w, 32)
  {
    hide Down, Fits, Shr;
    FitsSplit(w, 8, 24);
    FitsSplit(Shr(w, 8), 8, 16);
    FitsSplit(Shr(Shr(w, 8), 8), 8, 8);
    ShrByEight(w);
    ShrByEight(w >> 8);
    ShrByEight((w >> 8) >> 8);
    ByteFits(((w >> 8) >> 8) >> 8);
  }

  lemma {:induction false} FitsSplit(w: word, j: nat, k: nat)
    ensures Fits(w, j + k) <==> Fits(Shr(w, j), k)
    decreases j
  {
    hide Down;
    if j > 0 {
      FitsSplit(Down(w), j - 1, k);
      ShrTwice(w, 1, j - 1);
      assert Shr(w, 1) == Down(Shr(w, 0));
    }
  }

  lemma Successor(w: word)
    ensures Down(0) == 0 && And(0, 1) == 0
    ensures And(w, 1) == 0 || And(w, 1) == 1
    ensures w != ONES && And(w, 1) == 0 ==> And(w + 1, 1) == 1 && Down(w + 1) == Down(w)
    ensures w != ONES && And(w, 1) == 1 ==> And(w + 1, 1) == 0 && Down(w + 1) == Down(w) + 1 && Down(w) != ONES
  {
  }

  /** A word's number is that of its low bits and that of the rest, shifted down. */
  lemma {:induction false} ToNatSplit(w: word, j: nat, k: nat)
    ensures ToNat(w, j + k) == ToNat(w, j) + Pow2(j) * ToNat(Shr(w, j), k)
    decreases j
  {
    hide And, Down;
    if j > 0 {
      ToNatSplit(Down(w), j - 1, k);
      ShrTwice(w, 1, j - 1);
      assert Shr(w, 1) == Down(Shr(w, 0));
      Doubled(Pow2(j - 1), ToNat(Shr(w, j), k));
    }
  }

  lemma Doubled(a: nat, b: nat)
    ensures (2 * a) * b == 2 * (a * b)
  {
  }

  /** The lowest `k` bits are ones. */
  predicate LowOnes(m: word, k: nat)
    decreases k
  {
    k == 0 || (And(m, 1) == 1 && LowOnes(Down(m), k - 1))
  }

  /** The number in the low bits is not changed by cutting off the others. */
  lemma {:induction false} ToNatCut(w: word, m: word, k: nat)
    requires LowOnes(m, k)
    ensures ToNat(And(w, m), k) == ToNat(w, k)
    decreases k
  {
    hide And, Down;
    if k > 0 {
      AndAssoc(w, m, 1);
      DownAnd(w, m);
      ToNatCut(Down(w), Down(m), k - 1);
    }
  }

  lemma LowByte(w: word)
    ensures ToNat(And(w, 0xff), 8) == ToNat(w, 8)
  {
    assert Down(Down(Down(Down(0xff)))) == 0xf && LowOnes(0xf, 4);
    assert LowOnes(0xff, 8);
    ToNatCut(w, 0xff, 8);
  }

  /** Bytes and eight-bit words are the same thing. */
  lemma ByteBits(b: byte)
    ensures Bits(b) <= 0xff && FromBits(Bits(b)) == b
  {
    ToNatBound(0, 8);
    FromNatBound(b as nat, 8);
    ToNatFromNat(b as nat, 8);
  }

  lemma BitsByte(w: word)
    requires w <= 0xff
    ensures Bits(FromBits(w)) == w
  {
    ByteFits(w);
    FromNatToNat(w, 8);
  }
}
