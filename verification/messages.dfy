/** Client messages: their encoding (section 7.5 of RFC 6143) and how the server takes them apart. */
module Messages {
  import opened Words
  import opened Framebuffers

  datatype Message =
    | SetPixelFormat(format: Format)
    | SetEncodings(encodings: seq<u32>)
    | UpdateRequest(incremental: byte, x: u16, y: u16, width: u16, height: u16)
    | KeyEvent(down: byte, key: u32)
    | PointerEvent(buttons: byte, px: u16, py: u16)
    | CutText(len: nat, text: seq<byte>)

  // ---------------------------------------------------------------------------------------
  // Encoding
  // ---------------------------------------------------------------------------------------

  function FormatBytes(f: Format): (s: seq<byte>)
    ensures |s| == 13
  {
    [f.bpp as byte, f.depth as byte, f.bigEndian as byte, f.trueColour as byte]
    + Bytes16(f.rmax) + Bytes16(f.gmax) + Bytes16(f.bmax)
    + [f.rshift as byte, f.gshift as byte, f.bshift as byte]
  }

  function EncodingBytes(es: seq<u32>): (s: seq<byte>)
    ensures |s| == 4 * |es|
  {
    if es == [] then [] else Bytes32(es[0]) + EncodingBytes(es[1..])
  }

  /** Messages the encoding can carry; the text's length is what it says it is. */
  predicate Encodable(m: Message) {
    match m
    case SetEncodings(es) => |es| < 0x1_0000
    case CutText(len, text) => len == |text| < 0x1_0000_0000
    case _ => true
  }

  /** The bytes of a message; `pad` fills the places whose content the protocol leaves open. */
  function Encode(m: Message, pad: seq<byte>): (s: seq<byte>)
    requires Encodable(m) && |pad| == 6
    ensures |s| >= 4
  {
    match m
    case SetPixelFormat(f) => [0, pad[0], pad[1], pad[2]] + FormatBytes(f) + pad[3..6]
    case SetEncodings(es) => [2, pad[0]] + Bytes16(|es|) + EncodingBytes(es)
    case UpdateRequest(i, x, y, w, h) => [3, i] + Bytes16(x) + Bytes16(y) + Bytes16(w) + Bytes16(h)
    case KeyEvent(down, key) => [4, down, pad[0], pad[1]] + Bytes32(key)
    case PointerEvent(b, x, y) => [5, b] + Bytes16(x) + Bytes16(y)
    case CutText(len, text) => [6, pad[0], pad[1], pad[2]] + Bytes32(len) + text
  }

  /** A message on its way, with what fills its padding. */
  datatype RawPacket = RawPacket(message: Message, pad: seq<byte>)

  type Packet = p: RawPacket | Encodable(p.message) && |p.pad| == 6
    witness RawPacket(KeyEvent(0, 0), [0, 0, 0, 0, 0, 0])

  function Bytes(p: Packet): seq<byte> {
    Encode(p.message, p.pad)
  }

  // ---------------------------------------------------------------------------------------
  // Parsing
  // ---------------------------------------------------------------------------------------

  /**
   * What the server makes of the bytes it has: not a whole message yet, a message of `used`
   * bytes, or a reason to give the client up, found after `used` bytes.
   */
  datatype Parsed = Partial | Refused(used: nat) | Done(message: Message, used: nat)

  function FormatOf(s: seq<byte>): Format
    requires |s| == 13
  {
    Format(
      s[0] as u8, s[1] as u8, s[2] as u8, s[3] as u8,
      U16(s[4], s[5]), U16(s[6], s[7]), U16(s[8], s[9]),
      s[10] as u8, s[11] as u8, s[12] as u8)
  }

  function EncodingsOf(s: seq<byte>, cnt: nat): (es: seq<u32>)
    requires |s| == 4 * cnt
    ensures |es| == cnt
  {
    if cnt == 0 then [] else [U32(s[0], s[1], s[2], s[3])] + EncodingsOf(s[4..], cnt - 1)
  }

  /**
   * The length of a cut text goes through a signed 32-bit expression into a 64-bit size. A
   * length of 2^31 or more asks for nearly 2^64 bytes, which no allocator has; 2^32 - 1 wraps
   * round to an allocation of nothing, after which no text is read.
   */
  function Parse(s: seq<byte>, memory: bool): (p: Parsed)
    ensures !p.Partial? ==> 0 < p.used <= |s|
  {
    if |s| < 1 then Partial
    else if s[0] == 0 then
      if |s| < 20 then Partial else Done(SetPixelFormat(FormatOf(s[4..17])), 20)
    else if s[0] == 2 then
      if |s| < 4 then Partial
      else
        var cnt := U16(s[2], s[3]);
        var end := 4 + 4 * cnt;
        if |s| < end then Partial else Done(SetEncodings(EncodingsOf(s[4..end], cnt)), end)
    else if s[0] == 3 then
      if |s| < 10 then Partial
      else Done(UpdateRequest(s[1], U16(s[2], s[3]), U16(s[4], s[5]), U16(s[6], s[7]), U16(s[8], s[9])), 10)
    else if s[0] == 4 then
      if |s| < 8 then Partial else Done(KeyEvent(s[1], U32(s[4], s[5], s[6], s[7])), 8)
    else if s[0] == 5 then
      if |s| < 6 then Partial else Done(PointerEvent(s[1], U16(s[2], s[3]), U16(s[4], s[5])), 6)
    else if s[0] == 6 then
      if |s| < 8 then Partial
      else ParseCutText(s, U32(s[4], s[5], s[6], s[7]), memory)
    else Refused(1)
  }

  function ParseCutText(s: seq<byte>, len: u32, memory: bool): Parsed
    requires |s| >= 8
  {
    if !Allocates(len, memory) then Refused(8)
    else if |s| < 8 + TextLength(len) then Partial
    else Done(CutText(SizeOf(len), s[8..8 + TextLength(len)]), 8 + TextLength(len))
  }

  /** The 64-bit size the announced length turns into. */
  function SizeOf(len: u32): nat {
    if len < 0x8000_0000 then len else 0xffff_ffff_0000_0000 + len
  }

  predicate Allocates(len: u32, memory: bool) {
    memory && (len < 0x8000_0000 || len == 0xffff_ffff)
  }

  /** How many bytes of text are read for it. */
  function TextLength(len: u32): nat {
    if len < 0x8000_0000 then len else 0
  }

  // ---------------------------------------------------------------------------------------
  // Parsing undoes encoding
  // ---------------------------------------------------------------------------------------

  lemma FormatRoundTrip(f: Format)
    ensures FormatOf(FormatBytes(f)) == f
  {
  }

  lemma FormatBytesOf(s: seq<byte>)
    requires |s| == 13
    ensures FormatBytes(FormatOf(s)) == s
  {
    Bytes16Of(s[4], s[5]);
    Bytes16Of(s[6], s[7]);
    Bytes16Of(s[8], s[9]);
  }

  lemma {:induction false} EncodingsRoundTrip(es: seq<u32>)
    ensures EncodingsOf(EncodingBytes(es), |es|) == es
  {
    if es != [] {
      EncodingsRoundTrip(es[1..]);
      assert EncodingBytes(es)[4..] == EncodingBytes(es[1..]);
    }
  }

  lemma {:induction false} EncodingBytesOf(s: seq<byte>, cnt: nat)
    requires |s| == 4 * cnt
    ensures EncodingBytes(EncodingsOf(s, cnt)) == s
  {
    if cnt > 0 {
      EncodingBytesOf(s[4..], cnt - 1);
      Bytes32Of(s[0], s[1], s[2], s[3]);
      assert s == [s[0], s[1], s[2], s[3]] + s[4..];
    }
  }

  /**
   * A message comes out as it went in and takes exactly its own bytes, whatever follows it:
   * always, except for a cut text of 2^31 bytes or more or one that finds no memory, and never
   * for one of those.
   */
  lemma ParseEncoded(p: Packet, rest: seq<byte>, memory: bool)
    ensures Parse(Bytes(p) + rest, memory) == Done(p.message, |Bytes(p)|)
            <==> (p.message.CutText? ==> memory && p.message.len < 0x8000_0000)
  {
    hide Encode, Parse;
    EncodedSize(p);
    match p.message
    case SetPixelFormat(f) => SetPixelFormatEncoded(f, p.pad, rest, memory);
    case SetEncodings(es) => SetEncodingsEncoded(es, p.pad, rest, memory);
    case UpdateRequest(_, _, _, _, _) => InputEncoded(p, rest, memory);
    case KeyEvent(_, key) => InputEncoded(p, rest, memory);
    case PointerEvent(_, x, y) => InputEncoded(p, rest, memory);
    case CutText(_, text) => CutTextEncoded(text, p.pad, rest, memory);
  }

  lemma EncodedSize(p: Packet)
    ensures |Bytes(p)| ==
            match p.message
            case SetPixelFormat(_) => 20
            case SetEncodings(es) => 4 + 4 * |es|
            case UpdateRequest(_, _, _, _, _) => 10
            case KeyEvent(_, _) => 8
            case PointerEvent(_, _, _) => 6
            case CutText(_, text) => 8 + |text|
  {
  }

  lemma SetPixelFormatEncoded(f: Format, pad: seq<byte>, rest: seq<byte>, memory: bool)
    requires |pad| == 6
    ensures Parse(Encode(SetPixelFormat(f), pad) + rest, memory) == Done(SetPixelFormat(f), 20)
  {
    hide FormatBytes, FormatOf;
    FormatRoundTrip(f);
    assert (Encode(SetPixelFormat(f), pad) + rest)[4..17] == FormatBytes(f);
  }

  lemma SetEncodingsEncoded(es: seq<u32>, pad: seq<byte>, rest: seq<byte>, memory: bool)
    requires |pad| == 6 && |es| < 0x1_0000
    ensures Parse(Encode(SetEncodings(es), pad) + rest, memory) == Done(SetEncodings(es), 4 + 4 * |es|)
  {
    hide Bytes16, U16, EncodingBytes, EncodingsOf;
    var s := Encode(SetEncodings(es), pad) + rest;
    EncodingsRoundTrip(es);
    assert s[4..4 + 4 * |es|] == EncodingBytes(es);
    var b := Bytes16(|es|);
    assert s[2] == b[0] && s[3] == b[1];
  }

  lemma InputEncoded(p: Packet, rest: seq<byte>, memory: bool)
    requires p.message.UpdateRequest? || p.message.KeyEvent? || p.message.PointerEvent?
    ensures Parse(Bytes(p) + rest, memory) == Done(p.message, |Bytes(p)|)
  {
    hide Bytes16, U16, Bytes32, U32;
  }

  lemma CutTextEncoded(text: seq<byte>, pad: seq<byte>, rest: seq<byte>, memory: bool)
    requires |pad| == 6 && |text| < 0x1_0000_0000
    ensures Parse(Encode(CutText(|text|, text), pad) + rest, memory) == Done(CutText(|text|, text), 8 + |text|)
            <==> memory && |text| < 0x8000_0000
  {
    hide Bytes32, U32;
    var s := Encode(CutText(|text|, text), pad) + rest;
    var b := Bytes32(|text|);
    assert s[4] == b[0] && s[5] == b[1] && s[6] == b[2] && s[7] == b[3];
    assert s[8..8 + |text|] == text;
  }

  /** The places of a message that carry nothing. */
  function PaddingOf(s: seq<byte>): (pad: seq<byte>)
    requires |s| >= 4
    ensures |pad| == 6
  {
    if s[0] == 0 && |s| >= 20 then s[1..4] + s[17..20]
    else if s[0] == 4 then [s[2], s[3], 0, 0, 0, 0]
    else if s[0] == 2 then [s[1], 0, 0, 0, 0, 0]
    else s[1..4] + [0, 0, 0]
  }

  /** Only an encoded message is ever taken for a message. */
  lemma ParsedIsEncoded(s: seq<byte>, memory: bool)
    requires Parse(s, memory).Done? && Encodable(Parse(s, memory).message)
    ensures var p := Parse(s, memory);
            4 <= p.used <= |s| && s[..p.used] == Encode(p.message, PaddingOf(s))
  {
    if s[0] == 0 {
      SetPixelFormatBytes(s);
    } else if s[0] == 2 {
      SetEncodingsBytes(s);
    } else if s[0] == 3 {
      UpdateRequestBytes(s);
    } else if s[0] == 4 {
      Bytes32Of(s[4], s[5], s[6], s[7]);
    } else if s[0] == 5 {
      Bytes16Of(s[2], s[3]);
      Bytes16Of(s[4], s[5]);
    } else {
      CutTextBytes(s, memory);
    }
  }

  lemma SetPixelFormatBytes(s: seq<byte>)
    requires |s| >= 20 && s[0] == 0
    ensures s[..20] == Encode(SetPixelFormat(FormatOf(s[4..17])), PaddingOf(s))
  {
    hide FormatOf, FormatBytes;
    FormatBytesOf(s[4..17]);
    assert s[..20] == s[..4] + s[4..17] + s[17..20];
  }

  lemma SetEncodingsBytes(s: seq<byte>)
    requires |s| >= 4 && s[0] == 2 && |s| >= 4 + 4 * U16(s[2], s[3])
    ensures var cnt := U16(s[2], s[3]);
            var end := 4 + 4 * cnt;
            s[..end] == Encode(SetEncodings(EncodingsOf(s[4..end], cnt)), PaddingOf(s))
  {
    hide U16;
    var end := 4 + 4 * U16(s[2], s[3]);
    Bytes16Of(s[2], s[3]);
    EncodingBytesOf(s[4..end], U16(s[2], s[3]));
    assert s[..end] == s[..4] + s[4..end];
  }

  lemma UpdateRequestBytes(s: seq<byte>)
    requires |s| >= 10 && s[0] == 3
    ensures s[..10] ==
            Encode(UpdateRequest(s[1], U16(s[2], s[3]), U16(s[4], s[5]), U16(s[6], s[7]), U16(s[8], s[9])),
              PaddingOf(s))
  {
    hide U16, Bytes16;
    Bytes16Of(s[2], s[3]);
    Bytes16Of(s[4], s[5]);
    Bytes16Of(s[6], s[7]);
    Bytes16Of(s[8], s[9]);
  }

  lemma CutTextBytes(s: seq<byte>, memory: bool)
    requires |s| >= 8 && s[0] == 6 && Parse(s, memory).Done? && Encodable(Parse(s, memory).message)
    ensures var p := Parse(s, memory);
            p.used <= |s| && s[..p.used] == Encode(p.message, PaddingOf(s))
  {
    hide U32, Bytes32;
    var p := Parse(s, memory);
    Bytes32Of(s[4], s[5], s[6], s[7]);
    assert s[..p.used] == s[..8] + s[8..p.used];
  }

  // ---------------------------------------------------------------------------------------
  // Where the fields are
  // ---------------------------------------------------------------------------------------

  /** The numbers of a message and where they stand, as sections 7.5.1 to 7.5.6 of RFC 6143 lay them out. */
  predicate FieldsAt(m: Message, s: seq<byte>) {
    match m
    case SetPixelFormat(f) =>
      && |s| == 20 && s[0] == 0
      && f.bpp == s[4] as nat && f.depth == s[5] as nat && f.bigEndian == s[6] as nat && f.trueColour == s[7] as nat
      && f.rmax == Value(s[8..10]) && f.gmax == Value(s[10..12]) && f.bmax == Value(s[12..14])
      && f.rshift == s[14] as nat && f.gshift == s[15] as nat && f.bshift == s[16] as nat
    case SetEncodings(es) =>
      && |s| == 4 + 4 * |es| && s[0] == 2 && |es| == Value(s[2..4])
      && forall i: nat {:trigger es[i]} | i < |es| :: es[i] == Value(s[4 + 4 * i..8 + 4 * i])
    case UpdateRequest(incremental, x, y, width, height) =>
      && |s| == 10 && s[0] == 3 && incremental == s[1]
      && x == Value(s[2..4]) && y == Value(s[4..6]) && width == Value(s[6..8]) && height == Value(s[8..10])
    case KeyEvent(down, key) =>
      |s| == 8 && s[0] == 4 && down == s[1] && key == Value(s[4..8])
    case PointerEvent(buttons, px, py) =>
      |s| == 6 && s[0] == 5 && buttons == s[1] && px == Value(s[2..4]) && py == Value(s[4..6])
    case CutText(len, text) =>
      && |s| == 8 + |text| && s[0] == 6 && text == s[8..]
      && (if Value(s[4..8]) < 0x8000_0000 then len == Value(s[4..8]) == |text|
          else Value(s[4..8]) == 0xffff_ffff && len == 0xffff_ffff_ffff_ffff && text == [])
  }

  /** Every message that is parsed has its fields at their places, and each number is its bytes' value. */
  lemma ParsedFields(s: seq<byte>, memory: bool)
    requires Parse(s, memory).Done?
    ensures FieldsAt(Parse(s, memory).message, s[..Parse(s, memory).used])
  {
    hide FieldsAt, U16, U32, FormatOf, EncodingsOf;
    if s[0] == 0 {
      FormatFields(s);
    } else if s[0] == 2 {
      EncodingsFields(s);
    } else {
      InputFields(s, memory);
    }
  }

  lemma ValueAt2(s: seq<byte>, t: seq<byte>, i: nat)
    requires i + 2 <= |s| && s <= t
    ensures Value(s[i..i + 2]) == U16(t[i], t[i + 1])
  {
    assert s[i..i + 2] == [t[i], t[i + 1]];
    ValueOfTwo(t[i], t[i + 1]);
  }

  lemma ValueAt4(s: seq<byte>, t: seq<byte>, i: nat)
    requires i + 4 <= |s| && s <= t
    ensures Value(s[i..i + 4]) == U32(t[i], t[i + 1], t[i + 2], t[i + 3])
  {
    assert s[i..i + 4] == [t[i], t[i + 1], t[i + 2], t[i + 3]];
    ValueOfFour(t[i], t[i + 1], t[i + 2], t[i + 3]);
  }

  lemma FormatFields(s: seq<byte>)
    requires |s| >= 20 && s[0] == 0
    ensures FieldsAt(SetPixelFormat(FormatOf(s[4..17])), s[..20])
  {
    hide U16, Value;
    ValueAt2(s[..20], s, 8);
    ValueAt2(s[..20], s, 10);
    ValueAt2(s[..20], s, 12);
  }

  lemma {:induction false} EncodingAt(s: seq<byte>, cnt: nat, i: nat)
    requires |s| == 4 * cnt && i < cnt
    ensures EncodingsOf(s, cnt)[i] == Value(s[4 * i..4 * i + 4])
  {
    hide U32, Value;
    if i == 0 {
      ValueAt4(s, s, 0);
    } else {
      EncodingAt(s[4..], cnt - 1, i - 1);
      assert s[4..][4 * (i - 1)..4 * (i - 1) + 4] == s[4 * i..4 * i + 4];
    }
  }

  lemma EncodingsFields(s: seq<byte>)
    requires |s| >= 4 && s[0] == 2 && |s| >= 4 + 4 * U16(s[2], s[3])
    ensures var end := 4 + 4 * U16(s[2], s[3]);
            FieldsAt(SetEncodings(EncodingsOf(s[4..end], U16(s[2], s[3]))), s[..end])
  {
    hide U16, Value, EncodingsOf;
    var cnt: nat := U16(s[2], s[3]);
    var end := 4 + 4 * cnt;
    ValueAt2(s[..end], s, 2);
    forall i: nat | i < cnt
      ensures EncodingsOf(s[4..end], cnt)[i] == Value(s[..end][4 + 4 * i..8 + 4 * i])
    {
      EncodingAt(s[4..end], cnt, i);
      assert s[4..end][4 * i..4 * i + 4] == s[..end][4 + 4 * i..8 + 4 * i];
    }
  }

  lemma InputFields(s: seq<byte>, memory: bool)
    requires Parse(s, memory).Done? && s[0] >= 3
    ensures FieldsAt(Parse(s, memory).message, s[..Parse(s, memory).used])
  {
    hide U16, U32, Value;
    var n := Parse(s, memory).used;
    if s[0] == 3 {
      ValueAt2(s[..n], s, 2);
      ValueAt2(s[..n], s, 4);
      ValueAt2(s[..n], s, 6);
      ValueAt2(s[..n], s, 8);
    } else if s[0] == 4 {
      ValueAt4(s[..n], s, 4);
    } else if s[0] == 5 {
      ValueAt2(s[..n], s, 2);
      ValueAt2(s[..n], s, 4);
    } else {
      ValueAt4(s[..n], s, 4);
      assert s[..n][8..] == s[8..n];
    }
  }

  /** What a message of each type needs, once its length is known; a text of 2^31 bytes or more is not waited for. */
  function Needed(s: seq<byte>): nat
    requires s != []
  {
    match s[0] as int
    case 0 => 20
    case 2 => if |s| < 4 then 4 else 4 + 4 * Value(s[2..4])
    case 3 => 10
    case 4 => 8
    case 5 => 6
    case 6 => if |s| < 8 || Value(s[4..8]) >= 0x8000_0000 then 8 else 8 + Value(s[4..8])
    case _ => 1
  }

  /**
   * A client is given up for a message exactly if its type is unknown, or it is a cut text without
   * memory or of 2^31 bytes or more, but for 2^32 - 1; any other message is done exactly when as
   * many bytes as it needs have come.
   */
  lemma ParseDecides(s: seq<byte>, memory: bool)
    ensures Parse(s, memory).Refused? <==>
            && s != []
            && (s[0] !in {0, 2, 3, 4, 5, 6}
                || (s[0] == 6 && |s| >= 8 && (!memory || 0x8000_0000 <= Value(s[4..8]) < 0xffff_ffff)))
    ensures Parse(s, memory).Done? ==> s != [] && |s| >= Needed(s) == Parse(s, memory).used
    ensures Parse(s, memory).Partial? ==> s == [] || |s| < Needed(s)
  {
    hide U16, U32, Value;
    if |s| >= 4 {
      ValueAt2(s, s, 2);
    }
    if |s| >= 8 {
      ValueAt4(s, s, 4);
    }
  }

  lemma SliceOfFront(s: seq<byte>, n: nat, t: seq<byte>, i: nat, j: nat)
    requires i <= j <= n <= |s|
    ensures (s[..n] + t)[i..j] == s[i..j]
  {
  }

  /** Parsing looks at the message's own bytes only, and says nothing before it has them all. */
  lemma ParseIsIncremental(s: seq<byte>, memory: bool, t: seq<byte>, k: nat)
    requires !Parse(s, memory).Partial?
    ensures Parse(s[..Parse(s, memory).used] + t, memory) == Parse(s, memory)
    ensures k < Parse(s, memory).used ==> Parse(s[..k], memory) == Partial
  {
    var n := Parse(s, memory).used;
    if Parse(s, memory).Done? {
      if s[0] == 0 {
        SliceOfFront(s, n, t, 4, 17);
      } else if s[0] == 2 {
        SliceOfFront(s, n, t, 4, n);
      } else if s[0] == 6 {
        SliceOfFront(s, n, t, 8, n);
      }
    }
  }
}
