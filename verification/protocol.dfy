/** The ProtocolVersion message (src/protocol.c; section 7.1.1 of RFC 6143). */
module Protocol {
  import opened Words

  datatype Version = V3 | V7 | V8

  /** "RFB 003.00" */
  const PREFIX: seq<byte> := [82, 70, 66, 32, 48, 48, 51, 46, 48, 48]
  const NEWLINE: byte := 10

  function Digit(v: Version): byte {
    match v
    case V3 => 51
    case V7 => 55
    case V8 => 56
  }

  /** The twelve bytes that announce a version. */
  function VersionText(v: Version): (s: seq<byte>)
    ensures |s| == 12
  {
    PREFIX + [Digit(v), NEWLINE]
  }

  /** What the server makes of any twelve bytes. */
  function VersionOf(s: seq<byte>): Version
    requires |s| == 12
  {
    if s[..10] != PREFIX || s[11] != NEWLINE then V3
    else if s[10] == Digit(V8) then V8
    else if s[10] == Digit(V7) then V7
    else V3
  }

  /** The bytes of a text in ASCII. */
  function Ascii(text: string): (s: seq<byte>)
    requires forall i | 0 <= i < |text| :: text[i] as int < 128
    ensures |s| == |text|
  {
    seq(|text|, i requires 0 <= i < |text| => text[i] as int as byte)
  }

  /** The texts of section 7.1.1 of RFC 6143. */
  lemma VersionTexts()
    ensures VersionText(V3) == Ascii("RFB 003.003\n")
    ensures VersionText(V7) == Ascii("RFB 003.007\n")
    ensures VersionText(V8) == Ascii("RFB 003.008\n")
  {
  }

  /** Decoding is total, undoes encoding, and takes every other text for 3.3. */
  lemma VersionRoundTrip(v: Version, s: seq<byte>)
    requires |s| == 12
    ensures VersionOf(VersionText(v)) == v
    ensures VersionOf(s) == V8 <==> s == VersionText(V8)
    ensures VersionOf(s) == V7 <==> s == VersionText(V7)
    ensures s != VersionText(V7) && s != VersionText(V8) ==> VersionOf(s) == V3
  {
    assert VersionText(v)[..10] == PREFIX;
    assert s == s[..10] + [s[10], s[11]];
  }

  class VersionMessage {
    var proto: Version

    constructor (v: Version)
      ensures proto == v
    {
      proto := v;
    }

    /** A null buffer asks for the size; a short one is refused with the size. */
    method Encode(buf: array?<byte>, len: nat) returns (rc: int, len': nat)
      requires buf != null ==> len <= buf.Length
      modifies buf
      ensures len' == 12
      ensures rc == -1 <==> buf != null && len < 12
      ensures rc == 0 || rc == -1
      ensures buf != null && rc == 0 ==> buf[..] == VersionText(proto) + old(buf[12..])
      ensures buf != null && rc == -1 ==> buf[..] == old(buf[..])
    {
      if buf == null {
        return 0, 12;
      }
      if len < 12 {
        return -1, 12;
      }
      ghost var tail := buf[12..];
      forall k | 0 <= k < 12 {
        buf[k] := VersionText(V8)[k];
      }
      match proto {
        case V3 => buf[10] := Digit(V3);
        case V7 => buf[10] := Digit(V7);
        case V8 => buf[10] := Digit(V8);
      }
      assert buf[..12] == VersionText(proto);
      assert buf[12..] == tail;
      assert buf[..] == buf[..12] + buf[12..];
      return 0, 12;
    }

    method Decode(buf: array<byte>, len: nat) returns (rc: int)
      requires len <= buf.Length
      modifies this
      ensures rc == if len == 12 then 0 else -1
      ensures len == 12 ==> proto == VersionOf(buf[..12])
      ensures len != 12 ==> proto == old(proto)
    {
      if len != 12 {
        return -1;
      }
      rc := 0;
      assert buf[..12][..10] == buf[..10];
      if buf[..10] != PREFIX || buf[11] != NEWLINE {
        proto := V3;
      } else if buf[10] == Digit(V8) {
        proto := V8;
      } else if buf[10] == Digit(V7) {
        proto := V7;
      } else {
        proto := V3;
      }
    }
  }
}
