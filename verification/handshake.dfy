/** From ProtocolVersion to ServerInit (sections 7.1.1 to 7.3.2 and Appendix A of RFC 6143). */
module Handshakes {
  import opened Words
  import opened Pixels
  import opened PixelMemory
  import opened Framebuffers
  import opened Protocol
  import opened Messages
  import opened Sessions

  datatype Progress = Awaiting | Rejected | Ready

  datatype Greeting = Greeting(out: seq<byte>, used: nat, progress: Progress)

  const SECURITY_NONE: byte := 1

  /** Version 3.3 is told its security type; 3.8 is told that security succeeded. */
  const SECURITY_IS_NONE: seq<byte> := [0, 0, 0, 1]
  const SECURITY_OK: seq<byte> := [0, 0, 0, 0]
  const SECURITY_TYPES: seq<byte> := [1, SECURITY_NONE]

  /** The pixel format announced to every client, then padding. */
  const ANNOUNCED := Format(32, 24, 0, 1, 255, 255, 255, 16, 8, 0)

  function ServerInit(width: u16, height: u16): (s: seq<byte>)
    ensures |s| == 28
  {
    Bytes16(width) + Bytes16(height)
    + [32, 24, 0, 1, 0, 255, 0, 255, 0, 255, 16, 8, 0, 0, 0, 0]
    + Bytes32(4) + [84, 69, 83, 84]
  }

  /** What the server has written once it has read `input`, and how far that got it. */
  function Greet(input: seq<byte>, width: u16, height: u16): (g: Greeting)
    ensures g.used <= |input|
    ensures g.progress == Ready ==> 13 <= g.used
  {
    var hello := VersionText(V8);
    if |input| < 12 then Greeting(hello, 0, Awaiting)
    else
      var v := VersionOf(input[..12]);
      if v == V3 then
        var offer := hello + SECURITY_IS_NONE;
        if |input| < 13 then Greeting(offer, 0, Awaiting)
        else Greeting(offer + ServerInit(width, height), 13, Ready)
      else
        var offer := hello + SECURITY_TYPES;
        if |input| < 13 then Greeting(offer, 0, Awaiting)
        else if input[12] != SECURITY_NONE then Greeting(offer, 13, Rejected)
        else
          var settled := if v == V8 then offer + SECURITY_OK else offer;
          if |input| < 14 then Greeting(settled, 0, Awaiting)
          else Greeting(settled + ServerInit(width, height), 14, Ready)
  }

  /** The whole life of a connection, given everything the client has sent so far. */
  ghost function Serve(input: seq<byte>, width: u16, height: u16, world: World): (t: Trace)
    requires FairWorld(world)
    ensures t.used <= |input|
  {
    var g := Greet(input, width, height);
    match g.progress
    case Awaiting => Trace(FRESH, 0, [], g.out, 0, Waiting)
    case Rejected => Trace(FRESH, 0, [], g.out, g.used, Failed)
    case Ready => Then(Trace(FRESH, 0, [], g.out, g.used, Waiting), Interpret(FRESH, 0, input[g.used..], world))
  }

  // ---------------------------------------------------------------------------------------
  // Conformance
  // ---------------------------------------------------------------------------------------

  /** The bytes a client of each version sends after its version text. */
  function ClientReply(v: Version, shared: byte): seq<byte> {
    match v
    case V3 => [shared]
    case V7 => [SECURITY_NONE, shared]
    case V8 => [SECURITY_NONE, shared]
  }

  /** The server's messages of each version, in order. */
  function ServerMessages(v: Version, width: u16, height: u16): seq<seq<byte>> {
    match v
    case V3 => [VersionText(V8), SECURITY_IS_NONE, ServerInit(width, height)]
    case V7 => [VersionText(V8), SECURITY_TYPES, ServerInit(width, height)]
    case V8 => [VersionText(V8), SECURITY_TYPES, SECURITY_OK, ServerInit(width, height)]
  }

  function Concat(parts: seq<seq<byte>>): seq<byte> {
    if parts == [] then [] else Concat(parts[..|parts| - 1]) + parts[|parts| - 1]
  }

  /**
   * Any twelve bytes settle a version; a client that goes on as that version does is answered
   * with that version's messages, and exactly its own bytes are used up.
   */
  lemma GreetingConforms(text: seq<byte>, shared: byte, rest: seq<byte>, width: u16, height: u16)
    requires |text| == 12
    ensures var v := VersionOf(text);
            Greet(text + ClientReply(v, shared) + rest, width, height) ==
            Greeting(Concat(ServerMessages(v, width, height)), 12 + |ClientReply(v, shared)|, Ready)
  {
    hide ServerInit, VersionText, VersionOf, Bytes32;
    var v := VersionOf(text);
    var input := text + ClientReply(v, shared) + rest;
    assert input[..12] == text;
    var parts := ServerMessages(v, width, height);
    assert Concat([]) == [];
    assert parts[..1] == [parts[0]] && Concat(parts[..1]) == parts[0] by {
      assert parts[..1][..0] == [];
    }
    assert parts[..2][..1] == parts[..1];
    assert Concat(parts[..2]) == parts[0] + parts[1];
    assert parts[..3][..2] == parts[..2];
    assert Concat(parts[..3]) == parts[0] + parts[1] + parts[2];
    if v == V8 {
      assert parts[..4] == parts && parts[..3] == parts[..|parts| - 1];
    } else {
      assert parts[..3] == parts;
    }
  }

  // ---------------------------------------------------------------------------------------
  // What the protocol asks of the server
  // ---------------------------------------------------------------------------------------

  /** Having heard `waits` more bytes, the server says `says`. */
  datatype Turn = Turn(waits: nat, says: seq<byte>)

  /** SecurityResult: failed, and why (section 7.1.3 of RFC 6143). */
  function SecurityFailed(reason: seq<byte>): seq<byte>
    requires |reason| < 0x1_0000_0000
  {
    Bytes32(1) + Bytes32(|reason|) + reason
  }

  /**
   * The server's turns after ProtocolVersion, for a server that offers no security only. Version
   * 3.3 is told the type. The later ones choose from the list, and whoever chooses anything else
   * is turned away: in 3.8 with a SecurityResult, in 3.7, which has one only after an
   * authentication, without (sections 7.1.2 and 7.1.3 and Appendix A of RFC 6143).
   */
  function Turns(v: Version, choice: Option<byte>, reason: seq<byte>, width: u16, height: u16): seq<Turn>
    requires |reason| < 0x1_0000_0000
  {
    var right := choice == Some(SECURITY_NONE);
    match v
    case V3 => [Turn(12, SECURITY_IS_NONE), Turn(1, ServerInit(width, height))]
    case V7 =>
      if right then [Turn(12, SECURITY_TYPES), Turn(2, ServerInit(width, height))]
      else [Turn(12, SECURITY_TYPES)]
    case V8 =>
      if right then [Turn(12, SECURITY_TYPES), Turn(1, SECURITY_OK), Turn(1, ServerInit(width, height))]
      else if choice.Some? then [Turn(12, SECURITY_TYPES), Turn(1, SecurityFailed(reason))]
      else [Turn(12, SECURITY_TYPES)]
  }

  /** Everything said by the time that `heard` bytes have come. */
  function Said(turns: seq<Turn>, heard: nat): seq<byte> {
    if turns == [] || heard < turns[0].waits then []
    else turns[0].says + Said(turns[1..], heard - turns[0].waits)
  }

  /** What the protocol has the server write, when the client has sent `input` and no more. */
  function Prescribed(input: seq<byte>, reason: seq<byte>, width: u16, height: u16): seq<byte>
    requires |reason| < 0x1_0000_0000
  {
    VersionText(V8) +
    if |input| < 12 then []
    else
      var choice := if |input| > 12 then Some(input[12]) else None;
      Said(Turns(VersionOf(input[..12]), choice, reason, width, height), |input|)
  }

  ghost predicate Conforms(out: seq<byte>, input: seq<byte>, width: u16, height: u16) {
    exists reason: seq<byte> | |reason| < 0x1_0000_0000 :: out == Prescribed(input, reason, width, height)
  }

  /** The guard of the branch that closes the connection. */
  predicate TurnedAway(input: seq<byte>) {
    |input| > 12 && VersionOf(input[..12]) != V3 && input[12] != SECURITY_NONE
  }

  /**
   * Whatever a client sends, what it gets up to ServerInit is what the protocol prescribes, with
   * one exception: a client of version 3.8 that is turned away gets no SecurityResult.
   */
  lemma GreetingConformsExact(input: seq<byte>, width: u16, height: u16)
    ensures Conforms(Greet(input, width, height).out, input, width, height)
            <==> !(TurnedAway(input) && VersionOf(input[..12]) == V8)
  {
    hide ServerInit, VersionText, VersionOf, Bytes32;
    var out := Greet(input, width, height).out;
    if TurnedAway(input) && VersionOf(input[..12]) == V8 {
      forall reason: seq<byte> | |reason| < 0x1_0000_0000
        ensures out != Prescribed(input, reason, width, height)
      {
        ToldWhy(input, reason, width, height);
      }
    } else {
      AsPrescribed(input, width, height);
    }
  }

  lemma AsPrescribed(input: seq<byte>, width: u16, height: u16)
    requires !(TurnedAway(input) && VersionOf(input[..12]) == V8)
    ensures Greet(input, width, height).out == Prescribed(input, [], width, height)
  {
    hide ServerInit, VersionText, VersionOf, Bytes32, SecurityFailed;
    if |input| >= 12 {
      var v, n := VersionOf(input[..12]), |input|;
      var choice := if n > 12 then Some(input[12]) else None;
      var init := ServerInit(width, height);
      match v
      case V3 =>
        TwoTurns(12, SECURITY_IS_NONE, 1, init, n);
      case V7 =>
        TwoTurns(12, SECURITY_TYPES, 2, init, n);
        OneTurn(12, SECURITY_TYPES, n);
      case V8 =>
        ThreeTurns(12, SECURITY_TYPES, 1, SECURITY_OK, 1, init, n);
        OneTurn(12, SECURITY_TYPES, n);
    }
  }

  /** A client of version 3.8 that is turned away is owed eight bytes and the reason. */
  lemma ToldWhy(input: seq<byte>, reason: seq<byte>, width: u16, height: u16)
    requires TurnedAway(input) && VersionOf(input[..12]) == V8 && |reason| < 0x1_0000_0000
    ensures Prescribed(input, reason, width, height) == Greet(input, width, height).out + SecurityFailed(reason)
    ensures |SecurityFailed(reason)| >= 8
  {
    hide ServerInit, VersionText, VersionOf, SecurityFailed;
    var hello, failed := VersionText(V8), SecurityFailed(reason);
    FailureSize(reason);
    TwoTurns(12, SECURITY_TYPES, 1, failed, |input|);
    assert hello + (SECURITY_TYPES + failed) == (hello + SECURITY_TYPES) + failed;
  }

  lemma FailureSize(reason: seq<byte>)
    requires |reason| < 0x1_0000_0000
    ensures |SecurityFailed(reason)| == 8 + |reason|
  {
  }

  lemma OneTurn(a: nat, s: seq<byte>, n: nat)
    ensures Said([Turn(a, s)], n) == if n >= a then s else []
  {
    assert [Turn(a, s)][1..] == [];
  }

  lemma TwoTurns(a: nat, s: seq<byte>, b: nat, t: seq<byte>, n: nat)
    ensures Said([Turn(a, s), Turn(b, t)], n) == if n >= a + b then s + t else if n >= a then s else []
  {
    assert [Turn(a, s), Turn(b, t)][1..] == [Turn(b, t)];
    if n >= a {
      OneTurn(b, t, n - a);
    }
  }

  lemma ThreeTurns(a: nat, s: seq<byte>, b: nat, t: seq<byte>, c: nat, u: seq<byte>, n: nat)
    ensures Said([Turn(a, s), Turn(b, t), Turn(c, u)], n) ==
            if n >= a + b + c then s + (t + u) else if n >= a + b then s + t else if n >= a then s else []
  {
    assert [Turn(a, s), Turn(b, t), Turn(c, u)][1..] == [Turn(b, t), Turn(c, u)];
    if n >= a {
      TwoTurns(b, t, c, u, n - a);
    }
  }

  /** The choice of type 2, in either version: the same silence, right in 3.7 and wrong in 3.8. */
  lemma RefusedChoiceCounterexample(width: u16, height: u16)
    ensures Greet(VersionText(V8) + [2], width, height) == Greeting(VersionText(V8) + SECURITY_TYPES, 13, Rejected)
    ensures Greet(VersionText(V7) + [2], width, height) == Greeting(VersionText(V8) + SECURITY_TYPES, 13, Rejected)
    ensures !Conforms(Greet(VersionText(V8) + [2], width, height).out, VersionText(V8) + [2], width, height)
    ensures Conforms(Greet(VersionText(V7) + [2], width, height).out, VersionText(V7) + [2], width, height)
  {
    hide ServerInit, VersionText, VersionOf;
    VersionRoundTrip(V8, VersionText(V8));
    VersionRoundTrip(V7, VersionText(V7));
    assert (VersionText(V8) + [2])[..12] == VersionText(V8);
    assert (VersionText(V7) + [2])[..12] == VersionText(V7);
    GreetingConformsExact(VersionText(V8) + [2], width, height);
    GreetingConformsExact(VersionText(V7) + [2], width, height);
  }

  /** Nothing the server writes is taken back or held up by what the client has yet to send. */
  lemma GreetingIsIncremental(input: seq<byte>, k: nat, width: u16, height: u16)
    requires k <= |input|
    ensures Greet(input[..k], width, height).out <= Greet(input, width, height).out
    ensures Greet(input[..k], width, height).progress != Awaiting ==>
              Greet(input[..k], width, height) == Greet(input, width, height)
    ensures Greet(input, width, height).progress != Awaiting && k < Greet(input, width, height).used ==>
              Greet(input[..k], width, height).progress == Awaiting
  {
    hide ServerInit, VersionText, VersionOf, Bytes32;
    if k >= 12 {
      assert input[..k][..12] == input[..12];
    }
  }

  /** The greeting, stage by stage. */
  lemma GreetStages(text: seq<byte>, more: seq<byte>, width: u16, height: u16)
    requires |text| <= 12 && (|text| < 12 ==> more == [])
    ensures var g, hello := Greet(text + more, width, height), VersionText(V8);
            if |text| < 12 then g == Greeting(hello, 0, Awaiting)
            else if VersionOf(text) == V3 then
              && (|more| == 0 ==> g == Greeting(hello + SECURITY_IS_NONE, 0, Awaiting))
              && (|more| == 1 ==> g == Greeting(hello + SECURITY_IS_NONE + ServerInit(width, height), 13, Ready))
            else
              var offer := hello + SECURITY_TYPES;
              var settled := if VersionOf(text) == V8 then offer + SECURITY_OK else offer;
              && (|more| == 0 ==> g == Greeting(offer, 0, Awaiting))
              && (|more| >= 1 && more[0] != SECURITY_NONE ==> g == Greeting(offer, 13, Rejected))
              && (|more| == 1 && more[0] == SECURITY_NONE ==> g == Greeting(settled, 0, Awaiting))
              && (|more| == 2 && more[0] == SECURITY_NONE
                ==> g == Greeting(settled + ServerInit(width, height), 14, Ready))
  {
    hide ServerInit, VersionText, VersionOf;
    if |text| == 12 {
      assert (text + more)[..12] == text;
    }
  }

  // ---------------------------------------------------------------------------------------
  // What a client reads
  // ---------------------------------------------------------------------------------------

  /** ServerInit: the size, 32 bits in depth 24, little-endian and true-coloured, three bytes, and a name. */
  predicate IsServerInit(s: seq<byte>, width: nat, height: nat) {
    && |s| == 28 && Value(s[0..2]) == width && Value(s[2..4]) == height
    && s[4] == 32 && s[5] == 24 && s[6] == 0 && s[7] == 1
    && Value(s[8..10]) == 255 && Value(s[10..12]) == 255 && Value(s[12..14]) == 255
    && s[14] == 16 && s[15] == 8 && s[16] == 0
    && Value(s[20..24]) == 4 && s[24..] == Ascii("TEST")
  }

  lemma ServerInitReads(width: u16, height: u16)
    ensures IsServerInit(ServerInit(width, height), width, height)
  {
    hide Bytes16, Bytes32, Value;
    var s := ServerInit(width, height);
    assert s[0..2] == Bytes16(width) && s[2..4] == Bytes16(height) && s[20..24] == Bytes32(4);
    assert s[8..10] == [0, 255] && s[10..12] == [0, 255] && s[12..14] == [0, 255];
    Bytes16Value(width);
    Bytes16Value(height);
    Bytes32Value(4);
    SmallValue(255);
  }

  /** A client of version 3.8 gets the list of types, with the one type 1 in it, and the result 0. */
  lemma Version8Reads(shared: byte, rest: seq<byte>, width: u16, height: u16)
    ensures var g := Greet(Ascii("RFB 003.008\n") + [1, shared] + rest, width, height);
            var out := g.out;
            && g.progress == Ready && g.used == 14 && |out| == 46 && out[..12] == Ascii("RFB 003.008\n")
            && out[12] == 1 && out[13] == 1 && Value(out[14..18]) == 0 && IsServerInit(out[18..], width, height)
  {
    hide ServerInit, VersionText, Ascii, IsServerInit, Value;
    FirstTwelve("RFB 003.008\n", V8, [1, shared], rest);
    ServerInitReads(width, height);
    var out := Greet(Ascii("RFB 003.008\n") + [1, shared] + rest, width, height).out;
    assert out[14..18] == [0, 0, 0, 0];
    SmallValue(0);
    assert out[18..] == ServerInit(width, height);
  }

  /** A client of version 3.7 gets the list and no result. */
  lemma Version7Reads(shared: byte, rest: seq<byte>, width: u16, height: u16)
    ensures var g := Greet(Ascii("RFB 003.007\n") + [1, shared] + rest, width, height);
            var out := g.out;
            && g.progress == Ready && g.used == 14 && |out| == 42 && out[..12] == Ascii("RFB 003.008\n")
            && out[12] == 1 && out[13] == 1 && IsServerInit(out[14..], width, height)
  {
    hide ServerInit, VersionText, Ascii, IsServerInit;
    FirstTwelve("RFB 003.007\n", V7, [1, shared], rest);
    ServerInitReads(width, height);
    var out := Greet(Ascii("RFB 003.007\n") + [1, shared] + rest, width, height).out;
    assert out[14..] == ServerInit(width, height);
  }

  /** Whoever sends any other text is told the type, as a number of four bytes. */
  lemma Version3Reads(text: seq<byte>, shared: byte, rest: seq<byte>, width: u16, height: u16)
    requires |text| == 12 && text != Ascii("RFB 003.007\n") && text != Ascii("RFB 003.008\n")
    ensures var g := Greet(text + [shared] + rest, width, height);
            var out := g.out;
            && g.progress == Ready && g.used == 13 && |out| == 44 && out[..12] == Ascii("RFB 003.008\n")
            && Value(out[12..16]) == 1 && IsServerInit(out[16..], width, height)
  {
    hide ServerInit, VersionText, VersionOf, Ascii, IsServerInit, Value;
    VersionTexts();
    VersionRoundTrip(V3, text);
    assert (text + [shared] + rest)[..12] == text;
    ServerInitReads(width, height);
    var out := Greet(text + [shared] + rest, width, height).out;
    assert out[12..16] == [0, 0, 0, 1];
    SmallValue(1);
    assert out[16..] == ServerInit(width, height);
  }

  /**
   * A client that chooses another type than 1 gets the list and is turned away. In version 3.8 it
   * is owed the number 1, and the reason after its length.
   */
  lemma RefusedReads(choice: byte, rest: seq<byte>, reason: seq<byte>, width: u16, height: u16)
    requires choice != 1 && |reason| < 0x1_0000_0000
    ensures forall text | text in {Ascii("RFB 003.007\n"), Ascii("RFB 003.008\n")} ::
              Greet(text + [choice] + rest, width, height)
              == Greeting(Ascii("RFB 003.008\n") + [1, 1], 13, Rejected)
    ensures var s := SecurityFailed(reason);
            |s| >= 8 && Value(s[0..4]) == 1 && Value(s[4..8]) == |reason| && s[8..] == reason
  {
    hide ServerInit, VersionText, Ascii, Value, Bytes32;
    FirstTwelve("RFB 003.008\n", V8, [choice], rest);
    FirstTwelve("RFB 003.007\n", V7, [choice], rest);
    var s, one, n := SecurityFailed(reason), Bytes32(1), Bytes32(|reason|);
    assert s[0..4] == one && s[4..8] == n && s[8..] == reason;
    Bytes32Value(1);
    Bytes32Value(|reason|);
  }

  lemma FirstTwelve(text: string, v: Version, reply: seq<byte>, rest: seq<byte>)
    requires (text == "RFB 003.007\n" && v == V7) || (text == "RFB 003.008\n" && v == V8)
    ensures VersionText(V8) == Ascii("RFB 003.008\n")
    ensures var input := Ascii(text) + reply + rest; input[..12] == Ascii(text) && VersionOf(input[..12]) == v
    ensures reply != [] ==> (Ascii(text) + reply + rest)[12] == reply[0]
  {
    hide VersionText, VersionOf;
    VersionTexts();
    VersionRoundTrip(v, Ascii(text));
    assert (Ascii(text) + reply + rest)[..12] == Ascii(text);
  }

  /** What a client reads out of ServerInit. */
  lemma ServerInitAnnounces(width: u16, height: u16)
    ensures var s := ServerInit(width, height);
            && U16(s[0], s[1]) == width && U16(s[2], s[3]) == height
            && FormatOf(s[4..17]) == ANNOUNCED
            && LayoutOf(ANNOUNCED.(bpp := ANNOUNCED.bpp / 8)) == FB32
            && U32(s[20], s[21], s[22], s[23]) == |s[24..]|
  {
    hide LayoutOf, FormatOf, ServerInit;
    AnnouncedLayout();
    AnnouncedFields(width, height);
  }

  lemma AnnouncedFields(width: u16, height: u16)
    ensures var s := ServerInit(width, height);
            && U16(s[0], s[1]) == width && U16(s[2], s[3]) == height
            && FormatOf(s[4..17]) == ANNOUNCED
            && U32(s[20], s[21], s[22], s[23]) == |s[24..]|
  {
    hide Bytes16;
    var s := ServerInit(width, height);
    assert s[4..17] == [32, 24, 0, 1, 0, 255, 0, 255, 0, 255, 16, 8, 0];
    assert s[20..24] == Bytes32(4);
  }

  lemma AnnouncedLayout()
    ensures LayoutOf(ANNOUNCED.(bpp := ANNOUNCED.bpp / 8)) == FB32
  {
    hide Bits, Glue2;
    BitsOfZero();
    AllOnes();
    assert MaskOf(255) == Glue2(0xff, 0);
    GlueOnes();
  }

  lemma GlueOnes()
    ensures Glue2(0xff, 0) == 0xff
  {
  }

  lemma AllOnes()
    ensures Bits(255) == 0xff
  {
    assert FromNat(15, 4) == 0xf;
    assert FromNat(31, 5) == 0x1f;
    assert FromNat(63, 6) == 0x3f;
    assert FromNat(127, 7) == 0x7f;
  }
}
