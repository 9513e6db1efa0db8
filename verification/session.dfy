/**
 * A session as a pure function: what the server answers and which events it produces, given the
 * bytes a client has sent and the screens the server's application has drawn meanwhile.
 */
module Sessions {
  import opened Words
  import opened Pixels
  import opened PixelMemory
  import opened Framebuffers
  import opened Messages

  datatype Event =
    | KeyPressed(down: byte, code: u32)
    | PointerMoved(button: byte, x: u16, y: u16)
    | TextCut(len: nat, text: seq<byte>)

  /** The part of `con->fb` that outlives an update: not its pixels. */
  datatype Screen = Screen(width: nat, height: nat, layout: Layout)

  datatype Session = Session(screen: Option<Screen>, format: Format)

  const FRESH := Session(None, Format(0, 0, 0, 0, 0, 0, 0, 0, 0, 0))

  /**
   * What the rest of the server does to one message: the framebuffer as found at the first and
   * at the second time its lock is taken, and whether memory can be had.
   */
  datatype Weather = Weather(first: Image, second: Image, memory: bool)

  predicate Fair(w: Weather) {
    ValidImage(w.first) && ValidImage(w.second)
  }

  type World = nat -> Weather

  ghost predicate FairWorld(world: World) {
    forall k: nat :: Fair(world(k))
  }

  // ---------------------------------------------------------------------------------------
  // One message
  // ---------------------------------------------------------------------------------------

  /**
   * A handler replies, or gives the client up. If an update's count of bytes wraps round, what C
   * does next (write past its memory, or cut the payload short) is not followed.
   */
  datatype Reaction = Reply(session: Session, events: seq<Event>, out: seq<byte>) | GiveUp | Wraps

  function Min(a: nat, b: nat): (m: nat)
    ensures m <= a && m <= b && (m == a || m == b)
  {
    if a < b then a else b
  }

  /** FramebufferUpdate with one rectangle in Raw encoding (sections 7.6.1 and 7.7.1 of RFC 6143). */
  function UpdateHeader(x: u16, y: u16, width: u16, height: u16): (s: seq<byte>)
    ensures |s| == 16
  {
    [0, 0, 0, 1] + Bytes16(x) + Bytes16(y) + Bytes16(width) + Bytes16(height) + [0, 0, 0, 0]
  }

  /**
   * What a client reads in sixteen bytes: a FramebufferUpdate with one rectangle, in Raw encoding,
   * of this place and size.
   */
  predicate RawHeader(s: seq<byte>, x: nat, y: nat, width: nat, height: nat) {
    && |s| == 16 && s[0] == 0 && s[1] == 0 && Value(s[2..4]) == 1
    && Value(s[4..6]) == x && Value(s[6..8]) == y && Value(s[8..10]) == width && Value(s[10..12]) == height
    && Value(s[12..16]) == 0
  }

  lemma HeaderReads(x: u16, y: u16, width: u16, height: u16)
    ensures RawHeader(UpdateHeader(x, y, width, height), x, y, width, height)
  {
    hide Bytes16, Value;
    var s := UpdateHeader(x, y, width, height);
    assert s[2..4] == [0, 1] && s[12..16] == [0, 0, 0, 0];
    SmallValue(1);
    SmallValue(0);
    assert s[4..6] == Bytes16(x) && s[6..8] == Bytes16(y) && s[8..10] == Bytes16(width) && s[10..12] == Bytes16(height);
    Bytes16Value(x);
    Bytes16Value(y);
    Bytes16Value(width);
    Bytes16Value(height);
  }

  /** The whole screen in the client's layout and byte order. */
  function Payload(shown: Image, layout: Layout, bigEndian: bool): seq<byte>
    requires Supported(layout.bpp)
  {
    BytesOf(Converted(shown, layout).words, layout.bpp, bigEndian)
  }

  /** The framebuffer an update is painted on: the session's own, or a copy of the server's. */
  function Canvas(s: Session, w: Weather): Option<Screen> {
    if s.screen.Some? then s.screen
    else if w.memory then Some(Screen(w.first.width, w.first.height, w.first.layout))
    else None
  }

  predicate Paintable(c: Screen, w: Weather) {
    && w.second.width > 0 && w.second.height > 0 && c.width > 0 && c.height > 0
    && (w.memory || (c.width == w.second.width && c.height == w.second.height))
  }

  predicate GoodSession(s: Session) {
    s.screen.Some? ==> Supported(s.screen.value.layout.bpp)
  }

  predicate CountableImage(img: Image)
    requires ValidImage(img)
  {
    Countable(img.layout.bpp, img.width, img.height)
  }

  function Update(s: Session, x: u16, y: u16, width: u16, height: u16, w: Weather): Reaction
    requires Fair(w) && GoodSession(s)
  {
    var c := Canvas(s, w);
    if c.None? then GiveUp
    else if s.screen.None? && !CountableImage(w.first) then Wraps
    else if !Paintable(c.value, w) then GiveUp
    else if !Countable(c.value.layout.bpp, w.second.width, w.second.height) then Wraps
    else
      var layout := c.value.layout;
      var s' := s.(screen := Some(Screen(w.second.width, w.second.height, layout)));
      var cutWidth, cutHeight := Min(width, w.second.width), Min(height, w.second.height);
      if x > cutWidth || y > cutHeight then Reply(s', [], [])
      else Reply(s', [], UpdateHeader(x, y, cutWidth, cutHeight) + Payload(w.second, layout, s.format.bigEndian != 0))
  }

  function Handle(s: Session, m: Message, w: Weather): (r: Reaction)
    requires Fair(w) && GoodSession(s)
    ensures r.Reply? ==> GoodSession(r.session)
  {
    match m
    case SetPixelFormat(f) =>
      var f' := f.(bpp := f.bpp / 8);
      if Supported(f'.bpp) && w.memory then
        Reply(Session(Some(Screen(w.first.width, w.first.width, LayoutOf(f'))), f'), [], [])
      else GiveUp
    case SetEncodings(_) => Reply(s, [], [])
    case UpdateRequest(_, x, y, width, height) => Update(s, x, y, width, height, w)
    case KeyEvent(down, key) => Reply(s, [KeyPressed(down, key)], [])
    case PointerEvent(buttons, x, y) => Reply(s, [PointerMoved(buttons, x, y)], [])
    case CutText(len, text) => Reply(s, [TextCut(len, text)], [])
  }

  // ---------------------------------------------------------------------------------------
  // All messages
  // ---------------------------------------------------------------------------------------

  datatype Status = Waiting | Failed | Beyond

  /**
   * What has happened: `used` bytes went into complete messages or into what ended the session,
   * `next` counts the messages answered. A session that is `Beyond` is not followed any further.
   */
  datatype Trace = Trace(session: Session, next: nat, events: seq<Event>, out: seq<byte>, used: nat, status: Status)

  function Then(a: Trace, b: Trace): Trace {
    Trace(b.session, b.next, a.events + b.events, a.out + b.out, a.used + b.used, b.status)
  }

  /** Interpret everything a client has sent so far, from the `k`-th message on. */
  ghost function Interpret(s: Session, k: nat, input: seq<byte>, world: World): (t: Trace)
    requires FairWorld(world) && GoodSession(s)
    ensures t.used <= |input| && GoodSession(t.session)
    decreases |input|
  {
    var w := world(k);
    match Parse(input, w.memory)
    case Partial => Trace(s, k, [], [], 0, Waiting)
    case Refused(n) => Trace(s, k, [], [], n, Failed)
    case Done(m, n) =>
      match Handle(s, m, w)
      case GiveUp => Trace(s, k, [], [], n, Failed)
      case Wraps => Trace(s, k, [], [], n, Beyond)
      case Reply(s', events, out) =>
        Then(Trace(s', k + 1, events, out, n, Waiting), Interpret(s', k + 1, input[n..], world))
  }

  /** Input that ends with a complete message can be interpreted in two parts. */
  lemma {:induction false} InterpretInParts(s: Session, k: nat, a: seq<byte>, b: seq<byte>, world: World)
    requires FairWorld(world) && GoodSession(s)
    requires var t := Interpret(s, k, a, world); t.status == Waiting && t.used == |a|
    ensures var t := Interpret(s, k, a, world);
            Interpret(s, k, a + b, world) == Then(t, Interpret(t.session, t.next, b, world))
    decreases |a|
  {
    hide Parse, Handle;
    var w := world(k);
    if Parse(a, w.memory).Partial? {
      assert a == [] && a + b == b;
      var t := Interpret(s, k, b, world);
      assert Then(Trace(s, k, [], [], 0, Waiting), t) == t;
    } else {
      var n := Parse(a, w.memory).used;
      ParseIsIncremental(a, w.memory, a[n..] + b, 0);
      assert a[..n] + (a[n..] + b) == a + b;
      var r := Handle(s, Parse(a, w.memory).message, w);
      assert (a + b)[n..] == a[n..] + b;
      InterpretInParts(r.session, k + 1, a[n..], b, world);
      var head := Trace(r.session, k + 1, r.events, r.out, n, Waiting);
      var mid := Interpret(r.session, k + 1, a[n..], world);
      ThenAssociative(head, mid, Interpret(mid.session, mid.next, b, world));
    }
  }

  lemma ThenAssociative(a: Trace, b: Trace, c: Trace)
    ensures Then(Then(a, b), c) == Then(a, Then(b, c))
  {
    assert (a.events + b.events) + c.events == a.events + (b.events + c.events);
    assert (a.out + b.out) + c.out == a.out + (b.out + c.out);
  }

  /** A prefix of a message has no effect; exactly one message has exactly its effect. */
  lemma InterpretOne(s: Session, k: nat, h: seq<byte>, world: World)
    requires FairWorld(world) && GoodSession(s)
    requires Parse(h, world(k).memory).Done? && Parse(h, world(k).memory).used == |h|
    ensures var r := Handle(s, Parse(h, world(k).memory).message, world(k));
            Interpret(s, k, h, world) ==
            if r.GiveUp? then Trace(s, k, [], [], |h|, Failed)
            else if r.Wraps? then Trace(s, k, [], [], |h|, Beyond)
            else Trace(r.session, k + 1, r.events, r.out, |h|, Waiting)
  {
    var r := Handle(s, Parse(h, world(k).memory).message, world(k));
    if r.Reply? {
      assert h[|h|..] == [];
      assert Interpret(r.session, k + 1, [], world) == Trace(r.session, k + 1, [], [], 0, Waiting);
    }
  }

  /** What the application is told of one whole input message, and where in its bytes that stands. */
  lemma InputBecomesEvent(s: Session, k: nat, input: seq<byte>, world: World)
    requires FairWorld(world) && GoodSession(s)
    requires input != [] && |input| == Needed(input) && input[0] in {4, 5, 6}
    requires input[0] == 6 ==> world(k).memory && Value(input[4..8]) < 0x8000_0000
    ensures var t := Interpret(s, k, input, world);
            && t.status == Waiting && t.session == s && t.out == [] && |t.events| == 1
            && match t.events[0]
               case KeyPressed(down, code) => input[0] == 4 && down == input[1] && code == Value(input[4..8])
               case PointerMoved(button, x, y) =>
                 input[0] == 5 && button == input[1] && x == Value(input[2..4]) && y == Value(input[4..6])
               case TextCut(len, text) => input[0] == 6 && len == Value(input[4..8]) == |text| && text == input[8..]
  {
    hide Parse, Value, Needed;
    var memory := world(k).memory;
    ParseDecides(input, memory);
    assert Parse(input, memory).Done?;
    ParsedFields(input, memory);
    assert input[..|input|] == input;
    InterpretOne(s, k, input, world);
  }

  /** Of the other messages it is told nothing, and only a format and an update change the session. */
  lemma OthersMakeNoEvent(s: Session, k: nat, input: seq<byte>, world: World)
    requires FairWorld(world) && GoodSession(s)
    requires input != [] && |input| == Needed(input) && input[0] in {0, 2, 3}
    ensures var t := Interpret(s, k, input, world);
            t.events == [] && t.used == |input| && (input[0] == 2 ==> t.session == s && t.out == [])
  {
    hide Parse, Value, Needed;
    var memory := world(k).memory;
    ParseDecides(input, memory);
    assert Parse(input, memory).Done?;
    ParsedFields(input, memory);
    assert input[..|input|] == input;
    InterpretOne(s, k, input, world);
  }

  // ---------------------------------------------------------------------------------------
  // Interpreting an encoding is handling the messages one by one
  // ---------------------------------------------------------------------------------------

  function EncodeAll(ps: seq<Packet>): seq<byte> {
    if ps == [] then [] else Bytes(ps[0]) + EncodeAll(ps[1..])
  }

  /** The handlers, in order, until one gives up; `used` counts encoded bytes. */
  ghost function HandleAll(s: Session, k: nat, ps: seq<Packet>, world: World): (t: Trace)
    requires FairWorld(world) && GoodSession(s)
    ensures GoodSession(t.session)
    ensures t.used <= |EncodeAll(ps)| && (t.status == Waiting ==> t.used == |EncodeAll(ps)|)
    decreases |ps|
  {
    if ps == [] then Trace(s, k, [], [], 0, Waiting)
    else
      var n := |Bytes(ps[0])|;
      match Handle(s, ps[0].message, world(k))
      case GiveUp => Trace(s, k, [], [], n, Failed)
      case Wraps => Trace(s, k, [], [], n, Beyond)
      case Reply(s', events, out) => Then(Trace(s', k + 1, events, out, n, Waiting),
        HandleAll(s', k + 1, ps[1..], world))
  }

  /** The texts among the messages can be taken in. */
  ghost predicate TextsFit(k: nat, ps: seq<Packet>, world: World) {
    forall i: nat | i < |ps| && ps[i].message.CutText? :: ps[i].message.len < 0x8000_0000 && world(k + i).memory
  }

  /**
   * Whatever sequence of messages a client encodes, the server invokes the right handlers, in
   * order, with the encoded values, and uses up exactly the bytes of each message.
   */
  lemma {:induction false} DispatchIsExact(s: Session, k: nat, ps: seq<Packet>, world: World)
    requires FairWorld(world) && GoodSession(s) && TextsFit(k, ps, world)
    ensures Interpret(s, k, EncodeAll(ps), world) == HandleAll(s, k, ps, world)
    decreases |ps|
  {
    hide Interpret, HandleAll, EncodeAll, Bytes, Handle, Parse, TextsFit, Fair, Then, GoodSession;
    if ps == [] {
      NothingSent(s, k, world);
    } else {
      TextsFitTail(k, ps, world);
      ParseEncoded(ps[0], EncodeAll(ps[1..]), world(k).memory);
      InterpretStep(s, k, ps[0].message, Bytes(ps[0]), EncodeAll(ps[1..]), world);
      HandleStep(s, k, ps, world);
      var r := Handle(s, ps[0].message, world(k));
      if r.Reply? {
        DispatchIsExact(r.session, k + 1, ps[1..], world);
      }
    }
  }

  lemma NothingSent(s: Session, k: nat, world: World)
    requires FairWorld(world) && GoodSession(s)
    ensures Interpret(s, k, EncodeAll([]), world) == HandleAll(s, k, [], world)
  {
    assert Parse([], world(k).memory) == Partial;
  }

  lemma HandleStep(s: Session, k: nat, ps: seq<Packet>, world: World)
    requires FairWorld(world) && GoodSession(s) && ps != []
    ensures EncodeAll(ps) == Bytes(ps[0]) + EncodeAll(ps[1..])
    ensures HandleAll(s, k, ps, world) ==
            match Handle(s, ps[0].message, world(k))
            case GiveUp => Trace(s, k, [], [], |Bytes(ps[0])|, Failed)
            case Wraps => Trace(s, k, [], [], |Bytes(ps[0])|, Beyond)
            case Reply(s', events, out) =>
              Then(Trace(s', k + 1, events, out, |Bytes(ps[0])|, Waiting), HandleAll(s', k + 1, ps[1..], world))
  {
    hide Handle, Bytes, Then;
  }

  /** A complete message, then more. */
  lemma InterpretStep(s: Session, k: nat, m: Message, e: seq<byte>, rest: seq<byte>, world: World)
    requires FairWorld(world) && GoodSession(s) && Parse(e + rest, world(k).memory) == Done(m, |e|)
    ensures var r := Handle(s, m, world(k));
            Interpret(s, k, e + rest, world) ==
            match r
            case GiveUp => Trace(s, k, [], [], |e|, Failed)
            case Wraps => Trace(s, k, [], [], |e|, Beyond)
            case Reply(s', events, out) =>
              Then(Trace(s', k + 1, events, out, |e|, Waiting), Interpret(s', k + 1, rest, world))
  {
    hide Handle, Parse, Then;
    assert (e + rest)[|e|..] == rest;
  }

  lemma TextsFitTail(k: nat, ps: seq<Packet>, world: World)
    requires TextsFit(k, ps, world) && ps != []
    ensures TextsFit(k + 1, ps[1..], world)
    ensures ps[0].message.CutText? ==> ps[0].message.len < 0x8000_0000 && world(k).memory
  {
    assert k + 0 == k;
    forall i: nat | i < |ps[1..]| && ps[1..][i].message.CutText?
      ensures ps[1..][i].message.len < 0x8000_0000 && world(k + 1 + i).memory
    {
      assert ps[1..][i] == ps[i + 1] && k + 1 + i == k + (i + 1);
    }
  }
}
