/** One connection thread: retry loops, handshake, dispatcher and handlers (src/connection.c). */
module Connections {
  import opened Words
  import opened Pixels
  import opened PixelMemory
  import opened Framebuffers
  import opened Protocol
  import opened Messages
  import opened Sessions
  import opened Handshakes
  import opened BufferedIo

  datatype State = Working | Stop | Stopped | Error

  /**
   * Whether the thread still runs, and if not, what it was doing when it ended. `Wrapped` is not
   * an end: the count of an update's bytes wrapped round, and C is not followed any further.
   */
  datatype Outcome = Alive | EndedReading | EndedWriting | GivenUp | Wrapped

  // ---------------------------------------------------------------------------------------
  // What a run must amount to
  // ---------------------------------------------------------------------------------------

  datatype Snapshot = Snapshot(session: Session, round: nat, unread: seq<byte>, written: seq<byte>, events: seq<Event>)

  /** From `b` to `a` the connection was handed `h` and did what the interpreter makes of `h`. */
  ghost predicate Advanced(b: Snapshot, a: Snapshot, h: seq<byte>, o: Outcome, world: World)
    requires FairWorld(world) && GoodSession(b.session)
  {
    Matches(b, a, h, o, Interpret(b.session, b.round, h, world))
  }

  ghost predicate Matches(b: Snapshot, a: Snapshot, h: seq<byte>, o: Outcome, t: Trace) {
    && b.unread == h + a.unread
    && a.events == b.events + t.events
    && b.written <= a.written <= b.written + t.out
    && (o != EndedWriting ==> a.written == b.written + t.out)
    && (o == Alive ==> t.used == |h| && a.session == t.session && a.round == t.next)
    && (o == EndedWriting || o == GivenUp || o == Wrapped ==> t.used == |h|)
    && (o == GivenUp <==> t.status == Failed)
    && (o == Wrapped <==> t.status == Beyond)
  }

  /** A message came through whole. */
  lemma Completed(b: Snapshot, a: Snapshot, h: seq<byte>, o: Outcome, m: Message, world: World)
    requires FairWorld(world) && GoodSession(b.session)
    requires Parse(h, world(b.round).memory) == Done(m, |h|)
    requires b.unread == h + a.unread
    requires var r := Handle(b.session, m, world(b.round));
             && r.Reply?
             && a.events == b.events + r.events
             && ((o == Alive && a.session == r.session && a.round == b.round + 1 && a.written == b.written + r.out)
                 || (o == EndedWriting && b.written <= a.written <= b.written + r.out))
    ensures Advanced(b, a, h, o, world)
  {
    hide Parse, Handle;
    InterpretOne(b.session, b.round, h, world);
  }

  /** The thread ended inside a message. */
  lemma Interrupted(b: Snapshot, a: Snapshot, h: seq<byte>, world: World)
    requires FairWorld(world) && GoodSession(b.session)
    requires Parse(h, world(b.round).memory) == Partial
    requires b.unread == h + a.unread && a.written == b.written && a.events == b.events
    ensures Advanced(b, a, h, EndedReading, world)
  {
    hide Parse, Handle;
  }

  /** The bytes were no message, or one that cannot be served. */
  lemma Declined(b: Snapshot, a: Snapshot, h: seq<byte>, world: World)
    requires FairWorld(world) && GoodSession(b.session)
    requires var p := Parse(h, world(b.round).memory);
             p == Refused(|h|) || (p.Done? && p.used == |h| && Handle(b.session, p.message, world(b.round)).GiveUp?)
    requires b.unread == h + a.unread && a.written == b.written && a.events == b.events
    ensures Advanced(b, a, h, GivenUp, world)
  {
    hide Parse, Handle;
  }

  /** The count of an update's bytes wraps round. */
  lemma LeftOff(b: Snapshot, a: Snapshot, h: seq<byte>, world: World)
    requires FairWorld(world) && GoodSession(b.session)
    requires var p := Parse(h, world(b.round).memory);
             p.Done? && p.used == |h| && Handle(b.session, p.message, world(b.round)).Wraps?
    requires b.unread == h + a.unread && a.written == b.written && a.events == b.events
    ensures Advanced(b, a, h, Wrapped, world)
  {
    hide Parse, Handle;
  }

  /** Whole messages, then more. */
  lemma AdvancedOn(b: Snapshot, m: Snapshot, a: Snapshot, h: seq<byte>, h': seq<byte>, o: Outcome, t: Trace, t': Trace)
    requires Matches(b, m, h, Alive, t) && Matches(m, a, h', o, t')
    ensures Matches(b, a, h + h', o, Then(t, t'))
  {
    assert b.unread == (h + h') + a.unread;
    assert b.written + (t.out + t'.out) == (b.written + t.out) + t'.out;
    assert b.events + (t.events + t'.events) == (b.events + t.events) + t'.events;
  }

  lemma AliveWaits(b: Snapshot, a: Snapshot, h: seq<byte>, t: Trace)
    requires Matches(b, a, h, Alive, t)
    ensures t.status == Waiting && t.used == |h| && a.session == t.session && a.round == t.next
  {
  }

  lemma AdvancedIs(b: Snapshot, a: Snapshot, h: seq<byte>, o: Outcome, world: World)
    requires FairWorld(world) && GoodSession(b.session)
    ensures Advanced(b, a, h, o, world) <==> Matches(b, a, h, o, Interpret(b.session, b.round, h, world))
  {
  }

  // ---------------------------------------------------------------------------------------
  // Messages as the handlers read them, after the type byte
  // ---------------------------------------------------------------------------------------

  /** The bytes a handler reads before it looks at any of them. */
  function HeaderSize(t: byte): nat {
    if t == 0 then 19 else if t == 2 then 3 else if t == 3 then 9 else if t == 4 then 7
    else if t == 5 then 5 else if t == 6 then 7 else 0
  }

  lemma ShortHeader(t: byte, got: seq<byte>, memory: bool)
    requires |got| < HeaderSize(t)
    ensures Parse([t] + got, memory) == Partial
  {
  }

  lemma WholeSetPixelFormat(got: seq<byte>, memory: bool)
    requires |got| == 19
    ensures Parse([0] + got, memory) == Done(SetPixelFormat(FormatOf(got[3..16])), 20)
  {
    assert ([0] + got)[4..17] == got[3..16];
  }

  lemma WholeUpdateRequest(got: seq<byte>, memory: bool)
    requires |got| == 9
    ensures Parse([3] + got, memory) ==
            Done(UpdateRequest(got[0], U16(got[1], got[2]), U16(got[3], got[4]), U16(got[5], got[6]),
              U16(got[7], got[8])), 10)
  {
  }

  lemma WholeKeyEvent(got: seq<byte>, memory: bool)
    requires |got| == 7
    ensures Parse([4] + got, memory) == Done(KeyEvent(got[0], U32(got[3], got[4], got[5], got[6])), 8)
  {
  }

  lemma WholePointerEvent(got: seq<byte>, memory: bool)
    requires |got| == 5
    ensures Parse([5] + got, memory) == Done(PointerEvent(got[0], U16(got[1], got[2]), U16(got[3], got[4])), 6)
  {
  }

  /** Encodings are read one by one; until the last is whole, so is not the message. */
  lemma EncodingsSoFar(got: seq<byte>, memory: bool)
    requires |got| >= 3
    ensures var cnt := U16(got[1], got[2]);
            var end := 3 + 4 * cnt;
            && (|got| < end ==> Parse([2] + got, memory) == Partial)
            && (|got| == end ==> Parse([2] + got, memory) == Done(SetEncodings(EncodingsOf(got[3..], cnt)), end + 1))
  {
    var end := 3 + 4 * U16(got[1], got[2]);
    if |got| == end {
      assert ([2] + got)[4..end + 1] == got[3..];
    }
  }

  /** The thread ended before the last encoding was whole. */
  lemma EncodingsCut(b: Snapshot, a: Snapshot, head: seq<byte>, got: seq<byte>, world: World)
    requires FairWorld(world) && GoodSession(b.session)
    requires |head| == 3 && 3 <= |got| < 3 + 4 * U16(head[1], head[2]) && got[..3] == head
    requires b.unread == [2] + got + a.unread && a.written == b.written && a.events == b.events
    ensures Advanced(b, a, [2] + got, EndedReading, world)
  {
    hide Advanced, Parse;
    assert got[1] == got[..3][1] && got[2] == got[..3][2];
    EncodingsSoFar(got, world(b.round).memory);
    Interrupted(b, a, [2] + got, world);
  }

  lemma CutTextHeader(got: seq<byte>, memory: bool)
    requires |got| >= 7
    ensures Parse([6] + got, memory) == ParseCutText([6] + got, U32(got[3], got[4], got[5], got[6]), memory)
  {
  }

  lemma CutTextSoFar(h: seq<byte>, got: seq<byte>, len: u32, memory: bool)
    requires |got| >= 7 && h == [6] + got
    ensures ParseCutText(h, len, memory) ==
            if !Allocates(len, memory) then Refused(8)
            else if |got| < 7 + TextLength(len) then Partial
            else Done(CutText(SizeOf(len), got[7..7 + TextLength(len)]), 8 + TextLength(len))
  {
    if |got| >= 7 + TextLength(len) {
      assert h[8..8 + TextLength(len)] == got[7..7 + TextLength(len)];
    }
  }

  lemma UnknownType(t: byte, memory: bool)
    requires t !in {0, 2, 3, 4, 5, 6}
    ensures Parse([t], memory) == Refused(1)
  {
  }

  /** Messages that only produce an event, or nothing. */
  lemma InputMessage(s: Session, m: Message, w: Weather)
    requires Fair(w) && GoodSession(s)
    ensures m.KeyEvent? ==> Handle(s, m, w) == Reply(s, [KeyPressed(m.down, m.key)], [])
    ensures m.PointerEvent? ==> Handle(s, m, w) == Reply(s, [PointerMoved(m.buttons, m.px, m.py)], [])
    ensures m.CutText? ==> Handle(s, m, w) == Reply(s, [TextCut(m.len, m.text)], [])
    ensures m.SetEncodings? ==> Handle(s, m, w) == Reply(s, [], [])
  {
  }

  lemma WeatherIsFair(world: World, k: nat)
    requires FairWorld(world)
    ensures Fair(world(k))
  {
  }

  lemma FairWidth(w: Weather)
    requires Fair(w)
    ensures w.first.width <= MAX_DIMENSION
  {
  }

  lemma NewFormat(s: Session, f: Format, w: Weather)
    requires Fair(w) && GoodSession(s)
    ensures var f' := f.(bpp := f.bpp / 8);
            Handle(s, Message.SetPixelFormat(f), w) ==
            if Supported(f'.bpp) && w.memory
            then Reply(Session(Some(Screen(w.first.width, w.first.width, LayoutOf(f'))), f'), [], [])
            else GiveUp
  {
  }

  lemma UpdateReaction(s: Session, m: Message, w: Weather)
    requires Fair(w) && GoodSession(s) && m.UpdateRequest?
    ensures var c := Canvas(s, w);
            Handle(s, m, w) ==
            if c.None? then GiveUp
            else if s.screen.None? && !CountableImage(w.first) then Wraps
            else if !Paintable(c.value, w) then GiveUp
            else if !Countable(c.value.layout.bpp, w.second.width, w.second.height) then Wraps
            else
              var layout := c.value.layout;
              var s' := s.(screen := Some(Screen(w.second.width, w.second.height, layout)));
              var cutWidth, cutHeight := Min(m.width, w.second.width), Min(m.height, w.second.height);
              if m.x > cutWidth || m.y > cutHeight then Reply(s', [], [])
              else Reply(s', [], UpdateHeader(m.x, m.y, cutWidth, cutHeight)
                                 + BytesOf(Converted(w.second, layout).words, layout.bpp, s.format.bigEndian != 0))
  {
  }

  /** All of `out` has been appended, or, if the thread ended meanwhile, some of it. */
  predicate Extends(before: seq<byte>, after: seq<byte>, out: seq<byte>, whole: bool) {
    before <= after <= before + out && (whole ==> after == before + out)
  }

  lemma ExtendsTwice(before: seq<byte>, mid: seq<byte>, after: seq<byte>, out: seq<byte>, out': seq<byte>, whole: bool)
    requires mid == before + out
    requires Extends(mid, after, out', whole) || (!whole && Extends(before, after, out, false))
    ensures Extends(before, after, out + out', whole)
  {
    assert before + (out + out') == mid + out';
  }

  lemma NothingYet(b: Snapshot, world: World)
    requires FairWorld(world) && GoodSession(b.session)
    ensures Advanced(b, b, [], Alive, world)
  {
    assert b.unread == [] + b.unread;
  }

  lemma HandedOut(b: Snapshot, a: Snapshot, h: seq<byte>, o: Outcome, world: World)
    requires FairWorld(world) && GoodSession(b.session) && Advanced(b, a, h, o, world)
    ensures |b.unread| == |h| + |a.unread|
  {
  }

  /** Between two messages the thread may end at any time. */
  lemma EndedBetween(b: Snapshot, a: Snapshot, h: seq<byte>, world: World)
    requires FairWorld(world) && GoodSession(b.session) && Advanced(b, a, h, Alive, world)
    ensures Advanced(b, a, h, EndedReading, world)
  {
  }

  /** The handshake, as far as it got, is what the greeting makes of `h`. */
  ghost predicate Greeted(b: Snapshot, a: Snapshot, h: seq<byte>, o: Outcome, width: u16, height: u16) {
    GreetedAs(b, a, h, o, Greet(h, width, height))
  }

  ghost predicate GreetedAs(b: Snapshot, a: Snapshot, h: seq<byte>, o: Outcome, g: Greeting) {
    && a == b.(unread := a.unread, written := a.written)
    && b.unread == h + a.unread
    && Extends(b.written, a.written, g.out, o != EndedWriting)
    && (o == Alive <==> g.progress == Ready && o != EndedWriting)
    && (g.progress == Ready ==> g.used == |h|)
    && (g.progress == Rejected ==> g.used == |h|)
    && (o == GivenUp <==> g.progress == Rejected)
    && o != Wrapped
  }

  /** The last stage after a choice: the client's ClientInit, then the server's answer. */
  lemma GreetedLast(
    b: Snapshot, a: Snapshot, text: seq<byte>, choice: seq<byte>, more: seq<byte>, o: Outcome, width: u16, height: u16)
    requires |text| == 12 && VersionOf(text) != V3 && choice == [SECURITY_NONE]
    requires o != GivenUp && o != Wrapped && |more| == if o == EndedReading then 0 else 1
    requires a == b.(unread := a.unread, written := a.written) && b.unread == (text + choice) + more + a.unread
    requires var offer := VersionText(V8) + SECURITY_TYPES;
             var settled := if VersionOf(text) == V8 then offer + SECURITY_OK else offer;
             Extends(b.written, a.written, if o == EndedReading then settled else settled + ServerInit(width, height),
                     o != EndedWriting)
    ensures Greeted(b, a, (text + choice) + more, o, width, height)
  {
    hide Greet, VersionText, VersionOf, ServerInit, Extends;
    GreetStages(text, choice + more, width, height);
    assert text + (choice + more) == (text + choice) + more;
  }

  /** The whole connection, as far as it got, is what serving makes of `h`. */
  ghost predicate Served(b: Snapshot, a: Snapshot, h: seq<byte>, o: Outcome, width: u16, height: u16, world: World)
    requires FairWorld(world)
  {
    ServedAs(b, a, h, o, Serve(h, width, height, world))
  }

  ghost predicate ServedAs(b: Snapshot, a: Snapshot, h: seq<byte>, o: Outcome, t: Trace) {
    && b.unread == h + a.unread
    && a.events == b.events + t.events
    && Extends(b.written, a.written, t.out, o != EndedWriting)
    && (o == GivenUp || o == Wrapped ==> t.used == |h|)
    && (o == GivenUp <==> t.status == Failed)
    && (o == Wrapped <==> t.status == Beyond)
  }

  lemma ServedGreeting(b: Snapshot, a: Snapshot, h: seq<byte>, o: Outcome, width: u16, height: u16, world: World)
    requires FairWorld(world) && Greeted(b, a, h, o, width, height) && o != Alive
    ensures Served(b, a, h, o, width, height, world)
  {
    hide Greet;
    var g := Greet(h, width, height);
    if g.progress == Ready {
      assert h[g.used..] == [];
      assert Interpret(FRESH, 0, [], world) == Trace(FRESH, 0, [], [], 0, Waiting);
    }
  }

  lemma GreetedKeeps(b: Snapshot, a: Snapshot, h: seq<byte>, o: Outcome, width: u16, height: u16)
    requires Greeted(b, a, h, o, width, height)
    ensures a.session == b.session && a.round == b.round
  {
  }

  lemma ServedDispatching(
    b: Snapshot, m: Snapshot, a: Snapshot, h: seq<byte>, h': seq<byte>, o: Outcome, g: Greeting, t: Trace)
    requires GreetedAs(b, m, h, Alive, g) && Matches(m, a, h', o, t)
    ensures ServedAs(b, a, h + h', o, Then(Trace(FRESH, 0, [], g.out, g.used, Waiting), t))
  {
    assert b.written + (g.out + t.out) == (b.written + g.out) + t.out;
    assert b.unread == (h + h') + a.unread;
    assert [] + t.events == t.events;
  }

  lemma Complete(
    b: Snapshot, m: Snapshot, a: Snapshot, h: seq<byte>, h': seq<byte>, o: Outcome,
    width: u16, height: u16, world: World)
    requires FairWorld(world) && m.session == FRESH && m.round == 0
    ensures Greeted(b, m, h, Alive, width, height) && Advanced(m, a, h', o, world) ==>
              Served(b, a, h + h', o, width, height, world)
  {
    hide Greet, Interpret, Serve, Matches, GreetedAs, ServedAs;
    var g, t := Greet(h, width, height), Interpret(FRESH, 0, h', world);
    if Greeted(b, m, h, Alive, width, height) && Advanced(m, a, h', o, world) {
      ServedDispatching(b, m, a, h, h', o, g, t);
      GreetedWhole(b, m, h, g);
      ServeInParts(h, h', width, height, world);
    }
  }

  lemma GreetedWhole(b: Snapshot, a: Snapshot, h: seq<byte>, g: Greeting)
    requires GreetedAs(b, a, h, Alive, g)
    ensures g.progress == Ready && g.used == |h|
  {
  }

  /** Serving a greeting and more is greeting, then interpreting the rest. */
  lemma ServeInParts(h: seq<byte>, h': seq<byte>, width: u16, height: u16, world: World)
    requires FairWorld(world)
    ensures var g := Greet(h, width, height);
            g.progress == Ready && g.used == |h| ==>
              Serve(h + h', width, height, world)
              == Then(Trace(FRESH, 0, [], g.out, g.used, Waiting), Interpret(FRESH, 0, h', world))
  {
    hide Greet, Interpret;
    var g := Greet(h, width, height);
    assert (h + h')[..|h|] == h && (h + h')[|h|..] == h';
    if g.progress == Ready && g.used == |h| {
      GreetingIsIncremental(h + h', |h|, width, height);
    }
  }

  // ---------------------------------------------------------------------------------------
  // The object
  // ---------------------------------------------------------------------------------------

  class Connection {
    const io: Io
    const hostBigEndian: bool
    const world: World
    var state: State
    /** How many more checks find the thread not stopped: when the server's mark arrives. */
    var patience: nat
    var version: Version
    var format: Format
    var fb: Framebuffer?
    var round: nat
    var events: seq<Event>

    ghost predicate Valid()
      reads this, io, io.wbuf, io.device, fb
    {
      && io.Valid()
      && FairWorld(world)
      && (fb != null ==> fb.Valid() && fb.hostBigEndian == hostBigEndian)
      && (fb != null ==> fb.pixels != io.rbuf && fb.pixels != io.wbuf)
    }

    ghost predicate Ready()
      reads this, io, io.wbuf, io.device, fb
    {
      Valid() && state == Working && !io.device.broken
    }

    /** Ended because it was stopped, or because the device failed. */
    ghost predicate Halted()
      reads this, io.device
    {
      if io.device.broken then state == Error else state == Stopped && patience == 0
    }

    /** Still running, or ended for one of the two reasons. */
    ghost predicate Running(alive: bool)
      reads this, io, io.wbuf, io.device, fb
    {
      Valid() && if alive then Ready() else Halted()
    }

    ghost predicate Ended(o: Outcome)
      reads this, io, io.wbuf, io.device, fb
    {
      if o == GivenUp || o == Wrapped then
        Valid() && !io.device.broken && state == if o == GivenUp then Error else Working
      else Running(o == Alive)
    }

    ghost function Current(): (s: Session)
      requires Valid()
      reads this, io, io.wbuf, io.device, fb
      ensures GoodSession(s)
    {
      Session(if fb == null then None else Some(Screen(fb.width, fb.height, fb.Shape())), format)
    }

    ghost function Now(): (s: Snapshot)
      requires Valid()
      reads this, io, io.rbuf, io.wbuf, io.device, fb
      ensures GoodSession(s.session)
    {
      Snapshot(Current(), round, io.Unread(), io.accepted, events)
    }

    ghost function FbParts(): set<object?>
      reads this, fb
    {
      if fb == null then {} else {fb, fb.pixels}
    }

    constructor (io: Io, hostBigEndian: bool, world: World, patience: nat)
      requires io.Valid() && FairWorld(world)
      ensures Valid() && this.io == io && this.world == world && this.hostBigEndian == hostBigEndian
      ensures state == Working && fb == null && Current() == FRESH && round == 0 && events == []
    {
      this.io, this.hostBigEndian, this.world, this.patience := io, hostBigEndian, world, patience;
      state, version, fb, round, events := Working, V3, null, 0, [];
      format := Format(0, 0, 0, 0, 0, 0, 0, 0, 0, 0);
    }

    /** The server's marking pass may come first; a marked thread stops here. */
    method CheckStopped() returns (alive: bool)
      requires state == Working
      modifies this`state, this`patience
      ensures state == if alive then Working else Stopped
      ensures if alive then old(patience) > 0 && patience == old(patience) - 1 else old(patience) == 0 && patience == 0
    {
      if patience == 0 {
        state := Stop;
      } else {
        patience := patience - 1;
      }
      alive := true;
      if state == Stop {
        state := Stopped;
        alive := false;
      }
    }

    /** Retry until something comes; 0 means that the thread was stopped while waiting. */
    method ReadSome(buf: array<byte>, off: nat, len: nat) returns (l: int)
      requires Valid() && state == Working && !io.device.broken && len > 0 && off + len <= buf.Length
      requires buf != io.rbuf && buf != io.wbuf
      modifies this`state, this`patience, io`rpos, io`rlen, io.rbuf, io.device`inbox, io.device`recvs,
               io.device`broken, buf
      ensures Valid() && -1 <= l <= len && state == if l == 0 then Stopped else Working
      ensures (io.device.broken <==> l == -1) && (l == 0 ==> patience == 0)
      ensures l <= 0 ==> io.Unread() == old(io.Unread())
      ensures l > 0 ==> old(io.Unread()) == buf[off..off + l] + io.Unread()
      ensures l > 0 ==> buf[..off] == old(buf[..off]) && buf[off + l..] == old(buf[off + l..])
    {
      while true
        invariant Valid() && state == Working && !io.device.broken
        invariant io.Unread() == old(io.Unread()) && buf[..] == old(buf[..])
        decreases |io.device.recvs|
      {
        l := io.Read(buf, off, len);
        if l > 0 {
          return;
        }
        if l < 0 {
          return;
        }
        assert buf[..] == buf[..off] + buf[off..];
        assert old(buf[..]) == old(buf[..off]) + old(buf[off..]);
        var alive := CheckStopped();
        if !alive {
          return;
        }
      }
    }

    /** Read exactly `len` bytes, or end the thread with fewer. */
    method ReadAll(buf: array<byte>, off: nat, len: nat) returns (alive: bool, ghost got: seq<byte>)
      requires Valid() && state == Working && !io.device.broken && off + len <= buf.Length
      requires buf != io.rbuf && buf != io.wbuf
      modifies this`state, this`patience, io`rpos, io`rlen, io.rbuf, io.device`inbox, io.device`recvs,
               io.device`broken, buf
      ensures Valid() && if alive then state == Working && !io.device.broken else Halted()
      ensures old(io.Unread()) == got + io.Unread()
      ensures if alive then got == buf[off..off + len] else |got| < len
    {
      hide FairWorld, Framebuffer.Valid, Io.Unread, Io.Valid;
      ghost var start := buf[..off];
      var pos := 0;
      got := [];
      alive := true;
      while pos < len
        invariant 0 <= pos <= len && Valid() && state == Working && !io.device.broken
        invariant buf[..off + pos] == start + got && old(io.Unread()) == got + io.Unread()
      {
        var l := ReadSome(buf, off + pos, len - pos);
        if l <= 0 {
          if l < 0 {
            state := Error;
          }
          return false, got;
        }
        ghost var more := buf[off + pos..off + pos + l];
        Joined(buf, 0, off + pos, off + pos + l);
        Assoc(start, got, more);
        Assoc(got, more, io.Unread());
        got := got + more;
        pos := pos + l;
      }
      assert buf[off..off + len] == buf[..off + len][off..];
    }

    /** Retry until a prefix is accepted; 0 means that the thread was stopped while waiting. */
    method WriteSome(buf: array<byte>, off: nat, len: nat) returns (l: int, ghost took: nat)
      requires Ready() && len > 0 && off + len <= buf.Length && buf != io.wbuf
      modifies this`state, this`patience, io`wlen, io`accepted, io`garbled, io.wbuf, io.device`outbox,
               io.device`sends, io.device`broken
      ensures Valid() && -1 <= l <= len && state == if l == 0 then Stopped else Working
      ensures (io.device.broken <==> l == -1) && (l == 0 ==> patience == 0)
      ensures l >= 0 ==> took == l
      ensures took <= len && io.accepted == old(io.accepted) + buf[off..off + took]
    {
      while true
        invariant Ready() && io.accepted == old(io.accepted)
        decreases |io.device.sends|
      {
        l, took := io.Write(buf, off, len);
        if l > 0 {
          return;
        }
        if l < 0 {
          return;
        }
        assert buf[off..off + took] == [];
        var alive := CheckStopped();
        if !alive {
          return;
        }
      }
    }

    /**
     * Offer the buffer again and again. A timeout looks like an empty buffer, so the loop also
     * ends, with bytes still buffered, on the first timeout.
     */
    method Flush() returns (alive: bool)
      requires Ready()
      modifies this`state, this`patience, io`wlen, io`accepted, io`garbled, io.wbuf, io.device`outbox,
               io.device`sends, io.device`broken
      ensures Valid() && io.accepted == old(io.accepted)
      ensures if alive then state == Working && !io.device.broken else Halted()
      ensures Remains(io.device.sends, old(io.device.sends))
      ensures alive ==> (io.wlen > 0 <==> TimedOut(io.device.sends, old(io.device.sends)))
    {
      hide Remainder, WholeSends, Sent, Fair, Remains, TimedOut;
      ghost var script := io.device.sends;
      assert Remains(script, script) && !TimedOut(script, script) by {
        NoAnswer(script);
      }
      while true
        invariant Ready() && io.accepted == old(io.accepted)
        invariant Remains(io.device.sends, script)
        invariant !TimedOut(io.device.sends, script)
        invariant |io.device.sends| < |script| ==> io.wlen > 0
        decreases |io.device.sends|
      {
        ghost var left := io.device.sends;
        if io.wlen > 0 {
          TimeoutOnly(left, io.wlen);
          if left != [] {
            OneAnswer(left, script);
          }
        }
        var r := io.Flush();
        if r < 0 {
          state := Error;
          return false;
        }
        if r == 0 {
          return true;
        }
        alive := CheckStopped();
        if !alive {
          return;
        }
      }
    }

    /** Write everything and try to send it, or end the thread with a prefix accepted. */
    method WriteAll(buf: array<byte>, len: nat) returns (alive: bool, ghost took: nat)
      requires Ready() && len <= buf.Length && buf != io.wbuf
      modifies this`state, this`patience, io`wlen, io`accepted, io`garbled, io.wbuf, io.device`outbox,
               io.device`sends, io.device`broken
      ensures Valid()
      ensures if alive then state == Working && !io.device.broken else Halted()
      ensures took <= len && io.accepted == old(io.accepted) + buf[..took]
      ensures alive ==> took == len
    {
      var pos := 0;
      while pos < len
        invariant 0 <= pos <= len && Ready()
        invariant io.accepted == old(io.accepted) + buf[..pos]
      {
        ghost var more;
        var l;
        l, more := WriteSome(buf, pos, len - pos);
        assert buf[..pos + more] == buf[..pos] + buf[pos..pos + more];
        if l <= 0 {
          if l < 0 {
            state := Error;
          }
          return false, pos + more;
        }
        pos := pos + l;
      }
      alive := Flush();
      took := len;
    }

    /** The state at the start of a handler, its type byte given back. */
    ghost function Before(t: byte): (s: Snapshot)
      requires Valid()
      reads this, io, io.rbuf, io.wbuf, io.device, fb
      ensures GoodSession(s.session)
    {
      Now().(unread := [t] + io.Unread())
    }

    /** Only input has been consumed since `b`, namely `h`. */
    ghost predicate Consumed(b: Snapshot, h: seq<byte>)
      requires Valid()
      reads this, io, io.rbuf, io.wbuf, io.device, fb
    {
      Now() == b.(unread := io.Unread()) && b.unread == h + io.Unread()
    }

    /** Read `len` more bytes of a message of which `h` has been read. */
    method ReadPart(ghost b: Snapshot, ghost h: seq<byte>, buf: array<byte>, len: nat)
      returns (alive: bool, ghost got: seq<byte>)
      requires Ready() && len <= buf.Length && buf != io.rbuf && buf != io.wbuf && Consumed(b, h)
      modifies this`state, this`patience, io`rpos, io`rlen, io.rbuf, io.device`inbox, io.device`recvs,
               io.device`broken, buf
      ensures Running(alive) && Consumed(b, h + got)
      ensures if alive then got == buf[..len] else |got| < len
    {
      hide FairWorld, Framebuffer.Valid, Io.Valid;
      alive, got := ReadAll(buf, 0, len);
    }

    /** Read the bytes after the type byte `t`; `h` is the message so far. */
    method ReadHeader(t: byte, buf: array<byte>, len: nat)
      returns (alive: bool, ghost got: seq<byte>, ghost b: Snapshot)
      requires Ready() && len == HeaderSize(t) <= buf.Length && buf != io.rbuf && buf != io.wbuf
      modifies this`state, this`patience, io`rpos, io`rlen, io.rbuf, io.device`inbox, io.device`recvs,
               io.device`broken, buf
      ensures Running(alive)
      ensures b == old(Before(t)) && Consumed(b, [t] + got)
      ensures alive ==> got == buf[..len]
      ensures !alive ==> Advanced(b, Now(), [t] + got, EndedReading, world)
    {
      hide Parse, Advanced, HeaderSize, Fair, Framebuffer.Valid, Io.Valid;
      b := Before(t);
      alive, got := ReadAll(buf, 0, len);
      if !alive {
        ShortHeader(t, got, world(round).memory);
        Interrupted(b, Now(), [t] + got, world);
      }
    }

    /** The handler's last act: its event, if any, goes to the server and the message is done. */
    method Finish(event: Option<Event>, ghost b: Snapshot, ghost h: seq<byte>, ghost m: Message)
      requires Ready() && GoodSession(b.session) && Consumed(b, h)
      requires Parse(h, world(b.round).memory) == Done(m, |h|)
      requires Handle(b.session, m, world(b.round)) == Reply(b.session, if event.None? then [] else [event.value], [])
      modifies this`events, this`round
      ensures Ready() && Advanced(b, Now(), h, Alive, world)
    {
      hide Parse, Advanced, Handle, Fair;
      if event.Some? {
        events := events + [event.value];
      }
      round := round + 1;
      Completed(b, Now(), h, Alive, m, world);
    }

    method KeyEvent() returns (o: Outcome, ghost got: seq<byte>)
      requires Ready()
      modifies this, io, io.rbuf, io.wbuf, io.device
      ensures Ended(o) && fb == old(fb)
      ensures Advanced(old(Before(4)), Now(), [4] + got, o, world)
    {
      hide Parse, Advanced, Handle, Fair, Framebuffer.Valid, Io.Valid;
      var buf := new byte[8];
      ghost var b;
      var alive;
      alive, got, b := ReadHeader(4, buf, 7);
      if !alive {
        return EndedReading, got;
      }
      var down, code := buf[0], U32(buf[3], buf[4], buf[5], buf[6]);
      WholeKeyEvent(got, world(b.round).memory);
      InputMessage(b.session, Message.KeyEvent(down, code), world(b.round));
      Finish(Some(KeyPressed(down, code)), b, [4] + got, Message.KeyEvent(down, code));
      o := Alive;
    }

    method PointerEvent() returns (o: Outcome, ghost got: seq<byte>)
      requires Ready()
      modifies this, io, io.rbuf, io.wbuf, io.device
      ensures Ended(o) && fb == old(fb)
      ensures Advanced(old(Before(5)), Now(), [5] + got, o, world)
    {
      hide Parse, Advanced, Handle, Fair, Framebuffer.Valid, Io.Valid;
      var buf := new byte[5];
      ghost var b;
      var alive;
      alive, got, b := ReadHeader(5, buf, 5);
      if !alive {
        return EndedReading, got;
      }
      var button, x, y := buf[0], U16(buf[1], buf[2]), U16(buf[3], buf[4]);
      WholePointerEvent(got, world(b.round).memory);
      InputMessage(b.session, Message.PointerEvent(button, x, y), world(b.round));
      Finish(Some(PointerMoved(button, x, y)), b, [5] + got, Message.PointerEvent(button, x, y));
      o := Alive;
    }

    method SetEncodings() returns (o: Outcome, ghost got: seq<byte>)
      requires Ready()
      modifies this, io, io.rbuf, io.wbuf, io.device
      ensures Ended(o) && fb == old(fb)
      ensures Advanced(old(Before(2)), Now(), [2] + got, o, world)
    {
      hide Parse, Advanced, Handle, Fair, Framebuffer.Valid, Io.Valid;
      var buf := new byte[4];
      ghost var b;
      var alive;
      alive, got, b := ReadHeader(2, buf, 3);
      if !alive {
        return EndedReading, got;
      }
      o, got := ReadEncodings(b, got, U16(buf[1], buf[2]));
    }

    /** The encodings are read and forgotten. */
    method ReadEncodings(ghost b: Snapshot, ghost head: seq<byte>, cnt: nat) returns (o: Outcome, ghost got: seq<byte>)
      requires Ready() && GoodSession(b.session) && |head| == 3 && Consumed(b, [2] + head)
               && cnt == U16(head[1], head[2])
      modifies this`state, this`patience, this`events, this`round, io`rpos, io`rlen, io.rbuf, io.device`inbox,
               io.device`recvs, io.device`broken
      ensures Ended(o)
      ensures Advanced(b, Now(), [2] + got, o, world)
    {
      hide Parse, Advanced, Handle, Fair, Framebuffer.Valid, Io.Valid;
      var buf := new byte[4];
      got := head;
      var i := 0;
      while i < cnt
        invariant 0 <= i <= cnt && Ready() && |got| == 3 + 4 * i && got[..3] == head
        invariant Consumed(b, [2] + got)
      {
        var alive;
        alive, got := ReadEncoding(b, head, got, buf);
        if !alive {
          return EndedReading, got;
        }
        i := i + 1;
      }
      o := ForgetEncodings(b, head, got);
    }

    method ReadEncoding(ghost b: Snapshot, ghost head: seq<byte>, ghost before: seq<byte>, buf: array<byte>)
      returns (alive: bool, ghost got: seq<byte>)
      requires Ready() && GoodSession(b.session) && buf.Length == 4 && buf != io.rbuf && buf != io.wbuf
      requires |head| == 3 <= |before| && before[..3] == head && Consumed(b, [2] + before)
      requires |before| + 4 <= 3 + 4 * U16(head[1], head[2])
      modifies this`state, this`patience, io`rpos, io`rlen, io.rbuf, io.device`inbox, io.device`recvs,
               io.device`broken, buf
      ensures Running(alive) && Consumed(b, [2] + got)
      ensures alive ==> |got| == |before| + 4 && got[..3] == head
      ensures !alive ==> Advanced(b, Now(), [2] + got, EndedReading, world)
    {
      hide Parse, Advanced, Handle, Fair;
      ghost var more;
      alive, more := ReadPart(b, [2] + before, buf, 4);
      got := before + more;
      assert ([2] + before) + more == [2] + got;
      if !alive {
        EncodingsCut(b, Now(), head, got, world);
      }
    }

    /** The last encoding has been read. */
    method ForgetEncodings(ghost b: Snapshot, ghost head: seq<byte>, ghost got: seq<byte>) returns (o: Outcome)
      requires Ready() && GoodSession(b.session) && Consumed(b, [2] + got)
      requires |head| == 3 && |got| == 3 + 4 * U16(head[1], head[2]) && got[..3] == head
      modifies this`events, this`round
      ensures Ended(o) && Advanced(b, Now(), [2] + got, o, world)
    {
      hide Parse, Advanced, Handle, Fair;
      assert got[1] == got[..3][1] && got[2] == got[..3][2];
      EncodingsSoFar(got, world(b.round).memory);
      InputMessage(b.session, Message.SetEncodings(EncodingsOf(got[3..], U16(got[1], got[2]))), world(b.round));
      Finish(None, b, [2] + got, Message.SetEncodings(EncodingsOf(got[3..], U16(got[1], got[2]))));
      o := Alive;
    }

    method ClientCutText() returns (o: Outcome, ghost got: seq<byte>)
      requires Ready()
      modifies this, io, io.rbuf, io.wbuf, io.device
      ensures Ended(o) && fb == old(fb)
      ensures Advanced(old(Before(6)), Now(), [6] + got, o, world)
    {
      hide Parse, Advanced, Handle, Fair, Allocates, TextLength, SizeOf, U32, Framebuffer.Valid, Io.Valid;
      var buf := new byte[7];
      ghost var b;
      var alive;
      alive, got, b := ReadHeader(6, buf, 7);
      if !alive {
        return EndedReading, got;
      }
      var len := U32(buf[3], buf[4], buf[5], buf[6]);
      if !Allocates(len, world(round).memory) {
        state := Error;
        CutTextHeader(got, world(b.round).memory);
        CutTextSoFar([6] + got, got, len, world(b.round).memory);
        Declined(b, Now(), [6] + got, world);
        return GivenUp, got;
      }
      o, got := ReadText(b, got, len);
    }

    method ReadText(ghost b: Snapshot, ghost head: seq<byte>, len: u32) returns (o: Outcome, ghost got: seq<byte>)
      requires Ready() && GoodSession(b.session) && |head| == 7 && Consumed(b, [6] + head)
      requires len == U32(head[3], head[4], head[5], head[6]) && Allocates(len, world(b.round).memory)
      modifies this`state, this`patience, this`events, this`round, io`rpos, io`rlen, io.rbuf, io.device`inbox,
               io.device`recvs, io.device`broken
      ensures Ended(o)
      ensures Advanced(b, Now(), [6] + got, o, world)
    {
      hide Parse, Advanced, Handle, Fair, Allocates, TextLength, SizeOf, U32, Framebuffer.Valid, Io.Valid;
      var text := new byte[TextLength(len)];
      ghost var more;
      var alive;
      alive, more := ReadPart(b, [6] + head, text, TextLength(len));
      got := head + more;
      assert got[7..] == more && [6] + got == ([6] + head) + more;
      CutTextHeader(got, world(b.round).memory);
      CutTextSoFar([6] + got, got, len, world(b.round).memory);
      if !alive {
        Interrupted(b, Now(), [6] + got, world);
        return EndedReading, got;
      }
      assert text[..] == more;
      InputMessage(b.session, CutText(SizeOf(len), more), world(b.round));
      assert got[7..7 + TextLength(len)] == more;
      Finish(Some(TextCut(SizeOf(len), text[..])), b, [6] + got, CutText(SizeOf(len), more));
      o := Alive;
    }

    method SetPixelFormat() returns (o: Outcome, ghost got: seq<byte>)
      requires Ready()
      modifies this, io, io.rbuf, io.wbuf, io.device
      ensures Ended(o)
      ensures fb == null || (fresh(fb) && fresh(fb.pixels)) || fb == old(fb)
      ensures Advanced(old(Before(0)), Now(), [0] + got, o, world)
    {
      hide Parse, Advanced, Handle, Fair, FormatOf, LayoutOf;
      var buf := new byte[19];
      ghost var b;
      var alive;
      alive, got, b := ReadHeader(0, buf, 19);
      if !alive {
        return EndedReading, got;
      }
      var f := FormatOf(buf[3..16]);
      assert buf[3..16] == got[3..16];
      WholeSetPixelFormat(got, world(b.round).memory);
      o := Reformat(f, b, [0] + got);
    }

    /** Give the client a framebuffer of the format it asked for, as wide and as high as the server's is wide. */
    method Reformat(f: Format, ghost b: Snapshot, ghost h: seq<byte>) returns (o: Outcome)
      requires Ready() && GoodSession(b.session) && Consumed(b, h)
      requires Parse(h, world(b.round).memory) == Done(Message.SetPixelFormat(f), |h|)
      modifies this
      ensures Ended(o)
      ensures fb == null || (fresh(fb) && fresh(fb.pixels))
      ensures Advanced(b, Now(), h, o, world)
    {
      hide Parse, Advanced, LayoutOf, NormFromMask, ValidImage;
      var w := world(round);
      assert Fair(w) && w.first.width <= MAX_DIMENSION by {
        FairWidth(w);
      }
      NewFormat(b.session, f, w);
      fb, format := Framebuffer.CreateOfFormat(w.first.width, w.first.width, f, hostBigEndian, w.memory);
      if fb == null {
        state := Error;
        o := GivenUp;
        Declined(b, Now(), h, world);
      } else {
        round := round + 1;
        o := Alive;
        Completed(b, Now(), h, o, Message.SetPixelFormat(f), world);
      }
    }

    /**
     * Paint the server's screen on the client's framebuffer, which is a copy of the server's if
     * the client never chose a format.
     */
    method Paint() returns (ok: bool, wraps: bool)
      requires Ready()
      modifies this`fb, FbParts()
      ensures Ready() && format == old(format) && round == old(round)
      ensures fb == old(fb) || fb == null || fresh(fb)
      ensures fb != null ==> fresh(fb.pixels) || (old(fb) != null && fb.pixels == old(fb.pixels))
      ensures var s, w := old(Current()), world(round);
              var c := Canvas(s, w);
              && (wraps <==> c.Some? && ((s.screen.None? && !CountableImage(w.first))
                                         || (Paintable(c.value, w)
                                           && !Countable(c.value.layout.bpp, w.second.width, w.second.height))))
              && (ok <==> c.Some? && Paintable(c.value, w) && !wraps)
              && (ok ==> fb != null && fb.View().words == Converted(w.second, c.value.layout).words
                         && Countable(fb.bpp, fb.width, fb.height)
                         && Current() == s.(screen := Some(Screen(w.second.width, w.second.height, c.value.layout))))
    {
      hide NormFromMask, ValidImage, Repacked, WordsOf, Size, Countable, FairWorld, Io.Valid, Converted,
        Framebuffer.View, Framebuffer.Shape, CountableImage;
      wraps := Provide();
      if fb == null || wraps {
        return false, wraps;
      }
      ok, wraps := Cover();
    }

    /** Paint the server's screen on the framebuffer that there is. */
    method Cover() returns (ok: bool, wraps: bool)
      requires Ready() && fb != null
      modifies fb, fb.pixels
      ensures Ready() && (fb.pixels == old(fb.pixels) || fresh(fb.pixels))
      ensures var w, l := world(round), old(fb.Shape());
              var c := old(Screen(fb.width, fb.height, fb.Shape()));
              && (wraps <==> Paintable(c, w) && !Countable(l.bpp, w.second.width, w.second.height))
              && (ok <==> Paintable(c, w) && !wraps)
              && (ok ==> fb.View().words == Converted(w.second, l).words && Countable(fb.bpp, fb.width, fb.height)
                         && fb.width == w.second.width && fb.height == w.second.height && fb.Shape() == l)
    {
      hide NormFromMask, ValidImage, Repacked, WordsOf, Size, Countable, FairWorld, Io.Valid;
      var w := world(round);
      WeatherIsFair(world, round);
      var src := new Framebuffer.Showing(w.second, hostBigEndian);
      wraps := fb.Wraps(src, w.memory);
      if wraps {
        return false, true;
      }
      ok := fb.Convert(src, w.memory);
    }

    /** A client that chose no format gets a copy of the server's framebuffer. */
    method Provide() returns (wraps: bool)
      requires Ready()
      modifies this`fb
      ensures Ready() && (fb == old(fb) || (fresh(fb) && fresh(fb.pixels)))
      ensures wraps <==> old(fb) == null && world(round).memory && !CountableImage(world(round).first)
      ensures fb == null <==> wraps || Canvas(old(Current()), world(round)).None?
      ensures fb != null ==> Current().screen == Canvas(old(Current()), world(round))
    {
      hide NormFromMask, ValidImage, WordsOf, Size, Countable;
      wraps := false;
      if fb == null {
        var w := world(round);
        assert Fair(w);
        var first := new Framebuffer.Showing(w.first, hostBigEndian);
        wraps := w.memory && !Countable(first.bpp, first.width, first.height);
        if !wraps {
          fb := first.Copy(w.memory);
        }
      }
    }

    /** Write `len` bytes that have nothing to do with the connection's own state. */
    method Send(buf: array<byte>, len: nat) returns (alive: bool)
      requires Ready() && len <= buf.Length && buf != io.wbuf
      modifies this`state, this`patience, io`wlen, io`accepted, io`garbled, io.wbuf, io.device`outbox,
               io.device`sends, io.device`broken
      ensures Running(alive)
      ensures Now() == old(Now()).(written := io.accepted)
      ensures Extends(old(io.accepted), io.accepted, buf[..len], alive)
    {
      ghost var took;
      alive, took := WriteAll(buf, len);
      assert buf[..took] == buf[..len][..took];
    }

    /** One rectangle header, then the whole pixel memory in the client's byte order. */
    method SendUpdate(x: u16, y: u16, width: u16, height: u16) returns (alive: bool)
      requires Ready() && fb != null && Countable(fb.bpp, fb.width, fb.height)
      modifies this`state, this`patience, fb.pixels, io`wlen, io`accepted, io`garbled, io.wbuf, io.device`outbox,
               io.device`sends, io.device`broken
      ensures Running(alive)
      ensures Now() == old(Now()).(written := io.accepted)
      ensures Extends(old(io.accepted), io.accepted,
                      UpdateHeader(x, y, width, height)
                        + BytesOf(old(fb.View()).words, fb.bpp, format.bigEndian != 0), alive)
    {
      hide NormFromMask, BytesOf, WordsOf, Size, Fair, Bytes16;
      ghost var written := io.accepted;
      fb.Endian(format.bigEndian != 0);
      ghost var payload := fb.pixels[..];
      var header := UpdateHeader(x, y, width, height);
      var buf := new byte[256](k => if 0 <= k < |header| then header[k] else 0);
      assert buf[..16] == header;
      alive := Send(buf, 16);
      if alive {
        AllocationExact(fb.bpp, fb.width, fb.height);
        assert fb.pixels[..fb.pixels.Length] == payload;
        alive := Send(fb.pixels, ByteCount(fb.bpp, fb.width, fb.height));
      }
      ExtendsTwice(written, written + header, io.accepted, header, payload, alive);
    }

    method UpdateRequest() returns (o: Outcome, ghost got: seq<byte>)
      requires Ready()
      modifies this, io, io.rbuf, io.wbuf, io.device, FbParts()
      ensures Ended(o)
      ensures fresh(FbParts() - old(FbParts()))
      ensures Advanced(old(Before(3)), Now(), [3] + got, o, world)
    {
      hide Parse, Advanced, Handle, Fair, Framebuffer.Valid, Io.Valid;
      var buf := new byte[256];
      ghost var b;
      var alive;
      alive, got, b := ReadHeader(3, buf, 9);
      if !alive {
        return EndedReading, got;
      }
      var xpos, ypos := U16(buf[1], buf[2]), U16(buf[3], buf[4]);
      var width, height := U16(buf[5], buf[6]), U16(buf[7], buf[8]);
      WholeUpdateRequest(got, world(b.round).memory);
      ghost var m := Message.UpdateRequest(got[0], xpos, ypos, width, height);
      assert Parse([3] + got, world(b.round).memory) == Done(m, |[3] + got|);
      o := Respond(xpos, ypos, width, height, b, [3] + got, m);
    }

    method Respond(xpos: u16, ypos: u16, width: u16, height: u16, ghost b: Snapshot, ghost h: seq<byte>,
      ghost m: Message)
      returns (o: Outcome)
      requires Ready() && GoodSession(b.session) && Consumed(b, h)
      requires m.UpdateRequest? && m.x == xpos && m.y == ypos && m.width == width && m.height == height
      requires Parse(h, world(b.round).memory) == Done(m, |h|)
      modifies this, io, io.wbuf, io.device, FbParts()
      ensures Ended(o)
      ensures fresh(FbParts() - old(FbParts()))
      ensures Advanced(b, Now(), h, o, world)
    {
      hide Parse, Advanced, Handle, Fair, UpdateHeader, BytesOf, Converted, WordsOf, NormFromMask, Size,
        Framebuffer.Valid, Io.Valid;
      UpdateReaction(b.session, m, world(b.round));
      var ok, wraps := Paint();
      if wraps {
        LeftOff(b, Now(), h, world);
        return Wrapped;
      }
      if !ok {
        state := Error;
        Declined(b, Now(), h, world);
        return GivenUp;
      }
      o := Answer(xpos, ypos, width, height, b, h, m);
    }

    /** Cut the rectangle to the screen, and send it unless it starts outside. */
    method Answer(xpos: u16, ypos: u16, width: u16, height: u16, ghost b: Snapshot, ghost h: seq<byte>,
      ghost m: Message)
      returns (o: Outcome)
      requires Ready() && GoodSession(b.session) && fb != null && Countable(fb.bpp, fb.width, fb.height)
      requires Now() == b.(unread := io.Unread(), session := Current()) && b.unread == h + io.Unread()
      requires Parse(h, world(b.round).memory) == Done(m, |h|)
      requires var w, ht := Min(width, fb.width), Min(height, fb.height);
               Handle(b.session, m, world(b.round)) ==
               if xpos > w || ypos > ht then Reply(Current(), [], [])
               else Reply(Current(), [], UpdateHeader(xpos, ypos, w, ht)
                 + BytesOf(fb.View().words, fb.bpp, format.bigEndian != 0))
      modifies this, io, io.wbuf, io.device, fb.pixels
      ensures Ended(o)
      ensures fb == old(fb) && fb.pixels == old(fb.pixels)
      ensures Advanced(b, Now(), h, o, world)
    {
      hide Parse, Advanced, Handle, Fair, UpdateHeader, BytesOf, WordsOf, NormFromMask, Size, Framebuffer.Valid,
        Io.Valid;
      var w := if width > fb.width then fb.width else width;
      var ht := if height > fb.height then fb.height else height;
      if xpos > w || ypos > ht {
        round := round + 1;
        Completed(b, Now(), h, Alive, m, world);
        return Alive;
      }
      var alive := SendUpdate(xpos, ypos, w, ht);
      if alive {
        round := round + 1;
      }
      o := if alive then Alive else EndedWriting;
      Completed(b, Now(), h, o, m, world);
    }

    // -------------------------------------------------------------------------------------
    // The dispatcher
    // -------------------------------------------------------------------------------------

    /** Look the type up and call its handler. */
    method Process(t: byte) returns (o: Outcome, ghost got: seq<byte>)
      requires Ready()
      modifies this, io, io.rbuf, io.wbuf, io.device, FbParts()
      ensures Ended(o)
      ensures fresh(FbParts() - old(FbParts()))
      ensures Advanced(old(Before(t)), Now(), [t] + got, o, world)
    {
      hide Advanced, Parse, Fair;
      ghost var b := Before(t);
      if t == 0 {
        o, got := SetPixelFormat();
      } else if t == 2 {
        o, got := SetEncodings();
      } else if t == 3 {
        o, got := UpdateRequest();
      } else if t == 4 {
        o, got := KeyEvent();
      } else if t == 5 {
        o, got := PointerEvent();
      } else if t == 6 {
        o, got := ClientCutText();
      } else {
        state := Error;
        o, got := GivenUp, [];
        UnknownType(t, world(round).memory);
        assert [t] + got == [t];
        Declined(b, Now(), [t], world);
      }
    }

    /** One turn of the loop. */
    method NextMessage(ghost start: Snapshot, ghost before: seq<byte>)
      returns (o: Outcome, ghost handed: seq<byte>)
      requires Ready() && GoodSession(start.session) && Advanced(start, Now(), before, Alive, world)
      modifies this, io, io.rbuf, io.wbuf, io.device, FbParts()
      ensures Ended(o)
      ensures fresh(FbParts() - old(FbParts()))
      ensures o == Alive ==> |io.Unread()| < |old(io.Unread())|
      ensures Advanced(start, Now(), handed, o, world)
    {
      hide Advanced, Fair, NormFromMask, Framebuffer.Valid, Io.Valid, Matches, Interpret;
      handed := before;
      EndedBetween(start, Now(), before, world);
      ghost var between := Now();
      var alive, t := NextType();
      if !alive {
        return EndedReading, handed;
      }
      ghost var got;
      assert Before(t) == between;
      o, got := Process(t);
      handed := before + ([t] + got);
      ghost var first := Interpret(start.session, start.round, before, world);
      ghost var second := Interpret(between.session, between.round, [t] + got, world);
      AdvancedIs(start, between, before, Alive, world);
      AdvancedIs(between, Now(), [t] + got, o, world);
      AdvancedIs(start, Now(), handed, o, world);
      AliveWaits(start, between, before, first);
      InterpretInParts(start.session, start.round, before, [t] + got, world);
      AdvancedOn(start, between, Now(), before, [t] + got, o, first, second);
      HandedOut(between, Now(), [t] + got, o, world);
    }

    /** Look whether to stop, then wait for the first byte of a message. */
    method NextType() returns (alive: bool, t: byte)
      requires Ready()
      modifies this`state, this`patience, io`rpos, io`rlen, io.rbuf, io.device`inbox, io.device`recvs, io.device`broken
      ensures Running(alive)
      ensures Now() == old(Now()).(unread := io.Unread())
      ensures old(io.Unread()) == if alive then [t] + io.Unread() else io.Unread()
    {
      t := 0;
      alive := CheckStopped();
      if !alive {
        return;
      }
      var buf := new byte[1];
      var l := ReadSome(buf, 0, 1);
      if l <= 0 {
        if l < 0 {
          state := Error;
        }
        alive := false;
        return;
      }
      t := buf[0];
      assert buf[0..1] == [t];
    }

    /** Messages, one after the other, until the thread is stopped, fails or gives the client up. */
    method Dispatch() returns (o: Outcome, ghost handed: seq<byte>)
      requires Ready()
      modifies this, io, io.rbuf, io.wbuf, io.device, FbParts()
      ensures Ended(o) && o != Alive
      ensures Advanced(old(Now()), Now(), handed, o, world)
    {
      hide Advanced, Fair, FairWorld, NormFromMask;
      ghost var start := Now();
      handed := [];
      NothingYet(start, world);
      while true
        invariant Ready() && fresh(FbParts() - old(FbParts()))
        invariant Advanced(start, Now(), handed, Alive, world)
        decreases |io.Unread()|
      {
        o, handed := NextMessage(start, handed);
        if o != Alive {
          return;
        }
      }
    }

    // -------------------------------------------------------------------------------------
    // The handshake
    // -------------------------------------------------------------------------------------

    /** Since `b`, `h` has been read and `sent` written. */
    ghost predicate At(b: Snapshot, h: seq<byte>, sent: seq<byte>)
      requires Valid()
      reads this, io, io.rbuf, io.wbuf, io.device, fb
    {
      Now() == b.(unread := io.Unread(), written := b.written + sent) && b.unread == h + io.Unread()
    }

    /** The thread ended while writing; of `sent`, some has been written. */
    ghost predicate CutShort(b: Snapshot, h: seq<byte>, sent: seq<byte>)
      requires Valid()
      reads this, io, io.rbuf, io.wbuf, io.device, fb
    {
      && Now() == b.(unread := io.Unread(), written := io.accepted) && b.unread == h + io.Unread()
      && Extends(b.written, io.accepted, sent, false)
    }

    method Fill(buf: array<byte>, data: seq<byte>)
      requires |data| <= buf.Length
      modifies buf
      ensures buf[..|data|] == data
    {
      forall k | 0 <= k < |data| {
        buf[k] := data[k];
      }
    }

    method Say(buf: array<byte>, ghost b: Snapshot, ghost h: seq<byte>, ghost sent: seq<byte>, len: nat)
      returns (alive: bool)
      requires Ready() && At(b, h, sent) && len <= buf.Length && buf != io.wbuf
      modifies this`state, this`patience, io`wlen, io`accepted, io`garbled, io.wbuf, io.device`outbox,
               io.device`sends, io.device`broken
      ensures Running(alive)
      ensures if alive then At(b, h, sent + buf[..len]) else CutShort(b, h, sent + buf[..len])
    {
      hide FairWorld, NormFromMask, Framebuffer.Valid, Io.Valid;
      alive := Send(buf, len);
      assert b.written + (sent + buf[..len]) == (b.written + sent) + buf[..len];
    }

    method Hear(buf: array<byte>, ghost b: Snapshot, ghost h: seq<byte>, ghost sent: seq<byte>, len: nat)
      returns (alive: bool, ghost got: seq<byte>)
      requires Ready() && At(b, h, sent) && len <= buf.Length && buf != io.wbuf && buf != io.rbuf
      modifies this`state, this`patience, io`rpos, io`rlen, io.rbuf, io.device`inbox, io.device`recvs,
               io.device`broken, buf
      ensures Running(alive) && At(b, h + got, sent)
      ensures if alive then got == buf[..len] else |got| < len
    {
      hide FairWorld, NormFromMask, Framebuffer.Valid, Io.Unread;
      alive, got := ReadAll(buf, 0, len);
      Assoc(h, got, io.Unread());
    }

    /** ClientInit, then ServerInit. */
    method Init(buf: array<byte>, ghost b: Snapshot, ghost h: seq<byte>, ghost sent: seq<byte>, width: u16, height: u16)
      returns (o: Outcome, ghost got: seq<byte>)
      requires Ready() && At(b, h, sent) && buf.Length == 256 && buf != io.wbuf && buf != io.rbuf
      modifies this`state, this`patience, io, io.rbuf, io.wbuf, io.device, buf
      ensures Ended(o) && o != GivenUp && o != Wrapped && |got| == (if o == EndedReading then 0 else 1)
      ensures o == EndedReading ==> At(b, h, sent)
      ensures o == EndedWriting ==> CutShort(b, h + got, sent + ServerInit(width, height))
      ensures o == Alive ==> At(b, h + got, sent + ServerInit(width, height))
    {
      hide FairWorld, NormFromMask, ServerInit, Framebuffer.Valid, Io.Valid;
      var alive;
      alive, got := Hear(buf, b, h, sent, 1);
      if !alive {
        assert h + got == h;
        return EndedReading, got;
      }
      Fill(buf, ServerInit(width, height));
      alive := Say(buf, b, h + got, sent, 28);
      o := if alive then Alive else EndedWriting;
    }

    /** Version 3.3: the server decides. */
    method Announce(buf: array<byte>, ghost b: Snapshot, ghost text: seq<byte>, width: u16, height: u16)
      returns (o: Outcome, ghost got: seq<byte>)
      requires Ready() && At(b, text, VersionText(V8)) && |text| == 12 && VersionOf(text) == V3
      requires buf.Length == 256 && buf != io.wbuf && buf != io.rbuf
      modifies this`state, this`patience, io, io.rbuf, io.wbuf, io.device, buf
      ensures Ended(o) && Greeted(b, Now(), got, o, width, height)
    {
      hide FairWorld, NormFromMask, Greet, VersionText, VersionOf, ServerInit, Framebuffer.Valid, Io.Valid;
      ghost var sent := VersionText(V8) + SECURITY_IS_NONE;
      GreetStages(text, [], width, height);
      assert text + [] == text;
      Fill(buf, SECURITY_IS_NONE);
      var alive := Say(buf, b, text, VersionText(V8), 4);
      if !alive {
        return EndedWriting, text;
      }
      ghost var more;
      o, more := Init(buf, b, text, sent, width, height);
      got := text + more;
      GreetStages(text, more, width, height);
    }

    /** Versions 3.7 and 3.8: the client chooses from a list of one. */
    method Choose(buf: array<byte>, ghost b: Snapshot, ghost text: seq<byte>, width: u16, height: u16)
      returns (o: Outcome, ghost got: seq<byte>)
      requires Ready() && At(b, text, VersionText(V8)) && |text| == 12 && version == VersionOf(text) != V3
      requires buf.Length == 256 && buf != io.wbuf && buf != io.rbuf
      modifies this`state, this`patience, io, io.rbuf, io.wbuf, io.device, buf
      ensures Ended(o) && Greeted(b, Now(), got, o, width, height)
    {
      hide FairWorld, NormFromMask, Greet, VersionText, VersionOf, ServerInit, Framebuffer.Valid, Io.Valid;
      ghost var sent := VersionText(V8) + SECURITY_TYPES;
      GreetStages(text, [], width, height);
      assert text + [] == text;
      Fill(buf, SECURITY_TYPES);
      var alive := Say(buf, b, text, VersionText(V8), 2);
      if !alive {
        return EndedWriting, text;
      }
      ghost var choice;
      alive, choice := Hear(buf, b, text, sent, 1);
      if !alive {
        assert text + choice == text;
        return EndedReading, text;
      }
      o, got := Chosen(buf, b, text, choice, width, height);
    }

    /** Any choice but the one on the list ends the connection. */
    method Chosen(buf: array<byte>, ghost b: Snapshot, ghost text: seq<byte>, ghost choice: seq<byte>, width: u16,
      height: u16)
      returns (o: Outcome, ghost got: seq<byte>)
      requires Ready() && |text| == 12 && version == VersionOf(text) != V3
      requires buf.Length == 256 && buf != io.wbuf && buf != io.rbuf && choice == buf[..1]
      requires At(b, text + choice, VersionText(V8) + SECURITY_TYPES)
      modifies this`state, this`patience, io, io.rbuf, io.wbuf, io.device, buf
      ensures Ended(o) && Greeted(b, Now(), got, o, width, height)
    {
      hide FairWorld, NormFromMask, Greet, VersionText, VersionOf, ServerInit, Framebuffer.Valid, Io.Valid;
      got := text + choice;
      GreetStages(text, choice, width, height);
      if buf[0] != SECURITY_NONE {
        state := Error;
        return GivenUp, got;
      }
      o, got := Accept(buf, b, text, choice, width, height);
    }

    /** What has been written once the security type is settled. */
    ghost function SettledText(): seq<byte>
      reads this
    {
      var offer := VersionText(V8) + SECURITY_TYPES;
      if version == V8 then offer + SECURITY_OK else offer
    }

    /** Version 3.8 is told that the choice was right. */
    method Confirm(buf: array<byte>, ghost b: Snapshot, ghost h: seq<byte>) returns (alive: bool)
      requires Ready() && At(b, h, VersionText(V8) + SECURITY_TYPES)
      requires buf.Length == 256 && buf != io.wbuf
      modifies this`state, this`patience, io`wlen, io`accepted, io`garbled, io.wbuf, io.device`outbox,
               io.device`sends, io.device`broken, buf
      ensures Running(alive)
      ensures if alive then At(b, h, SettledText()) else CutShort(b, h, SettledText())
    {
      hide FairWorld, NormFromMask, VersionText, Framebuffer.Valid, Io.Valid;
      alive := true;
      if version == V8 {
        Fill(buf, SECURITY_OK);
        alive := Say(buf, b, h, VersionText(V8) + SECURITY_TYPES, 4);
      }
    }

    method Accept(buf: array<byte>, ghost b: Snapshot, ghost text: seq<byte>, ghost choice: seq<byte>, width: u16,
      height: u16)
      returns (o: Outcome, ghost got: seq<byte>)
      requires Ready() && |text| == 12 && version == VersionOf(text) != V3 && choice == [SECURITY_NONE]
      requires At(b, text + choice, VersionText(V8) + SECURITY_TYPES)
      requires buf.Length == 256 && buf != io.wbuf && buf != io.rbuf
      modifies this`state, this`patience, io, io.rbuf, io.wbuf, io.device, buf
      ensures Ended(o) && Greeted(b, Now(), got, o, width, height)
    {
      hide FairWorld, NormFromMask, Greet, VersionText, VersionOf, ServerInit, Framebuffer.Valid, Io.Valid;
      got := text + choice;
      GreetStages(text, choice, width, height);
      var alive := Confirm(buf, b, got);
      if !alive {
        return EndedWriting, got;
      }
      ghost var more;
      o, more := Init(buf, b, got, SettledText(), width, height);
      got := got + more;
      GreetedLast(b, Now(), text, choice, more, o, width, height);
    }

    /** Announce 3.8 and see what the client makes of it. */
    method Hello(buf: array<byte>, width: u16, height: u16) returns (o: Outcome, ghost text: seq<byte>)
      requires Ready() && buf.Length == 256 && buf != io.wbuf && buf != io.rbuf
      modifies this`state, this`patience, this`version, io, io.rbuf, io.wbuf, io.device, buf
      ensures Ended(o) && o != GivenUp && o != Wrapped
      ensures if o == Alive then |text| == 12 && version == VersionOf(text) && At(old(Now()), text, VersionText(V8))
              else Greeted(old(Now()), Now(), text, o, width, height)
    {
      hide FairWorld, NormFromMask, Greet, VersionText, VersionOf, Framebuffer.Valid, Io.Valid;
      ghost var b := Now();
      text := [];
      var msg := new VersionMessage(V8);
      var rc, len := msg.Encode(buf, 256);
      assert [] + buf[..12] == VersionText(V8) && At(b, [], []);
      var alive := Say(buf, b, [], [], len);
      if !alive {
        GreetStages([], [], width, height);
        return EndedWriting, text;
      }
      o, text := HearVersion(buf, b, width, height);
    }

    method HearVersion(buf: array<byte>, ghost b: Snapshot, width: u16, height: u16)
      returns (o: Outcome, ghost text: seq<byte>)
      requires Ready() && At(b, [], VersionText(V8)) && buf.Length == 256 && buf != io.wbuf && buf != io.rbuf
      modifies this`state, this`patience, this`version, io, io.rbuf, io.device, buf
      ensures Ended(o) && o != GivenUp && o != Wrapped
      ensures if o == Alive then |text| == 12 && version == VersionOf(text) && At(b, text, VersionText(V8))
              else Greeted(b, Now(), text, o, width, height)
    {
      hide FairWorld, NormFromMask, Greet, VersionText, VersionOf, Framebuffer.Valid, Io.Valid;
      var alive;
      alive, text := Hear(buf, b, [], VersionText(V8), 12);
      assert [] + text == text && text + [] == text;
      if !alive {
        GreetStages(text, [], width, height);
        return EndedReading, text;
      }
      var msg := new VersionMessage(V8);
      var rc := msg.Decode(buf, 12);
      version := msg.proto;
      o := Alive;
    }

    /** Exchange versions, settle on no security, announce the screen. */
    method Negotiate(width: u16, height: u16) returns (o: Outcome, ghost got: seq<byte>)
      requires Ready()
      modifies this, io, io.rbuf, io.wbuf, io.device
      ensures Ended(o) && fb == old(fb)
      ensures Greeted(old(Now()), Now(), got, o, width, height)
    {
      hide FairWorld, NormFromMask, Greeted, VersionText, VersionOf;
      ghost var b := Now();
      var buf := new byte[256];
      o, got := Hello(buf, width, height);
      if o == Alive {
        if version == V3 {
          o, got := Announce(buf, b, got, width, height);
        } else {
          o, got := Choose(buf, b, got, width, height);
        }
      }
    }

    /** The whole thread: handshake, then messages. */
    method Run(width: u16, height: u16) returns (o: Outcome, ghost handed: seq<byte>)
      requires Ready() && fb == null && Current() == FRESH && round == 0
      modifies this, io, io.rbuf, io.wbuf, io.device
      ensures Ended(o) && o != Alive
      ensures Served(old(Now()), Now(), handed, o, width, height, world)
      ensures !io.garbled ==> io.Outgoing() == io.accepted
      ensures io.lossless ==> !io.garbled
    {
      hide FairWorld, NormFromMask, Greeted, Served, Advanced;
      state := Working;
      ghost var b := Now();
      o, handed := Negotiate(width, height);
      if o != Alive {
        ServedGreeting(b, Now(), handed, o, width, height, world);
        return;
      }
      ghost var m := Now();
      assert m.session == FRESH && m.round == 0 by {
        GreetedKeeps(b, m, handed, o, width, height);
      }
      ghost var more;
      o, more := Dispatch();
      Complete(b, m, Now(), handed, more, o, width, height, world);
      handed := handed + more;
    }
  }
}
