/** What a client sees of the screen, after any history of messages. */
module Updates {
  import opened Words
  import opened Pixels
  import opened PixelMemory
  import opened Framebuffers
  import opened Conversion
  import opened Protocol
  import opened Messages
  import opened Sessions
  import opened Handshakes

  // ---------------------------------------------------------------------------------------
  // Pixels
  // ---------------------------------------------------------------------------------------

  /** The pixel a client reads at column x of row y of a raw rectangle `width` pixels wide. */
  function ClientPixel(payload: seq<byte>, bpp: nat, bigEndian: bool, width: nat, x: nat, y: nat): word
    requires Supported(bpp) && Size(bpp, y * width + x + 1) <= |payload|
  {
    Loaded(Cell(payload, bpp, y * width + x), bigEndian)
  }

  /** The three channel values of a pixel are those of the colour, brought down to the layout's width. */
  predicate ShowsColour(l: Layout, pixel: word, colour: word) {
    && Channel(pixel, l.rmask, l.rshift) == And(Shr(Red(colour), NormFromMask(l.rmask)), l.rmask)
    && Channel(pixel, l.gmask, l.gshift) == And(Shr(Green(colour), NormFromMask(l.gmask)), l.gmask)
    && Channel(pixel, l.bmask, l.bshift) == And(Shr(Blue(colour), NormFromMask(l.bmask)), l.bmask)
  }

  lemma OwnChannel(y: word, m: word)
    requires m <= 0xff
    ensures And(Shr(Shl(And(y, m), NormFromMask(m)), NormFromMask(m)), m) == And(y, m)
  {
    KeptFits(m);
    OwnField(y, m, NormFromMask(m));
  }

  /** A pixel shows its own colour: the block copy needs no re-packing. */
  lemma OwnColour(l: Layout, c: word)
    requires WellFormed(l)
    ensures ShowsColour(l, c, Unpack(l, c))
  {
    hide And, Shl, Shr, NormFromMask, Red, Green, Blue, Unpack;
    UnpackedParts(l, c);
    OwnChannel(Shr(c, l.rshift), l.rmask);
    OwnChannel(Shr(c, l.gshift), l.gmask);
    OwnChannel(Shr(c, l.bshift), l.bmask);
  }

  /** The format a client has chosen. */
  datatype Choice = Choice(layout: Layout, bigEndian: bool)

  /** What the client reads at (x, y) is the screen's pixel, as far as the chosen format can tell. */
  predicate ShowsPixel(payload: seq<byte>, c: Choice, screen: Image, x: nat, y: nat)
    requires ValidImage(screen) && Supported(c.layout.bpp) && x < screen.width && y < screen.height
  {
    && Size(c.layout.bpp, y * screen.width + x + 1) <= |payload|
    && ShowsColour(c.layout, ClientPixel(payload, c.layout.bpp, c.bigEndian, screen.width, x, y),
      ColourAt(screen, x, y))
  }

  /**
   * Every pixel of the payload, read in the client's byte order and with the client's shifts
   * and maxima, is the server's pixel at that place. The host's byte order does not matter, and
   * neither does anything an earlier update left behind.
   */
  lemma PayloadShowsScreen(screen: Image, c: Choice, x: nat, y: nat)
    requires ValidImage(screen) && WellFormed(screen.layout) && Disjoint(c.layout)
    requires x < screen.width && y < screen.height
    ensures ShowsPixel(Payload(screen, c.layout, c.bigEndian), c, screen, x, y)
  {
    hide Pack, Unpack, ShowsColour, WellFormed, Disjoint, Loaded, Stored, And, Limit, Size;
    var l := c.layout;
    Wf(l);
    IndexBound(screen.width, screen.height, x, y);
    var i := y * screen.width + x;
    var words := Converted(screen, l).words;
    BytesOfCell(words, l.bpp, c.bigEndian, i);
    ConvertedValid(screen, l);
    LoadedStored(words[i], l.bpp, c.bigEndian);
    if screen.layout == l {
      OwnColour(l, screen.words[i]);
    } else {
      PackedShows(l, Unpack(screen.layout, screen.words[i]));
    }
  }

  lemma PackedShows(l: Layout, colour: word)
    requires Disjoint(l)
    ensures ShowsColour(l, Pack(l, colour), colour)
  {
    PackedChannels(l, colour);
  }

  // ---------------------------------------------------------------------------------------
  // Rectangles
  // ---------------------------------------------------------------------------------------

  /**
   * The header announces a rectangle, the payload is the whole screen. They fit each other, and
   * the rectangle lies on the screen, exactly when the client asked for the whole screen.
   */
  lemma HeaderFitsPayload(x: u16, y: u16, width: u16, height: u16, screen: Image, l: Layout, bigEndian: bool)
    requires ValidImage(screen) && Supported(l.bpp) && screen.width > 0 && screen.height > 0
    ensures var w, h := Min(width, screen.width), Min(height, screen.height);
            (x + w <= screen.width && y + h <= screen.height && |Payload(screen, l, bigEndian)| == Size(l.bpp, w * h))
            <==> (x == 0 && y == 0 && width >= screen.width && height >= screen.height)
  {
    var w, h := Min(width, screen.width), Min(height, screen.height);
    SameArea(w, h, screen.width, screen.height);
  }

  lemma SameArea(w: nat, h: nat, width: nat, height: nat)
    requires w <= width && h <= height && width > 0 && height > 0
    ensures w * h == width * height <==> w == width && h == height
  {
    assert w * h <= w * height <= width * height;
    if w < width {
      assert (w + 1) * height <= width * height;
    } else if h < height {
      assert width * (h + 1) <= width * height;
    }
  }

  /** A request for a part of the screen, and the reply that does not fit its own header. */
  lemma PartialRequestCounterexample()
    ensures var screen := Image(2, 1, FB8, [1, 2]);
            && ValidImage(screen)
            && |Payload(screen, FB8, false)| == 2
            && Size(1, Min(1, screen.width) * Min(1, screen.height)) == 1
  {
  }

  // ---------------------------------------------------------------------------------------
  // Histories
  // ---------------------------------------------------------------------------------------

  /** One message's effect on the choice: only setting a format changes it. */
  function ChoiceAfter(c: Choice, m: Message): (r: Choice)
    ensures !m.SetPixelFormat? ==> r == c
    ensures m.SetPixelFormat? ==> r.layout.bpp == m.format.bpp / 8 && (r.bigEndian <==> m.format.bigEndian != 0)
    ensures m.SetPixelFormat? ==> ToNat(r.layout.rmask, 32) == m.format.rmax && r.layout.rshift == m.format.rshift
    ensures m.SetPixelFormat? ==> ToNat(r.layout.gmask, 32) == m.format.gmax && r.layout.gshift == m.format.gshift
    ensures m.SetPixelFormat? ==> ToNat(r.layout.bmask, 32) == m.format.bmax && r.layout.bshift == m.format.bshift
  {
    if m.SetPixelFormat? then
      LayoutNumbers(m.format);
      Choice(LayoutOf(m.format.(bpp := m.format.bpp / 8)), m.format.bigEndian != 0)
    else c
  }

  /** The format in force after a history of messages: the last one set, or what was before. */
  function Chosen(c: Choice, ps: seq<Packet>): Choice
    decreases |ps|
  {
    if ps == [] then c else Chosen(ChoiceAfter(c, ps[0].message), ps[1..])
  }

  /** The server never changes the layout of its own framebuffer. */
  ghost predicate SteadyLayout(world: World, server: Layout) {
    forall k: nat :: world(k).first.layout == server && world(k).second.layout == server
  }

  /** A session is in step with a choice; a session without a framebuffer will copy the server's. */
  predicate InForce(s: Session, c: Choice, server: Layout) {
    && c.layout == (if s.screen.Some? then s.screen.value.layout else server)
    && c.bigEndian == (s.format.bigEndian != 0)
  }

  lemma OneMore(s: Session, m: Message, w: Weather, server: Layout, c: Choice)
    requires Fair(w) && GoodSession(s) && InForce(s, c, server) && w.first.layout == server
    requires Handle(s, m, w).Reply?
    ensures InForce(Handle(s, m, w).session, ChoiceAfter(c, m), server)
  {
    hide LayoutOf, Payload, UpdateHeader;
  }

  /** After any history the session paints in the format that is in force. */
  lemma {:induction false} HistoryDecides(s: Session, k: nat, ps: seq<Packet>, world: World, c: Choice, server: Layout)
    requires FairWorld(world) && SteadyLayout(world, server) && GoodSession(s) && InForce(s, c, server)
    requires HandleAll(s, k, ps, world).status == Waiting
    ensures InForce(HandleAll(s, k, ps, world).session, Chosen(c, ps), server)
    decreases |ps|
  {
    hide Handle, Bytes, ChoiceAfter, InForce;
    if ps != [] {
      var r := Handle(s, ps[0].message, world(k));
      OneMore(s, ps[0].message, world(k), server, c);
      HistoryDecides(r.session, k + 1, ps[1..], world, ChoiceAfter(c, ps[0].message), server);
    }
  }

  /** The guard in front of the reply. It compares the corner with the rectangle's own size. */
  predicate Guarded(m: Message, screen: Image)
    requires m.UpdateRequest?
  {
    m.x <= Min(m.width, screen.width) && m.y <= Min(m.height, screen.height)
  }

  /** What a client gets for a request: a header and the whole screen, or nothing. */
  function Answer(m: Message, c: Choice, screen: Image): seq<byte>
    requires m.UpdateRequest? && Supported(c.layout.bpp) && ValidImage(screen)
  {
    if Guarded(m, screen) then
      UpdateHeader(m.x, m.y, Min(m.width, screen.width), Min(m.height, screen.height))
      + Payload(screen, c.layout, c.bigEndian)
    else []
  }

  /**
   * What a client reads in the bytes it gets for a request that the guard lets through: a header for
   * the rectangle, cut to the screen's size, then the whole screen. For any other it gets nothing.
   */
  ghost predicate ReadsUpdate(reply: seq<byte>, m: Message, c: Choice, screen: Image)
    requires m.UpdateRequest? && Supported(c.layout.bpp) && ValidImage(screen)
  {
    if Guarded(m, screen) then
      && |reply| >= 16
      && RawHeader(reply[..16], m.x, m.y, Min(m.width, screen.width), Min(m.height, screen.height))
      && ShowsScreen(reply[16..], c, screen)
    else reply == []
  }

  lemma AnswerReads(m: Message, c: Choice, screen: Image)
    requires m.UpdateRequest? && ValidImage(screen) && WellFormed(screen.layout) && Disjoint(c.layout)
    ensures Supported(c.layout.bpp) && ReadsUpdate(Answer(m, c, screen), m, c, screen)
  {
    hide Payload, UpdateHeader, ShowsScreen, WellFormed, Disjoint, RawHeader;
    Wf(c.layout);
    var width, height := Min(m.width, screen.width), Min(m.height, screen.height);
    HeaderReads(m.x, m.y, width, height);
    PayloadShowsAll(screen, c);
    if Guarded(m, screen) {
      var reply := Answer(m, c, screen);
      assert reply[..16] == UpdateHeader(m.x, m.y, width, height);
      assert reply[16..] == Payload(screen, c.layout, c.bigEndian);
    }
  }

  /** The reply to an update request of a session in step with a choice. */
  lemma UpdateReply(s: Session, m: Message, w: Weather, c: Choice, server: Layout)
    requires Fair(w) && GoodSession(s) && InForce(s, c, server) && w.first.layout == server
    requires m.UpdateRequest? && Supported(c.layout.bpp)
    requires Handle(s, m, w).Reply?
    ensures Handle(s, m, w).out == Answer(m, c, w.second)
  {
    hide Payload, UpdateHeader;
  }

  ghost predicate ShowsScreen(payload: seq<byte>, c: Choice, screen: Image)
    requires ValidImage(screen) && Supported(c.layout.bpp)
  {
    && |payload| == Size(c.layout.bpp, screen.width * screen.height)
    && forall x: nat, y: nat | x < screen.width && y < screen.height :: ShowsPixel(payload, c, screen, x, y)
  }

  lemma PayloadShowsAll(screen: Image, c: Choice)
    requires ValidImage(screen) && WellFormed(screen.layout) && Disjoint(c.layout)
    ensures ShowsScreen(Payload(screen, c.layout, c.bigEndian), c, screen)
  {
    hide Payload, ShowsColour, WellFormed, Disjoint, ColourAt, ValidImage, ShowsPixel;
    Wf(c.layout);
    PayloadSize(screen, c.layout, c.bigEndian);
    forall x: nat, y: nat | x < screen.width && y < screen.height
      ensures ShowsPixel(Payload(screen, c.layout, c.bigEndian), c, screen, x, y)
    {
      PayloadShowsScreen(screen, c, x, y);
    }
  }

  lemma PayloadSize(screen: Image, l: Layout, bigEndian: bool)
    requires ValidImage(screen) && Supported(l.bpp)
    ensures |Payload(screen, l, bigEndian)| == Size(l.bpp, screen.width * screen.height)
  {
  }

  /** The rectangle asked for lies on the screen. */
  predicate OnScreen(m: Message, screen: Image)
    requires m.UpdateRequest?
  {
    m.x + m.width <= screen.width && m.y + m.height <= screen.height
  }

  /**
   * A request for a rectangle on the screen is answered exactly if its corner is no further from
   * the origin than the rectangle is wide and high. Others are ignored without a word.
   */
  lemma AnsweredExact(s: Session, m: Message, w: Weather)
    requires Fair(w) && GoodSession(s) && m.UpdateRequest? && OnScreen(m, w.second)
    requires Handle(s, m, w).Reply?
    ensures Handle(s, m, w).out != [] <==> m.x <= m.width && m.y <= m.height
  {
    hide Payload, UpdateHeader;
  }

  /** The last of three pixels in a row is on the screen and is not sent; nothing at all is past it, and is. */
  lemma IgnoredRequestCounterexample()
    ensures var screen := Image(3, 1, FB8, [1, 2, 3]);
            var w := Weather(screen, screen, true);
            var last, past := Message.UpdateRequest(0, 2, 0, 1, 1), Message.UpdateRequest(0, 3, 0, 3, 1);
            && Fair(w) && Kind(w) && OnScreen(last, screen) && !OnScreen(past, screen)
            && Handle(FRESH, last, w).Reply? && Handle(FRESH, last, w).out == []
            && Handle(FRESH, past, w).Reply? && |Handle(FRESH, past, w).out| == 19
  {
    hide UpdateHeader;
    var screen := Image(3, 1, FB8, [1, 2, 3]);
    assert screen.words[0] == 1 && screen.words[1] == 2 && screen.words[2] == 3;
    assert And(1, 0xff) == 1 && And(2, 0xff) == 2 && And(3, 0xff) == 3;
    assert |Payload(screen, FB8, false)| == 3;
  }

  /**
   * The main result: let a client send any messages, then ask for an update. If the connection
   * is still served, what the server adds to its output, unless the guard drops the request, is
   * one header and a payload in which every pixel, read as the client's last format says, is the
   * server's pixel.
   */
  lemma UpdateAfterHistory(ps: seq<Packet>, request: Packet, world: World, server: Layout, c: Choice)
    requires FairWorld(world) && SteadyLayout(world, server) && WellFormed(server)
    requires TextsFit(0, ps, world)
    requires c == Chosen(Choice(server, false), ps) && Disjoint(c.layout)
    requires request.message.UpdateRequest?
    ensures var t := Interpret(FRESH, 0, EncodeAll(ps), world);
            var screen := world(t.next).second;
            ValidImage(screen) &&
            (t.status == Waiting && Interpret(t.session, t.next, Bytes(request), world).status == Waiting ==>
               exists reply ::
                 && Interpret(FRESH, 0, EncodeAll(ps) + Bytes(request), world).out == t.out + reply
                 && ReadsUpdate(reply, request.message, c, screen))
  {
    hide Handle, Bytes, Parse, InForce, Payload, UpdateHeader, ShowsScreen, WellFormed, Disjoint, Chosen, EncodeAll,
      ValidImage, Interpret, Answer, ReadsUpdate;
    var t := Interpret(FRESH, 0, EncodeAll(ps), world);
    var m, w := request.message, world(t.next);
    assert Fair(w);
    Wf(c.layout);
    if t.status == Waiting && Interpret(t.session, t.next, Bytes(request), world).status == Waiting {
      DispatchIsExact(FRESH, 0, ps, world);
      StartsInForce(server);
      HistoryDecides(FRESH, 0, ps, world, Choice(server, false), server);
      InterpretInParts(FRESH, 0, EncodeAll(ps), Bytes(request), world);
      ParseEncoded(request, [], w.memory);
      assert Bytes(request) + [] == Bytes(request);
      InterpretOne(t.session, t.next, Bytes(request), world);
      UpdateReply(t.session, m, w, c, server);
      SteadyAt(world, t.next, server);
      AnswerReads(m, c, w.second);
    }
  }

  lemma SteadyAt(world: World, k: nat, server: Layout)
    requires SteadyLayout(world, server)
    ensures world(k).first.layout == world(k).second.layout == server
  {
  }

  lemma StartsInForce(server: Layout)
    ensures InForce(FRESH, Choice(server, false), server)
  {
  }

  // ---------------------------------------------------------------------------------------
  // Who is served
  // ---------------------------------------------------------------------------------------

  /** There is memory, and a screen to show whose bytes can be counted at any pixel size. */
  predicate Kind(w: Weather) {
    && w.memory
    && w.first.width > 0 && w.first.height > 0 && Countable(4, w.first.width, w.first.height)
    && w.second.width > 0 && w.second.height > 0 && Countable(4, w.second.width, w.second.height)
  }

  ghost predicate KindWorld(world: World) {
    forall k: nat :: Kind(world(k))
  }

  /** The guard of SetPixelFormat; every other message is acceptable. */
  predicate Acceptable(m: Message) {
    m.SetPixelFormat? ==> Supported(m.format.bpp / 8)
  }

  /** The session's framebuffer, if it has one, is not empty. */
  predicate NotEmpty(s: Session) {
    s.screen.Some? ==> s.screen.value.width > 0 && s.screen.value.height > 0
  }

  lemma HandlerServes(s: Session, m: Message, w: Weather)
    requires Fair(w) && Kind(w) && GoodSession(s) && NotEmpty(s)
    ensures Handle(s, m, w).Reply? <==> Acceptable(m)
    ensures Handle(s, m, w).Reply? ==> NotEmpty(Handle(s, m, w).session)
  {
    hide LayoutOf, Payload, UpdateHeader;
  }

  /** A client is given up exactly if one of its formats has a pixel size other than 1, 2 or 4 bytes. */
  lemma {:induction false} HistoryServes(s: Session, k: nat, ps: seq<Packet>, world: World)
    requires FairWorld(world) && KindWorld(world) && GoodSession(s) && NotEmpty(s)
    ensures HandleAll(s, k, ps, world).status == Waiting <==> AllAcceptable(ps)
    decreases |ps|
  {
    hide Handle, Bytes, Acceptable, NotEmpty;
    if ps != [] {
      var r := Handle(s, ps[0].message, world(k));
      assert Kind(world(k));
      HandlerServes(s, ps[0].message, world(k));
      assert ps == [ps[0]] + ps[1..];
      if r.Reply? {
        HistoryServes(r.session, k + 1, ps[1..], world);
      }
    }
  }

  predicate AllAcceptable(ps: seq<Packet>) {
    forall p | p in ps :: Acceptable(p.message)
  }

  /** Each message that is answered is counted, and none empties the framebuffer. */
  lemma {:induction false} HistoryCounts(s: Session, k: nat, ps: seq<Packet>, world: World)
    requires FairWorld(world) && KindWorld(world) && GoodSession(s) && NotEmpty(s)
    requires HandleAll(s, k, ps, world).status == Waiting
    ensures HandleAll(s, k, ps, world).next == k + |ps| && NotEmpty(HandleAll(s, k, ps, world).session)
    decreases |ps|
  {
    hide Handle, Bytes, Acceptable, NotEmpty;
    if ps != [] {
      assert Kind(world(k));
      HandlerServes(s, ps[0].message, world(k));
      HistoryCounts(Handle(s, ps[0].message, world(k)).session, k + 1, ps[1..], world);
    }
  }

  /**
   * The main result without a word about the connection's fate: whatever a client has sent, as
   * long as its formats have a supported pixel size and its texts are short of 2^31 bytes, the
   * next update request is served: the guard lets it through or it is ignored, and what it gets
   * shows the screen in the format that is in force.
   */
  lemma EveryUpdateIsServed(ps: seq<Packet>, request: Packet, world: World, server: Layout, c: Choice)
    requires FairWorld(world) && KindWorld(world) && SteadyLayout(world, server) && WellFormed(server)
    requires forall p | p in ps :: Acceptable(p.message) && (p.message.CutText? ==> p.message.len < 0x8000_0000)
    requires c == Chosen(Choice(server, false), ps) && Disjoint(c.layout)
    requires request.message.UpdateRequest?
    ensures ValidImage(world(|ps|).second)
    ensures var screen := world(|ps|).second;
            var before := Interpret(FRESH, 0, EncodeAll(ps), world);
            && before.status == Waiting
            && exists reply ::
                 && Interpret(FRESH, 0, EncodeAll(ps) + Bytes(request), world).out == before.out + reply
                 && ReadsUpdate(reply, request.message, c, screen)
  {
    hide Handle, Bytes, Parse, Payload, UpdateHeader, ShowsScreen, ReadsUpdate, WellFormed, Disjoint, Chosen, EncodeAll,
      ValidImage, NotEmpty;
    assert TextsFit(0, ps, world) by {
      forall i: nat | i < |ps| && ps[i].message.CutText?
        ensures ps[i].message.len < 0x8000_0000 && world(0 + i).memory
      {
        assert ps[i] in ps && Kind(world(i));
      }
    }
    FreshHasNone();
    Wf(c.layout);
    DispatchIsExact(FRESH, 0, ps, world);
    HistoryServes(FRESH, 0, ps, world);
    HistoryCounts(FRESH, 0, ps, world);
    var t := Interpret(FRESH, 0, EncodeAll(ps), world);
    RequestServed(t.session, |ps|, request, world);
    UpdateAfterHistory(ps, request, world, server, c);
  }

  /**
   * From the first byte to the last: all that a client that keeps to its version gets is that
   * version's greeting, the replies to what it sent before, and an update that shows the screen.
   */
  lemma ConformingClientIsServed(
    text: seq<byte>, shared: byte, ps: seq<Packet>, request: Packet, world: World, server: Layout, c: Choice,
    width: u16, height: u16)
    requires |text| == 12
    requires FairWorld(world) && KindWorld(world) && SteadyLayout(world, server) && WellFormed(server)
    requires forall p | p in ps :: Acceptable(p.message) && (p.message.CutText? ==> p.message.len < 0x8000_0000)
    requires c == Chosen(Choice(server, false), ps) && Disjoint(c.layout)
    requires request.message.UpdateRequest?
    ensures ValidImage(world(|ps|).second)
    ensures var v, screen := VersionOf(text), world(|ps|).second;
            exists reply ::
              && Serve(text + ClientReply(v, shared) + (EncodeAll(ps) + Bytes(request)), width, height, world).out
                 == Concat(ServerMessages(v, width, height))
                    + (Interpret(FRESH, 0, EncodeAll(ps), world).out + reply)
              && ReadsUpdate(reply, request.message, c, screen)
  {
    hide Greet, VersionOf, ClientReply, ServerMessages, Interpret, EncodeAll, Bytes, Payload, UpdateHeader, ShowsScreen,
      ReadsUpdate, WellFormed, Disjoint, Chosen, ValidImage;
    var hello, rest := text + ClientReply(VersionOf(text), shared), EncodeAll(ps) + Bytes(request);
    GreetingConforms(text, shared, rest, width, height);
    assert (hello + rest)[|hello|..] == rest;
    EveryUpdateIsServed(ps, request, world, server, c);
  }

  /** Such worlds exist. */
  lemma KindWorldsExist()
    ensures var image := Image(1, 1, FB8, [0]);
            var world: World := (_ => Weather(image, image, true));
            FairWorld(world) && KindWorld(world) && SteadyLayout(world, FB8) && WellFormed(FB8)
  {
    hide WellFormed, Disjoint;
    BuiltInLayouts();
    OnePixel();
    hide ValidImage;
    var image := Image(1, 1, FB8, [0]);
    assert Fair(Weather(image, image, true)) && Kind(Weather(image, image, true));
  }

  lemma OnePixel()
    ensures ValidImage(Image(1, 1, FB8, [0]))
  {
    OrLaws(0xff);
  }

  lemma FreshHasNone()
    ensures NotEmpty(FRESH)
  {
  }

  lemma RequestServed(s: Session, k: nat, request: Packet, world: World)
    requires FairWorld(world) && KindWorld(world) && GoodSession(s) && NotEmpty(s) && request.message.UpdateRequest?
    ensures Interpret(s, k, Bytes(request), world).status == Waiting
  {
    hide Handle, Bytes, Parse;
    assert Kind(world(k));
    ParseEncoded(request, [], world(k).memory);
    assert Bytes(request) + [] == Bytes(request);
    InterpretOne(s, k, Bytes(request), world);
    HandlerServes(s, request.message, world(k));
  }

  // ---------------------------------------------------------------------------------------
  // Width by width
  // ---------------------------------------------------------------------------------------

  /** Whatever the screen's height, SetPixelFormat leaves a framebuffer that is as high as the screen is wide. */
  lemma SquareIsMade(s: Session, f: Format, w: Weather)
    requires Fair(w) && GoodSession(s) && Handle(s, Message.SetPixelFormat(f), w).Reply?
    ensures var r := Handle(s, Message.SetPixelFormat(f), w);
            && r.session.screen.Some? && r.out == [] && r.events == []
            && r.session.screen.value.width == w.first.width && r.session.screen.value.height == w.first.width
            && HasNumbers(r.session.screen.value.layout, f)
  {
    hide LayoutOf, ToNat;
    LayoutNumbers(f);
  }

  /**
   * SetPixelFormat makes a framebuffer as high as it is wide. The next update repairs it, so that
   * it makes a difference exactly if there is no memory for that and only one of the two, the square
   * or what was meant, has the screen's size.
   */
  lemma SquareExact(width: nat, height: nat, l: Layout, f: Format, m: Message, w: Weather)
    requires Fair(w) && Supported(l.bpp) && m.UpdateRequest?
    requires width > 0 && height > 0 && w.second.width > 0 && w.second.height > 0
    ensures Handle(Session(Some(Screen(width, width, l)), f), m, w)
            == Handle(Session(Some(Screen(width, height, l)), f), m, w)
            <==> w.memory || width != w.second.width || (width == w.second.height <==> height == w.second.height)
  {
    hide Payload, UpdateHeader;
  }

  /**
   * A client chooses a format while the screen has two pixels side by side, and there is no memory
   * for its next update: the square it has got is given up, what was meant would be painted.
   */
  lemma SquareCounterexample()
    ensures var screen := Image(2, 1, FB8, [1, 2]);
            var w, w', m := Weather(screen, screen, true), Weather(screen, screen, false),
              Message.UpdateRequest(0, 0, 0, 2, 1);
            var r := Handle(FRESH, Message.SetPixelFormat(Format(8, 8, 0, 1, 7, 7, 3, 0, 3, 6)), w);
            && Fair(w) && Fair(w') && r.Reply? && r.session.screen.Some?
            && r.session.screen.value.width == 2 && r.session.screen.value.height == 2
            && Handle(r.session, m, w').GiveUp?
            && Handle(r.session.(screen := Some(r.session.screen.value.(height := 1))), m, w').Reply?
  {
    hide Payload, UpdateHeader, LayoutOf;
    assert And(1, 0xff) == 1 && And(2, 0xff) == 2;
    LayoutNumbers(Format(8, 8, 0, 1, 7, 7, 3, 0, 3, 6));
  }

  // ---------------------------------------------------------------------------------------
  // Clients that set no format
  // ---------------------------------------------------------------------------------------

  /**
   * Such a client goes by ServerInit, which always announces four-byte pixels. What it gets has
   * the announced size, and the announced layout, exactly if the server's own pixels have four
   * bytes.
   */
  lemma AnnouncedFormatHolds(screen: Image)
    requires ValidImage(screen) && screen.layout == BuiltIn(screen.layout.bpp)
    requires screen.width > 0 && screen.height > 0
    ensures |Payload(screen, screen.layout, false)| == Size(4, screen.width * screen.height) <==> screen.layout.bpp == 4
    ensures screen.layout == LayoutOf(ANNOUNCED.(bpp := ANNOUNCED.bpp / 8)) <==> screen.layout.bpp == 4
  {
    hide LayoutOf;
    AnnouncedLayout();
    IndexBound(screen.width, screen.height, 0, 0);
  }
}
