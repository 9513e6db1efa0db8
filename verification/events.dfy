/** The event ring shared by all connections and one poller (src/server.c). */
module Events {
  import opened Words
  import opened Sequences
  import opened Sessions

  const QUEUE_LEN := 128

  /**
   * What an event structure holds: nothing, once it is zeroed, or an event. A cut text comes with
   * the address of the buffer that holds the text.
   */
  datatype Content = NoEvent | Holds(event: Event, buffer: nat)

  // ---------------------------------------------------------------------------------------
  // A bounded queue, and everything that happens to it
  // ---------------------------------------------------------------------------------------

  function Enqueued(q: seq<Content>, c: Content): seq<Content> {
    if |q| < QUEUE_LEN then q + [c] else q
  }

  function Dequeued(q: seq<Content>): seq<Content> {
    if q == [] then [] else q[1..]
  }

  /** An event, its buffer and the connection it comes from. */
  datatype Signed = Signed(producer: nat, event: Event, buffer: nat)

  datatype Op = Offer(signed: Signed) | Poll

  /** Every event ever offered is in exactly one of the other sequences. */
  datatype History = History(queued: seq<Signed>, polled: seq<Signed>, rejected: seq<Signed>, accepted: seq<Signed>,
    offered: seq<Signed>)

  const NOTHING := History([], [], [], [], [])

  function Step(h: History, op: Op): History {
    match op
    case Offer(s) =>
      if |h.queued| < QUEUE_LEN
      then h.(queued := h.queued + [s], accepted := h.accepted + [s], offered := h.offered + [s])
      else h.(rejected := h.rejected + [s], offered := h.offered + [s])
    case Poll =>
      if h.queued == [] then h
      else h.(queued := h.queued[1..], polled := h.polled + [h.queued[0]])
  }

  function Play(ops: seq<Op>): History
    decreases |ops|
  {
    if ops == [] then NOTHING else Step(Play(ops[..|ops| - 1]), ops[|ops| - 1])
  }

  function ContentsOf(ss: seq<Signed>): (cs: seq<Content>)
    ensures |cs| == |ss|
  {
    seq(|ss|, i requires 0 <= i < |ss| => Holds(ss[i].event, ss[i].buffer))
  }

  /** A step of the history is what the bounded queue does. */
  lemma StepIsQueue(h: History, op: Op)
    ensures op.Offer? ==>
              ContentsOf(Step(h, op).queued) == Enqueued(ContentsOf(h.queued), Holds(op.signed.event, op.signed.buffer))
    ensures op.Poll? ==> ContentsOf(Step(h, op).queued) == Dequeued(ContentsOf(h.queued))
  {
  }

  /** The events of one connection among others. */
  function Of(p: nat, ss: seq<Signed>): seq<Signed>
    decreases |ss|
  {
    if ss == [] then []
    else
      var last, init := ss[|ss| - 1], Of(p, ss[..|ss| - 1]);
      if last.producer == p then init + [last] else init
  }

  lemma OfSnoc(p: nat, ss: seq<Signed>, s: Signed)
    ensures Of(p, ss + [s]) == if s.producer == p then Of(p, ss) + [s] else Of(p, ss)
  {
    assert (ss + [s])[..|ss|] == ss;
  }

  /** They are all that connection's, as often as they stand among the others, and in their order. */
  lemma {:induction false} OfExact(p: nat, ss: seq<Signed>, s: Signed)
    ensures multiset(Of(p, ss))[s] == if s.producer == p then multiset(ss)[s] else 0
    ensures Subsequence(Of(p, ss), ss)
    decreases |ss|
  {
    if ss != [] {
      var init, last := ss[..|ss| - 1], ss[|ss| - 1];
      OfExact(p, init, s);
      assert ss == init + [last];
      SubsequenceSnoc(Of(p, init), init, last);
    }
  }

  predicate Balanced(h: History) {
    && h.polled + h.queued == h.accepted
    && |h.queued| <= QUEUE_LEN
    && multiset(h.accepted) + multiset(h.rejected) == multiset(h.offered)
  }

  lemma StepIsBalanced(h: History, op: Op)
    requires Balanced(h)
    ensures Balanced(Step(h, op))
  {
    match op
    case Offer(s) =>
      assert h.polled + (h.queued + [s]) == (h.polled + h.queued) + [s];
      assert multiset(h.accepted + [s]) == multiset(h.accepted) + multiset{s};
      assert multiset(h.rejected + [s]) == multiset(h.rejected) + multiset{s};
      assert multiset(h.offered + [s]) == multiset(h.offered) + multiset{s};
    case Poll =>
      if h.queued != [] {
        assert h.queued == [h.queued[0]] + h.queued[1..];
        assert (h.polled + [h.queued[0]]) + h.queued[1..] == h.polled + h.queued;
      }
  }

  /**
   * Whatever any number of connections offer and whenever the poller looks: what has been polled
   * is a prefix of what was accepted, the rest of it waits in order, no more than 128 wait, and
   * each event offered is accepted or rejected, once.
   */
  lemma {:induction false} QueueIsBalanced(ops: seq<Op>)
    ensures Balanced(Play(ops))
    decreases |ops|
  {
    if ops != [] {
      QueueIsBalanced(ops[..|ops| - 1]);
      StepIsBalanced(Play(ops[..|ops| - 1]), ops[|ops| - 1]);
    }
  }

  /** Each connection's accepted events keep the order in which it offered them. */
  lemma {:induction false} OrderIsKept(ops: seq<Op>, p: nat)
    ensures var h := Play(ops);
            Subsequence(Of(p, h.accepted), Of(p, h.offered))
    decreases |ops|
  {
    if ops != [] {
      hide Subsequence, Of;
      var before := Play(ops[..|ops| - 1]);
      OrderIsKept(ops[..|ops| - 1], p);
      match ops[|ops| - 1]
      case Offer(s) =>
        OfSnoc(p, before.accepted, s);
        OfSnoc(p, before.offered, s);
        SubsequenceSnoc(Of(p, before.accepted), Of(p, before.offered), s);
      case Poll =>
    }
  }

  function EventsOf(ss: seq<Signed>): (es: seq<Event>)
    ensures |es| == |ss| && forall i | 0 <= i < |ss| :: es[i] == ss[i].event
  {
    if ss == [] then [] else EventsOf(ss[..|ss| - 1]) + [ss[|ss| - 1].event]
  }

  lemma {:induction false} EventsInOrder(a: seq<Signed>, b: seq<Signed>)
    requires Subsequence(a, b)
    ensures Subsequence(EventsOf(a), EventsOf(b))
    decreases |b|
  {
    if b != [] {
      var init, last := b[..|b| - 1], b[|b| - 1];
      if a != [] && a[|a| - 1] == last && Subsequence(a[..|a| - 1], init) {
        EventsInOrder(a[..|a| - 1], init);
        SubsequenceSnoc(EventsOf(a[..|a| - 1]), EventsOf(init), last.event);
      } else {
        EventsInOrder(a, init);
      }
    }
  }

  lemma {:induction false} OfPrefix(p: nat, a: seq<Signed>, b: seq<Signed>)
    ensures Of(p, a) <= Of(p, a + b)
    decreases |b|
  {
    if b == [] {
      assert a + b == a;
    } else {
      OfPrefix(p, a, b[..|b| - 1]);
      assert a + b == (a + b[..|b| - 1]) + [b[|b| - 1]];
      OfSnoc(p, a + b[..|b| - 1], b[|b| - 1]);
    }
  }

  lemma {:induction false} PrefixIsSubsequence(a: seq<Signed>, b: seq<Signed>, c: seq<Signed>)
    requires a <= b && Subsequence(b, c)
    ensures Subsequence(a, c)
    decreases |c|, |b|
  {
    if a == b {
    } else {
      var init := b[..|b| - 1];
      assert a <= init;
      DropLast(b, c);
      PrefixIsSubsequence(a, init, c);
    }
  }

  lemma {:induction false} DropLast(b: seq<Signed>, c: seq<Signed>)
    requires b != [] && Subsequence(b, c)
    ensures Subsequence(b[..|b| - 1], c)
    decreases |c|
  {
    if c != [] && !(b[|b| - 1] == c[|c| - 1] && Subsequence(b[..|b| - 1], c[..|c| - 1])) {
      DropLast(b, c[..|c| - 1]);
    }
  }

  /** What the poller gets of one connection's events are some of those it offered, in their order. */
  lemma PolledInOrder(ops: seq<Op>, p: nat)
    ensures Subsequence(EventsOf(Of(p, Play(ops).polled)), EventsOf(Of(p, Play(ops).offered)))
  {
    var h := Play(ops);
    QueueIsBalanced(ops);
    OrderIsKept(ops, p);
    OfPrefix(p, h.polled, h.queued);
    PrefixIsSubsequence(Of(p, h.polled), Of(p, h.accepted), Of(p, h.offered));
    EventsInOrder(Of(p, h.polled), Of(p, h.offered));
  }

  // ---------------------------------------------------------------------------------------
  // The slots of the ring
  // ---------------------------------------------------------------------------------------

  /** The slot that is `i` places after `cur`. */
  function At(cur: nat, i: nat): (k: nat)
    requires cur < QUEUE_LEN && i < QUEUE_LEN
    ensures k < QUEUE_LEN
  {
    (cur + i) % QUEUE_LEN
  }

  lemma AtDistinct(cur: nat, i: nat, j: nat)
    requires cur < QUEUE_LEN && i < QUEUE_LEN && j < QUEUE_LEN
    ensures At(cur, i) == At(cur, j) <==> i == j
    ensures At(cur, 0) == cur
  {
  }

  lemma AtNext(cur: nat, i: nat)
    requires cur < QUEUE_LEN && i < QUEUE_LEN
    ensures i + 1 < QUEUE_LEN ==> At(At(cur, 1), i) == At(cur, i + 1)
    ensures i + 1 == QUEUE_LEN ==> At(At(cur, 1), i) == At(cur, 0)
  {
  }

  predicate RingShape(slots: seq<Content>, cur: nat, len: nat)
    ensures RingShape(slots, cur, len) ==> |slots| == QUEUE_LEN && cur < QUEUE_LEN && len <= QUEUE_LEN
  {
    && |slots| == QUEUE_LEN && cur < QUEUE_LEN && len <= QUEUE_LEN
    && forall i: nat {:trigger At(cur, i)} | len <= i < QUEUE_LEN :: slots[At(cur, i)] == NoEvent
  }

  function Window(slots: seq<Content>, cur: nat, len: nat): (q: seq<Content>)
    requires |slots| == QUEUE_LEN && cur < QUEUE_LEN && len <= QUEUE_LEN
    ensures |q| == len
  {
    seq(len, i requires 0 <= i < len => slots[At(cur, i)])
  }

  /** Filling the first free slot appends. */
  lemma WindowGrows(slots: seq<Content>, cur: nat, len: nat, e: Content)
    requires RingShape(slots, cur, len) && len < QUEUE_LEN
    ensures var after := slots[At(cur, len) := e];
            RingShape(after, cur, len + 1) && Window(after, cur, len + 1) == Window(slots, cur, len) + [e]
  {
    hide At;
    forall i: nat | i < QUEUE_LEN
      ensures At(cur, i) == At(cur, len) <==> i == len
    {
      AtDistinct(cur, i, len);
    }
  }

  /** Clearing the oldest slot and advancing drops the first. */
  lemma WindowShrinks(slots: seq<Content>, cur: nat, len: nat)
    requires RingShape(slots, cur, len) && len > 0
    ensures var after := slots[cur := NoEvent];
            && RingShape(after, At(cur, 1), len - 1)
            && Window(after, At(cur, 1), len - 1) == Window(slots, cur, len)[1..]
            && Window(slots, cur, len)[0] == slots[cur]
  {
    hide At;
    var after, next := slots[cur := NoEvent], At(cur, 1);
    AtDistinct(cur, 0, 0);
    forall i: nat {:trigger At(next, i)} | i < QUEUE_LEN
      ensures len - 1 <= i ==> after[At(next, i)] == NoEvent
      ensures i < len - 1 ==> after[At(next, i)] == Window(slots, cur, len)[i + 1]
    {
      AtNext(cur, i);
      if i + 1 < QUEUE_LEN {
        AtDistinct(cur, i + 1, 0);
      }
    }
  }

  // ---------------------------------------------------------------------------------------
  // Who owns the buffers
  // ---------------------------------------------------------------------------------------

  /** The ring's slots, and the event structures of all producers and pollers. */
  datatype Memory = Memory(slots: seq<Content>, cur: nat, len: nat, cells: seq<Content>)

  predicate Shaped(m: Memory) {
    RingShape(m.slots, m.cur, m.len)
  }

  /** A connection adds the event in cell `i`; the poller polls into cell `i`. */
  datatype Use = Add(i: nat) | Take(i: nat)

  /** What a move leaves behind. The source zeroes it. */
  function Left(clears: bool, c: Content): Content {
    if clears then NoEvent else c
  }

  function Used(clears: bool, m: Memory, u: Use): Memory
    requires Shaped(m)
  {
    if u.i >= |m.cells| then m
    else
      match u
      case Add(i) =>
        if m.len >= QUEUE_LEN then m
        else
          m.(slots := m.slots[At(m.cur, m.len) := m.cells[i]], len := m.len + 1,
             cells := m.cells[i := Left(clears, m.cells[i])])
      case Take(i) =>
        if m.len == 0 then m
        else
          m.(slots := m.slots[m.cur := Left(clears, m.slots[m.cur])], cur := At(m.cur, 1), len := m.len - 1,
             cells := m.cells[i := m.slots[m.cur]])
  }

  /** Using the memory is using the queue. */
  lemma UsedIsQueue(m: Memory, u: Use)
    requires Shaped(m) && u.i < |m.cells|
    ensures Shaped(Used(true, m, u))
    ensures var m' := Used(true, m, u);
            var q, q' := Window(m.slots, m.cur, m.len), Window(m'.slots, m'.cur, m'.len);
            && (u.Add? ==> q' == Enqueued(q, m.cells[u.i]))
            && (u.Take? ==> q' == Dequeued(q) && m'.cells[u.i] == if q == [] then m.cells[u.i] else q[0])
  {
    if u.Add? && m.len < QUEUE_LEN {
      WindowGrows(m.slots, m.cur, m.len, m.cells[u.i]);
    } else if u.Take? && m.len > 0 {
      WindowShrinks(m.slots, m.cur, m.len);
    }
  }

  /** The structure owns the buffer: it holds the cut text in it. */
  predicate Owns(c: Content, buffer: nat) {
    c.Holds? && c.event.TextCut? && c.buffer == buffer
  }

  function OwnersAmong(cs: seq<Content>, buffer: nat): nat {
    if cs == [] then 0 else (if Owns(cs[0], buffer) then 1 else 0) + OwnersAmong(cs[1..], buffer)
  }

  /** How many structures own the buffer. */
  function Owners(m: Memory, buffer: nat): nat {
    OwnersAmong(m.slots, buffer) + OwnersAmong(m.cells, buffer)
  }

  lemma {:induction false} OwnersUpdate(cs: seq<Content>, i: nat, c: Content, buffer: nat)
    requires i < |cs|
    ensures OwnersAmong(cs[i := c], buffer) ==
            OwnersAmong(cs, buffer) - (if Owns(cs[i], buffer) then 1 else 0) + if Owns(c, buffer) then 1 else 0
  {
    hide Owns;
    if i > 0 {
      OwnersUpdate(cs[1..], i - 1, c, buffer);
      assert cs[i := c][1..] == cs[1..][i - 1 := c];
    } else {
      assert cs[0 := c][1..] == cs[1..];
    }
  }

  /** The poller overwrites the structure that owns the buffer. */
  predicate Overwrites(m: Memory, u: Use, buffer: nat) {
    u.Take? && u.i < |m.cells| && m.len > 0 && Owns(m.cells[u.i], buffer)
  }

  /**
   * Moving keeps every buffer's owners, because the free slot that is written owns nothing and
   * the source of the move is cleared; unless the poller overwrites an owner.
   */
  lemma OwnersKeptExact(m: Memory, u: Use, buffer: nat)
    requires Shaped(m)
    ensures Owners(Used(true, m, u), buffer) == Owners(m, buffer) <==> !Overwrites(m, u, buffer)
  {
    hide At, OwnersAmong;
    assert !Owns(NoEvent, buffer);
    if u.i < |m.cells| {
      if u.Add? && m.len < QUEUE_LEN {
        OwnersUpdate(m.slots, At(m.cur, m.len), m.cells[u.i], buffer);
        OwnersUpdate(m.cells, u.i, NoEvent, buffer);
      } else if u.Take? && m.len > 0 {
        OwnersUpdate(m.slots, m.cur, NoEvent, buffer);
        OwnersUpdate(m.cells, u.i, m.slots[m.cur], buffer);
      }
    }
  }

  function UsedAll(m: Memory, us: seq<Use>): Memory
    requires Shaped(m)
    decreases |us|
  {
    if us == [] then m else ShapeKept(m, us[0]); UsedAll(Used(true, m, us[0]), us[1..])
  }

  lemma ShapeKept(m: Memory, u: Use)
    requires Shaped(m)
    ensures Shaped(Used(true, m, u))
  {
    if u.i < |m.cells| {
      UsedIsQueue(m, u);
    }
  }

  predicate NeverOverwrites(m: Memory, us: seq<Use>, buffer: nat)
    requires Shaped(m)
    decreases |us|
  {
    us != [] ==>
      (ShapeKept(m, us[0]); !Overwrites(m, us[0], buffer) && NeverOverwrites(Used(true, m, us[0]), us[1..], buffer))
  }

  /**
   * Through any sequence of adding and polling, by any number of connections, a buffer keeps
   * exactly one owner: a slot of the ring, a structure of its producer or one of a poller.
   */
  lemma {:induction false} OneOwner(m: Memory, us: seq<Use>, buffer: nat)
    requires Shaped(m) && NeverOverwrites(m, us, buffer) && Owners(m, buffer) == 1
    ensures Owners(UsedAll(m, us), buffer) == 1
    decreases |us|
  {
    hide Used, Overwrites, Owners, Shaped;
    if us != [] {
      ShapeKept(m, us[0]);
      OwnersKeptExact(m, us[0], buffer);
      OneOwner(Used(true, m, us[0]), us[1..], buffer);
    }
  }

  const EMPTY := seq(QUEUE_LEN, i => NoEvent)

  /** If the source of a move were not cleared, a buffer would have two owners, and be freed twice. */
  lemma UnclearedCounterexample()
    ensures var m := Memory(EMPTY, 0, 0, [Holds(TextCut(0, []), 7)]);
            Shaped(m) && Owners(m, 7) == 1 && Owners(Used(false, m, Add(0)), 7) == 2
  {
    var text := Holds(TextCut(0, []), 7);
    OwnersUpdate(EMPTY, 0, text, 7);
    NoOwners(QUEUE_LEN, 7);
    assert [text][1..] == [] && [text][0 := text] == [text];
    assert At(0, 0) == 0;
    hide OwnersAmong;
    assert OwnersAmong([text], 7) == 1 by {
      SingleOwner(text, 7);
    }
  }

  /** Only cut texts come with a buffer. */
  lemma OthersOwnNothing(e: Event, buffer: nat)
    ensures OwnersAmong([Holds(e, buffer)], buffer) == if e.KeyPressed? || e.PointerMoved? then 0 else 1
  {
    SingleOwner(Holds(e, buffer), buffer);
  }

  lemma SingleOwner(c: Content, buffer: nat)
    ensures OwnersAmong([c], buffer) == if Owns(c, buffer) then 1 else 0
  {
    assert [c][1..] == [];
  }

  lemma {:induction false} NoOwners(n: nat, buffer: nat)
    ensures OwnersAmong(seq(n, i => NoEvent), buffer) == 0
  {
    if n > 0 {
      NoOwners(n - 1, buffer);
      assert seq(n, i => NoEvent)[1..] == seq(n - 1, i => NoEvent);
    }
  }

  // ---------------------------------------------------------------------------------------
  // The ring
  // ---------------------------------------------------------------------------------------

  /** An event structure: a slot of the ring, or one of a producer or of the poller. */
  class Cell {
    var content: Content

    constructor (content: Content)
      ensures this.content == content
    {
      this.content := content;
    }

    /** Move: the source is zeroed, so that it no longer owns anything. */
    method MoveFrom(src: Cell)
      requires src != this
      modifies this, src
      ensures content == old(src.content) && src.content == Left(true, old(src.content))
    {
      content := src.content;
      src.content := NoEvent;
    }
  }

  ghost predicate Apart(cells: seq<Cell>) {
    forall i, j | 0 <= i < j < |cells| :: cells[i] != cells[j]
  }

  class Ring {
    const slots: seq<Cell>
    var cur: nat
    var len: nat

    ghost predicate Valid()
      reads this, slots
    {
      && |slots| == QUEUE_LEN
      && Apart(slots)
      && RingShape(Image(), cur, len)
    }

    ghost function Image(): (cs: seq<Content>)
      reads slots
      ensures |cs| == |slots|
    {
      seq(|slots|, i requires 0 <= i < |slots| reads slots => slots[i].content)
    }

    ghost function Contents(): (q: seq<Content>)
      requires Valid()
      reads this, slots
      ensures |q| == len
    {
      Window(Image(), cur, len)
    }

    /** The memory that a call with this structure works on. */
    ghost function Around(cell: Cell): Memory
      reads this, slots, cell
    {
      Memory(Image(), cur, len, [cell.content])
    }

    constructor (slots: seq<Cell>)
      requires |slots| == QUEUE_LEN && Apart(slots)
      requires forall c | c in slots :: c.content == NoEvent
      ensures Valid() && Contents() == [] && this.slots == slots
    {
      this.slots := slots;
      cur, len := 0, 0;
    }

    method MoveIn(k: nat, src: Cell)
      requires k < |slots| && Apart(slots) && src !in slots
      modifies slots[k], src
      ensures Image() == old(Image())[k := old(src.content)] && src.content == NoEvent
    {
      slots[k].MoveFrom(src);
    }

    method MoveOut(k: nat, dst: Cell)
      requires k < |slots| && Apart(slots) && dst !in slots
      modifies slots[k], dst
      ensures Image() == old(Image())[k := NoEvent] && dst.content == old(Image())[k]
    {
      dst.MoveFrom(slots[k]);
    }

    /** Take over a producer's event, unless the ring is full. */
    method AddEvent(src: Cell) returns (rc: int)
      requires Valid() && src !in slots
      modifies this, slots, src
      ensures Valid() && Contents() == Enqueued(old(Contents()), old(src.content))
      ensures rc == if |old(Contents())| < 128 then 0 else -1
      ensures src.content == if rc == 0 then NoEvent else old(src.content)
      ensures Around(src) == Used(true, old(Around(src)), Add(0))
    {
      hide RingShape, Window, Enqueued, Dequeued, Image, Apart;
      UsedIsQueue(Around(src), Add(0));
      if len >= QUEUE_LEN {
        return -1;
      }
      MoveIn((cur + len) % QUEUE_LEN, src);
      len := len + 1;
      assert Around(src).cells == old(Around(src)).cells[0 := NoEvent];
      rc := 0;
    }

    /** Hand the oldest event over to the poller. */
    method PollEvent(dst: Cell) returns (rc: int)
      requires Valid() && dst !in slots
      modifies this, slots, dst
      ensures Valid() && Contents() == Dequeued(old(Contents()))
      ensures rc == if old(Contents()) != [] then 1 else 0
      ensures dst.content == if rc == 1 then old(Contents())[0] else old(dst.content)
      ensures Around(dst) == Used(true, old(Around(dst)), Take(0))
    {
      hide RingShape, Window, Enqueued, Dequeued, Image, Apart;
      ghost var used := Used(true, Around(dst), Take(0));
      UsedIsQueue(Around(dst), Take(0));
      if len == 0 {
        return 0;
      }
      MoveOut(cur, dst);
      assert [dst.content] == old([dst.content])[0 := dst.content];
      cur := (cur + 1) % QUEUE_LEN;
      len := len - 1;
      rc := 1;
      assert Around(dst) == used;
    }
  }
}
