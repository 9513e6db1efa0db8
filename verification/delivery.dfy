/** From a client's bytes to the poller's events. */
module Delivery {
  import opened Words
  import opened Sequences
  import opened Sessions
  import opened Handshakes
  import opened Connections
  import opened Events

  /** Whatever happens in the ring: connection `p` offered it the events in its own list. */
  ghost predicate Offered(ops: seq<Op>, p: nat, con: Connection)
    reads con
  {
    EventsOf(Of(p, Play(ops).offered)) == con.events
  }

  /**
   * A connection is served, from its first byte to its end. Then, whatever other connections
   * offered meanwhile and whenever the poller looked, what has been polled of this connection's
   * events are some of those that the protocol makes of its client's bytes, in their order.
   */
  method ServeClient(con: Connection, width: u16, height: u16, p: nat) returns (o: Outcome, ghost handed: seq<byte>)
    requires con.Ready() && con.fb == null && con.Current() == FRESH && con.round == 0 && con.events == []
    modifies con, con.io, con.io.rbuf, con.io.wbuf, con.io.device
    ensures con.Ended(o) && o != Alive
    ensures FairWorld(con.world)
    ensures forall ops: seq<Op> | Offered(ops, p, con) ::
              Subsequence(EventsOf(Of(p, Play(ops).polled)), Serve(handed, width, height, con.world).events)
  {
    hide Serve, Of, Play, EventsOf, Subsequence;
    o, handed := con.Run(width, height);
    ghost var made := Serve(handed, width, height, con.world).events;
    assert con.events == [] + made == made;
    forall ops: seq<Op> | Offered(ops, p, con)
      ensures Subsequence(EventsOf(Of(p, Play(ops).polled)), made)
    {
      PolledInOrder(ops, p);
    }
  }
}
