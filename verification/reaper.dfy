/** The reaper's walk over the linked list of connections (src/server.c). */
module Reaping {
  import opened Sequences

  /** A connection as the reaper sees it. */
  datatype Entry = Entry(id: nat, working: bool)

  // ---------------------------------------------------------------------------------------
  // What a pass leaves in the list
  // ---------------------------------------------------------------------------------------

  /**
   * With `prev` advanced, exactly the working connections stay. As written, unlinking one
   * connection also drops every one in front of it.
   */
  function Kept(advances: bool, es: seq<Entry>): seq<Entry>
    decreases |es|
  {
    if es == [] then []
    else
      var last, kept := es[|es| - 1], Kept(advances, es[..|es| - 1]);
      if last.working then kept + [last] else if advances then kept else []
  }

  function Finished(es: seq<Entry>): seq<nat>
    decreases |es|
  {
    if es == [] then []
    else
      var last, done := es[|es| - 1], Finished(es[..|es| - 1]);
      if last.working then done else done + [last.id]
  }

  predicate AllFinished(es: seq<Entry>) {
    forall e | e in es :: !e.working
  }

  /** No working connection stands in front of a finished one. */
  predicate FinishedFirst(es: seq<Entry>)
    decreases |es|
  {
    es == [] || (FinishedFirst(es[..|es| - 1]) && (es[|es| - 1].working || AllFinished(es[..|es| - 1])))
  }

  lemma {:induction false} KeptMembers(es: seq<Entry>, e: Entry)
    ensures e in Kept(true, es) <==> e in es && e.working
    decreases |es|
  {
    if es != [] {
      KeptMembers(es[..|es| - 1], e);
      assert es == es[..|es| - 1] + [es[|es| - 1]];
    }
  }

  /** The connections that stay keep their order. */
  lemma {:induction false} KeptInOrder(es: seq<Entry>)
    ensures Subsequence(Kept(true, es), es)
    decreases |es|
  {
    if es != [] {
      var init, last := es[..|es| - 1], es[|es| - 1];
      KeptInOrder(init);
      assert es == init + [last];
      if last.working {
        SubsequenceSnoc(Kept(true, init), init, last);
      }
    }
  }

  /** Each entry is kept or finished. */
  lemma {:induction false} KeptOrFinished(es: seq<Entry>)
    ensures |Kept(true, es)| + |Finished(es)| == |es|
    ensures forall e | e in es && !e.working :: e.id in Finished(es)
    decreases |es|
  {
    if es != [] {
      KeptOrFinished(es[..|es| - 1]);
      assert es == es[..|es| - 1] + [es[|es| - 1]];
    }
  }

  lemma {:induction false} AllWorkingKept(advances: bool, es: seq<Entry>)
    requires forall e | e in es :: e.working
    ensures Kept(advances, es) == es
    decreases |es|
  {
    if es != [] {
      AllWorkingKept(advances, es[..|es| - 1]);
      assert es == es[..|es| - 1] + [es[|es| - 1]];
    }
  }

  /** The pass as written is right exactly when every finished connection is in front. */
  lemma {:induction false} AsWrittenExact(es: seq<Entry>)
    ensures Kept(false, es) == Kept(true, es) <==> FinishedFirst(es)
    decreases |es|
  {
    if es != [] {
      var init, last := es[..|es| - 1], es[|es| - 1];
      AsWrittenExact(init);
      if last.working {
        SameEnd(Kept(false, init), Kept(true, init), last);
      } else {
        NoneWorking(init);
        if AllFinished(init) {
          FinishedTogether(init);
        }
      }
    }
  }

  lemma SameEnd(a: seq<Entry>, b: seq<Entry>, e: Entry)
    ensures a + [e] == b + [e] <==> a == b
  {
    if a + [e] == b + [e] {
      assert a == (a + [e])[..|a|] && b == (b + [e])[..|b|];
    }
  }

  lemma {:induction false} FinishedTogether(es: seq<Entry>)
    requires AllFinished(es)
    ensures FinishedFirst(es)
    decreases |es|
  {
    if es != [] {
      FinishedTogether(es[..|es| - 1]);
    }
  }

  lemma {:induction false} NoneWorking(es: seq<Entry>)
    ensures Kept(true, es) == [] <==> AllFinished(es)
    decreases |es|
  {
    if es != [] {
      NoneWorking(es[..|es| - 1]);
      assert es == es[..|es| - 1] + [es[|es| - 1]];
    }
  }

  /** A working connection in front of a finished one: the source drops it. */
  lemma AsWrittenCounterexample()
    ensures Kept(false, [Entry(1, true), Entry(0, false)]) == []
    ensures Kept(true, [Entry(1, true), Entry(0, false)]) == [Entry(1, true)]
  {
    assert [Entry(1, true), Entry(0, false)][..1] == [Entry(1, true)];
    assert Kept(false, [Entry(1, true)]) == [Entry(1, true)] by {
      assert [Entry(1, true)][..0] == [];
    }
    assert Kept(true, [Entry(1, true)]) == [Entry(1, true)] by {
      assert [Entry(1, true)][..0] == [];
    }
  }

  // ---------------------------------------------------------------------------------------
  // The linked list
  // ---------------------------------------------------------------------------------------

  class Node {
    const id: nat
    /** What the pass finds when it looks at the connection's word, under its lock. */
    const working: bool
    var next: Node?

    constructor (id: nat, working: bool, next: Node?)
      ensures this.id == id && this.working == working && this.next == next
    {
      this.id, this.working, this.next := id, working, next;
    }
  }

  class Clients {
    var head: Node?
    ghost var nodes: seq<Node>
    ghost var joined: seq<nat>
    ghost var freed: seq<nat>

    ghost predicate Valid()
      reads this, nodes
    {
      Linked(head, nodes)
    }

    ghost function Entries(): seq<Entry>
      reads this`nodes
    {
      EntriesOf(nodes)
    }

    constructor ()
      ensures Valid() && nodes == [] && joined == [] && freed == []
    {
      head, nodes, joined, freed := null, [], [], [];
    }

    /** A new connection goes to the front. */
    method Add(id: nat)
      requires Valid()
      modifies this
      ensures Valid() && nodes != [] && fresh(nodes[0]) && nodes[1..] == old(nodes)
      ensures Entries() == [Entry(id, true)] + old(Entries())
      ensures joined == old(joined) && freed == old(freed)
    {
      var n := new Node(id, true, head);
      ghost var rest := nodes;
      head := n;
      nodes := [n] + rest;
      forall i: nat | i < |nodes|
        ensures nodes[i].next == After(nodes, i)
      {
        if i > 0 {
          assert rest[i - 1].next == After(rest, i - 1);
        }
      }
    }

    /** Take `con` out of the list; without a `prev`, it becomes the new end of nothing. */
    method Unlink(prev: Node?, con: Node, ghost kept: seq<Node>, ghost rest: seq<Node>)
      requires Linked(head, kept + [con] + rest)
      requires prev != null ==> kept != [] && prev == kept[|kept| - 1]
      modifies this`head, (if prev == null then {} else {prev})`next
      ensures Linked(head, (if prev == null then [] else kept) + rest)
      ensures con.next == old(con.next)
    {
      hide Distinct;
      ghost var all := kept + [con] + rest;
      ghost var left := if prev == null then rest else kept + rest;
      assert all[|kept|] == con && con.next == After(all, |kept|);
      assert After(all, |kept|) == if rest == [] then null else rest[0];
      if prev != null {
        prev.next := con.next;
      } else {
        head := con.next;
        assert [] + rest == rest;
      }
      forall i: nat | i < |left|
        ensures left[i].next == After(left, i)
      {
        var j := if prev != null && i < |kept| then i else i + |all| - |left|;
        assert left[i] == all[j];
        assert After(all, j) == old(all[j].next);
        if prev != null && i == |kept| - 1 {
          assert left[i] == prev;
        } else {
          if prev != null {
            Different(all, |kept| - 1, j);
          }
        }
      }
      DistinctWithout(kept, con, rest);
    }

    /** Join a finished connection, unlink it and free it; gives the one behind it. */
    method Drop(prev: Node?, con: Node, ghost kept: seq<Node>, ghost rest: seq<Node>) returns (next: Node?)
      requires Linked(head, kept + [con] + rest)
      requires prev != null ==> kept != [] && prev == kept[|kept| - 1]
      modifies this`head, this`joined, this`freed, (if prev == null then {} else {prev})`next
      ensures Linked(head, (if prev == null then [] else kept) + rest)
      ensures next == if rest == [] then null else rest[0]
      ensures joined == old(joined) + [con.id] && freed == old(freed) + [con.id]
    {
      hide Linked;
      NextOf(head, kept, con, rest);
      joined := joined + [con.id];
      var f := con;
      Unlink(prev, con, kept, rest);
      next := con.next;
      freed := freed + [f.id];
    }

    /** Look at one connection; `kept` are those before it that are still in the list. */
    method Visit(advances: bool, prev: Node?, con: Node, ghost all: seq<Node>, ghost i: nat, ghost kept: seq<Node>)
      returns (prev': Node?, con': Node?, ghost kept': seq<Node>)
      requires Walked(advances, all, i, kept, prev, con) && Linked(head, kept + all[i..])
      modifies this`head, this`joined, this`freed, (if prev == null then {} else {prev})`next
      ensures Walked(advances, all, i + 1, kept', prev', con') && Linked(head, kept' + all[i + 1..])
      ensures i < |all| && EntriesOf(all)[i] == Entry(con.id, con.working)
      ensures (prev' != null ==> prev' in all) && (con' != null <==> i + 1 < |all|)
      ensures joined == old(joined) + (if con.working then [] else [con.id])
      ensures freed == old(freed) + (if con.working then [] else [con.id])
    {
      hide Linked, Kept, EntriesOf;
      ghost var rest := all[i + 1..];
      assert kept + all[i..] == kept + [con] + rest;
      NextOf(head, kept, con, rest);
      EntryOf(all, kept, i);
      NoEntries();
      OneMore(advances, EntriesOf(all), i);
      prev', con', kept' := prev, con.next, kept + [con];
      if !con.working {
        con' := Drop(prev, con, kept, rest);
        kept' := if prev == null then [] else kept;
      } else if advances {
        prev' := con;
      }
    }

    /** One pass: join, unlink and free whatever no longer works. */
    method Reap(advances: bool)
      requires Valid()
      modifies this, nodes`next
      ensures Valid()
      ensures Entries() == Kept(advances, old(Entries()))
      ensures joined == old(joined) + Finished(old(Entries()))
      ensures freed == old(freed) + Finished(old(Entries()))
    {
      hide Kept, Finished, Linked, Walked, EntriesOf;
      ghost var all, es := nodes, EntriesOf(nodes);
      SetOut(advances, head, all);
      ghost var kept: seq<Node> := [];
      ghost var i := 0;
      var prev: Node? := null;
      var con := head;
      assert kept + all[0..] == all;
      while con != null
        invariant all == old(nodes) && Walked(advances, all, i, kept, prev, con)
        invariant i <= |all| && (prev != null ==> prev in all) && (con != null <==> i < |all|)
        invariant Linked(head, kept + all[i..])
        invariant joined == old(joined) + Finished(es[..i]) && freed == old(freed) + Finished(es[..i])
        decreases |all| - i
      {
        OneMore(advances, es, i);
        prev, con, kept := Visit(advances, prev, con, all, i, kept);
        i := i + 1;
      }
      Arrived(advances, all, i, kept, prev, con);
      nodes := kept;
    }
  }

  /** How far the pass has come. */
  ghost predicate Walked(advances: bool, all: seq<Node>, i: nat, kept: seq<Node>, prev: Node?, con: Node?) {
    && i <= |all|
    && con == (if i < |all| then all[i] else null)
    && prev == (if advances && kept != [] then kept[|kept| - 1] else null)
    && (prev != null ==> prev in all)
    && EntriesOf(kept) == Kept(advances, EntriesOf(all)[..i])
  }

  lemma SetOut(advances: bool, head: Node?, all: seq<Node>)
    requires Linked(head, all)
    ensures Walked(advances, all, 0, [], null, head) && [] + all[0..] == all
    ensures Finished(EntriesOf(all)[..0]) == [] && (head != null <==> 0 < |all|)
  {
    HeadOf(head, all);
    Nothing(advances, EntriesOf(all)[..0]);
  }

  lemma Arrived(advances: bool, all: seq<Node>, i: nat, kept: seq<Node>, prev: Node?, con: Node?)
    requires Walked(advances, all, i, kept, prev, con) && i == |all|
    ensures EntriesOf(kept) == Kept(advances, EntriesOf(all))
    ensures EntriesOf(all)[..i] == EntriesOf(all) && kept + all[i..] == kept
  {
    hide Kept;
    assert EntriesOf(all)[..i] == EntriesOf(all);
  }

  ghost function After(nodes: seq<Node>, i: nat): Node? {
    if i + 1 < |nodes| then nodes[i + 1] else null
  }

  ghost predicate Linked(head: Node?, nodes: seq<Node>)
    reads nodes
  {
    && head == (if nodes == [] then null else nodes[0])
    && (forall i: nat {:trigger After(nodes, i)} | i < |nodes| :: nodes[i].next == After(nodes, i))
    && Distinct(nodes)
  }

  ghost predicate Distinct(nodes: seq<Node>) {
    forall i, j | 0 <= i < j < |nodes| :: nodes[i] != nodes[j]
  }

  lemma Different(nodes: seq<Node>, i: nat, j: nat)
    requires Distinct(nodes) && i < |nodes| && j < |nodes| && i != j
    ensures nodes[i] != nodes[j]
  {
  }

  lemma DistinctWithout(kept: seq<Node>, con: Node, rest: seq<Node>)
    requires Distinct(kept + [con] + rest)
    ensures Distinct(kept + rest) && Distinct(rest)
  {
    var all := kept + [con] + rest;
    forall i, j | 0 <= i < j < |kept + rest|
      ensures (kept + rest)[i] != (kept + rest)[j]
    {
      assert all[if i < |kept| then i else i + 1] != all[if j < |kept| then j else j + 1];
    }
    forall i, j | 0 <= i < j < |rest|
      ensures rest[i] != rest[j]
    {
      assert all[|kept| + 1 + i] != all[|kept| + 1 + j];
    }
  }

  lemma HeadOf(head: Node?, nodes: seq<Node>)
    requires Linked(head, nodes)
    ensures head == if nodes == [] then null else nodes[0]
  {
  }

  lemma NextOf(head: Node?, kept: seq<Node>, con: Node, rest: seq<Node>)
    requires Linked(head, kept + [con] + rest)
    ensures con.next == if rest == [] then null else rest[0]
  {
    var all := kept + [con] + rest;
    assert all[|kept|].next == After(all, |kept|);
  }

  lemma Nothing(advances: bool, es: seq<Entry>)
    requires es == []
    ensures Kept(advances, es) == [] && Finished(es) == []
  {
  }

  /** One more entry. */
  lemma OneMore(advances: bool, es: seq<Entry>, i: nat)
    requires i < |es|
    ensures Kept(advances, es[..i + 1]) ==
            if es[i].working then Kept(advances, es[..i]) + [es[i]]
            else if advances then Kept(advances, es[..i]) else []
    ensures Finished(es[..i + 1]) == if es[i].working then Finished(es[..i]) else Finished(es[..i]) + [es[i].id]
  {
    assert es[..i + 1][..i] == es[..i];
  }

  lemma EntryOf(all: seq<Node>, kept: seq<Node>, i: nat)
    requires i < |all|
    ensures EntriesOf(all)[i] == Entry(all[i].id, all[i].working)
    ensures EntriesOf(kept + [all[i]]) == EntriesOf(kept) + [EntriesOf(all)[i]]
  {
  }

  lemma NoEntries()
    ensures EntriesOf([]) == []
  {
  }

  ghost function EntriesOf(nodes: seq<Node>): (es: seq<Entry>)
    ensures |es| == |nodes|
  {
    seq(|nodes|, i requires 0 <= i < |nodes| => Entry(nodes[i].id, nodes[i].working))
  }
}
