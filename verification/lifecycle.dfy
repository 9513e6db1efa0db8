/**
 * The threads of a server: the application's, the server's and one for each connection
 * (src/server.c, src/connection.c, src/trfb.c). Each step is one section under a lock.
 */
module Lifecycle {
  import opened Words

  // ---------------------------------------------------------------------------------------
  // State
  // ---------------------------------------------------------------------------------------

  datatype ConWord = Working | Stop | Stopped | Error

  /** A connection thread before its first store, running, on its way out, and gone. */
  datatype ConPc = Fresh | Running | Leaving | Finished

  datatype Con = Con(word: ConWord, pc: ConPc, joined: nat, freed: nat)

  datatype SrvWord = SrvStopped | SrvWorking | SrvStop | SrvError

  /** Where the server thread is; `final` is the word it will store last. */
  datatype ServerPc =
    | Off
    | Boot
    | Top
    | Select
    | Link(id: nat)
    | Reap(k: nat)
    | Join(k: nat)
    | Take(final: SrvWord)
    | Mark(final: SrvWord, k: nat)
    | Count(final: SrvWord, k: nat, work: nat)
    | JoinAll(final: SrvWord, k: nat)
    | FreeAll(final: SrvWord)
    | Store(final: SrvWord)
    | Exited

  /** Where the application is; a stop may be part of destroying the server. */
  datatype MainPc =
    | Idle
    | Launching
    | Up
    | Stopping(destroying: bool)
    | Polling(destroying: bool)
    | Joining(destroying: bool)
    | Destroying
    | Gone

  /** `clients` is the server's list, `detached` the local list of stop_all_connections. */
  datatype World = World(
    cons: seq<Con>, clients: seq<nat>, detached: seq<nat>,
    word: SrvWord, server: ServerPc, main: MainPc)

  const INITIAL := World([], [], [], SrvStopped, Off, Idle)

  /**
   * Two places where the source differs from what it is evidently meant to do: the reaper never
   * advances `prev`, and a connection thread stores WORKING after it has been linked in.
   */
  datatype Code = Code(advancesPrev: bool, lateStore: bool)

  const SOURCE := Code(false, true)
  const INTENDED := Code(true, false)

  datatype Action =
    | Launch | LaunchOk | LaunchFailed | BeginStop | StoreStop | PollDone | JoinServer | BeginDestroy | FreeScreen
    | SrvBoot(listens: bool) | SrvTop | SrvSelectFails | SrvNoClient | SrvAccept | SrvLink | SrvReap | SrvJoin
    | SrvTake | SrvMark | SrvCount | SrvJoinAll | SrvFreeAll | SrvStore
    | ConStart(id: nat) | ConCheck(id: nat) | ConFail(id: nat) | ConFinish(id: nat)

  // ---------------------------------------------------------------------------------------
  // Steps
  // ---------------------------------------------------------------------------------------

  function With(w: World, id: nat, c: Con): World
    requires id < |w.cons|
  {
    w.(cons := w.cons[id := c])
  }

  /** The application's thread. */
  function MainNext(w: World, a: Action): Option<World> {
    match a
    case Launch =>
      if w.main == Idle && w.clients == [] && w.word == SrvStopped
      then Some(w.(main := Launching, server := Boot)) else None
    case LaunchOk =>
      if w.main == Launching && w.word == SrvWorking then Some(w.(main := Up)) else None
    case LaunchFailed =>
      if w.main == Launching && w.word != SrvWorking && w.word != SrvStopped then Some(w.(main := Idle)) else None
    case BeginStop =>
      if w.main == Idle || w.main == Up then Some(w.(main := Stopping(false))) else None
    case StoreStop =>
      if w.main.Stopping? then Some(w.(main := Polling(w.main.destroying), word := SrvStop)) else None
    case PollDone =>
      if w.main.Polling? && w.word != SrvStop then Some(w.(main := Joining(w.main.destroying))) else None
    case JoinServer =>
      if w.main.Joining? && w.server == Exited
      then Some(w.(main := if w.main.destroying then Destroying else Idle, server := Off)) else None
    case BeginDestroy =>
      if w.main == Idle || w.main == Up
      then Some(w.(main := if w.word == SrvWorking then Stopping(true) else Destroying)) else None
    case FreeScreen =>
      if w.main == Destroying then Some(w.(main := Gone)) else None
    case _ => None
  }

  /** A finished connection that has been joined, unlinked and freed. */
  function Reaped(c: Con): Con {
    c.(joined := c.joined + 1, freed := c.freed + 1)
  }

  /** The server thread's main loop. */
  function LoopNext(code: Code, w: World, a: Action): Option<World> {
    match a
    case SrvBoot(listens) =>
      if w.server == Boot then Some(w.(word := SrvWorking, server := if listens then Top else Take(SrvError))) else None
    case SrvTop =>
      if w.server == Top then Some(w.(server := if w.word == SrvStop then Take(SrvStopped) else Select)) else None
    case SrvSelectFails =>
      if w.server == Select then Some(w.(server := Take(SrvError))) else None
    case SrvNoClient =>
      if w.server == Select then Some(w.(server := Reap(0))) else None
    case SrvAccept =>
      if w.server == Select
      then Some(w.(cons := w.cons + [Con(Working, Fresh, 0, 0)], server := Link(|w.cons|))) else None
    case SrvLink =>
      if w.server.Link? then Some(w.(clients := [w.server.id] + w.clients, server := Reap(0))) else None
    case SrvReap =>
      if w.server.Reap? then
        var k := w.server.k;
        if k >= |w.clients| then Some(w.(server := Top))
        else if w.clients[k] < |w.cons| && w.cons[w.clients[k]].word == Working then Some(w.(server := Reap(k + 1)))
        else Some(w.(server := Join(k)))
      else None
    case SrvJoin =>
      if w.server.Join? && w.server.k < |w.clients| && w.clients[w.server.k] < |w.cons|
         && w.cons[w.clients[w.server.k]].pc == Finished then
        var k, id := w.server.k, w.clients[w.server.k];
        var c := w.cons[id];
        Some(With(w, id, Reaped(c)).(
          clients := if code.advancesPrev then w.clients[..k] + w.clients[k + 1..] else w.clients[k + 1..],
          server := Reap(if code.advancesPrev then k else 0)))
      else None
    case _ => None
  }

  /** stop_all_connections and the final store. */
  function StopNext(w: World, a: Action): Option<World> {
    match a
    case SrvTake =>
      if w.server.Take? then Some(w.(detached := w.clients, clients := [], server := Mark(w.server.final, 0))) else None
    case SrvMark =>
      if w.server.Mark? then
        var k := w.server.k;
        if k >= |w.detached| then
          Some(w.(server := if w.detached == [] then Store(w.server.final) else Count(w.server.final, 0, 0)))
        else if w.detached[k] < |w.cons| && w.cons[w.detached[k]].word == Working then
          Some(With(w, w.detached[k], w.cons[w.detached[k]].(word := Stop)).(server := Mark(w.server.final, k + 1)))
        else Some(w.(server := Mark(w.server.final, k + 1)))
      else None
    case SrvCount =>
      if w.server.Count? then
        var k, work := w.server.k, w.server.work;
        if k >= |w.detached| then
          Some(w.(server := if work > 0 then Count(w.server.final, 0, 0) else JoinAll(w.server.final, 0)))
        else if w.detached[k] < |w.cons| && w.cons[w.detached[k]].word == Stop then
          Some(w.(server := Count(w.server.final, k + 1, work + 1)))
        else Some(w.(server := Count(w.server.final, k + 1, work)))
      else None
    case SrvJoinAll =>
      if w.server.JoinAll? then
        var k := w.server.k;
        if k >= |w.detached| then Some(w.(server := FreeAll(w.server.final)))
        else if w.detached[k] < |w.cons| && w.cons[w.detached[k]].pc == Finished then
          var c := w.cons[w.detached[k]];
          Some(With(w, w.detached[k], c.(joined := c.joined + 1)).(server := JoinAll(w.server.final, k + 1)))
        else None
      else None
    case SrvFreeAll =>
      if w.server.FreeAll? then
        if w.detached == [] then Some(w.(server := Store(w.server.final)))
        else if w.detached[0] < |w.cons| then
          var c := w.cons[w.detached[0]];
          Some(With(w, w.detached[0], c.(freed := c.freed + 1)).(detached := w.detached[1..]))
        else None
      else None
    case SrvStore =>
      if w.server.Store? then Some(w.(word := w.server.final, server := Exited)) else None
    case _ => None
  }

  /** A connection thread. Working for its client changes nothing here. */
  function ConNext(code: Code, c: Con, a: Action): Option<Con> {
    match a
    case ConStart(_) =>
      if c.pc == Fresh then Some(c.(pc := Running, word := if code.lateStore then Working else c.word)) else None
    case ConCheck(_) =>
      if c.pc == Running && c.word == Stop then Some(c.(pc := Leaving, word := Stopped)) else None
    case ConFail(_) =>
      if c.pc == Running then Some(c.(pc := Leaving, word := Error)) else None
    case ConFinish(_) =>
      if c.pc == Leaving then Some(c.(pc := Finished)) else None
    case _ => None
  }

  predicate OfCon(a: Action) {
    a.ConStart? || a.ConCheck? || a.ConFail? || a.ConFinish?
  }

  function ConStep(code: Code, w: World, a: Action): Option<World>
    requires OfCon(a)
  {
    if a.id < |w.cons| then
      match ConNext(code, w.cons[a.id], a)
      case Some(c) => Some(With(w, a.id, c))
      case None => None
    else None
  }

  /** The world after a step; None when the step cannot be taken. */
  function Next(code: Code, w: World, a: Action): Option<World> {
    if OfCon(a) then ConStep(code, w, a)
    else
      var m := MainNext(w, a);
      if m.Some? then m
      else
        var l := LoopNext(code, w, a);
        if l.Some? then l else StopNext(w, a)
  }

  // ---------------------------------------------------------------------------------------
  // Runs
  // ---------------------------------------------------------------------------------------

  /** A run: any interleaving of the threads' steps. */
  predicate Run(code: Code, w: World, steps: seq<Action>, w': World)
    decreases |steps|
  {
    if steps == [] then w == w'
    else Next(code, w, steps[0]).Some? && Run(code, Next(code, w, steps[0]).value, steps[1..], w')
  }

  /** The step unlinks no connection, or one that the code unlinks without losing others. */
  predicate AtHead(code: Code, w: World, a: Action) {
    a.SrvJoin? && w.server.Join? && !code.advancesPrev ==> w.server.k == 0
  }

  predicate AllAtHead(code: Code, w: World, steps: seq<Action>)
    decreases |steps|
  {
    steps != [] && Next(code, w, steps[0]).Some? ==>
      AtHead(code, w, steps[0]) && AllAtHead(code, Next(code, w, steps[0]).value, steps[1..])
  }

  /** The step is no late store, or one that finds what it writes. */
  predicate Timely(code: Code, w: World, a: Action) {
    a.ConStart? && a.id < |w.cons| && code.lateStore ==> w.cons[a.id].word == Working
  }

  // ---------------------------------------------------------------------------------------
  // The invariant
  // ---------------------------------------------------------------------------------------

  predicate Ends(word: ConWord) {
    word == Stopped || word == Error
  }

  /** Joined and freed once each, after the thread had finished. */
  predicate Settled(c: Con) {
    c.joined == 1 && c.freed == 1 && c.pc == Finished
  }

  predicate Held(w: World, i: nat) {
    i in w.clients || i in w.detached || w.server == Link(i)
  }

  /** The ids are those of connections, each at one place. */
  predicate Placed(s: seq<nat>, n: nat) {
    && (forall j | 0 <= j < |s| :: s[j] < n)
    && (forall j, k | 0 <= j < k < |s| :: s[j] != s[k])
  }

  predicate InLoop(pc: ServerPc) {
    pc.Top? || pc.Select? || pc.Link? || pc.Reap? || pc.Join?
  }

  predicate InStop(pc: ServerPc) {
    pc.Take? || pc.Mark? || pc.Count? || pc.JoinAll? || pc.FreeAll? || pc.Store?
  }

  /** Which lists are in use where, and how far their passes have come. */
  predicate ListsInv(w: World) {
    && Placed(w.clients, |w.cons|) && Placed(w.detached, |w.cons|)
    && (!InLoop(w.server) && !w.server.Take? ==> w.clients == [])
    && (w.detached != [] ==> w.server.Mark? || w.server.Count? || w.server.JoinAll? || w.server.FreeAll?)
    && (w.server.Link? ==> w.server.id < |w.cons| && w.server.id !in w.clients)
    && (w.server.Reap? ==> w.server.k <= |w.clients|)
    && (w.server.Join? ==> w.server.k < |w.clients| && Ends(w.cons[w.clients[w.server.k]].word))
    && (w.server.Mark? || w.server.Count? || w.server.JoinAll? ==> w.server.k <= |w.detached|)
  }

  /** How often a connection has been joined, given where the server thread is. */
  predicate JoinedOnce(w: World, i: nat)
    requires i < |w.cons|
  {
    w.cons[i].joined == (if (w.server.FreeAll? && i in w.detached)
                            || (w.server.JoinAll? && w.server.k <= |w.detached| && i in w.detached[..w.server.k])
                              then 1 else 0)
  }

  /** In no list, and not freed: nobody will ever join it. */
  predicate Lost(w: World, i: nat)
    requires i < |w.cons|
  {
    !Held(w, i) && w.cons[i].joined == 0 && w.cons[i].freed == 0
  }

  predicate ConInv(w: World, i: nat)
    requires i < |w.cons|
  {
    var c := w.cons[i];
    && (c.pc == Fresh || c.pc == Running <==> !Ends(c.word))
    && (c.joined > 0 ==> c.pc == Finished)
    && (if Held(w, i) then c.freed == 0 && JoinedOnce(w, i) else Settled(c) || Lost(w, i))
    && (c.word == Stop ==> i in w.detached)
  }

  /** The server's word, its thread and the application. */
  predicate WordsInv(w: World) {
    && (w.server == Boot ==> w.word == SrvStopped && w.main == Launching)
    && (InLoop(w.server) || InStop(w.server) ==> w.word == SrvWorking || w.word == SrvStop)
    && (InStop(w.server) && w.server.final == SrvStopped ==> w.word == SrvStop)
    && (InStop(w.server) ==> w.server.final == SrvStopped || w.server.final == SrvError)
    && (w.server == Exited || w.server == Off ==> w.word != SrvWorking)
    && (w.word == SrvStop ==> w.main.Polling?)
    && (w.main.Joining? ==> w.server == Exited)
    && (w.main.Polling? && w.word != SrvStop ==> w.server == Exited)
    && (w.main == Destroying || w.main == Gone ==> w.server == Off || w.server == Exited)
    && (w.main == Launching ==> w.server != Off && (w.server == Exited ==> w.word == SrvError))
  }

  predicate Inv(w: World) {
    && ListsInv(w) && WordsInv(w)
    && forall i: nat | i < |w.cons| :: ConInv(w, i)
  }

  // ---------------------------------------------------------------------------------------
  // Every step keeps the invariant
  // ---------------------------------------------------------------------------------------

  lemma MainKeeps(w: World, a: Action)
    requires Inv(w) && MainNext(w, a).Some?
    ensures Inv(MainNext(w, a).value)
  {
    hide ListsInv, WordsInv, ConInv;
    MainLists(w, a);
    var w' := MainNext(w, a).value;
    forall i: nat | i < |w'.cons|
      ensures ConInv(w', i)
    {
      MainCon(w, a, i);
    }
  }

  lemma MainLists(w: World, a: Action)
    requires ListsInv(w) && WordsInv(w) && MainNext(w, a).Some?
    ensures ListsInv(MainNext(w, a).value) && WordsInv(MainNext(w, a).value)
    ensures MainNext(w, a).value.cons == w.cons
  {
  }

  lemma MainCon(w: World, a: Action, i: nat)
    requires ListsInv(w) && WordsInv(w) && MainNext(w, a).Some? && i < |w.cons| && ConInv(w, i)
    ensures i < |MainNext(w, a).value.cons| && ConInv(MainNext(w, a).value, i)
  {
  }

  lemma ConKeeps(code: Code, w: World, a: Action)
    requires Inv(w) && OfCon(a) && ConStep(code, w, a).Some?
    ensures Inv(ConStep(code, w, a).value)
  {
    var w' := ConStep(code, w, a).value;
    assert ConInv(w, a.id);
    assert ListsInv(w') && WordsInv(w');
    hide ListsInv, WordsInv;
    forall i: nat | i < |w'.cons|
      ensures ConInv(w', i)
    {
      assert ConInv(w, i);
    }
  }

  lemma AcceptKeeps(code: Code, w: World)
    requires Inv(w) && LoopNext(code, w, SrvAccept).Some?
    ensures Inv(LoopNext(code, w, SrvAccept).value)
  {
    var w' := LoopNext(code, w, SrvAccept).value;
    forall i: nat | i < |w'.cons|
      ensures ConInv(w', i)
    {
      if i < |w.cons| {
        assert ConInv(w, i);
      }
    }
  }

  /** What joining does: the connection is unlinked, and with it perhaps those in front of it. */
  predicate JoinDone(code: Code, w: World, w': World)
    requires w.server.Join? && w.server.k < |w.clients| && w.clients[w.server.k] < |w.cons|
  {
    var k, id := w.server.k, w.clients[w.server.k];
    && w'.clients == (if code.advancesPrev then w.clients[..k] else []) + w.clients[k + 1..]
    && w'.cons == w.cons[id := Reaped(w.cons[id])]
    && w'.server == Reap(if code.advancesPrev then k else 0)
    && w'.detached == w.detached && w'.word == w.word && w'.main == w.main
    && w.cons[id].pc == Finished
  }

  lemma JoinIs(code: Code, w: World)
    requires LoopNext(code, w, SrvJoin).Some?
    ensures w.server.Join? && w.server.k < |w.clients| && w.clients[w.server.k] < |w.cons|
    ensures JoinDone(code, w, LoopNext(code, w, SrvJoin).value)
  {
    assert [] + w.clients[w.server.k + 1..] == w.clients[w.server.k + 1..];
  }

  lemma JoinKeeps(code: Code, w: World)
    requires Inv(w) && LoopNext(code, w, SrvJoin).Some?
    ensures Inv(LoopNext(code, w, SrvJoin).value)
  {
    hide ListsInv, WordsInv, ConInv, LoopNext, JoinDone;
    var w' := LoopNext(code, w, SrvJoin).value;
    JoinIs(code, w);
    JoinLists(code, w, w');
    forall i: nat | i < |w'.cons|
      ensures ConInv(w', i)
    {
      JoinCon(code, w, w', i);
    }
  }

  lemma JoinLists(code: Code, w: World, w': World)
    requires w.server.Join? && w.server.k < |w.clients| && w.clients[w.server.k] < |w.cons|
    requires ListsInv(w) && WordsInv(w) && JoinDone(code, w, w')
    ensures ListsInv(w') && WordsInv(w') && |w'.cons| == |w.cons|
  {
    hide Placed;
    RemovedPlaced(w.clients, w.server.k, |w.cons|);
  }

  lemma JoinCon(code: Code, w: World, w': World, i: nat)
    requires w.server.Join? && w.server.k < |w.clients| && w.clients[w.server.k] < |w.cons|
    requires Inv(w) && JoinDone(code, w, w') && i < |w.cons|
    ensures i < |w'.cons| && ConInv(w', i)
  {
    assert w.detached == [];
    hide WordsInv, Placed;
    assert ConInv(w, i);
    RemovedAt(w.clients, w.server.k, i, |w.cons|);
  }

  lemma RemovedPlaced(s: seq<nat>, k: nat, n: nat)
    requires k < |s| && Placed(s, n)
    ensures Placed(s[..k] + s[k + 1..], n) && Placed([] + s[k + 1..], n)
  {
  }

  lemma RemovedAt(s: seq<nat>, k: nat, i: nat, n: nat)
    requires k < |s| && Placed(s, n)
    ensures i in s[..k] + s[k + 1..] <==> i in s && i != s[k]
    ensures i in [] + s[k + 1..] <==> i in s && i != s[k] && i !in s[..k]
  {
    SplitAt(s, k, i, n);
    assert i in s[..k] + s[k + 1..] <==> i in s[..k] || i in s[k + 1..];
    assert i in [] + s[k + 1..] <==> i in s[k + 1..];
  }

  lemma SplitAt(s: seq<nat>, k: nat, i: nat, n: nat)
    requires k < |s| && Placed(s, n)
    ensures i in s <==> i in s[..k] || i == s[k] || i in s[k + 1..]
    ensures i in s[..k] ==> i != s[k] && i !in s[k + 1..]
    ensures i == s[k] ==> i !in s[k + 1..]
  {
    assert s == s[..k] + [s[k]] + s[k + 1..];
  }

  lemma LoopKeeps(code: Code, w: World, a: Action)
    requires Inv(w) && LoopNext(code, w, a).Some?
    ensures Inv(LoopNext(code, w, a).value)
  {
    hide ListsInv, WordsInv, ConInv;
    if a.SrvAccept? {
      AcceptKeeps(code, w);
    } else if a.SrvJoin? {
      JoinKeeps(code, w);
    } else {
      LoopLists(code, w, a);
      LoopWords(code, w, a);
      var w' := LoopNext(code, w, a).value;
      forall i: nat | i < |w'.cons|
        ensures ConInv(w', i)
      {
        LoopCon(code, w, a, i);
      }
    }
  }

  lemma LoopWords(code: Code, w: World, a: Action)
    requires WordsInv(w) && !a.SrvAccept? && !a.SrvJoin? && LoopNext(code, w, a).Some?
    ensures WordsInv(LoopNext(code, w, a).value)
  {
  }

  lemma LoopLists(code: Code, w: World, a: Action)
    requires Inv(w) && !a.SrvAccept? && !a.SrvJoin? && LoopNext(code, w, a).Some?
    ensures ListsInv(LoopNext(code, w, a).value) && LoopNext(code, w, a).value.cons == w.cons
  {
    hide WordsInv;
    if a.SrvReap? && w.server.k < |w.clients| {
      assert ConInv(w, w.clients[w.server.k]);
    }
  }

  lemma LoopCon(code: Code, w: World, a: Action, i: nat)
    requires Inv(w) && !a.SrvAccept? && !a.SrvJoin? && LoopNext(code, w, a).Some? && i < |w.cons|
    ensures i < |LoopNext(code, w, a).value.cons| && ConInv(LoopNext(code, w, a).value, i)
  {
    hide WordsInv;
    var w' := LoopNext(code, w, a).value;
    assert ConInv(w, i);
    assert Held(w', i) == Held(w, i);
  }

  lemma TakeKeeps(w: World)
    requires Inv(w) && w.server.Take?
    ensures Inv(StopNext(w, SrvTake).value)
  {
    var w' := StopNext(w, SrvTake).value;
    forall i: nat | i < |w'.cons|
      ensures ConInv(w', i)
    {
      assert ConInv(w, i);
    }
  }

  lemma MarkKeeps(w: World)
    requires Inv(w) && w.server.Mark?
    ensures Inv(StopNext(w, SrvMark).value)
  {
    hide ListsInv, WordsInv, ConInv;
    MarkLists(w);
    var w' := StopNext(w, SrvMark).value;
    forall i: nat | i < |w'.cons|
      ensures ConInv(w', i)
    {
      MarkCon(w, i);
    }
  }

  lemma MarkLists(w: World)
    requires ListsInv(w) && WordsInv(w) && w.server.Mark?
    ensures ListsInv(StopNext(w, SrvMark).value) && WordsInv(StopNext(w, SrvMark).value)
  {
  }

  lemma MarkCon(w: World, i: nat)
    requires Inv(w) && w.server.Mark? && i < |w.cons|
    ensures i < |StopNext(w, SrvMark).value.cons| && ConInv(StopNext(w, SrvMark).value, i)
  {
    hide WordsInv;
    assert ConInv(w, i);
  }

  lemma CountKeeps(w: World)
    requires Inv(w) && w.server.Count?
    ensures Inv(StopNext(w, SrvCount).value)
  {
    hide ConInv;
    var w' := StopNext(w, SrvCount).value;
    forall i: nat | i < |w'.cons|
      ensures ConInv(w', i)
    {
      CountCon(w, i);
    }
  }

  lemma CountCon(w: World, i: nat)
    requires Inv(w) && w.server.Count? && i < |w.cons|
    ensures i < |StopNext(w, SrvCount).value.cons| && ConInv(StopNext(w, SrvCount).value, i)
  {
    hide WordsInv;
    assert ConInv(w, i);
  }

  lemma JoinAllKeeps(w: World)
    requires Inv(w) && w.server.JoinAll? && StopNext(w, SrvJoinAll).Some?
    ensures Inv(StopNext(w, SrvJoinAll).value)
  {
    var w' := StopNext(w, SrvJoinAll).value;
    var k := w.server.k;
    if k < |w.detached| {
      assert w.detached[..k + 1] == w.detached[..k] + [w.detached[k]];
      assert w.detached[k] !in w.detached[..k];
      assert ConInv(w, w.detached[k]);
    } else {
      assert w.detached[..k] == w.detached;
    }
    assert ListsInv(w') && WordsInv(w');
    hide ListsInv, WordsInv;
    forall i: nat | i < |w'.cons|
      ensures ConInv(w', i)
    {
      assert ConInv(w, i);
    }
  }

  lemma FreeAllKeeps(w: World)
    requires Inv(w) && w.server.FreeAll? && StopNext(w, SrvFreeAll).Some?
    ensures Inv(StopNext(w, SrvFreeAll).value)
  {
    var w' := StopNext(w, SrvFreeAll).value;
    if w.detached != [] {
      assert w.detached == [w.detached[0]] + w.detached[1..];
      assert w.detached[0] !in w.detached[1..];
      assert ConInv(w, w.detached[0]);
    }
    forall i: nat | i < |w'.cons|
      ensures ConInv(w', i)
    {
      assert ConInv(w, i);
    }
  }

  lemma StoreKeeps(w: World)
    requires Inv(w) && w.server.Store?
    ensures Inv(StopNext(w, SrvStore).value)
  {
    var w' := StopNext(w, SrvStore).value;
    forall i: nat | i < |w'.cons|
      ensures ConInv(w', i)
    {
      assert ConInv(w, i);
    }
  }

  lemma StopKeeps(w: World, a: Action)
    requires Inv(w) && StopNext(w, a).Some?
    ensures Inv(StopNext(w, a).value)
  {
    hide Inv;
    match a
    case SrvTake => TakeKeeps(w);
    case SrvMark => MarkKeeps(w);
    case SrvCount => CountKeeps(w);
    case SrvJoinAll => JoinAllKeeps(w);
    case SrvFreeAll => FreeAllKeeps(w);
    case SrvStore => StoreKeeps(w);
    case _ =>
  }

  lemma StepKeeps(code: Code, w: World, a: Action)
    requires Inv(w) && Next(code, w, a).Some?
    ensures Inv(Next(code, w, a).value)
  {
    hide Inv, MainNext, LoopNext, StopNext, ConStep;
    if OfCon(a) {
      ConKeeps(code, w, a);
    } else if MainNext(w, a).Some? {
      MainKeeps(w, a);
    } else if LoopNext(code, w, a).Some? {
      LoopKeeps(code, w, a);
    } else {
      StopKeeps(w, a);
    }
  }

  /** The invariant holds after every run, of either code, in whatever order the threads step. */
  lemma {:induction false} RunKeeps(code: Code, w: World, steps: seq<Action>, w': World)
    requires Inv(w) && Run(code, w, steps, w')
    ensures Inv(w')
    decreases |steps|
  {
    hide Inv, Next;
    if steps != [] {
      StepKeeps(code, w, steps[0]);
      RunKeeps(code, Next(code, w, steps[0]).value, steps[1..], w');
    }
  }

  lemma InitialInv()
    ensures Inv(INITIAL)
  {
  }

  // ---------------------------------------------------------------------------------------
  // What is lost stays lost
  // ---------------------------------------------------------------------------------------

  /** No connection comes back into a list, and none outside the lists is joined or freed. */
  predicate Outside(w: World, w': World) {
    && |w.cons| <= |w'.cons|
    && (forall i: nat | i < |w.cons| && !Held(w, i) ::
          !Held(w', i) && w'.cons[i].joined == w.cons[i].joined && w'.cons[i].freed == w.cons[i].freed)
    && (forall i: nat | |w.cons| <= i < |w'.cons| :: Held(w', i))
  }

  lemma LostStays(code: Code, w: World, a: Action)
    requires Inv(w) && Next(code, w, a).Some?
    ensures Outside(w, Next(code, w, a).value)
  {
    hide WordsInv, ConInv, Outside, Next, MainNext, LoopNext, StopNext, ConStep;
    NextIs(code, w, a);
    if OfCon(a) {
      ConOutside(code, w, a);
    } else if MainNext(w, a).Some? {
      MainOutside(w, a);
    } else if LoopNext(code, w, a).Some? {
      LoopOutside(code, w, a);
    } else {
      StopOutside(w, a);
    }
  }

  lemma NextIs(code: Code, w: World, a: Action)
    ensures Next(code, w, a) ==
            if OfCon(a) then ConStep(code, w, a)
            else if MainNext(w, a).Some? then MainNext(w, a)
            else if LoopNext(code, w, a).Some? then LoopNext(code, w, a)
            else StopNext(w, a)
  {
  }

  lemma ConOutside(code: Code, w: World, a: Action)
    requires OfCon(a) && ConStep(code, w, a).Some?
    ensures Outside(w, ConStep(code, w, a).value)
  {
  }

  lemma MainOutside(w: World, a: Action)
    requires MainNext(w, a).Some? && WordsInv(w) && ListsInv(w)
    ensures Outside(w, MainNext(w, a).value)
  {
  }

  lemma LoopOutside(code: Code, w: World, a: Action)
    requires ListsInv(w) && LoopNext(code, w, a).Some?
    ensures Outside(w, LoopNext(code, w, a).value)
  {
    if a.SrvJoin? {
      JoinIs(code, w);
      var w' := LoopNext(code, w, a).value;
      forall i: nat | i < |w.cons| && !Held(w, i)
        ensures !Held(w', i) && w'.cons[i].joined == w.cons[i].joined && w'.cons[i].freed == w.cons[i].freed
      {
        RemovedAt(w.clients, w.server.k, i, |w.cons|);
      }
    }
  }

  lemma StopOutside(w: World, a: Action)
    requires ListsInv(w) && StopNext(w, a).Some?
    ensures Outside(w, StopNext(w, a).value)
  {
  }

  predicate NoneLost(w: World) {
    forall i: nat | i < |w.cons| :: !Lost(w, i)
  }

  /** A step loses connections exactly if it unlinks one that is not at the head, as the source does. */
  lemma StepLoses(code: Code, w: World, a: Action)
    requires Inv(w) && Next(code, w, a).Some?
    ensures NoneLost(Next(code, w, a).value) <==> NoneLost(w) && AtHead(code, w, a)
  {
    hide ListsInv, WordsInv, ConInv, Next, Held;
    var w' := Next(code, w, a).value;
    StepKeeps(code, w, a);
    LostStays(code, w, a);
    if !NoneLost(w) {
      var i: nat :| i < |w.cons| && Lost(w, i);
      assert Lost(w', i);
    }
    if !AtHead(code, w, a) {
      FrontIsLost(code, w, a);
    }
    if NoneLost(w) && AtHead(code, w, a) {
      forall i: nat | i < |w'.cons|
        ensures !Lost(w', i)
      {
        if i < |w.cons| {
          assert ConInv(w, i);
          HeadLosesNone(code, w, a, i);
        }
      }
    }
  }

  lemma FrontIsLost(code: Code, w: World, a: Action)
    requires Inv(w) && Next(code, w, a).Some? && !AtHead(code, w, a)
    ensures w.clients != [] && w.clients[0] < |Next(code, w, a).value.cons|
            && Lost(Next(code, w, a).value, w.clients[0])
  {
    var i := w.clients[0];
    JoinIs(code, w);
    assert ConInv(w, i);
    RemovedAt(w.clients, w.server.k, i, |w.cons|);
    assert i == w.clients[..w.server.k][0];
  }

  /** A connection that leaves the lists has been freed, unless it stood in front of the one unlinked. */
  lemma LeaversAreFreed(code: Code, w: World, a: Action, i: nat)
    requires Inv(w) && Next(code, w, a).Some? && AtHead(code, w, a) && i < |w.cons| && Held(w, i)
    ensures var w' := Next(code, w, a).value;
            i < |w'.cons| && (Held(w', i) || w'.cons[i].freed > 0)
  {
    hide WordsInv, ConInv, Next, MainNext, LoopNext, StopNext, ConStep, Held;
    NextIs(code, w, a);
    if OfCon(a) {
      ConLeavers(code, w, a, i);
    } else if MainNext(w, a).Some? {
      MainLeavers(w, a, i);
    } else if LoopNext(code, w, a).Some? {
      LoopLeavers(code, w, a, i);
    } else {
      StopLeavers(w, a, i);
    }
  }

  lemma ConLeavers(code: Code, w: World, a: Action, i: nat)
    requires OfCon(a) && ConStep(code, w, a).Some? && i < |w.cons| && Held(w, i)
    ensures Held(ConStep(code, w, a).value, i) && |ConStep(code, w, a).value.cons| == |w.cons|
  {
  }

  lemma MainLeavers(w: World, a: Action, i: nat)
    requires Inv(w) && MainNext(w, a).Some? && i < |w.cons| && Held(w, i)
    ensures Held(MainNext(w, a).value, i) && |MainNext(w, a).value.cons| == |w.cons|
  {
    hide ConInv;
  }

  lemma LoopLeavers(code: Code, w: World, a: Action, i: nat)
    requires Inv(w) && LoopNext(code, w, a).Some? && AtHead(code, w, a) && i < |w.cons| && Held(w, i)
    ensures var w' := LoopNext(code, w, a).value;
            i < |w'.cons| && (Held(w', i) || w'.cons[i].freed > 0)
  {
    hide WordsInv, ConInv;
    if a.SrvJoin? {
      JoinIs(code, w);
      RemovedAt(w.clients, w.server.k, i, |w.cons|);
    }
  }

  lemma StopLeavers(w: World, a: Action, i: nat)
    requires Inv(w) && StopNext(w, a).Some? && i < |w.cons| && Held(w, i)
    ensures var w' := StopNext(w, a).value;
            i < |w'.cons| && (Held(w', i) || w'.cons[i].freed > 0)
  {
    hide WordsInv, ConInv;
    if a.SrvFreeAll? && w.detached != [] {
      assert w.detached == [w.detached[0]] + w.detached[1..];
    }
  }

  /** A connection is not lost by a step that unlinks the head, or nothing. */
  lemma HeadLosesNone(code: Code, w: World, a: Action, i: nat)
    requires Inv(w) && Next(code, w, a).Some? && AtHead(code, w, a) && i < |w.cons| && !Lost(w, i)
    ensures i < |Next(code, w, a).value.cons| && !Lost(Next(code, w, a).value, i)
  {
    hide ListsInv, WordsInv, Next, Held, AtHead;
    assert ConInv(w, i);
    LostStays(code, w, a);
    if Held(w, i) {
      LeaversAreFreed(code, w, a, i);
    }
  }

  lemma {:induction false} RunLoses(code: Code, w: World, steps: seq<Action>, w': World)
    requires Inv(w) && Run(code, w, steps, w')
    ensures NoneLost(w') <==> NoneLost(w) && AllAtHead(code, w, steps)
    decreases |steps|
  {
    hide Inv, Next, NoneLost, AtHead;
    if steps != [] {
      StepKeeps(code, w, steps[0]);
      StepLoses(code, w, steps[0]);
      RunLoses(code, Next(code, w, steps[0]).value, steps[1..], w');
    }
  }

  // ---------------------------------------------------------------------------------------
  // Shutdown is safe
  // ---------------------------------------------------------------------------------------

  predicate AllSettled(w: World) {
    w.clients == [] && w.detached == [] && forall i | 0 <= i < |w.cons| :: Settled(w.cons[i])
  }

  lemma ThreadGone(w: World)
    requires Inv(w) && (w.server == Off || w.server == Exited)
    ensures AllSettled(w) <==> NoneLost(w)
  {
    forall i: nat | i < |w.cons|
      ensures Settled(w.cons[i]) != Lost(w, i)
    {
      assert ConInv(w, i);
    }
  }

  /**
   * When trfb_server_stop returns, and when trfb_server_destroy frees the framebuffer, each
   * connection ever accepted has been joined once and freed once, after its thread had finished,
   * exactly if every connection that was reaped stood at the head of the list or the code does
   * advance `prev`. This holds of every run; the late store does no harm here.
   */
  lemma ShutdownIsSafeExact(code: Code, steps: seq<Action>, w: World)
    requires Run(code, INITIAL, steps, w)
    requires Next(code, w, JoinServer).Some? || w.server == Off || w.main == Destroying || w.main == Gone
    ensures AllSettled(w) <==> AllAtHead(code, INITIAL, steps)
  {
    InitialInv();
    RunKeeps(code, INITIAL, steps, w);
    RunLoses(code, INITIAL, steps, w);
    ThreadGone(w);
  }

  lemma {:induction false} AdvancingIsAtHead(code: Code, w: World, steps: seq<Action>)
    requires code.advancesPrev
    ensures AllAtHead(code, w, steps)
    decreases |steps|
  {
    hide Next;
    if steps != [] && Next(code, w, steps[0]).Some? {
      AdvancingIsAtHead(code, Next(code, w, steps[0]).value, steps[1..]);
    }
  }

  /** With `prev` advanced, as is meant, every shutdown is safe. */
  lemma AdvancingIsSafe(code: Code, steps: seq<Action>, w: World)
    requires code.advancesPrev && Run(code, INITIAL, steps, w)
    requires Next(code, w, JoinServer).Some? || w.server == Off || w.main == Destroying || w.main == Gone
    ensures AllSettled(w)
  {
    hide Run, AllAtHead, AllSettled;
    AdvancingIsAtHead(code, INITIAL, steps);
    ShutdownIsSafeExact(code, steps, w);
  }

  function HeldIds(w: World): seq<nat> {
    w.clients + w.detached + if w.server.Link? then [w.server.id] else []
  }

  function Ids(n: nat): (ids: set<nat>)
    ensures forall i: nat :: i in ids <==> i < n
    ensures |ids| == n
  {
    if n == 0 then {} else Ids(n - 1) + {n - 1}
  }

  function SettledIds(w: World): set<nat> {
    set i | i in Ids(|w.cons|) && Settled(w.cons[i])
  }

  function Elems(s: seq<nat>): set<nat> {
    set i | i in s
  }

  function LostIds(w: World): set<nat> {
    set i | i in Ids(|w.cons|) && Lost(w, i)
  }

  /**
   * Every connection created is in one of the lists, once, or settled, or lost; and none is lost
   * exactly if every one that was reaped stood at the head or the code does advance `prev`.
   */
  lemma CreatedIsHeldPlusFreed(code: Code, steps: seq<Action>, w: World)
    requires Run(code, INITIAL, steps, w)
    ensures |w.cons| == |HeldIds(w)| + |SettledIds(w)| + |LostIds(w)|
    ensures forall i: nat | i < |w.cons| :: OneOf(w, i)
    ensures LostIds(w) == {} <==> AllAtHead(code, INITIAL, steps)
  {
    hide Inv, HeldIds, SettledIds, LostIds, OneOf, Run, AllAtHead, NoneLost;
    InitialInv();
    NoneYet();
    RunKeeps(code, INITIAL, steps, w);
    RunLoses(code, INITIAL, steps, w);
    Classified(w);
    Counted(w);
    NobodyLost(w);
  }

  predicate OneOf(w: World, i: nat)
    requires i < |w.cons|
  {
    && (Held(w, i) || Settled(w.cons[i]) || Lost(w, i))
    && !(Held(w, i) && Settled(w.cons[i])) && !(Held(w, i) && Lost(w, i)) && !(Settled(w.cons[i]) && Lost(w, i))
  }

  lemma Classified(w: World)
    requires Inv(w)
    ensures forall i: nat | i < |w.cons| :: OneOf(w, i)
  {
    hide Held;
    forall i: nat | i < |w.cons|
      ensures OneOf(w, i)
    {
      assert ConInv(w, i);
    }
  }

  lemma Counted(w: World)
    requires Inv(w) && forall i: nat | i < |w.cons| :: OneOf(w, i)
    ensures |w.cons| == |HeldIds(w)| + |SettledIds(w)| + |LostIds(w)|
  {
    hide Inv, HeldIds, HeldSet, SettledIds, LostIds, OneOf, Ids;
    var ids, held, settled, lost := Ids(|w.cons|), HeldSet(w), SettledIds(w), LostIds(w);
    forall i: nat
      ensures i in ids <==> i in held || i in settled || i in lost
      ensures !(i in held && i in settled) && !(i in held && i in lost) && !(i in settled && i in lost)
    {
      InOneSet(w, i);
    }
    ThreeParts(ids, held, settled, lost);
    HeldOnce(w);
  }

  lemma InOneSet(w: World, i: nat)
    requires i < |w.cons| ==> OneOf(w, i)
    ensures i in Ids(|w.cons|) <==> i in HeldSet(w) || i in SettledIds(w) || i in LostIds(w)
    ensures !(i in HeldSet(w) && i in SettledIds(w)) && !(i in HeldSet(w) && i in LostIds(w))
    ensures !(i in SettledIds(w) && i in LostIds(w))
  {
    hide Held, Settled, Lost;
  }

  function HeldSet(w: World): set<nat> {
    set i | i in Ids(|w.cons|) && Held(w, i)
  }

  lemma HeldOnce(w: World)
    requires Inv(w)
    ensures |HeldIds(w)| == |HeldSet(w)|
  {
    hide ConInv, WordsInv;
    assert Placed(HeldIds(w), |w.cons|);
    DistinctSize(HeldIds(w), |w.cons|);
    assert Elems(HeldIds(w)) == HeldSet(w);
  }

  lemma ThreeParts(ids: set<nat>, a: set<nat>, b: set<nat>, c: set<nat>)
    requires forall i: nat :: i in ids <==> i in a || i in b || i in c
    requires forall i: nat :: !(i in a && i in b) && !(i in a && i in c) && !(i in b && i in c)
    ensures |ids| == |a| + |b| + |c|
  {
    assert ids == a + b + c;
    assert a !! b && (a + b) !! c;
  }

  lemma NoneYet()
    ensures NoneLost(INITIAL)
  {
  }

  lemma NobodyLost(w: World)
    ensures NoneLost(w) <==> LostIds(w) == {}
  {
    hide Lost;
    if NoneLost(w) {
      assert forall i | i in LostIds(w) :: false;
    } else {
      var i: nat :| i < |w.cons| && Lost(w, i);
      assert i in LostIds(w);
    }
  }

  lemma {:induction false} DistinctSize(s: seq<nat>, n: nat)
    requires Placed(s, n)
    ensures |Elems(s)| == |s|
  {
    if s != [] {
      DistinctSize(s[1..], n);
      assert s[0] !in Elems(s[1..]);
      assert Elems(s) == Elems(s[1..]) + {s[0]};
    }
  }

  // ---------------------------------------------------------------------------------------
  // How a connection's word moves
  // ---------------------------------------------------------------------------------------

  predicate Moves(a: ConWord, b: ConWord) {
    a == b || (a == Working && (b == Stop || b == Error)) || (a == Stop && (b == Stopped || b == Error))
  }

  predicate AllMove(w: World, w': World) {
    |w.cons| <= |w'.cons| && forall i: nat | i < |w.cons| :: Moves(w.cons[i].word, w'.cons[i].word)
  }

  /** Words only move forward, in every step but the late store that finds a mark. */
  lemma WordsMoveForwardExact(code: Code, w: World, a: Action)
    requires Inv(w) && Next(code, w, a).Some?
    ensures AllMove(w, Next(code, w, a).value) <==> Timely(code, w, a)
  {
    hide MainNext, LoopNext, StopNext, ConStep, AllMove, ListsInv, WordsInv, ConInv;
    if OfCon(a) {
      ConMoves(code, w, a);
    } else if MainNext(w, a).Some? {
      MainMoves(w, a);
    } else if LoopNext(code, w, a).Some? {
      LoopMoves(code, w, a);
    } else {
      StopMoves(w, a);
    }
  }

  lemma ConMoves(code: Code, w: World, a: Action)
    requires Inv(w) && OfCon(a) && ConStep(code, w, a).Some?
    ensures AllMove(w, ConStep(code, w, a).value) <==> Timely(code, w, a)
  {
    hide ListsInv, WordsInv;
    assert ConInv(w, a.id);
    var w' := ConStep(code, w, a).value;
    if AllMove(w, w') {
      assert Moves(w.cons[a.id].word, w'.cons[a.id].word);
    }
  }

  lemma MainMoves(w: World, a: Action)
    requires MainNext(w, a).Some?
    ensures AllMove(w, MainNext(w, a).value)
  {
  }

  lemma LoopMoves(code: Code, w: World, a: Action)
    requires LoopNext(code, w, a).Some?
    ensures AllMove(w, LoopNext(code, w, a).value)
  {
  }

  lemma StopMoves(w: World, a: Action)
    requires StopNext(w, a).Some?
    ensures AllMove(w, StopNext(w, a).value)
  {
  }

  /** The reaper as written loses exactly the connections in front of the one it unlinks. */
  lemma ReaperLosesExact(w: World)
    requires Inv(w) && w.server.Join? && w.cons[w.clients[w.server.k]].pc == Finished
    ensures var w' := Next(SOURCE, w, SrvJoin).value;
            && |w'.cons| == |w.cons|
            && forall i: nat | i < |w.cons| :: (!Lost(w, i) && Lost(w', i)) <==> i in w.clients[..w.server.k]
  {
    var k := w.server.k;
    var w' := Next(SOURCE, w, SrvJoin).value;
    assert w'.clients == w.clients[k + 1..];
    hide Next, WordsInv;
    forall i: nat | i < |w.cons|
      ensures (!Lost(w, i) && Lost(w', i)) <==> i in w.clients[..k]
    {
      SplitAt(w.clients, k, i, |w.cons|);
      assert ConInv(w, i);
      assert ConInv(w, w.clients[k]);
    }
  }
}
