/**
 * Stopping a server comes to an end, if the threads are fair; where it does not, and how the
 * two mistakes of the source are reached (src/server.c, src/connection.c).
 */
module Shutdown {
  import opened Words
  import opened Lifecycle

  // ---------------------------------------------------------------------------------------
  // What the passes of stop_all_connections have achieved
  // ---------------------------------------------------------------------------------------

  /** None of the first `k` detached connections is at work any more, but for some. */
  predicate NoneWorks(w: World, but: set<nat>, k: int) {
    forall j | 0 <= j < k && j < |w.detached| && w.detached[j] < |w.cons| ::
      w.detached[j] in but || w.cons[w.detached[j]].word != Working
  }

  /** The first `k` detached connections have left, or are leaving, but for some. */
  predicate AllEnd(w: World, but: set<nat>, k: int) {
    forall j | 0 <= j < k && j < |w.detached| && w.detached[j] < |w.cons| ::
      w.detached[j] in but || Ends(w.cons[w.detached[j]].word)
  }

  /** What the passes have achieved, but for the connections whose mark a late store has taken back. */
  predicate MarksInv(w: World, but: set<nat>) {
    && (w.server.Mark? ==> NoneWorks(w, but, w.server.k))
    && (w.server.Count? || w.server.JoinAll? || w.server.FreeAll? ==> NoneWorks(w, but, |w.detached|))
    && (w.server.Count? && w.server.work == 0 ==> AllEnd(w, but, w.server.k))
    && (w.server.JoinAll? || w.server.FreeAll? ==> AllEnd(w, but, |w.detached|))
  }

  /** The connection whose mark the step takes back. */
  function TakenBack(code: Code, w: World, a: Action): set<nat> {
    if a.ConStart? && !Timely(code, w, a) then {a.id} else {}
  }

  lemma ConMarks(code: Code, w: World, but: set<nat>, a: Action)
    requires Inv(w) && MarksInv(w, but) && OfCon(a) && ConStep(code, w, a).Some?
    ensures MarksInv(ConStep(code, w, a).value, but + TakenBack(code, w, a))
  {
    assert ConInv(w, a.id);
    hide Inv;
  }

  lemma MainMarks(w: World, but: set<nat>, a: Action)
    requires MarksInv(w, but) && WordsInv(w) && MainNext(w, a).Some?
    ensures MarksInv(MainNext(w, a).value, but)
  {
  }

  lemma LoopMarks(code: Code, w: World, but: set<nat>, a: Action)
    requires LoopNext(code, w, a).Some?
    ensures MarksInv(LoopNext(code, w, a).value, but)
  {
  }

  lemma StopMarks(w: World, but: set<nat>, a: Action)
    requires Inv(w) && MarksInv(w, but) && StopNext(w, a).Some?
    ensures MarksInv(StopNext(w, a).value, but)
  {
    match a
    case SrvMark => MarkMarks(w, but);
    case SrvCount => CountMarks(w, but);
    case SrvJoinAll => JoinAllMarks(w, but);
    case SrvFreeAll => FreeAllMarks(w, but);
    case _ =>
  }

  lemma MarkMarks(w: World, but: set<nat>)
    requires ListsInv(w) && MarksInv(w, but) && w.server.Mark?
    ensures MarksInv(StopNext(w, SrvMark).value, but)
  {
  }

  lemma CountMarks(w: World, but: set<nat>)
    requires Inv(w) && MarksInv(w, but) && w.server.Count?
    ensures MarksInv(StopNext(w, SrvCount).value, but)
  {
    if w.server.k < |w.detached| {
      assert ConInv(w, w.detached[w.server.k]);
    }
    hide ConInv, WordsInv;
  }

  lemma JoinAllMarks(w: World, but: set<nat>)
    requires ListsInv(w) && MarksInv(w, but) && w.server.JoinAll? && StopNext(w, SrvJoinAll).Some?
    ensures MarksInv(StopNext(w, SrvJoinAll).value, but)
  {
  }

  lemma FreeAllMarks(w: World, but: set<nat>)
    requires ListsInv(w) && MarksInv(w, but) && w.server.FreeAll? && StopNext(w, SrvFreeAll).Some?
    ensures MarksInv(StopNext(w, SrvFreeAll).value, but)
  {
    if w.detached != [] {
      var w' := StopNext(w, SrvFreeAll).value;
      forall j | 0 <= j < |w'.detached| && w'.detached[j] < |w'.cons| && w'.detached[j] !in but
        ensures Ends(w'.cons[w'.detached[j]].word) && w'.cons[w'.detached[j]].word != Working
      {
        assert w'.detached[j] == w.detached[j + 1];
      }
    }
  }

  lemma MarksKeep(code: Code, w: World, but: set<nat>, a: Action)
    requires Inv(w) && MarksInv(w, but) && Next(code, w, a).Some?
    ensures MarksInv(Next(code, w, a).value, but + TakenBack(code, w, a))
  {
    hide Inv, MarksInv, Next, MainNext, LoopNext, StopNext, ConStep, Timely;
    NextIs(code, w, a);
    if OfCon(a) {
      ConMarks(code, w, but, a);
    } else {
      assert but + TakenBack(code, w, a) == but;
      if MainNext(w, a).Some? {
        InvWords(w);
        MainMarks(w, but, a);
      } else if LoopNext(code, w, a).Some? {
        LoopMarks(code, w, but, a);
      } else {
        StopMarks(w, but, a);
      }
    }
  }

  lemma InvWords(w: World)
    requires Inv(w)
    ensures WordsInv(w)
  {
  }

  // ---------------------------------------------------------------------------------------
  // How far a stop is from its end
  // ---------------------------------------------------------------------------------------

  /** STOP has been stored in time, or has been answered, and trfb_server_stop has not returned. */
  predicate Ending(w: World) {
    || (w.main.Polling? && w.word == SrvStop && (InLoop(w.server) || InStop(w.server)))
    || (w.main.Polling? && w.word != SrvStop)
    || w.main.Joining?
  }

  predicate Returned(w: World) {
    w.server == Off && (w.main == Idle || w.main == Destroying)
  }

  /** How far a connection thread is from having finished. */
  function Debt(c: Con): nat {
    match c.pc
    case Fresh => 3
    case Running => 2
    case Leaving => 1
    case Finished => 0
  }

  function DebtOf(cs: seq<Con>): nat {
    if cs == [] then 0 else Debt(cs[0]) + DebtOf(cs[1..])
  }

  lemma {:induction false} DebtUpdate(cs: seq<Con>, i: nat, c: Con)
    requires i < |cs|
    ensures DebtOf(cs[i := c]) == DebtOf(cs) - Debt(cs[i]) + Debt(c)
  {
    if i > 0 {
      DebtUpdate(cs[1..], i - 1, c);
      assert cs[i := c][1..] == cs[1..][i - 1 := c];
    }
  }

  function Phase(w: World): nat {
    if w.main.Joining? then 1
    else if w.main.Polling? && w.word != SrvStop then 2
    else if !w.main.Polling? then 0
    else
      match w.server
      case Off => 0
      case Boot => 0
      case Select => 12
      case Link(_) => 11
      case Reap(_) => 10
      case Join(_) => 10
      case Top => 9
      case Take(_) => 8
      case Mark(_, _) => 7
      case Count(_, _, _) => 6
      case JoinAll(_, _) => 5
      case FreeAll(_) => 4
      case Store(_) => 3
      case Exited => 0
  }

  predicate Marked(cons: seq<Con>, id: nat) {
    id < |cons| && cons[id].word == Stop
  }

  /** The first of the connections that is marked and has not reacted; their number if there is none. */
  function FirstMarked(cons: seq<Con>, ids: seq<nat>): (n: nat)
    ensures n <= |ids|
    ensures n < |ids| ==> Marked(cons, ids[n])
    ensures forall j | 0 <= j < n :: !Marked(cons, ids[j])
  {
    if ids == [] || Marked(cons, ids[0]) then 0 else 1 + FirstMarked(cons, ids[1..])
  }

  predicate Waits(w: World) {
    w.server.Count? && FirstMarked(w.cons, w.detached) < |w.detached|
  }

  /** What is left of a pass. A counting pass that waits for a connection may go on for any time. */
  function Left(w: World): int {
    if w.main.Joining? || w.word != SrvStop || Waits(w) then 0
    else
      match w.server
      case Reap(k) => 2 * (|w.clients| - k) + 1
      case Join(k) => 2 * (|w.clients| - k)
      case Mark(_, k) => |w.detached| - k
      case Count(_, k, work) => if work == 0 then |w.detached| - k else 2 * |w.detached| - k + 1
      case JoinAll(_, k) => |w.detached| - k
      case FreeAll(_) => |w.detached|
      case _ => 0
  }

  lemma LeftBound(w: World)
    requires Inv(w)
    ensures Left(w) >= 0
  {
  }

  predicate Closer(w: World, w': World) {
    || Phase(w') < Phase(w)
    || (Phase(w') == Phase(w) && DebtOf(w'.cons) < DebtOf(w.cons))
    || (Phase(w') == Phase(w) && DebtOf(w'.cons) == DebtOf(w.cons) && Left(w') < Left(w))
  }

  predicate AsFar(w: World, w': World) {
    Phase(w') == Phase(w) && DebtOf(w'.cons) == DebtOf(w.cons) && Left(w') == Left(w)
  }

  // ---------------------------------------------------------------------------------------
  // The thread that helps
  // ---------------------------------------------------------------------------------------

  datatype Thread = App | Server | Client(id: nat)

  function Owner(a: Action): Thread {
    match a
    case Launch => App
    case LaunchOk => App
    case LaunchFailed => App
    case BeginStop => App
    case StoreStop => App
    case PollDone => App
    case JoinServer => App
    case BeginDestroy => App
    case FreeScreen => App
    case ConStart(id) => Client(id)
    case ConCheck(id) => Client(id)
    case ConFail(id) => Client(id)
    case ConFinish(id) => Client(id)
    case _ => Server
  }

  /** Steps that are nobody's choice. When to launch or stop is the application's, failing the client's. */
  predicate Obliged(a: Action) {
    !a.Launch? && !a.BeginStop? && !a.BeginDestroy? && !a.ConFail?
  }

  /** The thread has a step to take that it owes. */
  ghost predicate Due(code: Code, w: World, t: Thread) {
    exists a: Action {:trigger Next(code, w, a)} :: Owner(a) == t && Obliged(a) && Next(code, w, a).Some?
  }

  /** The next step of a connection on its way out. */
  function ConAct(w: World, id: nat): Action {
    if id < |w.cons| && w.cons[id].pc == Fresh then ConStart(id)
    else if id < |w.cons| && w.cons[id].pc == Running then if w.cons[id].word == Stop then ConCheck(id) else ConFail(id)
    else ConFinish(id)
  }

  function WaitFor(w: World, id: nat, a: Action): Action {
    if id < |w.cons| && w.cons[id].pc != Finished then ConAct(w, id) else a
  }

  /** A step that takes the stop closer to its end. */
  function Act(w: World): Action {
    if w.main.Joining? then JoinServer
    else if w.word != SrvStop then PollDone
    else
      match w.server
      case Top => SrvTop
      case Select => SrvNoClient
      case Link(_) => SrvLink
      case Reap(_) => SrvReap
      case Join(k) => if k < |w.clients| then WaitFor(w, w.clients[k], SrvJoin) else SrvJoin
      case Take(_) => SrvTake
      case Mark(_, _) => SrvMark
      case Count(_, _, _) =>
        if Waits(w) then ConAct(w, w.detached[FirstMarked(w.cons, w.detached)]) else SrvCount
      case JoinAll(_, k) => if k < |w.detached| then WaitFor(w, w.detached[k], SrvJoinAll) else SrvJoinAll
      case FreeAll(_) => SrvFreeAll
      case _ => SrvStore
  }

  lemma ActCan(code: Code, w: World)
    requires Inv(w) && Ending(w)
    ensures Next(code, w, Act(w)).Some?
  {
    hide Inv, Ending, Act, Next, MainNext, LoopNext, StopNext, ConStep;
    NextIs(code, w, Act(w));
    if w.main.Joining? || w.word != SrvStop {
      MainCan(w);
    } else if OfCon(Act(w)) {
      ConCan(code, w);
    } else if InLoop(w.server) {
      LoopCan(code, w);
    } else {
      StopCan(w);
    }
  }

  lemma MainCan(w: World)
    requires Inv(w) && Ending(w) && (w.main.Joining? || w.word != SrvStop)
    ensures MainNext(w, Act(w)).Some? && !OfCon(Act(w))
  {
    hide ListsInv, ConInv;
  }

  lemma ConCan(code: Code, w: World)
    requires Inv(w) && Ending(w) && OfCon(Act(w))
    ensures ConStep(code, w, Act(w)).Some?
  {
    if w.server.Count? && Waits(w) {
      assert ConInv(w, w.detached[FirstMarked(w.cons, w.detached)]);
    }
    hide ConInv, WordsInv;
  }

  lemma LoopCan(code: Code, w: World)
    requires Inv(w) && Ending(w) && !w.main.Joining? && w.word == SrvStop && !OfCon(Act(w)) && InLoop(w.server)
    ensures LoopNext(code, w, Act(w)).Some?
  {
    hide ConInv, WordsInv;
  }

  lemma StopCan(w: World)
    requires Inv(w) && Ending(w) && !w.main.Joining? && w.word == SrvStop && !OfCon(Act(w)) && !InLoop(w.server)
    ensures StopNext(w, Act(w)).Some?
  {
    hide ConInv, WordsInv;
  }

  /** The one step that nobody owes is that of a client whose connection has lost its mark. */
  lemma ActIsObliged(w: World, but: set<nat>)
    requires Inv(w) && MarksInv(w, but) && Ending(w)
    ensures Obliged(Act(w)) || (Act(w).ConFail? && Act(w).id in but)
  {
    if !w.main.Joining? && w.word == SrvStop {
      match w.server
      case Join(k) => assert ConInv(w, w.clients[k]);
      case JoinAll(_, k) =>
        if k < |w.detached| {
          assert ConInv(w, w.detached[k]);
        }
      case _ =>
    }
  }

  /** Only a client that is connected can go away. */
  lemma FailIsOfRunning(w: World)
    requires Inv(w) && Act(w).ConFail?
    ensures !HasEnded(w, Act(w).id)
  {
    var id := Act(w).id;
    if id < |w.cons| {
      assert ConInv(w, id);
    }
  }

  predicate HasEnded(w: World, id: nat) {
    id < |w.cons| && Ends(w.cons[id].word)
  }

  /** Still on its way, or arrived. */
  predicate OnItsWay(w: World) {
    Ending(w) || Returned(w)
  }

  /** Closer to the end, or nothing has changed and the helpful thread has not stepped. */
  predicate Forward(w: World, a: Action, w': World) {
    && OnItsWay(w')
    && (Closer(w, w') || (AsFar(w, w') && Ending(w') && Act(w') == Act(w) && Owner(a) != Owner(Act(w))))
  }

  lemma ConForward(code: Code, w: World, a: Action)
    requires Inv(w) && Ending(w) && OfCon(a) && ConStep(code, w, a).Some?
    ensures Forward(w, a, ConStep(code, w, a).value)
  {
    hide ListsInv, WordsInv, ConInv, Act, Left;
    DebtUpdate(w.cons, a.id, ConStep(code, w, a).value.cons[a.id]);
  }

  lemma MainForward(w: World, a: Action)
    requires Inv(w) && Ending(w) && MainNext(w, a).Some?
    ensures Forward(w, a, MainNext(w, a).value)
  {
    hide ListsInv, ConInv, Act, Left;
  }

  lemma LoopForward(code: Code, w: World, a: Action)
    requires Inv(w) && Ending(w) && LoopNext(code, w, a).Some?
    ensures Forward(w, a, LoopNext(code, w, a).value)
  {
    OnlyInLoop(code, w, a);
    hide Forward, LoopNext, Inv, Ending;
    if a.SrvJoin? {
      JoinForward(code, w);
    } else if a.SrvReap? {
      ReapForward(code, w);
    } else {
      PlainForward(code, w, a);
    }
  }

  lemma OnlyInLoop(code: Code, w: World, a: Action)
    requires WordsInv(w) && Ending(w) && LoopNext(code, w, a).Some?
    ensures InLoop(w.server) && w.word == SrvStop && w.main.Polling?
    ensures (a.SrvJoin? ==> w.server.Join?) && (a.SrvReap? ==> w.server.Reap?)
  {
  }

  lemma JoinForward(code: Code, w: World)
    requires Inv(w) && w.word == SrvStop && w.main.Polling? && w.server.Join? && LoopNext(code, w, SrvJoin).Some?
    ensures Forward(w, SrvJoin, LoopNext(code, w, SrvJoin).value)
  {
    JoinIs(code, w);
    var w' := LoopNext(code, w, SrvJoin).value;
    DebtUpdate(w.cons, w.clients[w.server.k], Reaped(w.cons[w.clients[w.server.k]]));
    hide ListsInv, WordsInv, ConInv, Act, DebtOf, FirstMarked, LoopNext;
  }

  lemma ReapForward(code: Code, w: World)
    requires Inv(w) && w.word == SrvStop && w.main.Polling? && w.server.Reap?
    ensures Forward(w, SrvReap, LoopNext(code, w, SrvReap).value)
  {
    hide WordsInv, ConInv, Act, DebtOf, FirstMarked;
  }

  lemma PlainForward(code: Code, w: World, a: Action)
    requires InLoop(w.server) && w.word == SrvStop && w.main.Polling? && !a.SrvJoin? && !a.SrvReap?
    requires LoopNext(code, w, a).Some?
    ensures Forward(w, a, LoopNext(code, w, a).value)
  {
    hide Act, DebtOf, Left;
  }

  lemma StopForward(w: World, a: Action)
    requires Inv(w) && Ending(w) && StopNext(w, a).Some?
    ensures Forward(w, a, StopNext(w, a).value)
  {
    OnlyInStop(w, a);
    hide Forward, StopNext, Inv, Ending;
    match a
    case SrvMark => MarkForward(w);
    case SrvCount => CountForward(w);
    case SrvJoinAll => JoinAllForward(w);
    case SrvFreeAll => FreeAllForward(w);
    case _ => EdgeForward(w, a);
  }

  lemma OnlyInStop(w: World, a: Action)
    requires WordsInv(w) && Ending(w) && StopNext(w, a).Some?
    ensures InStop(w.server) && w.word == SrvStop && w.main.Polling?
    ensures a.SrvTake? || a.SrvMark? || a.SrvCount? || a.SrvJoinAll? || a.SrvFreeAll? || a.SrvStore?
    ensures (a.SrvMark? ==> w.server.Mark?) && (a.SrvCount? ==> w.server.Count?)
    ensures (a.SrvJoinAll? ==> w.server.JoinAll?) && (a.SrvFreeAll? ==> w.server.FreeAll?)
  {
  }

  lemma EdgeForward(w: World, a: Action)
    requires Inv(w) && Ending(w) && StopNext(w, a).Some? && (a.SrvTake? || a.SrvStore?)
    ensures Forward(w, a, StopNext(w, a).value)
  {
    hide ListsInv, ConInv, Act, Left, DebtOf;
  }

  lemma MarkForward(w: World)
    requires Inv(w) && Ending(w) && w.server.Mark? && w.word == SrvStop && w.main.Polling?
    ensures Forward(w, SrvMark, StopNext(w, SrvMark).value)
  {
    var k, w' := w.server.k, StopNext(w, SrvMark).value;
    if k < |w.detached| && w.cons[w.detached[k]].word == Working {
      DebtUpdate(w.cons, w.detached[k], w'.cons[w.detached[k]]);
    }
    hide WordsInv, ConInv, Act, DebtOf, FirstMarked;
  }

  lemma CountForward(w: World)
    requires Inv(w) && Ending(w) && w.server.Count? && w.word == SrvStop && w.main.Polling?
    ensures Forward(w, SrvCount, StopNext(w, SrvCount).value)
  {
    hide WordsInv, ConInv, DebtOf, FirstMarked;
    if Waits(w) {
      CountWaits(w);
    }
  }

  /** While a connection is waited for, the server's counting changes nothing. */
  lemma CountWaits(w: World)
    requires Inv(w) && Ending(w) && w.server.Count? && w.word == SrvStop && w.main.Polling? && Waits(w)
    ensures Forward(w, SrvCount, StopNext(w, SrvCount).value)
  {
    hide WordsInv, ConInv, DebtOf, FirstMarked;
    assert Owner(ConAct(w, w.detached[FirstMarked(w.cons, w.detached)])).Client?;
  }

  lemma JoinAllForward(w: World)
    requires Inv(w) && Ending(w) && w.server.JoinAll? && w.word == SrvStop && w.main.Polling?
    requires StopNext(w, SrvJoinAll).Some?
    ensures Forward(w, SrvJoinAll, StopNext(w, SrvJoinAll).value)
  {
    var k, w' := w.server.k, StopNext(w, SrvJoinAll).value;
    if k < |w.detached| {
      DebtUpdate(w.cons, w.detached[k], w'.cons[w.detached[k]]);
    }
    hide WordsInv, ConInv, Act, DebtOf;
  }

  lemma FreeAllForward(w: World)
    requires Inv(w) && Ending(w) && w.server.FreeAll? && w.word == SrvStop && w.main.Polling?
    requires StopNext(w, SrvFreeAll).Some?
    ensures Forward(w, SrvFreeAll, StopNext(w, SrvFreeAll).value)
  {
    var w' := StopNext(w, SrvFreeAll).value;
    if w.detached != [] {
      DebtUpdate(w.cons, w.detached[0], w'.cons[w.detached[0]]);
    }
    hide WordsInv, ConInv, Act, DebtOf;
  }

  /**
   * No step of any thread, in either code, takes a stop further from its end, and a step of the
   * helpful thread takes it closer.
   */
  lemma EveryStepIsForward(code: Code, w: World, a: Action)
    requires Inv(w) && Ending(w) && Next(code, w, a).Some?
    ensures Forward(w, a, Next(code, w, a).value)
  {
    hide Inv, Forward, Next, MainNext, LoopNext, StopNext, ConStep;
    NextIs(code, w, a);
    if OfCon(a) {
      ConForward(code, w, a);
    } else if MainNext(w, a).Some? {
      MainForward(w, a);
    } else if LoopNext(code, w, a).Some? {
      LoopForward(code, w, a);
    } else {
      StopForward(w, a);
    }
  }

  /**
   * Once the marking pass is over no step of any thread, in either code, marks a connection, so
   * that the number of those that are marked and have not reacted never rises.
   */
  lemma MarkedNeverRise(code: Code, w: World, a: Action)
    requires Inv(w) && Next(code, w, a).Some?
    requires InStop(w.server) && !w.server.Take? && !w.server.Mark?
    ensures var w' := Next(code, w, a).value;
            |w'.cons| == |w.cons| && forall i: nat | i < |w.cons| && Marked(w'.cons, i) :: Marked(w.cons, i)
  {
    hide ListsInv, WordsInv, ConInv, MainNext, LoopNext, StopNext, ConStep, Marked;
    NextIs(code, w, a);
    if OfCon(a) {
      ConMarksNone(code, w, a);
    } else if MainNext(w, a).Some? {
      MainLists(w, a);
    } else if LoopNext(code, w, a).Some? {
      assert InLoop(w.server) || w.server == Boot by {
        OnlyLoopOrBoot(code, w, a);
      }
    } else {
      StopMarksNone(w, a);
    }
  }

  lemma OnlyLoopOrBoot(code: Code, w: World, a: Action)
    requires LoopNext(code, w, a).Some?
    ensures InLoop(w.server) || w.server == Boot
  {
  }

  lemma ConMarksNone(code: Code, w: World, a: Action)
    requires OfCon(a) && ConStep(code, w, a).Some?
    ensures var w' := ConStep(code, w, a).value;
            |w'.cons| == |w.cons| && forall i: nat | i < |w.cons| && Marked(w'.cons, i) :: Marked(w.cons, i)
  {
  }

  lemma StopMarksNone(w: World, a: Action)
    requires StopNext(w, a).Some? && !w.server.Take? && !w.server.Mark?
    ensures var w' := StopNext(w, a).value;
            |w'.cons| == |w.cons| && forall i: nat | i < |w.cons| && Marked(w'.cons, i) :: Marked(w.cons, i)
  {
  }

  // ---------------------------------------------------------------------------------------
  // Endless runs
  // ---------------------------------------------------------------------------------------

  /** What happens for ever: at each moment a thread takes a step, or none does. */
  datatype Life = Life(worlds: nat -> World, steps: nat -> Option<Action>)

  predicate Happens(code: Code, w: World, step: Option<Action>, w': World) {
    match step
    case None => w' == w
    case Some(a) => Next(code, w, a) == Some(w')
  }

  ghost predicate IsLife(code: Code, l: Life) {
    l.worlds(0) == INITIAL && forall n: nat :: Happens(code, l.worlds(n), l.steps(n), l.worlds(n + 1))
  }

  /** At that moment the thread takes a step, or owes none. */
  ghost predicate Served(code: Code, l: Life, t: Thread, n: nat) {
    !Due(code, l.worlds(n), t) || (l.steps(n).Some? && Owner(l.steps(n).value) == t)
  }

  ghost predicate ServedFrom(code: Code, l: Life, t: Thread, n: nat) {
    exists m: nat :: n <= m && Served(code, l, t, m)
  }

  /** No thread owes a step for ever without taking one. */
  ghost predicate WeaklyFair(code: Code, l: Life) {
    forall t: Thread, n: nat :: ServedFrom(code, l, t, n)
  }

  /** No late store takes a mark back. */
  ghost predicate TimelyLife(code: Code, l: Life) {
    forall n: nat :: l.steps(n).Some? ==> Timely(code, l.worlds(n), l.steps(n).value)
  }

  /** At that moment a late store takes the connection's mark back. */
  ghost predicate MarkTaken(code: Code, l: Life, n: nat, id: nat) {
    l.steps(n) == Some(ConStart(id)) && !Timely(code, l.worlds(n), ConStart(id))
  }

  /** The connections whose marks have been taken back so far. */
  ghost function Unmarked(code: Code, l: Life, n: nat): set<nat> {
    if n == 0 then {}
    else
      Unmarked(code, l, n - 1) +
      if l.steps(n - 1).Some? then TakenBack(code, l.worlds(n - 1), l.steps(n - 1).value) else {}
  }

  lemma {:induction false} WhenUnmarked(code: Code, l: Life, n: nat, id: nat) returns (k: nat)
    requires id in Unmarked(code, l, n)
    ensures k < n && MarkTaken(code, l, k, id)
  {
    if id in Unmarked(code, l, n - 1) {
      k := WhenUnmarked(code, l, n - 1, id);
    } else {
      k := n - 1;
    }
  }

  lemma {:induction false} LifeKeeps(code: Code, l: Life, n: nat)
    requires IsLife(code, l)
    ensures Inv(l.worlds(n)) && MarksInv(l.worlds(n), Unmarked(code, l, n))
  {
    hide Inv, MarksInv, Next, TakenBack;
    if n == 0 {
      InitialInv();
      InitialMarks();
    } else {
      LifeKeeps(code, l, n - 1);
      assert Happens(code, l.worlds(n - 1), l.steps(n - 1), l.worlds(n));
      if l.steps(n - 1).Some? {
        StepKeeps(code, l.worlds(n - 1), l.steps(n - 1).value);
        MarksKeep(code, l.worlds(n - 1), Unmarked(code, l, n - 1), l.steps(n - 1).value);
      } else {
        assert Unmarked(code, l, n) == Unmarked(code, l, n - 1);
      }
    }
  }

  lemma InitialMarks()
    ensures MarksInv(INITIAL, {})
  {
  }

  /** From the `n`-th moment to the `m`-th the stop has come closer to its end. */
  predicate Nearer(w: World, w': World) {
    OnItsWay(w') && Closer(w, w')
  }

  /** ... or it is where it was, and the same step would help. */
  predicate Unmoved(w: World, w': World) {
    Ending(w') && AsFar(w, w') && Act(w') == Act(w)
  }

  lemma OneMoment(code: Code, l: Life, n: nat)
    requires IsLife(code, l) && Ending(l.worlds(n))
    ensures Nearer(l.worlds(n), l.worlds(n + 1))
            || (Unmoved(l.worlds(n), l.worlds(n + 1))
                && !(l.steps(n).Some? && Owner(l.steps(n).value) == Owner(Act(l.worlds(n)))))
  {
    hide Inv, Next, Ending, Act, Closer, AsFar, Owner, Returned;
    LifeKeeps(code, l, n);
    assert Happens(code, l.worlds(n), l.steps(n), l.worlds(n + 1));
    if l.steps(n).Some? {
      EveryStepIsForward(code, l.worlds(n), l.steps(n).value);
    } else {
      AsFarAsItself(l.worlds(n));
    }
  }

  lemma AsFarAsItself(w: World)
    ensures AsFar(w, w)
  {
  }

  /** From the `n`-th moment to the `m`-th the stop has been under way. */
  ghost predicate UnderWay(l: Life, n: nat, m: nat) {
    forall k: nat | n <= k <= m :: Ending(l.worlds(k))
  }

  /** Nothing moves a stop back, for however long. */
  lemma {:induction false} Walk(code: Code, l: Life, n: nat, m: nat) returns (k: nat)
    requires IsLife(code, l) && Ending(l.worlds(n)) && n <= m
    ensures n <= k <= m && forall j: nat | n <= j < k :: Ending(l.worlds(j))
    ensures Nearer(l.worlds(n), l.worlds(k)) || (k == m && Unmoved(l.worlds(n), l.worlds(k)))
    decreases m
  {
    hide Inv, Next, Ending, Act, Owner, Returned, IsLife;
    if n == m {
      k := n;
      AsFarAsItself(l.worlds(n));
    } else {
      k := Walk(code, l, n, m - 1);
      if !Nearer(l.worlds(n), l.worlds(k)) {
        OneMoment(code, l, m - 1);
        k := m;
      }
    }
  }

  ghost predicate EndsSomeDay(l: Life, id: nat) {
    exists m: nat :: HasEnded(l.worlds(m), id)
  }

  /** Every connection whose mark is taken back before the stop has returned ends some day. */
  ghost predicate LeaveSomeDay(code: Code, l: Life, n: nat) {
    forall k: nat, id: nat :: MarkTaken(code, l, k, id) && (k < n || UnderWay(l, n, k)) ==> EndsSomeDay(l, id)
  }

  /** The helpful thread is fair, or waits for a client that leaves: the stop comes closer to its end. */
  lemma ComesNearer(code: Code, l: Life, n: nat, i: nat) returns (k: nat)
    requires IsLife(code, l) && WeaklyFair(code, l) && LeaveSomeDay(code, l, n)
    requires n <= i && UnderWay(l, n, i)
    ensures i < k && Nearer(l.worlds(i), l.worlds(k)) && forall j: nat | n <= j < k :: Ending(l.worlds(j))
  {
    hide Inv, MarksInv, Next, Ending, Act, Owner, Returned, IsLife, WeaklyFair, LeaveSomeDay, Obliged, Closer, AsFar;
    LifeKeeps(code, l, i);
    ActIsObliged(l.worlds(i), Unmarked(code, l, i));
    if Obliged(Act(l.worlds(i))) {
      k := HelperSteps(code, l, i);
    } else {
      var id := Act(l.worlds(i)).id;
      WillLeave(code, l, n, i, id);
      var m := EndedFrom(code, l, i, id);
      k := Walk(code, l, i, m);
      if !Nearer(l.worlds(i), l.worlds(k)) {
        LifeKeeps(code, l, m);
        FailIsOfRunning(l.worlds(m));
      }
    }
    NotNearerToItself(l.worlds(i));
  }

  lemma NotNearerToItself(w: World)
    ensures !Nearer(w, w)
  {
  }

  lemma WillLeave(code: Code, l: Life, n: nat, i: nat, id: nat)
    requires LeaveSomeDay(code, l, n) && n <= i && UnderWay(l, n, i) && id in Unmarked(code, l, i)
    ensures EndsSomeDay(l, id)
  {
    hide MarkTaken, Ending;
    var k := WhenUnmarked(code, l, i, id);
    assert k < n || UnderWay(l, n, k);
  }

  /** A connection that ends some day has ended at some moment from `i` on. */
  lemma EndedFrom(code: Code, l: Life, i: nat, id: nat) returns (m: nat)
    requires IsLife(code, l) && EndsSomeDay(l, id)
    ensures i <= m && HasEnded(l.worlds(m), id)
  {
    hide IsLife, HasEnded;
    m :| HasEnded(l.worlds(m), id);
    if m < i {
      EndedStays(code, l, m, i, id);
      m := i;
    }
  }

  lemma {:induction false} EndedStays(code: Code, l: Life, m: nat, i: nat, id: nat)
    requires IsLife(code, l) && HasEnded(l.worlds(m), id) && m <= i
    ensures HasEnded(l.worlds(i), id)
    decreases i
  {
    hide Inv, MarksInv, Next, HasEnded;
    if m < i {
      EndedStays(code, l, m, i - 1, id);
      LifeKeeps(code, l, i - 1);
      assert Happens(code, l.worlds(i - 1), l.steps(i - 1), l.worlds(i));
      if l.steps(i - 1).Some? {
        StepKeepsEnded(code, l.worlds(i - 1), l.steps(i - 1).value, id);
      }
    }
  }

  lemma StepKeepsEnded(code: Code, w: World, a: Action, id: nat)
    requires Inv(w) && Next(code, w, a).Some? && HasEnded(w, id)
    ensures HasEnded(Next(code, w, a).value, id)
  {
    hide ListsInv, WordsInv;
    assert ConInv(w, id);
  }

  /** A thread that owes the helpful step takes it, unless others bring the stop closer first. */
  lemma HelperSteps(code: Code, l: Life, n: nat) returns (k: nat)
    requires IsLife(code, l) && WeaklyFair(code, l) && Ending(l.worlds(n)) && Obliged(Act(l.worlds(n)))
    ensures n <= k && Nearer(l.worlds(n), l.worlds(k)) && forall j: nat | n <= j < k :: Ending(l.worlds(j))
  {
    hide Inv, MarksInv, Next, Ending, Act, Owner, Returned, IsLife, Obliged, Closer, AsFar;
    var t := Owner(Act(l.worlds(n)));
    assert ServedFrom(code, l, t, n);
    var m: nat :| n <= m && Served(code, l, t, m);
    k := Walk(code, l, n, m);
    if !Nearer(l.worlds(n), l.worlds(k)) {
      LifeKeeps(code, l, m);
      ActCan(code, l.worlds(m));
      assert Due(code, l.worlds(m), t);
      OneMoment(code, l, m);
      NearerStill(l.worlds(n), l.worlds(m), l.worlds(m + 1));
      k := m + 1;
    }
  }

  lemma NearerStill(u: World, v: World, w: World)
    requires AsFar(u, v) && Nearer(v, w)
    ensures Nearer(u, w)
  {
  }

  /** In every endless run of fair threads a stop that is in time, and whose clients leave, returns. */
  lemma {:induction false} FairStopEnds(code: Code, l: Life, n: nat, i: nat) returns (m: nat)
    requires IsLife(code, l) && WeaklyFair(code, l) && LeaveSomeDay(code, l, n)
    requires n <= i && UnderWay(l, n, i)
    ensures n <= m && Returned(l.worlds(m))
    decreases Phase(l.worlds(i)), DebtOf(l.worlds(i).cons), Left(l.worlds(i))
  {
    hide Inv, MarksInv, IsLife, WeaklyFair, LeaveSomeDay, Ending, Returned, Phase, DebtOf, Left;
    LifeKeeps(code, l, i);
    LeftBound(l.worlds(i));
    m := ComesNearer(code, l, n, i);
    if !Returned(l.worlds(m)) {
      m := FairStopEnds(code, l, n, m);
    }
  }

  /**
   * In particular, where no late store takes a mark back, whether or not the code advances `prev`,
   * trfb_server_stop returns if its STOP comes before the server thread's final store.
   */
  lemma FairStopReturns(code: Code, l: Life, n: nat) returns (m: nat)
    requires IsLife(code, l) && WeaklyFair(code, l) && TimelyLife(code, l) && Ending(l.worlds(n))
    ensures n <= m && Returned(l.worlds(m))
  {
    hide IsLife, WeaklyFair, Timely, Ending;
    m := FairStopEnds(code, l, n, n);
  }

  // ---------------------------------------------------------------------------------------
  // A stop that comes too late
  // ---------------------------------------------------------------------------------------

  /** STOP was stored after the server thread's final store. */
  predicate Stuck(w: World) {
    w.main.Polling? && w.word == SrvStop && (w.server == Off || w.server == Exited)
  }

  /** Then the application polls for ever, whatever the threads do. */
  lemma StuckForever(code: Code, w: World, a: Action)
    requires Stuck(w) && Next(code, w, a).Some?
    ensures Stuck(Next(code, w, a).value)
  {
  }

  lemma StopAfterFinalStore(code: Code, w: World)
    requires Inv(w) && w.main.Stopping?
    ensures Next(code, w, StoreStop).Some?
    ensures Stuck(Next(code, w, StoreStop).value) <==> w.server == Off || w.server == Exited
    ensures Ending(Next(code, w, StoreStop).value) <==> !(w.server == Off || w.server == Exited)
  {
  }

  lemma {:induction false} StuckLife(code: Code, l: Life, n: nat, m: nat)
    requires IsLife(code, l) && Stuck(l.worlds(n)) && n <= m
    ensures Stuck(l.worlds(m))
    decreases m
  {
    hide Next, Stuck;
    if n < m {
      StuckLife(code, l, n, m - 1);
      assert Happens(code, l.worlds(m - 1), l.steps(m - 1), l.worlds(m));
      if l.steps(m - 1).Some? {
        StuckForever(code, l.worlds(m - 1), l.steps(m - 1).value);
      }
    }
  }

  /** A connection stays among the detached ones until it has ended. */
  lemma {:induction false} StaysUntilEnded(code: Code, l: Life, n: nat, m: nat, id: nat)
    requires IsLife(code, l) && id in l.worlds(n).detached && n <= m
    ensures id in l.worlds(m).detached || HasEnded(l.worlds(m), id)
    decreases m
  {
    hide Inv, MarksInv, Next, HasEnded;
    if n < m {
      StaysUntilEnded(code, l, n, m - 1, id);
      LifeKeeps(code, l, m - 1);
      var w := l.worlds(m - 1);
      assert Happens(code, w, l.steps(m - 1), l.worlds(m));
      if l.steps(m - 1).Some? {
        if HasEnded(w, id) {
          StepKeepsEnded(code, w, l.steps(m - 1).value, id);
        } else {
          StepKeepsDetached(code, w, l.steps(m - 1).value, id);
        }
      }
    }
  }

  lemma StepKeepsDetached(code: Code, w: World, a: Action, id: nat)
    requires Inv(w) && Next(code, w, a).Some? && id in w.detached
    ensures id in Next(code, w, a).value.detached || HasEnded(Next(code, w, a).value, id)
  {
    hide ConInv, WordsInv, MainNext, LoopNext, StopNext, ConStep, Inv;
    NextIs(code, w, a);
    if OfCon(a) {
      ConKeepsDetached(code, w, a);
    } else if MainNext(w, a).Some? {
      MainKeepsDetached(w, a);
    } else if LoopNext(code, w, a).Some? {
      LoopKeepsDetached(code, w, a);
    } else {
      StopKeepsDetached(w, a, id);
    }
  }

  lemma ConKeepsDetached(code: Code, w: World, a: Action)
    requires OfCon(a) && ConStep(code, w, a).Some?
    ensures ConStep(code, w, a).value.detached == w.detached
  {
  }

  lemma MainKeepsDetached(w: World, a: Action)
    requires MainNext(w, a).Some?
    ensures MainNext(w, a).value.detached == w.detached
  {
  }

  lemma LoopKeepsDetached(code: Code, w: World, a: Action)
    requires LoopNext(code, w, a).Some?
    ensures LoopNext(code, w, a).value.detached == w.detached
  {
  }

  lemma StopKeepsDetached(w: World, a: Action, id: nat)
    requires Inv(w) && StopNext(w, a).Some? && id in w.detached
    ensures id in StopNext(w, a).value.detached || HasEnded(StopNext(w, a).value, id)
  {
    if a.SrvFreeAll? {
      assert ConInv(w, w.detached[0]);
      assert w.detached == [w.detached[0]] + w.detached[1..];
    }
    hide ConInv, WordsInv;
  }

  /** A mark that is taken back is that of a detached connection. */
  lemma TakenIsDetached(code: Code, l: Life, k: nat, id: nat)
    requires IsLife(code, l) && MarkTaken(code, l, k, id)
    ensures id in l.worlds(k).detached
  {
    hide MarksInv, ListsInv, WordsInv;
    LifeKeeps(code, l, k);
    assert Happens(code, l.worlds(k), l.steps(k), l.worlds(k + 1));
    assert ConInv(l.worlds(k), id);
  }

  /** When a stop has returned, every connection whose mark was taken back meanwhile has ended. */
  lemma ReturnedAfterAll(code: Code, l: Life, n: nat, m: nat)
    requires IsLife(code, l) && n <= m && Returned(l.worlds(m))
    ensures LeaveSomeDay(code, l, n)
  {
    hide IsLife, MarkTaken, HasEnded, MarksInv;
    forall k: nat, id: nat | MarkTaken(code, l, k, id) && (k < n || UnderWay(l, n, k))
      ensures EndsSomeDay(l, id)
    {
      BeforeTheReturn(l, n, k, m);
      TakenIsDetached(code, l, k, id);
      StaysUntilEnded(code, l, k, m, id);
      LifeKeeps(code, l, m);
      NoneDetached(l.worlds(m));
    }
  }

  lemma BeforeTheReturn(l: Life, n: nat, k: nat, m: nat)
    requires n <= m && Returned(l.worlds(m)) && (k < n || UnderWay(l, n, k))
    ensures k < m
  {
    assert !Ending(l.worlds(m));
  }

  lemma NoneDetached(w: World)
    requires Inv(w) && Returned(w)
    ensures w.detached == []
  {
  }

  /**
   * So, among fair threads and in either code, trfb_server_stop returns exactly if its STOP comes
   * before the final store and every connection whose mark a late store takes back before it has
   * returned ends some day.
   */
  lemma FairStopExact(code: Code, l: Life, n: nat)
    requires IsLife(code, l) && WeaklyFair(code, l)
    requires l.worlds(n).main.Polling? && l.worlds(n).word == SrvStop
    ensures (exists m: nat :: n <= m && Returned(l.worlds(m)))
            <==> (InLoop(l.worlds(n).server) || InStop(l.worlds(n).server)) && LeaveSomeDay(code, l, n)
  {
    hide Inv, MarksInv, IsLife, WeaklyFair, LeaveSomeDay;
    LifeKeeps(code, l, n);
    StuckOrEnding(l.worlds(n));
    if Ending(l.worlds(n)) {
      if LeaveSomeDay(code, l, n) {
        var m := FairStopEnds(code, l, n, n);
      }
      if m: nat :| n <= m && Returned(l.worlds(m)) {
        ReturnedAfterAll(code, l, n, m);
      }
    } else {
      forall m: nat | n <= m
        ensures !Returned(l.worlds(m))
      {
        StuckLife(code, l, n, m);
      }
    }
  }

  lemma StuckOrEnding(w: World)
    requires Inv(w) && w.main.Polling? && w.word == SrvStop
    ensures Stuck(w) != Ending(w)
    ensures Ending(w) <==> InLoop(w.server) || InStop(w.server)
  {
  }

  // ---------------------------------------------------------------------------------------
  // Runs that end
  // ---------------------------------------------------------------------------------------

  lemma {:induction false} RunOn(code: Code, u: World, steps: seq<Action>, v: World, more: seq<Action>, w: World)
    requires Run(code, u, steps, v) && Run(code, v, more, w)
    ensures Run(code, u, steps + more, w)
    decreases |steps|
  {
    hide Next;
    if steps == [] {
      assert steps + more == more;
    } else {
      RunOn(code, Next(code, u, steps[0]).value, steps[1..], v, more, w);
      assert (steps + more)[1..] == steps[1..] + more;
    }
  }

  lemma OneStep(code: Code, u: World, a: Action, v: World)
    requires Next(code, u, a) == Some(v)
    ensures Run(code, u, [a], v)
  {
    assert [a][1..] == [];
  }

  /**
   * Fair or not, and in either code: a stop that is not too late can always be brought to its end,
   * if need be by clients that go away.
   */
  lemma {:induction false} StopCanReturn(code: Code, w: World) returns (steps: seq<Action>, w': World)
    requires Inv(w) && Ending(w)
    ensures Run(code, w, steps, w') && Returned(w')
    decreases Phase(w), DebtOf(w.cons), Left(w)
  {
    hide Inv, Ending, Returned, Next, Act, Owner, Phase, DebtOf, Left, AsFar, Run;
    var a := Act(w);
    ActCan(code, w);
    var v := Next(code, w, a).value;
    OneStep(code, w, a, v);
    StepKeeps(code, w, a);
    EveryStepIsForward(code, w, a);
    LeftBound(w);
    LeftBound(v);
    if Returned(v) {
      steps, w' := [a], v;
    } else {
      var more;
      more, w' := StopCanReturn(code, v);
      RunOn(code, w, [a], v, more, w');
      steps := [a] + more;
    }
  }

  lemma {:induction false} StuckRun(code: Code, w: World, steps: seq<Action>, w': World)
    requires Stuck(w) && Run(code, w, steps, w')
    ensures Stuck(w')
    decreases |steps|
  {
    hide Next, Stuck;
    if steps != [] {
      StuckForever(code, w, steps[0]);
      StuckRun(code, Next(code, w, steps[0]).value, steps[1..], w');
    }
  }

  /** trfb_server_stop can return, in either code, exactly if its STOP came before the final store. */
  lemma StopReturnsExact(code: Code, steps: seq<Action>, w: World)
    requires Run(code, INITIAL, steps, w) && w.main.Polling? && w.word == SrvStop
    ensures InLoop(w.server) || InStop(w.server) <==>
            exists more: seq<Action>, w' {:trigger Run(code, w, more, w')} :: Run(code, w, more, w') && Returned(w')
  {
    hide Inv, Run;
    InitialInv();
    RunKeeps(code, INITIAL, steps, w);
    StuckOrEnding(w);
    if Ending(w) {
      var more, w' := StopCanReturn(code, w);
    } else {
      forall more: seq<Action>, w' | Run(code, w, more, w')
        ensures !Returned(w')
      {
        StuckRun(code, w, more, w');
      }
    }
  }

  // ---------------------------------------------------------------------------------------
  // How the source's mistakes are reached
  // ---------------------------------------------------------------------------------------

  lemma ThreeSteps(code: Code, u: World, a: Action, v: World, b: Action, w: World, c: Action, x: World)
    requires Next(code, u, a) == Some(v) && Next(code, v, b) == Some(w) && Next(code, w, c) == Some(x)
    ensures Run(code, u, [a, b, c], x)
  {
    OneStep(code, u, a, v);
    OneStep(code, v, b, w);
    OneStep(code, w, c, x);
    hide Run, Next;
    RunOn(code, v, [b], w, [c], x);
    RunOn(code, u, [a], v, [b] + [c], x);
    assert [a] + ([b] + [c]) == [a, b, c];
  }

  const NEW := Con(Working, Fresh, 0, 0)
  const BUSY := Con(Working, Running, 0, 0)

  /** A server that runs and has no client, one that has just linked in its first, and so on. */
  const UP := World([], [], [], SrvWorking, Top, Up)
  const ONE_NEW := World([NEW], [0], [], SrvWorking, Reap(0), Up)
  const ONE_BUSY := World([BUSY], [0], [], SrvWorking, Top, Up)
  const TWO_NEW := World([BUSY, NEW], [1, 0], [], SrvWorking, Reap(0), Up)
  const ONE_FAILED := World([Con(Error, Finished, 0, 0), BUSY], [1, 0], [], SrvWorking, Reap(0), Up)
  const TWO := World([Con(Error, Finished, 0, 0), BUSY], [1, 0], [], SrvWorking, Join(1), Up)

  lemma Launched(code: Code)
    ensures Run(code, INITIAL, [Launch, SrvBoot(true), LaunchOk], UP)
  {
    var w := World([], [], [], SrvStopped, Boot, Launching);
    ThreeSteps(code, INITIAL, Launch, w, SrvBoot(true), w.(word := SrvWorking, server := Top), LaunchOk, UP);
  }

  lemma ClientAccepted(code: Code)
    ensures Run(code, UP, [SrvTop, SrvAccept, SrvLink], ONE_NEW)
  {
    var w := ONE_NEW.(clients := [], server := Link(0));
    assert UP.cons + [NEW] == w.cons && [0] + w.clients == ONE_NEW.clients;
    ThreeSteps(code, UP, SrvTop, UP.(server := Select), SrvAccept, w, SrvLink, ONE_NEW);
  }

  lemma ClientStarted(code: Code)
    ensures Run(code, ONE_NEW, [ConStart(0), SrvReap, SrvReap], ONE_BUSY)
  {
    var w := ONE_NEW.(cons := [BUSY]);
    assert ONE_NEW.cons[0 := BUSY] == w.cons;
    ThreeSteps(code, ONE_NEW, ConStart(0), w, SrvReap, w.(server := Reap(1)), SrvReap, ONE_BUSY);
  }

  lemma OneBusyIsReached(code: Code) returns (steps: seq<Action>)
    ensures Run(code, INITIAL, steps, ONE_BUSY)
  {
    hide Run;
    Launched(code);
    ClientAccepted(code);
    ClientStarted(code);
    steps := [Launch, SrvBoot(true), LaunchOk];
    RunOn(code, INITIAL, steps, UP, [SrvTop, SrvAccept, SrvLink], ONE_NEW);
    steps := steps + [SrvTop, SrvAccept, SrvLink];
    RunOn(code, INITIAL, steps, ONE_NEW, [ConStart(0), SrvReap, SrvReap], ONE_BUSY);
    steps := steps + [ConStart(0), SrvReap, SrvReap];
  }

  lemma SecondAccepted(code: Code)
    ensures Run(code, ONE_BUSY, [SrvTop, SrvAccept, SrvLink], TWO_NEW)
  {
    var w := TWO_NEW.(clients := [0], server := Link(1));
    assert ONE_BUSY.cons + [NEW] == w.cons && [1] + w.clients == TWO_NEW.clients;
    ThreeSteps(code, ONE_BUSY, SrvTop, ONE_BUSY.(server := Select), SrvAccept, w, SrvLink, TWO_NEW);
  }

  lemma FirstFails(code: Code)
    ensures Run(code, TWO_NEW, [ConStart(1), ConFail(0), ConFinish(0)], ONE_FAILED)
  {
    var v := TWO_NEW.(cons := [BUSY, BUSY]);
    var w := TWO_NEW.(cons := [Con(Error, Leaving, 0, 0), BUSY]);
    assert TWO_NEW.cons[1 := BUSY] == v.cons && v.cons[0 := Con(Error, Leaving, 0, 0)] == w.cons;
    assert w.cons[0 := Con(Error, Finished, 0, 0)] == ONE_FAILED.cons;
    ThreeSteps(code, TWO_NEW, ConStart(1), v, ConFail(0), w, ConFinish(0), ONE_FAILED);
  }

  lemma ReaperArrives(code: Code)
    ensures Run(code, ONE_FAILED, [SrvReap, SrvReap], TWO)
  {
    var w := ONE_FAILED.(server := Reap(1));
    assert ONE_FAILED.clients[0] == 1 && ONE_FAILED.clients[1] == 0;
    OneStep(code, ONE_FAILED, SrvReap, w);
    OneStep(code, w, SrvReap, TWO);
    RunOn(code, ONE_FAILED, [SrvReap], w, [SrvReap], TWO);
  }

  lemma TwoIsReached(code: Code) returns (steps: seq<Action>)
    ensures Run(code, INITIAL, steps, TWO)
  {
    hide Run;
    steps := OneBusyIsReached(code);
    SecondAccepted(code);
    FirstFails(code);
    ReaperArrives(code);
    RunOn(code, INITIAL, steps, ONE_BUSY, [SrvTop, SrvAccept, SrvLink], TWO_NEW);
    steps := steps + [SrvTop, SrvAccept, SrvLink];
    RunOn(code, INITIAL, steps, TWO_NEW, [ConStart(1), ConFail(0), ConFinish(0)], ONE_FAILED);
    steps := steps + [ConStart(1), ConFail(0), ConFinish(0)];
    RunOn(code, INITIAL, steps, ONE_FAILED, [SrvReap, SrvReap], TWO);
    steps := steps + [SrvReap, SrvReap];
  }

  /** Unlinking the older of two connections makes the source lose the newer one, which still runs. */
  lemma ReaperCounterexample() returns (steps: seq<Action>)
    ensures Run(SOURCE, INITIAL, steps, TWO) && Next(SOURCE, TWO, SrvJoin) == Some(ONE_LOST)
    ensures !Lost(TWO, 1) && Lost(ONE_LOST, 1) && ONE_LOST.cons[1].pc == Running
  {
    hide Run, Next;
    OneIsLost();
    steps := TwoIsReached(SOURCE);
  }

  lemma OneIsLost()
    ensures Next(SOURCE, TWO, SrvJoin) == Some(ONE_LOST)
  {
    assert TWO.clients[1] == 0 && TWO.cons[0 := Reaped(TWO.cons[0])] == ONE_LOST.cons;
    assert TWO.clients[2..] == [];
  }

  const ONE_LOST := World([Con(Error, Finished, 1, 1), BUSY], [], [], SrvWorking, Reap(0), Up)
  const LOST_ASKED := ONE_LOST.(word := SrvStop, server := Top, main := Polling(true))
  const LOST_STOPPED := ONE_LOST.(word := SrvStop, server := Store(SrvStopped), main := Polling(true))
  const LOST_GONE := ONE_LOST.(word := SrvStopped, server := Off, main := Destroying)

  lemma LostAsked()
    ensures Run(SOURCE, ONE_LOST, [BeginDestroy, StoreStop, SrvReap], LOST_ASKED)
  {
    var w := ONE_LOST.(main := Stopping(true));
    ThreeSteps(SOURCE, ONE_LOST, BeginDestroy, w, StoreStop, w.(word := SrvStop, main := Polling(true)), SrvReap,
      LOST_ASKED);
  }

  lemma LostStopped()
    ensures Run(SOURCE, LOST_ASKED, [SrvTop, SrvTake, SrvMark], LOST_STOPPED)
  {
    var w := LOST_ASKED.(server := Take(SrvStopped));
    ThreeSteps(SOURCE, LOST_ASKED, SrvTop, w, SrvTake, w.(server := Mark(SrvStopped, 0)), SrvMark, LOST_STOPPED);
  }

  lemma LostGone()
    ensures Run(SOURCE, LOST_STOPPED, [SrvStore, PollDone, JoinServer], LOST_GONE)
  {
    var w := LOST_STOPPED.(word := SrvStopped, server := Exited);
    ThreeSteps(SOURCE, LOST_STOPPED, SrvStore, w, PollDone, w.(main := Joining(true)), JoinServer, LOST_GONE);
  }

  /** Then the server is destroyed: the framebuffer is about to be freed, and a thread still paints from it. */
  lemma UnsafeShutdownHappens() returns (steps: seq<Action>)
    ensures Run(SOURCE, INITIAL, steps, LOST_GONE) && Next(SOURCE, LOST_GONE, FreeScreen).Some?
    ensures LOST_GONE.cons[1].pc == Running && !AllSettled(LOST_GONE) && !AllAtHead(SOURCE, INITIAL, steps)
  {
    assert Next(SOURCE, LOST_GONE, FreeScreen).Some? && !Settled(LOST_GONE.cons[1]);
    hide Run, Next, AllAtHead;
    steps := ReaperCounterexample();
    LostAsked();
    LostStopped();
    LostGone();
    OneStep(SOURCE, TWO, SrvJoin, ONE_LOST);
    RunOn(SOURCE, INITIAL, steps, TWO, [SrvJoin], ONE_LOST);
    steps := steps + [SrvJoin];
    RunOn(SOURCE, INITIAL, steps, ONE_LOST, [BeginDestroy, StoreStop, SrvReap], LOST_ASKED);
    steps := steps + [BeginDestroy, StoreStop, SrvReap];
    RunOn(SOURCE, INITIAL, steps, LOST_ASKED, [SrvTop, SrvTake, SrvMark], LOST_STOPPED);
    steps := steps + [SrvTop, SrvTake, SrvMark];
    RunOn(SOURCE, INITIAL, steps, LOST_STOPPED, [SrvStore, PollDone, JoinServer], LOST_GONE);
    steps := steps + [SrvStore, PollDone, JoinServer];
    ShutdownIsSafeExact(SOURCE, steps, LOST_GONE);
  }

  /** A server with a client can be launched, stopped and joined: safe shutdowns do happen. */
  lemma ShutdownHappens() returns (steps: seq<Action>, w: World)
    ensures Run(INTENDED, INITIAL, steps, w) && Returned(w) && AllSettled(w)
  {
    var asked := World([BUSY], [0], [], SrvStop, Top, Polling(false));
    var asking := ONE_BUSY.(main := Stopping(false));
    OneStep(INTENDED, ONE_BUSY, BeginStop, asking);
    OneStep(INTENDED, asking, StoreStop, asked);
    assert Ending(asked);
    hide Run, Next, Inv, Returned, AllSettled, AllAtHead;
    steps := OneBusyIsReached(INTENDED);
    RunOn(INTENDED, INITIAL, steps, ONE_BUSY, [BeginStop], asking);
    steps := steps + [BeginStop];
    RunOn(INTENDED, INITIAL, steps, asking, [StoreStop], asked);
    steps := steps + [StoreStop];
    InitialInv();
    RunKeeps(INTENDED, INITIAL, steps, asked);
    var more;
    more, w := StopCanReturn(INTENDED, asked);
    RunOn(INTENDED, INITIAL, steps, asked, more, w);
    steps := steps + more;
    ReturnedIsOff(w);
    AdvancingIsSafe(INTENDED, steps, w);
  }

  lemma ReturnedIsOff(w: World)
    requires Returned(w)
    ensures w.server == Off
  {
  }

  // The late store.

  const ASKED_EARLY := ONE_NEW.(word := SrvStop, server := Reap(1), main := Polling(false))
  const UNMARKED := ASKED_EARLY.(clients := [], detached := [0], server := Mark(SrvStopped, 0))
  const BACK_AT_WORK := UNMARKED.(cons := [BUSY], server := Count(SrvStopped, 0, 0))
  const STARVED := BACK_AT_WORK.(server := JoinAll(SrvStopped, 0))

  lemma AskedEarly()
    ensures Run(SOURCE, ONE_NEW, [BeginStop, StoreStop, SrvReap], ASKED_EARLY)
  {
    var w := ONE_NEW.(main := Stopping(false));
    ThreeSteps(SOURCE, ONE_NEW, BeginStop, w, StoreStop, w.(word := SrvStop, main := Polling(false)), SrvReap,
      ASKED_EARLY);
  }

  lemma Detached()
    ensures Run(SOURCE, ASKED_EARLY, [SrvReap, SrvTop, SrvTake], UNMARKED)
  {
    var w := ASKED_EARLY.(server := Top);
    ThreeSteps(SOURCE, ASKED_EARLY, SrvReap, w, SrvTop, w.(server := Take(SrvStopped)), SrvTake, UNMARKED);
  }

  lemma MarkTakenBack()
    ensures Run(SOURCE, UNMARKED, [SrvMark, SrvMark, ConStart(0)], BACK_AT_WORK)
  {
    var w := UNMARKED.(cons := [Con(Stop, Fresh, 0, 0)], server := Mark(SrvStopped, 1));
    assert UNMARKED.cons[0 := Con(Stop, Fresh, 0, 0)] == w.cons && w.cons[0 := BUSY] == BACK_AT_WORK.cons;
    ThreeSteps(SOURCE, UNMARKED, SrvMark, w, SrvMark, w.(server := Count(SrvStopped, 0, 0)), ConStart(0), BACK_AT_WORK);
  }

  lemma Starved()
    ensures Run(SOURCE, BACK_AT_WORK, [SrvCount, SrvCount], STARVED)
  {
    var w := BACK_AT_WORK.(server := Count(SrvStopped, 1, 0));
    OneStep(SOURCE, BACK_AT_WORK, SrvCount, w);
    OneStep(SOURCE, w, SrvCount, STARVED);
    RunOn(SOURCE, BACK_AT_WORK, [SrvCount], w, [SrvCount], STARVED);
  }

  /**
   * A connection marked before its first store goes back to work, and the server thread waits for
   * it to end.
   */
  lemma LateStoreCounterexample() returns (steps: seq<Action>)
    ensures Run(SOURCE, INITIAL, steps, STARVED)
    ensures Ending(STARVED) && STARVED.cons[0] == BUSY && STARVED.detached == [0]
  {
    hide Run;
    Launched(SOURCE);
    ClientAccepted(SOURCE);
    AskedEarly();
    Detached();
    MarkTakenBack();
    Starved();
    steps := [Launch, SrvBoot(true), LaunchOk];
    RunOn(SOURCE, INITIAL, steps, UP, [SrvTop, SrvAccept, SrvLink], ONE_NEW);
    steps := steps + [SrvTop, SrvAccept, SrvLink];
    RunOn(SOURCE, INITIAL, steps, ONE_NEW, [BeginStop, StoreStop, SrvReap], ASKED_EARLY);
    steps := steps + [BeginStop, StoreStop, SrvReap];
    RunOn(SOURCE, INITIAL, steps, ASKED_EARLY, [SrvReap, SrvTop, SrvTake], UNMARKED);
    steps := steps + [SrvReap, SrvTop, SrvTake];
    RunOn(SOURCE, INITIAL, steps, UNMARKED, [SrvMark, SrvMark, ConStart(0)], BACK_AT_WORK);
    steps := steps + [SrvMark, SrvMark, ConStart(0)];
    RunOn(SOURCE, INITIAL, steps, BACK_AT_WORK, [SrvCount, SrvCount], STARVED);
    steps := steps + [SrvCount, SrvCount];
  }

  /** The worlds of a run, the last one for ever. */
  function WorldAt(code: Code, w: World, steps: seq<Action>, n: nat): World
    decreases n
  {
    if n == 0 || steps == [] || Next(code, w, steps[0]).None? then w
    else WorldAt(code, Next(code, w, steps[0]).value, steps[1..], n - 1)
  }

  function StepAt(steps: seq<Action>, n: nat): Option<Action> {
    if n < |steps| then Some(steps[n]) else None
  }

  lemma {:induction false} RunIsLife(code: Code, w: World, steps: seq<Action>, w': World, n: nat)
    requires Run(code, w, steps, w')
    ensures Happens(code, WorldAt(code, w, steps, n), StepAt(steps, n), WorldAt(code, w, steps, n + 1))
    ensures n >= |steps| ==> WorldAt(code, w, steps, n) == w'
    decreases |steps|
  {
    hide Next;
    if steps != [] {
      var v := Next(code, w, steps[0]).value;
      if n > 0 {
        RunIsLife(code, v, steps[1..], w', n - 1);
      } else {
        assert WorldAt(code, v, steps[1..], 0) == v;
        if |steps| == 1 {
          RunIsLife(code, v, steps[1..], w', 0);
        }
      }
    }
  }

  /** No thread owes anything: the server waits for a connection that waits for its client. */
  lemma NothingDue(t: Thread)
    ensures !Due(SOURCE, STARVED, t)
  {
    forall a: Action | Obliged(a)
      ensures Next(SOURCE, STARVED, a).None?
    {
    }
  }

  /** A run after which no thread owes anything can last for ever, and is fair. */
  lemma RestingLife(code: Code, steps: seq<Action>, w: World) returns (l: Life)
    requires Run(code, INITIAL, steps, w) && forall t: Thread :: !Due(code, w, t)
    ensures IsLife(code, l) && WeaklyFair(code, l)
    ensures forall n: nat | |steps| <= n :: l.worlds(n) == w
    ensures forall n: nat :: l.worlds(n) == WorldAt(code, INITIAL, steps, n)
  {
    hide Run, Next, Due;
    l := Life((n: nat) => WorldAt(code, INITIAL, steps, n), (n: nat) => StepAt(steps, n));
    forall n: nat
      ensures Happens(code, l.worlds(n), l.steps(n), l.worlds(n + 1))
      ensures |steps| <= n ==> l.worlds(n) == w
    {
      RunIsLife(code, INITIAL, steps, w, n);
    }
    forall t: Thread, n: nat
      ensures ServedFrom(code, l, t, n)
    {
      var m := if n < |steps| then |steps| else n;
      assert Served(code, l, t, m);
    }
  }

  /**
   * With the late store, fairness is not enough: an endless run of the source, fair to every
   * thread, in which STOP comes in time and trfb_server_stop never returns.
   */
  lemma LateStoreStarves() returns (l: Life, n: nat)
    ensures IsLife(SOURCE, l) && WeaklyFair(SOURCE, l)
    ensures forall m: nat | n <= m :: l.worlds(m) == STARVED
    ensures Ending(STARVED) && !Returned(STARVED)
  {
    hide Run, Due;
    var steps := LateStoreCounterexample();
    n := |steps|;
    forall t: Thread
      ensures !Due(SOURCE, STARVED, t)
    {
      NothingDue(t);
    }
    l := RestingLife(SOURCE, steps, STARVED);
  }

  const UP_ASKED := UP.(word := SrvStop, main := Polling(false))
  const UP_STOPPED := UP_ASKED.(server := Store(SrvStopped))

  lemma UnusedAsked()
    ensures Run(INTENDED, UP, [BeginStop, StoreStop], UP_ASKED)
  {
    var w := UP.(main := Stopping(false));
    OneStep(INTENDED, UP, BeginStop, w);
    OneStep(INTENDED, w, StoreStop, UP_ASKED);
    RunOn(INTENDED, UP, [BeginStop], w, [StoreStop], UP_ASKED);
  }

  lemma UnusedStopped()
    ensures Run(INTENDED, UP_ASKED, [SrvTop, SrvTake, SrvMark], UP_STOPPED)
  {
    var w := UP_ASKED.(server := Take(SrvStopped));
    ThreeSteps(INTENDED, UP_ASKED, SrvTop, w, SrvTake, w.(server := Mark(SrvStopped, 0)), SrvMark, UP_STOPPED);
  }

  lemma UnusedReturned()
    ensures Run(INTENDED, UP_STOPPED, [SrvStore, PollDone, JoinServer], INITIAL)
  {
    var w := UP_STOPPED.(word := SrvStopped, server := Exited);
    ThreeSteps(INTENDED, UP_STOPPED, SrvStore, w, PollDone, w.(main := Joining(false)), JoinServer, INITIAL);
  }

  lemma NothingDueAtRest(code: Code, t: Thread)
    ensures !Due(code, INITIAL, t)
  {
    forall a: Action | Obliged(a)
      ensures Next(code, INITIAL, a).None?
    {
    }
  }

  lemma {:induction false} AlongTheWay(code: Code, u: World, steps: seq<Action>, v: World, more: seq<Action>)
    requires Run(code, u, steps, v)
    ensures WorldAt(code, u, steps + more, |steps|) == v
    decreases |steps|
  {
    hide Next;
    if steps != [] {
      AlongTheWay(code, Next(code, u, steps[0]).value, steps[1..], v, more);
      assert (steps + more)[1..] == steps[1..] + more;
    }
  }

  /** Fair and timely endless runs with a stop in them exist. */
  lemma FairStopsHappen() returns (l: Life, n: nat)
    ensures IsLife(INTENDED, l) && WeaklyFair(INTENDED, l) && TimelyLife(INTENDED, l)
    ensures Ending(l.worlds(n))
  {
    hide Run, Due, Next;
    Launched(INTENDED);
    UnusedAsked();
    UnusedStopped();
    UnusedReturned();
    RunOn(INTENDED, UP_ASKED, [SrvTop, SrvTake, SrvMark], UP_STOPPED, [SrvStore, PollDone, JoinServer], INITIAL);
    var ask, end := [BeginStop, StoreStop], [SrvTop, SrvTake, SrvMark] + [SrvStore, PollDone, JoinServer];
    var steps := [Launch, SrvBoot(true), LaunchOk];
    RunOn(INTENDED, INITIAL, steps, UP, ask, UP_ASKED);
    steps := steps + ask;
    n := |steps|;
    RunOn(INTENDED, INITIAL, steps, UP_ASKED, end, INITIAL);
    forall t: Thread
      ensures !Due(INTENDED, INITIAL, t)
    {
      NothingDueAtRest(INTENDED, t);
    }
    l := RestingLife(INTENDED, steps + end, INITIAL);
    AlongTheWay(INTENDED, INITIAL, steps, UP_ASKED, end);
  }
}
