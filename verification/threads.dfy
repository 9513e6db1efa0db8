/** What each thread may do and when it waits, and what the words it stores mean (src/server.c, src/connection.c). */
module Threads {
  import opened Words
  import opened Lifecycle
  import opened Shutdown

  // ---------------------------------------------------------------------------------------
  // What the words mean
  // ---------------------------------------------------------------------------------------

  /**
   * A connection's word changes in four ways only: marked by the server when it finds it at work,
   * STOPPED by its own thread when that finds the mark, ERROR by its own thread, and, in code with
   * the late store, back to WORKING by its thread's first store.
   */
  predicate WordMove(code: Code, w: World, a: Action, i: nat, before: Con, after: Con) {
    || after.word == before.word
    || (before.word == Working && after.word == Stop && a == SrvMark && i in w.detached)
    || (before.word == Stop && after.word == Stopped && a == ConCheck(i) && before.pc == Running)
    || (after.word == Error && a == ConFail(i) && before.pc == Running)
    || (before.word == Stop && after.word == Working && a == ConStart(i) && code.lateStore)
  }

  lemma ConnectionWords(code: Code, w: World, a: Action, i: nat)
    requires Inv(w) && Next(code, w, a).Some? && i < |w.cons|
    ensures var w' := Next(code, w, a).value;
            && i < |w'.cons| && WordMove(code, w, a, i, w.cons[i], w'.cons[i])
            && (a == ConCheck(i) ==> w'.cons[i].word == Stopped)
            && (a == ConFail(i) ==> w'.cons[i].word == Error)
  {
    hide Inv, WordMove, Next, MainNext, LoopNext, StopNext, ConStep;
    NextIs(code, w, a);
    if OfCon(a) {
      ClientStores(code, w, a, i);
    } else if MainNext(w, a).Some? {
      MainStores(code, w, a, i);
    } else if LoopNext(code, w, a).Some? {
      LoopStores(code, w, a, i);
    } else {
      StopStores(code, w, a, i);
    }
  }

  lemma ClientStores(code: Code, w: World, a: Action, i: nat)
    requires Inv(w) && OfCon(a) && ConStep(code, w, a).Some? && i < |w.cons|
    ensures var w' := ConStep(code, w, a).value;
            && i < |w'.cons| && WordMove(code, w, a, i, w.cons[i], w'.cons[i])
            && (a == ConCheck(i) ==> w'.cons[i].word == Stopped)
            && (a == ConFail(i) ==> w'.cons[i].word == Error)
  {
    hide ListsInv, WordsInv;
    assert ConInv(w, i);
  }

  lemma MainStores(code: Code, w: World, a: Action, i: nat)
    requires MainNext(w, a).Some? && i < |w.cons|
    ensures var w' := MainNext(w, a).value;
            i < |w'.cons| && WordMove(code, w, a, i, w.cons[i], w'.cons[i])
  {
  }

  lemma LoopStores(code: Code, w: World, a: Action, i: nat)
    requires LoopNext(code, w, a).Some? && i < |w.cons|
    ensures var w' := LoopNext(code, w, a).value;
            i < |w'.cons| && WordMove(code, w, a, i, w.cons[i], w'.cons[i])
  {
  }

  lemma StopStores(code: Code, w: World, a: Action, i: nat)
    requires StopNext(w, a).Some? && i < |w.cons|
    ensures var w' := StopNext(w, a).value;
            i < |w'.cons| && WordMove(code, w, a, i, w.cons[i], w'.cons[i])
  {
  }

  /**
   * The server thread leaves its loop for good with STOPPED if it has found STOP at the top, else
   * with ERROR, and that is the word it stores last. The application's STOP and the first store
   * apart, there are no others, and a launch has succeeded exactly if the server was seen at work.
   */
  predicate WordsMeant(w: World, a: Action, w': World) {
    && (!InStop(w.server) && InStop(w'.server) ==>
          w'.server == Take(if w.server == Top && w.word == SrvStop then SrvStopped else SrvError))
    && (InStop(w.server) && InStop(w'.server) ==> w'.server.final == w.server.final)
    && (InStop(w.server) && !InStop(w'.server) ==> w'.server == Exited && w'.word == w.server.final)
    && (w'.word == w.word
        || (w.server == Boot && w'.word == SrvWorking)
        || (a == StoreStop && w.main.Stopping? && w'.word == SrvStop)
        || (InStop(w.server) && w'.server == Exited))
    && (w'.server == Exited && w.server != Exited ==> InStop(w.server))
    && (w.main == Launching && w'.main != Launching ==> w'.main == if w.word == SrvWorking then Up else Idle)
  }

  lemma WordsAreMeant(code: Code, w: World, a: Action)
    requires Inv(w) && Next(code, w, a).Some?
    ensures WordsMeant(w, a, Next(code, w, a).value)
  {
    hide Inv, Next, MainNext, LoopNext, StopNext, ConStep, WordsMeant;
    NextIs(code, w, a);
    if OfCon(a) {
      ClientLeavesThem(code, w, a);
    } else if MainNext(w, a).Some? {
      MainMeans(w, a);
    } else if LoopNext(code, w, a).Some? {
      LoopMeans(code, w, a);
    } else {
      StopMeans(w, a);
    }
  }

  lemma ClientLeavesThem(code: Code, w: World, a: Action)
    requires OfCon(a) && ConStep(code, w, a).Some?
    ensures WordsMeant(w, a, ConStep(code, w, a).value)
  {
  }

  lemma MainMeans(w: World, a: Action)
    requires Inv(w) && MainNext(w, a).Some?
    ensures WordsMeant(w, a, MainNext(w, a).value)
  {
    hide ListsInv, ConInv;
  }

  lemma LoopMeans(code: Code, w: World, a: Action)
    requires LoopNext(code, w, a).Some?
    ensures WordsMeant(w, a, LoopNext(code, w, a).value)
  {
  }

  lemma StopMeans(w: World, a: Action)
    requires StopNext(w, a).Some?
    ensures WordsMeant(w, a, StopNext(w, a).value)
  {
  }

  /** STOP has been stored so far in the run, if the words say that it has. */
  predicate AskedIf(w: World, asked: bool) {
    w.word == SrvStop || (w.server == Exited && w.word == SrvStopped) ==> asked
  }

  lemma AskedStep(code: Code, w: World, a: Action, asked: bool)
    requires Inv(w) && Next(code, w, a).Some? && AskedIf(w, asked)
    ensures AskedIf(Next(code, w, a).value, asked || a == StoreStop)
  {
    hide Next, ListsInv, ConInv;
    WordsAreMeant(code, w, a);
  }

  lemma {:induction false} AskedRun(code: Code, w: World, steps: seq<Action>, w': World, asked: bool)
    requires Inv(w) && Run(code, w, steps, w') && AskedIf(w, asked)
    ensures AskedIf(w', asked || StoreStop in steps)
    decreases |steps|
  {
    hide Inv, Next, AskedIf;
    if steps != [] {
      AskedStep(code, w, steps[0], asked);
      StepKeeps(code, w, steps[0]);
      AskedRun(code, Next(code, w, steps[0]).value, steps[1..], w', asked || steps[0] == StoreStop);
      assert steps == [steps[0]] + steps[1..];
    }
  }

  /** A server thread that has ended with STOPPED was asked to stop. */
  lemma StoppedWasAsked(code: Code, steps: seq<Action>, w: World)
    requires Run(code, INITIAL, steps, w) && w.server == Exited && w.word == SrvStopped
    ensures StoreStop in steps
  {
    hide Run, Inv;
    InitialInv();
    AskedRun(code, INITIAL, steps, w, false);
  }

  /** A turn of the server thread's loop, step by step. */
  predicate TurnGoesOn(w: World, w': World)
    requires ListsInv(w)
  {
    w'.server == w.server || InStop(w'.server) ||
    match w.server
    case Top => w'.server == Select
    case Select => w'.server == Reap(0) || w'.server == Link(|w.cons|)
    case Link(id) => w'.server == Reap(0) && w'.clients == [id] + w.clients
    case Reap(k) =>
      if k == |w.clients| then w'.server == Top
      else w'.server == if Ends(w.cons[w.clients[k]].word) then Join(k) else Reap(k + 1)
    case _ => w'.server.Reap?
  }

  /**
   * In every turn of its loop the server thread looks at all its clients: it comes back to the top
   * only past the last of them, and it stays to join one exactly if that one has ended.
   */
  lemma EveryTurnReaps(code: Code, w: World, a: Action)
    requires Inv(w) && Next(code, w, a).Some? && InLoop(w.server)
    ensures TurnGoesOn(w, Next(code, w, a).value)
  {
    hide Inv, ListsInv, Next, MainNext, LoopNext, StopNext, ConStep, TurnGoesOn;
    NextIs(code, w, a);
    if OfCon(a) || MainNext(w, a).Some? {
      OthersLeaveIt(code, w, a);
    } else if LoopNext(code, w, a).Some? {
      TurnSteps(code, w, a);
    } else {
      NoStopInLoop(w, a);
    }
  }

  lemma OthersLeaveIt(code: Code, w: World, a: Action)
    requires Inv(w) && InLoop(w.server) && (if OfCon(a) then ConStep(code, w, a).Some? else MainNext(w, a).Some?)
    ensures TurnGoesOn(w, (if OfCon(a) then ConStep(code, w, a) else MainNext(w, a)).value)
  {
    hide ConInv;
  }

  lemma NoStopInLoop(w: World, a: Action)
    requires InLoop(w.server)
    ensures StopNext(w, a).None?
  {
  }

  lemma TurnSteps(code: Code, w: World, a: Action)
    requires Inv(w) && InLoop(w.server) && LoopNext(code, w, a).Some?
    ensures TurnGoesOn(w, LoopNext(code, w, a).value)
  {
    hide WordsInv;
    if w.server.Reap? && w.server.k < |w.clients| {
      assert ConInv(w, w.clients[w.server.k]);
    }
  }

  // ---------------------------------------------------------------------------------------
  // Who can step
  // ---------------------------------------------------------------------------------------

  ghost predicate CanStep(code: Code, w: World, t: Thread) {
    exists a: Action {:trigger Next(code, w, a)} :: Owner(a) == t && Next(code, w, a).Some?
  }

  /** The server thread is joining a connection thread that has not finished. */
  predicate AwaitsClient(w: World) {
    match w.server
    case Join(k) => k < |w.clients| && w.clients[k] < |w.cons| && w.cons[w.clients[k]].pc != Finished
    case JoinAll(_, k) => k < |w.detached| && w.detached[k] < |w.cons| && w.cons[w.detached[k]].pc != Finished
    case _ => false
  }

  /** A thread that has not ended waits in these places only. */
  predicate MayStep(w: World, t: Thread) {
    match t
    case Client(id) => id < |w.cons| && w.cons[id].pc != Finished
    case Server => w.server != Off && w.server != Exited && !AwaitsClient(w)
    case App =>
      match w.main
      case Gone => false
      case Launching => w.word != SrvStopped
      case Polling(_) => w.word != SrvStop
      case Joining(_) => w.server == Exited
      case _ => true
  }

  /** An action that a thread can take, if it can take one. */
  function Choice(w: World, t: Thread): Action {
    match t
    case Client(id) =>
      if id < |w.cons| && w.cons[id].pc == Fresh then ConStart(id)
      else if id < |w.cons| && w.cons[id].pc == Running then ConFail(id) else ConFinish(id)
    case Server =>
      (match w.server
       case Boot => SrvBoot(true)
       case Top => SrvTop
       case Select => SrvNoClient
       case Link(_) => SrvLink
       case Reap(_) => SrvReap
       case Join(_) => SrvJoin
       case Take(_) => SrvTake
       case Mark(_, _) => SrvMark
       case Count(_, _, _) => SrvCount
       case JoinAll(_, _) => SrvJoinAll
       case FreeAll(_) => SrvFreeAll
       case _ => SrvStore)
    case App =>
      match w.main
      case Idle => BeginStop
      case Up => BeginStop
      case Launching => if w.word == SrvWorking then LaunchOk else LaunchFailed
      case Stopping(_) => StoreStop
      case Polling(_) => PollDone
      case Joining(_) => JoinServer
      case _ => FreeScreen
  }

  lemma CanStepExact(code: Code, w: World, t: Thread)
    requires Inv(w)
    ensures CanStep(code, w, t) <==> MayStep(w, t)
  {
    hide Next, MayStep, Inv;
    if MayStep(w, t) {
      Chooses(code, w, t);
    }
    if CanStep(code, w, t) {
      var a: Action :| Owner(a) == t && Next(code, w, a).Some?;
      OnlyThen(code, w, t, a);
    }
  }

  lemma Chooses(code: Code, w: World, t: Thread)
    requires Inv(w) && MayStep(w, t)
    ensures Owner(Choice(w, t)) == t && Next(code, w, Choice(w, t)).Some?
  {
    hide WordsInv, ConInv;
  }

  lemma OnlyThen(code: Code, w: World, t: Thread, a: Action)
    requires Inv(w) && Owner(a) == t && Next(code, w, a).Some?
    ensures MayStep(w, t)
  {
    hide WordsInv, ConInv;
  }

  /**
   * No thread can step exactly if all have come to their ends, but for an application that polls
   * for the answer to a STOP that came after the server thread's final store.
   */
  lemma DeadlockExact(code: Code, w: World)
    requires Inv(w)
    ensures (forall t: Thread :: !CanStep(code, w, t)) <==>
            && (forall i: nat | i < |w.cons| :: w.cons[i].pc == Finished)
            && (w.server == Off || w.server == Exited) && (w.main == Gone || Stuck(w))
  {
    hide Next, Inv, CanStep, MayStep;
    forall t: Thread
      ensures CanStep(code, w, t) <==> MayStep(w, t)
    {
      CanStepExact(code, w, t);
    }
    NobodyMay(w);
  }

  lemma NobodyMay(w: World)
    requires Inv(w)
    ensures (forall t: Thread :: !MayStep(w, t)) <==>
            && (forall i: nat | i < |w.cons| :: w.cons[i].pc == Finished)
            && (w.server == Off || w.server == Exited) && (w.main == Gone || Stuck(w))
  {
    hide ListsInv, ConInv;
    if forall t: Thread :: !MayStep(w, t) {
      forall i: nat | i < |w.cons|
        ensures w.cons[i].pc == Finished
      {
        assert !MayStep(w, Client(i));
      }
      assert !MayStep(w, Server) && !MayStep(w, App);
    }
  }

  /** What is left to the outside: clients come, stay away or fail, devices fail, and the application decides. */
  lemma OutsideMayAlways(code: Code, w: World)
    ensures w.server == Boot ==> Next(code, w, SrvBoot(true)).Some? && Next(code, w, SrvBoot(false)).Some?
    ensures w.server == Boot ==> InStop(Next(code, w, SrvBoot(false)).value.server)
    ensures w.server == Select ==>
              && Next(code, w, SrvNoClient).Some? && Next(code, w, SrvAccept).Some?
              && Next(code, w, SrvSelectFails).Some? && InStop(Next(code, w, SrvSelectFails).value.server)
    ensures forall i: nat | i < |w.cons| && w.cons[i].pc == Running :: Next(code, w, ConFail(i)).Some?
    ensures w.main == Idle || w.main == Up ==> Next(code, w, BeginStop).Some? && Next(code, w, BeginDestroy).Some?
  {
  }

  /** Destroying frees the framebuffer at once exactly if the server is not at work; otherwise it is stopped first. */
  lemma DestroyStopsExact(code: Code, w: World)
    requires Next(code, w, BeginDestroy).Some?
    ensures var w' := Next(code, w, BeginDestroy).value;
            && (Next(code, w', FreeScreen).Some? <==> w.word != SrvWorking)
            && (Next(code, w', StoreStop).Some? <==> w.word == SrvWorking)
  {
  }
}
