/** The wake-up protocol of the reconcile loops: informer handlers, a trigger channel of capacity one, a
    ticker and a loop that reads its sources one after another, as interleaved steps. */
module WakeUp {
  datatype Source = Nodes | TrustedRanges | PendingPeers | Pods | Namespace(name: string)

  /** The listers that one pass of the peer loop reads. */
  const PEER_SOURCES: set<Source> := {Nodes, TrustedRanges, PendingPeers}

  /** Where the loop goroutine is. Idle says whether the last pass ended without an error. */
  datatype Loop = Starting | Idle(ok: bool) | Reading | Crashed

  /** latest counts the changes of each cached source, inflight holds the notifications whose handler has
      not run yet, and used has the version that the current or last pass first read of each source. */
  datatype State = State(latest: map<Source, nat>, inflight: multiset<Source>, trigger: bool, tick: bool, loop: Loop,
                         used: map<Source, nat>)

  datatype Step =
    | Update(source: Source)
    | Handle(source: Source)
    | Timer
    | Begin
    | TakeTrigger
    | TakeTick
    | Read(source: Source)
    | Finish
    | Fail
    | Crash
    | Restart

  function Version(st: State, s: Source): nat { if s in st.latest then st.latest[s] else 0 }

  /** kick: a non-blocking send into a channel of capacity one. */
  function Kick(st: State): State { st.(trigger := true) }

  /** Before run is called: any cache contents, no pass yet. */
  predicate Initial(st: State) { st.loop == Starting && !st.trigger && !st.tick && st.used == map[] }

  /** A pass may read in any order and may read a source again; it succeeds only after reading them all. */
  predicate Enabled(sources: set<Source>, st: State, step: Step) {
    match step
    case Update(_) => true
    case Handle(s) => s in st.inflight
    case Timer => !st.loop.Starting? && !st.loop.Crashed?
    case Begin => st.loop.Starting?
    case TakeTrigger => st.loop.Idle? && st.trigger
    case TakeTick => st.loop.Idle? && st.tick
    case Read(_) => st.loop.Reading?
    case Finish => st.loop.Reading? && sources <= st.used.Keys
    case Fail => st.loop.Reading?
    case Crash => !st.loop.Crashed?
    case Restart => st.loop.Crashed?
  }

  function Next(st: State, step: Step): State {
    match step
    case Update(s) => st.(latest := st.latest[s := Version(st, s) + 1], inflight := st.inflight + multiset{s})
    case Handle(s) => Kick(st.(inflight := st.inflight - multiset{s}))
    case Timer => st.(tick := true)
    case Begin => Kick(st.(loop := Idle(true), tick := false))
    case TakeTrigger => st.(trigger := false, loop := Reading, used := map[])
    case TakeTick => st.(tick := false, loop := Reading, used := map[])
    case Read(s) => if s in st.used then st else st.(used := st.used[s := Version(st, s)])
    case Finish => st.(loop := Idle(true))
    case Fail => st.(loop := Idle(false))
    case Crash => st.(loop := Crashed)
    case Restart => st.(loop := Starting, tick := false)
  }

  /** Every read of s in the current or last pass saw what is now its latest version. */
  predicate Fresh(st: State, s: Source) { s in st.used && st.used[s] == Version(st, s) }

  /** Some wake-up is still to come. */
  predicate Woken(st: State, s: Source) { st.trigger || s in st.inflight }

  /** What every step keeps, failing passes, crashes and restarts included: no read is stale without a
      wake-up to come, and an idle loop without one has read everything unless its last pass failed. */
  ghost predicate Inv(sources: set<Source>, st: State) {
    && (forall s :: s in st.used ==> st.used[s] <= Version(st, s))
    && (forall s :: s in st.used ==> Fresh(st, s) || Woken(st, s))
    && (st.loop == Idle(true) ==> st.trigger || sources <= st.used.Keys)
  }

  lemma UpdateKeepsInv(sources: set<Source>, st: State, source: Source)
    requires Inv(sources, st)
    ensures Inv(sources, Next(st, Update(source)))
  {
    var st' := Next(st, Update(source));
    assert source in st'.inflight;
    forall s | s != source
      ensures Version(st', s) == Version(st, s) && (s in st'.inflight <==> s in st.inflight)
    {
    }
  }

  lemma ReadKeepsInv(sources: set<Source>, st: State, source: Source)
    requires Inv(sources, st)
    ensures Inv(sources, Next(st, Read(source)))
  {
  }

  lemma InvStep(sources: set<Source>, st: State, step: Step)
    requires Inv(sources, st) && Enabled(sources, st, step)
    ensures Inv(sources, Next(st, step))
  {
    match step {
      case Update(s) => hide Inv, Next; UpdateKeepsInv(sources, st, s);
      case Read(s) => hide Inv, Next; ReadKeepsInv(sources, st, s);
      case Handle(_) =>
      case Timer =>
      case Begin =>
      case TakeTrigger =>
      case TakeTick =>
      case Finish =>
      case Fail =>
      case Crash =>
      case Restart =>
    }
  }

  /** A run from the initial state. */
  ghost predicate Run(sources: set<Source>, st0: State, steps: seq<Step>)
    decreases |steps|
  {
    steps == [] || (Enabled(sources, st0, steps[0]) && Run(sources, Next(st0, steps[0]), steps[1..]))
  }

  ghost function After(st0: State, steps: seq<Step>): State
    decreases |steps|
  {
    if steps == [] then st0 else After(Next(st0, steps[0]), steps[1..])
  }

  lemma {:induction false} RunKeepsInv(sources: set<Source>, st0: State, steps: seq<Step>)
    requires Inv(sources, st0) && Run(sources, st0, steps)
    ensures Inv(sources, After(st0, steps))
    decreases |steps|
  {
    hide Inv;
    if steps != [] {
      InvStep(sources, st0, steps[0]);
      RunKeepsInv(sources, Next(st0, steps[0]), steps[1..]);
    }
  }

  /** Idle, with an empty trigger and no handler in flight. */
  predicate Quiet(st: State) { st.loop.Idle? && !st.trigger && st.inflight == multiset{} }

  /** No lost wake-up: after any interleaving, every read of a quiet loop's last pass saw the latest version,
      whether that pass succeeded or not. */
  lemma NoLostWakeUp(sources: set<Source>, st0: State, steps: seq<Step>)
    requires Initial(st0) && Run(sources, st0, steps)
    ensures var st := After(st0, steps);
      Quiet(st) ==> forall s :: s in st.used ==> Fresh(st, s)
  {
    hide Run, After;
    RunKeepsInv(sources, st0, steps);
  }

  /** So a quiet loop is up to date with every source exactly when its last pass got to read them all, which
      a pass that succeeded did, and one that failed at the kernel write as well. */
  lemma UpToDateExactly(sources: set<Source>, st0: State, steps: seq<Step>)
    requires Initial(st0) && Run(sources, st0, steps)
    ensures var st := After(st0, steps);
      Quiet(st) ==>
        ((forall s :: s in sources ==> Fresh(st, s)) <==> sources <= st.used.Keys) &&
        (st.loop.ok ==> sources <= st.used.Keys)
  {
    hide Run, After;
    RunKeepsInv(sources, st0, steps);
  }

  // ---- progress --------------------------------------------------------------

  /** A step the program takes by itself, in a pass that goes well and reads no source twice. */
  predicate Working(sources: set<Source>, st: State, step: Step) {
    match step
    case Handle(_) => true
    case Begin => true
    case TakeTrigger => true
    case TakeTick => true
    case Read(s) => s in sources && s !in st.used
    case Finish => true
    case Restart => true
    case _ => false
  }

  /** The working steps that n waiting handlers can cause: each runs, kicks and may start a pass. */
  function HandlerWork(n: nat, pass: nat): nat { n * (pass + 1) }

  function LoopWork(sources: set<Source>, loop: Loop, read: set<Source>): nat {
    match loop
    case Starting => |sources| + 3
    case Reading => |sources - read| + 1
    case Idle(_) => 0
    case Crashed => |sources| + 4
  }

  /** The number of working steps that can be left. */
  function Left(sources: set<Source>, st: State): nat {
    var pass := |sources| + 2;
    (if st.trigger then pass else 0) + (if st.tick then pass else 0)
    + HandlerWork(|st.inflight|, pass) + LoopWork(sources, st.loop, st.used.Keys)
  }

  lemma OneHandler(n: nat, pass: nat)
    requires n > 0
    ensures HandlerWork(n, pass) == HandlerWork(n - 1, pass) + pass + 1
  {
  }

  lemma OneFewer(m: multiset<Source>, s: Source)
    requires s in m
    ensures |m| > 0 && |m - multiset{s}| == |m| - 1
  {
    assert m == (m - multiset{s}) + multiset{s};
  }

  lemma HandleDecreases(sources: set<Source>, st: State, s: Source)
    requires s in st.inflight
    ensures Left(sources, Next(st, Handle(s))) < Left(sources, st)
  {
    hide HandlerWork, LoopWork;
    OneFewer(st.inflight, s);
    OneHandler(|st.inflight|, |sources| + 2);
  }

  lemma TakeDecreases(sources: set<Source>, st: State, step: Step)
    requires step.TakeTrigger? || step.TakeTick?
    requires Enabled(sources, st, step)
    ensures Left(sources, Next(st, step)) < Left(sources, st)
  {
    hide HandlerWork;
    var none: map<Source, nat> := map[];
    assert sources - none.Keys == sources;
  }

  lemma WorkDecreases(sources: set<Source>, st: State, step: Step)
    requires Enabled(sources, st, step) && Working(sources, st, step)
    ensures Left(sources, Next(st, step)) < Left(sources, st)
  {
    hide HandlerWork, LoopWork, Left, Next;
    if step.Handle? {
      HandleDecreases(sources, st, step.source);
    } else if step.TakeTrigger? || step.TakeTick? {
      TakeDecreases(sources, st, step);
    } else if step.Read? {
      ReadingDecreases(sources, st, step.source);
    } else {
      LoopDecreases(sources, st, step);
    }
  }

  lemma LoopDecreases(sources: set<Source>, st: State, step: Step)
    requires step.Begin? || step.Finish? || step.Restart?
    requires Enabled(sources, st, step)
    ensures Left(sources, Next(st, step)) < Left(sources, st)
  {
    hide HandlerWork;
  }

  lemma ReadingDecreases(sources: set<Source>, st: State, s: Source)
    requires st.loop.Reading? && s in sources && s !in st.used
    ensures Left(sources, Next(st, Read(s))) < Left(sources, st)
  {
    hide HandlerWork;
    ReadDecreases(sources, st, s);
  }

  lemma ReadDecreases(sources: set<Source>, st: State, s: Source)
    requires s in sources && s !in st.used
    ensures |sources - st.used[s := Version(st, s)].Keys| == |sources - st.used.Keys| - 1
  {
    assert sources - st.used[s := Version(st, s)].Keys == (sources - st.used.Keys) - {s};
    assert s in sources - st.used.Keys;
  }

  /** No step of the program is enabled. */
  ghost predicate Stuck(sources: set<Source>, st: State) {
    forall step :: !(Enabled(sources, st, step) && Working(sources, st, step))
  }

  /** The program is stuck only when it is quiet with an empty ticker. */
  lemma StuckIsQuiet(sources: set<Source>, st: State)
    ensures Stuck(sources, st) <==> Quiet(st) && !st.tick
  {
    if Quiet(st) && !st.tick {
      return;
    }
    var step :=
      if st.loop.Starting? then Begin
      else if st.loop.Crashed? then Restart
      else if st.loop.Reading? && sources <= st.used.Keys then Finish
      else if st.loop.Reading? then (var s :| s in sources && s !in st.used; Read(s))
      else if st.trigger then TakeTrigger
      else if st.tick then TakeTick
      else (var s :| s in st.inflight; Handle(s));
    assert Enabled(sources, st, step) && Working(sources, st, step);
  }

  /** Every step of a run is one the program takes by itself. */
  ghost predicate AllWork(sources: set<Source>, st: State, steps: seq<Step>)
    decreases |steps|
  {
    steps == [] || (Working(sources, st, steps[0]) && AllWork(sources, Next(st, steps[0]), steps[1..]))
  }

  /** The last pass went well, or another one is on its way. */
  predicate Hopeful(st: State) { st.loop == Idle(false) ==> st.trigger || st.tick || st.inflight != multiset{} }

  /** The working steps of any schedule run out: there are at most Left many. */
  lemma {:induction false} WorkIsBounded(sources: set<Source>, st: State, steps: seq<Step>)
    requires Run(sources, st, steps) && AllWork(sources, st, steps)
    ensures |steps| + Left(sources, After(st, steps)) <= Left(sources, st)
    ensures if Hopeful(st) then Hopeful(After(st, steps)) else steps == []
    decreases |steps|
  {
    hide Left;
    if steps != [] {
      WorkDecreases(sources, st, steps[0]);
      assert Hopeful(Next(st, steps[0]));
      WorkIsBounded(sources, Next(st, steps[0]), steps[1..]);
    }
  }

  /** Progress: when the environment pauses, whatever order the remaining steps come in, there are at most
      Left many of them. Once none is left every read was of the latest version, and every source has been
      read if and only if another pass was still to come or the last one, though it failed, had read all. */
  lemma EverySourceCatchesUp(sources: set<Source>, st0: State, past: seq<Step>, work: seq<Step>)
    requires Initial(st0) && Run(sources, st0, past)
    requires var now := After(st0, past);
      Run(sources, now, work) && AllWork(sources, now, work) && Stuck(sources, After(now, work))
    ensures var now := After(st0, past);
      && |work| <= Left(sources, now)
      && (forall s :: s in After(now, work).used ==> Fresh(After(now, work), s))
      && ((forall s :: s in sources ==> Fresh(After(now, work), s)) <==> Hopeful(now) || sources <= now.used.Keys)
  {
    var now := After(st0, past);
    assert work == [] ==> After(now, work) == now;
    hide Run, After, AllWork, Left, Stuck;
    RunKeepsInv(sources, st0, past);
    RunKeepsInv(sources, now, work);
    WorkIsBounded(sources, now, work);
    StuckIsQuiet(sources, After(now, work));
  }

  lemma {:induction false} RunAppend(sources: set<Source>, st0: State, past: seq<Step>, step: Step)
    ensures Run(sources, st0, past + [step]) <==> Run(sources, st0, past) && Enabled(sources, After(st0, past), step)
    ensures After(st0, past + [step]) == Next(After(st0, past), step)
    decreases |past|
  {
    hide Enabled, Next;
    if past == [] {
      assert past + [step] == [step] && [step][1..] == [];
    } else {
      assert (past + [step])[1..] == past[1..] + [step];
      RunAppend(sources, Next(st0, past[0]), past[1..], step);
    }
  }

  /** Whatever went wrong before, a change of a source, a handler that runs, the ticker, a start and a restart
      all lead to a pass: once the steps of the program have run out, in whatever order they came, every
      source was read at its latest version. */
  lemma WakeUpsCatchUp(sources: set<Source>, st0: State, past: seq<Step>, last: Step, work: seq<Step>)
    requires Initial(st0) && Run(sources, st0, past + [last])
    requires last.Update? || last.Handle? || last.Timer? || last.Begin? || last.Restart?
    requires var now := After(st0, past + [last]);
      Run(sources, now, work) && AllWork(sources, now, work) && Stuck(sources, After(now, work))
    ensures forall s :: s in sources ==> Fresh(After(After(st0, past + [last]), work), s)
  {
    hide Run, After, AllWork, Left, Stuck;
    RunAppend(sources, st0, past, last);
    var now := After(st0, past + [last]);
    if last.Update? { assert last.source in now.inflight; }
    assert Hopeful(now);
    EverySourceCatchesUp(sources, st0, past + [last], work);
  }

  // ---- a failing pass --------------------------------------------------------

  /** A change whose own pass fails. */
  const FAILED: seq<Step> := [Begin, Update(Nodes), Handle(Nodes), TakeTrigger, Fail]

  lemma Play(sources: set<Source>, st: State, step: Step, rest: seq<Step>)
    ensures Run(sources, st, [step] + rest) <==> Enabled(sources, st, step) && Run(sources, Next(st, step), rest)
    ensures After(st, [step] + rest) == After(Next(st, step), rest)
  {
    assert ([step] + rest)[1..] == rest;
  }

  /** An error is not retried: after a pass that failed before it had read everything, the loop can be quiet
      although a change was never read, and only the ticker or another change wakes it. */
  lemma FailureWaits(st0: State)
    requires Initial(st0) && st0.inflight == multiset{}
    ensures Run(PEER_SOURCES, st0, FAILED)
    ensures Quiet(After(st0, FAILED)) && !Fresh(After(st0, FAILED), Nodes) && Stuck(PEER_SOURCES, After(st0, FAILED))
  {
    hide Stuck;
    var st1 := Next(st0, Begin);
    var st2 := Next(st1, Update(Nodes));
    var st3 := Next(st2, Handle(Nodes));
    var st4 := Next(st3, TakeTrigger);
    Play(PEER_SOURCES, st0, Begin, [Update(Nodes), Handle(Nodes), TakeTrigger, Fail]);
    Play(PEER_SOURCES, st1, Update(Nodes), [Handle(Nodes), TakeTrigger, Fail]);
    Play(PEER_SOURCES, st2, Handle(Nodes), [TakeTrigger, Fail]);
    Play(PEER_SOURCES, st3, TakeTrigger, [Fail]);
    Play(PEER_SOURCES, st4, Fail, []);
    assert FAILED == [Begin] + [Update(Nodes), Handle(Nodes), TakeTrigger, Fail];
    assert [Update(Nodes)] + [Handle(Nodes), TakeTrigger, Fail] == [Update(Nodes), Handle(Nodes), TakeTrigger, Fail];
    assert [Handle(Nodes)] + [TakeTrigger, Fail] == [Handle(Nodes), TakeTrigger, Fail];
    assert [TakeTrigger] + [Fail] == [TakeTrigger, Fail] && [Fail] + [] == [Fail];
    StuckIsQuiet(PEER_SOURCES, After(st0, FAILED));
  }
}
