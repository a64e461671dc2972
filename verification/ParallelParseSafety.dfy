/** What every interleaving of the parallel parser keeps, and how it can end. */
module ParallelParseSafety {
  import opened JobChunks
  import opened ParallelParse

  // ---- accounting ----

  /** The counters of the main process say what it has consumed. */
  predicate Accounted(c: Config, s: State) {
    var m := s.main;
    && m.parsed + (if m.pc == MainPc.Stopped(RecipeError) then 1 else 0) == |s.consumed|
    && (forall k :: 0 <= k < m.parsed ==> s.consumed[k] !in c.failing)
    && m.cached + m.uncached == c.fromcache
    && m.current == m.parsed + m.cached
    && m.error == (if m.pc in {MainPc.Stopped(NotAllParsed), MainPc.Stopped(RecipeError)} then 1 else 0)
    && (m.pc.Reaping? || m.pc == AtGet ==> m.uncached == 0)
    && (m.pc == MainPc.Stopped(Clean) ==> m.parsed >= |c.toparse| && m.uncached == 0)
    && (m.pc == AtGet || m.pc == MainPc.Stopped(NotAllParsed) ==> m.parsed < |c.toparse|)
    && (m.pc == MainPc.Stopped(RecipeError) ==> s.consumed != [] && s.consumed[|s.consumed| - 1] in c.failing)
    && (s.quit <==> m.pc.Stopped?)
  }

  /** Workers that are no longer watched have stopped, and one that left the normal way while the
      main process was still waiting has handed everything over. */
  predicate Watched(s: State) {
    var m := s.main;
    && (forall i :: 0 <= i < |s.workers| && i !in m.processes ==> s.workers[i].Stopped())
    && (forall i :: i in m.processes ==> i < |s.workers|)
    && (forall i :: 0 <= i < |s.workers| ==> Orderly(s.workers[i], s.quit && m.pc != MainPc.Stopped(NotAllParsed)))
    && (m.pc.Reaping? ==> m.pc.next <= |s.workers|)
    && (m.pc == AtLoop && m.processes == {} && m.empty ==> s.queue == [])
    && (m.pc == MainPc.Stopped(NotAllParsed) ==> m.processes == {} && s.queue == [])
  }

  predicate Orderly(w: Worker, quit: bool) {
    && (!w.havejobs ==> w.jobs == [])
    && (!quit ==>
         && (w.pc == Closing ==> w.jobs == [] && w.pending == [])
         && (w.pc == Done ==> w.jobs == [] && w.pending == [] && w.feeder == []))
  }

  lemma MoveOrderly(w: Worker, quit: bool, a: Action)
    requires Orderly(w, quit)
    ensures Orderly(Move(w, quit, a).0, quit)
    ensures w.Stopped() ==> Move(w, quit, a) == (w, [])
  {
  }

  lemma WorkerStepWatched(s: State, i: nat, a: Action)
    requires i < |s.workers| && Watched(s) && (s.quit <==> s.main.pc.Stopped?)
    ensures Watched(WorkerStep(s, i, a))
  {
    var w, m := s.workers[i], s.main;
    if m.pc == MainPc.Stopped(NotAllParsed) {
      assert w.Stopped();
    } else {
      MoveOrderly(w, s.quit, a);
    }
    if m.processes == {} {
      assert w.Stopped();
    }
  }

  lemma MainStepWatched(c: Config, s: State, a: Action)
    requires Watched(s) && Accounted(c, s)
    ensures Watched(MainStep(c, s, a))
  {
  }

  lemma MainStepAccounted(c: Config, s: State, a: Action)
    requires Accounted(c, s) && Watched(s)
    ensures Accounted(c, MainStep(c, s, a))
  {
    if a.MainGet? { GetAccounted(c, s); } else { OtherAccounted(c, s, a); }
  }

  lemma GetAccounted(c: Config, s: State)
    requires Accounted(c, s)
    ensures Accounted(c, MainStep(c, s, MainGet))
  {
  }

  lemma OtherAccounted(c: Config, s: State, a: Action)
    requires Accounted(c, s) && Watched(s) && !a.MainGet?
    ensures Accounted(c, MainStep(c, s, a))
  {
  }

  ghost predicate Inv(c: Config, s: State) {
    Conserved(c, s) && Accounted(c, s) && Watched(s)
  }

  lemma StepInv(c: Config, s: State, a: Action)
    requires Inv(c, s)
    ensures Inv(c, Step(c, s, a))
  {
    StepConserves(c, s, a);
    if a.MainCached? || a.MainLoop? || a.MainReap? || a.MainGet? || a.Interrupt? {
      MainStepWatched(c, s, a);
      MainStepAccounted(c, s, a);
    } else if a.i < |s.workers| {
      WorkerStepWatched(s, a.i, a);
    }
  }

  lemma {:induction false} RunInv(c: Config, s: State, actions: seq<Action>)
    requires Inv(c, s)
    ensures Inv(c, Run(c, s, actions))
    decreases |actions|
  {
    if actions != [] {
      StepInv(c, s, actions[0]);
      RunInv(c, Step(c, s, actions[0]), actions[1..]);
    }
  }

  lemma {:induction false} NewWorkersFresh(chunks: seq<seq<Job>>)
    ensures forall i :: 0 <= i < |chunks| ==> NewWorkers(chunks)[i] == NewWorker(chunks[i])
  {
    if chunks != [] {
      NewWorkersFresh(chunks[1..]);
    }
  }

  lemma InitInv(c: Config)
    requires IsConfig(c)
    ensures Inv(c, Init(c))
  {
    InitConserved(c);
    if c.toparse != [] { NewWorkersFresh(Chunks(c.toparse, c.processes)); }
  }

  /** In every interleaving of workers, feeders, deaths and main loop, no job is lost or duplicated
      and the counters are those of the results consumed. */
  lemma EveryRunIsSafe(c: Config, actions: seq<Action>)
    requires IsConfig(c)
    ensures Inv(c, Run(c, Init(c), actions))
  {
    InitInv(c);
    RunInv(c, Init(c), actions);
  }

  // ---- counting ----

  lemma {:induction false} CountIsMultiplicity(q: seq<Job>, j: Job)
    ensures Count(q, j) == multiset(q)[j]
  {
    if q != [] {
      CountIsMultiplicity(q[1..], j);
      assert q == [q[0]] + q[1..];
    }
  }

  /** A list that is as long as another and holds nothing more often holds the same. */
  lemma SameJobs(p: seq<Job>, q: seq<Job>)
    requires |p| >= |q| && forall j :: Count(p, j) <= Count(q, j)
    ensures |p| == |q| && multiset(p) == multiset(q) && forall j :: Count(p, j) == Count(q, j)
  {
    var a, b := multiset(p), multiset(q);
    forall j ensures a[j] == Count(p, j) && b[j] == Count(q, j) {
      CountIsMultiplicity(p, j);
      CountIsMultiplicity(q, j);
    }
    assert a <= b;
    assert b == a + (b - a);
    assert |b - a| == 0;
  }

  lemma {:induction false} HandInHands(ws: seq<Worker>, i: nat, j: Job)
    requires i < |ws|
    ensures InHands(ws, j) >= ws[i].Holds(j)
  {
    if i > 0 {
      HandInHands(ws[1..], i - 1, j);
    }
  }

  lemma {:induction false} EmptyHands(ws: seq<Worker>, j: Job)
    requires forall i :: 0 <= i < |ws| ==> ws[i].Holds(j) == 0
    ensures InHands(ws, j) == 0
  {
    if ws != [] {
      assert ws[0].Holds(j) == 0;
      forall i | 0 <= i < |ws[1..]| ensures ws[1..][i].Holds(j) == 0 {
        assert ws[i + 1].Holds(j) == 0;
      }
      EmptyHands(ws[1..], j);
    }
  }

  // ---- how it ends ----

  lemma CleanState(c: Config, s: State)
    requires Inv(c, s) && s.main.pc == MainPc.Stopped(Clean)
    ensures multiset(s.consumed) == multiset(c.toparse) && s.main.parsed == |c.toparse|
    ensures forall i, j :: 0 <= i < |s.workers| ==> s.workers[i].Holds(j) == 0
  {
    forall j ensures Count(s.consumed, j) <= Count(c.toparse, j) { assert Kept(c, s, j); }
    SameJobs(s.consumed, c.toparse);
    forall i, j | 0 <= i < |s.workers| ensures s.workers[i].Holds(j) == 0 {
      assert Kept(c, s, j);
      HandInHands(s.workers, i, j);
    }
  }

  /** A finish without error has parsed every recipe exactly once, and left nothing behind. */
  lemma CleanMeansComplete(c: Config, actions: seq<Action>)
    requires IsConfig(c)
    ensures var s := Run(c, Init(c), actions);
            s.main.pc == MainPc.Stopped(Clean) ==>
              && multiset(s.consumed) == multiset(c.toparse)
              && (forall j :: j in s.consumed ==> j !in c.failing)
              && s.main.parsed == |c.toparse| && s.main.cached + s.main.parsed == c.fromcache + |c.toparse|
              && s.main.error == 0
              && (forall i, j :: 0 <= i < |s.workers| ==> s.workers[i].Holds(j) == 0)
  {
    EveryRunIsSafe(c, actions);
    var s := Run(c, Init(c), actions);
    if s.main.pc == MainPc.Stopped(Clean) {
      CleanState(c, s);
    }
  }

  /** The complaint that not all recipes were parsed is never a false alarm: some worker was
      killed with a job in its hand. */
  lemma ComplaintMeansDeath(c: Config, actions: seq<Action>)
    requires IsConfig(c)
    ensures var s := Run(c, Init(c), actions);
            s.main.pc == MainPc.Stopped(NotAllParsed) ==>
              exists i, j :: 0 <= i < |s.workers| && s.workers[i].pc == Killed && s.workers[i].Holds(j) > 0
  {
    EveryRunIsSafe(c, actions);
    var s := Run(c, Init(c), actions);
    if s.main.pc == MainPc.Stopped(NotAllParsed) { ComplaintHasCause(c, s); }
  }

  lemma ComplaintHasCause(c: Config, s: State)
    requires Inv(c, s) && s.main.pc == MainPc.Stopped(NotAllParsed)
    ensures exists i, j :: 0 <= i < |s.workers| && s.workers[i].pc == Killed && s.workers[i].Holds(j) > 0
  {
    if forall i, j :: 0 <= i < |s.workers| && s.workers[i].pc == Killed ==> s.workers[i].Holds(j) == 0 {
      forall j ensures Count(c.toparse, j) <= Count(s.consumed, j) {
        assert Kept(c, s, j);
        forall i | 0 <= i < |s.workers| ensures s.workers[i].Holds(j) == 0 {
          assert s.workers[i].Stopped();
        }
        EmptyHands(s.workers, j);
      }
      Shorter(c.toparse, s.consumed);
    }
  }

  /** An error of a recipe is one: the last result is that of a recipe to parse whose parsing fails, and
      none before it failed. */
  lemma RecipeErrorMeansFailure(c: Config, actions: seq<Action>)
    requires IsConfig(c)
    ensures var s := Run(c, Init(c), actions);
            s.main.pc == MainPc.Stopped(RecipeError) ==>
              && s.consumed != []
              && (var j := s.consumed[|s.consumed| - 1]; j in c.failing && j in c.toparse)
              && (forall k :: 0 <= k < |s.consumed| - 1 ==> s.consumed[k] !in c.failing)
  {
    EveryRunIsSafe(c, actions);
    var s := Run(c, Init(c), actions);
    if s.main.pc == MainPc.Stopped(RecipeError) { ConsumedIsToParse(c, s, |s.consumed| - 1); }
  }

  lemma ConsumedIsToParse(c: Config, s: State, k: nat)
    requires Conserved(c, s) && k < |s.consumed|
    ensures s.consumed[k] in c.toparse
  {
    var j := s.consumed[k];
    assert Kept(c, s, j);
    CountIsMultiplicity(s.consumed, j);
    CountIsMultiplicity(c.toparse, j);
    assert j in multiset(s.consumed);
  }

  lemma Shorter(p: seq<Job>, q: seq<Job>)
    requires forall j :: Count(p, j) <= Count(q, j)
    ensures |p| <= |q|
  {
    if |p| > |q| {
      SameJobs(p, q);
    }
  }

  lemma StepKeepsDead(c: Config, s: State, a: Action, i: nat)
    requires i < |s.workers| && s.workers[i].Stopped()
    ensures var t := Step(c, s, a); i < |t.workers| && t.workers[i] == s.workers[i]
  {
    if !(a.MainCached? || a.MainLoop? || a.MainReap? || a.MainGet? || a.Interrupt?) && a.i == i {
      assert Move(s.workers[i], s.quit, a) == (s.workers[i], []);
    }
  }

  lemma {:induction false} RunKeepsDead(c: Config, s: State, actions: seq<Action>, i: nat)
    requires i < |s.workers| && s.workers[i].Stopped()
    ensures var t := Run(c, s, actions); i < |t.workers| && t.workers[i] == s.workers[i]
    decreases |actions|
  {
    if actions != [] {
      StepKeepsDead(c, s, actions[0], i);
      RunKeepsDead(c, Step(c, s, actions[0]), actions[1..], i);
    }
  }

  lemma {:induction false} RunAppend(c: Config, s: State, p: seq<Action>, q: seq<Action>)
    ensures Run(c, Run(c, s, p), q) == Run(c, s, p + q)
    decreases |p|
  {
    if p == [] {
      assert p + q == q;
    } else {
      assert (p + q)[1..] == p[1..] + q;
      RunAppend(c, Step(c, s, p[0]), p[1..], q);
    }
  }

  /** Once a worker has died with a job in its hand, no continuation finishes silently. */
  lemma DeathIsNeverSilent(c: Config, before: seq<Action>, after: seq<Action>, i: nat, j: Job)
    requires IsConfig(c)
    requires var s := Run(c, Init(c), before);
             i < |s.workers| && s.workers[i].pc == Killed && s.workers[i].Holds(j) > 0
    ensures Run(c, Init(c), before + after).main.pc != MainPc.Stopped(Clean)
  {
    var s := Run(c, Init(c), before);
    RunKeepsDead(c, s, after, i);
    RunAppend(c, Init(c), before, after);
    CleanMeansComplete(c, before + after);
  }

  // ---- and it does end ----

  /** What the main loop does next. */
  function Turn(s: State): Action {
    match s.main.pc
    case AtLoop => if s.main.uncached > 0 then MainCached else MainLoop
    case Reaping(_) => MainReap
    case _ => MainGet
  }

  function MainRun(c: Config, s: State, steps: nat): State
    decreases steps
  {
    if steps == 0 then s else MainRun(c, Step(c, s, Turn(s)), steps - 1)
  }

  predicate AllStopped(s: State) {
    forall i :: 0 <= i < |s.workers| ==> s.workers[i].Stopped()
  }

  /** Main-loop steps left when no worker runs: those of one round, and another one for every
      queued result. */
  function Left(s: State): nat
    requires s.main.pc.Reaping? ==> s.main.pc.next <= |s.workers|
  {
    var m, n := s.main, |s.workers|;
    |s.queue| * (n + 3) +
    match m.pc
    case Stopped(_) => 0
    case AtLoop => m.uncached + if m.processes == {} && m.empty then 1 else 4 + n
    case AtGet => if m.processes == {} then 2 else 5 + n
    case Reaping(k) =>
      if forall i | i in m.processes :: k <= i then 3 + n - k else 6 + n + n - k
  }

  lemma TurnComesCloser(c: Config, s: State)
    requires Inv(c, s) && AllStopped(s) && !s.main.pc.Stopped?
    ensures var t := Step(c, s, Turn(s));
            && t.workers == s.workers && t.main.pc != MainPc.Stopped(Interrupted)
            && (t.main.pc.Reaping? ==> t.main.pc.next <= |t.workers|)
            && Left(t) < Left(s)
  {
    var m, t := s.main, Step(c, s, Turn(s));
    if m.pc.Reaping? && m.pc.next == |s.workers| && (forall i | i in m.processes :: m.pc.next <= i) {
      assert m.processes == {};
    }
    if |t.queue| < |s.queue| { OneLess(|s.queue|, |t.queue|, |s.workers| + 3); }
  }

  lemma OneLess(q: nat, r: nat, n: nat)
    requires q == r + 1
    ensures r * n + n == q * n
  {
  }

  /** When every worker has stopped, the main loop ends, whatever is still queued, after finitely
      many of its own steps. */
  lemma {:induction false} LoopEnds(c: Config, s: State) returns (steps: nat)
    requires Inv(c, s) && AllStopped(s) && !s.main.pc.Stopped?
    ensures steps <= Left(s)
    ensures var t := MainRun(c, s, steps);
            && t.main.pc.Stopped? && t.main.pc != MainPc.Stopped(Interrupted)
            && Inv(c, t) && t.workers == s.workers
    decreases Left(s)
  {
    TurnComesCloser(c, s);
    StepInv(c, s, Turn(s));
    var t := Step(c, s, Turn(s));
    if t.main.pc.Stopped? {
      steps := 1;
      assert MainRun(c, t, 0) == t;
    } else {
      var more := LoopEnds(c, t);
      steps := more + 1;
    }
  }

  /** From any reachable state in which a worker was killed with a job in its hand and no worker
      runs any more, the main loop ends in an error within a bound: of the complaint that not all
      recipes were parsed, or of a recipe among those still queued. */
  lemma DeadWorkersEndInError(c: Config, actions: seq<Action>, i: nat, j: Job) returns (steps: nat)
    requires IsConfig(c)
    requires var s := Run(c, Init(c), actions);
             && AllStopped(s) && !s.main.pc.Stopped?
             && i < |s.workers| && s.workers[i].pc == Killed && s.workers[i].Holds(j) > 0
    ensures var s := Run(c, Init(c), actions);
            && steps <= s.main.uncached + 6 + 2 * |s.workers| + |s.queue| * (|s.workers| + 3)
            && MainRun(c, s, steps).main.pc in {MainPc.Stopped(NotAllParsed), MainPc.Stopped(RecipeError)}
  {
    EveryRunIsSafe(c, actions);
    var s := Run(c, Init(c), actions);
    steps := LoopEnds(c, s);
    LeftIs(s);
    FullHandIsError(c, MainRun(c, s, steps), i, j);
  }

  lemma LeftIs(s: State)
    requires s.main.pc.Reaping? ==> s.main.pc.next <= |s.workers|
    ensures Left(s) <= s.main.uncached + 6 + 2 * |s.workers| + |s.queue| * (|s.workers| + 3)
  {
  }

  lemma FullHandIsError(c: Config, t: State, i: nat, j: Job)
    requires Inv(c, t) && t.main.pc.Stopped? && t.main.pc != MainPc.Stopped(Interrupted)
    requires i < |t.workers| && t.workers[i].Holds(j) > 0
    ensures t.main.pc in {MainPc.Stopped(NotAllParsed), MainPc.Stopped(RecipeError)}
  {
    var outcome := t.main.pc.outcome;
    if outcome == Clean {
      CleanState(c, t);
    }
    assert outcome == NotAllParsed || outcome == RecipeError;
  }

  // ---- runs in which nothing fails ----

  /** No worker is killed, and nobody interrupts. */
  predicate IsHealthy(actions: seq<Action>) {
    forall a :: a in actions ==> !a.Kill? && !a.Interrupt?
  }

  predicate NoneFails(c: Config) {
    forall j :: j in c.toparse ==> j !in c.failing
  }

  /** No worker has died, and the main process was not interrupted. */
  predicate IsSound(s: State) {
    (forall i :: 0 <= i < |s.workers| ==> s.workers[i].pc != Killed) && s.main.pc != MainPc.Stopped(Interrupted)
  }

  lemma StepIsSound(c: Config, s: State, a: Action)
    requires IsSound(s) && !a.Kill? && !a.Interrupt?
    ensures IsSound(Step(c, s, a))
  {
  }

  lemma {:induction false} RunIsSound(c: Config, s: State, actions: seq<Action>)
    requires IsSound(s) && IsHealthy(actions)
    ensures IsSound(Run(c, s, actions))
    decreases |actions|
  {
    if actions != [] {
      StepIsSound(c, s, actions[0]);
      RunIsSound(c, Step(c, s, actions[0]), actions[1..]);
    }
  }

  lemma InitIsSound(c: Config)
    requires IsConfig(c)
    ensures IsSound(Init(c))
  {
    if c.toparse != [] { NewWorkersFresh(Chunks(c.toparse, c.processes)); }
  }

  /** A sound state in which the main loop has stopped is a clean one, if no recipe fails. */
  lemma SoundEndIsClean(c: Config, s: State)
    requires Inv(c, s) && IsSound(s) && NoneFails(c) && s.main.pc.Stopped?
    ensures s.main.pc == MainPc.Stopped(Clean)
  {
    var outcome := s.main.pc.outcome;
    if outcome == RecipeError {
      ConsumedIsToParse(c, s, |s.consumed| - 1);
    } else if outcome == NotAllParsed {
      ComplaintHasCause(c, s);
    }
    assert outcome == Clean || outcome == NotAllParsed || outcome == RecipeError || outcome == Interrupted;
  }

  /** If no recipe fails, no worker is killed and nobody interrupts: once every worker has stopped,
      the main loop ends without error within the bound. */
  lemma HealthyRunEndsClean(c: Config, actions: seq<Action>) returns (steps: nat)
    requires IsConfig(c) && NoneFails(c) && IsHealthy(actions)
    requires var s := Run(c, Init(c), actions); AllStopped(s) && !s.main.pc.Stopped?
    ensures var s := Run(c, Init(c), actions);
            && steps <= s.main.uncached + 6 + 2 * |s.workers| + |s.queue| * (|s.workers| + 3)
            && MainRun(c, s, steps).main.pc == MainPc.Stopped(Clean)
  {
    var s := Run(c, Init(c), actions);
    EveryRunIsSafe(c, actions);
    InitIsSound(c);
    RunIsSound(c, Init(c), actions);
    steps := LoopEnds(c, s);
    LeftIs(s);
    SoundEndIsClean(c, MainRun(c, s, steps));
  }

  // ---- from everywhere to a clean end ----

  /** What a worker that runs does next, if the queue is not full. */
  function NextMove(w: Worker, quit: bool, i: nat): Action {
    match w.pc
    case Top => if !quit && (w.havejobs || w.pending != []) then Pop(i) else Leave(i)
    case Putting => Put(i, false)
    case _ => if w.feeder != [] then Flush(i) else Close(i)
  }

  function MovesLeft(w: Worker): nat {
    5 * |w.jobs| + 3 * |w.pending| + |w.feeder| + (if w.havejobs then 3 else 0) +
    match w.pc
    case Top => 3
    case Putting => if w.pending == [] then 4 else 2
    case Closing => 2
    case _ => 0
  }

  lemma MoveComesCloser(w: Worker, quit: bool, i: nat)
    requires !w.Stopped()
    ensures MovesLeft(Move(w, quit, NextMove(w, quit, i)).0) < MovesLeft(w)
  {
  }

  function AllMovesLeft(ws: seq<Worker>): nat {
    if ws == [] then 0 else MovesLeft(ws[0]) + AllMovesLeft(ws[1..])
  }

  lemma {:induction false} AllMovesLeftUpdate(ws: seq<Worker>, i: nat, w: Worker)
    requires i < |ws|
    ensures AllMovesLeft(ws[i := w]) + MovesLeft(ws[i]) == AllMovesLeft(ws) + MovesLeft(w)
  {
    if i > 0 {
      AllMovesLeftUpdate(ws[1..], i - 1, w);
      assert ws[i := w][1..] == ws[1..][i - 1 := w];
    } else {
      assert ws[i := w][1..] == ws[1..];
    }
  }

  lemma WorkerComesCloser(c: Config, s: State, i: nat)
    requires i < |s.workers| && !s.workers[i].Stopped()
    ensures var t := Step(c, s, NextMove(s.workers[i], s.quit, i));
            AllMovesLeft(t.workers) < AllMovesLeft(s.workers) && t.main == s.main && t.quit == s.quit
  {
    var w := s.workers[i];
    MoveComesCloser(w, s.quit, i);
    AllMovesLeftUpdate(s.workers, i, Move(w, s.quit, NextMove(w, s.quit, i)).0);
  }

  /** In every state the workers can run to their end, also when they are told to quit. */
  lemma {:induction false} WorkersCanStop(c: Config, s: State) returns (more: seq<Action>)
    ensures IsHealthy(more) && |more| <= AllMovesLeft(s.workers)
    ensures AllStopped(Run(c, s, more)) && Run(c, s, more).main == s.main
    decreases AllMovesLeft(s.workers)
  {
    if i: nat :| i < |s.workers| && !s.workers[i].Stopped() {
      var a := NextMove(s.workers[i], s.quit, i);
      WorkerComesCloser(c, s, i);
      var rest := WorkersCanStop(c, Step(c, s, a));
      more := [a] + rest;
    } else {
      more := [];
    }
  }

  /** The main loop's turns as actions. */
  lemma {:induction false} TurnsAreRun(c: Config, s: State, steps: nat) returns (turns: seq<Action>)
    ensures IsHealthy(turns) && |turns| == steps && Run(c, s, turns) == MainRun(c, s, steps)
    decreases steps
  {
    turns := [];
    if steps > 0 {
      var rest := TurnsAreRun(c, Step(c, s, Turn(s)), steps - 1);
      turns := [Turn(s)] + rest;
    }
  }

  /** Nothing gets stuck: wherever a run has come to in which no worker was killed and nobody interrupted,
      if no recipe fails it can go on to an end without error, every recipe parsed. */
  lemma HealthyRunCanEndClean(c: Config, actions: seq<Action>) returns (more: seq<Action>)
    requires IsConfig(c) && NoneFails(c) && IsHealthy(actions) && !Run(c, Init(c), actions).main.pc.Stopped?
    ensures IsHealthy(more)
    ensures var t := Run(c, Init(c), actions + more);
            t.main.pc == MainPc.Stopped(Clean) && multiset(t.consumed) == multiset(c.toparse)
  {
    var moves := RunCanStop(c, actions);
    ThreeParts(actions, moves, []);
    var turns := StoppedRunGoesOn(c, actions + moves);
    more := moves + turns;
    ThreeParts(actions, moves, turns);
    CleanMeansComplete(c, actions + more);
  }

  lemma ThreeParts(p: seq<Action>, q: seq<Action>, r: seq<Action>)
    ensures p + q + r == p + (q + r)
    ensures IsHealthy(p) && IsHealthy(q) ==> IsHealthy(p + q)
    ensures IsHealthy(q) && IsHealthy(r) ==> IsHealthy(q + r)
  {
  }

  lemma RunCanStop(c: Config, actions: seq<Action>) returns (moves: seq<Action>)
    requires IsConfig(c) && !Run(c, Init(c), actions).main.pc.Stopped?
    ensures var t := Run(c, Init(c), actions + moves); IsHealthy(moves) && AllStopped(t) && !t.main.pc.Stopped?
  {
    EveryRunIsSafe(c, actions);
    moves := WorkersCanStop(c, Run(c, Init(c), actions));
    RunAppend(c, Init(c), actions, moves);
  }

  lemma StoppedRunGoesOn(c: Config, actions: seq<Action>) returns (turns: seq<Action>)
    requires IsConfig(c) && NoneFails(c) && IsHealthy(actions)
    requires var s := Run(c, Init(c), actions); AllStopped(s) && !s.main.pc.Stopped?
    ensures IsHealthy(turns) && Run(c, Init(c), actions + turns).main.pc == MainPc.Stopped(Clean)
  {
    var steps := HealthyRunEndsClean(c, actions);
    turns := TurnsAreRun(c, Run(c, Init(c), actions), steps);
    RunAppend(c, Init(c), actions, turns);
  }

  // ---- when the workers are told to quit ----

  lemma StepTakesNoJob(c: Config, s: State, a: Action, i: nat)
    requires s.quit && i < |s.workers|
    ensures var t := Step(c, s, a); t.quit && i < |t.workers| && t.workers[i].jobs == s.workers[i].jobs
  {
  }

  /** Once the main process has stopped, for whatever reason, no worker takes another job. */
  lemma {:induction false} NoJobAfterQuit(c: Config, s: State, actions: seq<Action>, i: nat)
    requires s.quit && i < |s.workers|
    ensures var t := Run(c, s, actions); t.quit && i < |t.workers| && t.workers[i].jobs == s.workers[i].jobs
    decreases |actions|
  {
    if actions != [] {
      StepTakesNoJob(c, s, actions[0], i);
      NoJobAfterQuit(c, Step(c, s, actions[0]), actions[1..], i);
    }
  }
}
