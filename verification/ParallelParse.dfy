/** BitBake's parallel recipe parsing: worker processes with a pending stack and a feeder buffer
    each, a shared result queue, and the main loop that accounts for every job. */
module ParallelParse {
  import opened JobChunks

  // ---- the processes ----

  datatype WorkerPc = Top | Putting | Closing | Done | Killed

  /** A worker's own copy of its job list, its stack of results, and the results its feeder has
      not yet moved to the shared queue. A result is known by its job. */
  datatype Worker = Worker(pc: WorkerPc, jobs: seq<Job>, havejobs: bool, pending: seq<Job>, feeder: seq<Job>) {
    predicate Stopped() { pc == Done || pc == Killed }

    function Holds(j: Job): nat {
      Count(jobs, j) + Count(pending, j) + Count(feeder, j)
    }
  }

  datatype Outcome = Clean | NotAllParsed | RecipeError | Interrupted

  datatype MainPc = AtLoop | Reaping(next: nat) | AtGet | Stopped(outcome: Outcome)

  /** The parser object of the main process; `processes` are those not yet joined, `empty` that
      the last read of the queue timed out. */
  datatype Main = Main(pc: MainPc, processes: set<nat>, empty: bool, uncached: nat,
                       parsed: nat, cached: nat, error: nat, current: nat)

  datatype State = State(workers: seq<Worker>, queue: seq<Job>, quit: bool, main: Main, consumed: seq<Job>)

  /** The recipes to parse, the number of those loaded from the cache, the number of processes,
      and the recipes whose parsing raises an exception. */
  datatype Config = Config(toparse: seq<Job>, fromcache: nat, processes: nat, failing: set<Job>)

  datatype Action =
    | Pop(i: nat) | Put(i: nat, full: bool) | Flush(i: nat) | Leave(i: nat) | Close(i: nat) | Kill(i: nat)
    | MainCached | MainLoop | MainReap | MainGet | Interrupt

  predicate IsConfig(c: Config) {
    c.toparse == [] || c.processes > 0
  }

  function NewWorker(chunk: seq<Job>): Worker {
    Worker(Top, chunk, true, [], [])
  }

  function NewWorkers(chunks: seq<seq<Job>>): (ws: seq<Worker>)
    ensures |ws| == |chunks|
  {
    if chunks == [] then [] else [NewWorker(chunks[0])] + NewWorkers(chunks[1..])
  }

  function Below(n: nat): (r: set<nat>)
    ensures forall i :: i in r <==> 0 <= i < n
  {
    if n == 0 then {} else Below(n - 1) + {n - 1}
  }

  function Init(c: Config): State {
    var n := if c.toparse == [] then 0 else c.processes;
    var workers := if n == 0 then [] else NewWorkers(Chunks(c.toparse, n));
    State(workers, [], false, Main(AtLoop, Below(|workers|), false, c.fromcache, 0, 0, 0, 0), [])
  }

  /** One step of a worker's loop, of its feeder thread, or its death, and what it puts on the
      shared queue. */
  function Move(w: Worker, quit: bool, a: Action): (Worker, seq<Job>) {
    match a
    case Pop(_) =>
      if w.pc != Top || quit || !(w.havejobs || w.pending != []) then (w, [])
      else if w.jobs != [] then
        var j := w.jobs[|w.jobs| - 1];
        (w.(pc := Putting, jobs := w.jobs[..|w.jobs| - 1], pending := w.pending + [j]), [])
      else (w.(pc := Putting, havejobs := false), [])
    case Put(_, full) =>
      if w.pc != Putting then (w, [])
      else if w.pending == [] || full then (w.(pc := Top), [])
      else
        var j := w.pending[|w.pending| - 1];
        (w.(pc := Top, pending := w.pending[..|w.pending| - 1], feeder := w.feeder + [j]), [])
    case Flush(_) =>
      if w.Stopped() || w.feeder == [] then (w, []) else (w.(feeder := w.feeder[1..]), [w.feeder[0]])
    case Leave(_) =>
      if w.pc != Top || (!quit && (w.havejobs || w.pending != [])) then (w, []) else (w.(pc := Closing), [])
    case Close(_) =>
      if w.pc != Closing || w.feeder != [] then (w, []) else (w.(pc := Done), [])
    case Kill(_) =>
      if w.Stopped() then (w, []) else (w.(pc := Killed), [])
    case _ => (w, [])
  }

  function WorkerStep(s: State, i: nat, a: Action): State
    requires i < |s.workers|
  {
    var (w, out) := Move(s.workers[i], s.quit, a);
    s.(workers := s.workers[i := w], queue := s.queue + out)
  }

  function Stop(s: State, outcome: Outcome): State {
    s.(quit := true, main := s.main.(pc := MainPc.Stopped(outcome),
                                     error := s.main.error + if outcome == Clean || outcome == Interrupted then 0 else 1))
  }

  /** One step of the main loop: a cached recipe, or one stage of parse_generator and the
      accounting of what it yields. */
  function MainStep(c: Config, s: State, a: Action): State {
    var m := s.main;
    match a
    case MainCached =>
      if m.pc != AtLoop || m.uncached == 0 then s
      else s.(main := m.(uncached := m.uncached - 1, cached := m.cached + 1, current := m.current + 1))
    case MainLoop =>
      if m.pc != AtLoop || m.uncached > 0 then s
      else if m.processes != {} || !m.empty then s.(main := m.(pc := Reaping(0)))
      else Stop(s, if m.parsed >= |c.toparse| then Clean else NotAllParsed)
    case MainReap =>
      if !m.pc.Reaping? then s
      else if m.pc.next < |s.workers| then
        s.(main := m.(pc := Reaping(m.pc.next + 1),
                      processes := if s.workers[m.pc.next].Stopped() then m.processes - {m.pc.next} else m.processes))
      else if m.parsed >= |c.toparse| then Stop(s, Clean)
      else s.(main := m.(pc := AtGet))
    case MainGet =>
      if m.pc != AtGet then s
      else if s.queue == [] then s.(main := m.(pc := AtLoop, empty := true))
      else
        var j := s.queue[0];
        var t := s.(queue := s.queue[1..], consumed := s.consumed + [j]);
        if j in c.failing then Stop(t, RecipeError)
        else t.(main := m.(pc := AtLoop, empty := false, parsed := m.parsed + 1, current := m.current + 1))
    case Interrupt => if m.pc.Stopped? then s else Stop(s, Interrupted)
    case _ => s
  }

  function Step(c: Config, s: State, a: Action): State {
    if a.MainCached? || a.MainLoop? || a.MainReap? || a.MainGet? || a.Interrupt? then MainStep(c, s, a)
    else if a.i < |s.workers| then WorkerStep(s, a.i, a)
    else s
  }

  /** Any interleaving: a disabled action does nothing. */
  function Run(c: Config, s: State, actions: seq<Action>): State
    decreases |actions|
  {
    if actions == [] then s else Run(c, Step(c, s, actions[0]), actions[1..])
  }

  // ---- no job is lost or duplicated ----

  function InHands(ws: seq<Worker>, j: Job): nat {
    if ws == [] then 0 else ws[0].Holds(j) + InHands(ws[1..], j)
  }

  lemma {:induction false} InHandsUpdate(ws: seq<Worker>, i: nat, w: Worker, j: Job)
    requires i < |ws|
    ensures InHands(ws[i := w], j) + ws[i].Holds(j) == InHands(ws, j) + w.Holds(j)
  {
    if i > 0 {
      InHandsUpdate(ws[1..], i - 1, w, j);
      assert ws[i := w][1..] == ws[1..][i - 1 := w];
    } else {
      assert ws[i := w][1..] == ws[1..];
    }
  }

  /** A worker's step moves jobs between its lists, or from its feeder to the queue. */
  lemma MoveKeepsJobs(w: Worker, quit: bool, a: Action, j: Job)
    ensures var (w', out) := Move(w, quit, a); w'.Holds(j) + Count(out, j) == w.Holds(j)
  {
    match a
    case Pop(_) =>
      if w.jobs != [] {
        CountLast(w.jobs, j);
        CountAppend(w.pending, [w.jobs[|w.jobs| - 1]], j);
      }
    case Put(_, _) =>
      if w.pending != [] {
        CountLast(w.pending, j);
        CountAppend(w.feeder, [w.pending[|w.pending| - 1]], j);
      }
    case _ =>
  }

  /** Every job to parse is, as often as it was listed, in a worker's hand, queued, or consumed. */
  ghost predicate Conserved(c: Config, s: State) {
    forall j :: Kept(c, s, j)
  }

  ghost predicate Kept(c: Config, s: State, j: Job) {
    InHands(s.workers, j) + Count(s.queue, j) + Count(s.consumed, j) == Count(c.toparse, j)
  }

  lemma WorkerStepKeeps(c: Config, s: State, i: nat, a: Action, j: Job)
    requires i < |s.workers| && Kept(c, s, j)
    ensures Kept(c, WorkerStep(s, i, a), j)
  {
    var (w, out) := Move(s.workers[i], s.quit, a);
    MoveKeepsJobs(s.workers[i], s.quit, a, j);
    InHandsUpdate(s.workers, i, w, j);
    CountAppend(s.queue, out, j);
  }

  lemma MainStepKeeps(c: Config, s: State, a: Action, j: Job)
    requires Kept(c, s, j)
    ensures Kept(c, MainStep(c, s, a), j)
  {
    if s.queue != [] && a.MainGet? {
      GetKeeps(c, s, j);
    } else {
      MainStepElse(c, s, a);
    }
  }

  lemma GetKeeps(c: Config, s: State, j: Job)
    requires Kept(c, s, j) && s.queue != []
    ensures Kept(c, MainStep(c, s, MainGet), j)
  {
    CountAppend(s.consumed, [s.queue[0]], j);
  }

  lemma MainStepElse(c: Config, s: State, a: Action)
    requires s.queue == [] || !a.MainGet?
    ensures var t := MainStep(c, s, a); t.workers == s.workers && t.queue == s.queue && t.consumed == s.consumed
  {
  }

  lemma StepConserves(c: Config, s: State, a: Action)
    requires Conserved(c, s)
    ensures Conserved(c, Step(c, s, a))
  {
    forall j ensures Kept(c, Step(c, s, a), j) {
      assert Kept(c, s, j);
      if a.MainCached? || a.MainLoop? || a.MainReap? || a.MainGet? || a.Interrupt? {
        MainStepKeeps(c, s, a, j);
      } else if a.i < |s.workers| {
        WorkerStepKeeps(c, s, a.i, a, j);
      }
    }
  }

  lemma {:induction false} InHandsNew(chunks: seq<seq<Job>>, j: Job)
    ensures InHands(NewWorkers(chunks), j) == CountAll(chunks, j)
  {
    if chunks != [] {
      InHandsNew(chunks[1..], j);
      assert NewWorkers(chunks)[1..] == NewWorkers(chunks[1..]);
    }
  }

  lemma InitConserved(c: Config)
    requires IsConfig(c)
    ensures Conserved(c, Init(c))
  {
    forall j ensures Kept(c, Init(c), j) {
      if c.toparse != [] {
        InHandsNew(Chunks(c.toparse, c.processes), j);
        ChunksShareOut(c.toparse, c.processes, j);
      }
    }
  }
}
