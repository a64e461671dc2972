/** BitBake's multi-process cache: many processes save what they found in files of their own, one
    process merges the files, under a shared/exclusive lock and a lock per file number. */
module SharedCache {
  import opened Wrappers

  /** The tables of a cache. */
  type Tables = seq<map<string, string>>

  // ---- merge_data ----

  /** What is already there stays; only absent keys are added. */
  function Merged(source: Tables, dest: Tables): (r: Tables)
    requires |source| == |dest|
    ensures |r| == |dest|
  {
    seq(|dest|, j requires 0 <= j < |dest| => source[j] + dest[j])
  }

  method MergeTable(source: map<string, string>, dest: map<string, string>) returns (r: map<string, string>)
    ensures r == source + dest
  {
    r := dest;
    var todo := source.Keys;
    while todo != {}
      invariant todo <= source.Keys
      invariant r == (map h | h in source && h !in todo :: source[h]) + dest
      decreases |todo|
    {
      var h :| h in todo;
      if h !in r {
        r := r[h := source[h]];
      }
      todo := todo - {h};
    }
    assert (map h | h in source && h !in todo :: source[h]) == source;
  }

  /** merge_data */
  method MergeData(source: Tables, dest: Tables) returns (r: Tables)
    requires |source| == |dest|
    ensures r == Merged(source, dest)
  {
    r := [];
    for j := 0 to |dest|
      invariant r == Merged(source, dest)[..j]
    {
      var table := MergeTable(source[j], dest[j]);
      r := r + [table];
    }
  }

  // ---- the protocol ----

  datatype Pc =
    | Idle      // outside save_extras
    | Trying    // holds the shared lock, about to try the lock of its number
    | Holding   // holds that lock, about to look for the file
    | Ready     // found no such file
    | Writing   // has opened the file
    | Closing   // has written it

  /** A process in save_extras, its data, and the file number it is at. */
  datatype Saver = Saver(pc: Pc, data: Tables, i: nat)

  /** A file that can be read back, or one left unfinished. */
  datatype File = Whole(data: Tables) | Broken

  datatype State = State(savers: seq<Saver>, readers: set<nat>, writer: bool, locks: map<nat, nat>,
                         files: map<nat, File>, todo: set<nat>, haveData: bool,
                         data: Tables, disk: Option<Tables>)

  datatype Event =
    | Begin(p: nat, pid: nat, data: Tables) | TryLock(p: nat) | Look(p: nat) | Open(p: nat) | Write(p: nat)
    | Release(p: nat) | Kill(p: nat)
    | MergeBegin | MergeFile(f: nat) | MergeEnd

  function Init(n: nat, data: Tables): State {
    State(seq(n, _ => Saver(Idle, [], 0)), {}, false, map[], map[], {}, false, data, None)
  }

  predicate HoldsNumber(s: Saver) {
    s.pc in {Holding, Ready, Writing, Closing}
  }

  function WithSaver(s: State, p: nat, w: Saver): State
    requires p < |s.savers|
  {
    s.(savers := s.savers[p := w])
  }

  /** One step of save_extras in process `p`, or its death. */
  function SaverStep(s: State, p: nat, e: Event): State
    requires p < |s.savers|
  {
    var w := s.savers[p];
    match e
    case Begin(_, pid, data) =>
      if w.pc != Idle || s.writer || |data| != |s.data| then s
      else WithSaver(s, p, Saver(Trying, data, pid)).(readers := s.readers + {p})
    case TryLock(_) =>
      if w.pc != Trying then s
      else if w.i in s.locks then WithSaver(s, p, w.(i := w.i + 1))
      else WithSaver(s, p, w.(pc := Holding)).(locks := s.locks[w.i := p])
    case Look(_) =>
      if w.pc != Holding then s
      else if w.i in s.files then WithSaver(s, p, w.(pc := Trying, i := w.i + 1)).(locks := s.locks - {w.i})
      else WithSaver(s, p, w.(pc := Ready))
    case Open(_) =>
      if w.pc != Ready then s else WithSaver(s, p, w.(pc := Writing)).(files := s.files[w.i := Broken])
    case Write(_) =>
      if w.pc != Writing then s
      else WithSaver(s, p, w.(pc := Closing)).(files := s.files[w.i := Whole(w.data)])
    case Release(_) =>
      if w.pc != Closing then s
      else WithSaver(s, p, w.(pc := Idle)).(locks := s.locks - {w.i}, readers := s.readers - {p})
    case Kill(_) =>
      WithSaver(s, p, w.(pc := Idle)).(locks := if HoldsNumber(w) then s.locks - {w.i} else s.locks,
                                        readers := s.readers - {p})
    case _ => s
  }

  /** One step of save_merge: a file is merged if it can be read, and removed in any case. */
  function MergeStep(s: State, e: Event): State {
    match e
    case MergeBegin =>
      if s.writer || s.readers != {} then s else s.(writer := true, todo := s.files.Keys, haveData := false)
    case MergeFile(f) =>
      if !s.writer || f !in s.todo || f !in s.files then s
      else
        var t := s.(todo := s.todo - {f}, files := s.files - {f});
        if s.files[f] == Broken || |s.files[f].data| != |s.data| then t
        else t.(haveData := true, data := Merged(s.files[f].data, s.data))
    case MergeEnd =>
      if !s.writer || s.todo != {} then s
      else s.(writer := false, disk := if s.haveData then Some(s.data) else s.disk)
    case _ => s
  }

  function Step(s: State, e: Event): State {
    if e.MergeBegin? || e.MergeFile? || e.MergeEnd? then MergeStep(s, e)
    else if e.p < |s.savers| then SaverStep(s, e.p, e)
    else s
  }

  function Run(s: State, events: seq<Event>): State
    decreases |events|
  {
    if events == [] then s else Run(Step(s, events[0]), events[1..])
  }

  // ---- what was given to save, and what of it was saved ----

  /** The data each process was last called with, and that of every save completed, in order. */
  datatype Log = Log(given: map<nat, Tables>, saves: seq<Tables>)

  const NO_LOG := Log(map[], [])

  /** A call that is accepted starts a save; what it was called with is saved when its file is written. */
  function Record(l: Log, s: State, e: Event): Log {
    if e.Begin? && Starts(s, e) then l.(given := l.given[e.p := e.data])
    else if e.Write? && Completes(s, e) && e.p in l.given then l.(saves := l.saves + [l.given[e.p]])
    else l
  }

  predicate Starts(s: State, e: Event)
    requires e.Begin?
  {
    e.p < |s.savers| && s.savers[e.p].pc == Idle && Step(s, e) != s
  }

  predicate Completes(s: State, e: Event)
    requires e.Write?
  {
    e.p < |s.savers| && s.savers[e.p].pc == Writing
  }

  function Logged(l: Log, s: State, events: seq<Event>): Log
    decreases |events|
  {
    if events == [] then l else Logged(Record(l, s, events[0]), Step(s, events[0]), events[1..])
  }

  // ---- what every interleaving keeps ----

  /** The locks are held by those that think they hold them. */
  predicate Locked(s: State) {
    && (forall p :: 0 <= p < |s.savers| && s.savers[p].pc != Idle ==> p in s.readers)
    && (s.writer ==> s.readers == {})
    && (forall p :: 0 <= p < |s.savers| && HoldsNumber(s.savers[p]) ==>
          s.savers[p].i in s.locks && s.locks[s.savers[p].i] == p)
  }

  /** A file is opened only where there is none, and stays unfinished while it is written. */
  predicate Filed(s: State) {
    && (forall p :: 0 <= p < |s.savers| && s.savers[p].pc == Ready ==> s.savers[p].i !in s.files)
    && (forall p :: 0 <= p < |s.savers| && s.savers[p].pc == Writing ==>
          s.savers[p].i in s.files && s.files[s.savers[p].i] == Broken)
    && (s.writer ==> s.todo == s.files.Keys)
    && (forall p :: 0 <= p < |s.savers| && s.savers[p].pc != Idle ==> |s.savers[p].data| == |s.data|)
  }

  predicate KeysIn(d: Tables, e: Tables) {
    |d| == |e| && forall j :: 0 <= j < |d| ==> d[j].Keys <= e[j].Keys
  }

  predicate HasEntry(d: Tables, j: nat, h: string, v: string) {
    j < |d| && h in d[j] && d[j][h] == v
  }

  predicate InFile(d: Tables, files: map<nat, File>) {
    exists i :: i in files && files[i] == Whole(d)
  }

  /** Every completed save is still in a file, or its keys are in the cache. */
  predicate Kept(s: State, saves: seq<Tables>) {
    forall k :: 0 <= k < |saves| ==> InFile(saves[k], s.files) || KeysIn(saves[k], s.data)
  }

  predicate Sized(s: State, saves: seq<Tables>) {
    forall k :: 0 <= k < |saves| ==> |saves[k]| == |s.data|
  }

  /** What is in the files was saved. */
  predicate FromSaves(s: State, saves: seq<Tables>) {
    forall i :: i in s.files && s.files[i].Whole? ==> s.files[i].data in saves
  }

  /** Every entry of the cache was in it at the start, or was given to a completed save. */
  ghost predicate Sourced(s: State, saves: seq<Tables>, start: Tables) {
    forall j, h, v :: HasEntry(s.data, j, h, v) ==> HasEntry(start, j, h, v) || GivenTo(saves, j, h, v)
  }

  predicate GivenTo(saves: seq<Tables>, j: nat, h: string, v: string) {
    exists k :: 0 <= k < |saves| && HasEntry(saves[k], j, h, v)
  }

  /** A process saves what it was called with. */
  predicate Given(s: State, given: map<nat, Tables>) {
    forall p :: 0 <= p < |s.savers| && s.savers[p].pc != Idle ==> p in given && s.savers[p].data == given[p]
  }

  predicate Inv(s: State) {
    Locked(s) && Filed(s)
  }

  /** Something was merged, or written to disk, only if something was saved. */
  predicate Earned(s: State, saves: seq<Tables>) {
    s.haveData || s.disk.Some? ==> saves != []
  }

  ghost predicate InvLog(s: State, l: Log, start: Tables) {
    Given(s, l.given) && Sized(s, l.saves) && Kept(s, l.saves) && FromSaves(s, l.saves) && Sourced(s, l.saves, start)
    && Earned(s, l.saves)
  }

  lemma InitInv(n: nat, data: Tables)
    ensures Inv(Init(n, data))
  {
  }

  lemma TryStepLocked(s: State, p: nat, e: Event)
    requires Inv(s) && p < |s.savers| && (e.TryLock? || e.Look?)
    ensures Locked(SaverStep(s, p, e))
  {
  }

  lemma WriteStepLocked(s: State, p: nat, e: Event)
    requires Inv(s) && p < |s.savers| && (e.Open? || e.Write?)
    ensures Locked(SaverStep(s, p, e))
  {
  }

  lemma EndStepLocked(s: State, p: nat, e: Event)
    requires Inv(s) && p < |s.savers| && (e.Release? || e.Kill?)
    ensures Locked(SaverStep(s, p, e))
  {
  }

  lemma SaverStepLocked(s: State, p: nat, e: Event)
    requires Inv(s) && p < |s.savers|
    ensures Locked(SaverStep(s, p, e))
  {
    if e.TryLock? || e.Look? {
      TryStepLocked(s, p, e);
    } else if e.Open? || e.Write? {
      WriteStepLocked(s, p, e);
    } else if e.Release? || e.Kill? {
      EndStepLocked(s, p, e);
    }
  }

  lemma LookStepFiled(s: State, p: nat, e: Event)
    requires Inv(s) && p < |s.savers| && (e.Begin? || e.TryLock? || e.Look?)
    ensures Filed(SaverStep(s, p, e))
  {
  }

  lemma EndStepFiled(s: State, p: nat, e: Event)
    requires Inv(s) && p < |s.savers| && (e.Release? || e.Kill?)
    ensures Filed(SaverStep(s, p, e))
  {
  }

  lemma OpenStepFiled(s: State, p: nat, e: Event)
    requires Inv(s) && p < |s.savers| && e.Open?
    ensures Filed(SaverStep(s, p, e))
  {
    if s.writer {
      assert s.savers[p].pc == Idle;
    }
  }

  lemma WriteStepFiled(s: State, p: nat, e: Event)
    requires Inv(s) && p < |s.savers| && e.Write?
    ensures Filed(SaverStep(s, p, e))
  {
    if s.writer {
      assert s.savers[p].pc == Idle;
    }
  }

  lemma SaverStepFiled(s: State, p: nat, e: Event)
    requires Inv(s) && p < |s.savers|
    ensures Filed(SaverStep(s, p, e))
  {
    if e.Open? {
      OpenStepFiled(s, p, e);
    } else if e.Write? {
      WriteStepFiled(s, p, e);
    } else if e.Release? || e.Kill? {
      EndStepFiled(s, p, e);
    } else if e.Begin? || e.TryLock? || e.Look? {
      LookStepFiled(s, p, e);
    }
  }

  lemma StillInFile(d: Tables, files: map<nat, File>, i: nat, f: File)
    requires InFile(d, files) && (i in files ==> files[i] == Broken)
    ensures InFile(d, files[i := f])
  {
    var k :| k in files && files[k] == Whole(d);
    assert files[i := f][k] == Whole(d);
  }

  lemma SaverStepGiven(s: State, l: Log, p: nat, e: Event)
    requires Inv(s) && p < |s.savers| && Given(s, l.given) && !(e.MergeBegin? || e.MergeFile? || e.MergeEnd?) && e.p == p
    ensures Given(SaverStep(s, p, e), Record(l, s, e).given)
  {
    if e.Begin? { BeginGiven(s, l, p, e); } else { OtherStepGiven(s, l, p, e); }
  }

  lemma BeginGiven(s: State, l: Log, p: nat, e: Event)
    requires p < |s.savers| && Given(s, l.given) && e.Begin? && e.p == p
    ensures Given(SaverStep(s, p, e), Record(l, s, e).given)
  {
  }

  lemma OtherStepGiven(s: State, l: Log, p: nat, e: Event)
    requires p < |s.savers| && Given(s, l.given) && !e.Begin?
    ensures Given(SaverStep(s, p, e), l.given)
  {
  }

  /** A step that writes no file leaves the files and the cache as they are, but for one that it may leave
      unfinished. */
  lemma OtherStepFiles(s: State, p: nat, e: Event)
    requires Inv(s) && p < |s.savers| && !e.Write?
    ensures var t := SaverStep(s, p, e);
            && t.data == s.data && t.haveData == s.haveData && t.disk == s.disk
            && (t.files == s.files || (s.savers[p].i !in s.files && t.files == s.files[s.savers[p].i := Broken]))
  {
  }

  lemma OtherStepLogged(s: State, l: Log, p: nat, e: Event, start: Tables)
    requires Inv(s) && p < |s.savers| && InvLog(s, l, start) && !e.Write?
    ensures var t := SaverStep(s, p, e);
            Kept(t, l.saves) && Sized(t, l.saves) && FromSaves(t, l.saves) && Sourced(t, l.saves, start) && Earned(t, l.saves)
  {
    var t, i := SaverStep(s, p, e), s.savers[p].i;
    OtherStepFiles(s, p, e);
    if t.files != s.files {
      forall k | 0 <= k < |l.saves| && InFile(l.saves[k], s.files) ensures InFile(l.saves[k], t.files) {
        StillInFile(l.saves[k], s.files, i, Broken);
      }
    }
  }

  lemma WriteStepLogged(s: State, l: Log, p: nat, start: Tables)
    requires Inv(s) && p < |s.savers| && InvLog(s, l, start) && s.savers[p].pc == Writing
    ensures var t, saves := SaverStep(s, p, Write(p)), l.saves + [s.savers[p].data];
            Kept(t, saves) && Sized(t, saves) && FromSaves(t, saves) && Sourced(t, saves, start) && Earned(t, saves)
  {
    var w := s.savers[p];
    var t, saves := SaverStep(s, p, Write(p)), l.saves + [w.data];
    forall k | 0 <= k < |saves| ensures InFile(saves[k], t.files) || KeysIn(saves[k], t.data) {
      if k < |l.saves| {
        if InFile(l.saves[k], s.files) { StillInFile(l.saves[k], s.files, w.i, Whole(w.data)); }
      } else {
        assert t.files[w.i] == Whole(w.data);
      }
    }
    assert saves[|l.saves|] == w.data;
    MoreSaves(s, l.saves, w.data, start);
  }

  lemma MoreSaves(s: State, saves: seq<Tables>, d: Tables, start: Tables)
    requires Sourced(s, saves, start)
    ensures Sourced(s, saves + [d], start)
  {
    forall j, h, v | HasEntry(s.data, j, h, v) && GivenTo(saves, j, h, v) ensures GivenTo(saves + [d], j, h, v) {
      var k :| 0 <= k < |saves| && HasEntry(saves[k], j, h, v);
      assert (saves + [d])[k] == saves[k];
    }
  }

  lemma SaverStepLogged(s: State, l: Log, e: Event, start: Tables)
    requires Inv(s) && InvLog(s, l, start) && !(e.MergeBegin? || e.MergeFile? || e.MergeEnd?) && e.p < |s.savers|
    ensures InvLog(Step(s, e), Record(l, s, e), start)
  {
    SaverStepGiven(s, l, e.p, e);
    if e.Write? && s.savers[e.p].pc == Writing {
      WriteStepLogged(s, l, e.p, start);
    } else if !e.Write? {
      OtherStepLogged(s, l, e.p, e, start);
    }
  }

  /** Merging adds the keys of the file and keeps every entry that was there. */
  lemma MergedKeeps(d: Tables, e: Tables)
    requires |d| == |e|
    ensures KeysIn(d, Merged(d, e)) && KeysIn(e, Merged(d, e)) && Extends(e, Merged(d, e))
  {
  }

  predicate Extends(d: Tables, e: Tables) {
    |d| == |e| && forall j, h :: 0 <= j < |d| && h in d[j] ==> h in e[j] && e[j][h] == d[j][h]
  }

  lemma MergedSourced(d: Tables, e: Tables, saves: seq<Tables>, start: Tables, j: nat, h: string, v: string)
    requires |d| == |e| && d in saves && HasEntry(Merged(d, e), j, h, v)
    ensures HasEntry(e, j, h, v) || GivenTo(saves, j, h, v)
  {
    var k :| 0 <= k < |saves| && saves[k] == d;
    assert HasEntry(d, j, h, v) ==> HasEntry(saves[k], j, h, v);
  }

  lemma MergeFileKept(s: State, f: nat, saves: seq<Tables>)
    requires s.writer && f in s.todo && f in s.files && Kept(s, saves) && Sized(s, saves)
    ensures Kept(MergeStep(s, MergeFile(f)), saves)
  {
    var t := MergeStep(s, MergeFile(f));
    if s.files[f].Whole? && |s.files[f].data| == |s.data| { MergedKeeps(s.files[f].data, s.data); }
    forall k | 0 <= k < |saves| ensures InFile(saves[k], t.files) || KeysIn(saves[k], t.data) {
      if InFile(saves[k], s.files) {
        var i :| i in s.files && s.files[i] == Whole(saves[k]);
        if i != f { assert t.files[i] == Whole(saves[k]); }
      }
    }
  }

  lemma MergeFileSourced(s: State, f: nat, saves: seq<Tables>, start: Tables)
    requires s.writer && f in s.todo && f in s.files && FromSaves(s, saves) && Sourced(s, saves, start)
    ensures Sourced(MergeStep(s, MergeFile(f)), saves, start)
  {
    var t := MergeStep(s, MergeFile(f));
    if t.data != s.data {
      forall j, h, v | HasEntry(t.data, j, h, v) ensures HasEntry(start, j, h, v) || GivenTo(saves, j, h, v) {
        MergedSourced(s.files[f].data, s.data, saves, start, j, h, v);
      }
    }
  }

  lemma MergeStepLogged(s: State, l: Log, e: Event, start: Tables)
    requires Inv(s) && InvLog(s, l, start) && (e.MergeBegin? || e.MergeFile? || e.MergeEnd?)
    ensures InvLog(MergeStep(s, e), l, start)
  {
    if e.MergeFile? && s.writer && e.f in s.todo && e.f in s.files {
      MergeFileKept(s, e.f, l.saves);
      MergeFileSourced(s, e.f, l.saves, start);
    }
  }

  lemma StepInv(s: State, e: Event)
    requires Inv(s)
    ensures Inv(Step(s, e))
  {
    if !(e.MergeBegin? || e.MergeFile? || e.MergeEnd?) && e.p < |s.savers| {
      SaverStepLocked(s, e.p, e);
      SaverStepFiled(s, e.p, e);
    }
  }

  lemma StepLogged(s: State, l: Log, e: Event, start: Tables)
    requires Inv(s) && InvLog(s, l, start)
    ensures InvLog(Step(s, e), Record(l, s, e), start)
  {
    if e.MergeBegin? || e.MergeFile? || e.MergeEnd? {
      MergeStepLogged(s, l, e, start);
    } else if e.p < |s.savers| {
      SaverStepLogged(s, l, e, start);
    }
  }

  lemma {:induction false} RunLogged(s: State, l: Log, events: seq<Event>, start: Tables)
    requires Inv(s) && InvLog(s, l, start)
    ensures InvLog(Run(s, events), Logged(l, s, events), start)
    decreases |events|
  {
    if events != [] {
      StepInv(s, events[0]);
      StepLogged(s, l, events[0], start);
      RunLogged(Step(s, events[0]), Record(l, s, events[0]), events[1..], start);
    }
  }

  lemma {:induction false} RunInv(s: State, events: seq<Event>)
    requires Inv(s)
    ensures Inv(Run(s, events))
    decreases |events|
  {
    if events != [] {
      StepInv(s, events[0]);
      RunInv(Step(s, events[0]), events[1..]);
    }
  }

  // ---- the promises ----

  /** Two processes never have the same file number at once. */
  lemma NoSharedFile(n: nat, data: Tables, events: seq<Event>, p: nat, q: nat)
    requires var s := Run(Init(n, data), events);
             && p < |s.savers| && q < |s.savers| && p != q
             && HoldsNumber(s.savers[p]) && HoldsNumber(s.savers[q])
    ensures var s := Run(Init(n, data), events); s.savers[p].i != s.savers[q].i
  {
    InitInv(n, data);
    RunInv(Init(n, data), events);
  }

  lemma StepOverwritesNone(s: State, e: Event, i: nat)
    requires Inv(s)
    ensures i in s.files && s.files[i].Whole? && e != MergeFile(i) ==> i in Step(s, e).files && Step(s, e).files[i] == s.files[i]
  {
  }

  /** A completed file is left alone until the merging process takes it. */
  lemma NoFileIsOverwritten(n: nat, data: Tables, events: seq<Event>, e: Event, i: nat)
    ensures var s := Run(Init(n, data), events);
            i in s.files && s.files[i].Whole? && e != MergeFile(i) ==>
              i in Step(s, e).files && Step(s, e).files[i] == s.files[i]
  {
    InitInv(n, data);
    RunInv(Init(n, data), events);
    StepOverwritesNone(Run(Init(n, data), events), e, i);
  }

  /** No entry of the merged cache is ever changed or lost. */
  lemma {:induction false} EntriesStay(s: State, events: seq<Event>)
    ensures Extends(s.data, Run(s, events).data)
    decreases |events|
  {
    if events != [] {
      StepExtends(s, events[0]);
      EntriesStay(Step(s, events[0]), events[1..]);
    }
  }

  lemma StepExtends(s: State, e: Event)
    ensures Extends(s.data, Step(s, e).data)
  {
    if e.MergeFile? && e.f in s.files && s.files[e.f].Whole? && |s.files[e.f].data| == |s.data| {
      MergedKeeps(s.files[e.f].data, s.data);
    }
  }

  /** The cache on disk is that of the merging process, unless it never found anything. */
  predicate Saved(s: State, data: Tables) {
    (s.writer && s.haveData) || s.disk == Some(s.data) || s.data == data
  }

  lemma {:induction false} RunSaved(s: State, events: seq<Event>, data: Tables)
    requires Saved(s, data)
    ensures Saved(Run(s, events), data)
    decreases |events|
  {
    if events != [] {
      StepSaved(s, events[0], data);
      RunSaved(Step(s, events[0]), events[1..], data);
    }
  }

  lemma StepSaved(s: State, e: Event, data: Tables)
    requires Saved(s, data)
    ensures Saved(Step(s, e), data)
  {
  }

  /** When a merge ends: for every save completed before it, every key of the data that the process was
      given to save is in the cache, with a value that the cache had at the start or that some completed
      save was given for that key; and the cache is the one on disk unless it is still the one loaded at
      the start. */
  lemma MergeIsComplete(n: nat, data: Tables, events: seq<Event>)
    ensures var s, saves := Run(Init(n, data), events), Logged(NO_LOG, Init(n, data), events).saves;
            var t := Step(s, MergeEnd);
            s.writer && !t.writer ==>
              && (forall k :: 0 <= k < |saves| ==> KeysIn(saves[k], t.data))
              && (forall j, h, v :: HasEntry(t.data, j, h, v) ==> HasEntry(data, j, h, v) || GivenTo(saves, j, h, v))
              && (t.disk == Some(t.data) || t.data == data)
  {
    var s := Run(Init(n, data), events);
    InitInv(n, data);
    RunInv(Init(n, data), events);
    RunLogged(Init(n, data), NO_LOG, events, data);
    RunSaved(Init(n, data), events, data);
    if s.writer && s.todo == {} { NothingInFiles(s, Logged(NO_LOG, Init(n, data), events).saves); }
  }

  lemma NothingInFiles(s: State, saves: seq<Tables>)
    requires s.files.Keys == {} && Kept(s, saves)
    ensures forall k :: 0 <= k < |saves| ==> KeysIn(saves[k], s.data)
  {
  }

  /** Nothing is written to disk, and no entry is added, as long as no save was completed. */
  lemma NothingSavedNothingWritten(n: nat, data: Tables, events: seq<Event>)
    ensures var s := Run(Init(n, data), events);
            Logged(NO_LOG, Init(n, data), events).saves == [] ==>
              s.disk == None && forall j, h, v :: HasEntry(s.data, j, h, v) ==> HasEntry(data, j, h, v)
  {
    InitInv(n, data);
    RunLogged(Init(n, data), NO_LOG, events, data);
  }

  // ---- nothing gets stuck ----

  lemma MergeOneLess(s: State, f: nat)
    requires Inv(s) && s.writer && f in s.todo
    ensures var t := Step(s, MergeFile(f)); Inv(t) && t.writer && t.todo == s.todo - {f}
  {
    StepInv(s, MergeFile(f));
  }

  /** A merge can always be ended: every file is taken, those that cannot be read as well, and none is left. */
  lemma {:induction false} MergeCanEnd(s: State) returns (events: seq<Event>)
    requires Inv(s) && s.writer
    ensures |events| == |s.todo| + 1 && var t := Run(s, events); !t.writer && t.files.Keys == {}
    decreases |s.todo|
  {
    if s.todo == {} {
      events := [MergeEnd];
      assert Run(s, events) == Run(Step(s, MergeEnd), events[1..]);
    } else {
      var f :| f in s.todo;
      MergeOneLess(s, f);
      var rest := MergeCanEnd(Step(s, MergeFile(f)));
      events := [MergeFile(f)] + rest;
    }
  }

  /** No number from `n` on is taken, but for the one that `p` itself holds. */
  predicate IsFreeFrom(s: State, p: nat, n: nat)
    requires p < |s.savers|
  {
    && (forall k :: k in s.files ==> k < n)
    && (forall k :: k in s.locks ==> k < n || (s.savers[p].pc != Trying && k == s.savers[p].i))
  }

  /** The steps of a process that has found a free number. */
  lemma ReadyCanEnd(s: State, p: nat)
    requires Inv(s) && p < |s.savers| && s.savers[p].pc == Ready
    ensures var t := Run(s, [Open(p), Write(p), Release(p)]);
            p < |t.savers| && t.savers[p].pc == Idle && InFile(s.savers[p].data, t.files)
  {
    var t := Step(Step(Step(s, Open(p)), Write(p)), Release(p));
    RunThree(s, Open(p), Write(p), Release(p));
    assert t.files[s.savers[p].i] == Whole(s.savers[p].data);
  }

  lemma RunThree(s: State, a: Event, b: Event, c: Event)
    ensures Run(s, [a, b, c]) == Step(Step(Step(s, a), b), c)
  {
    RunFirst(s, a, [b, c]);
    RunFirst(Step(s, a), b, [c]);
    RunFirst(Step(Step(s, a), b), c, []);
    assert [a] + [b, c] == [a, b, c] && [b] + [c] == [b, c] && [c] + [] == [c];
  }

  lemma RunFirst(s: State, a: Event, more: seq<Event>)
    ensures Run(s, [a] + more) == Run(Step(s, a), more)
  {
    assert ([a] + more)[1..] == more;
  }

  lemma LookGoesOn(s: State, p: nat, n: nat)
    requires Inv(s) && p < |s.savers| && s.savers[p].pc == Holding && IsFreeFrom(s, p, n)
    ensures var t, i := Step(s, Look(p)), s.savers[p].i;
            && |t.savers| == |s.savers| && t.savers[p].data == s.savers[p].data && IsFreeFrom(t, p, n)
            && (t.savers[p].pc == Ready || (t.savers[p].pc == Trying && t.savers[p].i == i + 1 && i < n))
  {
  }

  lemma TryGoesOn(s: State, p: nat, n: nat)
    requires Inv(s) && p < |s.savers| && s.savers[p].pc == Trying && IsFreeFrom(s, p, n)
    ensures var t, i := Step(s, TryLock(p)), s.savers[p].i;
            && |t.savers| == |s.savers| && t.savers[p].data == s.savers[p].data && IsFreeFrom(t, p, n)
            && ((t.savers[p].pc == Holding && t.savers[p].i == i)
                || (t.savers[p].pc == Trying && t.savers[p].i == i + 1 && i < n))
  {
  }

  /** A save can always be completed by the steps of its own process, whatever numbers are taken: what it
      was called with is then in a file. */
  lemma {:induction false} SaveCanEnd(s: State, p: nat, n: nat) returns (events: seq<Event>)
    requires Inv(s) && p < |s.savers| && s.savers[p].pc in {Trying, Holding, Ready} && IsFreeFrom(s, p, n)
    ensures forall e :: e in events ==> !e.MergeBegin? && !e.MergeFile? && !e.MergeEnd? && !e.Kill? && e.p == p
    ensures var t := Run(s, events);
            p < |t.savers| && t.savers[p].pc == Idle && InFile(s.savers[p].data, t.files)
    decreases if s.savers[p].i < n then n - s.savers[p].i else 0,
              match s.savers[p].pc case Trying => 2 case Holding => 1 case _ => 0
  {
    if s.savers[p].pc == Ready {
      ReadyCanEnd(s, p);
      events := [Open(p), Write(p), Release(p)];
    } else if s.savers[p].pc == Holding {
      LookGoesOn(s, p, n);
      StepInv(s, Look(p));
      var rest := SaveCanEnd(Step(s, Look(p)), p, n);
      RunFirst(s, Look(p), rest);
      events := [Look(p)] + rest;
    } else {
      TryGoesOn(s, p, n);
      StepInv(s, TryLock(p));
      var rest := SaveCanEnd(Step(s, TryLock(p)), p, n);
      RunFirst(s, TryLock(p), rest);
      events := [TryLock(p)] + rest;
    }
  }
}
