/** Whatever the interleaving of processes, the server restores what they saved. */
module SiggenFaithful {
  import opened Wrappers
  import opened SiggenStream

  // ---- decoding on values ----

  function Values(m: map<nat, Object>): map<nat, Value> {
    map n | n in m :: m[n].value
  }

  function DecodeItem(m: map<nat, Value>, i: Item): Option<(Entry, map<nat, Value>)> {
    match i
    case Nothing(dep) => Some(((dep, None), m))
    case Again(dep, n) => if n in m then Some(((dep, Some(m[n])), m)) else None
    case Full(dep, v, n) => Some(((dep, Some(v)), m[n := v]))
  }

  function DecodeItems(m: map<nat, Value>, items: seq<Item>): Option<(seq<Entry>, map<nat, Value>)> {
    if items == [] then Some(([], m))
    else
      match DecodeItems(m, items[..|items| - 1])
      case None => None
      case Some((es, m1)) =>
        match DecodeItem(m1, items[|items| - 1])
        case None => None
        case Some((e, m2)) => Some((es + [e], m2))
  }

  function Decode(m: map<nat, Value>, w: Wire): Option<(Deps, map<nat, Value>)> {
    match w
    case Plain(d) => Some((d, m))
    case Items(items) =>
      match DecodeItems(m, items)
      case None => None
      case Some((es, m1)) => Some((Deps(es), m1))
  }

  /** Every number given out stands for its value, and the next one is unused. */
  ghost predicate Sync(s: Saver, m: map<nat, Value>) {
    && (forall v :: v in s.saved ==> s.saved[v] in m && m[s.saved[v]] == v)
    && (forall n :: n in m ==> n < s.count)
  }

  lemma SaveItemDecodes(s: Saver, m: map<nat, Value>, e: Entry)
    requires Sync(s, m)
    ensures var (i, t) := SaveItem(s, e);
            DecodeItem(m, i).Some? && DecodeItem(m, i).value.0 == e && Sync(t, DecodeItem(m, i).value.1)
  {
  }

  lemma {:induction false} SaveItemsDecode(s: Saver, m: map<nat, Value>, es: seq<Entry>)
    requires Sync(s, m)
    ensures var (items, t) := SaveItems(s, es);
            var r := DecodeItems(m, items);
            r.Some? && r.value.0 == es && Sync(t, r.value.1)
    decreases |es|
  {
    if es != [] {
      var es1, e := es[..|es| - 1], es[|es| - 1];
      SaveItemsDecode(s, m, es1);
      var (items1, t) := SaveItems(s, es1);
      SaveItemDecodes(t, DecodeItems(m, items1).value.1, e);
      var items := SaveItems(s, es).0;
      assert items[..|items| - 1] == items1;
      assert es1 + [e] == es;
    }
  }

  lemma SaveDecodes(s: Saver, m: map<nat, Value>, d: Deps)
    requires Sync(s, m)
    ensures var (w, t) := Save(s, d);
            Decode(m, w).Some? && Decode(m, w).value.0 == d && Sync(t, Decode(m, w).value.1)
  {
    if !IsEmpty(d) {
      SaveItemsDecode(s, m, d.entries);
    }
  }

  /** What the server's numbers of a process become as its channel is delivered: each message
      decodes to its original, and at the end they match the sender's. */
  ghost predicate InStep(m: map<nat, Value>, channel: seq<Message>, s: Saver)
    decreases |channel|
  {
    if channel == [] then Sync(s, m)
    else
      match Decode(m, channel[0].wire)
      case None => false
      case Some((d, m1)) => d == channel[0].original && InStep(m1, channel[1..], s)
  }

  lemma {:induction false} InStepSave(m: map<nat, Value>, channel: seq<Message>, s: Saver, d: Deps)
    requires InStep(m, channel, s)
    ensures InStep(m, channel + [Message(d, Save(s, d).0)], Save(s, d).1)
    decreases |channel|
  {
    var longer := channel + [Message(d, Save(s, d).0)];
    if channel == [] {
      SaveDecodes(s, m, d);
      assert longer[1..] == [];
    } else {
      assert longer[0] == channel[0] && longer[1..] == channel[1..] + [Message(d, Save(s, d).0)];
      InStepSave(Decode(m, channel[0].wire).value.1, channel[1..], s, d);
    }
  }

  // ---- restoring is decoding, onto interned objects ----

  /** One object per value, and the numbers stand for interned objects only. */
  ghost predicate Interned(r: Restorer) {
    && (forall v :: v in r.store ==> r.store[v].value == v)
    && (forall pid, n :: pid in r.maps && n in r.maps[pid] ==> IsInterned(r, r.maps[pid][n]))
  }

  predicate IsInterned(r: Restorer, o: Object) {
    o.value in r.store && r.store[o.value] == o
  }

  ghost predicate Grows(r: Restorer, t: Restorer, pid: nat) {
    && (forall v :: v in r.store ==> v in t.store && t.store[v] == r.store[v])
    && (forall q :: q != pid ==> MapOf(t, q) == MapOf(r, q))
  }

  function EntryOf(x: Restored): Entry {
    (x.0, if x.1.Some? then Some(x.1.value.value) else None)
  }

  function EntriesOf(xs: seq<Restored>): (es: seq<Entry>)
    ensures |es| == |xs| && forall k :: 0 <= k < |xs| ==> es[k] == EntryOf(xs[k])
  {
    seq(|xs|, k requires 0 <= k < |xs| => EntryOf(xs[k]))
  }

  ghost predicate AllInterned(r: Restorer, xs: seq<Restored>) {
    forall k :: 0 <= k < |xs| && xs[k].1.Some? ==> IsInterned(r, xs[k].1.value)
  }

  lemma RestoreItemDecodes(r: Restorer, pid: nat, i: Item)
    requires Interned(r) && DecodeItem(Values(MapOf(r, pid)), i).Some?
    ensures RestoreItem(r, pid, i).Some?
    ensures var (e, m) := DecodeItem(Values(MapOf(r, pid)), i).value;
            var (x, t) := RestoreItem(r, pid, i).value;
            EntryOf(x) == e && Values(MapOf(t, pid)) == m && Grows(r, t, pid)
    ensures var (x, t) := RestoreItem(r, pid, i).value;
            Interned(t) && (x.1.Some? ==> IsInterned(t, x.1.value))
  {
    if i.Full? { RestoreFull(r, pid, i.dep, i.value, i.num); }
  }

  lemma RestoreFull(r: Restorer, pid: nat, dep: string, v: Value, n: nat)
    requires Interned(r)
    ensures var m := Values(MapOf(r, pid))[n := v];
            var (x, t) := RestoreItem(r, pid, Full(dep, v, n)).value;
            && EntryOf(x) == (dep, Some(v)) && Values(MapOf(t, pid)) == m && Grows(r, t, pid)
            && Interned(t) && x.1.Some? && IsInterned(t, x.1.value)
  {
    var (o, t) := Intern(r, v);
    InternKeeps(r, v);
    NumberKeeps(t, pid, n, o);
  }

  lemma InternKeeps(r: Restorer, v: Value)
    requires Interned(r)
    ensures var (o, t) := Intern(r, v);
            && o.value == v && IsInterned(t, o) && Interned(t) && t.maps == r.maps
            && forall u :: u in r.store ==> u in t.store && t.store[u] == r.store[u]
  {
  }

  lemma NumberKeeps(r: Restorer, pid: nat, n: nat, o: Object)
    requires Interned(r) && IsInterned(r, o)
    ensures var t := SetMap(r, pid, MapOf(r, pid)[n := o]);
            Interned(t) && Values(MapOf(t, pid)) == Values(MapOf(r, pid))[n := o.value] && t.store == r.store
            && forall q :: q != pid ==> MapOf(t, q) == MapOf(r, q)
  {
  }

  lemma {:induction false} RestoreItemsDecode(r: Restorer, pid: nat, items: seq<Item>)
    requires Interned(r) && DecodeItems(Values(MapOf(r, pid)), items).Some?
    ensures RestoreItems(r, pid, items).Some?
    ensures var (es, m) := DecodeItems(Values(MapOf(r, pid)), items).value;
            var (xs, t) := RestoreItems(r, pid, items).value;
            EntriesOf(xs) == es && Values(MapOf(t, pid)) == m
    ensures var (xs, t) := RestoreItems(r, pid, items).value;
            Grows(r, t, pid) && Interned(t) && AllInterned(t, xs)
    decreases |items|
  {
    if items != [] {
      RestoreItemsDecode(r, pid, items[..|items| - 1]);
      var (xs, t) := RestoreItems(r, pid, items[..|items| - 1]).value;
      RestoreItemDecodes(t, pid, items[|items| - 1]);
    }
  }

  function DepsOf(d: RestoredDeps): Deps {
    match d
    case Unchanged(d) => d
    case Dict(xs) => Deps(EntriesOf(xs))
  }

  function ObjectsOf(d: RestoredDeps): seq<Restored> {
    if d.Dict? then d.entries else []
  }

  lemma RestoreDecodes(r: Restorer, pid: nat, w: Wire)
    requires Interned(r) && Decode(Values(MapOf(r, pid)), w).Some?
    ensures Restore(r, pid, w).Some?
    ensures var (d, m) := Decode(Values(MapOf(r, pid)), w).value;
            var (x, t) := Restore(r, pid, w).value;
            DepsOf(x) == d && Values(MapOf(t, pid)) == m
    ensures var (x, t) := Restore(r, pid, w).value;
            Grows(r, t, pid) && Interned(t) && AllInterned(t, ObjectsOf(x))
  {
    if w.Items? {
      var s := SetMap(r, pid, MapOf(r, pid));
      assert MapOf(s, pid) == MapOf(r, pid);
      RestoreItemsDecode(s, pid, w.items);
    }
  }

  // ---- processes and server ----

  datatype Message = Message(original: Deps, wire: Wire)

  datatype Receipt = Receipt(pid: nat, original: Deps, restored: RestoredDeps)

  /** The saving processes, all they ever sent, what is under way from each, and the server with
      the dictionaries it has restored; `missed` if a number stood for nothing. */
  datatype System = System(savers: seq<Saver>, sent: seq<seq<Item>>, channels: seq<seq<Message>>,
                           server: Restorer, receipts: seq<Receipt>, missed: bool)

  datatype Event = SaveEvent(pid: nat, deps: Deps) | DeliverEvent(pid: nat)

  /** A new stream between `n` processes and the server, all of them reset: the interned objects and
      what was restored before stay. */
  function Restart(r: Restorer, receipts: seq<Receipt>, missed: bool, n: nat): System {
    System(seq(n, _ => NEW_SAVER), seq(n, _ => []), seq(n, _ => []), r.(maps := map[]), receipts, missed)
  }

  predicate IsSystem(s: System) {
    |s.savers| == |s.channels| == |s.sent|
  }

  function ItemsOf(w: Wire): seq<Item> {
    if w.Items? then w.items else []
  }

  function Step(s: System, e: Event): (t: System)
    requires IsSystem(s)
    ensures IsSystem(t)
  {
    if e.pid >= |s.savers| then s
    else
      var p := e.pid;
      match e
      case SaveEvent(_, d) =>
        var (w, t) := Save(s.savers[p], d);
        s.(savers := s.savers[p := t], sent := s.sent[p := s.sent[p] + ItemsOf(w)],
           channels := s.channels[p := s.channels[p] + [Message(d, w)]])
      case DeliverEvent(_) =>
        if s.channels[p] == [] then s
        else
          var m := s.channels[p][0];
          var s1 := s.(channels := s.channels[p := s.channels[p][1..]]);
          match Restore(s.server, p, m.wire)
          case None => s1.(missed := true)
          case Some((x, t)) => s1.(server := t, receipts := s.receipts + [Receipt(p, m.original, x)])
  }

  function Run(s: System, events: seq<Event>): (t: System)
    requires IsSystem(s)
    ensures IsSystem(t)
    decreases |events|
  {
    if events == [] then s else Run(Step(s, events[0]), events[1..])
  }

  /** A received dictionary equals the one sent, and holds interned objects only. */
  ghost predicate Faithful(r: Restorer, x: Receipt) {
    DepsOf(x.restored) == x.original && AllInterned(r, ObjectsOf(x.restored))
  }

  /** No value is sent in full twice, and those sent are known by number. */
  ghost predicate FullOnce(items: seq<Item>, s: Saver) {
    && (forall i :: 0 <= i < |items| && items[i].Full? ==> items[i].value in s.saved)
    && (forall i, j :: 0 <= i < j < |items| && items[i].Full? && items[j].Full? ==> items[i].value != items[j].value)
  }

  ghost predicate Inv(s: System) {
    && IsSystem(s) && !s.missed && Interned(s.server)
    && (forall p :: 0 <= p < |s.savers| ==> InStep(Values(MapOf(s.server, p)), s.channels[p], s.savers[p]))
    && (forall p :: 0 <= p < |s.savers| ==> FullOnce(s.sent[p], s.savers[p]))
    && (forall k :: 0 <= k < |s.receipts| ==> Faithful(s.server, s.receipts[k]))
  }

  lemma {:induction false} SaveItemsOnce(s: Saver, before: seq<Item>, es: seq<Entry>)
    requires FullOnce(before, s)
    ensures FullOnce(before + SaveItems(s, es).0, SaveItems(s, es).1)
    decreases |es|
  {
    if es == [] {
      assert before + [] == before;
    } else {
      SaveItemsOnce(s, before, es[..|es| - 1]);
      var (items, t) := SaveItems(s, es[..|es| - 1]);
      var (item, u) := SaveItem(t, es[|es| - 1]);
      assert before + (items + [item]) == (before + items) + [item];
    }
  }

  lemma SaveOnce(s: Saver, before: seq<Item>, d: Deps)
    requires FullOnce(before, s)
    ensures FullOnce(before + ItemsOf(Save(s, d).0), Save(s, d).1)
  {
    if IsEmpty(d) {
      assert before + [] == before;
    } else {
      SaveItemsOnce(s, before, d.entries);
    }
  }

  lemma SaveKeepsInv(s: System, p: nat, d: Deps)
    requires Inv(s) && p < |s.savers|
    ensures Inv(Step(s, SaveEvent(p, d)))
  {
    InStepSave(Values(MapOf(s.server, p)), s.channels[p], s.savers[p], d);
    SaveOnce(s.savers[p], s.sent[p], d);
  }

  lemma StillFaithful(r: Restorer, t: Restorer, pid: nat, x: Receipt)
    requires Faithful(r, x) && Grows(r, t, pid)
    ensures Faithful(t, x)
  {
  }

  lemma DeliverKeepsInv(s: System, p: nat)
    requires Inv(s) && p < |s.savers| && s.channels[p] != []
    ensures Inv(Step(s, DeliverEvent(p)))
  {
    var m, t := s.channels[p][0], Step(s, DeliverEvent(p));
    RestoreDecodes(s.server, p, m.wire);
    forall k | 0 <= k < |s.receipts| ensures Faithful(t.server, s.receipts[k]) {
      StillFaithful(s.server, t.server, p, s.receipts[k]);
    }
  }

  lemma {:induction false} RunKeepsInv(s: System, events: seq<Event>)
    requires Inv(s)
    ensures Inv(Run(s, events))
    decreases |events|
  {
    if events != [] {
      var e := events[0];
      if e.pid < |s.savers| {
        match e
        case SaveEvent(p, d) => SaveKeepsInv(s, p, d);
        case DeliverEvent(p) => if s.channels[p] != [] { DeliverKeepsInv(s, p); }
      }
      RunKeepsInv(Step(s, e), events[1..]);
    }
  }

  lemma {:induction false} RunKeepsCount(s: System, events: seq<Event>)
    requires IsSystem(s)
    ensures |Run(s, events).savers| == |s.savers|
    decreases |events|
  {
    if events != [] { RunKeepsCount(Step(s, events[0]), events[1..]); }
  }

  /** One stream: its number of processes, and what happens. */
  datatype Stream = Stream(processes: nat, events: seq<Event>)

  /** Stream after stream, each from a reset on; what is under way at a reset is lost. */
  function RunStreams(s: System, streams: seq<Stream>): (t: System)
    requires IsSystem(s)
    ensures IsSystem(t)
    decreases |streams|
  {
    if streams == [] then s
    else
      RunStreams(Run(Restart(s.server, s.receipts, s.missed, streams[0].processes), streams[0].events), streams[1..])
  }

  lemma RestartKeepsInv(s: System, n: nat)
    requires Inv(s)
    ensures Inv(Restart(s.server, s.receipts, s.missed, n))
  {
    var t := Restart(s.server, s.receipts, s.missed, n);
    forall k | 0 <= k < |s.receipts| ensures Faithful(t.server, s.receipts[k]) {
      assert Faithful(s.server, s.receipts[k]);
    }
  }

  lemma {:induction false} RunStreamsKeepsInv(s: System, streams: seq<Stream>)
    requires Inv(s)
    ensures Inv(RunStreams(s, streams))
    ensures streams != [] ==> |RunStreams(s, streams).savers| == streams[|streams| - 1].processes
    decreases |streams|
  {
    if streams != [] {
      var t := Restart(s.server, s.receipts, s.missed, streams[0].processes);
      RestartKeepsInv(s, streams[0].processes);
      RunKeepsInv(t, streams[0].events);
      RunKeepsCount(t, streams[0].events);
      RunStreamsKeepsInv(Run(t, streams[0].events), streams[1..]);
    }
  }

  /** The server before its first stream, with the objects it has interned by then. */
  function Before(r: Restorer): System {
    Restart(r, [], false, 0)
  }

  /** In every sequence of streams, each in any interleaving that keeps each process's order from its
      reset on: no number is ever missed, every dictionary comes back equal, and no value is sent in
      full twice by a process in a stream. */
  lemma EveryRunIsFaithful(r: Restorer, streams: seq<Stream>)
    requires Interned(r) && streams != []
    ensures var s := RunStreams(Before(r), streams);
            && !s.missed && |s.savers| == streams[|streams| - 1].processes
            && (forall k :: 0 <= k < |s.receipts| ==> DepsOf(s.receipts[k].restored) == s.receipts[k].original)
            && (forall p :: 0 <= p < |s.savers| ==> FullOnce(s.sent[p], s.savers[p]))
  {
    assert Inv(Before(r));
    RunStreamsKeepsInv(Before(r), streams);
  }

  /** Equal values restored anywhere, from any process, in any of the streams, are one object. */
  lemma EqualValuesAreOneObject(r: Restorer, streams: seq<Stream>, k: nat, i: nat, l: nat, j: nat)
    requires Interned(r)
    requires var s := RunStreams(Before(r), streams);
             && k < |s.receipts| && i < |ObjectsOf(s.receipts[k].restored)|
             && l < |s.receipts| && j < |ObjectsOf(s.receipts[l].restored)|
    ensures var s := RunStreams(Before(r), streams);
            var x, y := ObjectsOf(s.receipts[k].restored)[i].1, ObjectsOf(s.receipts[l].restored)[j].1;
            x.Some? && y.Some? && x.value.value == y.value.value ==> x.value.id == y.value.id
  {
    assert Inv(Before(r));
    RunStreamsKeepsInv(Before(r), streams);
    var s := RunStreams(Before(r), streams);
    assert Faithful(s.server, s.receipts[k]) && Faithful(s.server, s.receipts[l]);
  }
}
