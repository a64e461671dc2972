/** The stream codec of BitBake's signature data: each process sends a value in full once and by
    number afterwards; the server keeps one interned object per value. */
module SiggenStream {
  import opened Wrappers

  /** A variable's value or a task's variable list. */
  datatype Value = Text(text: string) | Names(names: set<string>)

  type Entry = (string, Option<Value>)

  /** A dictionary of a recipe, as its items in order; None and {} both count as empty. */
  datatype Deps = NoDeps | Deps(entries: seq<Entry>)

  /** A saved item: nothing, a value with its number, or a number alone. */
  datatype Item = Nothing(dep: string) | Full(dep: string, value: Value, num: nat) | Again(dep: string, num: nat)

  /** The saved form; an empty dictionary is passed on as it is. */
  datatype Wire = Plain(deps: Deps) | Items(items: seq<Item>)

  predicate IsEmpty(d: Deps) {
    d == NoDeps || d.entries == []
  }

  // ---- saving ----

  datatype Saver = Saver(saved: map<Value, nat>, count: nat)

  const NEW_SAVER := Saver(map[], 1)

  function SaveItem(s: Saver, e: Entry): (Item, Saver) {
    match e.1
    case None => (Nothing(e.0), s)
    case Some(v) =>
      if v in s.saved then (Again(e.0, s.saved[v]), s)
      else (Full(e.0, v, s.count), Saver(s.saved[v := s.count], s.count + 1))
  }

  function SaveItems(s: Saver, es: seq<Entry>): (seq<Item>, Saver) {
    if es == [] then ([], s)
    else
      var (items, t) := SaveItems(s, es[..|es| - 1]);
      var (item, u) := SaveItem(t, es[|es| - 1]);
      (items + [item], u)
  }

  function Save(s: Saver, d: Deps): (Wire, Saver) {
    if IsEmpty(d) then (Plain(d), s)
    else var (items, t) := SaveItems(s, d.entries); (Items(items), t)
  }

  // ---- restoring ----

  /** An object of the server process: two are the same iff their identities are. */
  datatype Object = Object(id: nat, value: Value)

  type Restored = (string, Option<Object>)

  datatype RestoredDeps = Unchanged(deps: Deps) | Dict(entries: seq<Restored>)

  /** The interned objects, what each process's numbers stand for, and the next identity. */
  datatype Restorer = Restorer(store: map<Value, Object>, maps: map<nat, map<nat, Object>>, next: nat)

  const NEW_RESTORER := Restorer(map[], map[], 0)

  function MapOf(r: Restorer, pid: nat): map<nat, Object> {
    if pid in r.maps then r.maps[pid] else map[]
  }

  function SetMap(r: Restorer, pid: nat, m: map<nat, Object>): Restorer {
    r.(maps := r.maps[pid := m])
  }

  /** A value that arrives in full is a new object, replaced by the interned one if there is one. */
  function Intern(r: Restorer, v: Value): (Object, Restorer) {
    var arrived := Object(r.next, v);
    if v in r.store then (r.store[v], r.(next := r.next + 1))
    else (arrived, r.(store := r.store[v := arrived], next := r.next + 1))
  }

  /** None for a number that stands for nothing. */
  function RestoreItem(r: Restorer, pid: nat, i: Item): Option<(Restored, Restorer)> {
    match i
    case Nothing(dep) => Some(((dep, None), r))
    case Again(dep, n) =>
      if n in MapOf(r, pid) then Some(((dep, Some(MapOf(r, pid)[n])), r)) else None
    case Full(dep, v, n) =>
      var (o, t) := Intern(r, v);
      Some(((dep, Some(o)), SetMap(t, pid, MapOf(t, pid)[n := o])))
  }

  function RestoreItems(r: Restorer, pid: nat, items: seq<Item>): Option<(seq<Restored>, Restorer)> {
    if items == [] then Some(([], r))
    else
      match RestoreItems(r, pid, items[..|items| - 1])
      case None => None
      case Some((xs, t)) =>
        match RestoreItem(t, pid, items[|items| - 1])
        case None => None
        case Some((x, u)) => Some((xs + [x], u))
  }

  function Restore(r: Restorer, pid: nat, w: Wire): Option<(RestoredDeps, Restorer)> {
    match w
    case Plain(d) => Some((Unchanged(d), r))
    case Items(items) =>
      match RestoreItems(SetMap(r, pid, MapOf(r, pid)), pid, items)
      case None => None
      case Some((xs, t)) => Some((Dict(xs), t))
  }

  // ---- the static class in a parsing process, and in the server ----

  class SavingProcess {
    var saveMap: map<Value, nat>
    var saveCount: nat

    ghost function State(): Saver
      reads this
    {
      Saver(saveMap, saveCount)
    }

    /** reset */
    constructor ()
      ensures State() == NEW_SAVER
    {
      saveMap, saveCount := map[], 1;
    }

    /** _save */
    method SaveDeps(deps: Deps) returns (wire: Wire)
      modifies this
      ensures Save(old(State()), deps) == (wire, State())
    {
      if IsEmpty(deps) {
        return Plain(deps);
      }
      var ret: seq<Item> := [];
      var es := deps.entries;
      for k := 0 to |es|
        invariant SaveItems(old(State()), es[..k]) == (ret, State())
      {
        assert es[..k + 1][..k] == es[..k];
        var (dep, fs) := es[k];
        if fs == None {
          ret := ret + [Nothing(dep)];
        } else if fs.value in saveMap {
          ret := ret + [Again(dep, saveMap[fs.value])];
        } else {
          saveMap := saveMap[fs.value := saveCount];
          ret := ret + [Full(dep, fs.value, saveCount)];
          saveCount := saveCount + 1;
        }
      }
      assert es[..|es|] == es;
      wire := Items(ret);
    }
  }

  class RestoringProcess {
    var store: map<Value, Object>
    var restoreMap: map<nat, map<nat, Object>>
    var next: nat

    ghost function State(): Restorer
      reads this
    {
      Restorer(store, restoreMap, next)
    }

    constructor ()
      ensures State() == NEW_RESTORER
    {
      store, restoreMap, next := map[], map[], 0;
    }

    method RestoreOne(item: Item, pid: nat) returns (ok: bool, entry: Restored)
      requires pid in restoreMap
      modifies this
      ensures pid in restoreMap
      ensures match RestoreItem(old(State()), pid, item)
              case None => !ok
              case Some((x, t)) => ok && entry == x && State() == t
    {
      ok, entry := true, (item.dep, None);
      match item
      case Nothing(_) =>
      case Again(_, n) =>
        ok := n in restoreMap[pid];
        if ok {
          entry := (item.dep, Some(restoreMap[pid][n]));
        }
      case Full(_, v, n) =>
        var fs := Object(next, v);
        next := next + 1;
        if v in store {
          fs := store[v];
        } else {
          store := store[v := fs];
        }
        var m: map<nat, Object> := restoreMap[pid];
        m := m[n := fs];
        restoreMap := restoreMap[pid := m];
        entry := (item.dep, Some(fs));
    }

    /** _restore; `ok` is false for a number that was never given (a KeyError). */
    method RestoreDeps(wire: Wire, pid: nat) returns (ok: bool, deps: RestoredDeps)
      modifies this
      ensures match Restore(old(State()), pid, wire)
              case None => !ok
              case Some((d, t)) => ok && deps == d && State() == t
    {
      if wire.Plain? {
        return true, Unchanged(wire.deps);
      }
      if pid !in restoreMap {
        restoreMap := restoreMap[pid := map[]];
      }
      ghost var r := SetMap(old(State()), pid, MapOf(old(State()), pid));
      assert State() == r;
      var ret: seq<Restored>, items := [], wire.items;
      for k := 0 to |items|
        invariant pid in restoreMap && RestoreItems(r, pid, items[..k]) == Some((ret, State()))
      {
        assert items[..k + 1][..k] == items[..k];
        var entry;
        ok, entry := RestoreOne(items[k], pid);
        if !ok {
          NoRestore(r, pid, items, k + 1);
          return false, Dict([]);
        }
        ret := ret + [entry];
      }
      assert items[..|items|] == items;
      ok, deps := true, Dict(ret);
    }
  }

  lemma {:induction false} NoRestore(r: Restorer, pid: nat, items: seq<Item>, k: nat)
    requires k <= |items| && RestoreItems(r, pid, items[..k]) == None
    ensures RestoreItems(r, pid, items) == None
    decreases |items|
  {
    if k < |items| {
      assert items[..|items| - 1][..k] == items[..k];
      NoRestore(r, pid, items[..|items| - 1], k);
    } else {
      assert items[..k] == items;
    }
  }
}
