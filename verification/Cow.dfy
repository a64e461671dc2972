/** BitBake's copy-on-write dictionaries: levels of bindings with a parent each, and mutable values
    that are copied to a level when it first reads them for change. */
module Cow {
  import opened Wrappers

  /** A binding of a plain name; a deleted key is bound to the marker. */
  datatype Bound = Marker | Value(v: int)

  /** One dictionary class: immutable values under their key, mutable ones (as object numbers)
      under the key with the "__mutable__" suffix. */
  datatype Level = Level(parent: Option<nat>, plain: map<string, Bound>, mutables: map<string, nat>)

  /** All dictionaries, parents first, and the contents of the mutable objects. */
  datatype Heap = Heap(levels: seq<Level>, objects: seq<seq<int>>)

  /** What a read gives: nothing, an immutable value, or a mutable object. */
  datatype Reading = Missing | Plain(v: int) | Object(id: nat)

  predicate IsHeap(h: Heap) {
    && (forall l :: 0 <= l < |h.levels| && h.levels[l].parent.Some? ==> h.levels[l].parent.value < l)
    && (forall l, k :: 0 <= l < |h.levels| && k in h.levels[l].mutables ==> h.levels[l].mutables[k] < |h.objects|)
  }

  // ---- lookup ----

  /** getattr(cls, key) */
  function FindPlain(h: Heap, l: nat, k: string): Option<Bound>
    requires IsHeap(h) && l < |h.levels|
    decreases l
  {
    var level := h.levels[l];
    if k in level.plain then Some(level.plain[k])
    else if level.parent.Some? then FindPlain(h, level.parent.value, k)
    else None
  }

  /** getattr(cls, key + MUTABLE) */
  function FindMutable(h: Heap, l: nat, k: string): (r: Option<nat>)
    requires IsHeap(h) && l < |h.levels|
    ensures r.Some? ==> r.value < |h.objects|
    decreases l
  {
    var level := h.levels[l];
    if k in level.mutables then Some(level.mutables[k])
    else if level.parent.Some? then FindMutable(h, level.parent.value, k)
    else None
  }

  function Read(h: Heap, l: nat, k: string): (r: Reading)
    requires IsHeap(h) && l < |h.levels|
    ensures r.Object? ==> r.id < |h.objects|
  {
    match FindPlain(h, l, k)
    case Some(Marker) => Missing
    case Some(Value(v)) => Plain(v)
    case None =>
      match FindMutable(h, l, k)
      case Some(o) => Object(o)
      case None => Missing
  }

  /** The reading of the nearest level with any binding of the key; of two bindings at one level, the
      plain one, whichever was made last. */
  function Nearest(h: Heap, l: nat, k: string): (r: Reading)
    requires IsHeap(h) && l < |h.levels|
    ensures r.Object? ==> r.id < |h.objects|
    decreases l
  {
    var level := h.levels[l];
    if k in level.plain then (if level.plain[k] == Marker then Missing else Plain(level.plain[k].v))
    else if k in level.mutables then Object(level.mutables[k])
    else if level.parent.Some? then Nearest(h, level.parent.value, k)
    else Missing
  }

  /** A mutable binding is hidden by a plain one further up. */
  predicate Hidden(h: Heap, l: nat, k: string)
    requires IsHeap(h) && l < |h.levels|
    decreases l
  {
    var level := h.levels[l];
    if k in level.plain then false
    else if k in level.mutables then level.parent.Some? && FindPlain(h, level.parent.value, k).Some?
    else level.parent.Some? && Hidden(h, level.parent.value, k)
  }

  /** A read gives the nearest binding exactly when that binding is not a mutable one with a plain
      binding further up: plain names are looked up on the whole chain first. */
  lemma {:induction false} ReadIsNearestIff(h: Heap, l: nat, k: string)
    requires IsHeap(h) && l < |h.levels|
    ensures Read(h, l, k) == Nearest(h, l, k) <==> !Hidden(h, l, k)
    decreases l
  {
    var level := h.levels[l];
    if k !in level.plain && k !in level.mutables && level.parent.Some? {
      ReadIsNearestIff(h, level.parent.value, k);
    }
  }

  // ---- operations ----

  datatype Op =
    | Copy(l: nat)
    | SetPlain(l: nat, k: string, v: int)
    | SetMutable(l: nat, k: string, contents: seq<int>)
    | Delete(l: nat, k: string)
    | Revert(l: nat, k: string)
    | Get(l: nat, k: string)
    | Change(l: nat, k: string, contents: seq<int>)

  function WithLevel(h: Heap, l: nat, level: Level): Heap
    requires l < |h.levels|
  {
    h.(levels := h.levels[l := level])
  }

  /** A read for change: an inherited mutable object is copied to the level. */
  function AfterGet(h: Heap, l: nat, k: string): (Reading, Heap)
    requires IsHeap(h) && l < |h.levels|
  {
    var level := h.levels[l];
    match Read(h, l, k)
    case Object(o) =>
      if k in level.mutables then (Object(o), h)
      else
        var copy := |h.objects|;
        (Object(copy), WithLevel(h, l, level.(mutables := level.mutables[k := copy])).(objects := h.objects + [h.objects[o]]))
    case r => (r, h)
  }

  function Apply(h: Heap, op: Op): Heap
    requires IsHeap(h)
  {
    if op.l >= |h.levels| then h
    else
      var level := h.levels[op.l];
      match op
      case Copy(l) => h.(levels := h.levels + [Level(Some(l), map[], map[])])
      case SetPlain(l, k, v) => WithLevel(h, l, level.(plain := level.plain[k := Value(v)]))
      case SetMutable(l, k, contents) =>
        WithLevel(h, l, level.(mutables := level.mutables[k := |h.objects|])).(objects := h.objects + [contents])
      case Delete(l, k) => WithLevel(h, l, level.(plain := level.plain[k := Marker]))
      case Revert(l, k) =>
        if k in level.plain then WithLevel(h, l, level.(plain := level.plain - {k}))
        else WithLevel(h, l, level.(mutables := level.mutables - {k}))
      case Get(l, k) => AfterGet(h, l, k).1
      case Change(l, k, contents) =>
        // in-place change of the object that a read for change gives
        var (r, t) := AfterGet(h, l, k);
        if r.Object? && r.id < |t.objects| then t.(objects := t.objects[r.id := contents]) else t
  }

  // ---- invariants ----

  /** No two bindings share a mutable object. */
  predicate Unshared(h: Heap) {
    forall l, k, m, j ::
      (0 <= l < |h.levels| && 0 <= m < |h.levels| && k in h.levels[l].mutables && j in h.levels[m].mutables
       && h.levels[l].mutables[k] == h.levels[m].mutables[j]) ==> l == m && k == j
  }

  predicate Inv(h: Heap) {
    IsHeap(h) && Unshared(h)
  }

  /** Binding a new object shares nothing. */
  lemma BindNew(h: Heap, l: nat, k: string, contents: seq<int>)
    requires Inv(h) && l < |h.levels|
    ensures Inv(WithLevel(h, l, h.levels[l].(mutables := h.levels[l].mutables[k := |h.objects|]))
                .(objects := h.objects + [contents]))
  {
  }

  lemma GetInv(h: Heap, l: nat, k: string)
    requires Inv(h) && l < |h.levels|
    ensures Inv(AfterGet(h, l, k).1)
    ensures var (r, t) := AfterGet(h, l, k);
            r.Object? ==> r.id < |t.objects| && k in t.levels[l].mutables && t.levels[l].mutables[k] == r.id
  {
    var r := Read(h, l, k);
    if r.Object? { BindNew(h, l, k, h.objects[r.id]); }
  }

  lemma NoNewBinding(h: Heap, t: Heap)
    requires Inv(h) && t.objects == h.objects && |h.levels| <= |t.levels|
    requires forall l :: 0 <= l < |h.levels| ==> t.levels[l].parent == h.levels[l].parent
    requires forall l, k :: 0 <= l < |h.levels| && k in t.levels[l].mutables ==>
               k in h.levels[l].mutables && t.levels[l].mutables[k] == h.levels[l].mutables[k]
    requires forall l :: |h.levels| <= l < |t.levels| ==>
               t.levels[l].mutables == map[] && (t.levels[l].parent.Some? ==> t.levels[l].parent.value < l)
    ensures Inv(t)
  {
  }

  lemma ApplyInv(h: Heap, op: Op)
    requires Inv(h)
    ensures Inv(Apply(h, op))
  {
    if op.l < |h.levels| {
      match op
      case Get(l, k) => GetInv(h, l, k);
      case Change(l, k, _) => GetInv(h, l, k);
      case SetMutable(l, k, contents) => BindNew(h, l, k, contents);
      case Copy(l) => NoNewBinding(h, h.(levels := h.levels + [Level(Some(l), map[], map[])]));
      case SetPlain(l, k, v) => LevelInv(h, l, h.levels[l].(plain := h.levels[l].plain[k := Value(v)]));
      case Delete(l, k) => LevelInv(h, l, h.levels[l].(plain := h.levels[l].plain[k := Marker]));
      case Revert(l, k) => RevertInv(h, l, k);
    }
  }

  lemma RevertInv(h: Heap, l: nat, k: string)
    requires Inv(h) && l < |h.levels|
    ensures Inv(Apply(h, Revert(l, k)))
  {
    var level := h.levels[l];
    LevelInv(h, l, level.(plain := level.plain - {k}));
    LevelInv(h, l, level.(mutables := level.mutables - {k}));
  }

  lemma LevelInv(h: Heap, l: nat, level: Level)
    requires Inv(h) && l < |h.levels| && level.parent == h.levels[l].parent
    requires forall k :: k in level.mutables ==> k in h.levels[l].mutables && level.mutables[k] == h.levels[l].mutables[k]
    ensures Inv(WithLevel(h, l, level))
  {
    NoNewBinding(h, WithLevel(h, l, level));
  }

  // ---- changes stay below the level they are made at ----

  /** `a` is `l` or inherits from it. */
  predicate IsBelow(h: Heap, a: nat, l: nat)
    requires IsHeap(h) && a < |h.levels|
    decreases a
  {
    a == l || (h.levels[a].parent.Some? && IsBelow(h, h.levels[a].parent.value, l))
  }

  datatype Seen = Nothing | Immutable(v: int) | Contents(c: seq<int>)

  /** What a reader of a level sees. */
  function See(h: Heap, l: nat, k: string): Seen
    requires IsHeap(h) && l < |h.levels|
  {
    match Read(h, l, k)
    case Missing => Nothing
    case Plain(v) => Immutable(v)
    case Object(o) => Contents(h.objects[o])
  }

  /** `t` differs from `h` only in level `l`, in new levels, and in objects that only `l` binds. */
  predicate OnlyAt(h: Heap, t: Heap, l: nat)
    requires IsHeap(h)
  {
    && |h.levels| <= |t.levels| && |h.objects| <= |t.objects|
    && (forall a :: 0 <= a < |h.levels| && a != l ==> t.levels[a] == h.levels[a])
    && (forall a, k :: 0 <= a < |h.levels| && a != l && k in h.levels[a].mutables ==>
          t.objects[h.levels[a].mutables[k]] == h.objects[h.levels[a].mutables[k]])
  }

  lemma {:induction false} SameElsewhere(h: Heap, t: Heap, l: nat, a: nat, k: string)
    requires IsHeap(h) && IsHeap(t) && OnlyAt(h, t, l) && a < |h.levels| && !IsBelow(h, a, l)
    ensures FindPlain(t, a, k) == FindPlain(h, a, k) && FindMutable(t, a, k) == FindMutable(h, a, k)
    ensures FindMutable(h, a, k).Some? ==>
              t.objects[FindMutable(h, a, k).value] == h.objects[FindMutable(h, a, k).value]
    decreases a
  {
    if h.levels[a].parent.Some? {
      SameElsewhere(h, t, l, h.levels[a].parent.value, k);
    }
  }

  lemma ApplyOnlyAt(h: Heap, op: Op)
    requires Inv(h) && op.l < |h.levels|
    ensures OnlyAt(h, Apply(h, op), op.l)
  {
    if op.Get? || op.Change? {
      GetInv(h, op.l, op.k);
    }
  }

  /** Whatever is done to a dictionary, in-place changes of the mutable values it handed out
      included, no dictionary sees it but those copied from it. */
  lemma ChangesStayBelow(h: Heap, op: Op, a: nat, k: string)
    requires Inv(h) && op.l < |h.levels| && a < |h.levels| && !IsBelow(h, a, op.l)
    ensures Inv(Apply(h, op)) && a < |Apply(h, op).levels| && See(Apply(h, op), a, k) == See(h, a, k)
  {
    ApplyInv(h, op);
    ApplyOnlyAt(h, op);
    SameElsewhere(h, Apply(h, op), op.l, a, k);
  }

  // ---- reading changes nothing ----

  /** `t` is `h` with an inherited mutable object copied to level `l`. */
  predicate IsCopied(h: Heap, t: Heap, l: nat, k: string)
    requires IsHeap(h) && l < |h.levels|
  {
    var level := h.levels[l];
    && k !in level.mutables && FindMutable(h, l, k).Some?
    && t == WithLevel(h, l, level.(mutables := level.mutables[k := |h.objects|]))
              .(objects := h.objects + [h.objects[FindMutable(h, l, k).value]])
  }

  lemma {:induction false} CopiedSameFind(h: Heap, t: Heap, l: nat, k: string, a: nat, j: string)
    requires IsHeap(h) && IsHeap(t) && l < |h.levels| && a < |h.levels| && IsCopied(h, t, l, k)
    ensures FindPlain(t, a, j) == FindPlain(h, a, j)
    ensures var f, g := FindMutable(h, a, j), FindMutable(t, a, j);
            f.None? == g.None? && (f.Some? ==> t.objects[g.value] == h.objects[f.value])
    decreases a
  {
    if h.levels[a].parent.Some? {
      CopiedSameFind(h, t, l, k, h.levels[a].parent.value, j);
    }
  }

  lemma GetCopies(h: Heap, l: nat, k: string)
    requires Inv(h) && l < |h.levels|
    ensures var t := AfterGet(h, l, k).1; t == h || (FindPlain(h, l, k).None? && IsCopied(h, t, l, k))
  {
  }

  lemma GetSameFind(h: Heap, l: nat, k: string, a: nat, j: string)
    requires Inv(h) && l < |h.levels| && a < |h.levels|
    ensures var t := AfterGet(h, l, k).1;
            && IsHeap(t) && |t.levels| == |h.levels|
            && FindPlain(t, a, j) == FindPlain(h, a, j)
            && (FindPlain(h, l, k).None? ==>
                 var f, g := FindMutable(h, a, j), FindMutable(t, a, j);
                 f.None? == g.None? && (f.Some? ==> t.objects[g.value] == h.objects[f.value]))
            && (FindPlain(h, l, k).Some? ==> t == h)
  {
    var t := AfterGet(h, l, k).1;
    GetInv(h, l, k);
    GetCopies(h, l, k);
    if t != h { CopiedSameFind(h, t, l, k, a, j); }
  }

  /** A read, for change or not, is seen by nobody. */
  lemma GetIsInvisible(h: Heap, l: nat, k: string, a: nat, j: string)
    requires Inv(h) && l < |h.levels| && a < |h.levels|
    ensures var t := AfterGet(h, l, k).1;
            IsHeap(t) && a < |t.levels| && See(t, a, j) == See(h, a, j)
  {
    GetSameFind(h, l, k, a, j);
  }

  // ---- a copy reads as its source ----

  /** A copy sees for every key what the dictionary it was copied from sees. */
  lemma CopySees(h: Heap, l: nat, k: string)
    requires Inv(h) && l < |h.levels|
    ensures var t := Apply(h, Copy(l)); Inv(t) && |t.levels| == |h.levels| + 1 && See(t, |h.levels|, k) == See(h, l, k)
  {
    ApplyInv(h, Copy(l));
    NotBelowChild(h, l, |h.levels|);
    SameElsewhere(h, Apply(h, Copy(l)), |h.levels|, l, k);
  }

  /** Whatever is done after copying, the copy keeps reading what its source then reads, for every key
      that it has no binding of its own for. */
  lemma CopyFollows(h: Heap, l: nat, ops: seq<Op>, k: string)
    requires Inv(h) && l < |h.levels| && Inv(Apply(h, Copy(l)))
    ensures var c, t := |h.levels|, RunOps(Apply(h, Copy(l)), ops);
            && c < |t.levels| && t.levels[c].parent == Some(l)
            && (k !in t.levels[c].plain && k !in t.levels[c].mutables ==> See(t, c, k) == See(t, l, k))
  {
    RunKeepsParent(Apply(h, Copy(l)), ops, |h.levels|);
  }

  lemma {:induction false} RunKeepsParent(h: Heap, ops: seq<Op>, a: nat)
    requires Inv(h) && a < |h.levels|
    ensures var t := RunOps(h, ops); a < |t.levels| && t.levels[a].parent == h.levels[a].parent
    decreases |ops|
  {
    if ops != [] {
      ApplyInv(h, ops[0]);
      ApplyKeepsParent(h, ops[0], a);
      RunKeepsParent(Apply(h, ops[0]), ops[1..], a);
    }
  }

  lemma ApplyKeepsParent(h: Heap, op: Op, a: nat)
    requires Inv(h) && a < |h.levels|
    ensures var t := Apply(h, op); a < |t.levels| && t.levels[a].parent == h.levels[a].parent
  {
  }

  /** So an immutable value set at the source later, or its deletion, is seen in the copy. */
  lemma LaterSetIsReadInCopy(h: Heap, l: nat, ops: seq<Op>, k: string, v: int)
    requires Inv(h) && l < |h.levels| && Inv(Apply(h, Copy(l)))
    requires var c, t := |h.levels|, RunOps(Apply(h, Copy(l)), ops);
             c < |t.levels| && k !in t.levels[c].plain && k !in t.levels[c].mutables
    ensures var c, t := |h.levels|, RunOps(Apply(h, Copy(l)), ops + [SetPlain(l, k, v)]);
            c < |t.levels| && See(t, c, k) == Immutable(v)
    ensures var c, t := |h.levels|, RunOps(Apply(h, Copy(l)), ops + [Delete(l, k)]);
            c < |t.levels| && See(t, c, k) == Nothing
  {
    var t := RunOps(Apply(h, Copy(l)), ops);
    RunKeepsParent(Apply(h, Copy(l)), ops, |h.levels|);
    RunOne(Apply(h, Copy(l)), ops, SetPlain(l, k, v));
    RunOne(Apply(h, Copy(l)), ops, Delete(l, k));
    CopyFollows(h, l, ops + [SetPlain(l, k, v)], k);
    CopyFollows(h, l, ops + [Delete(l, k)], k);
    PlainIsRead(t, l, k, v);
  }

  lemma {:induction false} RunOne(h: Heap, ops: seq<Op>, op: Op)
    requires Inv(h)
    ensures RunOps(h, ops + [op]) == Apply(RunOps(h, ops), op)
    decreases |ops|
  {
    if ops == [] {
      assert ([op])[1..] == [] && ops + [op] == [op];
    } else {
      assert (ops + [op])[1..] == ops[1..] + [op];
      ApplyInv(h, ops[0]);
      RunOne(Apply(h, ops[0]), ops[1..], op);
    }
  }

  /** Reverting takes back a binding just made where there was none of its kind. */
  lemma RevertUndoes(h: Heap, l: nat, k: string, v: int, contents: seq<int>, a: nat, j: string)
    requires Inv(h) && l < |h.levels| && a < |h.levels|
    ensures k !in h.levels[l].plain ==> Apply(Apply(h, SetPlain(l, k, v)), Revert(l, k)) == h
    ensures k !in h.levels[l].plain && k !in h.levels[l].mutables ==>
              var t := Apply(Apply(h, SetMutable(l, k, contents)), Revert(l, k));
              Inv(t) && |t.levels| == |h.levels| && See(t, a, j) == See(h, a, j)
  {
    var level := h.levels[l];
    if k !in level.plain {
      assert level.plain[k := Value(v)] - {k} == level.plain;
      assert h.levels[l := level.(plain := level.plain[k := Value(v)])][l := level] == h.levels;
      if k !in level.mutables { MutableReverted(h, l, k, contents, a, j); }
    }
  }

  lemma MutableReverted(h: Heap, l: nat, k: string, contents: seq<int>, a: nat, j: string)
    requires Inv(h) && l < |h.levels| && a < |h.levels| && k !in h.levels[l].plain && k !in h.levels[l].mutables
    ensures var t := Apply(Apply(h, SetMutable(l, k, contents)), Revert(l, k));
            Inv(t) && |t.levels| == |h.levels| && See(t, a, j) == See(h, a, j)
  {
    var level, u := h.levels[l], Apply(h, SetMutable(l, k, contents));
    var t := Apply(u, Revert(l, k));
    ApplyInv(h, SetMutable(l, k, contents));
    ApplyInv(u, Revert(l, k));
    assert level.mutables[k := |h.objects|] - {k} == level.mutables;
    assert t.levels == h.levels;
    NotBelowChild(h, a, |h.levels|);
    SameElsewhere(h, t, |h.levels|, a, j);
  }

  // ---- what was written is read ----

  /** An immutable value is read as soon as it is set, and a deleted key is gone. */
  lemma PlainIsRead(h: Heap, l: nat, k: string, v: int)
    requires Inv(h) && l < |h.levels|
    ensures var t := Apply(h, SetPlain(l, k, v)); Inv(t) && See(t, l, k) == Immutable(v)
    ensures var t := Apply(h, Delete(l, k)); Inv(t) && See(t, l, k) == Nothing
  {
    ApplyInv(h, SetPlain(l, k, v));
    ApplyInv(h, Delete(l, k));
  }

  lemma {:induction false} SamePlain(h: Heap, t: Heap, l: nat, k: string)
    requires IsHeap(h) && IsHeap(t) && l < |h.levels| <= |t.levels|
    requires forall a :: 0 <= a < |h.levels| ==> t.levels[a].plain == h.levels[a].plain && t.levels[a].parent == h.levels[a].parent
    ensures FindPlain(t, l, k) == FindPlain(h, l, k)
    decreases l
  {
    if h.levels[l].parent.Some? {
      SamePlain(h, t, h.levels[l].parent.value, k);
    }
  }

  /** A mutable value is read after it is set iff no plain binding of the key, a deletion included,
      is there or further up; otherwise the read is as it was before. */
  lemma MutableIsReadIff(h: Heap, l: nat, k: string, contents: seq<int>)
    requires Inv(h) && l < |h.levels|
    ensures var t := Apply(h, SetMutable(l, k, contents));
            && Inv(t)
            && (See(t, l, k) == Contents(contents) <==> FindPlain(h, l, k) == None)
            && (FindPlain(h, l, k) != None ==> See(t, l, k) == See(h, l, k))
  {
    var t := Apply(h, SetMutable(l, k, contents));
    ApplyInv(h, SetMutable(l, k, contents));
    SamePlain(h, t, l, k);
  }

  /** A value changed in place is read changed, iff the key reads as a mutable value at all. */
  lemma ChangeIsReadIff(h: Heap, l: nat, k: string, contents: seq<int>)
    requires Inv(h) && l < |h.levels|
    ensures var t := Apply(h, Change(l, k, contents));
            && Inv(t)
            && (See(t, l, k) == Contents(contents) <==> See(h, l, k).Contents?)
            && (!See(h, l, k).Contents? ==> t == h)
  {
    ApplyInv(h, Change(l, k, contents));
    if See(h, l, k).Contents? {
      ChangedIsRead(h, l, k, contents);
    }
  }

  lemma ChangedIsRead(h: Heap, l: nat, k: string, contents: seq<int>)
    requires Inv(h) && l < |h.levels| && See(h, l, k).Contents?
    ensures var t := Apply(h, Change(l, k, contents)); IsHeap(t) && See(t, l, k) == Contents(contents)
  {
    var t := Apply(h, Change(l, k, contents));
    ApplyInv(h, Change(l, k, contents));
    GetInv(h, l, k);
    SamePlain(h, t, l, k);
  }

  // ---- runs in which no binding is hidden ----

  /** No mutable binding has a plain one of the same key further up. */
  predicate NoneHidden(h: Heap)
    requires IsHeap(h)
  {
    forall l, k :: 0 <= l < |h.levels| && k in h.levels[l].mutables && h.levels[l].parent.Some? ==>
      FindPlain(h, h.levels[l].parent.value, k).None?
  }

  /** A deleted or immutable key is not given a mutable value below, and a key is not deleted or
      given an immutable value above a mutable binding. */
  predicate IsDisciplined(h: Heap, op: Op)
    requires IsHeap(h)
  {
    op.l < |h.levels| ==>
      match op
      case SetMutable(l, k, _) => FindPlain(h, l, k).None?
      case SetPlain(l, k, _) => NoMutableBelow(h, l, k)
      case Delete(l, k) => NoMutableBelow(h, l, k)
      case _ => true
  }

  predicate NoMutableBelow(h: Heap, l: nat, k: string)
    requires IsHeap(h)
  {
    forall a :: 0 <= a < |h.levels| && a != l && IsBelow(h, a, l) ==> k !in h.levels[a].mutables
  }

  /** The only plain binding that `t` may have and `h` has not is that of `k` at `l`. */
  predicate PlainOnlyAt(h: Heap, t: Heap, l: nat, k: string) {
    && |h.levels| <= |t.levels|
    && (forall b :: 0 <= b < |h.levels| ==> t.levels[b].parent == h.levels[b].parent)
    && (forall b, i :: 0 <= b < |h.levels| && i in t.levels[b].plain && i !in h.levels[b].plain ==> b == l && i == k)
  }

  lemma ApplyPlainAt(h: Heap, op: Op)
    requires Inv(h) && op.l < |h.levels|
    ensures if op.SetPlain? || op.Delete? then PlainOnlyAt(h, Apply(h, op), op.l, op.k)
            else PlainOnlyAt(h, Apply(h, op), |h.levels|, "")
  {
  }

  lemma {:induction false} PlainOnlyBelow(h: Heap, t: Heap, l: nat, k: string, a: nat, j: string)
    requires IsHeap(h) && IsHeap(t) && a < |h.levels| <= |t.levels|
    requires PlainOnlyAt(h, t, l, k)
    ensures FindPlain(t, a, j).Some? ==> FindPlain(h, a, j).Some? || (j == k && IsBelow(h, a, l))
    decreases a
  {
    if h.levels[a].parent.Some? {
      PlainOnlyBelow(h, t, l, k, h.levels[a].parent.value, j);
    }
  }

  lemma ApplyNoneHidden(h: Heap, op: Op)
    requires Inv(h) && NoneHidden(h) && IsDisciplined(h, op)
    ensures Inv(Apply(h, op)) && NoneHidden(Apply(h, op))
  {
    ApplyInv(h, op);
    if op.l < |h.levels| {
      var t := Apply(h, op);
      forall l, k | 0 <= l < |t.levels| && k in t.levels[l].mutables && t.levels[l].parent.Some?
        ensures FindPlain(t, t.levels[l].parent.value, k).None?
      {
        StillNotHidden(h, op, l, k);
      }
    }
  }

  lemma StillNotHidden(h: Heap, op: Op, l: nat, k: string)
    requires Inv(h) && NoneHidden(h) && IsDisciplined(h, op) && op.l < |h.levels| && IsHeap(Apply(h, op))
    requires var t := Apply(h, op); l < |t.levels| && k in t.levels[l].mutables && t.levels[l].parent.Some?
    ensures var t := Apply(h, op); FindPlain(t, t.levels[l].parent.value, k).None?
  {
    NewMutable(h, op, l, k);
    ApplyPlainAt(h, op);
    var parent := h.levels[l].parent.value;
    if op.SetPlain? || op.Delete? {
      StillNoPlain(h, Apply(h, op), op.l, op.k, parent, k);
    } else {
      NotBelowChild(h, parent, |h.levels|);
      StillNoPlain(h, Apply(h, op), |h.levels|, "", parent, k);
    }
  }

  lemma StillNoPlain(h: Heap, t: Heap, l: nat, k: string, a: nat, j: string)
    requires IsHeap(h) && IsHeap(t) && a < |h.levels| <= |t.levels| && PlainOnlyAt(h, t, l, k)
    requires FindPlain(h, a, j).None? && (j == k ==> !IsBelow(h, a, l))
    ensures FindPlain(t, a, j).None?
  {
    PlainOnlyBelow(h, t, l, k, a, j);
  }

  /** Where a mutable binding can come from. */
  lemma NewMutable(h: Heap, op: Op, l: nat, k: string)
    requires Inv(h) && NoneHidden(h) && IsDisciplined(h, op) && op.l < |h.levels|
    requires l < |Apply(h, op).levels| && k in Apply(h, op).levels[l].mutables && Apply(h, op).levels[l].parent.Some?
    ensures l < |h.levels| && h.levels[l].parent == Apply(h, op).levels[l].parent
    ensures FindPlain(h, h.levels[l].parent.value, k).None?
    ensures (op.SetPlain? || op.Delete?) && k == op.k ==> !IsBelow(h, h.levels[l].parent.value, op.l)
  {
    if l < |h.levels| && h.levels[l].parent.Some? { NotBelowChild(h, h.levels[l].parent.value, l); }
  }

  lemma {:induction false} NotBelowChild(h: Heap, a: nat, l: nat)
    requires IsHeap(h) && a < |h.levels| && a < l
    ensures !IsBelow(h, a, l)
    decreases a
  {
    if h.levels[a].parent.Some? { NotBelowChild(h, h.levels[a].parent.value, l); }
  }

  lemma {:induction false} NoneHiddenAnywhere(h: Heap, l: nat, k: string)
    requires IsHeap(h) && NoneHidden(h) && l < |h.levels|
    ensures !Hidden(h, l, k)
    decreases l
  {
    if h.levels[l].parent.Some? { NoneHiddenAnywhere(h, h.levels[l].parent.value, k); }
  }

  const EMPTY := Heap([Level(None, map[], map[])], [])

  ghost predicate IsRun(h: Heap, ops: seq<Op>)
    requires Inv(h)
    decreases |ops|
  {
    ops == [] || (IsDisciplined(h, ops[0]) && (ApplyInv(h, ops[0]); IsRun(Apply(h, ops[0]), ops[1..])))
  }

  ghost function RunOps(h: Heap, ops: seq<Op>): (t: Heap)
    requires Inv(h)
    ensures Inv(t)
    decreases |ops|
  {
    if ops == [] then h else (ApplyInv(h, ops[0]); RunOps(Apply(h, ops[0]), ops[1..]))
  }

  lemma {:induction false} RunNoneHidden(h: Heap, ops: seq<Op>)
    requires Inv(h) && NoneHidden(h) && IsRun(h, ops)
    ensures NoneHidden(RunOps(h, ops))
    decreases |ops|
  {
    if ops != [] {
      ApplyNoneHidden(h, ops[0]);
      RunNoneHidden(Apply(h, ops[0]), ops[1..]);
    }
  }

  /** After any disciplined run of copies, sets, deletes, reverts, reads and in-place changes,
      every dictionary reads as the nearest binding on its chain. */
  lemma EveryRunReadsNearest(ops: seq<Op>, l: nat, k: string)
    requires Inv(EMPTY) && IsRun(EMPTY, ops) && l < |RunOps(EMPTY, ops).levels|
    ensures Read(RunOps(EMPTY, ops), l, k) == Nearest(RunOps(EMPTY, ops), l, k)
  {
    var h := RunOps(EMPTY, ops);
    RunNoneHidden(EMPTY, ops);
    NoneHiddenAnywhere(h, l, k);
    ReadIsNearestIff(h, l, k);
  }

  /** The discipline matters: deleting a key in a dictionary also takes it from a copy that holds
      a mutable value of its own, which is still its nearest binding. */
  lemma DeletionTakesOwnValue(h: Heap, l: nat, a: nat, k: string)
    requires Inv(h) && l < |h.levels| && h.levels[l].parent == Some(a)
    requires k in h.levels[l].mutables && k !in h.levels[l].plain
    ensures var t := Apply(h, Delete(a, k));
            Inv(t) && Read(t, l, k) == Missing && Nearest(t, l, k) == Object(h.levels[l].mutables[k])
  {
    ApplyInv(h, Delete(a, k));
    var t := Apply(h, Delete(a, k));
    assert FindPlain(t, a, k) == Some(Marker);
  }
}
