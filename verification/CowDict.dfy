/** The operations of a COWDict class on the shared hierarchy of classes. */
module CowDicts {
  import opened Wrappers
  import opened Cow

  class CowHierarchy {
    var levels: seq<Level>
    var objects: seq<seq<int>>

    ghost function State(): Heap
      reads this
    {
      Heap(levels, objects)
    }

    constructor ()
      ensures State() == EMPTY && Inv(State())
    {
      levels, objects := [Level(None, map[], map[])], [];
    }

    /** getattr of a plain name: the nearest class of the chain that has it. */
    method LookUpPlain(l: nat, k: string) returns (r: Option<Bound>)
      requires IsHeap(State()) && l < |levels|
      ensures r == FindPlain(State(), l, k)
    {
      var p: nat := l;
      while k !in levels[p].plain
        invariant p < |levels| && FindPlain(State(), p, k) == FindPlain(State(), l, k)
        decreases p
      {
        if levels[p].parent == None {
          return None;
        }
        p := levels[p].parent.value;
      }
      r := Some(levels[p].plain[k]);
    }

    method LookUpMutable(l: nat, k: string) returns (r: Option<nat>)
      requires IsHeap(State()) && l < |levels|
      ensures r == FindMutable(State(), l, k)
    {
      var p: nat := l;
      while k !in levels[p].mutables
        invariant p < |levels| && FindMutable(State(), p, k) == FindMutable(State(), l, k)
        decreases p
      {
        if levels[p].parent == None {
          return None;
        }
        p := levels[p].parent.value;
      }
      r := Some(levels[p].mutables[k]);
    }

    /** cow: a new, empty class below. */
    method CopyOf(l: nat) returns (child: nat)
      requires Inv(State()) && l < |levels|
      modifies this
      ensures Inv(State()) && State() == Apply(old(State()), Copy(l)) && child == |old(levels)|
    {
      ghost var h := State();
      child := |levels|;
      levels := levels + [Level(Some(l), map[], map[])];
      ApplyInv(h, Copy(l));
    }

    method SetItem(l: nat, k: string, v: int)
      requires Inv(State()) && l < |levels|
      modifies this
      ensures Inv(State()) && State() == Apply(old(State()), SetPlain(l, k, v))
    {
      ghost var h := State();
      levels := levels[l := levels[l].(plain := levels[l].plain[k := Value(v)])];
      ApplyInv(h, SetPlain(l, k, v));
    }

    /** __setitem__ of a mutable value that no other dictionary holds. */
    method SetMutableItem(l: nat, k: string, contents: seq<int>)
      requires Inv(State()) && l < |levels|
      modifies this
      ensures Inv(State()) && State() == Apply(old(State()), SetMutable(l, k, contents))
    {
      ghost var h := State();
      levels := levels[l := levels[l].(mutables := levels[l].mutables[k := |objects|])];
      objects := objects + [contents];
      ApplyInv(h, SetMutable(l, k, contents));
    }

    method DelItem(l: nat, k: string)
      requires Inv(State()) && l < |levels|
      modifies this
      ensures Inv(State()) && State() == Apply(old(State()), Delete(l, k))
    {
      ghost var h := State();
      levels := levels[l := levels[l].(plain := levels[l].plain[k := Marker])];
      ApplyInv(h, Delete(l, k));
    }

    /** __revertitem__; `ok` is false when the class itself binds neither name. */
    method RevertItem(l: nat, k: string) returns (ok: bool)
      requires Inv(State()) && l < |levels|
      modifies this
      ensures Inv(State()) && State() == Apply(old(State()), Revert(l, k))
      ensures ok <==> k in old(levels)[l].plain || k in old(levels)[l].mutables
    {
      ghost var h := State();
      var level := levels[l];
      ok := k in level.plain || k in level.mutables;
      if k in level.plain {
        levels := levels[l := level.(plain := level.plain - {k})];
      } else {
        levels := levels[l := level.(mutables := level.mutables - {k})];
      }
      ApplyInv(h, Revert(l, k));
    }

    /** __getitem__: a read for change leaves a copy of an inherited mutable value at the level,
        a read-only one does not. Missing stands for the KeyError or the default. */
    method GetItem(l: nat, k: string, readonly: bool) returns (r: Reading)
      requires Inv(State()) && l < |levels|
      modifies this
      ensures Inv(State())
      ensures if readonly then r == Read(old(State()), l, k) && State() == old(State())
              else (r, State()) == AfterGet(old(State()), l, k)
    {
      ghost var h := State();
      var plain := LookUpPlain(l, k);
      if plain.Some? {
        return if plain.value == Marker then Missing else Plain(plain.value.v);
      }
      if k in levels[l].mutables {
        return Object(levels[l].mutables[k]);
      }
      var inherited := LookUpMutable(l, k);
      if inherited == None {
        return Missing;
      }
      if readonly {
        return Object(inherited.value);
      }
      GetInv(h, l, k);
      r := Object(|objects|);
      levels := levels[l := levels[l].(mutables := levels[l].mutables[k := |objects|])];
      objects := objects + [objects[inherited.value]];
    }

    /** has_key reads without changing anything. */
    method HasKey(l: nat, k: string) returns (has: bool)
      requires Inv(State()) && l < |levels|
      modifies this
      ensures State() == old(State()) && has == (See(State(), l, k) != Nothing)
    {
      var r := GetItem(l, k, true);
      has := r != Missing;
    }
  }
}
