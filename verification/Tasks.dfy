/** BitBake's task lists: adding and deleting tasks, and the tasks between two. */
module Tasks {
  import opened Sorting

  /** The "deps" flag of each task. */
  type Flags = map<string, seq<string>>

  function DepsOf(flags: Flags, t: string): seq<string> {
    if t in flags then flags[t] else []
  }

  // ---- chains ----

  /** The tasks of a recipe and their dependencies. */
  datatype Recipe = Recipe(tasks: seq<string>, deps: Flags)

  /** `o` is another task that depends on `t`. */
  predicate IsStep(r: Recipe, t: string, o: string) {
    o in r.tasks && o != t && t in DepsOf(r.deps, o)
  }

  /** Each task of a chain depends on the one before, and only the last may be `end`. */
  ghost predicate IsChain(r: Recipe, end: string, p: seq<string>) {
    p != [] && forall i :: 0 <= i < |p| - 1 ==> p[i] != end && IsStep(r, p[i], p[i + 1])
  }

  ghost predicate StartsAt(r: Recipe, end: string, t: string, p: seq<string>) {
    IsChain(r, end, p) && p[0] == t
  }

  ghost predicate ToEnd(r: Recipe, end: string, t: string, p: seq<string>) {
    StartsAt(r, end, t, p) && p[|p| - 1] == end
  }

  /** `x` is on `c` followed by a chain from `t` to the end. */
  ghost predicate Contributes(r: Recipe, end: string, t: string, c: seq<string>, x: string) {
    exists p :: ToEnd(r, end, t, p) && x in c + p
  }

  /** No chain from `t` comes back to itself or to `c`. */
  ghost predicate Simple(r: Recipe, end: string, t: string, c: seq<string>) {
    forall p :: StartsAt(r, end, t, p) ==> NoRepeat(c + p)
  }

  lemma ChainCons(r: Recipe, end: string, t: string, o: string, p: seq<string>)
    requires t != end && IsStep(r, t, o) && StartsAt(r, end, o, p)
    ensures StartsAt(r, end, t, [t] + p)
  {
    var q := [t] + p;
    forall i | 0 <= i < |q| - 1 ensures q[i] != end && IsStep(r, q[i], q[i + 1]) {
      if i > 0 { assert q[i] == p[i - 1] && q[i + 1] == p[i]; }
    }
  }

  lemma ChainTail(r: Recipe, end: string, t: string, p: seq<string>)
    requires StartsAt(r, end, t, p) && |p| > 1
    ensures t != end && IsStep(r, t, p[1]) && StartsAt(r, end, p[1], p[1..])
  {
    var q := p[1..];
    forall i | 0 <= i < |q| - 1 ensures q[i] != end && IsStep(r, q[i], q[i + 1]) {
      assert q[i] == p[i + 1] && q[i + 1] == p[i + 2];
    }
  }

  lemma ContributesStep(r: Recipe, end: string, t: string, c: seq<string>, x: string)
    requires t != end
    ensures Contributes(r, end, t, c, x) <==> exists o :: IsStep(r, t, o) && Contributes(r, end, o, c + [t], x)
  {
    if Contributes(r, end, t, c, x) {
      var p :| ToEnd(r, end, t, p) && x in c + p;
      ChainTail(r, end, t, p);
      assert p == [t] + p[1..];
      assert c + [t] + p[1..] == c + p;
      assert ToEnd(r, end, p[1], p[1..]);
    }
    if exists o :: IsStep(r, t, o) && Contributes(r, end, o, c + [t], x) {
      var o :| IsStep(r, t, o) && Contributes(r, end, o, c + [t], x);
      var p :| ToEnd(r, end, o, p) && x in c + [t] + p;
      ChainCons(r, end, t, o, p);
      assert c + [t] + p == c + ([t] + p);
      assert ToEnd(r, end, t, [t] + p);
    }
  }

  lemma ContributesEnd(r: Recipe, end: string, c: seq<string>, x: string)
    ensures Contributes(r, end, end, c, x) <==> x in c + [end]
  {
    assert ToEnd(r, end, end, [end]);
    if Contributes(r, end, end, c, x) {
      var p :| ToEnd(r, end, end, p) && x in c + p;
      if |p| > 1 { ChainTail(r, end, end, p); }
      assert p == [end];
    }
  }

  lemma SimpleStep(r: Recipe, end: string, t: string, c: seq<string>)
    requires t != end && NoRepeat(c + [t])
    ensures Simple(r, end, t, c) <==> forall o :: IsStep(r, t, o) ==> Simple(r, end, o, c + [t])
  {
    if Simple(r, end, t, c) {
      forall o, p | IsStep(r, t, o) && StartsAt(r, end, o, p) ensures NoRepeat(c + [t] + p) {
        ChainCons(r, end, t, o, p);
        assert c + [t] + p == c + ([t] + p);
      }
    }
    if forall o :: IsStep(r, t, o) ==> Simple(r, end, o, c + [t]) {
      forall p | StartsAt(r, end, t, p) ensures NoRepeat(c + p) {
        assert p == [t] + p[1..];
        if |p| > 1 {
          ChainTail(r, end, t, p);
          assert c + [t] + p[1..] == c + p;
        } else {
          assert p == [t];
        }
      }
    }
  }

  lemma SimpleEnd(r: Recipe, end: string, c: seq<string>)
    requires NoRepeat(c + [end])
    ensures Simple(r, end, end, c)
  {
    forall p | StartsAt(r, end, end, p) ensures NoRepeat(c + p) {
      if |p| > 1 { ChainTail(r, end, end, p); }
      assert p == [end];
    }
  }

  lemma NotSimple(r: Recipe, end: string, t: string, c: seq<string>)
    requires t in c
    ensures !Simple(r, end, t, c)
  {
    assert StartsAt(r, end, t, [t]);
    var i :| 0 <= i < |c| && c[i] == t;
    assert (c + [t])[i] == (c + [t])[|c|];
  }

  // ---- tasksbetween ----

  /** There is a task other than the end; without one nothing is ever listed. */
  predicate HasOther(tasks: seq<string>, end: string) {
    exists o :: o in tasks && o != end
  }

  lemma HasOtherSnoc(q: seq<string>, t: string, end: string)
    ensures HasOther(q + [t], end) <==> HasOther(q, end) || t != end
  {
    assert t in q + [t];
    if HasOther(q, end) {
      var o :| o in q && o != end;
      assert o in q + [t];
    }
  }

  /** The variables tasksbetween shares with its inner function. */
  class ChainFollower {
    const recipe: Recipe
    const end: string
    var outtasks: seq<string>
    var chain: seq<string>

    constructor (r: Recipe, e: string)
      ensures recipe == r && end == e && outtasks == [] && chain == []
    {
      recipe, end, outtasks, chain := r, e, [], [];
    }

    /** The chain is appended to the tasks found, without those already there. */
    method AddChain()
      requires NoRepeat(outtasks)
      modifies this`outtasks
      ensures NoRepeat(outtasks) && forall x :: x in outtasks <==> x in old(outtasks) || x in chain
    {
      for i := 0 to |chain|
        invariant NoRepeat(outtasks) && forall x :: x in outtasks <==> x in old(outtasks) || x in chain[..i]
      {
        assert chain[..i + 1] == chain[..i] + [chain[i]];
        if chain[i] !in outtasks {
          outtasks := outtasks + [chain[i]];
        }
      }
      assert chain[..|chain|] == chain;
    }

    ghost predicate Found(before: seq<string>, t: string, c: seq<string>, x: string)
      reads this
    {
      x in before || (HasOther(recipe.tasks, end) && Contributes(recipe, end, t, c, x))
    }

    /** At the end of a chain, every other task adds the chain. */
    method ReachEnd()
      requires NoRepeat(outtasks)
      modifies this`outtasks
      ensures NoRepeat(outtasks)
      ensures forall x :: x in outtasks <==> x in old(outtasks) || (HasOther(recipe.tasks, end) && x in chain)
    {
      var tasks := recipe.tasks;
      for i := 0 to |tasks|
        invariant NoRepeat(outtasks)
        invariant forall x :: x in outtasks <==> x in old(outtasks) || (HasOther(tasks[..i], end) && x in chain)
      {
        assert tasks[..i + 1] == tasks[..i] + [tasks[i]];
        HasOtherSnoc(tasks[..i], tasks[i], end);
        if tasks[i] != end {
          AddChain();
        }
      }
      assert tasks[..|tasks|] == tasks;
    }

    ghost predicate FoundVia(before: seq<string>, t: string, c: seq<string>, os: seq<string>, x: string)
      reads this
    {
      x in before || (HasOther(recipe.tasks, end) &&
                      exists o :: o in os && IsStep(recipe, t, o) && Contributes(recipe, end, o, c, x))
    }

    /** follow_chain: on success the chain is as before, and the tasks on chains to the end have
        been added; it fails exactly if some chain from `task` comes back to itself. */
    method FollowChain(task: string, ghost universe: set<string>) returns (ok: bool)
      requires NoRepeat(chain) && NoRepeat(outtasks) && task in universe
      requires forall x :: x in recipe.tasks || x in chain ==> x in universe
      modifies this
      decreases universe - (set x | x in chain), 0
      ensures ok <==> Simple(recipe, end, task, old(chain))
      ensures ok ==> chain == old(chain) && NoRepeat(outtasks)
      ensures ok ==> forall x :: x in outtasks <==> Found(old(outtasks), task, old(chain), x)
    {
      ghost var c, before := chain, outtasks;
      if task in chain {
        NotSimple(recipe, end, task, chain);
        return false;
      }
      chain := chain + [task];
      assert task !in (set x | x in c) && (set x | x in chain) == (set x | x in c) + {task};
      if task == end {
        ReachEnd();
        SimpleEnd(recipe, end, c);
        forall x { ContributesEnd(recipe, end, c, x); }
      } else {
        ok := FollowOthers(task, universe);
        SimpleStep(recipe, end, task, c);
        if !ok {
          return;
        }
        forall x ensures x in outtasks <==> Found(before, task, c, x) { ContributesStep(recipe, end, task, c, x); }
      }
      chain := chain[..|chain| - 1];
      ok := true;
    }

    /** The loop of follow_chain over the other tasks, `task` being on the chain and not the end. */
    method FollowOthers(task: string, ghost universe: set<string>) returns (ok: bool)
      requires NoRepeat(chain) && NoRepeat(outtasks) && task != end
      requires forall x :: x in recipe.tasks || x in chain ==> x in universe
      modifies this
      decreases universe - (set x | x in chain), 1
      ensures ok <==> forall o :: IsStep(recipe, task, o) ==> Simple(recipe, end, o, old(chain))
      ensures ok ==> chain == old(chain) && NoRepeat(outtasks)
      ensures ok ==> forall x :: x in outtasks <==> FoundVia(old(outtasks), task, old(chain), recipe.tasks, x)
    {
      var tasks := recipe.tasks;
      ghost var c, before := chain, outtasks;
      for i := 0 to |tasks|
        invariant chain == c && NoRepeat(outtasks)
        invariant forall o :: o in tasks[..i] && IsStep(recipe, task, o) ==> Simple(recipe, end, o, c)
        invariant forall x :: x in outtasks <==> FoundVia(before, task, c, tasks[..i], x)
      {
        var othertask := tasks[i];
        assert tasks[..i + 1] == tasks[..i] + [othertask];
        ghost var found := outtasks;
        if othertask != task && task in DepsOf(recipe.deps, othertask) {
          ok := FollowChain(othertask, universe);
          if !ok {
            assert IsStep(recipe, task, othertask);
            return;
          }
        }
        assert forall x :: FoundVia(before, task, c, tasks[..i + 1], x) <==>
                 FoundVia(before, task, c, tasks[..i], x) ||
                 (HasOther(tasks, end) && IsStep(recipe, task, othertask) && Contributes(recipe, end, othertask, c, x));
      }
      assert tasks[..|tasks|] == tasks;
      ok := true;
    }
  }

  /** tasksbetween: without repetition, the tasks on some dependency chain from the start to the
      end; on any recipe it terminates, and it reports a circular dependency exactly if a chain
      from the start comes back to itself before passing the end. */
  method TasksBetween(r: Recipe, start: string, end: string) returns (ok: bool, outtasks: seq<string>)
    ensures ok <==> Simple(r, end, start, [])
    ensures ok ==> NoRepeat(outtasks)
    ensures ok ==> forall x :: x in outtasks <==>
                     HasOther(r.tasks, end) && exists p :: ToEnd(r, end, start, p) && x in p
  {
    var f := new ChainFollower(r, end);
    ok := f.FollowChain(start, (set x | x in r.tasks) + {start});
    outtasks := f.outtasks;
    if ok {
      forall x ensures Contributes(r, end, start, [], x) <==> exists p :: ToEnd(r, end, start, p) && x in p {
        forall p ensures [] + p == p { NoPrefix(p); }
      }
    }
  }

  lemma NoPrefix(p: seq<string>)
    ensures [] + p == p
  {
  }

  ghost predicate IsCycle(r: Recipe, p: seq<string>) {
    |p| > 1 && p[0] == p[|p| - 1] && forall i :: 0 <= i < |p| - 1 ==> IsStep(r, p[i], p[i + 1])
  }

  lemma RepeatIsCycle(r: Recipe, end: string, p: seq<string>, i: nat, j: nat)
    requires IsChain(r, end, p) && i < j < |p| && p[i] == p[j]
    ensures IsCycle(r, p[i..j + 1])
  {
    var q := p[i..j + 1];
    forall k | 0 <= k < |q| - 1 ensures IsStep(r, q[k], q[k + 1]) {
      assert q[k] == p[i + k] && q[k + 1] == p[i + k + 1];
    }
  }

  /** On an acyclic recipe no chain comes back. */
  lemma AcyclicIsSimple(r: Recipe, end: string, start: string)
    requires forall p :: !IsCycle(r, p)
    ensures Simple(r, end, start, [])
  {
    forall p | StartsAt(r, end, start, p) ensures NoRepeat([] + p) {
      NoPrefix(p);
      AcyclicChain(r, end, p);
    }
  }

  lemma AcyclicChain(r: Recipe, end: string, p: seq<string>)
    requires IsChain(r, end, p) && forall q :: !IsCycle(r, q)
    ensures NoRepeat(p)
  {
    forall i, j | 0 <= i < j < |p| ensures p[i] != p[j] {
      if p[i] == p[j] { RepeatIsCycle(r, end, p, i, j); }
    }
  }

  /** Every task comes behind those it depends on; that it depends on itself makes no difference. */
  ghost predicate IsOrdered(r: Recipe, rank: string -> nat) {
    forall t, d :: t in r.tasks && d in DepsOf(r.deps, t) && d != t ==> rank(d) < rank(t)
  }

  lemma {:induction false} ChainAscends(r: Recipe, rank: string -> nat, end: string, p: seq<string>, i: nat, j: nat)
    requires IsOrdered(r, rank) && IsChain(r, end, p) && i < j < |p|
    ensures rank(p[i]) < rank(p[j])
    decreases j
  {
    assert IsStep(r, p[j - 1], p[j]);
    if i < j - 1 { ChainAscends(r, rank, end, p, i, j - 1); }
  }

  /** Where the dependencies on other tasks can be ordered, no circular dependency is reported. */
  lemma OrderedIsSimple(r: Recipe, rank: string -> nat, end: string, start: string)
    requires IsOrdered(r, rank)
    ensures Simple(r, end, start, [])
  {
    forall p | StartsAt(r, end, start, p) ensures NoRepeat([] + p) {
      NoPrefix(p);
      forall i, j | 0 <= i < j < |p| ensures p[i] != p[j] { ChainAscends(r, rank, end, p, i, j); }
    }
  }
}
