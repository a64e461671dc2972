/** Priorities of BitBake layers: those not given are worked out from the layers depended on. */
module LayerPriorities {
  import opened Wrappers

  /** The given priorities (none or 0 count as not given) and the dependencies of each layer. */
  datatype Layers = Layers(given: map<string, Option<int>>, depends: map<string, seq<string>>, minPrio: int)

  /** A rank that every dependency lowers: the dependencies are acyclic. */
  predicate IsRanked(l: Layers, rank: map<string, nat>) {
    && l.given.Keys == l.depends.Keys == rank.Keys
    && forall c :: c in l.depends ==> forall i :: 0 <= i < |l.depends[c]| ==>
         l.depends[c][i] in rank && rank[l.depends[c][i]] < rank[c]
  }

  predicate IsGiven(p: Option<int>) {
    p.Some? && p.value != 0
  }

  /** One above the highest of `floor` and the dependencies. */
  ghost function Above(l: Layers, rank: map<string, nat>, c: string, n: nat): int
    requires IsRanked(l, rank) && c in l.depends && n <= |l.depends[c]|
    decreases rank[c], n
  {
    if n == 0 then l.minPrio
    else
      var p, q := Above(l, rank, c, n - 1), Priority(l, rank, l.depends[c][n - 1]);
      if q > p then q else p
  }

  /** The priority of a layer, whatever order the layers are taken in. */
  ghost function Priority(l: Layers, rank: map<string, nat>, c: string): int
    requires IsRanked(l, rank) && c in l.depends
    decreases rank[c], |l.depends[c]| + 1
  {
    if IsGiven(l.given[c]) then l.given[c].value else Above(l, rank, c, |l.depends[c]|) + 1
  }

  lemma {:induction false} AboveEach(l: Layers, rank: map<string, nat>, c: string, n: nat, i: nat)
    requires IsRanked(l, rank) && c in l.depends && i < n <= |l.depends[c]|
    ensures Above(l, rank, c, n) >= Priority(l, rank, l.depends[c][i]) && Above(l, rank, c, n) >= l.minPrio
    decreases n
  {
    if i < n - 1 {
      AboveEach(l, rank, c, n - 1, i);
    } else if n > 1 {
      AboveEach(l, rank, c, n - 1, 0);
    }
  }

  /** A layer without a given priority ranks above every layer it depends on. */
  lemma AboveDependencies(l: Layers, rank: map<string, nat>, c: string, i: nat)
    requires IsRanked(l, rank) && c in l.depends && i < |l.depends[c]| && !IsGiven(l.given[c])
    ensures Priority(l, rank, c) > Priority(l, rank, l.depends[c][i]) && Priority(l, rank, c) > l.minPrio
  {
    AboveEach(l, rank, c, |l.depends[c]|, i);
  }

  lemma {:induction false} AboveIsOneOf(l: Layers, rank: map<string, nat>, c: string, n: nat)
    requires IsRanked(l, rank) && c in l.depends && n <= |l.depends[c]|
    ensures Above(l, rank, c, n) == l.minPrio
            || exists i :: 0 <= i < n && Above(l, rank, c, n) == Priority(l, rank, l.depends[c][i])
    decreases n
  {
    if n > 0 {
      AboveIsOneOf(l, rank, c, n - 1);
    }
  }

  predicate IsLargest(m: int, s: set<int>) {
    m in s && forall x :: x in s ==> x <= m
  }

  /** A given priority that is not 0 stays; any other is one more than the largest of the minimum and those of the
      layers depended on. */
  lemma PriorityIs(l: Layers, rank: map<string, nat>, c: string)
    requires IsRanked(l, rank) && c in l.depends
    ensures if l.given[c].Some? && l.given[c].value != 0 then Priority(l, rank, c) == l.given[c].value
            else IsLargest(Priority(l, rank, c) - 1,
                           {l.minPrio} + set i | 0 <= i < |l.depends[c]| :: Priority(l, rank, l.depends[c][i]))
  {
    if !IsGiven(l.given[c]) {
      var n := |l.depends[c]|;
      AboveIsOneOf(l, rank, c, n);
      forall i | 0 <= i < n ensures Priority(l, rank, l.depends[c][i]) <= Above(l, rank, c, n) { AboveEach(l, rank, c, n, i); }
      if n > 0 { AboveEach(l, rank, c, n, 0); }
    }
  }

  class PriorityTable {
    const layers: Layers
    ghost const rank: map<string, nat>
    var priorities: map<string, Option<int>>

    /** An entry is the priority of its layer, or not yet there. */
    ghost predicate Valid()
      reads this
    {
      && IsRanked(layers, rank) && priorities.Keys == layers.given.Keys
      && (forall c :: c in priorities && IsGiven(priorities[c]) ==> priorities[c] == Some(Priority(layers, rank, c)))
      && (forall c :: c in priorities && IsGiven(layers.given[c]) ==> IsGiven(priorities[c]))
    }

    constructor (l: Layers, ghost r: map<string, nat>)
      requires IsRanked(l, r)
      ensures Valid() && layers == l && rank == r && priorities == l.given
    {
      layers, rank, priorities := l, r, l.given;
    }

    ghost predicate Done(d: string)
      reads this
      requires Valid()
    {
      d in priorities && priorities[d] == Some(Priority(layers, rank, d))
    }

    /** calc_layer_priority */
    method CalcLayerPriority(c: string)
      requires Valid() && c in layers.given
      modifies this`priorities
      ensures Valid() && Done(c) && forall d :: old(Done(d)) ==> Done(d)
      decreases rank[c], 1
    {
      if IsGiven(priorities[c]) {
        return;
      }
      var maxDepprio := HighestDependency(c);
      priorities := priorities[c := Some(maxDepprio + 1)];
    }

    method HighestDependency(c: string) returns (maxDepprio: int)
      requires Valid() && c in layers.given
      modifies this`priorities
      ensures Valid() && maxDepprio == Above(layers, rank, c, |layers.depends[c]|) && forall d :: old(Done(d)) ==> Done(d)
      decreases rank[c], 0
    {
      var deps := layers.depends[c];
      maxDepprio := layers.minPrio;
      for i := 0 to |deps|
        invariant Valid() && maxDepprio == Above(layers, rank, c, i) && forall d :: old(Done(d)) ==> Done(d)
      {
        CalcLayerPriority(deps[i]);
        var depprio := priorities[deps[i]].value;
        if depprio > maxDepprio {
          maxDepprio := depprio;
        }
      }
    }

    /** The loop of handleCollections: the result does not depend on the order of the list. */
    method CalcAll(collectionList: seq<string>)
      requires Valid() && forall c :: c in collectionList ==> c in layers.given
      modifies this`priorities
      ensures Valid() && forall c :: c in collectionList ==> Done(c)
    {
      for i := 0 to |collectionList|
        invariant Valid() && forall j :: 0 <= j < i ==> Done(collectionList[j])
      {
        CalcLayerPriority(collectionList[i]);
      }
    }
  }
}
