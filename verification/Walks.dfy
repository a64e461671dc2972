/** Walks in a dependency graph, and sets closed under it. */
module Walks {

  /** The names each name depends on directly. */
  type Graph = map<string, set<string>>

  predicate IsClosed(g: Graph) {
    forall k :: k in g ==> g[k] <= g.Keys
  }

  ghost predicate IsWalk(g: Graph, p: seq<string>) {
    |p| >= 2 && forall i :: 0 <= i < |p| - 1 ==> p[i] in g && p[i + 1] in g[p[i]]
  }

  /** `b` is reached from `a` over one or more edges. */
  ghost predicate Reaches(g: Graph, a: string, b: string) {
    exists p :: IsWalk(g, p) && p[0] == a && p[|p| - 1] == b
  }

  lemma EdgeReaches(g: Graph, a: string, b: string)
    requires a in g && b in g[a]
    ensures Reaches(g, a, b)
  {
    assert IsWalk(g, [a, b]);
  }

  lemma ReachesOn(g: Graph, a: string, b: string, c: string)
    requires Reaches(g, a, b) && b in g && c in g[b]
    ensures Reaches(g, a, c)
  {
    var p :| IsWalk(g, p) && p[0] == a && p[|p| - 1] == b;
    assert IsWalk(g, p + [c]);
  }

  /** What holds of the direct dependencies and is kept by every edge holds of all reached. */
  lemma {:induction false} WalkStaysIn(g: Graph, p: seq<string>, s: set<string>)
    requires IsWalk(g, p) && g[p[0]] <= s && forall k :: k in s && k in g ==> g[k] <= s
    ensures p[|p| - 1] in s
    decreases |p|
  {
    if |p| > 2 {
      WalkStaysIn(g, p[1..], s);
    }
  }

  lemma ReachedIsIn(g: Graph, a: string, s: set<string>)
    requires a in g && g[a] <= s && forall k :: k in s && k in g ==> g[k] <= s
    ensures forall b :: Reaches(g, a, b) ==> b in s
  {
    forall b | Reaches(g, a, b) ensures b in s {
      var p :| IsWalk(g, p) && p[0] == a && p[|p| - 1] == b;
      WalkStaysIn(g, p, s);
    }
  }

  /** Two graphs that agree on a name and on all it reaches reach the same from it. */
  lemma {:induction false} WalkCarriesOver(g: Graph, h: Graph, a: string, p: seq<string>)
    requires a in g && a in h && g[a] == h[a]
    requires forall k :: Reaches(g, a, k) ==> (k in g <==> k in h) && (k in g ==> g[k] == h[k])
    requires IsWalk(h, p) && p[0] == a
    ensures Reaches(g, a, p[|p| - 1])
    decreases |p|
  {
    var n := |p|;
    assert p[n - 2] in h && p[n - 1] in h[p[n - 2]];
    if n == 2 {
      EdgeReaches(g, a, p[1]);
    } else {
      WalkCarriesOver(g, h, a, p[..n - 1]);
      ReachesOn(g, a, p[n - 2], p[n - 1]);
    }
  }

  lemma {:induction false} WalkCarriesOn(g: Graph, h: Graph, a: string, p: seq<string>)
    requires a in g && a in h && g[a] == h[a]
    requires forall k :: Reaches(g, a, k) ==> (k in g <==> k in h) && (k in g ==> g[k] == h[k])
    requires IsWalk(g, p) && p[0] == a
    ensures IsWalk(h, p)
  {
    forall i | 0 <= i < |p| - 1 ensures p[i] in h && p[i + 1] in h[p[i]] {
      assert p[i] in g && p[i + 1] in g[p[i]];
      if i > 0 {
        assert IsWalk(g, p[..i + 1]);
        assert Reaches(g, a, p[i]);
      }
    }
  }

  lemma ReachIsLocal(g: Graph, h: Graph, a: string)
    requires a in g && a in h && g[a] == h[a]
    requires forall k :: Reaches(g, a, k) ==> (k in g <==> k in h) && (k in g ==> g[k] == h[k])
    ensures forall b :: Reaches(g, a, b) <==> Reaches(h, a, b)
  {
    forall b ensures Reaches(g, a, b) <==> Reaches(h, a, b) {
      if Reaches(g, a, b) {
        var p :| IsWalk(g, p) && p[0] == a && p[|p| - 1] == b;
        WalkCarriesOn(g, h, a, p);
      }
      if Reaches(h, a, b) {
        var p :| IsWalk(h, p) && p[0] == a && p[|p| - 1] == b;
        WalkCarriesOver(g, h, a, p);
      }
    }
  }

  // ---- worklists ----

  /** Where a worklist from `start` stands: the handled names are closed up to the waiting ones,
      and all of them are reached. */
  ghost predicate Progress(g: Graph, start: string, seen: set<string>, waiting: set<string>) {
    && start in g && g[start] <= seen + waiting && seen !! waiting
    && (forall k :: k in seen && k in g ==> g[k] <= seen + waiting)
    && (forall k :: k in seen + waiting ==> Reaches(g, start, k))
  }

  /** The direct dependencies of `names` together. */
  ghost predicate IsUnion(g: Graph, names: set<string>, u: set<string>) {
    && (forall k :: k in names && k in g ==> g[k] <= u)
    && (forall x :: x in u ==> exists k :: k in names && k in g && x in g[k])
  }

  lemma ProgressStarts(g: Graph, start: string)
    requires start in g
    ensures Progress(g, start, {}, g[start])
  {
    forall k | k in g[start] ensures Reaches(g, start, k) { EdgeReaches(g, start, k); }
  }

  /** The waiting names are handled; of what they need, only what is not new may be missing. */
  lemma ProgressStep(g: Graph, start: string, seen: set<string>, waiting: set<string>, v: set<string>, u: set<string>)
    requires Progress(g, start, seen, waiting) && IsUnion(g, waiting, v) && u <= v <= u + seen + waiting
    ensures Progress(g, start, seen + waiting, u - (seen + waiting))
  {
    forall x | x in v ensures Reaches(g, start, x) {
      var k :| k in waiting && k in g && x in g[k];
      ReachesOn(g, start, k, x);
    }
  }

  lemma ProgressDone(g: Graph, start: string, seen: set<string>)
    requires Progress(g, start, seen, {})
    ensures forall v :: v in seen <==> Reaches(g, start, v)
  {
    ReachedIsIn(g, start, seen);
  }
}
