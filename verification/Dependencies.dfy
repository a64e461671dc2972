/** BitBake's variable dependencies: the worklists of generate_dependencies and
    generate_dependency_hash, and what goes into a task's hash. */
module Dependencies {
  import opened Wrappers
  import opened Walks
  import opened Sorting

  /** The text of each variable, where it has one. */
  type Texts = map<string, Option<string>>

  /** Everything a task needs: itself, and what the tasks reach. */
  ghost predicate IsNeeded(g: Graph, tasklist: seq<string>, k: string) {
    k in tasklist || exists t :: t in tasklist && Reaches(g, t, k)
  }

  // ---- generate_dependencies ----

  /** What is recorded is what was built, for names that are needed. */
  ghost predicate IsPart(g: Graph, texts: Texts, deps: Graph, values: Texts, tasklist: seq<string>) {
    && deps.Keys == values.Keys
    && forall k :: k in deps ==> k in g && k in texts && deps[k] == g[k] && values[k] == texts[k] && IsNeeded(g, tasklist, k)
  }

  /** The first `n` tasks and what they reach have been recorded. */
  ghost predicate Covers(g: Graph, deps: Graph, tasklist: seq<string>, n: nat)
    requires n <= |tasklist|
  {
    forall j, k :: 0 <= j < n && (k == tasklist[j] || Reaches(g, tasklist[j], k)) ==> k in deps
  }

  lemma CoversStep(g: Graph, before: Graph, deps: Graph, tasklist: seq<string>, n: nat)
    requires n < |tasklist| && Covers(g, before, tasklist, n) && before.Keys <= deps.Keys
    requires tasklist[n] in deps && forall k :: Reaches(g, tasklist[n], k) ==> k in deps
    ensures Covers(g, deps, tasklist, n + 1)
  {
  }

  lemma CoversAll(g: Graph, deps: Graph, tasklist: seq<string>)
    requires Covers(g, deps, tasklist, |tasklist|)
    ensures forall k :: IsNeeded(g, tasklist, k) ==> k in deps
  {
  }

  lemma PartStep(g: Graph, texts: Texts, deps: Graph, values: Texts, tasklist: seq<string>, k: string)
    requires IsPart(g, texts, deps, values, tasklist) && k in g && k in texts && IsNeeded(g, tasklist, k)
    ensures IsPart(g, texts, deps[k := g[k]], values[k := texts[k]], tasklist)
  {
  }

  /** generate_dependencies; `g` and `texts` are what build_dependencies gives for each name. The
      recorded graph has exactly the tasks and what they reach, so it is closed. */
  method GenerateDependencies(g: Graph, texts: Texts, tasklist: seq<string>) returns (deps: Graph, values: Texts)
    requires IsClosed(g) && texts.Keys == g.Keys && forall t :: t in tasklist ==> t in g
    ensures deps.Keys == values.Keys
    ensures forall k :: k in deps <==> IsNeeded(g, tasklist, k)
    ensures forall k :: k in deps ==> k in g && deps[k] == g[k] && values[k] == texts[k]
    ensures IsClosed(deps)
  {
    deps, values := map[], map[];
    for i := 0 to |tasklist|
      invariant IsPart(g, texts, deps, values, tasklist)
      invariant Covers(g, deps, tasklist, i)
    {
      var task := tasklist[i];
      ghost var before := deps;
      PartStep(g, texts, deps, values, tasklist, task);
      deps, values := deps[task := g[task]], values[task := texts[task]];
      deps, values := AddReached(g, texts, tasklist, task, deps, values);
      CoversStep(g, before, deps, tasklist, i);
    }
    CoversAll(g, deps, tasklist);
    NeededIsClosed(g, tasklist);
  }

  lemma NeededIsClosed(g: Graph, tasklist: seq<string>)
    ensures forall k, x :: k in g && IsNeeded(g, tasklist, k) && x in g[k] ==> IsNeeded(g, tasklist, x)
  {
    forall k, x | k in g && IsNeeded(g, tasklist, k) && x in g[k] ensures IsNeeded(g, tasklist, x) {
      if k in tasklist {
        EdgeReaches(g, k, x);
      } else {
        var t :| t in tasklist && Reaches(g, t, k);
        ReachesOn(g, t, k, x);
      }
    }
  }

  method AddReached(g: Graph, texts: Texts, ghost tasklist: seq<string>, task: string, deps0: Graph, values0: Texts)
    returns (deps: Graph, values: Texts)
    requires IsClosed(g) && texts.Keys == g.Keys
    requires task in tasklist && task in deps0 && IsPart(g, texts, deps0, values0, tasklist)
    ensures IsPart(g, texts, deps, values, tasklist)
    ensures deps0.Keys <= deps.Keys && forall k :: Reaches(g, task, k) ==> k in deps
  {
    deps, values := deps0, values0;
    var newdeps, seen := deps[task], {};
    ProgressStarts(g, task);
    while newdeps != {}
      invariant IsPart(g, texts, deps, values, tasklist) && deps0.Keys <= deps.Keys
      invariant Progress(g, task, seen, newdeps) && seen <= deps.Keys
      decreases g.Keys - seen
    {
      var nextdeps := newdeps;
      ghost var before := seen;
      seen := seen + nextdeps;
      InGraph(g, task, nextdeps);
      deps, values, newdeps := AddAll(g, texts, tasklist, task, nextdeps, deps, values);
      ProgressStep(g, task, before, nextdeps, newdeps, newdeps);
      newdeps := newdeps - seen;
    }
    ProgressDone(g, task, seen);
  }

  lemma InGraph(g: Graph, task: string, names: set<string>)
    requires IsClosed(g) && forall k :: k in names ==> Reaches(g, task, k)
    ensures names <= g.Keys
  {
    forall k | k in names ensures k in g {
      var p :| IsWalk(g, p) && p[0] == task && p[|p| - 1] == k;
      assert p[|p| - 2] in g && p[|p| - 1] in g[p[|p| - 2]];
    }
  }

  method AddAll(g: Graph, texts: Texts, ghost tasklist: seq<string>, ghost task: string, nextdeps: set<string>,
                deps0: Graph, values0: Texts)
    returns (deps: Graph, values: Texts, newdeps: set<string>)
    requires texts.Keys == g.Keys && nextdeps <= g.Keys && task in tasklist
    requires forall k :: k in nextdeps ==> Reaches(g, task, k)
    requires IsPart(g, texts, deps0, values0, tasklist)
    ensures IsPart(g, texts, deps, values, tasklist)
    ensures deps0.Keys + nextdeps <= deps.Keys && IsUnion(g, nextdeps, newdeps)
  {
    deps, values, newdeps := deps0, values0, {};
    var todo := nextdeps;
    while todo != {}
      invariant todo <= nextdeps && IsPart(g, texts, deps, values, tasklist)
      invariant deps0.Keys + (nextdeps - todo) <= deps.Keys && IsUnion(g, nextdeps - todo, newdeps)
      decreases |todo|
    {
      var dep :| dep in todo;
      if dep !in deps {
        deps, values := deps[dep := g[dep]], values[dep := texts[dep]];
      }
      newdeps := newdeps + deps[dep];
      todo := todo - {dep};
    }
    assert nextdeps - todo == nextdeps;
  }

  // ---- generate_dependency_hash ----

  function TextOf(v: Option<string>): string {
    if v.Some? then v.value else ""
  }

  /** The names of a listing, each followed by its text. */
  function Listed(names: seq<string>, lookup: Texts): string
    requires forall k :: k in names ==> k in lookup
  {
    if names == [] then "" else names[0] + TextOf(lookup[names[0]]) + Listed(names[1..], lookup)
  }

  /** What is hashed for a task: its own text, then its closure in sorted order. */
  ghost predicate IsHashInput(task: string, closure: set<string>, lookup: Texts, data: string)
    requires task in lookup && closure <= lookup.Keys
  {
    exists names ::
      IsSorted(names) && Elements(names) == closure &&
      (forall k :: k in names ==> k in lookup) && data == TextOf(lookup[task]) + Listed(names, lookup)
  }

  /** The hash input is determined by the task's text and by the names and texts of its closure:
      not by the order of tasks or sets, nor by anything outside. */
  lemma HashInputIsDetermined(task: string, closure: set<string>, lookup: Texts, other: Texts, d: string, e: string)
    requires task in lookup && task in other && closure <= lookup.Keys && closure <= other.Keys
    requires lookup[task] == other[task] && forall k :: k in closure ==> lookup[k] == other[k]
    requires IsHashInput(task, closure, lookup, d) && IsHashInput(task, closure, other, e)
    ensures d == e
  {
    var p :| IsSorted(p) && Elements(p) == closure && (forall k :: k in p ==> k in lookup)
             && d == TextOf(lookup[task]) + Listed(p, lookup);
    var q :| IsSorted(q) && Elements(q) == closure && (forall k :: k in q ==> k in other)
             && e == TextOf(other[task]) + Listed(q, other);
    SortedUnique(p, q);
    forall k | k in p ensures k in other && lookup[k] == other[k] { assert k in Elements(p); }
    ListedAgrees(p, lookup, other);
  }

  lemma {:induction false} ListedAgrees(names: seq<string>, lookup: Texts, other: Texts)
    requires forall k :: k in names ==> k in lookup && k in other && lookup[k] == other[k]
    ensures Listed(names, lookup) == Listed(names, other)
  {
    if names != [] {
      ListedAgrees(names[1..], lookup, other);
    }
  }

  /** The configurations differ at most in the text of `x`. */
  predicate AgreeBut(task: string, closure: set<string>, lookup: Texts, other: Texts, x: string) {
    && task in lookup && task in other && closure <= lookup.Keys && closure <= other.Keys
    && (task != x ==> lookup[task] == other[task]) && forall k :: k in closure && k != x ==> lookup[k] == other[k]
  }

  /** Whatever the text of one name is, the listing around it is the same. */
  lemma {:induction false} ListedIff(names: seq<string>, lookup: Texts, other: Texts, x: string)
    requires NoRepeat(names) && forall k :: k in names ==> k in lookup && k in other && (k != x ==> lookup[k] == other[k])
    ensures var a, b := Listed(names, lookup), Listed(names, other);
            if x in names then
              && |a| - |TextOf(lookup[x])| == |b| - |TextOf(other[x])|
              && (a == b <==> TextOf(lookup[x]) == TextOf(other[x]))
            else a == b
  {
    if names != [] {
      var y, a, b := names[0], Listed(names[1..], lookup), Listed(names[1..], other);
      assert names == [y] + names[1..];
      ListedIff(names[1..], lookup, other, x);
      if x == y {
        assert x !in names[1..];
        InFrontIff(y, TextOf(lookup[x]), TextOf(other[x]), a);
      } else {
        BehindIff(y + TextOf(lookup[y]), a, b);
      }
    }
  }

  lemma InFrontIff(p: string, s: string, t: string, rest: string)
    ensures p + s + rest == p + t + rest <==> s == t
  {
    if p + s + rest == p + t + rest {
      assert |s| == |t|;
      assert (p + s + rest)[|p|..|p| + |s|] == s && (p + t + rest)[|p|..|p| + |t|] == t;
    }
  }

  lemma BehindIff(p: string, s: string, t: string)
    ensures p + s == p + t <==> s == t
  {
    if p + s == p + t {
      assert (p + s)[|p|..] == s && (p + t)[|p|..] == t;
    }
  }

  /** The task's text in front of its listing: both can hold the text of `x`, which shows all the same. */
  lemma TaskAndListedIff(names: seq<string>, task: string, lookup: Texts, other: Texts, x: string)
    requires NoRepeat(names) && AgreeBut(task, Elements(names), lookup, other, x) && (x == task || x in names)
    requires forall k :: k in names ==> k in lookup && k in other
    ensures TextOf(lookup[task]) + Listed(names, lookup) == TextOf(other[task]) + Listed(names, other)
            <==> TextOf(lookup[x]) == TextOf(other[x])
  {
    forall k | k in names && k != x ensures lookup[k] == other[k] { assert k in Elements(names); }
    ListedIff(names, lookup, other, x);
    TwoPartsIff(TextOf(lookup[task]), Listed(names, lookup), TextOf(other[task]), Listed(names, other));
  }

  lemma TwoPartsIff(s: string, a: string, t: string, b: string)
    ensures |s| == |t| ==> (s + a == t + b <==> s == t && a == b)
  {
    if |s| == |t| && s + a == t + b {
      assert (s + a)[..|s|] == s && (t + b)[..|t|] == t && (s + a)[|s|..] == a && (t + b)[|t|..] == b;
    }
  }

  /** No text counts as an empty one, and no two others alike. */
  predicate SameText(v: Option<string>, w: Option<string>) {
    v == w || (v in {None, Some("")} && w in {None, Some("")})
  }

  /** The hash input tells the texts: of two configurations that differ at most in the text of one name
      that the task is or needs, the inputs are the same iff that text is. */
  lemma HashInputTells(task: string, closure: set<string>, lookup: Texts, other: Texts, x: string, d: string, e: string)
    requires AgreeBut(task, closure, lookup, other, x) && (x == task || x in closure)
    requires IsHashInput(task, closure, lookup, d) && IsHashInput(task, closure, other, e)
    ensures d == e <==> SameText(lookup[x], other[x])
  {
    var p :| IsSorted(p) && Elements(p) == closure && (forall k :: k in p ==> k in lookup)
             && d == TextOf(lookup[task]) + Listed(p, lookup);
    var q :| IsSorted(q) && Elements(q) == closure && (forall k :: k in q ==> k in other)
             && e == TextOf(other[task]) + Listed(q, other);
    SortedUnique(p, q);
    SortedOnce(p);
    assert x in closure ==> x in Elements(p);
    TaskAndListedIff(p, task, lookup, other, x);
    SameTextIff(lookup[x], other[x]);
  }

  lemma SameTextIff(v: Option<string>, w: Option<string>)
    ensures SameText(v, w) <==> TextOf(v) == TextOf(w)
  {
  }

  lemma {:induction false} ListedAppend(p: seq<string>, q: seq<string>, lookup: Texts)
    requires (forall k :: k in p ==> k in lookup) && (forall k :: k in q ==> k in lookup)
    ensures Listed(p + q, lookup) == Listed(p, lookup) + Listed(q, lookup)
  {
    if p == [] {
      assert p + q == q;
    } else {
      assert (p + q)[1..] == p[1..] + q;
      ListedAppend(p[1..], q, lookup);
    }
  }

  /** The sorted listing without one of its names. */
  lemma SortedWithout(names: seq<string>, y: string) returns (p: seq<string>, q: seq<string>)
    requires IsSorted(names) && y in names
    ensures names == p + [y] + q && IsSorted(p + q) && Elements(p + q) == Elements(names) - {y}
  {
    var i :| 0 <= i < |names| && names[i] == y;
    p, q := names[..i], names[i + 1..];
    SortedOnce(names);
    assert names == p + [y] + q;
    SortedParts(p, y, q);
  }

  lemma SortedParts(p: seq<string>, y: string, q: seq<string>)
    requires IsSorted(p + [y] + q) && NoRepeat(p + [y] + q)
    ensures IsSorted(p + q) && Elements(p + q) == Elements(p + [y] + q) - {y}
  {
    var names, rest := p + [y] + q, p + q;
    forall i, j | 0 <= i < j < |rest| ensures Less(rest[i], rest[j]) {
      assert rest[i] == names[if i < |p| then i else i + 1] && rest[j] == names[if j < |p| then j else j + 1];
    }
    assert names[|p|] == y;
    forall k | 0 <= k < |rest| ensures rest[k] != y {
      assert rest[k] == names[if k < |p| then k else k + 1];
    }
    assert forall x :: x in names <==> x in rest || x == y;
  }

  lemma ListedWithout(p: seq<string>, y: string, q: seq<string>, lookup: Texts)
    requires forall k :: k in p + [y] + q ==> k in lookup
    ensures |Listed(p + [y] + q, lookup)| == |Listed(p + q, lookup)| + |y| + |TextOf(lookup[y])|
  {
    forall k | k in p || k in q ensures k in lookup { assert k in p + [y] + q; }
    assert y in p + [y] + q;
    ListedAppend(p + [y], q, lookup);
    ListedAppend(p, [y], lookup);
    ListedAppend(p, q, lookup);
    OneListed(y, lookup);
  }

  lemma OneListed(y: string, lookup: Texts)
    requires y in lookup
    ensures Listed([y], lookup) == y + TextOf(lookup[y])
  {
    assert [y][1..] == [] && y + TextOf(lookup[y]) + "" == y + TextOf(lookup[y]);
  }

  /** A further dependency shows in the hash input, even one without a text. */
  lemma HashInputTellsNames(task: string, closure: set<string>, y: string, lookup: Texts, d: string, e: string)
    requires task in lookup && y !in closure && y != "" && closure + {y} <= lookup.Keys
    requires IsHashInput(task, closure, lookup, d) && IsHashInput(task, closure + {y}, lookup, e)
    ensures |d| < |e|
  {
    var p :| IsSorted(p) && Elements(p) == closure && (forall k :: k in p ==> k in lookup)
             && d == TextOf(lookup[task]) + Listed(p, lookup);
    var q :| IsSorted(q) && Elements(q) == closure + {y} && (forall k :: k in q ==> k in lookup)
             && e == TextOf(lookup[task]) + Listed(q, lookup);
    assert y in Elements(q);
    var a, b := SortedWithout(q, y);
    assert closure + {y} - {y} == closure;
    SortedUnique(p, a + b);
    ListedWithout(a, y, b, lookup);
  }

  method UnionOf(g: Graph, names: set<string>) returns (u: set<string>)
    requires names <= g.Keys
    ensures IsUnion(g, names, u)
  {
    u := {};
    var todo := names;
    while todo != {}
      invariant todo <= names && IsUnion(g, names - todo, u)
      decreases |todo|
    {
      var k :| k in todo;
      u := u + g[k];
      todo := todo - {k};
    }
    assert names - todo == names;
  }

  method Closure(gendeps: Graph, task: string) returns (seen: set<string>)
    requires IsClosed(gendeps) && task in gendeps
    ensures forall v :: v in seen <==> Reaches(gendeps, task, v)
    ensures seen <= gendeps.Keys
  {
    var newdeps := gendeps[task];
    seen := {};
    ProgressStarts(gendeps, task);
    while newdeps != {}
      invariant Progress(gendeps, task, seen, newdeps)
      decreases gendeps.Keys - seen
    {
      var nextdeps := newdeps;
      ghost var before := seen;
      seen := seen + nextdeps;
      InGraph(gendeps, task, nextdeps);
      newdeps := UnionOf(gendeps, nextdeps);
      ProgressStep(gendeps, task, before, nextdeps, newdeps, newdeps);
      newdeps := newdeps - seen;
    }
    ProgressDone(gendeps, task, seen);
    InGraph(gendeps, task, seen);
  }

  method HashData(task: string, closure: set<string>, lookup: Texts) returns (data: string)
    requires task in lookup && closure <= lookup.Keys
    ensures IsHashInput(task, closure, lookup, data)
  {
    data := TextOf(lookup[task]);
    var alldeps := Sorted(closure);
    forall k | k in alldeps ensures k in lookup { assert k in Elements(alldeps); }
    ghost var all := data + Listed(alldeps, lookup);
    for i := 0 to |alldeps|
      invariant all == data + Listed(alldeps[i..], lookup)
    {
      var dep := alldeps[i];
      data := data + dep + TextOf(lookup[dep]);
    }
    assert data + "" == data;
  }

  /** generate_dependency_hash, with `sha` for the digest: the recorded dependencies of a task are
      exactly what it reaches, and its hash is that of its hash input. */
  method GenerateDependencyHash(tasklist: seq<string>, gendeps: Graph, lookup: Texts, fn: string, sha: string -> string)
    returns (taskdeps: map<string, set<string>>, basehash: map<string, string>)
    requires IsClosed(gendeps) && lookup.Keys == gendeps.Keys && forall t :: t in tasklist ==> t in gendeps
    ensures forall t :: t in taskdeps <==> t in tasklist
    ensures forall t, v :: t in tasklist ==> (v in taskdeps[t] <==> Reaches(gendeps, t, v))
    ensures forall t :: t in tasklist ==> taskdeps[t] <= lookup.Keys
    ensures forall t :: t in tasklist ==>
              && fn + ":" + t in basehash
              && exists data :: IsHashInput(t, taskdeps[t], lookup, data) && basehash[fn + ":" + t] == sha(data)
  {
    taskdeps, basehash := map[], map[];
    for i := 0 to |tasklist|
      invariant forall t :: t in taskdeps <==> t in tasklist[..i]
      invariant forall t :: t in taskdeps ==> IsHashed(gendeps, lookup, fn, sha, t, taskdeps[t], basehash)
    {
      var task := tasklist[i];
      var seen := Closure(gendeps, task);
      var data := HashData(task, seen, lookup);
      ghost var before := basehash;
      basehash := basehash[fn + ":" + task := sha(data)];
      forall t | t in taskdeps && t != task
        ensures IsHashed(gendeps, lookup, fn, sha, t, taskdeps[t], basehash)
      {
        KeysDiffer(fn + ":", t, task);
        assert IsHashed(gendeps, lookup, fn, sha, t, taskdeps[t], before);
      }
      taskdeps := taskdeps[task := seen];
      assert tasklist[..i + 1] == tasklist[..i] + [task];
    }
    assert tasklist[..|tasklist|] == tasklist;
    forall t | t in tasklist ensures IsHashed(gendeps, lookup, fn, sha, t, taskdeps[t], basehash) {
    }
  }

  ghost predicate IsHashed(g: Graph, lookup: Texts, fn: string, sha: string -> string, t: string,
                           closure: set<string>, basehash: map<string, string>) {
    && t in lookup && closure <= lookup.Keys
    && (forall v :: v in closure <==> Reaches(g, t, v))
    && fn + ":" + t in basehash
    && exists data :: IsHashInput(t, closure, lookup, data) && basehash[fn + ":" + t] == sha(data)
  }

  lemma KeysDiffer(p: string, s: string, t: string)
    requires s != t
    ensures p + s != p + t
  {
    assert (p + s)[|p|..] == s && (p + t)[|p|..] == t;
  }

  // ---- what a task's hash depends on ----

  /** The recorded graph reaches the same from every task as the full one. */
  lemma RecordedReachesSame(g: Graph, deps: Graph, tasklist: seq<string>, task: string)
    requires task in tasklist && task in g
    requires forall k :: k in deps <==> k in g && IsNeeded(g, tasklist, k)
    requires forall k :: k in deps ==> deps[k] == g[k]
    ensures forall v :: Reaches(g, task, v) <==> Reaches(deps, task, v)
  {
    ReachIsLocal(g, deps, task);
  }

  /** Two configurations that agree on a task and on what it reaches give it the same closure and
      the same hash input, whatever else they hold and however their graphs were recorded. */
  lemma HashIsLocal(g: Graph, h: Graph, lookup: Texts, other: Texts, task: string,
                    c: set<string>, d: set<string>, x: string, y: string)
    requires task in g && task in h && g[task] == h[task]
    requires forall k :: Reaches(g, task, k) ==> (k in g <==> k in h) && (k in g ==> g[k] == h[k])
    requires (forall v :: v in c <==> Reaches(g, task, v)) && (forall v :: v in d <==> Reaches(h, task, v))
    requires task in lookup && task in other && lookup[task] == other[task]
    requires c <= lookup.Keys && d <= other.Keys && forall k :: k in c && k in other ==> lookup[k] == other[k]
    requires IsHashInput(task, c, lookup, x) && IsHashInput(task, d, other, y)
    ensures c == d && x == y
  {
    ReachIsLocal(g, h, task);
    assert c == d;
    HashInputIsDetermined(task, c, lookup, other, x, y);
  }

  // ---- both stages ----

  /** `hash` is the digest of the hash input of `task`, its closure being what it reaches. */
  ghost predicate IsBaseHash(g: Graph, texts: Texts, sha: string -> string, task: string, hash: string) {
    exists c: set<string>, d: string :: IsHashOf(g, texts, sha, task, hash, c, d)
  }

  ghost predicate IsHashOf(g: Graph, texts: Texts, sha: string -> string, task: string, hash: string,
                           c: set<string>, d: string) {
    && task in texts && c <= texts.Keys && (forall v :: v in c <==> Reaches(g, task, v))
    && IsHashInput(task, c, texts, d) && hash == sha(d)
  }

  lemma InputCarriesOver(task: string, c: set<string>, lookup: Texts, other: Texts, d: string)
    requires task in lookup && task in other && lookup[task] == other[task] && c <= lookup.Keys && c <= other.Keys
    requires forall k :: k in c ==> lookup[k] == other[k]
    requires IsHashInput(task, c, lookup, d)
    ensures IsHashInput(task, c, other, d)
  {
    var p :| IsSorted(p) && Elements(p) == c && (forall k :: k in p ==> k in lookup)
             && d == TextOf(lookup[task]) + Listed(p, lookup);
    forall k | k in p ensures k in other && lookup[k] == other[k] { assert k in Elements(p); }
    ListedAgrees(p, lookup, other);
  }

  /** generate_dependencies and then generate_dependency_hash: closures and hashes are those of the
      full configuration, though only what is needed was recorded. */
  method RecipeHashes(g: Graph, texts: Texts, tasklist: seq<string>, fn: string, sha: string -> string)
    returns (taskdeps: map<string, set<string>>, basehash: map<string, string>)
    requires IsClosed(g) && texts.Keys == g.Keys && forall t :: t in tasklist ==> t in g
    ensures forall t, v :: t in tasklist ==> t in taskdeps && (v in taskdeps[t] <==> Reaches(g, t, v))
    ensures forall t :: t in tasklist ==> fn + ":" + t in basehash && IsBaseHash(g, texts, sha, t, basehash[fn + ":" + t])
  {
    var deps, values := GenerateDependencies(g, texts, tasklist);
    taskdeps, basehash := GenerateDependencyHash(tasklist, deps, values, fn, sha);
    forall t | t in tasklist
      ensures (forall v :: v in taskdeps[t] <==> Reaches(g, t, v))
      ensures IsBaseHash(g, texts, sha, t, basehash[fn + ":" + t])
    {
      RecordedReachesSame(g, deps, tasklist, t);
      var d :| IsHashInput(t, taskdeps[t], values, d) && basehash[fn + ":" + t] == sha(d);
      InputCarriesOver(t, taskdeps[t], values, texts, d);
      assert IsHashOf(g, texts, sha, t, basehash[fn + ":" + t], taskdeps[t], d);
    }
  }

  lemma BaseHashIsLocal(g: Graph, texts: Texts, h: Graph, others: Texts, sha: string -> string, task: string,
                        x: string, y: string)
    requires task in g && task in h && g[task] == h[task]
    requires forall k :: Reaches(g, task, k) ==> (k in g <==> k in h) && (k in g ==> g[k] == h[k])
    requires task in texts && task in others && texts[task] == others[task]
    requires forall k :: Reaches(g, task, k) && k in texts && k in others ==> texts[k] == others[k]
    requires IsBaseHash(g, texts, sha, task, x) && IsBaseHash(h, others, sha, task, y)
    ensures x == y
  {
    var c, d :| IsHashOf(g, texts, sha, task, x, c, d);
    var c', d' :| IsHashOf(h, others, sha, task, y, c', d');
    HashIsLocal(g, h, texts, others, task, c, c', d, d');
  }

  /** Two recipes with whatever else in their configurations and task lists: a task that has the same
      value, dependencies and closure in both has the same hash. */
  method SameHash(g: Graph, texts: Texts, tasklist: seq<string>, fn: string,
                  h: Graph, others: Texts, otherTasks: seq<string>, otherFn: string, sha: string -> string, task: string)
    returns (one: string, two: string)
    requires IsClosed(g) && texts.Keys == g.Keys && forall t :: t in tasklist ==> t in g
    requires IsClosed(h) && others.Keys == h.Keys && forall t :: t in otherTasks ==> t in h
    requires task in tasklist && task in otherTasks && g[task] == h[task] && texts[task] == others[task]
    requires forall k :: Reaches(g, task, k) ==> (k in g <==> k in h) && (k in g ==> g[k] == h[k])
    requires forall k :: Reaches(g, task, k) && k in texts && k in others ==> texts[k] == others[k]
    ensures one == two && IsBaseHash(g, texts, sha, task, one)
  {
    var _, hashes := RecipeHashes(g, texts, tasklist, fn, sha);
    var _, otherHashes := RecipeHashes(h, others, otherTasks, otherFn, sha);
    one, two := hashes[fn + ":" + task], otherHashes[otherFn + ":" + task];
    BaseHashIsLocal(g, texts, h, others, sha, task, one, two);
  }

  ghost predicate IsInjective(sha: string -> string) {
    forall x, y :: sha(x) == sha(y) ==> x == y
  }

  lemma BaseHashTells(g: Graph, texts: Texts, others: Texts, sha: string -> string, task: string, x: string,
                      one: string, two: string)
    requires IsInjective(sha) && texts.Keys == others.Keys && x in texts && (x == task || Reaches(g, task, x))
    requires forall k :: k in texts && k != x ==> texts[k] == others[k]
    requires IsBaseHash(g, texts, sha, task, one) && IsBaseHash(g, others, sha, task, two)
    ensures one == two <==> SameText(texts[x], others[x])
  {
    var c, d :| IsHashOf(g, texts, sha, task, one, c, d);
    var c', d' :| IsHashOf(g, others, sha, task, two, c', d');
    assert c == c';
    HashInputTells(task, c, texts, others, x, d, d');
  }

  /** A recipe before and after the text of one name changes that a task is or needs: with a digest that
      tells all inputs apart, the task's hash changes iff the text does. */
  method ChangedHash(g: Graph, texts: Texts, others: Texts, tasklist: seq<string>, fn: string, sha: string -> string,
                     task: string, x: string)
    returns (one: string, two: string)
    requires IsClosed(g) && texts.Keys == others.Keys == g.Keys && forall t :: t in tasklist ==> t in g
    requires IsInjective(sha) && task in tasklist && x in g && (x == task || Reaches(g, task, x))
    requires forall k :: k in texts && k != x ==> texts[k] == others[k]
    ensures one == two <==> SameText(texts[x], others[x])
  {
    var _, hashes := RecipeHashes(g, texts, tasklist, fn, sha);
    var _, otherHashes := RecipeHashes(g, others, tasklist, fn, sha);
    one, two := hashes[fn + ":" + task], otherHashes[fn + ":" + task];
    BaseHashTells(g, texts, others, sha, task, x, one, two);
  }
}
