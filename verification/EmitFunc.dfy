/** BitBake's emit_func and emit_func_python: a function is written with all the functions of its
    language it needs, found through the parse cache while the sets it hands out are being changed. */
module EmitFuncs {
  import opened Wrappers
  import opened Walks
  import opened Sorting
  import opened ParseCache

  /** The functions of a datastore: texts, "vardeps" flags, and which are shell and Python functions. */
  datatype Functions = Functions(text: map<string, string>, vardeps: map<string, set<string>>,
                                 shell: set<string>, python: set<string>)

  function TextOf(f: Functions, k: string): string {
    if k in f.text then f.text[k] else ""
  }

  function VardepsOf(f: Functions, k: string): set<string> {
    if k in f.vardeps then f.vardeps[k] else {}
  }

  function Needs(t: Tools, f: Functions, k: string): set<string> {
    t.shell(TextOf(f, k)) + VardepsOf(f, k)
  }

  /** What a function needs directly; other names need nothing. */
  function NeedsGraph(t: Tools, f: Functions, func: string): Graph {
    map k | k in f.shell + {func} :: Needs(t, f, k)
  }

  function PythonNeeds(t: Tools, f: Functions, k: string): set<string> {
    var a, code := t.python(TextOf(f, k)), TextOf(f, k);
    (if IsCode(t, code) then a.execs + a.varExecs else {}) + VardepsOf(f, k)
  }

  function PythonNeedsGraph(t: Tools, f: Functions, func: string): Graph {
    map k | k in f.python + {func} :: PythonNeeds(t, f, k)
  }

  function AllNeeded(g: Graph): set<string> {
    set k, x | k in g && x in g[k] :: x
  }

  lemma ReachedIsNeeded(g: Graph, func: string, x: string)
    requires Reaches(g, func, x)
    ensures x in AllNeeded(g)
  {
    var p :| IsWalk(g, p) && p[0] == func && p[|p| - 1] == x;
    assert p[|p| - 2] in g && p[|p| - 1] in g[p[|p| - 2]];
  }

  /** One round: the functions among the waiting names are written, and what they need collected. */
  method EmitRound(cache: CodeParserCache, f: Functions, deps: set<string>, done: seq<string>)
    returns (emitted: seq<string>, newdeps: PySet)
    requires cache.Valid() && NoRepeat(done) && forall k :: k in deps ==> k !in done
    modifies cache
    ensures cache.Valid() && fresh(newdeps) && Written(f.shell, emitted, done, deps)
    ensures newdeps.items == NeededBy(cache.tools, f, deps)
  {
    newdeps := new PySet({});
    emitted := done;
    var names := Sorted(deps);
    SortedOnce(names);
    for i := 0 to |names|
      invariant cache.Valid() && fresh(newdeps)
      invariant Written(f.shell, emitted, done, Elements(names[..i]))
      invariant newdeps.items == NeededBy(cache.tools, f, Elements(names[..i]))
    {
      var dep := names[i];
      OneMoreElement(names, i);
      NeededByOneMore(cache.tools, f, Elements(names[..i]), dep);
      WrittenOneMore(f.shell, emitted, done, Elements(names[..i]), dep);
      if dep in f.shell {
        emitted := emitted + [dep];
        AddDeps(cache, f, dep, newdeps);
      }
    }
    assert names[..|names|] == names;
  }

  /** What the shell functions among `names` need. */
  function NeededBy(t: Tools, f: Functions, names: set<string>): set<string> {
    set k, x | k in names && k in f.shell && x in Needs(t, f, k) :: x
  }

  lemma NeededByOneMore(t: Tools, f: Functions, names: set<string>, k: string)
    ensures NeededBy(t, f, names + {k}) == NeededBy(t, f, names) + (if k in f.shell then Needs(t, f, k) else {})
  {
  }

  lemma OneMoreElement(names: seq<string>, i: nat)
    requires NoRepeat(names) && i < |names|
    ensures Elements(names[..i + 1]) == Elements(names[..i]) + {names[i]} && names[i] !in Elements(names[..i])
    ensures names[i] in Elements(names)
  {
    assert names[..i + 1] == names[..i] + [names[i]];
  }

  /** Each of the functions `fs` among `names` has been written, behind `done`. */
  ghost predicate Written(fs: set<string>, emitted: seq<string>, done: seq<string>, names: set<string>) {
    NoRepeat(emitted) && forall k :: k in emitted <==> k in done || (k in names && k in fs)
  }

  lemma WrittenOneMore(fs: set<string>, emitted: seq<string>, done: seq<string>, names: set<string>, k: string)
    requires Written(fs, emitted, done, names) && k !in done && k !in names
    ensures Written(fs, if k in fs then emitted + [k] else emitted, done, names + {k})
  {
  }

  method AddDeps(cache: CodeParserCache, f: Functions, func: string, newdeps: PySet)
    requires cache.Valid()
    modifies cache, newdeps
    ensures cache.Valid() && newdeps.items == old(newdeps.items) + Needs(cache.tools, f, func)
  {
    var execs := ParseShell(cache, TextOf(f, func));
    newdeps.Update(execs.items);
    newdeps.Update(VardepsOf(f, func));
  }

  /** emit_func, behind the function itself: each shell function it reaches exactly once, whatever the
      caches hold and although the first set they hand out is added to. */
  method EmitFunc(cache: CodeParserCache, f: Functions, func: string) returns (emitted: seq<string>)
    requires cache.Valid()
    modifies cache
    ensures cache.Valid() && NoRepeat(emitted)
    ensures forall k :: k in emitted <==> k in f.shell && Reaches(NeedsGraph(cache.tools, f, func), func, k)
    ensures IsComplete(cache.tools, f, func, emitted)
  {
    ghost var g := NeedsGraph(cache.tools, f, func);
    emitted := [];
    var newdeps := ParseShell(cache, TextOf(f, func));
    newdeps.Update(VardepsOf(f, func));
    var seen: set<string> := {};
    ProgressStarts(g, func);
    while newdeps.items != {}
      invariant cache.Valid() && fresh(newdeps) && NoRepeat(emitted)
      invariant Progress(g, func, seen, newdeps.items)
      invariant forall k :: k in emitted <==> k in seen && k in f.shell
      decreases AllNeeded(g) - seen
    {
      var deps := newdeps.items;
      ghost var before := seen;
      seen := seen + deps;
      emitted, newdeps := EmitRound(cache, f, deps, emitted);
      RoundIsUnion(cache.tools, f, func, deps);
      ProgressStep(g, func, before, deps, newdeps.items + (if func in deps then g[func] else {}), newdeps.items);
      forall x | x in deps ensures x in AllNeeded(g) { ReachedIsNeeded(g, func, x); }
      newdeps := new PySet(newdeps.items - seen);
    }
    ProgressDone(g, func, seen);
    ReachedIsComplete(cache.tools, f, func, emitted);
  }

  /** With every function that is written, and with the function itself, the shell functions that its text
      calls and that its "vardeps" name are written. */
  ghost predicate IsComplete(t: Tools, f: Functions, func: string, emitted: seq<string>) {
    forall k, x :: (k == func || k in emitted) && x in f.shell && Names(t, f, k, x) ==> x in emitted
  }

  predicate Names(t: Tools, f: Functions, k: string, x: string) {
    (k in f.text && x in t.shell(f.text[k])) || (k in f.vardeps && x in f.vardeps[k])
  }

  lemma ReachedIsComplete(t: Tools, f: Functions, func: string, emitted: seq<string>)
    requires forall k :: k in emitted <==> k in f.shell && Reaches(NeedsGraph(t, f, func), func, k)
    ensures IsComplete(t, f, func, emitted)
  {
    forall k, x | (k == func || k in emitted) && x in f.shell && Names(t, f, k, x) ensures x in emitted {
      NeedsAreReached(NeedsGraph(t, f, func), f.shell, func, k, x);
    }
  }

  /** What the function itself needs, or one of its language that it reaches, it reaches. */
  lemma NeedsAreReached(g: Graph, fs: set<string>, func: string, k: string, x: string)
    requires g.Keys == fs + {func} && k in g && x in g[k] && (k == func || Reaches(g, func, k))
    ensures Reaches(g, func, x)
  {
    if k == func { EdgeReaches(g, func, x); } else { ReachesOn(g, func, k, x); }
  }

  lemma RoundIsUnion(t: Tools, f: Functions, func: string, deps: set<string>)
    ensures var g := NeedsGraph(t, f, func); IsUnion(g, deps, NeededBy(t, f, deps) + (if func in deps then g[func] else {}))
  {
  }

  // ---- emit_func_python ----

  /** A fresh parser's execs for a function's text, and its "vardeps" added to them in place. */
  method PythonDeps(cache: CodeParserCache, f: Functions, func: string) returns (newdeps: PySet)
    requires cache.Valid()
    modifies cache
    ensures cache.Valid() && fresh(newdeps) && newdeps.items == PythonNeeds(cache.tools, f, func)
  {
    var pp := new PythonParser();
    var _, _ := pp.ParsePython(cache, Some(TextOf(f, func)), None);
    newdeps := pp.execs;
    newdeps.Update(VardepsOf(f, func));
  }

  /** What the Python functions among `names` need. */
  function PythonNeededBy(t: Tools, f: Functions, names: set<string>): set<string> {
    set k, x | k in names && k in f.python && x in PythonNeeds(t, f, k) :: x
  }

  lemma PythonNeededByOneMore(t: Tools, f: Functions, names: set<string>, k: string)
    ensures PythonNeededBy(t, f, names + {k})
         == PythonNeededBy(t, f, names) + (if k in f.python then PythonNeeds(t, f, k) else {})
  {
  }

  method AddPythonDeps(cache: CodeParserCache, f: Functions, func: string, newdeps: PySet)
    requires cache.Valid()
    modifies cache, newdeps
    ensures cache.Valid() && newdeps.items == old(newdeps.items) + PythonNeeds(cache.tools, f, func)
  {
    var execs := PythonDeps(cache, f, func);
    newdeps.Update(execs.items);
  }

  lemma OneLess(deps: set<string>, todo: set<string>, dep: string)
    requires dep in todo && todo <= deps
    ensures deps - (todo - {dep}) == deps - todo + {dep}
  {
  }

  method EmitPythonRound(cache: CodeParserCache, f: Functions, deps: set<string>, done: seq<string>)
    returns (emitted: seq<string>, newdeps: PySet)
    requires cache.Valid() && NoRepeat(done) && forall k :: k in deps ==> k !in done
    modifies cache
    ensures cache.Valid() && fresh(newdeps) && Written(f.python, emitted, done, deps)
    ensures newdeps.items == PythonNeededBy(cache.tools, f, deps)
  {
    newdeps := new PySet({});
    emitted := done;
    var todo := deps;
    while todo != {}
      invariant todo <= deps && cache.Valid() && fresh(newdeps)
      invariant Written(f.python, emitted, done, deps - todo)
      invariant newdeps.items == PythonNeededBy(cache.tools, f, deps - todo)
      decreases |todo|
    {
      var dep :| dep in todo;
      PythonNeededByOneMore(cache.tools, f, deps - todo, dep);
      WrittenOneMore(f.python, emitted, done, deps - todo, dep);
      OneLess(deps, todo, dep);
      todo := todo - {dep};
      if dep in f.python {
        emitted := emitted + [dep];
        AddPythonDeps(cache, f, dep, newdeps);
      }
    }
    assert deps - todo == deps;
  }

  /** emit_func_python, behind the function itself: each Python function it reaches exactly once. */
  method EmitFuncPython(cache: CodeParserCache, f: Functions, func: string) returns (emitted: seq<string>)
    requires cache.Valid()
    modifies cache
    ensures cache.Valid() && NoRepeat(emitted)
    ensures forall k :: k in emitted <==> k in f.python && Reaches(PythonNeedsGraph(cache.tools, f, func), func, k)
    ensures IsPythonComplete(cache.tools, f, func, emitted)
  {
    ghost var g := PythonNeedsGraph(cache.tools, f, func);
    emitted := [];
    var newdeps := PythonDeps(cache, f, func);
    var seen: set<string> := {};
    ProgressStarts(g, func);
    while newdeps.items != {}
      invariant cache.Valid() && fresh(newdeps) && NoRepeat(emitted)
      invariant Progress(g, func, seen, newdeps.items)
      invariant forall k :: k in emitted <==> k in seen && k in f.python
      decreases AllNeeded(g) - seen
    {
      var deps := newdeps.items;
      ghost var before := seen;
      seen := seen + deps;
      emitted, newdeps := EmitPythonRound(cache, f, deps, emitted);
      PythonRoundIsUnion(cache.tools, f, func, deps);
      ProgressStep(g, func, before, deps, newdeps.items + (if func in deps then g[func] else {}), newdeps.items);
      forall x | x in deps ensures x in AllNeeded(g) { ReachedIsNeeded(g, func, x); }
      newdeps := new PySet(newdeps.items - seen);
    }
    ProgressDone(g, func, seen);
    ReachedIsPythonComplete(cache.tools, f, func, emitted);
  }

  /** The same of Python functions. */
  ghost predicate IsPythonComplete(t: Tools, f: Functions, func: string, emitted: seq<string>) {
    forall k, x :: (k == func || k in emitted) && x in f.python && NamesPython(t, f, k, x) ==> x in emitted
  }

  predicate NamesPython(t: Tools, f: Functions, k: string, x: string) {
    || (k in f.text && IsCode(t, f.text[k]) && (x in t.python(f.text[k]).execs || x in t.python(f.text[k]).varExecs))
    || (k in f.vardeps && x in f.vardeps[k])
  }

  lemma ReachedIsPythonComplete(t: Tools, f: Functions, func: string, emitted: seq<string>)
    requires forall k :: k in emitted <==> k in f.python && Reaches(PythonNeedsGraph(t, f, func), func, k)
    ensures IsPythonComplete(t, f, func, emitted)
  {
    forall k, x | (k == func || k in emitted) && x in f.python && NamesPython(t, f, k, x) ensures x in emitted {
      NeedsAreReached(PythonNeedsGraph(t, f, func), f.python, func, k, x);
    }
  }

  predicate IsCode(t: Tools, code: string) {
    code != "" && !t.blank(code)
  }

  lemma PythonRoundIsUnion(t: Tools, f: Functions, func: string, deps: set<string>)
    ensures var g := PythonNeedsGraph(t, f, func);
            IsUnion(g, deps, PythonNeededBy(t, f, deps) + (if func in deps then g[func] else {}))
  {
  }
}
