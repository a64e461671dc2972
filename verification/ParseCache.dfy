/** BitBake's code parser caches: parsing through them gives what parsing without them would. */
module ParseCache {
  import opened Wrappers

  /** What a walk over a piece of Python code finds. */
  datatype Analysis = Analysis(references: set<string>, execs: set<string>, varExecs: set<string>,
                               contains: map<string, set<string>>)

  /** A cached result; `extra` is the digest of code that was looked up under a fixed name. */
  datatype Line = Line(refs: set<string>, execs: set<string>, contains: map<string, set<string>>, extra: Option<string>)

  /** What a result is looked up under: the digest of the code, which stands for the code, or a
      fixed name that identifies it. */
  datatype Key = Digest(code: string) | Fixed(name: string)

  ghost predicate Injective<T(!new)>(hash: T -> int) {
    forall x, y :: hash(x) == hash(y) ==> x == y
  }

  /** A mutable Python set, owned by whoever was handed it. */
  class PySet {
    var items: set<string>

    constructor (s: set<string>)
      ensures items == s
    {
      items := s;
    }

    /** |= */
    method Update(s: set<string>)
      modifies this
      ensures items == old(items) + s
    {
      items := items + s;
    }
  }

  /** The parsers and hash functions BitBake is built on. */
  datatype Tools = Tools(python: string -> Analysis, shell: string -> set<string>, blank: string -> bool,
                         setHash: set<string> -> int, lineHash: Line -> int, source: string -> string)

  /** The line for a key when nothing is cached. */
  function LineFor(t: Tools, k: Key): Line {
    var code := if k.Digest? then k.code else t.source(k.name);
    var a := t.python(code);
    Line(a.references, a.execs + a.varExecs, a.contains, if k.Fixed? then Some(code) else None)
  }

  class CodeParserCache {
    const tools: Tools
    var pythoncache: map<Key, Line>
    var pythonextras: map<Key, Line>
    var pythonlines: map<int, Line>
    var shellcache: map<string, set<string>>
    var shellextras: map<string, set<string>>
    var shelllines: map<int, set<string>>
    var setcache: map<int, set<string>>

    /** Every cached line is the one its key stands for; interned values are found under their hash. */
    ghost predicate Valid()
      reads this
    {
      && (forall k :: k in pythoncache ==> pythoncache[k] == LineFor(tools, k))
      && (forall k :: k in pythonextras ==> pythonextras[k] == LineFor(tools, k))
      && (forall c :: c in shellcache ==> shellcache[c] == tools.shell(c))
      && (forall c :: c in shellextras ==> shellextras[c] == tools.shell(c))
      && (forall h :: h in setcache ==> tools.setHash(setcache[h]) == h)
      && (forall h :: h in shelllines ==> tools.setHash(shelllines[h]) == h)
      && (forall h :: h in pythonlines ==> tools.lineHash(pythonlines[h]) == h)
      && Injective(tools.setHash) && Injective(tools.lineHash)
    }

    /** Starts with what a cache file of an earlier run holds. */
    constructor (t: Tools, python: map<Key, Line>, shell: map<string, set<string>>)
      requires Injective(t.setHash) && Injective(t.lineHash)
      requires forall k :: k in python ==> python[k] == LineFor(t, k)
      requires forall c :: c in shell ==> shell[c] == t.shell(c)
      ensures Valid() && tools == t
    {
      tools, pythoncache, pythonextras, pythonlines := t, python, map[], map[];
      shellcache, shellextras, shelllines, setcache := shell, map[], map[], map[];
    }

    /** internSet */
    method InternSet(items: set<string>) returns (s: set<string>)
      requires Valid()
      modifies this`setcache
      ensures Valid() && s == items
    {
      var h := tools.setHash(items);
      if h in setcache {
        return setcache[h];
      }
      setcache := setcache[h := items];
      s := items;
    }

    method InternEach(contains: map<string, set<string>>) returns (interned: map<string, set<string>>)
      requires Valid()
      modifies this`setcache
      ensures Valid() && interned == contains
    {
      interned := map[];
      var todo := contains.Keys;
      while todo != {}
        invariant Valid() && todo <= contains.Keys
        invariant interned == map c | c in contains && c !in todo :: contains[c]
        decreases |todo|
      {
        var c :| c in todo;
        var s := InternSet(contains[c]);
        interned := interned[c := s];
        todo := todo - {c};
      }
      assert interned == contains;
    }

    /** newPythonCacheLine */
    method NewPythonCacheLine(refs: set<string>, execs: set<string>, contains: map<string, set<string>>,
                              extra: Option<string>) returns (line: Line)
      requires Valid()
      modifies this`setcache, this`pythonlines
      ensures Valid() && line == Line(refs, execs, contains, extra)
    {
      var r := InternSet(refs);
      var e := InternSet(execs);
      var interned := InternEach(contains);
      line := Line(r, e, interned, extra);
      var h := tools.lineHash(line);
      if h in pythonlines {
        return pythonlines[h];
      }
      pythonlines := pythonlines[h := line];
    }

    /** newShellCacheLine; a line has its set's hash. */
    method NewShellCacheLine(execs: set<string>) returns (line: set<string>)
      requires Valid()
      modifies this`setcache, this`shelllines
      ensures Valid() && line == execs
    {
      line := InternSet(execs);
      var h := tools.setHash(line);
      if h in shelllines {
        return shelllines[h];
      }
      shelllines := shelllines[h := line];
    }

    method CachedPython(h: Key) returns (line: Option<Line>)
      requires Valid()
      ensures line.Some? ==> line.value == LineFor(tools, h)
      ensures line.Some? <==> h in pythoncache || h in pythonextras
    {
      line := if h in pythoncache then Some(pythoncache[h])
              else if h in pythonextras then Some(pythonextras[h]) else None;
    }

    method RememberPython(h: Key, a: Analysis, extra: Option<string>)
      requires Valid() && Line(a.references, a.execs + a.varExecs, a.contains, extra) == LineFor(tools, h)
      modifies this
      ensures Valid()
    {
      var line := NewPythonCacheLine(a.references, a.execs + a.varExecs, a.contains, extra);
      pythonextras := pythonextras[h := line];
    }
  }

  /** What a parser reports. */
  datatype Report = Report(references: set<string>, execs: set<string>, varExecs: set<string>,
                           contains: map<string, set<string>>, extra: Option<string>)

  const NOTHING := Report({}, {}, {}, map[], None)

  /** The report without any cache. */
  function Uncached(t: Tools, k: Key): Report {
    var a := t.python(if k.Digest? then k.code else t.source(k.name));
    Report(a.references, a.execs + a.varExecs, a.varExecs, a.contains,
           if k.Fixed? then Some(t.source(k.name)) else None)
  }

  /** The report through the caches: only the variable execs depend on whether they hold the key. */
  function Reported(t: Tools, k: Key, cached: bool): Report {
    if cached then Uncached(t, k).(varExecs := {}) else Uncached(t, k)
  }

  /** The caches show iff the key is cached and the code has variable execs. */
  lemma CacheShowsIff(t: Tools, k: Key, cached: bool)
    ensures Reported(t, k, cached) == Uncached(t, k) <==> !cached || Uncached(t, k).varExecs == {}
  {
  }

  /** An empty string counts as none. */
  predicate IsGiven(o: Option<string>) {
    o.Some? && o.value != ""
  }

  predicate IsBlank(t: Tools, code: Option<string>, fixedhash: Option<string>) {
    !IsGiven(fixedhash) && (!IsGiven(code) || t.blank(code.value))
  }

  function KeyOf(code: Option<string>, fixedhash: Option<string>): Key
    requires IsGiven(fixedhash) || IsGiven(code)
  {
    if IsGiven(fixedhash) then Fixed(fixedhash.value) else Digest(code.value)
  }

  /** The contents of sets kept by key. */
  ghost function Contents(m: map<string, PySet>): map<string, set<string>>
    reads m.Values
  {
    map c | c in m :: m[c].items
  }

  /** New sets with the given contents, no two of them the same. */
  method CopyEach(contents: map<string, set<string>>) returns (m: map<string, PySet>)
    ensures Contents(m) == contents && fresh(m.Values)
    ensures forall c, d :: c in m && d in m && c != d ==> m[c] != m[d]
  {
    m := map[];
    var todo := contents.Keys;
    while todo != {}
      invariant todo <= contents.Keys && m.Keys == contents.Keys - todo
      invariant forall c :: c in m ==> fresh(m[c]) && m[c].items == contents[c]
      invariant forall c, d :: c in m && d in m && c != d ==> m[c] != m[d]
      decreases |todo|
    {
      var c :| c in todo;
      var s := new PySet(contents[c]);
      m := m[c := s];
      todo := todo - {c};
    }
  }

  lemma AnalysisIs(t: Tools, k: Key, code: string)
    requires code == if k.Digest? then k.code else t.source(k.name)
    ensures var a, extra := t.python(code), if k.Fixed? then Some(code) else None;
            && Line(a.references, a.execs + a.varExecs, a.contains, extra) == LineFor(t, k)
            && Report(a.references, a.execs + a.varExecs, a.varExecs, a.contains, extra) == Uncached(t, k)
  {
  }

  /** PythonParser: its sets are its own, and its callers change them. */
  class PythonParser {
    var references: PySet
    var execs: PySet
    var varExecs: PySet
    var contains: map<string, PySet>
    var extra: Option<string>

    ghost function State(): Report
      reads this, references, execs, varExecs, contains.Values
    {
      Report(references.items, execs.items, varExecs.items, Contents(contains), extra)
    }

    /** No two of the sets are the same. */
    ghost predicate Own()
      reads this
    {
      && references != execs && references != varExecs && execs != varExecs
      && {references, execs, varExecs} !! contains.Values
      && forall c, d :: c in contains && d in contains && c != d ==> contains[c] != contains[d]
    }

    constructor ()
      ensures fresh(references) && fresh(execs) && fresh(varExecs) && fresh(contains.Values) && Own() && State() == NOTHING
    {
      references := new PySet({});
      execs := new PySet({});
      varExecs := new PySet({});
      contains, extra := map[], None;
    }

    /** The walk over the code, into the parser's own sets. */
    method Walk(a: Analysis)
      requires Own() && State() == NOTHING
      modifies this`contains, references, execs, varExecs
      ensures Own() && fresh(contains.Values)
      ensures State() == Report(a.references, a.execs + a.varExecs, a.varExecs, a.contains, None)
    {
      references.Update(a.references);
      execs.Update(a.execs);
      varExecs.Update(a.varExecs);
      contains := CopyEach(a.contains);
      execs.Update(varExecs.items);
    }

    /** Every set of the line is copied. */
    method Take(line: Line)
      requires Own() && State() == NOTHING
      modifies this`references, this`execs, this`contains, this`extra
      ensures Own() && State() == Report(line.refs, line.execs, {}, line.contains, line.extra)
      ensures fresh(references) && fresh(execs) && fresh(contains.Values)
    {
      references := new PySet(line.refs);
      execs := new PySet(line.execs);
      contains := CopyEach(line.contains);
      extra := line.extra;
    }

    /** parse_python on a fresh parser. Whatever the caches hold, the references, execs, contains and
        extra are those found without them, in sets no one else holds and no two of which are the same;
        the variable execs are filled in iff the key was not cached. `found` is false for a KeyError:
        a fixed name without code that is not cached. */
    method ParsePython(cache: CodeParserCache, code: Option<string>, fixedhash: Option<string>)
      returns (found: bool, walked: bool)
      requires cache.Valid() && Own() && State() == NOTHING
      requires IsGiven(code) && IsGiven(fixedhash) ==> code.value == cache.tools.source(fixedhash.value)
      modifies this, references, execs, varExecs, cache
      ensures cache.Valid() && Own()
      ensures IsBlank(cache.tools, code, fixedhash) ==> found && !walked && State() == NOTHING
      ensures !IsBlank(cache.tools, code, fixedhash) ==>
                var k := KeyOf(code, fixedhash);
                var cached := k in old(cache.pythoncache) || k in old(cache.pythonextras);
                && (found <==> cached || IsGiven(code)) && (walked <==> IsGiven(code) && !cached)
                && (found ==> State() == Reported(cache.tools, k, cached))
      ensures references == old(references) || fresh(references)
      ensures execs == old(execs) || fresh(execs)
      ensures varExecs == old(varExecs) && (contains == old(contains) || fresh(contains.Values))
    {
      if IsBlank(cache.tools, code, fixedhash) {
        return true, false;
      }
      var h := KeyOf(code, fixedhash);
      var line := cache.CachedPython(h);
      if line.Some? {
        Take(line.value);
        return true, false;
      }
      if !IsGiven(code) {
        return false, false;
      }
      found, walked := true, true;
      ParseNew(cache, h, code.value);
    }

    method ParseNew(cache: CodeParserCache, h: Key, code: string)
      requires cache.Valid() && Own() && State() == NOTHING
      requires code == (if h.Digest? then h.code else cache.tools.source(h.name))
      modifies this, references, execs, varExecs, cache
      ensures cache.Valid() && Own() && State() == Uncached(cache.tools, h)
      ensures references == old(references) && execs == old(execs) && varExecs == old(varExecs)
      ensures fresh(contains.Values)
    {
      AnalysisIs(cache.tools, h, code);
      WalkNew(cache.tools, h, code);
      cache.RememberPython(h, cache.tools.python(code), extra);
    }

    method WalkNew(t: Tools, h: Key, code: string)
      requires Own() && State() == NOTHING && code == if h.Digest? then h.code else t.source(h.name)
      modifies this, references, execs, varExecs
      ensures Own() && State() == Uncached(t, h) && extra == if h.Fixed? then Some(code) else None
      ensures references == old(references) && execs == old(execs) && varExecs == old(varExecs)
      ensures fresh(contains.Values)
    {
      Walk(t.python(code));
      extra := if h.Fixed? then Some(code) else None;
      AnalysisIs(t, h, code);
    }
  }

  /** parse_shell on a fresh parser: the set handed out is new, and says what the code executes. */
  method ParseShell(cache: CodeParserCache, value: string) returns (execs: PySet)
    requires cache.Valid()
    modifies cache
    ensures cache.Valid() && fresh(execs) && execs.items == cache.tools.shell(value)
  {
    if value in cache.shellcache {
      execs := new PySet(cache.shellcache[value]);
    } else if value in cache.shellextras {
      execs := new PySet(cache.shellextras[value]);
    } else {
      execs := new PySet(cache.tools.shell(value));
      var s := cache.NewShellCacheLine(execs.items);
      cache.shellextras := cache.shellextras[value := s];
    }
  }
}
