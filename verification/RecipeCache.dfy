/** BitBake's recipe cache: the memoised validity check, and what a valid recipe loads. */
module RecipeCache {
  import opened Wrappers
  import opened VirtualNames

  /** Whether a checksummed file existed when it was recorded, if that was recorded. */
  datatype Existed = Yes | No | Unsaid

  /** The record of one recipe name by one cache class. */
  datatype Info = Info(timestamp: int, fileDepends: seq<(string, int)>, checksums: seq<(string, Existed)>,
                       appends: seq<string>, variants: seq<string>)

  /** The files as they are: modification times (0 for none) and existence; and the number of
      cache classes. */
  datatype Env = Env(mtime: string -> int, present: string -> bool, classes: nat)

  // ---- what the check is for ----

  predicate DependsMatch(e: Env, depends: seq<(string, int)>) {
    forall i :: 0 <= i < |depends| ==> e.mtime(depends[i].0) == depends[i].1
  }

  predicate ChecksumsMatch(e: Env, checksums: seq<(string, Existed)>) {
    forall i :: 0 <= i < |checksums| ==>
      (checksums[i].1 == Yes ==> e.present(checksums[i].0)) && (checksums[i].1 == No ==> !e.present(checksums[i].0))
  }

  /** The recorded times, existence flags and appends are those of now. */
  predicate FilesMatch(e: Env, info: Info, fn: string, appends: seq<string>) {
    && e.mtime(fn) != 0 && e.mtime(fn) == info.timestamp
    && DependsMatch(e, info.fileDepends) && ChecksumsMatch(e, info.checksums)
    && appends == info.appends
  }

  /** What is recorded of a recipe that was parsed when the files were as `e` says. */
  function Recorded(e: Env, fn: string, depends: seq<string>, checksums: seq<string>, appends: seq<string>,
                    variants: seq<string>): Info {
    Info(e.mtime(fn),
         seq(|depends|, i requires 0 <= i < |depends| => (depends[i], e.mtime(depends[i]))),
         seq(|checksums|, i requires 0 <= i < |checksums| => (checksums[i], if e.present(checksums[i]) then Yes else No)),
         appends, variants)
  }

  /** The record matches now iff the recipe is there, neither it nor a file it depends on has another
      time than then, no checksummed file has come or gone, and the appends are those of then. */
  lemma RecordMatchesIff(e: Env, now: Env, fn: string, depends: seq<string>, checksums: seq<string>,
                         appends: seq<string>, variants: seq<string>, current: seq<string>)
    ensures FilesMatch(now, Recorded(e, fn, depends, checksums, appends, variants), fn, current)
            <==> && now.mtime(fn) != 0 && now.mtime(fn) == e.mtime(fn)
                 && (forall f :: f in depends ==> now.mtime(f) == e.mtime(f))
                 && (forall f :: f in checksums ==> now.present(f) == e.present(f))
                 && current == appends
  {
    var r := Recorded(e, fn, depends, checksums, appends, variants);
    DependsIff(e, now, depends, r.fileDepends);
    ChecksumsIff(e, now, checksums, r.checksums);
  }

  lemma DependsIff(e: Env, now: Env, depends: seq<string>, recorded: seq<(string, int)>)
    requires |recorded| == |depends|
    requires forall i :: 0 <= i < |depends| ==> recorded[i] == (depends[i], e.mtime(depends[i]))
    ensures DependsMatch(now, recorded) <==> forall f :: f in depends ==> now.mtime(f) == e.mtime(f)
  {
    if DependsMatch(now, recorded) {
      forall f | f in depends ensures now.mtime(f) == e.mtime(f) {
        var i :| 0 <= i < |depends| && depends[i] == f;
        assert recorded[i] == (f, e.mtime(f));
      }
    }
  }

  lemma ChecksumsIff(e: Env, now: Env, checksums: seq<string>, recorded: seq<(string, Existed)>)
    requires |recorded| == |checksums|
    requires forall i :: 0 <= i < |checksums| ==> recorded[i] == (checksums[i], if e.present(checksums[i]) then Yes else No)
    ensures ChecksumsMatch(now, recorded) <==> forall f :: f in checksums ==> now.present(f) == e.present(f)
  {
    if ChecksumsMatch(now, recorded) {
      forall f | f in checksums ensures now.present(f) == e.present(f) {
        var i :| 0 <= i < |checksums| && checksums[i] == f;
        assert recorded[i].0 == f;
      }
    }
  }

  /** Every variant is there, with one record per cache class. */
  predicate VariantsFull(e: Env, entries: map<string, seq<Info>>, fn: string, variants: seq<string>) {
    forall i :: 0 <= i < |variants| ==>
      var v := VariantToVirtual(fn, variants[i]);
      v in entries && |entries[v]| == e.classes
  }

  predicate IsValid(e: Env, entries: map<string, seq<Info>>, fn: string, appends: seq<string>) {
    && fn in entries && entries[fn] != []
    && FilesMatch(e, entries[fn][0], fn, appends)
    && VariantsFull(e, entries, fn, entries[fn][0].variants)
  }

  /** loadCached; None for a KeyError. */
  function Load(entries: map<string, seq<Info>>, fn: string, variants: seq<string>): Option<seq<(string, seq<Info>)>> {
    if variants == [] then Some([])
    else
      match Load(entries, fn, variants[..|variants| - 1])
      case None => None
      case Some(infos) =>
        var v := VariantToVirtual(fn, variants[|variants| - 1]);
        if v in entries then Some(infos + [(v, entries[v])]) else None
  }

  function LoadCached(entries: map<string, seq<Info>>, fn: string): Option<seq<(string, seq<Info>)>> {
    if fn in entries && entries[fn] != [] then Load(entries, fn, entries[fn][0].variants) else None
  }

  /** A full set of variants loads, each with a full array. */
  lemma {:induction false} FullLoads(e: Env, entries: map<string, seq<Info>>, fn: string, variants: seq<string>)
    requires VariantsFull(e, entries, fn, variants)
    ensures var r := Load(entries, fn, variants);
            && r.Some? && |r.value| == |variants|
            && forall i :: 0 <= i < |variants| ==>
                 r.value[i].0 == VariantToVirtual(fn, variants[i]) && |r.value[i].1| == e.classes
    decreases |variants|
  {
    if variants != [] {
      var shorter, last := variants[..|variants| - 1], variants[|variants| - 1];
      assert forall i :: 0 <= i < |shorter| ==> shorter[i] == variants[i];
      FullLoads(e, entries, fn, shorter);
      LoadsOneMore(entries, fn, variants);
    }
  }

  lemma LoadsOneMore(entries: map<string, seq<Info>>, fn: string, variants: seq<string>)
    requires variants != [] && Load(entries, fn, variants[..|variants| - 1]).Some?
    requires VariantToVirtual(fn, variants[|variants| - 1]) in entries
    ensures var v := VariantToVirtual(fn, variants[|variants| - 1]);
            Load(entries, fn, variants) == Some(Load(entries, fn, variants[..|variants| - 1]).value + [(v, entries[v])])
  {
  }

  lemma {:induction false} NoLoad(entries: map<string, seq<Info>>, fn: string, variants: seq<string>, k: nat)
    requires k <= |variants| && Load(entries, fn, variants[..k]) == None
    ensures Load(entries, fn, variants) == None
    decreases |variants|
  {
    if k < |variants| {
      assert variants[..|variants| - 1][..k] == variants[..k];
      NoLoad(entries, fn, variants[..|variants| - 1], k);
    } else {
      assert variants[..k] == variants;
    }
  }

  /** Nothing but the entries of a file's own names matters to its load. */
  lemma {:induction false} LoadIsLocal(entries: map<string, seq<Info>>, other: map<string, seq<Info>>, fn: string, variants: seq<string>)
    requires forall c :: SameNames(entries, other, fn, c)
    ensures Load(entries, fn, variants) == Load(other, fn, variants)
    decreases |variants|
  {
    if variants != [] {
      LoadIsLocal(entries, other, fn, variants[..|variants| - 1]);
      var c := variants[|variants| - 1];
      assert SameNames(entries, other, fn, c);
    }
  }

  /** What two tables have in common for the names of a file. */
  predicate SameNames(entries: map<string, seq<Info>>, other: map<string, seq<Info>>, fn: string, c: string) {
    var v := VariantToVirtual(fn, c);
    (v in entries <==> v in other) && (v in entries ==> entries[v] == other[v])
  }

  /** Removing a real file leaves the names of every other file alone. */
  lemma RemovalIsElsewhere(entries: map<string, seq<Info>>, fn: string, g: string)
    requires NoColon(fn) && NoColon(g) && fn != g
    ensures forall c :: SameNames(entries - {fn}, entries, g, c)
  {
    forall c ensures SameNames(entries - {fn}, entries, g, c) { VariantsDiffer(g, c, fn, ""); }
  }

  lemma ValidIsLocal(e: Env, entries: map<string, seq<Info>>, other: map<string, seq<Info>>, fn: string, appends: seq<string>)
    requires forall c :: SameNames(entries, other, fn, c)
    ensures IsValid(e, entries, fn, appends) <==> IsValid(e, other, fn, appends)
    ensures LoadCached(entries, fn) == LoadCached(other, fn)
  {
    assert SameNames(entries, other, fn, "");
    if fn in entries && entries[fn] != [] {
      var variants := entries[fn][0].variants;
      assert forall i :: 0 <= i < |variants| ==> SameNames(entries, other, fn, variants[i]);
      LoadIsLocal(entries, other, fn, variants);
    }
  }

  // ---- the cache ----

  /** Valid with the appends that were recorded. */
  predicate StillValid(e: Env, entries: map<string, seq<Info>>, fn: string) {
    fn in entries && entries[fn] != [] && IsValid(e, entries, fn, entries[fn][0].appends)
  }

  class Cache {
    const env: Env
    var entries: map<string, seq<Info>>
    var clean: set<string>
    var checked: set<string>

    /** Entries are never empty, and a clean real file has been checked and is valid. */
    ghost predicate Valid()
      reads this
    {
      && (forall k :: k in entries ==> entries[k] != [])
      && (forall g :: g in clean && NoColon(g) ==> g in checked && StillValid(env, entries, g))
    }

    /** No other real file notices: only the entry of `fn` itself may go. */
    twostate predicate OthersKept(fn: string)
      reads this
    {
      && (entries == old(entries) || entries == old(entries) - {fn})
      && (forall g :: NoColon(g) && g != fn ==> (g in clean <==> g in old(clean)) && (g in checked <==> g in old(checked)))
    }

    constructor (e: Env, cached: map<string, seq<Info>>)
      requires forall k :: k in cached ==> cached[k] != []
      ensures Valid() && env == e && entries == cached && clean == {} && checked == {}
    {
      env, entries, clean, checked := e, cached, {}, {};
    }

    /** remove, of a recipe that turned out invalid */
    method Remove(fn: string)
      requires Valid() && NoColon(fn)
      modifies this`entries, this`clean
      ensures Valid() && entries == old(entries) - {fn} && clean == old(clean) - {fn}
    {
      entries := entries - {fn};
      clean := clean - {fn};
      forall g | g in clean && NoColon(g) ensures StillValid(env, entries, g) {
        RemovalIsElsewhere(old(entries), fn, g);
        ValidIsLocal(env, entries, old(entries), g, old(entries)[g][0].appends);
      }
    }

    method CheckDepends(depends: seq<(string, int)>) returns (ok: bool)
      ensures ok == DependsMatch(env, depends)
    {
      for i := 0 to |depends|
        invariant forall j :: 0 <= j < i ==> env.mtime(depends[j].0) == depends[j].1
      {
        var (f, oldMtime) := depends[i];
        var fmtime := env.mtime(f);
        if oldMtime != 0 && fmtime == 0 {
          return false;
        }
        if fmtime != oldMtime {
          return false;
        }
      }
      ok := true;
    }

    method CheckChecksums(checksums: seq<(string, Existed)>) returns (ok: bool)
      ensures ok == ChecksumsMatch(env, checksums)
    {
      for i := 0 to |checksums|
        invariant ChecksumsMatch(env, checksums[..i])
      {
        var (f, exist) := checksums[i];
        if (exist == Yes && !env.present(f)) || (exist == No && env.present(f)) {
          return false;
        }
        assert checksums[..i + 1] == checksums[..i] + [checksums[i]];
      }
      assert checksums[..|checksums|] == checksums;
      ok := true;
    }

    /** The checks of one recipe's record against the files. */
    method CheckFiles(fn: string, info: Info, appends: seq<string>) returns (ok: bool)
      ensures ok == FilesMatch(env, info, fn, appends)
    {
      var mtime := env.mtime(fn);
      if mtime == 0 || mtime != info.timestamp {
        return false;
      }
      ok := CheckDepends(info.fileDepends);
      if ok {
        ok := CheckChecksums(info.checksums);
      }
      ok := ok && appends == info.appends;
    }

    /** The names of a file's variants. */
    static function Names(fn: string, variants: seq<string>): set<string> {
      set i | 0 <= i < |variants| :: VariantToVirtual(fn, variants[i])
    }

    /** The variants are marked clean as they are looked up; `invalid` if one is absent or not full. */
    method MarkVariants(fn: string, variants: seq<string>) returns (invalid: bool)
      modifies this`clean
      ensures invalid == !VariantsFull(env, entries, fn, variants) && clean == old(clean) + Names(fn, variants)
    {
      invalid := false;
      for i := 0 to |variants|
        invariant invalid == !VariantsFull(env, entries, fn, variants[..i])
        invariant clean == old(clean) + Names(fn, variants[..i])
      {
        var virtualfn := VariantToVirtual(fn, variants[i]);
        NamesSnoc(fn, variants, i);
        FullSnoc(fn, variants, i);
        clean := clean + {virtualfn};
        invalid := invalid || virtualfn !in entries || |entries[virtualfn]| != env.classes;
      }
      assert variants[..|variants|] == variants;
    }

    lemma NamesSnoc(fn: string, variants: seq<string>, i: nat)
      requires i < |variants|
      ensures Names(fn, variants[..i + 1]) == Names(fn, variants[..i]) + {VariantToVirtual(fn, variants[i])}
    {
      var p, q := variants[..i + 1], variants[..i];
      assert p == q + [variants[i]];
      assert VariantToVirtual(fn, p[i]) in Names(fn, p);
      forall x | x in Names(fn, q) ensures x in Names(fn, p) {
        var j :| 0 <= j < |q| && x == VariantToVirtual(fn, q[j]);
        assert x == VariantToVirtual(fn, p[j]);
      }
    }

    lemma FullSnoc(fn: string, variants: seq<string>, i: nat)
      requires i < |variants|
      ensures VariantsFull(env, entries, fn, variants[..i + 1]) <==>
                var v := VariantToVirtual(fn, variants[i]);
                VariantsFull(env, entries, fn, variants[..i]) && v in entries && |entries[v]| == env.classes
    {
      assert variants[..i + 1] == variants[..i] + [variants[i]];
    }

    method UnmarkVariants(fn: string, variants: seq<string>)
      modifies this`clean
      ensures clean == old(clean) - Names(fn, variants) - {fn}
    {
      for i := 0 to |variants|
        invariant clean == old(clean) - Names(fn, variants[..i])
      {
        NamesSnoc(fn, variants, i);
        FullSnoc(fn, variants, i);
        clean := clean - {VariantToVirtual(fn, variants[i])};
      }
      assert variants[..|variants|] == variants;
      clean := clean - {fn};
    }

    /** The only real name among a file's variants is its own. */
    lemma NamesAreOwn(fn: string, variants: seq<string>, g: string)
      requires NoColon(fn) && NoColon(g) && g != fn
      ensures g !in Names(fn, variants)
    {
      forall i | 0 <= i < |variants| ensures VariantToVirtual(fn, variants[i]) != g {
        VariantsDiffer(fn, variants[i], g, "");
      }
    }

    /** The last stage of the check: all variants or none. */
    method CheckVariants(fn: string) returns (ok: bool)
      requires Valid() && NoColon(fn) && fn in entries && fn in checked
      requires FilesMatch(env, entries[fn][0], fn, entries[fn][0].appends)
      modifies this`clean
      ensures Valid() && ok == VariantsFull(env, entries, fn, entries[fn][0].variants) == (fn in clean)
      ensures forall g :: NoColon(g) && g != fn ==> (g in clean <==> g in old(clean))
    {
      var variants := entries[fn][0].variants;
      forall g | NoColon(g) && g != fn ensures g !in Names(fn, variants) { NamesAreOwn(fn, variants, g); }
      var invalid := MarkVariants(fn, variants);
      if invalid {
        UnmarkVariants(fn, variants);
        return false;
      }
      clean := clean + {fn};
      ok := true;
    }

    /** cacheValidUpdate: true exactly if everything recorded of the recipe is as it is now. */
    method CacheValidUpdate(fn: string, appends: seq<string>) returns (ok: bool)
      requires Valid() && NoColon(fn)
      modifies this
      ensures Valid() && OthersKept(fn) && fn in checked
      ensures ok == IsValid(env, old(entries), fn, appends) == (fn in clean)
      ensures ok ==> entries == old(entries)
    {
      checked := checked + {fn};
      if fn !in entries {
        return false;
      }
      ok := CheckFiles(fn, entries[fn][0], appends);
      if !ok {
        Remove(fn);
        return;
      }
      ok := CheckVariants(fn);
    }

    /** cacheValid: the first answer for a file stands; nothing is asked twice. */
    method CacheValid(fn: string, appends: seq<string>) returns (ok: bool)
      requires Valid() && NoColon(fn)
      modifies this
      ensures Valid() && OthersKept(fn) && fn in checked && ok == (fn in clean)
      ensures fn !in old(checked) ==> ok == IsValid(env, old(entries), fn, appends)
      ensures fn in old(checked) ==> ok == (fn in old(clean)) && entries == old(entries) && clean == old(clean)
    {
      if fn !in checked {
        var _ := CacheValidUpdate(fn, appends);
      }
      ok := fn in clean;
    }

    /** loadCached; None for a KeyError */
    method LoadInfos(fn: string) returns (infos: Option<seq<(string, seq<Info>)>>)
      requires Valid()
      ensures infos == LoadCached(entries, fn)
    {
      if fn !in entries {
        return None;
      }
      var variants := entries[fn][0].variants;
      var found: seq<(string, seq<Info>)> := [];
      for i := 0 to |variants|
        invariant Load(entries, fn, variants[..i]) == Some(found)
      {
        assert variants[..i + 1][..i] == variants[..i];
        var virtualfn := VariantToVirtual(fn, variants[i]);
        if virtualfn !in entries {
          NoLoad(entries, fn, variants, i + 1);
          return None;
        }
        found := found + [(virtualfn, entries[virtualfn])];
      }
      assert variants[..|variants|] == variants;
      infos := Some(found);
    }

    /** Checking a list of different recipes: each answer is what it would be alone and first, and
        every recipe found valid loads, in the end, all its variants with full arrays. */
    method CheckAll(files: seq<string>, appends: seq<seq<string>>) returns (valid: seq<bool>)
      requires Valid() && |appends| == |files| && forall i :: 0 <= i < |files| ==> NoColon(files[i]) && files[i] !in checked
      requires forall i, j :: 0 <= i < j < |files| ==> files[i] != files[j]
      modifies this
      ensures Valid() && |valid| == |files|
      ensures forall i :: 0 <= i < |files| ==> valid[i] == IsValid(env, old(entries), files[i], appends[i])
      ensures forall i :: 0 <= i < |files| && valid[i] ==> LoadsFully(env, entries, files[i])
    {
      valid := [];
      for i := 0 to |files|
        invariant Valid() && |valid| == i
        invariant forall j :: i <= j < |files| ==> files[j] !in checked
        invariant entries.Keys <= old(entries).Keys && (forall k :: k in entries ==> entries[k] == old(entries)[k])
        invariant forall k :: k in old(entries) && k !in entries ==> k in files[..i]
        invariant forall j :: 0 <= j < i ==> valid[j] == IsValid(env, old(entries), files[j], appends[j])
        invariant forall j :: 0 <= j < i && valid[j] ==> files[j] in clean
      {
        assert files[..i + 1] == files[..i] + [files[i]];
        OnlyEarlierGone(old(entries), files, i);
        ValidIsLocal(env, entries, old(entries), files[i], appends[i]);
        var ok := CacheValid(files[i], appends[i]);
        valid := valid + [ok];
      }
      forall i | 0 <= i < |files| && valid[i] ensures LoadsFully(env, entries, files[i]) {
        assert StillValid(env, entries, files[i]);
        FullLoads(env, entries, files[i], entries[files[i]][0].variants);
      }
    }

    lemma OnlyEarlierGone(before: map<string, seq<Info>>, files: seq<string>, i: nat)
      requires i < |files| && forall j :: 0 <= j < |files| ==> NoColon(files[j])
      requires forall j, k :: 0 <= j < k < |files| ==> files[j] != files[k]
      requires entries.Keys <= before.Keys && (forall k :: k in entries ==> entries[k] == before[k])
      requires forall k :: k in before && k !in entries ==> k in files[..i]
      ensures forall c :: SameNames(entries, before, files[i], c)
    {
      forall c ensures SameNames(entries, before, files[i], c) {
        var v := VariantToVirtual(files[i], c);
        forall j | 0 <= j < i ensures files[j] != v { VariantsDiffer(files[i], c, files[j], ""); }
      }
    }
  }

  /** loadCached finds every variant, with one record per cache class. */
  predicate LoadsFully(e: Env, entries: map<string, seq<Info>>, fn: string) {
    && fn in entries && entries[fn] != [] && LoadCached(entries, fn).Some?
    && |LoadCached(entries, fn).value| == |entries[fn][0].variants|
    && forall i :: 0 <= i < |entries[fn][0].variants| ==>
         var x := LoadCached(entries, fn).value[i];
         x.0 == VariantToVirtual(fn, entries[fn][0].variants[i]) && |x.1| == e.classes
  }
}
