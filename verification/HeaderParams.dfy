/** The parameters of a header value, however they are written (section 4.2 of RFC 7578). */
module HeaderParams {
  import opened Text
  import opened Headers
  import opened HeaderRoundTrip

  /** A parameter, quoted or not, and the white space behind the semicolon, the name and the equals
      sign. */
  datatype Param = Param(name: seq<char>, value: seq<char>, quoted: bool,
                         before: seq<char>, behind: seq<char>, inner: seq<char>)

  function ValueText(p: Param): seq<char> {
    if p.quoted then Quoted(p.value) else p.value
  }

  function RenderParam(p: Param): seq<char> {
    [';'] + (p.before + (p.name + (p.behind + (['='] + (p.inner + ValueText(p))))))
  }

  function RenderParams(ps: seq<Param>): seq<char> {
    if ps == [] then [] else RenderParam(ps[0]) + RenderParams(ps[1..])
  }

  predicate IsBlank(s: seq<char>) {
    SkipSpaces(s) == []
  }

  /** A value that may stand unquoted. */
  predicate IsBare(v: seq<char>) {
    ';' !in v && (v != [] ==> v[0] != '"' && !IsSpace(v[0]))
  }

  predicate IsParam(p: Param) {
    && IsBlank(p.before) && IsBlank(p.behind) && IsBlank(p.inner)
    && p.name != [] && (forall i :: 0 <= i < |p.name| ==> IsAlnum(p.name[i]))
    && if p.quoted then '"' !in p.value else IsBare(p.value)
  }

  /** What may follow a value. */
  predicate IsTail(t: seq<char>) {
    t != [] ==> t[0] == ';'
  }

  lemma BlankSkipped(blank: seq<char>, s: seq<char>)
    requires IsBlank(blank)
    ensures SkipSpaces(blank + s) == SkipSpaces(s)
  {
    SkipAppend(blank, s);
  }

  lemma ValueRead(p: Param, tail: seq<char>)
    requires IsParam(p) && IsTail(tail)
    ensures Valued(ValueText(p) + tail) == (Clip(p.value), tail) && SkipSpaces(ValueText(p) + tail) == ValueText(p) + tail
  {
    if p.quoted { QuotedRead(p.value, tail); } else { BareRead(p.value, tail); }
  }

  lemma QuotedRead(v: seq<char>, tail: seq<char>)
    requires '"' !in v && IsTail(tail)
    ensures Valued(Quoted(v) + tail) == (Clip(v), tail) && (Quoted(v) + tail)[0] == '"'
  {
    assert (Quoted(v) + tail)[1..] == v + ['"'] + tail;
    SplitAt(v, '"', tail);
    SplitTail(['"'], tail);
  }

  lemma BareRead(v: seq<char>, tail: seq<char>)
    requires IsBare(v) && IsTail(tail)
    ensures Valued(v + tail) == (Clip(v), tail) && SkipSpaces(v + tail) == v + tail
  {
    SplitTail(v, tail);
    assert v + tail != [] ==> (v + tail)[0] == if v != [] then v[0] else tail[0];
  }

  lemma SplitTail(v: seq<char>, tail: seq<char>)
    requires ';' !in v && IsTail(tail)
    ensures Before(v + tail, ';') == v && From(v + tail, ';') == tail
  {
    if tail == [] {
      assert v + tail == v;
      SplitNone(v, ';');
    } else {
      assert v + tail == v + [';'] + tail[1..] && [';'] + tail[1..] == tail;
      SplitAt(v, ';', tail[1..]);
    }
  }

  /** The name in front of an equals sign, and what is behind that. */
  lemma NameRead(p: Param, more: seq<char>)
    requires IsParam(p) && SkipSpaces(more) == more
    ensures ParamName(p.before + (p.name + (p.behind + (['='] + (p.inner + more))))) == (true, Clip(p.name), more)
  {
    var rest := p.behind + (['='] + (p.inner + more));
    BlankSkipped(p.before, p.name + rest);
    assert SkipSpaces(p.name + rest) == p.name + rest by { assert IsAlnum((p.name + rest)[0]); }
    BehindIsNoName(p.behind, p.inner + more);
    AlnumPrefixStops(p.name, rest);
    assert (p.name + rest)[|p.name|..] == rest;
    BlankSkipped(p.behind, ['='] + (p.inner + more));
    BlankSkipped(p.inner, more);
    assert (['='] + (p.inner + more))[1..] == p.inner + more;
  }

  lemma BehindIsNoName(blank: seq<char>, more: seq<char>)
    requires IsBlank(blank)
    ensures !IsAlnum((blank + (['='] + more))[0])
  {
    if blank != [] { assert IsSpace(blank[0]); }
  }

  /** The values with one more parameter stored. */
  function Stored(args: seq<seq<char>>, names: seq<seq<char>>, p: Param): seq<seq<char>>
    requires |args| == |names|
  {
    var i := Find(Clip(p.name), names);
    if i < |names| then args[i := Clip(p.value)] else args
  }

  lemma ParamRead(p: Param, tail: seq<char>, names: seq<seq<char>>, args: seq<seq<char>>)
    requires IsParam(p) && IsTail(tail) && |args| == |names|
    ensures Params(RenderParam(p) + tail, names, args) == Params(tail, names, Stored(args, names, p))
  {
    var more := ValueText(p) + tail;
    ParamText(p, tail);
    ValueRead(p, tail);
    NameRead(p, more);
    ParamStored([';'] + (p.before + (p.name + (p.behind + (['='] + (p.inner + more))))), Clip(p.name), more, names, args);
  }

  lemma ParamText(p: Param, tail: seq<char>)
    ensures RenderParam(p) + tail == [';'] + (p.before + (p.name + (p.behind + (['='] + (p.inner + (ValueText(p) + tail))))))
  {
    var a := p.inner + ValueText(p);
    var b := p.behind + (['='] + a);
    assert a + tail == p.inner + (ValueText(p) + tail);
    assert b + tail == p.behind + (['='] + (a + tail));
    assert (p.name + b) + tail == p.name + (b + tail);
  }

  lemma ParamStored(s: seq<char>, name: seq<char>, more: seq<char>, names: seq<seq<char>>, args: seq<seq<char>>)
    requires s != [] && s[0] == ';' && ParamName(s[1..]) == (true, name, more) && |args| == |names|
    ensures var i, (val, rest) := Find(name, names), Valued(more);
            Params(s, names, args) == Params(rest, names, if i < |names| then args[i := val] else args)
  {
  }

  /** Parameter `k` is the last one of wanted name `i`. */
  predicate IsLast(ps: seq<Param>, names: seq<seq<char>>, i: int, k: int) {
    && 0 <= k < |ps| && Find(Clip(ps[k].name), names) == i
    && forall j :: k < j < |ps| ==> Find(Clip(ps[j].name), names) != i
  }

  /** A wanted name has the value of its last parameter, and its old one if it has none. */
  ghost predicate Says(ps: seq<Param>, names: seq<seq<char>>, before: seq<seq<char>>, after: seq<seq<char>>) {
    && |before| == |names| == |after|
    && forall i :: 0 <= i < |names| ==> SaysOf(ps, names, i, before[i], after[i])
  }

  ghost predicate SaysOf(ps: seq<Param>, names: seq<seq<char>>, i: int, before: seq<char>, after: seq<char>) {
    && (forall k :: IsLast(ps, names, i, k) ==> after == Clip(ps[k].value))
    && ((forall j :: 0 <= j < |ps| ==> Find(Clip(ps[j].name), names) != i) ==> after == before)
  }

  lemma SaysStep(ps: seq<Param>, names: seq<seq<char>>, before: seq<seq<char>>, after: seq<seq<char>>)
    requires ps != [] && |before| == |names| && Says(ps[1..], names, Stored(before, names, ps[0]), after)
    ensures Says(ps, names, before, after)
  {
    forall i | 0 <= i < |names| ensures SaysOf(ps, names, i, before[i], after[i]) {
      SaysOfStep(ps, names, i, before[i], Stored(before, names, ps[0])[i], after[i]);
    }
  }

  lemma SaysOfStep(ps: seq<Param>, names: seq<seq<char>>, i: int, before: seq<char>, stored: seq<char>, after: seq<char>)
    requires ps != [] && SaysOf(ps[1..], names, i, stored, after)
    requires stored == if Find(Clip(ps[0].name), names) == i then Clip(ps[0].value) else before
    ensures SaysOf(ps, names, i, before, after)
  {
    assert forall j :: 0 < j < |ps| ==> ps[j] == ps[1..][j - 1];
    forall k | IsLast(ps, names, i, k) ensures after == Clip(ps[k].value) {
      if k > 0 { assert IsLast(ps[1..], names, i, k - 1); }
    }
  }

  /** Behind the parameters there is nothing, or a malformed one, which ends the list. */
  predicate IsEnd(t: seq<char>) {
    t != [] ==> t[0] == ';' && !ParamName(t[1..]).0
  }

  lemma {:induction false} ParamsSay(ps: seq<Param>, end: seq<char>, names: seq<seq<char>>, args: seq<seq<char>>)
    requires (forall p :: p in ps ==> IsParam(p)) && IsEnd(end) && |args| == |names|
    ensures Says(ps, names, args, Params(RenderParams(ps) + end, names, args))
    decreases |ps|
  {
    if ps == [] {
      assert RenderParams(ps) + end == end;
      EndsParams(end, names, args);
    } else {
      assert ps[0] in ps && forall p :: p in ps[1..] ==> p in ps;
      FirstRead(ps, end, names, args);
      ParamsSay(ps[1..], end, names, Stored(args, names, ps[0]));
      SaysStep(ps, names, args, Params(RenderParams(ps) + end, names, args));
    }
  }

  lemma EndsParams(end: seq<char>, names: seq<seq<char>>, args: seq<seq<char>>)
    requires IsEnd(end) && |args| == |names|
    ensures Params(end, names, args) == args
  {
  }

  lemma FirstText(x: seq<char>, y: seq<char>, z: seq<char>)
    ensures x + y + z == x + (y + z)
  {
  }

  lemma FirstRead(ps: seq<Param>, end: seq<char>, names: seq<seq<char>>, args: seq<seq<char>>)
    requires ps != [] && IsParam(ps[0]) && IsEnd(end) && |args| == |names|
    ensures Params(RenderParams(ps) + end, names, args)
         == Params(RenderParams(ps[1..]) + end, names, Stored(args, names, ps[0]))
  {
    var tail := RenderParams(ps[1..]) + end;
    FirstText(RenderParam(ps[0]), RenderParams(ps[1..]), end);
    TailStarts(ps[1..], end);
    ParamRead(ps[0], tail, names, args);
  }

  lemma TailStarts(ps: seq<Param>, end: seq<char>)
    requires IsEnd(end)
    ensures IsTail(RenderParams(ps) + end)
  {
  }

  /** Any value with any list of parameters, in whatever order and spacing, quoted or not, repeated or not
      wanted: each wanted name gets its last value, up to a malformed parameter, and none if it has none. */
  lemma DecomposeSays(blank: seq<char>, main: seq<char>, ps: seq<Param>, end: seq<char>, names: seq<seq<char>>)
    requires IsBlank(blank) && IsBare(main) && (forall p :: p in ps ==> IsParam(p)) && IsEnd(end)
    ensures var (m, args) := Decompose(blank + (main + (RenderParams(ps) + end)), names);
            m == Clip(main) && Says(ps, names, seq(|names|, _ => []), args)
  {
    var tail := RenderParams(ps) + end;
    TailStarts(ps, end);
    BlankSkipped(blank, main + tail);
    BareRead(main, tail);
    ParamsSay(ps, end, names, seq(|names|, _ => []));
  }
}
