/** The headers of a rendered part (section 4.2 of RFC 7578), read back by cgic. */
module HeaderRoundTrip {
  import opened Text
  import opened MpStreams
  import opened Headers
  import opened Multipart

  const CRLF: seq<char> := "\r\n"

  /** A part: a file if it has a file name, with a content type if that is not empty. */
  datatype Part = Part(name: seq<char>, fileName: seq<char>, contentType: seq<char>, body: seq<char>)

  function Quoted(s: seq<char>): seq<char> {
    "\"" + s + "\""
  }

  function ParamText(name: seq<char>, value: seq<char>): seq<char> {
    "; " + name + "=" + Quoted(value)
  }

  function FileParam(p: Part): seq<char> {
    if p.fileName == [] then [] else ParamText("filename", p.fileName)
  }

  function Disposition(p: Part): seq<char> {
    "form-data" + (ParamText("name", p.name) + FileParam(p))
  }

  function RenderLine(attr: seq<char>, value: seq<char>): seq<char> {
    attr + ": " + value + CRLF
  }

  function TypeLine(p: Part): seq<char> {
    if p.contentType == [] then [] else RenderLine("Content-Type", p.contentType)
  }

  function RenderPart(p: Part): seq<char> {
    RenderLine("Content-Disposition", Disposition(p))
    + TypeLine(p) + CRLF + p.body
  }

  /** No character that ends a line, a string or a header name. */
  predicate IsText(s: seq<char>) {
    '\r' !in s && '\n' !in s && ':' !in s && NUL !in s
  }

  /** A content type that comes back: no parameters, no white space in front, and not quoted. */
  predicate IsTypeText(t: seq<char>) {
    IsText(t) && ';' !in t && |t| < SPACE && (t != [] ==> !IsSpace(t[0]) && t[0] != '"')
  }

  /** The headers that come back. Of a header value one character less than the buffer is kept, which
      may cost it the last quote. */
  predicate HasHeaders(p: Part) {
    && IsText(p.name) && '"' !in p.name && IsText(p.fileName) && '"' !in p.fileName
    && |Disposition(p)| <= SPACE && IsTypeText(p.contentType)
  }

  function PartFields(p: Part): Fields {
    Fields("form-data", p.name, p.fileName, p.contentType)
  }

  // ---- header lines ----

  /** The blank line ends the headers. */
  lemma BlankLine(v: seq<char>)
    ensures HeaderLine(CRLF + v, [], [], false) == Line(false, [], [], v)
  {
    assert (CRLF + v)[2..] == v;
  }

  /** A value as far as the buffer goes. */
  lemma {:induction false} ValuePrefix(a: seq<char>, done: seq<char>, x: seq<char>, more: seq<char>)
    requires a != [] && IsLineText(x)
    ensures HeaderLine(x + more, a, Clip(done), true) == HeaderLine(more, a, Clip(done + x), true)
    decreases |x|
  {
    if x == [] {
      assert x + more == more && done + x == done;
    } else {
      assert IsLineText(x[..1]);
      ValueGoesOn(a, Clip(done), x, more);
      AppendClips(done, x[0]);
      ValuePrefix(a, done + [x[0]], x[1..], more);
      OneMore(done, x);
    }
  }

  lemma OneMore(done: seq<char>, x: seq<char>)
    requires x != []
    ensures done + [x[0]] + x[1..] == done + x
  {
  }

  lemma ValueGoesOn(a: seq<char>, value: seq<char>, x: seq<char>, more: seq<char>)
    requires x != [] && IsLineText(x[..1])
    ensures HeaderLine(x + more, a, value, true) == HeaderLine(x[1..] + more, a, Append(value, x[0]), true)
  {
    assert x[..1] == [x[0]] && (x + more)[1..] == x[1..] + more;
  }

  /** A line ends with CRLF, or with either character alone. */
  predicate IsLineEnd(end: seq<char>, rest: seq<char>) {
    end == CRLF || end == ['\n'] || (end == ['\r'] && (rest != [] ==> rest[0] != '\n'))
  }

  lemma ValueEnds(a: seq<char>, value: seq<char>, end: seq<char>, rest: seq<char>)
    requires IsLineEnd(end, rest)
    ensures HeaderLine(end + rest, a, value, true) == Ended(a, value, rest)
  {
    assert (end + rest)[|end|..] == rest;
  }

  lemma LineValue(a: seq<char>, done: seq<char>, x: seq<char>, end: seq<char>, rest: seq<char>)
    requires a != [] && IsLineText(x) && IsLineEnd(end, rest)
    ensures HeaderLine(x + (end + rest), a, Clip(done), true) == Ended(a, Clip(done + x), rest)
  {
    ValuePrefix(a, done, x, end + rest);
    ValueEnds(a, Clip(done + x), end, rest);
  }

  lemma AppendClips(s: seq<char>, c: char)
    ensures Append(Clip(s), c) == Clip(s + [c])
  {
  }

  /** No colon and no end of line. */
  predicate IsLineText(s: seq<char>) {
    '\r' !in s && '\n' !in s && ':' !in s
  }

  /** Behind the name, of which the buffer's length is kept, white space is skipped, even past the end
      of the line. */
  lemma {:induction false} LineName(done: seq<char>, a: seq<char>, more: seq<char>)
    requires IsLineText(a) && (forall i :: 0 <= i < |a| ==> !IsSpace(a[i])) && done + a != []
    ensures HeaderLine(a + ": " + more, Clip(done), [], false) == HeaderLine(SkipSpaces(more), Clip(done + a), [], true)
    decreases |a|
  {
    if a == [] {
      NameEnds(Clip(done), a, more);
      assert done + a == done;
    } else {
      NameGoesOn(Clip(done), a, more);
      AppendClips(done, a[0]);
      LineName(done + [a[0]], a[1..], more);
      OneMore(done, a);
    }
  }

  lemma NameEnds(name: seq<char>, a: seq<char>, more: seq<char>)
    requires a == [] && name != []
    ensures HeaderLine(a + ": " + more, name, [], false) == HeaderLine(SkipSpaces(more), name, [], true)
  {
    var v := a + ": " + more;
    assert v[0] == ':' && v[1..] == " " + more && v[1..][1..] == more;
  }

  lemma NameGoesOn(name: seq<char>, a: seq<char>, more: seq<char>)
    requires a != [] && IsLineText(a) && !IsSpace(a[0])
    ensures HeaderLine(a + ": " + more, name, [], false) == HeaderLine(a[1..] + ": " + more, Append(name, a[0]), [], false)
  {
    assert (a + ": " + more)[1..] == a[1..] + ": " + more;
  }

  predicate IsLineName(a: seq<char>) {
    IsLineText(a) && (forall i :: 0 <= i < |a| ==> !IsSpace(a[i])) && a != []
  }

  lemma LineStarts(a: seq<char>, x: seq<char>, rest: seq<char>)
    requires IsLineName(a)
    ensures HeaderLine(RenderLine(a, x) + rest, [], [], false) == HeaderLine(SkipSpaces(x + CRLF + rest), Clip(a), [], true)
  {
    var none: seq<char> := [];
    assert Clip(none) == none && none + a == a;
    LineName(none, a, x + CRLF + rest);
    LineRegroup(a, x, rest);
  }

  lemma LineRegroup(a: seq<char>, x: seq<char>, rest: seq<char>)
    ensures RenderLine(a, x) + rest == a + ": " + (x + CRLF + rest)
  {
  }

  // ---- what a header value can hold ----

  /** No character of a header value comes from nowhere. */
  lemma ValuedChars(s: seq<char>, c: char)
    requires c !in s
    ensures c !in Valued(s).0 && c !in Valued(s).1
  {
    var q := if s != [] && s[0] == '"' then s[1..] else s;
    assert c !in q;
    BeforeFrom(q, '"');
    BeforeFrom(q, ';');
    BeforeFrom(From(q, '"'), ';');
  }

  /** A value has no quotes, or no semicolons. */
  predicate IsValue(s: seq<char>) {
    '"' !in s || ';' !in s
  }

  lemma ValuedIsValue(s: seq<char>)
    ensures IsValue(Valued(s).0)
  {
    BeforeFrom(s, ';');
    if s != [] { BeforeFrom(s[1..], '"'); }
  }

  lemma ParamNameChars(s: seq<char>, c: char)
    requires c !in s
    ensures c !in ParamName(s).2
  {
    var s1 := SkipSpaces(s);
    SkippedChars(s, c);
    var s2 := s1[|AlnumPrefix(s1)|..];
    SkippedChars(s2, c);
    if SkipSpaces(s2) != [] { SkippedChars(SkipSpaces(s2)[1..], c); }
  }

  lemma {:induction false} SkippedChars(s: seq<char>, c: char)
    requires c !in s
    ensures c !in SkipSpaces(s)
  {
    if s != [] && IsSpace(s[0]) { SkippedChars(s[1..], c); }
  }

  lemma {:induction false} ParamsChars(s: seq<char>, names: seq<seq<char>>, args: seq<seq<char>>, c: char)
    requires |args| == |names| && c !in s && forall i :: 0 <= i < |args| ==> c !in args[i]
    ensures forall i :: 0 <= i < |names| ==> c !in Params(s, names, args)[i]
    decreases |s|
  {
    if s != [] && s[0] == ';' {
      var (ok, name, s3) := ParamName(s[1..]);
      ParamNameChars(s[1..], c);
      ValuedChars(s3, c);
      if ok {
        var i, val, rest := Find(name, names), Valued(s3).0, Valued(s3).1;
        ParamsChars(rest, names, if i < |names| then args[i := val] else args, c);
      }
    }
  }

  lemma {:induction false} ParamsAreValues(s: seq<char>, names: seq<seq<char>>, args: seq<seq<char>>)
    requires |args| == |names| && forall i :: 0 <= i < |args| ==> IsValue(args[i])
    ensures forall i :: 0 <= i < |names| ==> IsValue(Params(s, names, args)[i])
    decreases |s|
  {
    if s != [] && s[0] == ';' {
      var (ok, name, s3) := ParamName(s[1..]);
      ValuedIsValue(s3);
      if ok {
        var i, val, rest := Find(name, names), Valued(s3).0, Valued(s3).1;
        ParamsAreValues(rest, names, if i < |names| then args[i := val] else args);
      }
    }
  }

  lemma DecomposeChars(s: seq<char>, names: seq<seq<char>>, c: char)
    requires c !in s
    ensures c !in Decompose(s, names).0 && forall i :: 0 <= i < |names| ==> c !in Decompose(s, names).1[i]
  {
    SkippedChars(s, c);
    ValuedChars(SkipSpaces(s), c);
    ParamsChars(Valued(SkipSpaces(s)).1, names, seq(|names|, _ => []), c);
  }

  /** A line's value holds no colon and no end of line. */
  lemma {:induction false} LineIsText(v: seq<char>, attr: seq<char>, value: seq<char>, found: bool)
    requires IsLineText(value) && (found ==> attr != [])
    ensures IsLineText(HeaderLine(v, attr, value, found).value)
    decreases |v|
  {
    if v == [] || v[0] == '\r' || v[0] == '\n' {
      // the line ends here
    } else if v[0] == ':' && attr != [] {
      LineIsText(SkipSpaces(v[1..]), attr, value, true);
    } else if found {
      LineIsText(v[1..], attr, Append(value, v[0]), found);
    } else {
      LineIsText(v[1..], if IsSpace(v[0]) then attr else Append(attr, v[0]), value, found);
    }
  }

  predicate AreText(h: Fields) {
    IsText(h.name) && IsText(h.fileName) && IsText(h.contentType)
  }

  lemma CStringIsText(s: seq<char>)
    requires IsLineText(s)
    ensures IsText(CString(s))
  {
    BeforeFrom(s, NUL);
  }

  lemma DecomposeIsText(s: seq<char>, names: seq<seq<char>>)
    requires IsText(s)
    ensures IsText(Decompose(s, names).0) && forall i :: 0 <= i < |names| ==> IsText(Decompose(s, names).1[i])
  {
    DecomposeChars(s, names, '\r');
    DecomposeChars(s, names, '\n');
    DecomposeChars(s, names, ':');
    DecomposeChars(s, names, NUL);
  }

  lemma AbsorbIsText(h: Fields, attr: seq<char>, value: seq<char>)
    requires AreText(h) && IsLineText(value)
    ensures AreText(Absorb(h, attr, value))
  {
    CStringIsText(value);
    DecomposeIsText(CString(value), ARG_NAMES);
    DecomposeIsText(CString(value), []);
  }

  lemma {:induction false} HeadersAreText(v: seq<char>, h: Fields)
    requires AreText(h)
    ensures AreText(PartHeaders(v, h).0)
    decreases |v|
  {
    var l := HeaderLine(v, [], [], false);
    LineIsText(v, [], [], false);
    if l.ok {
      AbsorbIsText(h, l.attr, l.value);
      HeadersAreText(l.rest, Absorb(h, l.attr, l.value));
    }
  }

  // ---- parameters ----

  /** A parameter up to its value, behind the opening quote. */
  function Opened(name: seq<char>): (r: seq<char>)
    ensures |r| == |name| + 4
  {
    "; " + name + "=\""
  }

  predicate IsParamName(name: seq<char>) {
    0 < |name| < SPACE && forall i :: 0 <= i < |name| ==> IsAlnum(name[i])
  }

  lemma ParamNameOf(name: seq<char>, s: seq<char>)
    requires 0 < |name| < SPACE && forall i :: 0 <= i < |name| ==> IsAlnum(name[i])
    requires s != [] && s[0] == '"'
    ensures ParamName(" " + name + "=" + s) == (true, name, s)
  {
    var v := " " + name + "=" + s;
    var v1 := name + ("=" + s);
    assert v[1..] == v1 && IsAlnum(v1[0]);
    assert SkipSpaces(v) == SkipSpaces(v1) == v1;
    AlnumPrefixStops(name, "=" + s);
    assert v1[|name|..] == "=" + s;
    assert ("=" + s)[1..] == s;
  }

  lemma ParamsUnfold(s: seq<char>, names: seq<seq<char>>, args: seq<seq<char>>, name: seq<char>, s3: seq<char>)
    requires |args| == |names| && s != [] && s[0] == ';' && ParamName(s[1..]) == (true, name, s3)
    requires Find(name, names) < |names|
    ensures Params(s, names, args) == Params(Valued(s3).1, names, args[Find(name, names) := Valued(s3).0])
  {
  }

  lemma FindNames()
    ensures Find("name", ARG_NAMES) == 0
    ensures Find("filename", ARG_NAMES) == 1
  {
    assert EqNc("name", "name") && EqNc("filename", "filename");
    assert !EqNc("filename", "name");
    assert ARG_NAMES[1..] == ["filename"];
  }

  /** A quoted value, cut off or not, up to the next quote, and what follows it. */
  lemma ValuedCut(g: seq<char>)
    ensures Valued(['"'] + g) == (Clip(Before(g, '"')), From(From(g, '"'), ';'))
  {
    assert (['"'] + g)[1..] == g;
  }

  lemma ParamCut(name: seq<char>, g: seq<char>, names: seq<seq<char>>, args: seq<seq<char>>)
    requires IsParamName(name)
    requires |args| == |names| && Find(name, names) < |names|
    ensures Params(Opened(name) + g, names, args)
         == Params(From(From(g, '"'), ';'), names, args[Find(name, names) := Clip(Before(g, '"'))])
  {
    var s := Opened(name) + g;
    assert s[0] == ';' && s[1..] == " " + name + "=" + (['"'] + g);
    ParamNameOf(name, ['"'] + g);
    ValuedCut(g);
    ParamsUnfold(s, names, args, name, ['"'] + g);
  }

  /** A parameter cut off before its equals sign is none. */
  lemma NameCut(name: seq<char>, names: seq<seq<char>>, args: seq<seq<char>>, m: nat)
    requires (forall i :: 0 <= i < |name| ==> IsAlnum(name[i])) && |args| == |names| && m <= |name| + 2
    ensures Params(("; " + name)[..m], names, args) == args
  {
    if m >= 2 {
      var a := name[..m - 2];
      var s := ("; " + name)[..m];
      assert s[1..] == " " + a && (" " + a)[1..] == a;
      assert a != [] ==> !IsSpace(a[0]);
      assert SkipSpaces(" " + a) == a;
      AlnumPrefixStops(a, []);
      assert a + [] == a && a[|a|..] == [];
    }
  }

  lemma EmptyCut(name: seq<char>, names: seq<seq<char>>, args: seq<seq<char>>)
    requires IsParamName(name)
    requires |args| == |names| && Find(name, names) < |names|
    ensures Params("; " + name + "=", names, args) == args[Find(name, names) := []]
  {
    var s := "; " + name + "=";
    EmptyText(name);
    ParamNameEmpty(name);
    ValuedEmpty();
    NoMoreParams(s, names, args, name, []);
  }

  lemma EmptyText(name: seq<char>)
    ensures ("; " + name + "=")[0] == ';' && ("; " + name + "=")[1..] == " " + name + "="
  {
  }

  lemma ValuedEmpty()
    ensures Valued([]) == ([], [])
  {
  }

  lemma NoMoreParams(s: seq<char>, names: seq<seq<char>>, args: seq<seq<char>>, name: seq<char>, s3: seq<char>)
    requires |args| == |names| && s != [] && s[0] == ';' && ParamName(s[1..]) == (true, name, s3)
    requires Find(name, names) < |names| && Valued(s3).1 == []
    ensures Params(s, names, args) == args[Find(name, names) := Valued(s3).0]
  {
    ParamsUnfold(s, names, args, name, s3);
  }

  lemma ParamNameEmpty(name: seq<char>)
    requires IsParamName(name)
    ensures ParamName(" " + name + "=") == (true, name, [])
  {
    var v := " " + name + "=";
    var v1 := name + "=";
    assert v[1..] == v1 && IsAlnum(v1[0]);
    assert SkipSpaces(v) == SkipSpaces(v1) == v1;
    AlnumPrefixStops(name, "=");
    assert v1[|name|..] == "=" && "="[1..] == [];
  }

  /** What of a quoted value may be cut off without changing it. */
  lemma CutValue(f: seq<char>, n: nat)
    requires n <= |f| + 1
    ensures Before((f + ['"'])[..n], '"') == f <==> '"' !in f && n >= |f|
  {
    var g := (f + ['"'])[..n];
    if n <= |f| {
      assert g == f[..n];
      if '"' !in f { SplitNone(g, '"'); }
    } else {
      assert g == f + ['"'] + [];
      if '"' !in f { SplitAt(f, '"', []); }
    }
  }

  lemma FromChars(s: seq<char>, q: char, c: char)
    requires c !in s
    ensures c !in From(s, q)
  {
    BeforeFrom(s, q);
  }

  lemma FromQuote(f: seq<char>, n: nat)
    requires n <= |f| + 1 && '"' !in f
    ensures From((f + ['"'])[..n], '"') == if n <= |f| then [] else ['"']
  {
    var g := (f + ['"'])[..n];
    if n <= |f| {
      assert g == f[..n];
      SplitNone(g, '"');
    } else {
      assert g == f + ['"'] + [] && ['"'] + [] == ['"'];
      SplitAt(f, '"', []);
    }
  }

  /** Behind such a value there is nothing more. */
  lemma CutRest(f: seq<char>, n: nat)
    requires n <= |f| + 1 && IsValue(f)
    ensures From(From((f + ['"'])[..n], '"'), ';') == []
  {
    var g := (f + ['"'])[..n];
    if ';' !in f {
      FromChars(g, '"', ';');
    } else {
      FromQuote(f, n);
    }
    SplitNone(From(g, '"'), ';');
  }

  /** A parameter cut off anywhere: it leaves the others alone, and gives its value iff that has no
      quote and is there whole. */
  lemma LastParamCut(name: seq<char>, names: seq<seq<char>>, i: nat, f: seq<char>, m: nat, args: seq<seq<char>>)
    returns (v: seq<char>)
    requires IsParamName(name)
    requires |args| == |names| && i < |names| && Find(name, names) == i && args[i] == [] && f != [] && IsValue(f)
    requires m <= |ParamText(name, f)| && m <= SPACE
    ensures Params(ParamText(name, f)[..m], names, args) == args[i := v]
    ensures v == f <==> '"' !in f && m >= |ParamText(name, f)| - 1
  {
    if m <= |name| + 3 {
      v := [];
      ShortCut(name, names, i, f, m, args);
    } else {
      v := ValueCut(name, names, i, f, m - |name| - 4, m, args);
    }
  }

  lemma ShortCut(name: seq<char>, names: seq<seq<char>>, i: nat, f: seq<char>, m: nat, args: seq<seq<char>>)
    requires IsParamName(name) && m <= |name| + 3
    requires |args| == |names| && i < |names| && Find(name, names) == i && args[i] == []
    ensures Params(ParamText(name, f)[..m], names, args) == args[i := []]
  {
    var s := ParamText(name, f)[..m];
    if m <= |name| + 2 {
      assert s == ("; " + name)[..m];
      NameCut(name, names, args, m);
      assert args[i := []] == args;
    } else {
      assert s == "; " + name + "=";
      EmptyCut(name, names, args);
    }
  }

  lemma ValueCut(name: seq<char>, names: seq<seq<char>>, i: nat, f: seq<char>, n: nat, m: nat, args: seq<seq<char>>)
    returns (v: seq<char>)
    requires IsParamName(name)
    requires |args| == |names| && i < |names| && Find(name, names) == i && IsValue(f)
    requires n <= |f| + 1 && n < SPACE && m == n + |name| + 4
    ensures Params(ParamText(name, f)[..m], names, args) == args[i := v]
    ensures v == f <==> '"' !in f && n >= |f|
  {
    var g := (f + ['"'])[..n];
    ParamTextCut(name, f, n, m);
    CutValue(f, n);
    CutRest(f, n);
    v := Before(g, '"');
    LastValue(name, names, i, g, args);
  }

  lemma LastValue(name: seq<char>, names: seq<seq<char>>, i: nat, g: seq<char>, args: seq<seq<char>>)
    requires IsParamName(name) && |args| == |names| && i < |names| && Find(name, names) == i
    requires |g| < SPACE && From(From(g, '"'), ';') == []
    ensures Params(Opened(name) + g, names, args) == args[i := Before(g, '"')]
  {
    ParamCut(name, g, names, args);
    NoParams(names, args[i := Before(g, '"')]);
  }

  lemma PrefixOfSum(a: seq<char>, b: seq<char>, n: nat)
    requires n <= |b|
    ensures (a + b)[..n + |a|] == a + b[..n]
  {
  }

  lemma ParamTextCut(name: seq<char>, f: seq<char>, n: nat, m: nat)
    requires n <= |f| + 1 && m == n + |name| + 4
    ensures ParamText(name, f)[..m] == Opened(name) + (f + ['"'])[..n]
  {
    var a := Opened(name);
    assert ParamText(name, f) == a + (f + ['"']);
    PrefixOfSum(a, f + ['"'], n);
  }

  lemma NoParams(names: seq<seq<char>>, args: seq<seq<char>>)
    requires |args| == |names|
    ensures Params([], names, args) == args
  {
  }

  // ---- the disposition ----

  lemma {:induction false} FromAppend(a: seq<char>, b: seq<char>, c: char)
    requires c in a
    ensures From(a + b, c) == From(a, c) + b && Before(a + b, c) == Before(a, c)
    decreases |a|
  {
    if a[0] == c {
      assert (a + b)[0] == c;
    } else {
      assert (a + b)[1..] == a[1..] + b;
      assert a == [a[0]] + a[1..];
      FromAppend(a[1..], b, c);
    }
  }

  lemma {:induction false} FromBehind(a: seq<char>, b: seq<char>, c: char)
    requires c !in a
    ensures From(a + b, c) == From(b, c)
    decreases |a|
  {
    if a == [] {
      assert a + b == b;
    } else {
      assert (a + b)[1..] == a[1..] + b;
      FromBehind(a[1..], b, c);
    }
  }

  /** What of the disposition's parameters is left behind the name, if they are cut off after `n`
      characters. */
  lemma BehindName(name: seq<char>, more: seq<char>, n: nat)
    requires IsValue(name) && n <= |name| + 1 + |more| && (more != [] ==> more[0] == ';')
    ensures var g := (name + ['"'] + more)[..n];
            && (Before(g, '"') == name <==> '"' !in name && n >= |name|)
            && From(From(g, '"'), ';') == if n <= |name| then [] else more[..n - |name| - 1]
  {
    var g, a := (name + ['"'] + more)[..n], name + ['"'];
    if n <= |name| {
      assert g == a[..n];
      CutValue(name, n);
      CutRest(name, n);
    } else {
      var b := more[..n - |name| - 1];
      assert g == a + b && a[..|a|] == a;
      CutValue(name, |a|);
      CutRest(name, |a|);
      FromAppend(a, b, '"');
      NotIn(From(a, '"'), ';');
      FromBehind(From(a, '"'), b, ';');
    }
  }

  lemma NotIn(s: seq<char>, c: char)
    requires From(s, c) == []
    ensures c !in s
  {
    BeforeFrom(s, c);
  }

  /** The two parameters of a disposition, cut off after `n` characters of the first value and what
      follows it. */
  lemma ParamsIff(a: seq<char>, b: seq<char>, names: seq<seq<char>>, x: seq<char>, y: seq<char>, more: seq<char>, n: nat)
    requires IsParamName(a) && IsParamName(b) && |names| == 2 && Find(a, names) == 0 && Find(b, names) == 1
    requires IsValue(x) && IsValue(y) && more == (if y == [] then [] else ParamText(b, y))
    requires n <= |x| + 1 + |more| && n < SPACE
    ensures Params(Opened(a) + (x + ['"'] + more)[..n], names, NO_ARGS) == [x, y]
            <==> '"' !in x && '"' !in y && n >= |x| + |more|
  {
    var g := (x + ['"'] + more)[..n];
    BehindName(x, more, n);
    var v := Before(g, '"');
    FirstParam(a, names, g);
    var f := MoreParams(b, names, v, y, more, if n <= |x| then 0 else n - |x| - 1);
    assert more[..0] == [];
  }

  lemma MoreParams(b: seq<char>, names: seq<seq<char>>, v: seq<char>, y: seq<char>, more: seq<char>, m: nat)
    returns (f: seq<char>)
    requires IsParamName(b) && |names| == 2 && Find(b, names) == 1 && IsValue(y)
    requires more == (if y == [] then [] else ParamText(b, y)) && m <= |more| && m <= SPACE
    ensures Params(more[..m], names, [v, []]) == [v, f]
    ensures f == y <==> more == [] || ('"' !in y && m >= |more| - 1)
  {
    if y == [] {
      f := [];
      NoParams(names, [v, []]);
    } else {
      f := SecondParam(b, names, v, y, m);
    }
  }

  lemma FirstParam(a: seq<char>, names: seq<seq<char>>, g: seq<char>)
    requires IsParamName(a) && |names| == 2 && Find(a, names) == 0 && |g| < SPACE
    ensures Params(Opened(a) + g, names, NO_ARGS) == Params(From(From(g, '"'), ';'), names, [Before(g, '"'), []])
  {
    BeforeFrom(g, '"');
    ParamCut(a, g, names, NO_ARGS);
    assert NO_ARGS[0 := Before(g, '"')] == [Before(g, '"'), []];
  }

  lemma SecondParam(b: seq<char>, names: seq<seq<char>>, v: seq<char>, y: seq<char>, m: nat) returns (f: seq<char>)
    requires IsParamName(b) && |names| == 2 && Find(b, names) == 1 && y != [] && IsValue(y)
    requires m <= |ParamText(b, y)| && m <= SPACE
    ensures Params(ParamText(b, y)[..m], names, [v, []]) == [v, f]
    ensures f == y <==> '"' !in y && m >= |ParamText(b, y)| - 1
  {
    f := LastParamCut(b, names, 1, y, m, [v, []]);
    assert [v, []][1 := f] == [v, f];
  }

  const NO_ARGS: seq<seq<char>> := [[], []]

  /** Where the disposition's parameters are cut off by the buffer. */
  lemma DispositionText(p: Part)
    ensures Disposition(p) == "form-data" + (Opened("name") + (p.name + ['"'] + FileParam(p)))
    ensures p.fileName == [] ==> FileParam(p) == []
    ensures p.fileName != [] ==> FileParam(p) == ParamText("filename", p.fileName)
  {
  }

  lemma ClipDisposition(p: Part) returns (n: nat)
    ensures n <= |p.name| + 1 + |FileParam(p)| && n < SPACE
    ensures Clip(Disposition(p)) == "form-data" + (Opened("name") + (p.name + ['"'] + FileParam(p))[..n])
    ensures n >= |p.name| + |FileParam(p)| <==> |Disposition(p)| <= SPACE
  {
    DispositionText(p);
    var params := p.name + ['"'] + FileParam(p);
    n := Min(|params|, SPACE - 1 - 17);
    PrefixOfSum(Opened("name"), params, n);
    PrefixOfSum("form-data", Opened("name") + params, n + 8);
  }

  lemma ValuedPlain(s: seq<char>, rest: seq<char>)
    requires ';' !in s && 0 < |s| < SPACE && s[0] != '"' && (rest != [] ==> rest[0] == ';')
    ensures Valued(s + rest) == (s, rest)
  {
    if rest == [] {
      assert s + rest == s;
      SplitNone(s, ';');
    } else {
      assert s + rest == s + [';'] + rest[1..];
      SplitAt(s, ';', rest[1..]);
      assert [';'] + rest[1..] == rest;
    }
  }

  lemma DecomposeDisposition(x: seq<char>)
    requires x != [] ==> x[0] == ';'
    ensures Decompose("form-data" + x, ARG_NAMES) == ("form-data", Params(x, ARG_NAMES, NO_ARGS))
  {
    var s := "form-data" + x;
    assert s[0] == 'f' && SkipSpaces(s) == s;
    ValuedPlain("form-data", x);
    assert seq(|ARG_NAMES|, _ => []) == NO_ARGS;
  }

  lemma NamesAreNames()
    ensures IsParamName("name") && IsParamName("filename")
  {
  }

  /** A disposition comes back through the buffer iff neither name has a quote and no more than its
      last quote is cut off. */
  lemma DispositionIff(p: Part)
    ensures Decompose(Clip(Disposition(p)), ARG_NAMES) == ("form-data", [p.name, p.fileName])
            <==> '"' !in p.name && '"' !in p.fileName && |Disposition(p)| <= SPACE
  {
    var n := ClipDisposition(p);
    var x := Opened("name") + (p.name + ['"'] + FileParam(p))[..n];
    DecomposeDisposition(x);
    ParamsAreValues(x, ARG_NAMES, NO_ARGS);
    var r := Params(x, ARG_NAMES, NO_ARGS);
    assert IsValue(r[0]) && IsValue(r[1]);
    if IsValue(p.name) && IsValue(p.fileName) {
      DispositionText(p);
      NamesAreNames();
      FindNames();
      ParamsIff("name", "filename", ARG_NAMES, p.name, p.fileName, FileParam(p), n);
    }
  }
  // ---- the content type ----

  lemma {:induction false} SkipAppend(s: seq<char>, t: seq<char>)
    ensures SkipSpaces(s + t) == if SkipSpaces(s) == [] then SkipSpaces(t) else SkipSpaces(s) + t
    decreases |s|
  {
    if s == [] {
      assert s + t == t;
    } else if IsSpace(s[0]) {
      assert (s + t)[1..] == s[1..] + t;
      SkipAppend(s[1..], t);
    }
  }

  lemma CStringOfText(s: seq<char>)
    requires NUL !in s
    ensures CString(s) == s
  {
    SplitNone(s, NUL);
  }

  lemma AbsorbType(h: Fields, a: seq<char>, t: seq<char>)
    requires EqNc(CString(a), "Content-Type") && NUL !in t
    ensures Absorb(h, a, t) == h.(contentType := Decompose(t, []).0)
  {
    CStringOfText(t);
  }

  lemma ClipIsText(t: seq<char>)
    requires IsText(t)
    ensures IsText(Clip(t)) && IsText(SkipSpaces(t))
  {
    SkippedChars(t, '\r');
    SkippedChars(t, '\n');
    SkippedChars(t, ':');
    SkippedChars(t, NUL);
  }

  lemma PartHeadersUnfold(a: seq<char>, x: seq<char>, more: seq<char>, value: seq<char>, h: Fields)
    requires HeaderLine(RenderLine(a, x) + more, [], [], false) == Line(true, a, value, more)
    ensures PartHeaders(RenderLine(a, x) + more, h) == PartHeaders(more, Absorb(h, a, value))
  {
  }

  /** The value of a line that is not all white space, from its first other character on. */
  lemma LineCut(a: seq<char>, t: seq<char>, more: seq<char>)
    requires IsLineName(a)
    requires IsText(t) && SkipSpaces(t) != []
    ensures HeaderLine(RenderLine(a, t) + more, [], [], false) == Line(true, Clip(a), Clip(SkipSpaces(t)), more)
  {
    var s, none: seq<char> := SkipSpaces(t), [];
    ClipIsText(t);
    LineStarts(a, t, more);
    SkipAppend(t, CRLF + more);
    LineSum(t, more);
    LineSum(s, more);
    assert Clip(none) == none && none + s == s;
    LineValue(Clip(a), none, s, CRLF, more);
  }

  lemma LineSum(t: seq<char>, more: seq<char>)
    ensures t + CRLF + more == t + (CRLF + more)
  {
  }

  /** A content type that is not all white space is kept from its first other character on. */
  lemma TypeLineCut(h: Fields, t: seq<char>, rest: seq<char>)
    requires IsText(t) && SkipSpaces(t) != []
    ensures PartHeaders(RenderLine("Content-Type", t) + (CRLF + rest), h)
         == (h.(contentType := Decompose(Clip(SkipSpaces(t)), []).0), rest)
  {
    ClipIsText(t);
    ClipIsText(SkipSpaces(t));
    TypeIsName();
    LineCut("Content-Type", t, CRLF + rest);
    TypeAbsorbed(h, t, Clip(SkipSpaces(t)), CRLF + rest);
    BlankLine(rest);
  }

  lemma TypeAbsorbed(h: Fields, t: seq<char>, value: seq<char>, more: seq<char>)
    requires HeaderLine(RenderLine("Content-Type", t) + more, [], [], false) == Line(true, "Content-Type", value, more)
    requires NUL !in value
    ensures PartHeaders(RenderLine("Content-Type", t) + more, h)
         == PartHeaders(more, h.(contentType := Decompose(value, []).0))
  {
    TypeIsName();
    PartHeadersUnfold("Content-Type", t, more, value, h);
    AbsorbType(h, "Content-Type", value);
  }

  lemma TypeIsName()
    ensures IsLineName("Content-Type") && Clip("Content-Type") == CString("Content-Type") == "Content-Type"
  {
    TypeIsLineName();
    CStringOfText("Content-Type");
  }

  lemma TypeIsLineName()
    ensures IsLineName("Content-Type") && NUL !in "Content-Type"
  {
  }

  lemma DispositionIsLineName()
    ensures IsLineName("Content-Disposition") && NUL !in "Content-Disposition"
  {
    FirstHalf();
    SecondHalf();
    assert "Content-" + "Disposition" == "Content-Disposition";
    NamesJoin("Content-", "Disposition");
  }

  lemma FirstHalf()
    ensures IsLineName("Content-") && NUL !in "Content-"
  {
  }

  lemma SecondHalf()
    ensures IsLineName("Disposition") && NUL !in "Disposition"
  {
  }

  lemma NamesJoin(x: seq<char>, y: seq<char>)
    requires IsLineName(x) && IsLineName(y) && NUL !in x && NUL !in y
    ensures IsLineName(x + y) && NUL !in x + y
  {
  }

  lemma DispositionIsName()
    ensures IsLineName("Content-Disposition")
    ensures Clip("Content-Disposition") == CString("Content-Disposition") == "Content-Disposition"
  {
    DispositionIsLineName();
    CStringOfText("Content-Disposition");
  }

  lemma LineConsumes(v: seq<char>, a: seq<char>)
    requires v != []
    ensures |HeaderLine(v, a, [], true).rest| < |v|
  {
  }

  lemma HeadersEnd(v: seq<char>, h: Fields, rest: seq<char>)
    requires HeaderLine(v, [], [], false) == HeaderLine(SkipSpaces(rest), "Content-Type", [], true)
    ensures var r := PartHeaders(v, h); r.1 != rest || r.0.contentType == h.contentType
  {
    if SkipSpaces(rest) != [] { LineConsumes(SkipSpaces(rest), "Content-Type"); }
  }

  /** A content type of white space only: the line ends are skipped with it, and what is read is lost
      to the body. */
  lemma TypeLineBlank(h: Fields, t: seq<char>, rest: seq<char>)
    requires t != [] && SkipSpaces(t) == []
    ensures var r := PartHeaders(RenderLine("Content-Type", t) + (CRLF + rest), h);
            r.1 != rest || r.0.contentType == h.contentType
  {
    var more := CRLF + rest;
    LineStarts("Content-Type", t, more);
    SkipAppend(t, CRLF + more);
    LineSum(t, more);
    SkipLineEnd(more);
    SkipLineEnd(rest);
    HeadersEnd(RenderLine("Content-Type", t) + more, h, rest);
  }

  lemma SkipLineEnd(rest: seq<char>)
    ensures SkipSpaces(CRLF + rest) == SkipSpaces(rest)
  {
    assert (CRLF + rest)[1..] == ['\n'] + rest && (['\n'] + rest)[1..] == rest;
  }

  /** A content type comes back through the buffer iff it has no white space in front, is not quoted
      and has no parameters. */
  lemma TypeIff(t: seq<char>)
    requires IsText(t) && SkipSpaces(t) != []
    ensures Decompose(Clip(SkipSpaces(t)), []).0 == t <==> IsTypeText(t)
  {
    var s := Clip(SkipSpaces(t));
    assert SkipSpaces(s) == s;
    if IsSpace(t[0]) {
      assert |SkipSpaces(t)| < |t|;
    } else if t[0] == '"' {
      assert s[0] == '"';
    } else {
      BeforeFrom(s, ';');
      if ';' !in t { SplitNone(s, ';'); }
    }
  }

  // ---- the headers of a part ----

  /** What the disposition of a part is read as. */
  function DispositionFields(p: Part): Fields {
    var (m, args) := Decompose(Clip(Disposition(p)), ARG_NAMES);
    Fields(m, args[0], args[1], [])
  }

  lemma DispositionIsText(p: Part)
    requires IsText(p.name) && IsText(p.fileName)
    ensures IsText(Disposition(p)) && Disposition(p)[0] == 'f' && SkipSpaces(Disposition(p)) == Disposition(p)
  {
    assert IsText(ParamText("name", p.name)) && IsText(ParamText("filename", p.fileName));
  }

  lemma AbsorbDisposition(h: Fields, a: seq<char>, x: seq<char>)
    requires EqNc(CString(a), "Content-Disposition") && NUL !in x
    ensures var (m, args) := Decompose(x, ARG_NAMES); Absorb(h, a, x) == Fields(m, args[0], args[1], h.contentType)
  {
    CStringOfText(x);
  }

  lemma DispositionLine(p: Part, more: seq<char>)
    requires IsText(p.name) && IsText(p.fileName)
    ensures PartHeaders(RenderLine("Content-Disposition", Disposition(p)) + more, NO_FIELDS)
         == PartHeaders(more, DispositionFields(p))
  {
    DispositionIsText(p);
    ClipIsText(Disposition(p));
    DispositionIsName();
    LineCut("Content-Disposition", Disposition(p), more);
    DispositionAbsorbed(Disposition(p), Clip(Disposition(p)), more);
  }

  lemma DispositionAbsorbed(x: seq<char>, value: seq<char>, more: seq<char>)
    requires HeaderLine(RenderLine("Content-Disposition", x) + more, [], [], false)
          == Line(true, "Content-Disposition", value, more)
    requires NUL !in value
    ensures var (m, args) := Decompose(value, ARG_NAMES);
            PartHeaders(RenderLine("Content-Disposition", x) + more, NO_FIELDS)
            == PartHeaders(more, Fields(m, args[0], args[1], []))
  {
    DispositionIsName();
    PartHeadersUnfold("Content-Disposition", x, more, value, NO_FIELDS);
    AbsorbDisposition(NO_FIELDS, "Content-Disposition", value);
  }

  /** Behind the disposition, the content type and the body come back iff the type can. */
  lemma TypeLineIff(p: Part, h: Fields, rest: seq<char>, f: Fields)
    requires IsText(p.contentType) && h.contentType == [] && f.contentType == p.contentType
    ensures PartHeaders(TypeLine(p) + (CRLF + rest), h) == (f, rest)
            <==> f == h.(contentType := p.contentType) && IsTypeText(p.contentType)
  {
    var t := p.contentType;
    if t == [] {
      BlankLine(rest);
      assert TypeLine(p) + (CRLF + rest) == CRLF + rest;
    } else if SkipSpaces(t) == [] {
      TypeLineBlank(h, t, rest);
    } else {
      TypeLineCut(h, t, rest);
      TypeIff(t);
    }
  }

  lemma RenderPartSplit(p: Part, rest: seq<char>)
    ensures RenderPart(p) + rest
         == RenderLine("Content-Disposition", Disposition(p)) + (TypeLine(p) + (CRLF + (p.body + rest)))
  {
  }

  /** The headers of a part come back, and its body is what follows, exactly for the parts whose names
      and type have no character with a meaning of its own and fit the buffers. */
  lemma PartHeadersIff(p: Part, rest: seq<char>)
    ensures PartHeaders(RenderPart(p) + rest, NO_FIELDS) == (PartFields(p), p.body + rest) <==> HasHeaders(p)
  {
    HeadersAreText(RenderPart(p) + rest, NO_FIELDS);
    if IsText(p.name) && IsText(p.fileName) && IsText(p.contentType) {
      RenderPartSplit(p, rest);
      DispositionLine(p, TypeLine(p) + (CRLF + (p.body + rest)));
      TypeLineIff(p, DispositionFields(p), p.body + rest, PartFields(p));
      DispositionFieldsIff(p);
    }
  }

  lemma DispositionFieldsIff(p: Part)
    ensures PartFields(p) == DispositionFields(p).(contentType := p.contentType)
            <==> '"' !in p.name && '"' !in p.fileName && |Disposition(p)| <= SPACE
  {
    DispositionIff(p);
    var args := Decompose(Clip(Disposition(p)), ARG_NAMES).1;
    assert |args| == 2 && args == [args[0], args[1]];
  }
}
