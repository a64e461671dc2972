/** Absolute paths as text and as component lists: os.path.join and os.path.normpath of POSIX. */
module PathText {
  import opened Text

  /** A plain directory entry name. */
  predicate IsName(n: string) {
    n != "" && '/' !in n && n != "." && n != ".."
  }

  predicate IsPath(cs: seq<string>) {
    forall i :: 0 <= i < |cs| ==> IsName(cs[i])
  }

  function Flat(cs: seq<string>): (s: string)
    ensures cs != [] ==> s != "" && s[0] == '/'
  {
    if cs == [] then "" else ['/'] + cs[0] + Flat(cs[1..])
  }

  /** The normalised text of an absolute path. */
  function Str(cs: seq<string>): string {
    if cs == [] then "/" else Flat(cs)
  }

  function Join(a: string, b: string): string {
    if b != "" && b[0] == '/' then b
    else if a == "" || a[|a| - 1] == '/' then a + b
    else a + ['/'] + b
  }

  /** The components that stay: empty ones and dots are dropped, and ".." takes one back. */
  function Normal(comps: seq<string>, done: seq<string>, absolute: bool): seq<string>
    decreases |comps|
  {
    if comps == [] then done
    else
      Normal(comps[1..], Step(done, comps[0], absolute), absolute)
  }

  function Step(done: seq<string>, c: string, absolute: bool): seq<string> {
    if c == "" || c == "." then done
    else if c != ".." || (!absolute && done == []) || (done != [] && done[|done| - 1] == "..") then done + [c]
    else if done != [] then done[..|done| - 1]
    else done
  }

  function NormPath(s: string): string {
    if s == "" then "."
    else
      var absolute := s[0] == '/';
      var slashes := if !absolute then ""
                     else if StartsWith(s, "//") && !StartsWith(s, "///") then "//" else "/";
      var path := slashes + JoinOn(Normal(SplitOn(s, '/'), [], absolute), '/');
      if path == "" then "." else path
  }

  // ---- text and components ----

  lemma {:induction false} FlatAppend(a: seq<string>, b: seq<string>)
    ensures Flat(a + b) == Flat(a) + Flat(b)
  {
    if a == [] {
      assert a + b == b;
    } else {
      assert (a + b)[1..] == a[1..] + b;
      FlatAppend(a[1..], b);
    }
  }

  lemma {:induction false} SplitFlat(n: string, cs: seq<string>)
    requires '/' !in n && forall i :: 0 <= i < |cs| ==> '/' !in cs[i]
    ensures SplitOn(n + Flat(cs), '/') == [n] + cs
    decreases |cs|
  {
    var s := n + Flat(cs);
    if cs == [] {
      assert s == n;
      SplitOne(n, '/');
    } else {
      assert s == n + ['/'] + (cs[0] + Flat(cs[1..]));
      SplitFirst(n, '/', cs[0] + Flat(cs[1..]));
      SplitFlat(cs[0], cs[1..]);
      assert [cs[0]] + cs[1..] == cs;
    }
  }

  lemma {:induction false} NormalNames(cs: seq<string>, done: seq<string>)
    requires IsPath(cs)
    ensures Normal(cs, done, true) == done + cs
    decreases |cs|
  {
    if cs == [] {
      assert done + cs == done;
    } else {
      NormalNames(cs[1..], done + [cs[0]]);
      assert done + [cs[0]] + cs[1..] == done + cs;
    }
  }

  lemma {:induction false} JoinFlat(cs: seq<string>)
    ensures cs != [] ==> ['/'] + JoinOn(cs, '/') == Flat(cs)
  {
    if |cs| > 1 {
      JoinFlat(cs[1..]);
      assert ['/'] + (cs[0] + ['/'] + JoinOn(cs[1..], '/')) == ['/'] + cs[0] + (['/'] + JoinOn(cs[1..], '/'));
    } else if |cs| == 1 {
      assert Flat(cs[1..]) == "";
      assert ['/'] + cs[0] + "" == ['/'] + cs[0];
    }
  }

  /** A path made of names is already normal. */
  lemma NormPathIsIdentity(cs: seq<string>)
    requires IsPath(cs) && cs != []
    ensures NormPath(Flat(cs)) == Flat(cs)
  {
    var s := Flat(cs);
    assert s == ['/'] + cs[0] + Flat(cs[1..]);
    assert s[1] == cs[0][0];
    assert !StartsWith(s, "//");
    SplitFlat("", cs);
    assert "" + s == s;
    assert ([""] + cs)[1..] == cs;
    NormalNames(cs, []);
    assert [] + cs == cs;
    assert Normal([""] + cs, [], true) == Normal(cs, [], true);
    JoinFlat(cs);
  }

  // ---- paths that are not normal ----

  /** Components between the slashes; the first is a name, so that one slash is in front. */
  predicate IsParts(cs: seq<string>) {
    cs != [] && IsName(cs[0]) && forall i :: 0 <= i < |cs| ==> '/' !in cs[i]
  }

  /** The text is normalised component by component. */
  lemma NormPathOf(cs: seq<string>)
    requires IsParts(cs)
    ensures NormPath(Flat(cs)) == "/" + JoinOn(Normal(cs, [], true), '/')
  {
    var s := Flat(cs);
    assert s == ['/'] + cs[0] + Flat(cs[1..]);
    assert s[1] == cs[0][0];
    assert !StartsWith(s, "//");
    SplitFlat("", cs);
    assert "" + s == s;
    assert ([""] + cs)[1..] == cs;
    assert Normal([""] + cs, [], true) == Normal(cs, [], true);
    assert ("/" + JoinOn(Normal(cs, [], true), '/')) != "";
  }

  lemma {:induction false} NormalAppend(a: seq<string>, b: seq<string>, done: seq<string>)
    ensures Normal(a + b, done, true) == Normal(b, Normal(a, done, true), true)
    decreases |a|
  {
    if a == [] {
      assert a + b == b;
    } else {
      assert (a + b)[1..] == a[1..] + b;
      NormalAppend(a[1..], b, Step(done, a[0], true));
    }
  }

  /** Components between others that change nothing may be left out. */
  lemma LeftOut(a: seq<string>, m: seq<string>, b: seq<string>)
    requires IsParts(a) && (forall i :: 0 <= i < |m| ==> '/' !in m[i]) && (forall i :: 0 <= i < |b| ==> '/' !in b[i])
    requires var done := Normal(a, [], true); Normal(m, done, true) == done
    ensures NormPath(Flat(a + m + b)) == NormPath(Flat(a + b))
  {
    NormPathOf(a + m + b);
    NormPathOf(a + b);
    NormalAppend(a + m, b, []);
    NormalAppend(a, m, []);
    NormalAppend(a, b, []);
  }

  lemma OneStep(c: string, done: seq<string>)
    ensures Normal([c], done, true) == Step(done, c, true)
  {
    assert [c][1..] == [];
  }

  /** A dot and an empty component are dropped. */
  lemma DotIsDropped(a: seq<string>, dot: string, b: seq<string>)
    requires IsParts(a) && (dot == "." || dot == "") && forall i :: 0 <= i < |b| ==> '/' !in b[i]
    ensures NormPath(Flat(a + [dot] + b)) == NormPath(Flat(a + b))
  {
    OneStep(dot, Normal(a, [], true));
    LeftOut(a, [dot], b);
  }

  /** Two dots take back the name in front of them. */
  lemma DotsTakeBack(a: seq<string>, n: string, b: seq<string>)
    requires IsParts(a) && IsName(n) && forall i :: 0 <= i < |b| ==> '/' !in b[i]
    ensures NormPath(Flat(a + [n, ".."] + b)) == NormPath(Flat(a + b))
  {
    NameAndDots(n, Normal(a, [], true));
    LeftOut(a, [n, ".."], b);
  }

  lemma NameAndDots(n: string, done: seq<string>)
    requires IsName(n)
    ensures Normal([n, ".."], done, true) == done
  {
    assert [n, ".."][1..] == [".."];
    OneStep("..", done + [n]);
    assert (done + [n])[..|done|] == done;
  }

  /** Behind the root they are dropped. */
  lemma DotsAtRoot(n: string, b: seq<string>)
    requires IsName(n) && IsParts(b)
    ensures NormPath(Flat([n, "..", ".."] + b)) == NormPath(Flat(b))
  {
    NormPathOf([n, "..", ".."] + b);
    NormPathOf(b);
    NormalAppend([n, "..", ".."], b, []);
    assert [n, ".."] + [".."] == [n, "..", ".."];
    NormalAppend([n, ".."], [".."], []);
    NameAndDots(n, []);
    OneStep("..", []);
  }

  /** The path of an entry of a directory, as the event handlers compute it. */
  lemma EntryPath(cs: seq<string>, n: string)
    requires IsPath(cs) && IsName(n)
    ensures NormPath(Join(Str(cs), n)) == Str(cs + [n])
  {
    EntryText(cs, n);
    if cs != [] { LastIsNoSlash(cs); }
    assert IsPath(cs + [n]);
    NormPathIsIdentity(cs + [n]);
  }

  lemma EntryText(cs: seq<string>, n: string)
    ensures Flat(cs + [n]) == Flat(cs) + ['/'] + n && (cs == [] ==> Flat(cs) == "")
  {
    FlatAppend(cs, [n]);
    assert Flat([n]) == ['/'] + n + Flat([]) == ['/'] + n;
  }

  lemma {:induction false} LastIsNoSlash(cs: seq<string>)
    requires IsPath(cs) && cs != []
    ensures Flat(cs)[|Flat(cs)| - 1] != '/'
  {
    if |cs| == 1 {
      assert Flat(cs[1..]) == "";
      assert Flat(cs) == ['/'] + cs[0];
    } else {
      LastIsNoSlash(cs[1..]);
      var t := Flat(cs[1..]);
      assert Flat(cs)[|Flat(cs)| - 1] == t[|t| - 1];
    }
  }

  /** Two names in front of a slash or the end are the same if one text is a prefix. */
  lemma NamePrefix(a: string, x: string, b: string, y: string)
    requires '/' !in a && '/' !in b && x != "" && x[0] == '/' && (y != "" ==> y[0] == '/')
    requires a + x <= b + y
    ensures a == b && x <= y
  {
    var s, t := a + x, b + y;
    var rest := t[|s|..];
    assert t == s + rest == a + ['/'] + (x[1..] + rest);
    SplitAt(a, '/', x[1..] + rest);
    if y != "" { SlashSplit(b, y); }
    assert x == s[|a|..] && y == t[|a|..];
  }

  lemma SlashSplit(b: string, y: string)
    requires '/' !in b && y != "" && y[0] == '/'
    ensures Before(b + y, '/') == b
  {
    assert b + y == b + ['/'] + y[1..];
    SplitAt(b, '/', y[1..]);
  }

  predicate IsBelow(cs: seq<string>, s: seq<string>) {
    s < cs
  }

  /** With the separator behind it, a directory's text is a prefix of exactly the texts of the
      paths below it: a sibling that only shares letters does not match. */
  lemma {:induction false} PrefixIffBelow(cs: seq<string>, s: seq<string>)
    requires IsPath(cs) && IsPath(s)
    ensures StartsWith(Flat(cs), Flat(s) + ['/']) <==> IsBelow(cs, s)
    decreases |s|
  {
    if s == [] {
      assert Flat(s) + ['/'] == ['/'];
      assert cs != [] ==> Flat(cs)[..1] == ['/'];
    } else if cs != [] {
      PrefixIffBelow(cs[1..], s[1..]);
      FlatParts(s, ['/']);
      FlatParts(cs, "");
      assert Flat(cs) + "" == Flat(cs) && Flat(cs[1..]) + "" == Flat(cs[1..]);
      NamePrefixIff(s[0], Flat(s[1..]) + ['/'], cs[0], Flat(cs[1..]));
      BelowIff(cs, s);
    }
  }

  lemma FlatParts(s: seq<string>, more: string)
    requires s != []
    ensures Flat(s) + more == ['/'] + (s[0] + (Flat(s[1..]) + more))
  {
  }

  lemma NamePrefixIff(a: string, x: string, b: string, y: string)
    requires '/' !in a && '/' !in b && x != "" && x[0] == '/' && (y != "" ==> y[0] == '/')
    ensures ['/'] + (a + x) <= ['/'] + (b + y) <==> a == b && x <= y
  {
    if ['/'] + (a + x) <= ['/'] + (b + y) {
      assert (['/'] + (a + x))[1..] == a + x && (['/'] + (b + y))[1..] == b + y;
      NamePrefix(a, x, b, y);
    }
  }

  lemma BelowIff(cs: seq<string>, s: seq<string>)
    requires s != [] && cs != []
    ensures IsBelow(cs, s) <==> s[0] == cs[0] && IsBelow(cs[1..], s[1..])
  {
    assert s == [s[0]] + s[1..] && cs == [cs[0]] + cs[1..];
  }

  lemma StrInjective(a: seq<string>, b: seq<string>)
    requires IsPath(a) && IsPath(b) && Str(a) == Str(b)
    ensures a == b
  {
    if a != [] && b != [] {
      SplitFlat("", a);
      SplitFlat("", b);
      assert "" + Flat(a) == Flat(a) && "" + Flat(b) == Flat(b);
      assert a == ([""] + a)[1..] && b == ([""] + b)[1..];
    }
    assert a != [] ==> |Flat(a)| >= 1 + |a[0]|;
    assert b != [] ==> |Flat(b)| >= 1 + |b[0]|;
  }
}
