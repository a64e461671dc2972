/** Characters and C strings. */
module Text {

  const NUL: char := '\0'

  /** isspace of the C locale. */
  predicate IsSpace(c: char) {
    c == ' ' || '\t' <= c <= '\r'
  }

  lemma IsSpaceIff(c: char)
    ensures IsSpace(c) <==> c in {' ', '\t', '\n', 11 as char, 12 as char, '\r'}
  {
  }

  predicate IsUpper(c: char) {
    'A' <= c <= 'Z'
  }

  predicate IsAlpha(c: char) {
    IsUpper(c) || 'a' <= c <= 'z'
  }

  predicate IsAlnum(c: char) {
    IsAlpha(c) || '0' <= c <= '9'
  }

  predicate StartsWith(s: seq<char>, t: seq<char>) {
    t <= s
  }

  function Lower(c: char): char {
    if IsUpper(c) then (c as int + 32) as char else c
  }

  /** Equal up to the case of letters. */
  predicate EqNc(s: seq<char>, t: seq<char>) {
    |s| == |t| && forall i :: 0 <= i < |s| ==> Lower(s[i]) == Lower(t[i])
  }

  /** A capital and its small letter. */
  predicate IsCapitalOf(a: char, b: char) {
    IsUpper(a) && 'a' <= b <= 'z' && a as int - 'A' as int == b as int - 'a' as int
  }

  /** The texts differ at most in which letters are capitals. */
  lemma EqNcIff(s: seq<char>, t: seq<char>)
    ensures EqNc(s, t) <==>
              |s| == |t| && forall i :: 0 <= i < |s| ==> s[i] == t[i] || IsCapitalOf(s[i], t[i]) || IsCapitalOf(t[i], s[i])
  {
    if |s| == |t| {
      forall i | 0 <= i < |s|
        ensures Lower(s[i]) == Lower(t[i]) <==> s[i] == t[i] || IsCapitalOf(s[i], t[i]) || IsCapitalOf(t[i], s[i])
      {
        LowerIff(s[i], t[i]);
      }
    }
  }

  lemma LowerIff(a: char, b: char)
    ensures Lower(a) == Lower(b) <==> a == b || IsCapitalOf(a, b) || IsCapitalOf(b, a)
  {
  }

  /** cgiStrEqNc: folds the second string only where the first has a letter. */
  method StrEqNc(s: seq<char>, t: seq<char>) returns (eq: bool)
    ensures eq <==> EqNc(s, t)
  {
    var i := 0;
    while true
      invariant i <= |s| && i <= |t|
      invariant forall j :: 0 <= j < i ==> Lower(s[j]) == Lower(t[j])
      decreases |s| - i
    {
      if i == |s| {
        return i == |t|;
      } else if i == |t| {
        return false;
      }
      if IsAlpha(s[i]) {
        if Lower(s[i]) != Lower(t[i]) {
          return false;
        }
      } else if s[i] != t[i] {
        return false;
      }
      i := i + 1;
    }
  }

  /** What precedes the first `c`; all of `s` if there is none. */
  function Before(s: seq<char>, c: char): (r: seq<char>)
    ensures |r| <= |s| && c !in r
  {
    if s == [] || s[0] == c then [] else [s[0]] + Before(s[1..], c)
  }

  /** The first `c` and what follows it. */
  function From(s: seq<char>, c: char): (r: seq<char>)
    ensures |r| <= |s| && (r != [] ==> r[0] == c)
  {
    if s == [] || s[0] == c then s else From(s[1..], c)
  }

  lemma {:induction false} BeforeFrom(s: seq<char>, c: char)
    ensures Before(s, c) + From(s, c) == s
  {
    if s != [] && s[0] != c {
      BeforeFrom(s[1..], c);
      InFront(s, Before(s[1..], c), From(s[1..], c));
    }
  }

  lemma InFront(s: seq<char>, x: seq<char>, y: seq<char>)
    requires s != [] && x + y == s[1..]
    ensures [s[0]] + x + y == s
  {
  }

  /** A scan from `p` that stops at `q`, seen from the text behind `p`. */
  lemma {:induction false} BeforeAt(s: seq<char>, p: nat, q: nat, c: char)
    requires p <= q <= |s| && (q == |s| || s[q] == c) && forall k :: p <= k < q ==> s[k] != c
    ensures Before(s[p..], c) == s[p..q] && From(s[p..], c) == s[q..]
    decreases q - p
  {
    if p < q {
      BeforeAt(s, p + 1, q, c);
      assert s[p..][1..] == s[p + 1..];
      assert [s[p]] + s[p + 1..q] == s[p..q];
    }
  }

  /** The same up to an end `e`. */
  lemma BeforeIn(s: seq<char>, p: nat, q: nat, e: nat, c: char)
    requires p <= q <= e <= |s| && (q == e || s[q] == c) && forall k :: p <= k < q ==> s[k] != c
    ensures Before(s[p..e], c) == s[p..q] && From(s[p..e], c) == s[q..e]
  {
    var t := s[..e];
    assert forall k :: 0 <= k < e ==> t[k] == s[k];
    BeforeAt(t, p, q, c);
    assert t[p..] == s[p..e] && t[p..q] == s[p..q] && t[q..] == s[q..e];
  }

  lemma SplitAt(x: seq<char>, c: char, y: seq<char>)
    requires c !in x
    ensures Before(x + [c] + y, c) == x && From(x + [c] + y, c) == [c] + y
  {
    var s := x + [c] + y;
    BeforeAt(s, 0, |x|, c);
    assert s[0..] == s && s[0..|x|] == x && s[|x|..] == [c] + y;
  }

  lemma SplitNone(x: seq<char>, c: char)
    requires c !in x
    ensures Before(x, c) == x && From(x, c) == []
  {
    BeforeAt(x, 0, |x|, c);
    assert x[0..] == x && x[0..|x|] == x;
  }

  /** The C string stored in `s`: it ends at the first NUL. */
  function CString(s: seq<char>): seq<char> {
    Before(s, NUL)
  }

  function SkipSpaces(s: seq<char>): (r: seq<char>)
    ensures |r| <= |s| && (r != [] ==> !IsSpace(r[0]))
  {
    if s == [] || !IsSpace(s[0]) then s else SkipSpaces(s[1..])
  }

  function AlnumPrefix(s: seq<char>): (r: seq<char>)
    ensures |r| <= |s|
  {
    if s == [] || !IsAlnum(s[0]) then [] else [s[0]] + AlnumPrefix(s[1..])
  }

  lemma {:induction false} SkipSpacesAt(s: seq<char>, p: nat, q: nat)
    requires p <= q <= |s| && (q == |s| || !IsSpace(s[q])) && forall k :: p <= k < q ==> IsSpace(s[k])
    ensures SkipSpaces(s[p..]) == s[q..]
    decreases q - p
  {
    if p < q {
      SkipSpacesAt(s, p + 1, q);
      assert s[p..][1..] == s[p + 1..];
    }
  }

  lemma {:induction false} AlnumPrefixAt(s: seq<char>, p: nat, q: nat)
    requires p <= q <= |s| && (q == |s| || !IsAlnum(s[q])) && forall k :: p <= k < q ==> IsAlnum(s[k])
    ensures AlnumPrefix(s[p..]) == s[p..q]
    decreases q - p
  {
    if p < q {
      AlnumPrefixAt(s, p + 1, q);
      assert s[p..][1..] == s[p + 1..];
      assert [s[p]] + s[p + 1..q] == s[p..q];
    }
  }

  lemma AlnumPrefixStops(x: seq<char>, y: seq<char>)
    requires forall i :: 0 <= i < |x| ==> IsAlnum(x[i])
    requires y == [] || !IsAlnum(y[0])
    ensures AlnumPrefix(x + y) == x
  {
    var s := x + y;
    AlnumPrefixAt(s, 0, |x|);
    assert s[0..] == s && s[0..|x|] == x;
  }

  // ---- str.split and str.join ----

  function SplitOn(s: seq<char>, c: char): (r: seq<seq<char>>)
    ensures |r| >= 1 && (|r| > 1 <==> From(s, c) != [])
    decreases |s|
  {
    if From(s, c) == [] then [s] else [Before(s, c)] + SplitOn(From(s, c)[1..], c)
  }

  function JoinOn(parts: seq<seq<char>>, c: char): seq<char> {
    if parts == [] then [] else if |parts| == 1 then parts[0] else parts[0] + [c] + JoinOn(parts[1..], c)
  }

  lemma {:induction false} JoinSplit(s: seq<char>, c: char)
    ensures JoinOn(SplitOn(s, c), c) == s
    decreases |s|
  {
    if From(s, c) != [] {
      BeforeFrom(s, c);
      var t := From(s, c)[1..];
      JoinSplit(t, c);
      assert SplitOn(s, c)[1..] == SplitOn(t, c);
      assert Before(s, c) + [c] + t == Before(s, c) + From(s, c);
    }
  }

  lemma SplitOne(s: seq<char>, c: char)
    requires c !in s
    ensures SplitOn(s, c) == [s]
  {
    SplitNone(s, c);
  }

  lemma SplitFirst(n: seq<char>, c: char, rest: seq<char>)
    requires c !in n
    ensures SplitOn(n + [c] + rest, c) == [n] + SplitOn(rest, c)
  {
    SplitAt(n, c, rest);
    assert ([c] + rest)[1..] == rest;
  }

  lemma SplitAppendFirst(n: seq<char>, c: char, t: seq<char>, rest: seq<char>)
    requires c !in n && SplitOn(t + [c] + rest, c) == SplitOn(t, c) + SplitOn(rest, c)
    ensures SplitOn(n + [c] + t + [c] + rest, c) == SplitOn(n + [c] + t, c) + SplitOn(rest, c)
  {
    assert n + [c] + t + [c] + rest == n + [c] + (t + [c] + rest);
    SplitFirst(n, c, t + [c] + rest);
    SplitFirst(n, c, t);
    Regroup([n], SplitOn(t, c), SplitOn(rest, c));
  }

  lemma Regroup(x: seq<seq<char>>, y: seq<seq<char>>, z: seq<seq<char>>)
    ensures x + (y + z) == x + y + z
  {
  }

  lemma {:induction false} SplitAppend(s: seq<char>, c: char, rest: seq<char>)
    ensures SplitOn(s + [c] + rest, c) == SplitOn(s, c) + SplitOn(rest, c)
    decreases |s|
  {
    BeforeFrom(s, c);
    var n := Before(s, c);
    if From(s, c) == [] {
      assert n == s;
      SplitFirst(s, c, rest);
    } else {
      var t := From(s, c)[1..];
      assert s == n + [c] + t;
      SplitAppend(t, c, rest);
      SplitAppendFirst(n, c, t, rest);
    }
  }
}
