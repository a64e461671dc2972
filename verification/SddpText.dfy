/** The text helpers of the SDDP packet parser: lines, tokens and header values of a C string. */
module SddpText {
  import opened Wrappers
  import opened Text

  // ---- specification, on the text between two pointers ----

  function SkipBlanks(l: seq<char>): (r: seq<char>)
    ensures |r| <= |l| && (r != [] ==> r[0] != ' ')
  {
    if l == [] || l[0] != ' ' then l else SkipBlanks(l[1..])
  }

  lemma SkipNothing(l: seq<char>)
    requires l != [] ==> l[0] != ' '
    ensures SkipBlanks(l) == l
  {
  }

  lemma SkipOneBlank(v: seq<char>)
    ensures SkipBlanks(" " + v) == SkipBlanks(v)
  {
    assert (" " + v)[1..] == v;
  }

  predicate IsBlank(b: seq<char>) {
    forall i :: 0 <= i < |b| ==> b[i] == ' '
  }

  /** Only spaces are skipped. */
  lemma {:induction false} BlanksInFront(l: seq<char>)
    ensures var b := l[..|l| - |SkipBlanks(l)|]; l == b + SkipBlanks(l) && IsBlank(b)
  {
    if l != [] && l[0] == ' ' {
      BlanksInFront(l[1..]);
    }
  }

  function Token(l: seq<char>): seq<char> {
    Before(l, ' ')
  }

  /** The next token behind the one `l` starts with, and what follows it. */
  function NextToken(l: seq<char>): (r: seq<char>)
    ensures |r| <= |l| && (r != [] ==> r[0] != ' ')
  {
    SkipBlanks(From(l, ' '))
  }

  function TrimRight(l: seq<char>): (r: seq<char>)
    ensures |r| <= |l| && r == l[..|r|]
  {
    if l != [] && (l[|l| - 1] == ' ' || l[|l| - 1] == '\t') then TrimRight(l[..|l| - 1]) else l
  }

  predicate QuoteWrapped(l: seq<char>) {
    l != [] && l[0] == '"' && l[|l| - 1] == '"'
  }

  function Unquote(l: seq<char>): seq<char> {
    if !QuoteWrapped(l) then l else if |l| == 1 then [] else l[1..|l| - 1]
  }

  /** What is stored of a header line's text behind the colon. */
  function HeaderValue(l: seq<char>): seq<char> {
    Unquote(TrimRight(SkipBlanks(l)))
  }

  /** Where the line ends: at the first CRLF, or with the text. */
  function LineEnd(s: seq<char>): (n: nat)
    ensures n <= |s|
    ensures n < |s| ==> n + 2 <= |s| && s[n..n + 2] == "\r\n"
  {
    if s == [] then 0 else if |s| >= 2 && s[..2] == "\r\n" then 0 else 1 + LineEnd(s[1..])
  }

  ghost predicate NoCrLf(s: seq<char>) {
    forall i, j :: 0 <= i < j < |s| && j == i + 1 ==> !(s[i] == '\r' && s[j] == '\n')
  }

  // ---- the pointer loops ----

  lemma SkipBlank(s: seq<char>, p: nat, e: nat)
    requires p < e <= |s| && s[p] == ' '
    ensures SkipBlanks(s[p..e]) == SkipBlanks(s[p + 1..e])
  {
    assert s[p..e][1..] == s[p + 1..e];
  }

  lemma {:induction false} SkipBlanksAt(s: seq<char>, p: nat, q: nat, e: nat)
    requires p <= q <= e <= |s| && (q == e || s[q] != ' ') && forall k :: p <= k < q ==> s[k] == ' '
    ensures SkipBlanks(s[p..e]) == s[q..e]
    decreases q - p
  {
    if p < q {
      SkipBlanksAt(s, p + 1, q, e);
      SkipBlank(s, p, e);
    }
  }

  method BlanksEnd(s: seq<char>, line: nat, lineEnd: nat) returns (q: nat)
    requires line <= lineEnd <= |s|
    ensures line <= q <= lineEnd && s[q..lineEnd] == SkipBlanks(s[line..lineEnd])
    ensures q < lineEnd ==> s[q] != ' '
    ensures line < lineEnd && s[line] != ' ' ==> q == line
  {
    q := line;
    while q < lineEnd && s[q] == ' '
      invariant line <= q <= lineEnd && forall k :: line <= k < q ==> s[k] == ' '
    {
      q := q + 1;
    }
    SkipBlanksAt(s, line, q, lineEnd);
  }

  /** skipSpaces: NULL (None) when nothing but spaces is left. */
  method SkipSpacesFrom(s: seq<char>, line: nat, lineEnd: nat) returns (p: Option<nat>)
    requires line <= lineEnd <= |s|
    ensures match p
            case None => SkipBlanks(s[line..lineEnd]) == []
            case Some(q) => line <= q < lineEnd && s[q] != ' ' && s[q..lineEnd] == SkipBlanks(s[line..lineEnd])
    ensures line < lineEnd && s[line] != ' ' ==> p == Some(line)
  {
    var q := BlanksEnd(s, line, lineEnd);
    p := if q < lineEnd then Some(q) else None;
  }

  method TokenEnd(s: seq<char>, token: nat, lineEnd: nat) returns (q: nat)
    requires token <= lineEnd <= |s|
    ensures token <= q <= lineEnd && s[q..lineEnd] == From(s[token..lineEnd], ' ')
    ensures s[token..q] == Token(s[token..lineEnd])
    ensures token < lineEnd && s[token] != ' ' ==> token < q
  {
    q := token;
    while q < lineEnd && s[q] != ' '
      invariant token <= q <= lineEnd && forall k :: token <= k < q ==> s[k] != ' '
    {
      q := q + 1;
    }
    BeforeIn(s, token, q, lineEnd, ' ');
  }

  /** skipToken: the end of the first token. */
  method SkipTokenFrom(s: seq<char>, line: nat, lineEnd: nat) returns (p: Option<nat>)
    requires line <= lineEnd <= |s|
    ensures var t := SkipBlanks(s[line..lineEnd]);
            match p
            case None => t == []
            case Some(q) => line < q <= lineEnd && t != [] && s[q..lineEnd] == From(t, ' ')
    ensures line < lineEnd && s[line] != ' ' ==>
              p.Some? && s[p.value..lineEnd] == From(s[line..lineEnd], ' ') && s[line..p.value] == Token(s[line..lineEnd])
  {
    var start := SkipSpacesFrom(s, line, lineEnd);
    if start == None {
      return None;
    }
    var q := TokenEnd(s, start.value, lineEnd);
    p := Some(q);
  }

  /** findToken behind the token at `current`. */
  method FindNextToken(s: seq<char>, current: nat, lineEnd: nat) returns (p: Option<nat>)
    requires current < lineEnd <= |s| && s[current] != ' '
    ensures match p
            case None => NextToken(s[current..lineEnd]) == []
            case Some(q) => current < q < lineEnd && s[q] != ' ' && s[q..lineEnd] == NextToken(s[current..lineEnd])
  {
    var end := SkipTokenFrom(s, current, lineEnd);
    p := SkipSpacesFrom(s, end.value, lineEnd);
  }

  method DupToken(s: seq<char>, token: nat, lineEnd: nat) returns (t: seq<char>)
    requires token < lineEnd <= |s| && s[token] != ' '
    ensures t == Token(s[token..lineEnd])
  {
    var end := SkipTokenFrom(s, token, lineEnd);
    t := s[token..end.value];
  }

  lemma {:induction false} TrimRightAt(s: seq<char>, p: nat, q: nat, e: nat)
    requires p <= q <= e <= |s| && (q == p || (s[q - 1] != ' ' && s[q - 1] != '\t'))
    requires forall k :: q <= k < e ==> s[k] == ' ' || s[k] == '\t'
    ensures TrimRight(s[p..e]) == s[p..q]
    decreases e - q
  {
    if q < e {
      var t := s[p..e];
      assert t[|t| - 1] == s[e - 1] && t[..|t| - 1] == s[p..e - 1];
      TrimRightAt(s, p, q, e - 1);
    }
  }

  method TrimmedEnd(s: seq<char>, line: nat, lineEnd: nat) returns (end: nat)
    requires line <= lineEnd <= |s|
    ensures line <= end <= lineEnd && s[line..end] == TrimRight(s[line..lineEnd])
  {
    end := lineEnd;
    while line < end && (s[end - 1] == ' ' || s[end - 1] == '\t')
      invariant line <= end <= lineEnd && forall k :: end <= k < lineEnd ==> s[k] == ' ' || s[k] == '\t'
    {
      end := end - 1;
    }
    TrimRightAt(s, line, end, lineEnd);
  }

  lemma SliceOfSlice(s: seq<char>, a: nat, b: nat, i: nat, j: nat)
    requires a <= b <= |s| && i <= j <= b - a
    ensures s[a..b][i..j] == s[a + i..a + j]
  {
    forall k | 0 <= k < j - i ensures s[a..b][i..j][k] == s[a + i..a + j][k] {
    }
  }

  lemma UnquoteAt(s: seq<char>, p: nat, q: nat)
    requires p < q <= |s|
    ensures QuoteWrapped(s[p..q]) <==> s[p] == '"' && s[q - 1] == '"'
    ensures s[p] == '"' && s[q - 1] == '"' ==> Unquote(s[p..q]) == if q == p + 1 then [] else s[p + 1..q - 1]
  {
    var t := s[p..q];
    assert t[0] == s[p] && t[|t| - 1] == s[q - 1];
    if q > p + 1 {
      SliceOfSlice(s, p, q, 1, q - p - 1);
    }
  }

  /** dupValue: trailing blanks and one pair of quotes are dropped. */
  method DupValue(s: seq<char>, value: nat, lineEnd: nat) returns (v: seq<char>)
    requires value <= lineEnd <= |s|
    ensures v == Unquote(TrimRight(s[value..lineEnd]))
  {
    var first := value;
    var last := TrimmedEnd(s, value, lineEnd);
    if value < last {
      UnquoteAt(s, value, last);
      if s[value] == '"' && s[last - 1] == '"' {
        first, last := first + 1, last - 1;
      }
    }
    v := if last >= first then s[first..last] else [];
  }

  lemma {:induction false} LineEndAt(s: seq<char>, p: nat, q: nat)
    requires p <= q <= |s| && (q < |s| ==> q + 1 < |s| && s[q] == '\r' && s[q + 1] == '\n')
    requires forall k :: p <= k < q ==> k + 1 == |s| || s[k] != '\r' || s[k + 1] != '\n'
    ensures LineEnd(s[p..]) == q - p
    decreases q - p
  {
    var t := s[p..];
    if p < q {
      LineEndAt(s, p + 1, q);
      assert t[1..] == s[p + 1..];
      assert |t| >= 2 ==> t[..2] == [s[p], s[p + 1]];
    } else if q < |s| {
      assert t[..2] == "\r\n";
    }
  }

  /** strstr(line, "\r\n"), or the terminator. */
  method FindLineEnd(s: seq<char>, line: nat) returns (end: nat)
    requires line <= |s|
    ensures end == line + LineEnd(s[line..])
  {
    end := line;
    while end < |s| && !(end + 1 < |s| && s[end] == '\r' && s[end + 1] == '\n')
      invariant line <= end <= |s|
      invariant forall k :: line <= k < end ==> k + 1 == |s| || s[k] != '\r' || s[k + 1] != '\n'
    {
      end := end + 1;
    }
    LineEndAt(s, line, end);
  }

  // ---- lines and tokens come back ----

  lemma LineRoundTrip(l: seq<char>, rest: seq<char>)
    requires NoCrLf(l)
    ensures LineEnd(l + "\r\n" + rest) == |l|
  {
    var s := l + "\r\n" + rest;
    assert s[|l|] == '\r' && s[|l| + 1] == '\n';
    forall k | 0 <= k < |l| ensures s[k] != '\r' || s[k + 1] != '\n' {
      assert s[k] == l[k] && (k + 1 < |l| ==> s[k + 1] == l[k + 1]);
    }
    LineEndAt(s, 0, |l|);
    assert s[0..] == s;
  }

  lemma NoCrLfAppend(a: seq<char>, b: seq<char>)
    requires NoCrLf(a) && NoCrLf(b)
    requires a == [] || b == [] || a[|a| - 1] != '\r' || b[0] != '\n'
    ensures NoCrLf(a + b)
  {
    var s := a + b;
    forall i | 0 <= i < |s| - 1 ensures !(s[i] == '\r' && s[i + 1] == '\n') {
      if i + 1 < |a| {
        assert s[i] == a[i] && s[i + 1] == a[i + 1];
      } else if i + 1 == |a| {
        assert s[i + 1] == b[0];
      } else {
        assert s[i] == b[i - |a|] && s[i + 1] == b[i - |a| + 1];
      }
    }
  }

  predicate IsToken(t: seq<char>) {
    t != [] && ' ' !in t
  }

  lemma TokenRoundTrip(t: seq<char>, rest: seq<char>)
    requires IsToken(t) && (rest != [] ==> rest[0] != ' ')
    ensures Token(t + " " + rest) == t && NextToken(t + " " + rest) == rest
  {
    SplitAt(t, ' ', rest);
    assert t + " " + rest == t + [' '] + rest && [' '] + rest == " " + rest;
    SkipOneBlank(rest);
    SkipNothing(rest);
  }

  function Quote(v: seq<char>): seq<char> {
    ['"'] + v + ['"']
  }

  lemma UnquoteQuote(v: seq<char>)
    ensures SkipBlanks(Quote(v)) == TrimRight(Quote(v)) == Quote(v)
    ensures Unquote(Quote(v)) == v
  {
    var q := Quote(v);
    assert q[0] == '"' && q[|q| - 1] == '"';
    assert q[1..|q| - 1] == v;
  }

  /** A quoted value comes back whatever it is. */
  lemma QuotedValueRoundTrip(v: seq<char>)
    ensures HeaderValue(" " + Quote(v)) == v
  {
    SkipOneBlank(Quote(v));
    UnquoteQuote(v);
  }

  predicate IsPlain(v: seq<char>) {
    v == [] || (v[0] != ' ' && v[|v| - 1] != ' ' && v[|v| - 1] != '\t' && !QuoteWrapped(v))
  }

  lemma UnquoteShortens(t: seq<char>)
    ensures QuoteWrapped(t) ==> |Unquote(t)| < |t|
    ensures !QuoteWrapped(t) ==> Unquote(t) == t
  {
  }

  lemma TrimRightShortens(t: seq<char>)
    requires t != []
    ensures if t[|t| - 1] == ' ' || t[|t| - 1] == '\t' then |TrimRight(t)| < |t| else TrimRight(t) == t
  {
  }

  lemma SkipBlanksShortens(t: seq<char>)
    requires t != []
    ensures if t[0] == ' ' then |SkipBlanks(t)| < |t| else SkipBlanks(t) == t
  {
  }

  /** An unquoted value comes back exactly when it is neither padded nor quote-wrapped. */
  lemma PlainValueIff(v: seq<char>)
    ensures HeaderValue(" " + v) == v <==> IsPlain(v)
  {
    SkipOneBlank(v);
    var s := SkipBlanks(v);
    var t := TrimRight(s);
    UnquoteShortens(t);
    if v != [] {
      SkipBlanksShortens(v);
      if s == v { TrimRightShortens(v); }
    }
  }
}
