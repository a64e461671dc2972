/** cgic's newline normalisation of form values into bounded buffers. */
module Newlines {
  import opened Text
  import opened Multipart

  const LF: char := '\n'
  const CR: char := '\r'

  function LineFeeds(n: nat): (r: seq<char>)
    ensures |r| == n && forall i :: 0 <= i < n ==> r[i] == LF
  {
    if n == 0 then [] else [LF] + LineFeeds(n - 1)
  }

  /** What a burst of CRs and LFs becomes: the larger number of line feeds, or nothing. */
  function Burst(cr: nat, lf: nat, newlines: bool): seq<char> {
    if !newlines then [] else LineFeeds(if lf > cr then lf else cr)
  }

  /** The normalised text, `cr` and `lf` of the current burst being counted already. */
  function Normal(s: seq<char>, cr: nat, lf: nat, newlines: bool): seq<char>
    decreases |s|
  {
    if s == [] then Burst(cr, lf, newlines)
    else if s[0] == CR then Normal(s[1..], cr + 1, lf, newlines)
    else if s[0] == LF then Normal(s[1..], cr, lf + 1, newlines)
    else Burst(cr, lf, newlines) + ([s[0]] + Normal(s[1..], 0, 0, newlines))
  }

  datatype FormResult = FormSuccess | FormTruncated | FormEmpty | FormNotFound

  /** Adds line feeds while there is room. */
  method AddLineFeeds(out: seq<char>, n: nat, avail: nat) returns (r: seq<char>, truncated: bool)
    requires |out| <= avail
    ensures |r| <= avail && |r| <= |out| + n && truncated == (|out| + n > avail)
    ensures r == (out + LineFeeds(n))[..|r|] && (!truncated ==> |r| == |out| + n) && (truncated ==> |r| == avail)
  {
    r, truncated := out, false;
    var left := n;
    while left > 0
      invariant 0 <= left <= n && |out| <= |r| <= avail && |r| == |out| + (n - left)
      invariant r == (out + LineFeeds(n))[..|r|]
    {
      if |r| >= avail {
        truncated := true;
        break;
      }
      assert (out + LineFeeds(n))[|r|] == LF;
      r := r + [LF];
      left := left - 1;
    }
  }

  /** cgiFormEntryString into a buffer of `max` characters: the first max-1 characters of the
      normalised text, and truncation is reported exactly if there are more. */
  method FormEntryString(value: seq<char>, max: nat, newlines: bool) returns (result: FormResult, out: seq<char>)
    requires max >= 1 && NUL !in value
    ensures var full := Normal(value, 0, 0, newlines);
            && out == full[..if |full| < max then |full| else max - 1]
            && result == if |full| >= max then FormTruncated else if full == [] then FormEmpty else FormSuccess
  {
    var avail := max - 1;
    var crCount, lfCount, sp := 0, 0, 0;
    var truncated := false;
    out := [];
    ghost var full := Normal(value, 0, 0, newlines);
    while true
      invariant sp <= |value| && |out| <= avail
      invariant full == out + Normal(value[sp..], crCount, lfCount, newlines)
      decreases |value| - sp
    {
      ghost var rest := value[sp..];
      if sp < |value| && value[sp] == CR {
        crCount := crCount + 1;
      } else if sp < |value| && value[sp] == LF {
        lfCount := lfCount + 1;
      } else {
        var lfsAdd := if !newlines then 0 else if lfCount > crCount then lfCount else crCount;
        ghost var tail := if rest == [] then [] else [rest[0]] + Normal(rest[1..], 0, 0, newlines);
        Regroup(out, LineFeeds(lfsAdd), tail);
        assert full == out + LineFeeds(lfsAdd) + tail;
        out, truncated := AddLineFeeds(out, lfsAdd, avail);
        crCount, lfCount := 0, 0;
        if sp == |value| {
          break;
        }
        if |out| >= avail {
          truncated := true;
          break;
        }
        assert full == out + tail && tail == [value[sp]] + Normal(value[sp + 1..], 0, 0, newlines);
        out := out + [value[sp]];
      }
      sp := sp + 1;
    }
    result := if truncated then FormTruncated else if out == [] then FormEmpty else FormSuccess;
  }

  lemma Regroup(p: seq<char>, q: seq<char>, r: seq<char>)
    ensures p + (q + r) == p + q + r && p + q + [] == p + q
  {
  }

  // ---- what the normalised text is like ----

  /** It is never longer than the text, so a buffer of the text's own size never truncates. */
  lemma {:induction false} NormalIsShorter(s: seq<char>, cr: nat, lf: nat, newlines: bool)
    ensures |Normal(s, cr, lf, newlines)| <= |s| + cr + lf
    decreases |s|
  {
    if s != [] {
      if s[0] == CR { NormalIsShorter(s[1..], cr + 1, lf, newlines); }
      else if s[0] == LF { NormalIsShorter(s[1..], cr, lf + 1, newlines); }
      else { NormalIsShorter(s[1..], 0, 0, newlines); }
    }
  }

  lemma {:induction false} NormalHasNoCr(s: seq<char>, cr: nat, lf: nat, newlines: bool)
    ensures CR !in Normal(s, cr, lf, newlines)
    ensures !newlines ==> LF !in Normal(s, cr, lf, newlines)
    decreases |s|
  {
    if s != [] {
      if s[0] == CR { NormalHasNoCr(s[1..], cr + 1, lf, newlines); }
      else if s[0] == LF { NormalHasNoCr(s[1..], cr, lf + 1, newlines); }
      else { NormalHasNoCr(s[1..], 0, 0, newlines); }
    }
  }

  lemma LineFeedsSnoc(n: nat, s: seq<char>)
    ensures LineFeeds(n) + ([LF] + s) == LineFeeds(n + 1) + s
  {
    var a, b := LineFeeds(n) + ([LF] + s), LineFeeds(n + 1) + s;
    assert forall i :: 0 <= i < |a| ==> a[i] == b[i];
  }

  /** A text without carriage returns, and without line feeds if those are dropped, stays. */
  lemma {:induction false} NormalKeeps(s: seq<char>, lf: nat, newlines: bool)
    requires CR !in s && (!newlines ==> LF !in s && lf == 0)
    ensures Normal(s, 0, lf, newlines) == LineFeeds(lf) + s
    decreases |s|
  {
    if s == [] {
      assert LineFeeds(lf) + s == LineFeeds(lf);
    } else if s[0] == LF {
      NormalKeeps(s[1..], lf + 1, newlines);
      LineFeedsSnoc(lf, s[1..]);
      assert [LF] + s[1..] == s;
    } else {
      NormalKeeps(s[1..], 0, newlines);
      assert LineFeeds(0) + s[1..] == s[1..];
      assert [s[0]] + s[1..] == s;
    }
  }

  /** Normalising twice is normalising once. */
  lemma NormalIsIdempotent(s: seq<char>, newlines: bool)
    ensures var once := Normal(s, 0, 0, newlines); Normal(once, 0, 0, newlines) == once
  {
    var once := Normal(s, 0, 0, newlines);
    NormalHasNoCr(s, 0, 0, newlines);
    NormalKeeps(once, 0, newlines);
    assert LineFeeds(0) + once == once;
  }

  // ---- what a burst becomes ----

  predicate IsPlain(s: seq<char>) {
    CR !in s && LF !in s
  }

  predicate StartsPlain(s: seq<char>) {
    s != [] ==> s[0] != CR && s[0] != LF
  }

  lemma {:induction false} PlainStays(x: seq<char>, rest: seq<char>, newlines: bool)
    requires IsPlain(x)
    ensures Normal(x + rest, 0, 0, newlines) == x + Normal(rest, 0, 0, newlines)
    decreases |x|
  {
    if x == [] {
      assert x + rest == rest && x + Normal(rest, 0, 0, newlines) == Normal(rest, 0, 0, newlines);
    } else {
      assert (x + rest)[1..] == x[1..] + rest;
      PlainStays(x[1..], rest, newlines);
      assert Burst(0, 0, newlines) == [];
      assert [x[0]] + (x[1..] + Normal(rest, 0, 0, newlines)) == x + Normal(rest, 0, 0, newlines);
    }
  }

  lemma {:induction false} BurstCounts(a: seq<char>, rest: seq<char>, cr: nat, lf: nat, newlines: bool)
    requires forall c :: c in a ==> c == CR || c == LF
    ensures Normal(a + rest, cr, lf, newlines) == Normal(rest, cr + multiset(a)[CR], lf + multiset(a)[LF], newlines)
    decreases |a|
  {
    if a == [] {
      assert a + rest == rest;
    } else {
      assert (a + rest)[1..] == a[1..] + rest && a == [a[0]] + a[1..];
      assert a[0] in a && forall c :: c in a[1..] ==> c in a;
      BurstCounts(a[1..], rest, if a[0] == CR then cr + 1 else cr, if a[0] == LF then lf + 1 else lf, newlines);
    }
  }

  /** A burst of carriage returns and line feeds in any order becomes the larger number of line feeds, or
      nothing; the text around it is normalised on its own. */
  lemma BurstBecomes(x: seq<char>, a: seq<char>, rest: seq<char>, newlines: bool)
    requires IsPlain(x) && StartsPlain(rest) && forall c :: c in a ==> c == CR || c == LF
    ensures var n, m := multiset(a)[CR], multiset(a)[LF];
            Normal(x + (a + rest), 0, 0, newlines)
            == x + (if !newlines then [] else LineFeeds(if n > m then n else m)) + Normal(rest, 0, 0, newlines)
  {
    PlainStays(x, a + rest, newlines);
    BurstCounts(a, rest, 0, 0, newlines);
    BurstEnds(rest, multiset(a)[CR], multiset(a)[LF], newlines);
    Regroup(x, Burst(multiset(a)[CR], multiset(a)[LF], newlines), Normal(rest, 0, 0, newlines));
  }

  lemma BurstEnds(rest: seq<char>, cr: nat, lf: nat, newlines: bool)
    requires StartsPlain(rest)
    ensures Normal(rest, cr, lf, newlines) == Burst(cr, lf, newlines) + Normal(rest, 0, 0, newlines)
  {
    assert Burst(0, 0, newlines) == [] && Burst(cr, lf, newlines) + [] == Burst(cr, lf, newlines);
    if rest != [] {
      NothingInFront([rest[0]] + Normal(rest[1..], 0, 0, newlines));
    }
  }

  lemma NothingInFront(s: seq<char>)
    ensures [] + s == s
  {
  }

  /** The line ends in use. */
  const LINE_ENDS: set<seq<char>> := {[CR, LF], [CR], [LF], [LF, CR]}

  function Lines(lines: seq<seq<char>>, end: seq<char>): seq<char> {
    if lines == [] then [] else lines[0] + end + Lines(lines[1..], end)
  }

  /** A text of lines, empty ones included, is delivered with one line feed at the end of each line,
      whichever line end it came with. */
  lemma {:induction false} LinesAreKept(lines: seq<seq<char>>, end: seq<char>, n: nat)
    requires end in LINE_ENDS && forall l :: l in lines ==> IsPlain(l)
    ensures Normal(Lines(lines, end), Times(CR in end, n), Times(LF in end, n), true)
         == LineFeeds(n) + Lines(lines, [LF])
    decreases |lines|
  {
    if lines == [] {
      assert LineFeeds(n) + [] == LineFeeds(n);
    } else {
      LineIsKept(lines[0], end, Lines(lines[1..], end), n);
      LinesAreKept(lines[1..], end, if lines[0] == [] then n + 1 else 1);
      LineSums(n, lines[0], Lines(lines[1..], [LF]));
    }
  }

  lemma LineSums(n: nat, l: seq<char>, t: seq<char>)
    ensures LineFeeds(n) + (l + (LineFeeds(1) + t)) == LineFeeds(n) + (l + [LF] + t)
    ensures l == [] ==> LineFeeds(n + 1) + t == LineFeeds(n) + (l + [LF] + t)
  {
    LineFeedsSnoc(n, t);
    assert LineFeeds(1) == [LF] && [LF] + t == [] + [LF] + t;
    assert l + ([LF] + t) == l + [LF] + t;
  }

  lemma LineIsKept(l: seq<char>, end: seq<char>, rest: seq<char>, n: nat)
    requires end in LINE_ENDS && IsPlain(l)
    ensures Normal(l + end + rest, Times(CR in end, n), Times(LF in end, n), true)
         == if l == [] then Normal(rest, Times(CR in end, n + 1), Times(LF in end, n + 1), true)
            else LineFeeds(n) + (l + Normal(rest, Times(CR in end, 1), Times(LF in end, 1), true))
  {
    if l == [] {
      EndCounts(end, rest, Times(CR in end, n), Times(LF in end, n));
      assert l + end + rest == end + rest;
    } else {
      PlainBehindBurst(l, end + rest, Times(CR in end, n), Times(LF in end, n));
      EndCounts(end, rest, 0, 0);
      assert l + end + rest == l + (end + rest);
    }
  }

  function Times(counts: bool, n: nat): nat {
    if counts then n else 0
  }

  lemma PlainBehindBurst(l: seq<char>, rest: seq<char>, cr: nat, lf: nat)
    requires l != [] && IsPlain(l)
    ensures Normal(l + rest, cr, lf, true) == LineFeeds(if lf > cr then lf else cr) + (l + Normal(rest, 0, 0, true))
  {
    BurstEnds(l + rest, cr, lf, true);
    PlainStays(l, rest, true);
  }

  lemma EndCounts(end: seq<char>, rest: seq<char>, cr: nat, lf: nat)
    requires end in LINE_ENDS
    ensures Normal(end + rest, cr, lf, true) == Normal(rest, cr + Times(CR in end, 1), lf + Times(LF in end, 1), true)
  {
    BurstCounts(end, rest, cr, lf, true);
  }

  /** So a buffer with room for the lines receives each of them with a single line feed. */
  method FormEntryLines(lines: seq<seq<char>>, end: seq<char>, max: nat) returns (result: FormResult, out: seq<char>)
    requires end in LINE_ENDS && lines != [] && forall l :: l in lines ==> IsPlain(l) && NUL !in l
    requires |Lines(lines, [LF])| < max
    ensures result == FormSuccess && out == Lines(lines, [LF])
  {
    LinesAreKept(lines, end, 0);
    LinesAreCStrings(lines, end);
    assert LineFeeds(0) + Lines(lines, [LF]) == Lines(lines, [LF]);
    result, out := FormEntryString(Lines(lines, end), max, true);
  }

  lemma {:induction false} LinesAreCStrings(lines: seq<seq<char>>, end: seq<char>)
    requires end in LINE_ENDS && forall l :: l in lines ==> NUL !in l
    ensures NUL !in Lines(lines, end)
  {
    if lines != [] {
      LinesAreCStrings(lines[1..], end);
    }
  }

  // ---- the callers ----

  /** cgiFormStringSpaceNeeded, for the first entry of a name. */
  method FormStringSpaceNeeded(entries: seq<Entry>, name: seq<char>) returns (result: FormResult, space: nat)
    ensures result == FormNotFound <==> forall i :: 0 <= i < |entries| ==> entries[i].attr != name
    ensures result == FormNotFound ==> space == 1
    ensures result != FormNotFound ==>
              exists i :: 0 <= i < |entries| && entries[i].attr == name && space == |CString(entries[i].value)| + 1
                          && forall j :: 0 <= j < i ==> entries[j].attr != name
  {
    for i := 0 to |entries|
      invariant forall j :: 0 <= j < i ==> entries[j].attr != name
    {
      if entries[i].attr == name {
        return FormSuccess, |CString(entries[i].value)| + 1;
      }
    }
    result, space := FormNotFound, 1;
  }

  /** A buffer of the space asked for receives the whole normalised value. */
  method FormEntryWhole(value: seq<char>, newlines: bool) returns (result: FormResult, out: seq<char>)
    requires NUL !in value
    ensures out == Normal(value, 0, 0, newlines) && result != FormTruncated
  {
    NormalIsShorter(value, 0, 0, newlines);
    result, out := FormEntryString(value, |value| + 1, newlines);
  }

  /** The normalised values of the entries of a name, in order. */
  function ValuesOf(entries: seq<Entry>, name: seq<char>): seq<seq<char>> {
    if entries == [] then []
    else (if entries[0].attr == name then [Normal(CString(entries[0].value), 0, 0, true)] else [])
         + ValuesOf(entries[1..], name)
  }

  /** cgiFormStringMultiple: every value of the name, none of them truncated. */
  method FormStringMultiple(entries: seq<Entry>, name: seq<char>) returns (result: FormResult, strings: seq<seq<char>>)
    ensures strings == ValuesOf(entries, name)
    ensures result == if strings == [] then FormNotFound else FormSuccess
  {
    strings := [];
    for i := 0 to |entries|
      invariant strings + ValuesOf(entries[i..], name) == ValuesOf(entries, name)
    {
      ghost var tail := ValuesOf(entries[i + 1..], name);
      assert entries[i..][1..] == entries[i + 1..];
      if entries[i].attr == name {
        var _, s := FormEntryWhole(CString(entries[i].value), true);
        assert strings + ([s] + tail) == strings + [s] + tail;
        strings := strings + [s];
      } else {
        assert [] + tail == tail;
      }
    }
    assert ValuesOf(entries[|entries|..], name) == [] && strings + [] == strings;
    result := if strings == [] then FormNotFound else FormSuccess;
  }
}
