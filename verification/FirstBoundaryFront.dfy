/** Whether the first boundary is found is a matter of what is in front of it. */
module FirstBoundaryFront {
  import opened Wrappers
  import opened Boundaries
  import opened FirstMatches
  import opened FirstBoundaries
  import opened FirstBoundaryMisled
  import opened FirstBoundaryHidden

  /** The matcher, run on `pre` and the boundary alone, stops at their end. */
  ghost predicate StopsBehind(pre: seq<char>, b: seq<char>) {
    Scan([], pre + ("--" + b), "--" + b, 0, []).Found? && Scan([], pre + ("--" + b), "--" + b, 0, []).rest == []
  }

  /** More text behind changes nothing of what is found, and if nothing was, only leads further. */
  lemma {:induction false} ScanExtends(ring: seq<char>, rest: seq<char>, t: seq<char>, w: seq<char>, k: nat, out: seq<char>)
    requires k < |w| && (ring != [] ==> |ring| + k < |w|)
    ensures var s, more := Scan(ring, rest, w, k, out), Scan(ring, rest + t, w, k, out);
            match s
            case Found(o, r) => more == Found(o, r + t)
            case Exhausted => more.Found? ==> |more.rest| < |t|
    decreases |ring| + |rest| + k, |w| - k
  {
    if ring == [] && rest == [] {
      assert rest + t == t;
      ScanShrinks(ring, t, w, k, out);
    } else {
      var d := (ring + rest)[0];
      var (ring', rest') := if ring == [] then (ring, rest[1..]) else (ring[1..], rest);
      assert (ring + (rest + t))[0] == d && (ring == [] ==> (rest + t)[1..] == rest' + t);
      if d == w[k] {
        if k + 1 < |w| { ScanExtends(ring', rest', t, w, k + 1, out); }
      } else if k > 0 {
        ScanExtends(ring' + w[1..k] + [d], rest', t, w, 0, out + [w[0]]);
      } else {
        ScanExtends(ring', rest', t, w, 0, out + [d]);
      }
    }
  }

  /** For every boundary and every text behind it: the search stops right behind the boundary iff it
      does so on the boundary and what is in front of it alone. */
  lemma FrontDecides(pre: seq<char>, b: seq<char>, t: seq<char>)
    ensures var s := Scan([], pre + ("--" + b) + t, "--" + b, 0, []);
            s.Found? && s.rest == t <==> StopsBehind(pre, b)
  {
    ScanExtends([], pre + ("--" + b), t, "--" + b, 0, []);
  }

  // ---- in which cases it does ----

  /** With no dash behind the leading ones: iff the boundary is not hidden. */
  lemma PlainStopsIff(pre: seq<char>, b: seq<char>)
    requires IsPlain("--" + b) && FirstAt(pre + ("--" + b), "--" + b, |pre|)
    ensures StopsBehind(pre, b) <==> !Hidden(pre + ("--" + b), "--" + b, |pre|)
  {
    var w, none: seq<char> := "--" + b, [];
    var v := pre + w;
    assert none + none == none && none + v == v;
    FoundIff(none, none, v, w, none, |pre|);
    assert v[|pre| + |w|..] == [];
  }

  /** With any boundary: if nothing misleads in front of it. */
  lemma UnmisledStops(pre: seq<char>, b: seq<char>)
    requires FirstAt(pre + ("--" + b), "--" + b, |pre|) && !Misled(pre + ("--" + b), "--" + b, |pre|)
    ensures StopsBehind(pre, b)
  {
    var w, none: seq<char> := "--" + b, [];
    var v := pre + w;
    assert none + none == none && none + v == v;
    StartsWithDashes(b);
    NotMisledIsUnambiguous(v, w, |pre|);
    FirstScanSearches(none, none, v, w, none);
    var s := Scan(none, v, w, 0, none);
    if s.Found? {
      FirstAtUnique(v, w, |pre|, |s.out|);
    }
  }

  // ---- with more behind ----

  lemma OccursInFront(v: seq<char>, t: seq<char>, w: seq<char>, i: int)
    requires i + |w| <= |v|
    ensures OccursAt(v + t, w, i) <==> OccursAt(v, w, i)
  {
    if 0 <= i {
      assert (v + t)[i..i + |w|] == v[i..i + |w|];
    }
  }

  lemma MisleadsInFront(v: seq<char>, t: seq<char>, w: seq<char>, p: nat)
    requires p + |w| < |v|
    ensures Misleads(v + t, w, p) <==> Misleads(v, w, p)
  {
    OccursInFront(v, t, Start(w), p);
    if |w| > 2 && Dashes(w) == 2 { OccursInFront(v, t, Repeat(w), p); }
  }

  lemma FrontIsSame(pre: seq<char>, b: seq<char>, t: seq<char>)
    requires FirstAt(pre + ("--" + b), "--" + b, |pre|)
    ensures var w, u, v := "--" + b, pre + ("--" + b), pre + ("--" + b) + t;
            && FirstAt(v, w, |pre|)
            && (Misled(v, w, |pre|) <==> Misled(u, w, |pre|))
            && (Hidden(v, w, |pre|) <==> Hidden(u, w, |pre|))
  {
    var w, v := "--" + b, pre + ("--" + b);
    OccursInFront(v, t, w, |pre|);
    forall i | 0 <= i < |pre| ensures !OccursAt(v + t, w, i) && (Misleads(v + t, w, i) <==> Misleads(v, w, i)) {
      OccursInFront(v, t, w, i);
      MisleadsInFront(v, t, w, i);
    }
    HiddenPrefix(v + t, v, w, |pre|);
  }

  /** With no dash behind the leading ones, also the place after the line end or the dashes behind the
      boundary tells whether it was found. */
  lemma PlainFrontIff(pre: seq<char>, b: seq<char>, t: seq<char>)
    requires IsPlain("--" + b) && FirstAt(pre + ("--" + b), "--" + b, |pre|) && Trailer(t).Some?
    ensures (match NextBoundary(pre + ("--" + b) + t, b, true)
             case None => false
             case Some((_, more)) => Trailer(t) == Some(more))
            <==> StopsBehind(pre, b)
  {
    var w, v := "--" + b, pre + ("--" + b) + t;
    FrontIsSame(pre, b, t);
    assert v[|pre| + 2 + |b|..] == t;
    FirstBoundaryFoundIff(v, b, |pre|);
    PlainStopsIff(pre, b);
  }

  /** What is in front of a telling boundary is passed over unchanged iff nothing in it misleads. */
  lemma UnchangedIff(pre: seq<char>, b: seq<char>, t: seq<char>)
    requires IsTelling("--" + b) && FirstAt(pre + ("--" + b), "--" + b, |pre|) && Trailer(t).Some?
    ensures NextBoundary(pre + ("--" + b) + t, b, true) == Some((pre, Trailer(t).value))
            <==> !Misled(pre + ("--" + b), "--" + b, |pre|)
  {
    var w, v := "--" + b, pre + ("--" + b) + t;
    FrontIsSame(pre, b, t);
    FirstBoundaryIff(v, b, |pre|);
    assert v[..|pre|] == pre && v[|pre| + |w|..] == t;
    if !Misled(v, w, |pre|) {
      FirstAtUnique(v, w, |pre|, |NextBoundary(v, b, true).value.0|);
    }
  }

  // ---- behind a line end ----

  ghost predicate AreApart(s: seq<char>) {
    forall i, j :: 0 <= i < j < |s| && j == i + 1 ==> !(s[i] == DASH && s[j] == DASH)
  }

  /** Two leading dashes, and those behind them stand alone. */
  ghost predicate IsSpaced(w: seq<char>) {
    Dashes(w) == 2 && AreApart(w[1..])
  }

  /** Lone dashes in the ring are emitted, each before the character behind it, which goes to the end. */
  lemma {:induction false} FlushFront(a: seq<char>, ring: seq<char>, rest: seq<char>, w: seq<char>, out: seq<char>)
    returns (l: seq<char>, out': seq<char>)
    requires Dashes(w) == 2 && AreApart(a) && (a != [] ==> a[|a| - 1] != DASH) && |a| + |ring| < |w|
    ensures DASH !in l && |l| <= |a| && Scan(a + ring, rest, w, 0, out) == Scan(ring + l, rest, w, 0, out')
    decreases |a|
  {
    if a == [] {
      l, out' := [], out;
      assert a + ring == ring + l;
    } else if a[0] != DASH {
      FlushOne(a, ring, rest, w, out);
      l, out' := FlushFront(a[1..], ring, rest, w, out + [a[0]]);
    } else {
      FlushTwo(a, ring, rest, w, out);
      l, out' := FlushFront(a[2..], ring + [a[1]], rest, w, out + [w[0]]);
      assert ring + [a[1]] + l == ring + ([a[1]] + l);
      l := [a[1]] + l;
    }
  }

  lemma FlushOne(a: seq<char>, ring: seq<char>, rest: seq<char>, w: seq<char>, out: seq<char>)
    requires Dashes(w) == 2 && a != [] && a[0] != DASH && |a| + |ring| < |w|
    ensures Scan(a + ring, rest, w, 0, out) == Scan(a[1..] + ring, rest, w, 0, out + [a[0]])
  {
    assert a + ring == [a[0]] + (a[1..] + ring);
    Emit(a[0], a[1..] + ring, rest, w, out);
  }

  lemma FlushTwo(a: seq<char>, ring: seq<char>, rest: seq<char>, w: seq<char>, out: seq<char>)
    requires Dashes(w) == 2 && |a| > 1 && a[0] == DASH != a[1] && |a| + |ring| < |w|
    ensures Scan(a + ring, rest, w, 0, out) == Scan(a[2..] + (ring + [a[1]]), rest, w, 0, out + [w[0]])
  {
    assert a + ring == [a[0]] + ([a[1]] + (a[2..] + ring));
    Hit(a[0], [a[1]] + (a[2..] + ring), rest, w, 0, out);
    Miss(a[1], a[2..] + ring, rest, w, 1, out);
    assert a[2..] + ring + w[1..1] + [a[1]] == a[2..] + (ring + [a[1]]);
  }

  lemma {:induction false} EmitAll(l: seq<char>, rest: seq<char>, w: seq<char>, out: seq<char>)
    requires Dashes(w) == 2 && DASH !in l && |l| < |w|
    ensures Scan(l, rest, w, 0, out) == Scan([], rest, w, 0, out + l)
    decreases |l|
  {
    if l == [] {
      assert out + l == out;
    } else {
      assert l == [l[0]] + l[1..];
      Emit(l[0], l[1..], rest, w, out);
      EmitAll(l[1..], rest, w, out + [l[0]]);
      assert out + [l[0]] + l[1..] == out + l;
    }
  }

  lemma FlushRing(ring: seq<char>, rest: seq<char>, w: seq<char>, out: seq<char>) returns (out': seq<char>)
    requires Dashes(w) == 2 && AreApart(ring) && (ring != [] ==> ring[|ring| - 1] != DASH) && |ring| < |w|
    ensures Scan(ring, rest, w, 0, out) == Scan([], rest, w, 0, out')
  {
    var none: seq<char> := [];
    assert ring + none == ring;
    var l, out1 := FlushFront(ring, none, rest, w, out);
    assert none + l == l;
    EmitAll(l, rest, w, out1);
    out' := out1 + l;
  }

  /** The ring after a false match is emitted, or turns into a match that goes on. */
  lemma FlushSwapped(w: seq<char>, k: nat, d: char, rest: seq<char>, out: seq<char>) returns (j: nat, out': seq<char>)
    requires IsSpaced(w) && 2 < k < |w|
    ensures j < k && (d != DASH ==> j == 0)
    ensures Scan(Swapped(w, k, d), rest, w, 0, out) == Scan([], rest, w, j, out')
  {
    SwappedIs(w, k, d);
    var s := Swapped(w, k, d);
    if d == DASH && k > 3 && w[k - 1] == DASH {
      j, out' := FlushDashes(w, k, rest, out);
    } else {
      SwappedApart(w, k, d);
      j := 0;
      out' := FlushRing(s, rest, w, out);
    }
  }

  lemma SwappedApart(w: seq<char>, k: nat, d: char)
    requires IsSpaced(w) && 2 < k < |w| && (d != DASH || k == 3 || w[k - 1] != DASH)
    ensures var s := Swapped(w, k, d); AreApart(s) && s[|s| - 1] != DASH
  {
    var s := Swapped(w, k, d);
    SwappedIs(w, k, d);
    forall i | 0 <= i < |s| - 1 ensures !(s[i] == DASH && s[i + 1] == DASH) {
      if i < k - 4 { assert s[i] == w[1..][i + 2] && s[i + 1] == w[1..][i + 3]; }
    }
  }

  lemma SwappedDouble(w: seq<char>, k: nat)
    requires IsSpaced(w) && 3 < k < |w| && w[k - 1] == DASH
    ensures Swapped(w, k, DASH) == w[3..k - 1] + w[..3]
    ensures AreApart(w[3..k - 1]) && (k > 4 ==> w[k - 2] != DASH)
  {
    var s, a := Swapped(w, k, DASH), w[3..k - 1];
    assert w[0] == DASH && w[1] == DASH && w[..3] == [DASH, DASH, w[2]];
    SwappedIs(w, k, DASH);
    assert w[3..k] == a + [w[k - 1]];
    assert s == a + [w[k - 1]] + [DASH] + [w[2]];
    assert a + [DASH] + [DASH] + [w[2]] == a + [DASH, DASH, w[2]];
    forall i | 0 <= i < |a| - 1 ensures !(a[i] == DASH && a[i + 1] == DASH) {
      assert a[i] == w[1..][i + 2] && a[i + 1] == w[1..][i + 3];
    }
    if k > 4 { assert w[1..][k - 3] == w[k - 2] && w[1..][k - 2] == w[k - 1]; }
  }

  lemma FlushDashes(w: seq<char>, k: nat, rest: seq<char>, out: seq<char>) returns (j: nat, out': seq<char>)
    requires IsSpaced(w) && 3 < k < |w| && w[k - 1] == DASH
    ensures j < k && Scan(Swapped(w, k, DASH), rest, w, 0, out) == Scan([], rest, w, j, out')
  {
    SwappedDouble(w, k);
    var l, out1 := FlushFront(w[3..k - 1], w[..3], rest, w, out);
    MatchRing(w[..3], l, rest, w, 0, out1);
    var n := Common(l, w[3..]);
    var none: seq<char> := [];
    if n == |l| {
      assert l == l[..n] == w[3..][..n] == w[3..3 + n] && l + none == l;
      MatchRing(l, none, rest, w, 3, out1);
      j, out' := 3 + n, out1;
    } else {
      j := 0;
      out' := FlushBroken(w, l, n, rest, out1);
    }
  }

  lemma FlushBroken(w: seq<char>, l: seq<char>, n: nat, rest: seq<char>, out: seq<char>) returns (out': seq<char>)
    requires IsSpaced(w) && DASH !in l && 3 + |l| < |w| && n == Common(l, w[3..]) && n < |l|
    ensures Scan(l, rest, w, 3, out) == Scan([], rest, w, 0, out')
  {
    assert l == l[..n] + ([l[n]] + l[n + 1..]) && l[..n] == w[3..][..n] == w[3..3 + n];
    MatchRing(l[..n], [l[n]] + l[n + 1..], rest, w, 3, out);
    Miss(l[n], l[n + 1..], rest, w, 3 + n, out);
    BrokenApart(w, l, n);
    out' := FlushRing(l[n + 1..] + w[1..3 + n] + [l[n]], rest, w, out + [w[0]]);
  }

  lemma BrokenApart(w: seq<char>, l: seq<char>, n: nat)
    requires IsSpaced(w) && DASH !in l && n < |l| && 3 + n < |w|
    ensures AreApart(l[n + 1..] + w[1..3 + n] + [l[n]])
  {
    var ring := l[n + 1..] + w[1..3 + n] + [l[n]];
    forall i | 0 <= i < |ring| - 1 ensures !(ring[i] == DASH && ring[i + 1] == DASH) {
      var p := i - (|l| - n - 1);
      if 0 <= p < n + 1 { assert ring[i] == w[1..][p] && ring[i + 1] == w[1..][p + 1]; }
    }
  }

  /** Behind `m`, whose last character is none of the boundary's, the boundary is found, unless
      something is found in `m`. */
  lemma {:induction false} LineEndScan(x: seq<char>, y: seq<char>, rest: seq<char>, w: seq<char>, m: seq<char>,
                                       t: seq<char>, out: seq<char>)
    requires RingState(x, y, w) && IsSpaced(w) && x + y + rest == m + (w + t) && (m != [] ==> m[|m| - 1] !in w)
    ensures var s := Scan(x + y, rest, w, 0, out); s.Found? && (s.rest == t || |s.rest| >= |w + t|)
    decreases |m|
  {
    var v := x + y + rest;
    var k := Common(v, w);
    if m == [] {
      assert v == w + t && v[..|w|] == w && v[|w|..] == t;
      TurnFound(x + y, rest, w, out);
    } else {
      EndsInFront(m, w, w + t);
      if k == |w| {
        FoundAtOnce(x, y, rest, w, out);
      } else if k <= 2 {
        var x', y', rest' := Turn(x, y, rest, w, k, out);
        assert v[1..] == m[1..] + (w + t);
        LineEndScan(x', y', rest', w, m[1..], t, out + [v[0]]);
      } else {
        LineEndFalse(x, y, rest, w, m, t, k, out);
      }
    }
  }

  lemma EndsInFront(m: seq<char>, w: seq<char>, more: seq<char>)
    requires m != [] && m[|m| - 1] !in w
    ensures Common(m + more, w) < |m|
  {
    var v := m + more;
    var k := Common(v, w);
    assert forall n :: 0 <= n < k ==> v[n] == v[..k][n] && w[n] == w[..k][n];
    assert v[|m| - 1] == m[|m| - 1];
  }

  lemma {:induction false} LineEndFalse(x: seq<char>, y: seq<char>, rest: seq<char>, w: seq<char>, m: seq<char>,
                                        t: seq<char>, k: nat, out: seq<char>)
    requires RingState(x, y, w) && IsSpaced(w) && x + y + rest == m + (w + t) && m != [] && m[|m| - 1] !in w
    requires k == Common(x + y + rest, w) && 2 < k < |w| && k < |m|
    ensures var s := Scan(x + y, rest, w, 0, out); s.Found? && (s.rest == t || |s.rest| >= |w + t|)
    decreases |m|, 0
  {
    var v, none: seq<char> := x + y + rest, [];
    RingIsRead(x, y, rest, w, k);
    assert x + y == y;
    FalseMatch(y, rest, w, k, out);
    var j, out' := FlushSwapped(w, k, v[k], v[k + 1..], out + [w[0]] + [w[0]]);
    MatchRead(w[..j], v[k + 1..], w, 0, out');
    var before := w[..j] + m[k + 1..];
    GoesOn(m, w, k, j, w + t);
    assert none + none == none && none + (before + (w + t)) == before + (w + t);
    LineEndScan(none, none, before + (w + t), w, before, t, out');
  }

  lemma GoesOn(m: seq<char>, w: seq<char>, k: nat, j: nat, more: seq<char>)
    requires w != [] && w[0] == DASH && k < |m| && j < k && j <= |w| && m[|m| - 1] !in w && (m[k] != DASH ==> j == 0)
    ensures w[..j] + (m + more)[k + 1..] == w[..j] + m[k + 1..] + more
    ensures var before := w[..j] + m[k + 1..]; |before| < |m| && (before != [] ==> before[|before| - 1] !in w)
  {
    assert (m + more)[k + 1..] == m[k + 1..] + more;
    if m[k + 1..] == [] {
      assert m[k] == m[|m| - 1];
    }
  }

  /** For a boundary with two leading dashes and no adjacent ones behind them, at the start or behind a
      character that it does not contain, a line end say: the search stops right behind it iff it finds
      nothing in what is in front. */
  lemma LineEndStopsIff(pre: seq<char>, b: seq<char>)
    requires IsSpaced("--" + b) && (pre != [] ==> pre[|pre| - 1] !in "--" + b)
    ensures StopsBehind(pre, b) <==> Scan([], pre, "--" + b, 0, []) == Exhausted
  {
    LineEndFinds(pre, "--" + b);
    FoundBefore(pre, "--" + b);
  }

  lemma LineEndFinds(pre: seq<char>, w: seq<char>)
    requires IsSpaced(w) && (pre != [] ==> pre[|pre| - 1] !in w)
    ensures var s := Scan([], pre + w, w, 0, []); s.Found? && (s.rest == [] || |s.rest| >= |w|)
  {
    var none: seq<char> := [];
    assert none + none == none && none + (pre + w) == pre + (w + none) && w + none == w;
    LineEndScan(none, none, pre + w, w, pre, none, none);
  }

  lemma FoundBefore(pre: seq<char>, w: seq<char>)
    requires w != []
    requires var s := Scan([], pre + w, w, 0, []); s.Found? && (s.rest == [] || |s.rest| >= |w|)
    ensures Scan([], pre + w, w, 0, []).rest == [] <==> Scan([], pre, w, 0, []) == Exhausted
  {
    ScanExtends([], pre, w, w, 0, []);
  }
}
