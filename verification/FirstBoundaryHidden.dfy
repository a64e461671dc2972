/** Which first boundaries are lost, for boundaries with no dash behind the leading ones: those directly
    behind a false start that is not lost itself. What was passed over does not matter here. */
module FirstBoundaryHidden {
  import opened Wrappers
  import opened Boundaries
  import opened FirstMatches
  import opened FirstBoundaries
  import opened FirstBoundaryMisled

  /** The first `k` characters of the boundary end at `i`. */
  ghost predicate EndsAt(v: seq<char>, w: seq<char>, i: int, k: nat) {
    k <= |w| && k <= i <= |v| && v[i - k..i] == w[..k]
  }

  /** A start that goes beyond the dashes ends at `i`, and is not hidden by another one. */
  ghost predicate Hidden(v: seq<char>, w: seq<char>, i: int)
    decreases i
  {
    exists k :: Dashes(w) < k < |w| && k <= i && EndsAt(v, w, i, k) && !Hidden(v, w, i - k)
  }

  lemma HiddenBy(v: seq<char>, w: seq<char>, i: int, k: nat)
    requires Dashes(w) < k < |w| && EndsAt(v, w, i, k) && !Hidden(v, w, i - k)
    ensures Hidden(v, w, i)
  {
  }

  lemma StartInFront(v: seq<char>, w: seq<char>, i: int) returns (k: nat)
    requires Hidden(v, w, i)
    ensures Dashes(w) < k < |w| && EndsAt(v, w, i, k) && !Hidden(v, w, i - k)
  {
    k :| Dashes(w) < k < |w| && k <= i && EndsAt(v, w, i, k) && !Hidden(v, w, i - k);
  }

  lemma EndsInTail(v: seq<char>, w: seq<char>, i: int, k: nat)
    requires |v| > 0 && k < i
    ensures EndsAt(v[1..], w, i - 1, k) <==> EndsAt(v, w, i, k)
  {
    if k <= |w| && i <= |v| {
      assert v[1..][i - 1 - k..i - 1] == v[i - k..i];
    }
  }

  lemma EndsAtStart(v: seq<char>, w: seq<char>, k: nat)
    requires Dashes(w) < k < |w| && EndsAt(v, w, k, k)
    ensures OccursAt(v, Start(w), 0)
  {
    var s := Start(w);
    assert v[0..|s|] == v[0..k][..|s|] == w[..k][..|s|] == s;
  }

  /** What is hidden from the second character on is hidden from the first, if nothing starts there. */
  lemma {:induction false} HiddenTail(v: seq<char>, w: seq<char>, i: int)
    requires |v| > 0 && 0 < i && !OccursAt(v, Start(w), 0)
    ensures Hidden(v[1..], w, i - 1) <==> Hidden(v, w, i)
    decreases i
  {
    if Hidden(v[1..], w, i - 1) {
      var k := StartInFront(v[1..], w, i - 1);
      EndsInTail(v, w, i, k);
      HiddenTail(v, w, i - k);
      HiddenBy(v, w, i, k);
    }
    if Hidden(v, w, i) {
      var k := StartInFront(v, w, i);
      if k == i { EndsAtStart(v, w, k); }
      EndsInTail(v, w, i, k);
      HiddenTail(v, w, i - k);
      HiddenBy(v[1..], w, i - 1, k);
    }
  }

  /** Only what precedes `i` matters. */
  lemma {:induction false} HiddenPrefix(v: seq<char>, u: seq<char>, w: seq<char>, i: int)
    requires i <= |v| && i <= |u| && forall n :: 0 <= n < i ==> v[n] == u[n]
    ensures Hidden(v, w, i) <==> Hidden(u, w, i)
    decreases i
  {
    if Hidden(v, w, i) {
      var k := StartInFront(v, w, i);
      assert v[i - k..i] == u[i - k..i];
      HiddenPrefix(v, u, w, i - k);
      HiddenBy(u, w, i, k);
    }
    if Hidden(u, w, i) {
      var k := StartInFront(u, w, i);
      assert v[i - k..i] == u[i - k..i];
      HiddenPrefix(v, u, w, i - k);
      HiddenBy(v, w, i, k);
    }
  }

  // ---- a false match ----

  /** Among the swapped characters no start can begin. */
  lemma StartsBehindSwapped(w: seq<char>, k: nat, d: char, rest: seq<char>, j: nat)
    requires IsPlain(w) && Dashes(w) < k < |w|
    requires DashesFrom(Swapped(w, k, d) + rest, w, j)
    ensures j >= k - 1
  {
    var r, v := Dashes(w), Swapped(w, k, d) + rest;
    assert v[k - 2] == w[r] && v[j] == DASH;
    assert forall n :: 0 <= n < k - 1 - r ==> v[n] == w[r..][1 + n];
  }

  lemma EndsWithDashes(v: seq<char>, w: seq<char>, i: int, k: nat)
    requires EndsAt(v, w, i, k) && Dashes(w) < k
    ensures DashesFrom(v, w, i - k)
  {
    forall n | i - k <= n < i - k + Dashes(w) ensures v[n] == DASH {
      assert v[i - k..i][n - (i - k)] == v[n] && w[..k][n - (i - k)] == w[n - (i - k)];
    }
  }

  /** Where a start that ends at `i` can begin, if there is a false match of `k` characters in front. */
  lemma StartBehindFalseMatch(m: seq<char>, w: seq<char>, k: nat, i: int, n: nat)
    requires IsPlain(w) && Dashes(w) < k < |w| && k == Common(m, w) && k < |m| && k < i
    requires Dashes(w) < n < |w| && EndsAt(m, w, i, n)
    ensures i - n >= k
  {
    if i == n {
      NotFromStart(m, w, k, n);
    } else {
      EndsWithDashes(m, w, i, n);
      DashesBehind(m, w, k, i - n);
    }
  }

  lemma NotFromStart(m: seq<char>, w: seq<char>, k: nat, n: nat)
    requires k == Common(m, w) && k < |m| && k < n < |w|
    ensures !EndsAt(m, w, n, n)
  {
    if n <= |m| { assert m[0..n][k] == m[k] && w[..n][k] == w[k]; }
  }

  lemma DashesBehind(m: seq<char>, w: seq<char>, k: nat, j: nat)
    requires IsPlain(w) && Dashes(w) < k < |w| && k == Common(m, w) && k < |m|
    requires 0 < j && DashesFrom(m, w, j)
    ensures j >= k
  {
    var r := Dashes(w);
    assert m[..k] == w[..k] && m[j] == DASH;
    assert m[..k][r] == m[r] == w[r];
    if r <= j < k { NoDashBehind(w, j); }
  }

  lemma NoDashBehind(w: seq<char>, j: nat)
    requires IsPlain(w) && Dashes(w) <= j < |w|
    ensures w[j] != DASH
  {
    assert w[j] == w[Dashes(w)..][j - Dashes(w)];
  }

  lemma HiddenAtFalseMatch(m: seq<char>, w: seq<char>, k: nat)
    requires Dashes(w) < k < |w| && k == Common(m, w)
    ensures EndsAt(m, w, k, k) && !Hidden(m, w, 0) && Hidden(m, w, k)
  {
    assert EndsAt(m, w, k, k) && !Hidden(m, w, k - k);
  }

  /** The stream in mind behind a false match. */
  function InMind(m: seq<char>, w: seq<char>, k: nat): (v: seq<char>)
    requires 2 <= Dashes(w) < k < |w| && k < |m|
    ensures |v| == |m| - 2 && forall n :: k < n < |m| ==> v[n - 2] == m[n]
  {
    Swapped(w, k, m[k]) + m[k + 1..]
  }

  lemma EndsBehind(m: seq<char>, w: seq<char>, k: nat, i: int, n: nat)
    requires IsPlain(w) && Dashes(w) < k < |w| && k == Common(m, w) && k < |m| && k < i && Dashes(w) < n < |w|
    ensures EndsAt(InMind(m, w, k), w, i - 2, n) <==> EndsAt(m, w, i, n) && k < i - n
  {
    if EndsAt(InMind(m, w, k), w, i - 2, n) { EndsNotBefore(m, w, k, i, n); }
    if n <= i && i <= |m| && k < i - n { SameBehind(m, w, k, i, n); }
  }

  lemma SameBehind(m: seq<char>, w: seq<char>, k: nat, i: int, n: nat)
    requires 2 <= Dashes(w) < k < |w| && k < |m| && k < i - n && i <= |m|
    ensures InMind(m, w, k)[i - 2 - n..i - 2] == m[i - n..i]
  {
  }

  lemma EndsNotBefore(m: seq<char>, w: seq<char>, k: nat, i: int, n: nat)
    requires IsPlain(w) && Dashes(w) < k < |w| && k < |m| && Dashes(w) < n && EndsAt(InMind(m, w, k), w, i - 2, n)
    ensures k < i - n
  {
    EndsWithDashes(InMind(m, w, k), w, i - 2, n);
    StartsBehindSwapped(w, k, m[k], m[k + 1..], i - 2 - n);
  }

  /** What is hidden is the same with the swapped characters in front. */
  lemma {:induction false} HiddenBehind(m: seq<char>, w: seq<char>, k: nat, i: int)
    requires IsPlain(w) && Dashes(w) < k < |w| && k == Common(m, w) && k < |m| && k < i
    ensures Hidden(InMind(m, w, k), w, i - 2) <==> Hidden(m, w, i)
    decreases i, 1
  {
    if Hidden(InMind(m, w, k), w, i - 2) {
      var n := StartInFront(InMind(m, w, k), w, i - 2);
      HiddenIfBehind(m, w, k, i, n);
    }
    if Hidden(m, w, i) {
      var n := StartInFront(m, w, i);
      BehindIfHidden(m, w, k, i, n);
    }
  }

  lemma {:induction false} HiddenIfBehind(m: seq<char>, w: seq<char>, k: nat, i: int, n: nat)
    requires IsPlain(w) && Dashes(w) < k < |w| && k == Common(m, w) && k < |m| && k < i
    requires var v := InMind(m, w, k);
             Dashes(w) < n < |w| && EndsAt(v, w, i - 2, n) && !Hidden(v, w, i - 2 - n)
    ensures Hidden(m, w, i)
    decreases i, 0
  {
    EndsBehind(m, w, k, i, n);
    HiddenBehind(m, w, k, i - n);
    HiddenBy(m, w, i, n);
  }

  lemma {:induction false} BehindIfHidden(m: seq<char>, w: seq<char>, k: nat, i: int, n: nat)
    requires IsPlain(w) && Dashes(w) < k < |w| && k == Common(m, w) && k < |m| && k < i
    requires Dashes(w) < n < |w| && EndsAt(m, w, i, n) && !Hidden(m, w, i - n)
    ensures Hidden(InMind(m, w, k), w, i - 2)
    decreases i, 0
  {
    UnhiddenStart(m, w, k, i, n);
    HiddenBehind(m, w, k, i - n);
    HiddenBy(InMind(m, w, k), w, i - 2, n);
  }

  lemma UnhiddenStart(m: seq<char>, w: seq<char>, k: nat, i: int, n: nat)
    requires IsPlain(w) && Dashes(w) < k < |w| && k == Common(m, w) && k < |m| && k < i
    requires Dashes(w) < n < |w| && EndsAt(m, w, i, n) && !Hidden(m, w, i - n)
    ensures k < i - n && EndsAt(InMind(m, w, k), w, i - 2, n)
  {
    StartBehindFalseMatch(m, w, k, i, n);
    HiddenAtFalseMatch(m, w, k);
    EndsBehind(m, w, k, i, n);
  }

  // ---- found, or hidden ----

  lemma FirstBehind(m: seq<char>, w: seq<char>, k: nat, i: int)
    requires IsPlain(w) && Dashes(w) < k < |w| && k == Common(m, w) && k < |m| && FirstAt(m, w, i) && 0 < i
    ensures k <= i
    ensures k < i ==> FirstAt(InMind(m, w, k), w, i - 2) && InMind(m, w, k)[i - 2 + |w|..] == m[i + |w|..]
  {
    WholeStartsWithDashes(m, w, i);
    DashesBehind(m, w, k, i);
    if k < i {
      ThereBehind(m, w, k, i);
      forall j | 0 <= j < i - 2 ensures !OccursAt(InMind(m, w, k), w, j) { NotBefore(m, w, k, i, j); }
    }
  }

  lemma ThereBehind(m: seq<char>, w: seq<char>, k: nat, i: int)
    requires 2 <= Dashes(w) < k < |w| && k < |m| && OccursAt(m, w, i) && k < i
    ensures OccursAt(InMind(m, w, k), w, i - 2) && InMind(m, w, k)[i - 2 + |w|..] == m[i + |w|..]
  {
    var v := InMind(m, w, k);
    assert v[i - 2..i - 2 + |w|] == m[i..i + |w|];
    assert v[i - 2 + |w|..] == m[i + |w|..];
  }

  lemma NotBefore(m: seq<char>, w: seq<char>, k: nat, i: int, j: int)
    requires IsPlain(w) && Dashes(w) < k < |w| && k < |m| && FirstAt(m, w, i) && j < i - 2
    ensures !OccursAt(InMind(m, w, k), w, j)
  {
    if OccursAt(InMind(m, w, k), w, j) {
      OccursBehindSwapped(w, k, m[k], m[k + 1..], j);
      FoundLater(m, w, j - (k - 1), k + 1);
    }
  }

  /** What is found behind a false match that ends at the boundary is behind that boundary. */
  lemma LostBehind(s: Scanned, m: seq<char>, w: seq<char>, k: nat, j: int)
    requires IsPlain(w) && Dashes(w) < k < |w| && k < |m| && k + |w| <= |m|
    requires FoundAt(s, InMind(m, w, k), w, j)
    ensures s.Found? ==> |s.rest| < |m| - k - |w|
  {
    if s.Found? {
      OccursBehindSwapped(w, k, m[k], m[k + 1..], j);
    }
  }

  /** What is found is the occurrence at `i`, going by what is behind it. */
  ghost predicate StopsAt(s: Scanned, m: seq<char>, w: seq<char>, i: int)
    requires 0 <= i <= |m| - |w|
  {
    s.Found? && s.rest == m[i + |w|..]
  }

  /** The matcher stops right behind the first occurrence iff that is not hidden. */
  lemma {:induction false} FoundIff(x: seq<char>, y: seq<char>, rest: seq<char>, w: seq<char>, out: seq<char>, i: int)
    requires RingState(x, y, w) && IsPlain(w) && FirstAt(x + y + rest, w, i)
    ensures StopsAt(Scan(x + y, rest, w, 0, out), x + y + rest, w, i) <==> !Hidden(x + y + rest, w, i)
    decreases |x + y + rest|, 1
  {
    var m := x + y + rest;
    var k := Common(m, w);
    if k == |w| {
      FoundAtOnce(x, y, rest, w, out);
    } else {
      NotTooShort(m, w, i);
      MismatchAt(m, w, k);
      if k <= Dashes(w) {
        var x', y', rest' := Turn(x, y, rest, w, k, out);
        FoundNextIff(x', y', rest', m, w, out + [m[0]], i);
      } else {
        RingIsRead(x, y, rest, w, k);
        assert x + y == y;
        FalseMatch(y, rest, w, k, out);
        SwappedFoundIff(m, w, k, out, i);
      }
    }
  }

  lemma {:induction false} FoundNextIff(x: seq<char>, y: seq<char>, rest: seq<char>, m: seq<char>, w: seq<char>,
                                        out: seq<char>, i: int)
    requires RingState(x, y, w) && IsPlain(w) && m != [] && x + y + rest == m[1..]
    requires FirstAt(m, w, i) && !OccursAt(m, w, 0) && !OccursAt(m, Start(w), 0)
    ensures StopsAt(Scan(x + y, rest, w, 0, out), m, w, i) <==> !Hidden(m, w, i)
    decreases |m|, 0
  {
    LaterTail(m, w, i);
    FoundIff(x, y, rest, w, out, i - 1);
  }

  lemma LaterTail(m: seq<char>, w: seq<char>, i: int)
    requires FirstAt(m, w, i) && !OccursAt(m, w, 0) && !OccursAt(m, Start(w), 0)
    ensures 0 < i && FirstAt(m[1..], w, i - 1) && m[1..][i - 1 + |w|..] == m[i + |w|..]
    ensures Hidden(m[1..], w, i - 1) <==> Hidden(m, w, i)
  {
    FirstAtTail(m, w, i);
    HiddenTail(m, w, i);
  }

  lemma NotTooShort(m: seq<char>, w: seq<char>, i: int)
    requires OccursAt(m, w, i) && Common(m, w) < |w|
    ensures Common(m, w) < |m|
  {
  }

  lemma {:induction false} SwappedFoundIff(m: seq<char>, w: seq<char>, k: nat, out: seq<char>, i: int)
    requires IsPlain(w) && Dashes(w) < k < |w| && k == Common(m, w) && k < |m| && FirstAt(m, w, i) && 0 < i
    ensures StopsAt(Scan(Swapped(w, k, m[k]), m[k + 1..], w, 0, out + [w[0]] + [w[0]]), m, w, i) <==> !Hidden(m, w, i)
    decreases |m|, 0
  {
    FirstBehind(m, w, k, i);
    if i == k {
      HiddenAtFalseMatch(m, w, k);
      Lost(m, w, k, out + [w[0]] + [w[0]]);
    } else {
      HiddenBehind(m, w, k, i);
      LaterFoundIff(m, w, k, out + [w[0]] + [w[0]], i);
    }
  }

  lemma {:induction false} LaterFoundIff(m: seq<char>, w: seq<char>, k: nat, out: seq<char>, i: int)
    requires IsPlain(w) && Dashes(w) < k < |w| && k < |m| && FirstAt(InMind(m, w, k), w, i - 2)
    ensures StopsAt(Scan(Swapped(w, k, m[k]), m[k + 1..], w, 0, out), InMind(m, w, k), w, i - 2)
            <==> !Hidden(InMind(m, w, k), w, i - 2)
    decreases |m|, -1
  {
    var x, y := SwappedState(w, k, m[k]);
    assert x + y + m[k + 1..] == InMind(m, w, k);
    FoundIff(x, y, m[k + 1..], w, out, i - 2);
  }

  lemma Lost(m: seq<char>, w: seq<char>, k: nat, out: seq<char>)
    requires IsPlain(w) && Dashes(w) < k < |w| && k + |w| <= |m|
    ensures var s := Scan(Swapped(w, k, m[k]), m[k + 1..], w, 0, out); s.Found? ==> s.rest != m[k + |w|..]
  {
    var x, y := SwappedState(w, k, m[k]);
    var j := FindsOccurrence(x, y, m[k + 1..], w, out);
    LostBehind(Scan(x + y, m[k + 1..], w, 0, out), m, w, k, j);
  }

  /** Two occurrences of such a boundary do not overlap. */
  lemma NoOverlap(v: seq<char>, w: seq<char>, i: int, j: int)
    requires IsPlain(w) && Dashes(w) < |w| && OccursAt(v, w, i) && OccursAt(v, w, j) && i < j
    ensures i + |w| <= j
  {
    var r := Dashes(w);
    WholeStartsWithDashes(v, w, j);
    assert v[i + r] == v[i..i + |w|][r] == w[r];
    assert v[j] == DASH;
    assert forall n :: i + r <= n < i + |w| ==> v[n] == w[r..][n - i - r];
  }

  /** For a boundary with no dash behind the leading ones, that occurs with two characters behind it:
      the first search stops there, whatever it passed over, iff the boundary is not hidden. */
  lemma FirstBoundaryFoundIff(v: seq<char>, b: seq<char>, i: int)
    requires IsPlain("--" + b) && FirstAt(v, "--" + b, i) && i + 2 + |b| + 2 <= |v|
    ensures var after := v[i + 2 + |b|..];
            (match NextBoundary(v, b, true) case None => false case Some((_, t)) => Trailer(after) == Some(t))
            <==> !Hidden(v, "--" + b, i)
  {
    var w, none: seq<char> := WorkingBoundary(b, true), [];
    assert none + none == none && none + v == v;
    FoundIff(none, none, v, w, none, i);
    if Hidden(v, w, i) { HiddenIsPassed(v, w, i); }
    NextFoundIff(v, b, v[i + 2 + |b|..]);
  }

  lemma NextFoundIff(v: seq<char>, b: seq<char>, after: seq<char>)
    requires 2 <= |after|
    requires var s := Scan([], v, "--" + b, 0, []); s.Found? ==> s.rest == after || |s.rest| + 3 <= |after|
    ensures (match NextBoundary(v, b, true) case None => false case Some((_, t)) => Trailer(after) == Some(t))
            <==> var s := Scan([], v, "--" + b, 0, []); s.Found? && s.rest == after
  {
    var s := Scan([], v, "--" + b, 0, []);
    if s.Found? { TrailersDiffer(s.rest, after); }
  }

  lemma TrailersDiffer(rest: seq<char>, after: seq<char>)
    requires 2 <= |after|
    ensures Trailer(after).Some? && (|rest| + 3 <= |after| ==> Trailer(rest) != Trailer(after))
  {
  }

  /** What is found in place of a hidden boundary is behind all of it. */
  lemma HiddenIsPassed(v: seq<char>, w: seq<char>, i: int)
    requires IsPlain(w) && FirstAt(v, w, i) && Hidden(v, w, i)
    ensures var s := Scan([], v, w, 0, []); s.Found? ==> |s.rest| + |w| <= |v| - i - |w|
  {
    var none: seq<char> := [];
    assert none + none == none && none + v == v;
    FoundIff(none, none, v, w, none, i);
    var j := FindsOccurrence(none, none, v, w, none);
    HiddenIsMixed(v, w, i);
    if Scan(none, v, w, 0, none).Found? {
      assert i <= j && i != j;
      NoOverlap(v, w, i, j);
    }
  }

  /** A boundary of dashes only is never hidden. */
  lemma HiddenIsMixed(v: seq<char>, w: seq<char>, i: int)
    requires Hidden(v, w, i)
    ensures Dashes(w) + 1 < |w|
  {
  }
}
