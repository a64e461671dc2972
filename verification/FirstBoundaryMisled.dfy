/** When the search for the first boundary goes wrong: exactly when something misleads before it. */
module FirstBoundaryMisled {
  import opened Wrappers
  import opened Boundaries
  import opened FirstMatches
  import opened FirstBoundaries

  /** What is found is not behind `out` and the first `i` characters of `m`. */
  ghost predicate Strays(s: Scanned, out: seq<char>, m: seq<char>, i: int)
    requires 0 <= i <= |m|
  {
    s.Found? ==> s.out != out + m[..i]
  }

  // ---- what is emitted behind a misleading start ----

  /** What is found behind `out` begins with what is in mind. */
  lemma {:induction false} NextEmitted(ring: seq<char>, rest: seq<char>, w: seq<char>, k: nat, out: seq<char>)
    requires k < |w| && (ring != [] ==> |ring| + k < |w|)
    ensures var s, m := Scan(ring, rest, w, k, out), w[..k] + ring + rest;
            s.Found? ==> out <= s.out && (|s.out| > |out| ==> m != [] && s.out[|out|] == m[0])
    decreases |ring| + |rest| + k, |w| - k
  {
    if ring != [] || rest != [] {
      NextStep(ring, rest, w, k);
      var d := (ring + rest)[0];
      var (ring', rest') := if ring == [] then (ring, rest[1..]) else (ring[1..], rest);
      if d == w[k] {
        if k + 1 < |w| { NextEmitted(ring', rest', w, k + 1, out); }
      } else if k > 0 {
        NextEmitted(ring' + w[1..k] + [d], rest', w, 0, out + [w[0]]);
      } else {
        NextEmitted(ring', rest', w, 0, out + [d]);
      }
    }
  }

  /** The stream goes on with the characters of `x` where it should with `c` and then those. */
  lemma {:induction false} ShiftedEmitted(x: seq<char>, c: char, rest: seq<char>, w: seq<char>, out: seq<char>)
    requires w != [] && c != w[0] && Run(x, c) < |x| && |x| + 1 < |w|
    ensures var s, n := Scan(x + [c], rest, w, 0, out), |out| + Run(x, c);
            s.Found? ==> |s.out| <= n || s.out[n] != c
    decreases |x|
  {
    assert x + [c] == [x[0]] + (x[1..] + [c]);
    if x[0] == c {
      Emit(c, x[1..] + [c], rest, w, out);
      ShiftedEmitted(x[1..], c, rest, w, out + [c]);
    } else {
      NextEmitted(x + [c], rest, w, 0, out);
    }
  }

  /** Fewer dashes than the boundary's, and another character behind them, are emitted in order. */
  lemma {:induction false} DashesEmitted(n: nat, c: char, rest: seq<char>, w: seq<char>, out: seq<char>, j: nat)
    requires j < n < Dashes(w) && n + 1 < |w| && c != DASH
    ensures var s := Scan(w[..n] + [c], rest, w, 0, out);
            s.Found? ==> |s.out| <= |out| + j || s.out[|out| + j] == DASH
    decreases n
  {
    NextEmitted(w[..n] + [c], rest, w, 0, out);
    if j > 0 {
      MatchRing(w[..n], [c], rest, w, 0, out);
      assert [c] == [c] + [];
      Miss(c, [], rest, w, n, out);
      DashesShift(w, n);
      assert [] + w[1..n] + [c] == w[1..n] + [c];
      DashesEmitted(n - 1, c, rest, w, out + [w[0]], j - 1);
    }
  }

  lemma DashesShift(w: seq<char>, n: nat)
    requires 0 < n < Dashes(w)
    ensures w[1..n] == w[..n - 1]
  {
    forall i | 0 <= i < n - 1 ensures w[1..n][i] == w[..n - 1][i] {
      assert w[1..n][i] == w[i + 1] == DASH == w[i];
    }
  }

  /** The boundaries for which a misleading start always shows: those with two leading dashes, and
      those in which no dash is second behind the leading ones. */
  predicate IsTelling(w: seq<char>) {
    var r := Dashes(w);
    r == 2 || (r > 2 && (r + 1 < |w| ==> w[r + 1] != DASH))
  }

  ghost predicate DashesFrom(v: seq<char>, w: seq<char>, j: nat) {
    j + Dashes(w) <= |v| && forall n :: j <= n < j + Dashes(w) ==> v[n] == DASH
  }

  lemma WholeStartsWithDashes(m: seq<char>, w: seq<char>, i: int)
    requires OccursAt(m, w, i)
    ensures DashesFrom(m, w, i)
  {
    forall n | i <= n < i + Dashes(w) ensures m[n] == DASH {
      assert m[i..i + |w|][n - i] == m[n];
    }
  }

  /** The boundary is not found among the dashes of a false match. */
  lemma FoundBehind(m: seq<char>, w: seq<char>, k: nat, i: int)
    requires Dashes(w) < k && k == Common(m, w) && OccursAt(m, w, i) && 0 < i
    ensures i > Dashes(w)
  {
    var r := Dashes(w);
    assert m[r] == m[..k][r] == w[..k][r];
    WholeStartsWithDashes(m, w, i);
  }

  lemma DashesAt(m: seq<char>, w: seq<char>, k: nat)
    requires Dashes(w) < k == Common(m, w)
    ensures forall j :: 0 <= j < k ==> m[j] == w[j]
    ensures m[Dashes(w)] != DASH && forall j :: 0 <= j < Dashes(w) ==> m[j] == DASH
  {
    assert forall j :: 0 <= j < k ==> m[..k][j] == w[..k][j];
  }

  lemma ManyDashesShow(m: seq<char>, w: seq<char>, k: nat, out: seq<char>, i: int)
    requires 2 < Dashes(w) < k < |w| && k == Common(m, w) && k < |m| && IsTelling(w)
    requires OccursAt(m, w, i) && 0 < i
    ensures Strays(Scan(Swapped(w, k, m[k]), m[k + 1..], w, 0, out + [w[0]] + [w[0]]), out, m, i)
  {
    var ring, more, out2 := Swapped(w, k, m[k]), m[k + 1..], out + [w[0]] + [w[0]];
    FoundBehind(m, w, k, i);
    DashesAt(m, w, k);
    if ring[0] == DASH {
      DashesShow(m, w, k, out, i);
    } else {
      FirstEmitted(ring, more, w, out2);
      OutDiffers(Scan(ring, more, w, 0, out2), m, out, i, 2);
    }
  }

  lemma DashesShow(m: seq<char>, w: seq<char>, k: nat, out: seq<char>, i: int)
    requires 2 < Dashes(w) < k < |w| && k == Common(m, w) && k < |m| && IsTelling(w)
    requires Dashes(w) < i <= |m| && Swapped(w, k, m[k])[0] == DASH
    ensures Strays(Scan(Swapped(w, k, m[k]), m[k + 1..], w, 0, out + [w[0]] + [w[0]]), out, m, i)
  {
    var more := m[k + 1..];
    DashesAt(m, w, k);
    SwappedDashes(w, k, m[k]);
    DashesBeforeShow(m, w, more, out, i);
  }

  lemma DashesBeforeShow(m: seq<char>, w: seq<char>, more: seq<char>, out: seq<char>, i: int)
    requires 2 < Dashes(w) < |w| && Dashes(w) < i <= |m| && m[Dashes(w)] != DASH
    ensures Strays(Scan(w[..Dashes(w) - 1] + [w[Dashes(w)]], more, w, 0, out + [w[0]] + [w[0]]), out, m, i)
  {
    var r, out2 := Dashes(w), out + [w[0]] + [w[0]];
    DashesEmitted(r - 1, w[r], more, w, out2, r - 2);
    OutDiffers(Scan(w[..r - 1] + [w[r]], more, w, 0, out2), m, out, i, r);
  }

  lemma FirstEmitted(ring: seq<char>, rest: seq<char>, w: seq<char>, out: seq<char>)
    requires 0 < |ring| < |w|
    ensures var s := Scan(ring, rest, w, 0, out); s.Found? ==> |s.out| <= |out| || s.out[|out|] == ring[0]
  {
    NextEmitted(ring, rest, w, 0, out);
    assert (w[..0] + ring + rest)[0] == ring[0];
  }

  lemma SwappedDashes(w: seq<char>, k: nat, d: char)
    requires 2 < Dashes(w) < k < |w| && IsTelling(w) && Swapped(w, k, d)[0] == DASH
    ensures Swapped(w, k, d) == w[..Dashes(w) - 1] + [w[Dashes(w)]]
  {
    var r := Dashes(w);
    assert [DASH] + w[1..r - 1] == w[..r - 1];
  }

  lemma OutDiffers(s: Scanned, m: seq<char>, out: seq<char>, i: int, n: nat)
    requires n < i <= |m| && (s.Found? ==> |s.out| <= |out| + n || s.out[|out| + n] != m[n])
    ensures Strays(s, out, m, i)
  {
    assert (out + m[..i])[|out| + n] == m[n];
  }

  /** What `Swapped` puts in front, for a boundary with two leading dashes. */
  function Behind(w: seq<char>, k: nat, d: char): seq<char>
    requires 3 <= k < |w|
  {
    w[3..k] + [d]
  }

  lemma SameIsRepeat(m: seq<char>, w: seq<char>, k: nat)
    requires Dashes(w) == 2 < k < |w| && k == Common(m, w) && k < |m|
    requires m[k] == w[2] && forall j :: 3 <= j < k ==> w[j] == w[2]
    ensures IsRepeat(m, w, 0)
  {
    SameIsRun(w, k);
    RepeatIs(w, k);
    AtStart(m, k);
  }

  lemma SameIsRun(w: seq<char>, k: nat)
    requires 2 < k < |w| && w[k] != w[2] && forall j :: 3 <= j < k ==> w[j] == w[2]
    ensures Run(w[2..], w[2]) == k - 2
  {
    RunIs(w[2..], w[2], k - 2);
  }

  lemma AtStart(m: seq<char>, k: nat)
    requires k < |m|
    ensures OccursAt(m, m[..k] + [m[k]], 0)
  {
    assert m[0..k + 1] == m[..k] + [m[k]];
  }

  lemma RepeatIs(w: seq<char>, k: nat)
    requires 2 <= k <= |w| && |w| > 2 && Run(w[2..], w[2]) == k - 2
    ensures Repeat(w) == w[..k] + [w[2]]
  {
  }

  lemma NoRepeat(m: seq<char>, w: seq<char>, k: nat)
    requires Dashes(w) == 2 < k < |w| && k == Common(m, w) && k < |m| && !IsRepeat(m, w, 0)
    ensures Run(Behind(w, k, m[k]), w[2]) < |Behind(w, k, m[k])|
  {
    var x := Behind(w, k, m[k]);
    if Run(x, w[2]) == |x| {
      assert x[k - 3] == m[k];
      forall j | 3 <= j < k ensures w[j] == w[2] { assert w[j] == x[j - 3]; }
      SameIsRepeat(m, w, k);
    }
  }

  lemma SwappedIs(w: seq<char>, k: nat, d: char)
    requires Dashes(w) == 2 < k < |w|
    ensures Swapped(w, k, d) == Behind(w, k, d) + [w[2]] && w[2] != w[0]
  {
  }

  lemma TwoDashesShow(m: seq<char>, w: seq<char>, k: nat, out: seq<char>, i: int)
    requires Dashes(w) == 2 < k < |w| && k == Common(m, w) && k < |m| && !IsRepeat(m, w, 0)
    requires OccursAt(m, w, i) && 0 < i
    ensures Strays(Scan(Swapped(w, k, m[k]), m[k + 1..], w, 0, out + [w[0]] + [w[0]]), out, m, i)
  {
    SwappedIs(w, k, m[k]);
    NoRepeat(m, w, k);
    ShiftedTruth(m, w, k, i);
    ShiftedShows(m, w, Behind(w, k, m[k]), w[2], m[k + 1..], out, i);
  }

  lemma ShiftedShows(m: seq<char>, w: seq<char>, x: seq<char>, c: char, more: seq<char>, out: seq<char>, i: int)
    requires w != [] && c != w[0] && Run(x, c) < |x| && |x| + 1 < |w|
    requires 2 + Run(x, c) < i <= |m| && m[2 + Run(x, c)] == c
    ensures Strays(Scan(x + [c], more, w, 0, out + [w[0]] + [w[0]]), out, m, i)
  {
    ShiftedEmitted(x, c, more, w, out + [w[0]] + [w[0]]);
    OutDiffers(Scan(x + [c], more, w, 0, out + [w[0]] + [w[0]]), m, out, i, 2 + Run(x, c));
  }

  lemma ShiftedTruth(m: seq<char>, w: seq<char>, k: nat, i: int)
    requires Dashes(w) == 2 < k < |w| && k == Common(m, w) && k < |m| && OccursAt(m, w, i) && 0 < i
    requires Run(Behind(w, k, m[k]), w[2]) < |Behind(w, k, m[k])|
    ensures var n := 2 + Run(Behind(w, k, m[k]), w[2]); n < i && m[n] == w[2]
  {
    var n := 2 + Run(Behind(w, k, m[k]), w[2]);
    ShiftedAt(m, w, k, n);
    FoundBehind(m, w, k, i);
    assert m[i] == m[i..i + |w|][0] == w[0] == DASH;
    if i <= n { ShiftedAt(m, w, k, i); }
  }

  lemma ShiftedAt(m: seq<char>, w: seq<char>, k: nat, j: int)
    requires Dashes(w) == 2 < k < |w| && k == Common(m, w) && k < |m|
    requires Run(Behind(w, k, m[k]), w[2]) < |Behind(w, k, m[k])| && 2 <= j <= 2 + Run(Behind(w, k, m[k]), w[2])
    ensures m[j] == w[2] && w[2] != DASH
  {
    DashesAt(m, w, k);
    if j > 2 {
      assert Behind(w, k, m[k])[j - 3] == m[j];
    }
  }

  // ---- both directions ----

  /** Something before the boundary at `i` misleads. */
  ghost predicate Misled(v: seq<char>, w: seq<char>, i: int) {
    exists p :: 0 <= p < i && Misleads(v, w, p)
  }

  lemma {:induction false} GoesAstray(x: seq<char>, y: seq<char>, rest: seq<char>, w: seq<char>, out: seq<char>, i: int, p: nat)
    requires RingState(x, y, w) && IsTelling(w)
    requires var m := x + y + rest; FirstAt(m, w, i) && p < i && Misleads(m, w, p)
    ensures Strays(Scan(x + y, rest, w, 0, out), out, x + y + rest, i)
    decreases |x + y + rest|, 2
  {
    var m := x + y + rest;
    var k := Common(m, w);
    if k == |w| {
      FoundAtOnce(x, y, rest, w, out);
    } else if k == |m| {
      TurnExhausted(x + y, rest, w, out);
    } else {
      if k <= Dashes(w) {
        TurnGoesAstray(x, y, rest, w, k, out, i, p);
      } else {
        RingIsRead(x, y, rest, w, k);
        assert x + y == y;
        FalseMatch(y, rest, w, k, out);
        SwappedGoesAstray(m, w, k, out, i, p);
      }
    }
  }

  lemma {:induction false} TurnGoesAstray(x: seq<char>, y: seq<char>, rest: seq<char>, w: seq<char>, k: nat,
                                          out: seq<char>, i: int, p: nat)
    requires RingState(x, y, w) && IsTelling(w)
    requires var m := x + y + rest;
             && FirstAt(m, w, i) && p < i && Misleads(m, w, p)
             && k == Common(m, w) && k < |m| && k < |w| && k <= Dashes(w)
    ensures Strays(Scan(x + y, rest, w, 0, out), out, x + y + rest, i)
    decreases |x + y + rest|, 1
  {
    var m := x + y + rest;
    MismatchAt(m, w, k);
    var x', y', rest' := Turn(x, y, rest, w, k, out);
    OneTail(m, w, i, p);
    AstrayNext(x', y', rest', w, m[0], m[1..], out, i, p);
    FirstAndRest(m);
  }

  lemma FirstAndRest(m: seq<char>)
    requires m != []
    ensures [m[0]] + m[1..] == m
  {
  }

  lemma {:induction false} AstrayNext(x: seq<char>, y: seq<char>, rest: seq<char>, w: seq<char>, c: char, t: seq<char>,
                                      out: seq<char>, i: int, p: nat)
    requires RingState(x, y, w) && IsTelling(w) && x + y + rest == t
    requires 0 < p < i <= |t| + 1 && FirstAt(t, w, i - 1) && Misleads(t, w, p - 1)
    ensures Strays(Scan(x + y, rest, w, 0, out + [c]), out, [c] + t, i)
    decreases |t| + 1, 0
  {
    GoesAstray(x, y, rest, w, out + [c], i - 1, p - 1);
    AstrayTail(Scan(x + y, rest, w, 0, out + [c]), out, c, t, i);
  }

  lemma AstrayTail(s: Scanned, out: seq<char>, c: char, t: seq<char>, i: int)
    requires 0 < i <= |t| + 1 && Strays(s, out + [c], t, i - 1)
    ensures Strays(s, out, [c] + t, i)
  {
    assert out + ([c] + t)[..i] == out + [c] + t[..i - 1];
  }

  lemma TakeBehind(out: seq<char>, first: seq<char>, m: seq<char>, i: int)
    requires |first| <= i <= |m| && first == m[..|first|]
    ensures out + first + m[|first|..][..i - |first|] == out + m[..i]
  {
    assert m[..i] == first + m[|first|..][..i - |first|];
  }

  lemma OneTail(m: seq<char>, w: seq<char>, i: int, p: nat)
    requires |m| > 0 && !OccursAt(m, w, 0) && !OccursAt(m, Start(w), 0)
    requires FirstAt(m, w, i) && p < i && Misleads(m, w, p)
    ensures 0 < p && 0 < i && FirstAt(m[1..], w, i - 1) && Misleads(m[1..], w, p - 1)
  {
    MisleadsTail(m, w, p - 1);
    FirstAtTail(m, w, i);
  }

  lemma {:induction false} SwappedGoesAstray(m: seq<char>, w: seq<char>, k: nat, out: seq<char>, i: int, p: nat)
    requires IsTelling(w) && Dashes(w) < k < |w| && k == Common(m, w) && k < |m|
    requires FirstAt(m, w, i) && p < i && Misleads(m, w, p)
    ensures Strays(Scan(Swapped(w, k, m[k]), m[k + 1..], w, 0, out + [w[0]] + [w[0]]), out, m, i)
    decreases |m|, 1
  {
    if IsRepeat(m, w, 0) {
      RepeatGoesAstray(m, w, k, out, i, p);
    } else if Dashes(w) == 2 {
      TwoDashesShow(m, w, k, out, i);
    } else {
      ManyDashesShow(m, w, k, out, i);
    }
  }

  lemma {:induction false} RepeatGoesAstray(m: seq<char>, w: seq<char>, k: nat, out: seq<char>, i: int, p: nat)
    requires 2 == Dashes(w) < k < |w| && k == Common(m, w) && k < |m| && IsRepeat(m, w, 0)
    requires FirstAt(m, w, i) && p < i && Misleads(m, w, p)
    ensures Strays(Scan(Swapped(w, k, m[k]), m[k + 1..], w, 0, out + [w[0]] + [w[0]]), out, m, i)
    decreases |m|, 0
  {
    RepeatTail(m, w, k, i, p);
    RepeatIsHarmless(m, w, k);
    RepeatRing(m, w, k);
    RepeatParts(m, w, k);
    RepeatGoesOn(m[2..k + 1], m[k + 1..], m, w, out, i, p);
  }

  lemma {:induction false} RepeatGoesOn(ring: seq<char>, more: seq<char>, m: seq<char>, w: seq<char>, out: seq<char>,
                                        i: int, p: nat)
    requires IsTelling(w) && RingState(ring, [], w) && |m| >= 2 && m == [w[0]] + [w[0]] + (ring + more)
    requires 2 <= p < i && i <= |m| && FirstAt(m[2..], w, i - 2) && Misleads(m[2..], w, p - 2)
    ensures Strays(Scan(ring, more, w, 0, out + [w[0]] + [w[0]]), out, m, i)
    decreases |m|, -1
  {
    var none: seq<char> := [];
    assert ring + none == ring && ring + none + more == m[2..];
    GoesAstray(ring, none, more, w, out + [w[0]] + [w[0]], i - 2, p - 2);
    StrayBehind(Scan(ring, more, w, 0, out + [w[0]] + [w[0]]), out, [w[0]] + [w[0]], m, i);
  }

  lemma StrayBehind(s: Scanned, out: seq<char>, first: seq<char>, m: seq<char>, i: int)
    requires |first| == 2 <= i <= |m| && first == m[..2]
    requires Strays(s, out + [first[0]] + [first[1]], m[2..], i - 2)
    ensures Strays(s, out, m, i)
  {
    assert out + [first[0]] + [first[1]] == out + first;
    TakeBehind(out, first, m, i);
  }

  lemma RepeatRing(m: seq<char>, w: seq<char>, k: nat)
    requires 2 == Dashes(w) < k < |w| && k < |m| && DASH !in m[2..k + 1]
    ensures RingState(m[2..k + 1], [], w)
  {
  }

  lemma RepeatParts(m: seq<char>, w: seq<char>, k: nat)
    requires 2 == Dashes(w) < k < |w| && k == Common(m, w) && k < |m|
    ensures m == [w[0]] + [w[0]] + (m[2..k + 1] + m[k + 1..])
  {
    DashesAt(m, w, k);
    SplitTwice(m, 2, k + 1);
    assert m[..2] == [w[0]] + [w[0]];
  }

  lemma SplitTwice(m: seq<char>, i: nat, j: nat)
    requires i <= j <= |m|
    ensures m == m[..i] + (m[i..j] + m[j..])
  {
  }

  lemma RepeatTail(m: seq<char>, w: seq<char>, k: nat, i: int, p: nat)
    requires 2 == Dashes(w) < k < |w| && k == Common(m, w) && k < |m| && IsRepeat(m, w, 0)
    requires FirstAt(m, w, i) && p < i && Misleads(m, w, p)
    ensures 2 <= p && FirstAt(m[2..], w, i - 2) && Misleads(m[2..], w, p - 2)
  {
    DashesAt(m, w, k);
    FoundBehind(m, w, k, i);
    TwoTails(m, w, i, p);
  }

  lemma NotMisledAtSecond(m: seq<char>, w: seq<char>)
    requires 2 == Dashes(w) < |w| && |m| > 2 && m[2] != DASH
    ensures !Misleads(m, w, 1)
  {
    assert |m| >= 4 ==> m[1..4][1] == m[2];
  }

  lemma TwoTails(m: seq<char>, w: seq<char>, i: int, p: nat)
    requires 2 == Dashes(w) < |w| && |m| > 2 && m[2] != DASH
    requires FirstAt(m, w, i) && 2 < i && p < i && Misleads(m, w, p) && !Misleads(m, w, 0)
    ensures 2 <= p && FirstAt(m[2..], w, i - 2) && Misleads(m[2..], w, p - 2)
  {
    NotMisledAtSecond(m, w);
    MisleadsTail(m, w, p - 1);
    MisleadsTail(m[1..], w, p - 2);
    FirstAtTail(m, w, i);
    FirstAtTail(m[1..], w, i - 1);
    assert m[1..][1..] == m[2..];
  }

  lemma NotMisledIsUnambiguous(v: seq<char>, w: seq<char>, i: int)
    requires FirstAt(v, w, i) && !Misled(v, w, i)
    ensures Unambiguous(v, w)
  {
    forall p | Misleads(v, w, p) ensures exists j :: j <= p && OccursAt(v, w, j) {
      assert i <= p;
    }
  }

  /** Where the boundary occurs with two characters behind it, and it is one of the telling ones, the
      first search is exact iff nothing misleads before it. */
  lemma FirstBoundaryIff(v: seq<char>, b: seq<char>, i: int)
    requires IsTelling("--" + b) && FirstAt(v, "--" + b, i) && i + 2 + |b| + 2 <= |v|
    ensures IsSearch(v, b, true) <==> !Misled(v, "--" + b, i)
  {
    var w := WorkingBoundary(b, true);
    if Misled(v, w, i) {
      var p :| 0 <= p < i && Misleads(v, w, p);
      var none: seq<char> := [];
      assert none + none == none && none + v == v && none + v[..i] == v[..i];
      GoesAstray(none, none, v, w, none, i, p);
      StrayIsNoSearch(v, b, i);
    } else {
      NotMisledIsUnambiguous(v, w, i);
      FirstBoundaryIsSearch(v, b);
    }
  }

  lemma StrayIsNoSearch(v: seq<char>, b: seq<char>, i: int)
    requires FirstAt(v, "--" + b, i) && i + 2 + |b| + 2 <= |v|
    requires var s := Scan([], v, "--" + b, 0, []); s.Found? ==> s.out != v[..i]
    ensures !IsSearch(v, b, true)
  {
    match NextBoundary(v, b, true)
    case None =>
    case Some((out, t)) =>
      if FirstAt(v, "--" + b, |out|) { FirstAtUnique(v, "--" + b, i, |out|); }
  }

  // ---- no dash behind the leading ones: the search never finds what is not there ----

  predicate IsPlain(w: seq<char>) {
    2 <= Dashes(w) && DASH !in w[Dashes(w)..]
  }

  lemma OccursWithDashes(v: seq<char>, w: seq<char>, j: int, n: nat)
    requires OccursAt(v, w, j) && n < Dashes(w)
    ensures v[j + n] == DASH
  {
    assert v[j..j + |w|][n] == w[n];
  }

  /** In the swapped characters and behind them, the boundary can only occur behind them. */
  lemma OccursBehindSwapped(w: seq<char>, k: nat, d: char, rest: seq<char>, j: int)
    requires IsPlain(w) && Dashes(w) < k < |w| && OccursAt(Swapped(w, k, d) + rest, w, j)
    ensures j >= k - 1 && OccursAt(rest, w, j - (k - 1)) && rest[j - (k - 1) + |w|..] == (Swapped(w, k, d) + rest)[j + |w|..]
  {
    NotAmongSwapped(w, k, d, rest, j);
    BehindSum(Swapped(w, k, d), rest, j, j + |w|);
  }

  lemma BehindSum(a: seq<char>, b: seq<char>, i: int, j: int)
    requires |a| <= i <= j <= |a + b|
    ensures (a + b)[i..j] == b[i - |a|..j - |a|] && (a + b)[j..] == b[j - |a|..]
  {
  }

  lemma NotAmongSwapped(w: seq<char>, k: nat, d: char, rest: seq<char>, j: int)
    requires IsPlain(w) && Dashes(w) < k < |w| && OccursAt(Swapped(w, k, d) + rest, w, j)
    ensures j >= k - 1
  {
    SwappedChars(w, k, d, rest);
    if j < k - 1 {
      OccursWithDashes(Swapped(w, k, d) + rest, w, j, if k - 2 - j < Dashes(w) then k - 2 - j else 0);
    }
  }

  /** Where no dash is among the swapped characters. */
  lemma SwappedChars(w: seq<char>, k: nat, d: char, rest: seq<char>)
    requires IsPlain(w) && Dashes(w) < k < |w|
    ensures var v := Swapped(w, k, d) + rest;
            v[k - 2] != DASH && forall n :: 0 <= n < k - 1 - Dashes(w) ==> v[n] != DASH
  {
    var r, v := Dashes(w), Swapped(w, k, d) + rest;
    forall n | 0 <= n < k - 1 - r ensures v[n] != DASH {
      assert v[n] == w[r..][1 + n];
    }
  }

  /** The swapped characters as a ring state. */
  lemma SwappedState(w: seq<char>, k: nat, d: char) returns (x: seq<char>, y: seq<char>)
    requires IsPlain(w) && Dashes(w) < k < |w|
    ensures RingState(x, y, w) && x + y == Swapped(w, k, d)
  {
    var r := Dashes(w);
    assert forall j :: r < j < k ==> w[j] == w[r..][j - r];
    if d == DASH {
      x, y := w[r + 1..k], [d] + w[1..r - 1] + [w[r]];
    } else {
      x, y := w[r + 1..k] + [d], w[1..r - 1] + [w[r]];
    }
  }

  ghost predicate FoundAt(s: Scanned, m: seq<char>, w: seq<char>, j: int) {
    s.Found? ==> OccursAt(m, w, j) && s.rest == m[j + |w|..]
  }

  lemma FoundInTail(s: Scanned, m: seq<char>, w: seq<char>, j: int)
    requires m != [] && FoundAt(s, m[1..], w, j)
    ensures FoundAt(s, m, w, j + 1)
  {
    FoundLater(m, w, j, 1);
  }

  /** What the search finds is there: `j` is where. */
  lemma {:induction false} FindsOccurrence(x: seq<char>, y: seq<char>, rest: seq<char>, w: seq<char>, out: seq<char>)
    returns (j: int)
    requires RingState(x, y, w) && IsPlain(w)
    ensures FoundAt(Scan(x + y, rest, w, 0, out), x + y + rest, w, j)
    decreases |x + y + rest|, 1
  {
    var m := x + y + rest;
    var k := Common(m, w);
    j := 0;
    if k == |w| {
      FoundAtOnce(x, y, rest, w, out);
    } else if k == |m| {
      TurnExhausted(x + y, rest, w, out);
    } else if k <= Dashes(w) {
      var x', y', rest' := Turn(x, y, rest, w, k, out);
      j := FindsOccurrence(x', y', rest', w, out + [m[0]]);
      FoundInTail(Scan(x' + y', rest', w, 0, out + [m[0]]), m, w, j);
      j := j + 1;
    } else {
      RingIsRead(x, y, rest, w, k);
      assert x + y == y;
      FalseMatch(y, rest, w, k, out);
      j := FindsBehindSwapped(m, w, k, out + [w[0]] + [w[0]]);
    }
  }

  lemma {:induction false} FindsBehindSwapped(m: seq<char>, w: seq<char>, k: nat, out: seq<char>) returns (j: int)
    requires IsPlain(w) && Dashes(w) < k < |w| && k < |m|
    ensures FoundAt(Scan(Swapped(w, k, m[k]), m[k + 1..], w, 0, out), m, w, j)
    decreases |m|, 0
  {
    var x, y := SwappedState(w, k, m[k]);
    j := FindsOccurrence(x, y, m[k + 1..], w, out);
    FoundBehindSwapped(Scan(x + y, m[k + 1..], w, 0, out), m, w, k, j);
    j := j + 2;
  }

  lemma FoundBehindSwapped(s: Scanned, m: seq<char>, w: seq<char>, k: nat, j: int)
    requires IsPlain(w) && Dashes(w) < k < |w| && k < |m|
    requires FoundAt(s, Swapped(w, k, m[k]) + m[k + 1..], w, j)
    ensures FoundAt(s, m, w, j + 2)
  {
    if s.Found? {
      OccursBehindSwapped(w, k, m[k], m[k + 1..], j);
      FoundLater(m, w, j - (k - 1), k + 1);
    }
  }

  lemma FoundLater(m: seq<char>, w: seq<char>, j: int, n: nat)
    requires n <= |m|
    ensures OccursAt(m[n..], w, j) ==> OccursAt(m, w, j + n) && m[n..][j + |w|..] == m[j + n + |w|..]
  {
    if OccursAt(m[n..], w, j) {
      assert m[n..][j..j + |w|] == m[j + n..j + n + |w|];
    }
  }

  lemma {:induction false} FirstExists(v: seq<char>, w: seq<char>, j: int) returns (i: int)
    requires OccursAt(v, w, j)
    ensures FirstAt(v, w, i) && i <= j
    decreases j
  {
    if n: int :| 0 <= n < j && OccursAt(v, w, n) {
      i := FirstExists(v, w, n);
    } else {
      i := j;
    }
  }

  /** For a boundary with no dash behind its leading ones, on every stream: the first search is exact
      iff nothing misleads before a boundary with two characters behind it. */
  lemma PlainBoundaryIff(v: seq<char>, b: seq<char>)
    requires IsPlain("--" + b)
    ensures IsSearch(v, b, true) <==>
              forall i :: FirstAt(v, "--" + b, i) && i + 2 + |b| + 2 <= |v| ==> !Misled(v, "--" + b, i)
  {
    var w := WorkingBoundary(b, true);
    if i: int :| FirstAt(v, w, i) && i + 2 + |b| + 2 <= |v| {
      PlainIsTelling(w);
      FirstBoundaryIff(v, b, i);
      forall n | FirstAt(v, w, n) ensures n == i { FirstAtUnique(v, w, n, i); }
    } else {
      NothingFound(v, b);
    }
  }

  lemma PlainIsTelling(w: seq<char>)
    requires IsPlain(w)
    ensures IsTelling(w)
  {
    var r := Dashes(w);
    assert r + 1 < |w| ==> w[r + 1] == w[r..][1];
  }

  /** Without a boundary that has two characters behind it, nothing is found. */
  lemma NothingFound(v: seq<char>, b: seq<char>)
    requires IsPlain("--" + b)
    requires forall i :: FirstAt(v, "--" + b, i) ==> |v| < i + 2 + |b| + 2
    ensures NextBoundary(v, b, true) == None
  {
    var w := WorkingBoundary(b, true);
    var none: seq<char> := [];
    assert none + none == none && none + v == v;
    var j := FindsOccurrence(none, none, v, w, none);
    if Scan([], v, w, 0, []).Found? {
      var i := FirstExists(v, w, j);
    }
  }
}
