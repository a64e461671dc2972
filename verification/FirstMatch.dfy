/** The matcher of cgic on `--B`, whose first character recurs, taken from one emitted character to
    the next. */
module FirstMatches {
  import opened Boundaries

  const DASH: char := '-'

  /** How often `c` is repeated at the start. */
  function Run(s: seq<char>, c: char): (n: nat)
    ensures n <= |s| && (forall i :: 0 <= i < n ==> s[i] == c) && (n < |s| ==> s[n] != c)
  {
    if s == [] || s[0] != c then 0 else 1 + Run(s[1..], c)
  }

  function Dashes(w: seq<char>): (r: nat)
    ensures r == Run(w, DASH)
  {
    Run(w, DASH)
  }

  lemma RunIs(s: seq<char>, c: char, n: nat)
    requires n < |s| && s[n] != c && forall i :: 0 <= i < n ==> s[i] == c
    ensures Run(s, c) == n
  {
  }

  /** How far two texts agree. */
  function Common(m: seq<char>, w: seq<char>): (k: nat)
    ensures k <= |m| && k <= |w| && m[..k] == w[..k] && (k < |m| && k < |w| ==> m[k] != w[k])
  {
    if m == [] || w == [] || m[0] != w[0] then 0
    else
      var k := 1 + Common(m[1..], w[1..]);
      assert m[..k] == [m[0]] + m[1..][..k - 1] && w[..k] == [w[0]] + w[1..][..k - 1];
      k
  }

  // ---- steps of the matcher ----

  /** One step of the matcher at the waiting or read character `c`. */
  lemma Hit(c: char, ring: seq<char>, rest: seq<char>, w: seq<char>, k: nat, out: seq<char>)
    requires |ring| + 1 + k < |w| && c == w[k]
    ensures Scan([c] + ring, rest, w, k, out) == Scan(ring, rest, w, k + 1, out)
  {
  }

  lemma HitRead(c: char, rest: seq<char>, w: seq<char>, k: nat, out: seq<char>)
    requires k + 1 < |w| && c == w[k]
    ensures Scan([], [c] + rest, w, k, out) == Scan([], rest, w, k + 1, out)
  {
  }

  lemma Miss(c: char, ring: seq<char>, rest: seq<char>, w: seq<char>, k: nat, out: seq<char>)
    requires |ring| + 1 + k < |w| && c != w[k] && 0 < k
    ensures Scan([c] + ring, rest, w, k, out) == Scan(ring + w[1..k] + [c], rest, w, 0, out + [w[0]])
  {
  }

  lemma MissRead(c: char, rest: seq<char>, w: seq<char>, k: nat, out: seq<char>)
    requires k < |w| && c != w[k] && 0 < k
    ensures Scan([], [c] + rest, w, k, out) == Scan(w[1..k] + [c], rest, w, 0, out + [w[0]])
  {
    assert [] + w[1..k] + [c] == w[1..k] + [c];
  }

  lemma Emit(c: char, ring: seq<char>, rest: seq<char>, w: seq<char>, out: seq<char>)
    requires |ring| + 1 < |w| && c != w[0]
    ensures Scan([c] + ring, rest, w, 0, out) == Scan(ring, rest, w, 0, out + [c])
  {
  }

  lemma {:induction false} MatchRing(a: seq<char>, ring: seq<char>, rest: seq<char>, w: seq<char>, j: nat, out: seq<char>)
    requires j + |a| + |ring| < |w| && a == w[j..j + |a|]
    ensures Scan(a + ring, rest, w, j, out) == Scan(ring, rest, w, j + |a|, out)
    decreases |a|
  {
    if a == [] {
      assert a + ring == ring;
    } else {
      assert a + ring == [a[0]] + (a[1..] + ring);
      Hit(a[0], a[1..] + ring, rest, w, j, out);
      MatchRing(a[1..], ring, rest, w, j + 1, out);
    }
  }

  lemma {:induction false} MatchRead(a: seq<char>, rest: seq<char>, w: seq<char>, j: nat, out: seq<char>)
    requires j + |a| < |w| && a == w[j..j + |a|]
    ensures Scan([], a + rest, w, j, out) == Scan([], rest, w, j + |a|, out)
    decreases |a|
  {
    if a == [] {
      assert a + rest == rest;
    } else {
      assert a + rest == [a[0]] + (a[1..] + rest);
      HitRead(a[0], a[1..] + rest, w, j, out);
      MatchRead(a[1..], rest, w, j + 1, out);
    }
  }

  /** The waiting characters and then read ones match. */
  lemma MatchAll(ring: seq<char>, rest: seq<char>, w: seq<char>, k: nat, out: seq<char>)
    requires |ring| <= k < |w| && k <= |ring + rest| && (ring + rest)[..k] == w[..k]
    ensures Scan(ring, rest, w, 0, out) == Scan([], (ring + rest)[k..], w, k, out)
  {
    var m := ring + rest;
    assert ring == m[..k][..|ring|] == w[..k][..|ring|] && ring + [] == ring;
    MatchRing(ring, [], rest, w, 0, out);
    var a := rest[..k - |ring|];
    assert a == m[..k][|ring|..] == w[..k][|ring|..] && rest == a + m[k..];
    MatchRead(a, m[k..], w, |ring|, out);
  }

  lemma TurnFound(ring: seq<char>, rest: seq<char>, w: seq<char>, out: seq<char>)
    requires |ring| < |w| <= |ring + rest| && (ring + rest)[..|w|] == w
    ensures Scan(ring, rest, w, 0, out) == Found(out, (ring + rest)[|w|..])
  {
    var m, k := ring + rest, |w| - 1;
    assert m[..k] == m[..|w|][..k] && m[k] == m[..|w|][k];
    MatchAll(ring, rest, w, k, out);
    assert m[k..][1..] == m[|w|..];
  }

  lemma TurnExhausted(ring: seq<char>, rest: seq<char>, w: seq<char>, out: seq<char>)
    requires |ring + rest| < |w| && ring + rest == w[..|ring + rest|]
    ensures Scan(ring, rest, w, 0, out) == Exhausted
  {
    var m := ring + rest;
    assert m[..|m|] == m && m[|m|..] == [];
    MatchAll(ring, rest, w, |m|, out);
  }

  /** A false match of `k` characters that empties the ring. */
  lemma TurnMiss(ring: seq<char>, rest: seq<char>, w: seq<char>, k: nat, out: seq<char>)
    requires 0 < k < |w| && k < |ring + rest| && |ring| <= k + 1 && |ring| < |w|
    requires (ring + rest)[..k] == w[..k] && (ring + rest)[k] != w[k]
    ensures Scan(ring, rest, w, 0, out) == Scan(w[1..k] + [(ring + rest)[k]], (ring + rest)[k + 1..], w, 0, out + [w[0]])
  {
    var m := ring + rest;
    if |ring| <= k {
      MatchAll(ring, rest, w, k, out);
      assert m[k..] == [m[k]] + m[k + 1..];
      MissRead(m[k], m[k + 1..], w, k, out);
    } else {
      assert ring == m[..k] + [m[k]] && rest == m[k + 1..];
      MatchRing(m[..k], [m[k]], rest, w, 0, out);
      assert [m[k]] == [m[k]] + [] && [] + w[1..k] + [m[k]] == w[1..k] + [m[k]];
      Miss(m[k], [], rest, w, k, out);
    }
  }

  /** A false match beyond the dashes: two of them are emitted, and the rest of the dashes and the
      character behind them end up behind what followed them. */
  lemma FalseMatch(ring: seq<char>, rest: seq<char>, w: seq<char>, k: nat, out: seq<char>)
    requires 2 <= Dashes(w) < k < |w| && k < |ring + rest| && |ring| <= k
    requires (ring + rest)[..k] == w[..k] && (ring + rest)[k] != w[k]
    ensures |Swapped(w, k, (ring + rest)[k])| < |w|
    ensures Scan(ring, rest, w, 0, out)
         == Scan(Swapped(w, k, (ring + rest)[k]), (ring + rest)[k + 1..], w, 0, out + [w[0]] + [w[0]])
  {
    var m, r := ring + rest, Dashes(w);
    TurnMiss(ring, rest, w, k, out);
    var behind := w[r + 1..k] + [m[k]];
    assert w[1..k] + [m[k]] == w[..r - 1] + ([w[r]] + behind);
    MatchRing(w[..r - 1], [w[r]] + behind, m[k + 1..], w, 0, out + [w[0]]);
    Miss(w[r], behind, m[k + 1..], w, r - 1, out + [w[0]]);
    assert behind + w[1..r - 1] + [w[r]] == Swapped(w, k, m[k]);
  }

  function Swapped(w: seq<char>, k: nat, d: char): (s: seq<char>)
    requires 2 <= Dashes(w) < k < |w|
    ensures |s| == k - 1
  {
    var r := Dashes(w);
    w[r + 1..k] + [d] + w[1..r - 1] + [w[r]]
  }

  // ---- the waiting characters ----

  /** What waits when no match is in progress: characters that are no dashes, then dashes and one
      more character, not more than the boundary has leading dashes. */
  predicate RingState(x: seq<char>, y: seq<char>, w: seq<char>) {
    && DASH !in x && (forall i :: 0 <= i < |y| - 1 ==> y[i] == DASH)
    && |y| <= Dashes(w) && |x + y| < |w|
  }

  /** Where only dashes can match, one character is emitted and the order is kept. */
  lemma Turn(x: seq<char>, y: seq<char>, rest: seq<char>, w: seq<char>, k: nat, out: seq<char>)
    returns (x': seq<char>, y': seq<char>, rest': seq<char>)
    requires RingState(x, y, w) && 0 < Dashes(w)
    requires var m := x + y + rest; k == Common(m, w) && k < |m| && k < |w| && k <= Dashes(w)
    ensures RingState(x', y', w) && x' + y' + rest' == (x + y + rest)[1..]
    ensures Scan(x + y, rest, w, 0, out) == Scan(x' + y', rest', w, 0, out + [(x + y + rest)[0]])
  {
    var m := x + y + rest;
    if k == 0 {
      assert m[0] != w[0];
      x', y', rest' := TurnEmit(x, y, rest, w, out);
    } else {
      assert m[..k][0] == w[..k][0] == DASH;
      assert x == [];
      assert x + y == y && m == y + rest;
      y', rest' := TurnDashes(y, rest, w, k, out);
      x' := [];
      assert x' + y' == y';
    }
  }

  lemma TurnDashes(y: seq<char>, rest: seq<char>, w: seq<char>, k: nat, out: seq<char>)
    returns (y': seq<char>, rest': seq<char>)
    requires RingState([], y, w) && k == Common(y + rest, w) && 0 < k < |y + rest| && k < |w| && k <= Dashes(w)
    ensures RingState([], y', w) && y' + rest' == (y + rest)[1..]
    ensures Scan(y, rest, w, 0, out) == Scan(y', rest', w, 0, out + [(y + rest)[0]])
  {
    var m := y + rest;
    assert [] + y == y;
    MatchesDashes(y, rest, w, k);
    TurnMiss(y, rest, w, k, out);
    y', rest' := w[1..k] + [m[k]], m[k + 1..];
    BehindFirst(m, w, k);
    assert [] + y' == y';
  }

  lemma BehindFirst(m: seq<char>, w: seq<char>, k: nat)
    requires 0 < k < |m| && k <= |w| && m[..k] == w[..k]
    ensures m[0] == w[0] && w[1..k] + [m[k]] + m[k + 1..] == m[1..]
  {
    assert m[..k][0] == w[..k][0];
    assert m[1..k] == m[..k][1..] == w[..k][1..] == w[1..k];
  }

  lemma MatchesDashes(y: seq<char>, rest: seq<char>, w: seq<char>, k: nat)
    requires RingState([], y, w) && k == Common(y + rest, w) && k < |y + rest| && k < |w|
    ensures |y| <= k + 1
  {
    assert k < |y| ==> (y + rest)[k] == y[k];
  }

  lemma TurnEmit(x: seq<char>, y: seq<char>, rest: seq<char>, w: seq<char>, out: seq<char>)
    returns (x': seq<char>, y': seq<char>, rest': seq<char>)
    requires RingState(x, y, w) && 0 < Dashes(w) && x + y + rest != [] && (x + y + rest)[0] != w[0]
    ensures RingState(x', y', w) && x' + y' + rest' == (x + y + rest)[1..]
    ensures Scan(x + y, rest, w, 0, out) == Scan(x' + y', rest', w, 0, out + [(x + y + rest)[0]])
  {
    if x != [] {
      assert x + y == [x[0]] + (x[1..] + y);
      Emit(x[0], x[1..] + y, rest, w, out);
      x', y', rest' := x[1..], y, rest;
    } else if y != [] {
      assert |y| == 1;
      assert x + y == [y[0]] + [];
      Emit(y[0], [], rest, w, out);
      x', y', rest' := [], [], rest;
    } else {
      assert x + y == [];
      x', y', rest' := [], [], rest[1..];
    }
  }
}
