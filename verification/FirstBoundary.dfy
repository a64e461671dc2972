/** The search for the first boundary, `--B`: a false match that goes beyond the leading dashes puts
    characters back behind waiting ones, which reorders the stream. */
module FirstBoundaries {
  import opened MpStreams
  import opened Boundaries
  import opened FirstMatches

  /** The shortest start of a boundary whose false match reorders: its leading dashes and the
      character behind them. */
  function Start(w: seq<char>): seq<char> {
    w[..Min(Dashes(w) + 1, |w|)]
  }

  /** The one false match that reorders nothing but equal characters: two dashes, and the character
      behind them once more often than in the boundary. */
  function Repeat(w: seq<char>): seq<char>
    requires |w| > 2
  {
    w[..2 + Run(w[2..], w[2])] + [w[2]]
  }

  ghost predicate IsRepeat(v: seq<char>, w: seq<char>, i: int) {
    |w| > 2 && Dashes(w) == 2 && OccursAt(v, Repeat(w), i)
  }

  /** The boundary seems to start at `i`, and if it does not, the stream is reordered. */
  ghost predicate Misleads(v: seq<char>, w: seq<char>, i: int) {
    OccursAt(v, Start(w), i) && !IsRepeat(v, w, i)
  }

  /** Nothing misleads before the first occurrence of `w`. */
  ghost predicate Unambiguous(v: seq<char>, w: seq<char>) {
    forall p :: Misleads(v, w, p) ==> exists j :: j <= p && OccursAt(v, w, j)
  }

  lemma MisleadsTail(v: seq<char>, w: seq<char>, p: int)
    requires |v| > 0 && p >= 0
    ensures Misleads(v[1..], w, p) <==> Misleads(v, w, p + 1)
  {
    OccursShift(v, Start(w), p);
    if |w| > 2 { OccursShift(v, Repeat(w), p); }
  }

  lemma FirstAtTail(v: seq<char>, w: seq<char>, i: int)
    requires |v| > 0 && i > 0 && FirstAt(v, w, i)
    ensures FirstAt(v[1..], w, i - 1)
  {
    OccursShift(v, w, i - 1);
    forall j | 0 <= j < i - 1 ensures !OccursAt(v[1..], w, j) { OccursShift(v, w, j); }
  }

  lemma UnambiguousTail(v: seq<char>, w: seq<char>)
    requires |v| > 0 && Unambiguous(v, w) && !OccursAt(v, w, 0)
    ensures Unambiguous(v[1..], w)
  {
    forall p | Misleads(v[1..], w, p) ensures exists j :: j <= p && OccursAt(v[1..], w, j) {
      MisleadsTail(v, w, p);
      var j :| j <= p + 1 && OccursAt(v, w, j);
      OccursShift(v, w, j - 1);
    }
  }

  /** A mismatch at `k` rules out an occurrence, and below the leading dashes a misleading start. */
  lemma MismatchAt(m: seq<char>, w: seq<char>, k: nat)
    requires k == Common(m, w) && k < |m| && k < |w|
    ensures !OccursAt(m, w, 0)
    ensures OccursAt(m, Start(w), 0) <==> k > Dashes(w)
  {
    assert |w| <= |m| ==> m[0..|w|][k] == m[k];
    var s := Start(w);
    if k > Dashes(w) {
      assert m[0..|s|] == m[..k][..|s|] == w[..k][..|s|];
    } else {
      assert |s| <= |m| ==> m[0..|s|][k] == m[k];
    }
  }

  /** A mere repetition: the mismatch is at the character behind the dashes, once too often. */
  lemma RepeatEnds(m: seq<char>, w: seq<char>, k: nat)
    requires k == Common(m, w) && 2 == Dashes(w) < k < |m| && k < |w| && IsRepeat(m, w, 0)
    ensures k == 2 + Run(w[2..], w[2])
    ensures forall j :: 2 <= j <= k ==> m[j] == w[2]
  {
    var n, s := Run(w[2..], w[2]), Repeat(w);
    assert m[0..|s|] == s;
    RepeatText(w);
    assert forall j :: 0 <= j < |s| ==> m[j] == s[j];
    assert m[..k] == w[..k];
    assert forall j :: 0 <= j < k ==> m[..k][j] == m[j] && w[..k][j] == w[j];
  }

  lemma RepeatText(w: seq<char>)
    requires |w| > 2
    ensures var n, s := Run(w[2..], w[2]), Repeat(w);
            && |s| == 3 + n && (forall j :: 2 <= j < |s| ==> s[j] == w[2])
            && (forall j :: 0 <= j < 2 + n ==> s[j] == w[j]) && (2 + n < |w| ==> w[2 + n] != w[2])
  {
    var n, s := Run(w[2..], w[2]), Repeat(w);
    forall j | 2 <= j < |s| ensures s[j] == w[2] {
      if j < 2 + n { assert w[2..][j - 2] == w[j]; }
    }
  }

  /** Then putting back changes nothing. */
  lemma RepeatIsHarmless(m: seq<char>, w: seq<char>, k: nat)
    requires k == Common(m, w) && 2 == Dashes(w) < k < |m| && k < |w| && IsRepeat(m, w, 0)
    ensures Swapped(w, k, m[k]) == m[2..k + 1] && DASH !in m[2..k + 1]
  {
    RepeatEnds(m, w, k);
    assert m[..k] == w[..k];
    var s, t := Swapped(w, k, m[k]), m[2..k + 1];
    forall j | 0 <= j < k - 1 ensures s[j] == w[2] == t[j] {
      if j < k - 3 {
        assert s[j] == w[j + 3] == w[..k][j + 3] == m[..k][j + 3];
      }
    }
  }

  // ---- exact where nothing misleads ----

  lemma FoundAtOnce(x: seq<char>, y: seq<char>, rest: seq<char>, w: seq<char>, out: seq<char>)
    requires RingState(x, y, w) && Common(x + y + rest, w) == |w|
    ensures OccursAt(x + y + rest, w, 0) && Scan(x + y, rest, w, 0, out) == Found(out, (x + y + rest)[|w|..])
  {
    TurnFound(x + y, rest, w, out);
  }

  lemma FoundIsSearched(m: seq<char>, w: seq<char>, out: seq<char>)
    requires OccursAt(m, w, 0)
    ensures Searched(Found(out, m[|w|..]), m, w, out)
  {
    assert out + m[..0] == out;
  }

  /** The waiting characters all read: a false match beyond the dashes finds the ring empty. */
  lemma RingIsRead(x: seq<char>, y: seq<char>, rest: seq<char>, w: seq<char>, k: nat)
    requires RingState(x, y, w) && k == Common(x + y + rest, w) && 2 <= Dashes(w) < k
    ensures x == [] && |y| <= k && x + y + rest == y + rest && (x + y + rest)[0] == (x + y + rest)[1] == DASH
  {
    var m := x + y + rest;
    assert m[..k][0] == w[..k][0] && m[..k][1] == w[..k][1];
  }

  /** Two steps at once, where the swapped characters are in their place. */
  lemma SearchedTwice(s: Scanned, m: seq<char>, w: seq<char>, out: seq<char>)
    requires |m| > 2 && w != [] && m[0] == w[0] && m[1] == w[0]
    requires !OccursAt(m, w, 0) && !OccursAt(m[1..], w, 0) && Searched(s, m[2..], w, out + [w[0]] + [w[0]])
    ensures Searched(s, m, w, out)
  {
    assert m[1..][1..] == m[2..];
    SearchedTail(s, m[1..], w, out + [m[0]]);
    SearchedTail(s, m, w, out);
  }

  lemma NotAtSecond(m: seq<char>, w: seq<char>)
    requires |m| > 2 && |w| > 1 && m[2] != w[1]
    ensures !OccursAt(m[1..], w, 0)
  {
    assert |m| > |w| ==> m[1..][0..|w|][1] == m[2];
  }

  lemma {:induction false} FirstScanSearches(x: seq<char>, y: seq<char>, rest: seq<char>, w: seq<char>, out: seq<char>)
    requires RingState(x, y, w) && 2 <= Dashes(w) && Unambiguous(x + y + rest, w)
    ensures Searched(Scan(x + y, rest, w, 0, out), x + y + rest, w, out)
    decreases |x + y + rest|
  {
    var m, s := x + y + rest, Scan(x + y, rest, w, 0, out);
    var k := Common(m, w);
    if k == |w| {
      FoundAtOnce(x, y, rest, w, out);
      FoundIsSearched(m, w, out);
    } else if k == |m| {
      TurnExhausted(x + y, rest, w, out);
    } else {
      MismatchAt(m, w, k);
      UnambiguousTail(m, w);
      if k <= Dashes(w) {
        var x', y', rest' := Turn(x, y, rest, w, k, out);
        FirstScanSearches(x', y', rest', w, out + [m[0]]);
        SearchedTail(s, m, w, out);
      } else {
        RepeatSearches(x, y, rest, w, k, out);
      }
    }
  }

  lemma {:induction false} RepeatSearches(x: seq<char>, y: seq<char>, rest: seq<char>, w: seq<char>, k: nat, out: seq<char>)
    requires RingState(x, y, w) && 2 <= Dashes(w) < k < |w|
    requires var m := x + y + rest;
             k == Common(m, w) && k < |m| && Unambiguous(m, w) && Unambiguous(m[1..], w) && OccursAt(m, Start(w), 0)
             && !OccursAt(m, w, 0)
    ensures Searched(Scan(x + y, rest, w, 0, out), x + y + rest, w, out)
    decreases |x + y + rest|, 0
  {
    var m := x + y + rest;
    RingIsRead(x, y, rest, w, k);
    assert !Misleads(m, w, 0);
    RepeatEnds(m, w, k);
    RepeatIsHarmless(m, w, k);
    assert x + y == y;
    FalseMatch(y, rest, w, k, out);
    var ring, more := m[2..k + 1], m[k + 1..];
    assert ring + [] == ring && ring + [] + more == m[2..];
    NotAtSecond(m, w);
    assert m[1..][1..] == m[2..];
    UnambiguousTail(m[1..], w);
    FirstScanSearches(ring, [], more, w, out + [w[0]] + [w[0]]);
    SearchedTwice(Scan(ring, more, w, 0, out + [w[0]] + [w[0]]), m, w, out);
  }

  /** On every stream in which nothing misleads before the boundary, the first search returns exactly
      what precedes the first --B, and fails iff there is none with two characters behind it. */
  lemma FirstBoundaryIsSearch(v: seq<char>, b: seq<char>)
    requires Unambiguous(v, "--" + b)
    ensures IsSearch(v, b, true)
  {
    var w := WorkingBoundary(b, true);
    var none: seq<char> := [];
    assert none + none == none && none + v == v;
    StartsWithDashes(b);
    FirstScanSearches(none, none, v, w, none);
    SearchedIsSearch(v, b, true);
  }

  lemma StartsWithDashes(b: seq<char>)
    ensures 2 <= Dashes("--" + b)
  {
    var w := "--" + b;
    assert w[0] == DASH && w[1] == DASH;
  }

  /** A boundary of dashes only misleads nowhere: its search is exact on every stream. */
  lemma AllDashesIsSearch(v: seq<char>, b: seq<char>)
    requires forall c :: c in b ==> c == DASH
    ensures IsSearch(v, b, true)
  {
    var w := "--" + b;
    StartsWithDashes(b);
    assert forall j :: 2 <= j < |w| ==> w[j] == b[j - 2] && b[j - 2] in b;
    assert Dashes(w) == |w| && Start(w) == w;
    FirstBoundaryIsSearch(v, b);
  }
}
