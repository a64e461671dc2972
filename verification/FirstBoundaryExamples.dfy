/** What a misleading start does to the search for the first boundary. */
module FirstBoundaryExamples {
  import opened Wrappers
  import opened Boundaries
  import opened FirstMatches
  import opened FirstBoundaries
  import opened FirstBoundaryMisled

  lemma FalseRead(w: seq<char>, k: nat, d: char, rest: seq<char>, out: seq<char>)
    requires 2 <= Dashes(w) < k < |w| && d != w[k]
    ensures Scan([], w[..k] + [d] + rest, w, 0, out) == Scan(Swapped(w, k, d), rest, w, 0, out + [w[0]] + [w[0]])
  {
    var m, none: seq<char> := w[..k] + [d] + rest, [];
    assert none + m == m && m[..k] == w[..k] && m[k] == d && m[k + 1..] == rest;
    FalseMatch(none, m, w, k, out);
  }

  // ---- a boundary is missed ----

  lemma NoDashNoOccurrence(w: seq<char>, t: seq<char>, j: int)
    requires IsPlain(w) && DASH !in t
    ensures !OccursAt(w[1..] + t, w, j)
  {
    var v, r := w[1..] + t, Dashes(w);
    if OccursAt(v, w, j) {
      OccursWithDashes(v, w, j, r - 1);
    }
  }

  /** The start of a boundary directly in front of it: the characters put back are swapped, the dash
      that begins the boundary is lost among them, and the search runs to the end of the stream. */
  lemma FalseStartHides(b: seq<char>, k: nat, t: seq<char>)
    requires var w := "--" + b; IsPlain(w) && Dashes(w) < k < |w| && DASH !in t
    ensures var w := "--" + b; NextBoundary(w[..k] + w + t, b, true) == None
  {
    var w, none: seq<char> := "--" + b, [];
    var rest := w[1..] + t;
    assert w[k] == w[Dashes(w)..][k - Dashes(w)];
    assert w[..k] + w + t == w[..k] + [DASH] + rest;
    FalseRead(w, k, DASH, rest, none);
    var x, y := SwappedState(w, k, DASH);
    var j := FindsOccurrence(x, y, rest, w, none + [w[0]] + [w[0]]);
    var v := Swapped(w, k, DASH) + rest;
    if OccursAt(v, w, j) {
      OccursBehindSwapped(w, k, DASH, rest, j);
      NoDashNoOccurrence(w, t, j - (k - 1));
    }
  }

  /** So a submission with a boundary may pass for an empty one. */
  lemma FirstSearchMissesBoundary(v: seq<char>, b: seq<char>)
    requires v == "--a--ab\r\n" && b == "ab"
    ensures FirstAt(v, "--" + b, 3) && NextBoundary(v, b, true) == None
  {
    var w := "--" + b;
    assert w == "--ab";
    RunIs(w, DASH, 2);
    assert w[2..] == "ab" && DASH !in w[2..];
    assert v == w[..3] + w + "\r\n";
    FalseStartHides(b, 3, "\r\n");
    assert v[3..7] == w && v[0..4][3] != w[3] && v[1..5][1] != w[1] && v[2..6][0] != w[0];
  }

  // ---- a boundary is invented ----

  lemma FoundNow(ring: seq<char>, more: seq<char>, rest: seq<char>, w: seq<char>, out: seq<char>)
    requires |ring| < |w| && ring + more == w
    ensures Scan(ring, more + rest, w, 0, out) == Found(out, rest)
  {
    assert ring + (more + rest) == w + rest;
    assert (w + rest)[..|w|] == w && (w + rest)[|w|..] == rest;
    TurnFound(ring, more + rest, w, out);
  }

  lemma Invented(w: seq<char>, t: seq<char>)
    requires |w| == 5 && Dashes(w) == 2 && w[3] == DASH && w[4] != DASH
    ensures Scan([], w[..4] + [DASH] + (w[3..] + t), w, 0, []) == Found([] + [w[0]] + [w[0]], t)
  {
    FalseRead(w, 4, DASH, w[3..] + t, []);
    assert Swapped(w, 4, DASH) == w[..3] && w[..3] + w[3..] == w;
    FoundNow(w[..3], w[3..], t, w, [] + [w[0]] + [w[0]]);
  }

  lemma LineEndFollows()
    ensures Trailer("\r\n") == Some([])
  {
    var t: seq<char> := "\r\n";
    assert t[..2] == "\r\n" && t[2..] == [];
  }

  /** With a dash behind the leading ones, a boundary may be found that is not there. */
  lemma FirstSearchInventsBoundary(v: seq<char>, b: seq<char>)
    requires v == "--a---b\r\n" && b == "a-b"
    ensures Absent(v, "--" + b) && NextBoundary(v, b, true) == Some((v[..2], []))
  {
    var w := "--" + b;
    assert w == "--a-b";
    RunIs(w, DASH, 2);
    NotThere(v, w);
    InventedText(v, w);
    Invented(w, "\r\n");
    LineEndFollows();
  }

  lemma NotThere(v: seq<char>, w: seq<char>)
    requires v == "--a---b\r\n" && w == "--a-b"
    ensures Absent(v, w)
  {
    assert |v| == 9;
    assert v[0..5][4] != w[4] && v[1..6][1] != w[1] && v[2..7][0] != w[0] && v[3..8][2] != w[2] && v[4..9][2] != w[2];
  }

  lemma InventedText(v: seq<char>, w: seq<char>)
    requires v == "--a---b\r\n" && w == "--a-b"
    ensures v == w[..4] + [DASH] + (w[3..] + "\r\n") && v[..2] == [] + [w[0]] + [w[0]]
  {
  }

  // ---- and no harm is done ----

  lemma Unharmed(w: seq<char>, t: seq<char>)
    requires |w| == 7 && Dashes(w) == 3 && w[4] == w[5] == DASH && w[6] == w[3]
    ensures Scan([], w[..6] + [DASH] + (w[3..] + t), w, 0, []) == Found([] + [w[0]] + [w[0]] + [w[0]] + [w[3]], t)
  {
    var rest, out := w[3..] + t, [] + [w[0]] + [w[0]];
    FalseRead(w, 6, DASH, rest, []);
    assert Swapped(w, 6, DASH) == w[..3] + ([DASH] + [w[3]]);
    MatchRing(w[..3], [DASH] + [w[3]], rest, w, 0, out);
    Miss(DASH, [w[3]], rest, w, 3, out);
    assert w[1..3] + [DASH] == w[..3] && w[..3] + w[3..] == w;
    assert [w[3]] + w[1..3] + [DASH] == [w[3]] + (w[1..3] + [DASH]);
    Emit(w[3], w[..3], rest, w, out + [w[0]]);
    FoundNow(w[..3], w[3..], t, w, out + [w[0]] + [w[3]]);
  }

  lemma StartsAtZero(w: seq<char>, v: seq<char>)
    requires Dashes(w) == 3 && |w| > 3 && |v| > 4 && v[..4] == w[..4]
    ensures Misled(v, w, 4)
  {
    var s := Start(w);
    assert Dashes(w) != 2;
    assert !IsRepeat(v, w, 0);
    assert v[0..4] == v[..4];
    assert s == w[..4];
    assert OccursAt(v, s, 0);
    assert Misleads(v, w, 0);
  }

  /** For the boundaries that are not telling the condition is not necessary: here the swapped
      characters happen to come back in order. */
  lemma MisledUnharmed(v: seq<char>, b: seq<char>)
    requires v == "---a---a--a\r\n" && b == "-a--a"
    ensures FirstAt(v, "--" + b, 4) && Misled(v, "--" + b, 4) && NextBoundary(v, b, true) == Some((v[..4], []))
  {
    var w := "--" + b;
    assert w == "---a--a";
    RunIs(w, DASH, 3);
    BehindFour(v, w);
    StartsAtZero(w, v);
    FoundUnharmed(v, b, w);
  }

  lemma BehindFour(v: seq<char>, w: seq<char>)
    requires v == "---a---a--a\r\n" && w == "---a--a"
    ensures FirstAt(v, w, 4)
  {
    assert v[4..11] == w && v[0..7][6] != w[6] && v[1..8][2] != w[2] && v[2..9][1] != w[1] && v[3..10][0] != w[0];
  }

  lemma FoundUnharmed(v: seq<char>, b: seq<char>, w: seq<char>)
    requires v == "---a---a--a\r\n" && w == "---a--a" == "--" + b && Dashes(w) == 3
    ensures NextBoundary(v, b, true) == Some((v[..4], []))
  {
    UnharmedText(v, w);
    Unharmed(w, "\r\n");
    LineEndFollows();
  }

  lemma UnharmedText(v: seq<char>, w: seq<char>)
    requires v == "---a---a--a\r\n" && w == "---a--a"
    ensures v == w[..6] + [DASH] + (w[3..] + "\r\n") && v[..4] == [] + [w[0]] + [w[0]] + [w[0]] + [w[3]]
  {
  }
}
