/** The multipart boundary search of cgic (section 5.1.1 of RFC 2046). */
module Boundaries {
  import opened Wrappers
  import opened MpStreams

  datatype Scanned = Exhausted | Found(out: seq<char>, rest: seq<char>)

  /** The matcher with `k` characters of `w` matched and `out` emitted: a false match emits
      its first character and puts the others back BEHIND the waiting ones. */
  ghost function Scan(ring: seq<char>, rest: seq<char>, w: seq<char>, k: nat, out: seq<char>): Scanned
    requires k < |w| && (ring != [] ==> |ring| + k < |w|)
    decreases |ring| + |rest| + k, |w| - k
  {
    if ring == [] && rest == [] then Exhausted
    else
      var d := (ring + rest)[0];
      var (ring', rest') := if ring == [] then (ring, rest[1..]) else (ring[1..], rest);
      if d == w[k] then
        if k + 1 == |w| then Found(out, rest') else Scan(ring', rest', w, k + 1, out)
      else if k > 0 then Scan(ring' + w[1..k] + [d], rest', w, 0, out + [w[0]])
      else Scan(ring', rest', w, 0, out + [d])
  }

  ghost predicate OccursAt(v: seq<char>, w: seq<char>, i: int) {
    0 <= i <= |v| - |w| && v[i..i + |w|] == w
  }

  /** `i` is where `w` first occurs in `v`. */
  ghost predicate FirstAt(v: seq<char>, w: seq<char>, i: int) {
    OccursAt(v, w, i) && forall j :: 0 <= j < i ==> !OccursAt(v, w, j)
  }

  ghost predicate Absent(v: seq<char>, w: seq<char>) {
    forall j :: 0 <= j ==> !OccursAt(v, w, j)
  }

  lemma OccursShift(v: seq<char>, w: seq<char>, i: nat)
    requires |v| > 0
    ensures OccursAt(v[1..], w, i) <==> OccursAt(v, w, i + 1)
  {
    if i + 1 + |w| <= |v| {
      assert v[1..][i..i + |w|] == v[i + 1..i + 1 + |w|];
    }
  }

  /** What is known of the tail is known of the whole, once the first place is ruled out. */
  lemma SearchTail(v: seq<char>, w: seq<char>)
    requires |v| > 0 && !OccursAt(v, w, 0)
    ensures forall i :: FirstAt(v[1..], w, i) ==> FirstAt(v, w, i + 1)
    ensures Absent(v[1..], w) ==> Absent(v, w)
  {
    forall i | FirstAt(v[1..], w, i) ensures FirstAt(v, w, i + 1) {
      OccursShift(v, w, i);
      forall j | 0 <= j < i + 1 ensures !OccursAt(v, w, j) {
        if j > 0 { OccursShift(v, w, j - 1); }
      }
    }
    if Absent(v[1..], w) {
      forall j | 0 <= j ensures !OccursAt(v, w, j) {
        if j > 0 { OccursShift(v, w, j - 1); }
      }
    }
  }

  /** The result of a scan, said of the stream the matcher still has in mind. */
  ghost predicate Searched(s: Scanned, v: seq<char>, w: seq<char>, out: seq<char>) {
    match s
    case Exhausted => Absent(v, w)
    case Found(o, r) =>
      && |out| <= |o| <= |out| + |v|
      && o == out + v[..|o| - |out|]
      && FirstAt(v, w, |o| - |out|)
      && r == v[|o| - |out| + |w|..]
  }

  lemma SearchedTail(s: Scanned, v: seq<char>, w: seq<char>, out: seq<char>)
    requires |v| > 0 && !OccursAt(v, w, 0) && Searched(s, v[1..], w, out + [v[0]])
    ensures Searched(s, v, w, out)
  {
    SearchTail(v, w);
    if s.Found? {
      var i := |s.out| - |out| - 1;
      assert v[..i + 1] == [v[0]] + v[1..][..i];
      assert v[1..][i + |w|..] == v[i + 1 + |w|..];
      OccursShift(v, w, i);
    }
  }

  /** The stream in mind before and after a character is taken. */
  lemma NextStep(ring: seq<char>, rest: seq<char>, w: seq<char>, k: nat)
    requires k < |w| && ring + rest != []
    ensures var v, d := w[..k] + ring + rest, (ring + rest)[0];
            var (ring', rest') := if ring == [] then (ring, rest[1..]) else (ring[1..], rest);
            && v[k] == d && v[..k] == w[..k]
            && (d == w[k] ==> w[..k + 1] + ring' + rest' == v)
            && (k == 0 ==> w[..0] + ring' + rest' == v[1..])
  {
    if ring == [] {
      assert ring + rest == [rest[0]] + rest[1..];
    } else {
      assert ring + rest == [ring[0]] + (ring[1..] + rest);
    }
  }

  /** When the first character of `w` does not recur in it, a match is in progress only while
      the ring is empty, so queueing is pushing back and the scan is a plain search. */
  lemma {:induction false} ScanSearches(ring: seq<char>, rest: seq<char>, w: seq<char>, k: nat, out: seq<char>)
    requires k < |w| && (ring != [] ==> |ring| + k < |w|)
    requires w[0] !in w[1..]
    requires k > 0 ==> ring == []
    requires NoStartIn(ring, w[0])
    ensures Searched(Scan(ring, rest, w, k, out), w[..k] + ring + rest, w, out)
    decreases |ring| + |rest| + k, |w| - k, 1
  {
    if ring != [] || rest != [] {
      var d := (ring + rest)[0];
      var (ring', rest') := if ring == [] then (ring, rest[1..]) else (ring[1..], rest);
      NextStep(ring, rest, w, k);
      if d != w[k] {
        if k > 0 { MismatchSearches(rest, w, k, out); } else { OtherSearches(ring, rest, w, out); }
      } else if k + 1 < |w| {
        ScanSearches(ring', rest', w, k + 1, out);
      } else {
        FoundHere(w[..k] + ring + rest, w, ring', rest', out);
      }
    }
  }

  /** Only the last waiting character may start the boundary. */
  predicate NoStartIn(ring: seq<char>, c: char) {
    forall i :: 0 <= i < |ring| - 1 ==> ring[i] != c
  }

  lemma FoundHere(v: seq<char>, w: seq<char>, ring: seq<char>, rest: seq<char>, out: seq<char>)
    requires w != [] && v == w + ring + rest && ring == []
    ensures Searched(Found(out, rest), v, w, out)
  {
    assert v[0..|w|] == w && v[|w|..] == rest;
  }

  lemma {:induction false} MismatchSearches(rest: seq<char>, w: seq<char>, k: nat, out: seq<char>)
    requires 0 < k < |w| && w[0] !in w[1..] && rest != [] && rest[0] != w[k]
    ensures Searched(Scan([], rest, w, k, out), w[..k] + [] + rest, w, out)
    decreases |rest| + k, |w| - k, 0
  {
    var back := w[1..k] + [rest[0]];
    ScanMismatch(rest, w, k);
    ScanSearches(back, rest[1..], w, 0, out + [w[0]]);
    PutsBack(rest, w, k, out);
    SearchedTail(Scan(back, rest[1..], w, 0, out + [w[0]]), w[..k] + [] + rest, w, out);
  }

  lemma PutsBack(rest: seq<char>, w: seq<char>, k: nat, out: seq<char>)
    requires 0 < k < |w| && rest != [] && rest[0] != w[k]
    ensures Scan([], rest, w, k, out) == Scan(w[1..k] + [rest[0]], rest[1..], w, 0, out + [w[0]])
    ensures (w[..k] + [] + rest)[0] == w[0]
  {
    var none: seq<char> := [];
    assert none + rest == rest && none + w[1..k] + [rest[0]] == w[1..k] + [rest[0]];
  }

  lemma {:induction false} OtherSearches(ring: seq<char>, rest: seq<char>, w: seq<char>, out: seq<char>)
    requires ring + rest != [] && |ring| < |w| && w[0] !in w[1..] && NoStartIn(ring, w[0])
    requires (ring + rest)[0] != w[0]
    ensures Searched(Scan(ring, rest, w, 0, out), w[..0] + ring + rest, w, out)
    decreases |ring| + |rest|, |w|, 0
  {
    var d := (ring + rest)[0];
    var (ring', rest') := if ring == [] then (ring, rest[1..]) else (ring[1..], rest);
    NextStep(ring, rest, w, 0);
    ScanSearches(ring', rest', w, 0, out + [d]);
    SearchedTail(Scan(ring', rest', w, 0, out + [d]), w[..0] + ring + rest, w, out);
  }

  lemma ScanMismatch(rest: seq<char>, w: seq<char>, k: nat)
    requires 0 < k < |w| && |rest| > 0 && w[0] !in w[1..] && rest[0] != w[k]
    ensures !OccursAt(w[..k] + [] + rest, w, 0)
    ensures NoStartIn(w[1..k] + [rest[0]], w[0])
    ensures w[..0] + (w[1..k] + [rest[0]]) + rest[1..] == (w[..k] + [] + rest)[1..]
  {
    var v := w[..k] + [] + rest;
    assert v[k] == rest[0];
    assert |v| >= |w| ==> v[0..|w|][k] == v[k];
    assert rest == [rest[0]] + rest[1..];
  }

  /** Whatever is found consumes the boundary's length. */
  lemma {:induction false} ScanShrinks(ring: seq<char>, rest: seq<char>, w: seq<char>, k: nat, out: seq<char>)
    requires k < |w| && (ring != [] ==> |ring| + k < |w|)
    ensures var s := Scan(ring, rest, w, k, out);
            s.Found? ==> |s.rest| <= |ring| + |rest| + k - |w|
    decreases |ring| + |rest| + k, |w| - k
  {
    if ring != [] || rest != [] {
      var d := (ring + rest)[0];
      var (ring', rest') := if ring == [] then (ring, rest[1..]) else (ring[1..], rest);
      if d == w[k] {
        if k + 1 < |w| { ScanShrinks(ring', rest', w, k + 1, out); }
      } else if k > 0 {
        ScanShrinks(ring' + w[1..k] + [d], rest', w, 0, out + [w[0]]);
      } else {
        ScanShrinks(ring', rest', w, 0, out + [d]);
      }
    }
  }

  lemma FirstAtUnique(v: seq<char>, w: seq<char>, i: int, j: int)
    requires FirstAt(v, w, i) && FirstAt(v, w, j)
    ensures i == j
  {
  }

  /** Two characters follow a boundary: a line end is consumed, dashes stay for the caller,
      anything else is dropped; fewer than two are an error. */
  function Trailer(v: seq<char>): Option<seq<char>> {
    if |v| < 2 then None
    else if v[..2] == "\r\n" then Some(v[2..])
    else if v[0] == '-' then Some(v)
    else Some(v[2..])
  }

  function WorkingBoundary(b: seq<char>, first: bool): (w: seq<char>)
    ensures |w| == |b| + (if first then 2 else 4)
  {
    if first then "--" + b else "\r\n--" + b
  }

  /** A boundary as the request header yields it: no white space, and short enough. */
  predicate IsBoundary(b: seq<char>) {
    |b| <= 1014 && '\r' !in b && '\n' !in b
  }

  /** What the boundary search makes of a stream whose ring is empty. */
  ghost function NextBoundary(v: seq<char>, b: seq<char>, first: bool): Option<(seq<char>, seq<char>)> {
    match Scan([], v, WorkingBoundary(b, first), 0, [])
    case Exhausted => None
    case Found(out, rest) =>
      match Trailer(rest)
      case None => None
      case Some(t) => Some((out, t))
  }

  /** The search is exact: it returns the characters before the first occurrence of the boundary,
      and fails iff there is none with two characters behind it. */
  ghost predicate IsSearch(v: seq<char>, b: seq<char>, first: bool) {
    var w := WorkingBoundary(b, first);
    match NextBoundary(v, b, first)
    case Some((out, t)) =>
      FirstAt(v, w, |out|) && out == v[..|out|] && Trailer(v[|out| + |w|..]) == Some(t)
    case None =>
      forall i :: FirstAt(v, w, i) ==> |v| < i + |w| + 2
  }

  lemma SearchedIsSearch(v: seq<char>, b: seq<char>, first: bool)
    requires var w := WorkingBoundary(b, first); Searched(Scan([], v, w, 0, []), v, w, [])
    ensures IsSearch(v, b, first)
  {
    var w := WorkingBoundary(b, first);
    var s := Scan([], v, w, 0, []);
    if s.Found? {
      forall i | FirstAt(v, w, i) ensures i == |s.out| {
        FirstAtUnique(v, w, i, |s.out|);
      }
    }
  }

  /** After the first boundary the search is exact on every stream. */
  lemma NextBoundaryIsSearch(v: seq<char>, b: seq<char>)
    requires IsBoundary(b)
    ensures IsSearch(v, b, false)
  {
    var w := WorkingBoundary(b, false);
    ScanSearches([], v, w, 0, []);
    assert w[..0] + [] + v == v;
    SearchedIsSearch(v, b, false);
  }

  lemma SearchedOnce(s: Scanned, t: Scanned, v: seq<char>, w: seq<char>)
    requires Searched(s, v, w, []) && Searched(t, v, w, [])
    ensures s == t
  {
    if s.Found? && t.Found? {
      FirstAtUnique(v, w, |s.out|, |t.out|);
    }
  }

  /** A waiting character changes nothing: the search sees only the virtual stream. */
  lemma ScanIgnoresSplit(ring: seq<char>, rest: seq<char>, b: seq<char>)
    requires IsBoundary(b) && |ring| <= 1
    ensures var w := WorkingBoundary(b, false);
            Scan(ring, rest, w, 0, []) == Scan([], ring + rest, w, 0, [])
  {
    var w, v := WorkingBoundary(b, false), ring + rest;
    ScanSearches(ring, rest, w, 0, []);
    ScanSearches([], v, w, 0, []);
    assert w[..0] + ring + rest == v && w[..0] + [] + v == v;
    SearchedOnce(Scan(ring, rest, w, 0, []), Scan([], v, w, 0, []), v, w);
  }

  /** mpRead of one character, in terms of the virtual stream. */
  method ReadOne(mp: MpStream) returns (got: bool, c: char)
    requires mp.Valid()
    modifies mp
    ensures mp.Valid()
    ensures got <==> old(mp.Virtual()) != []
    ensures got ==> old(mp.Virtual()) == [c] + mp.Virtual() && mp.offset == old(mp.offset) + 1
    ensures !got ==> mp.Virtual() == []
    ensures |mp.Ring()| == if |old(mp.Ring())| > 0 then |old(mp.Ring())| - 1 else 0
  {
    var n, d := mp.Read(1);
    got, c := n == 1, ' ';
    if got {
      c := d[0];
    }
  }

  /** mpRead of two characters, at most two of them waiting. */
  method ReadTwo(mp: MpStream) returns (got: bool, d: seq<char>)
    requires mp.Valid() && |mp.Ring()| <= 2
    modifies mp
    ensures mp.Valid() && mp.Ring() == []
    ensures got <==> |old(mp.Virtual())| >= 2
    ensures got ==> |d| == 2 && old(mp.Virtual()) == d + mp.Virtual() && mp.offset >= 2
  {
    var n;
    n, d := mp.Read(2);
    got := n == 2;
  }

  /** mpPutBack of one character just read, the ring being empty. */
  method PutBackOne(mp: MpStream, c: char)
    requires mp.Valid() && mp.Ring() == [] && mp.offset > 0
    modifies mp, mp.putback
    ensures mp.Valid() && |mp.Ring()| == 1 && mp.Virtual() == [c] + old(mp.Virtual())
  {
    mp.PutBack([c]);
    assert mp.Ring() == [c];
  }

  method PutBackTwo(mp: MpStream, d: seq<char>)
    requires mp.Valid() && mp.Ring() == [] && mp.offset >= 2 && |d| == 2
    modifies mp, mp.putback
    ensures mp.Valid() && mp.Ring() == d && mp.Virtual() == d + old(mp.Virtual())
  {
    mp.PutBack(d);
    assert mp.Ring() == d;
  }

  /** What a read of one character leaves of ring and rest. */
  lemma OneRead(ring: seq<char>, rest: seq<char>, d: seq<char>, ring': seq<char>, rest': seq<char>)
    requires |d| == 1 && ring + rest == d + (ring' + rest') && ring' == ring[Min(1, |ring|)..]
    ensures d == [(ring + rest)[0]] && (ring', rest') == if ring == [] then (ring, rest[1..]) else (ring[1..], rest)
  {
    var v := ring + rest;
    assert v[1..] == ring' + rest';
    if ring == [] {
      assert rest' == ring' + rest' == v[1..] == rest[1..];
    } else {
      assert v[|ring|..] == rest && v[1..][|ring'|..] == rest';
    }
  }

  /** What follows the first character of a false match is put back, and then the character that
      broke it. */
  method PutBackMatch(mp: MpStream, w: seq<char>, k: nat, d: char)
    requires mp.Valid() && 0 < k < |w| && |mp.Ring()| + k < RING && k < mp.offset
    modifies mp, mp.putback
    ensures mp.Valid() && mp.Ring() == old(mp.Ring()) + w[1..k] + [d] && mp.Rest() == old(mp.Rest())
  {
    mp.PutBack(w[1..k]);
    mp.PutBack([d]);
  }

  /** The matching loop of afterNextBoundary. */
  method ScanStream(mp: MpStream, w: seq<char>) returns (ok: bool, out: seq<char>)
    requires mp.Valid() && |mp.Ring()| < |w| < RING
    modifies mp, mp.putback
    ensures mp.Valid()
    ensures match Scan(old(mp.Ring()), old(mp.Rest()), w, 0, [])
            case Exhausted => !ok
            case Found(o, r) => ok && out == o && mp.Ring() == [] && mp.Rest() == r
  {
    var boffset := 0;
    out := [];
    ghost var all := Scan(mp.Ring(), mp.Rest(), w, 0, []);
    while true
      invariant mp.Valid() && boffset < |w| && boffset <= mp.offset
      invariant mp.Ring() != [] ==> |mp.Ring()| + boffset < |w|
      invariant all == Scan(mp.Ring(), mp.Rest(), w, boffset, out)
      decreases |mp.Ring()| + |mp.Rest()| + boffset, |w| - boffset
    {
      ghost var ring, rest := mp.Ring(), mp.Rest();
      var got, d := mp.Read(1);
      if got != 1 {
        return false, out;
      }
      OneRead(ring, rest, d, mp.Ring(), mp.Rest());
      if d[0] == w[boffset] {
        boffset := boffset + 1;
        if boffset == |w| {
          return true, out;
        }
      } else if boffset > 0 {
        out := out + [w[0]];
        PutBackMatch(mp, w, boffset, d[0]);
        boffset := 0;
      } else {
        out := out + [d[0]];
      }
    }
  }

  /** The two characters behind a boundary. */
  method ReadTrailer(mp: MpStream) returns (ok: bool)
    requires mp.Valid() && mp.Ring() == []
    modifies mp, mp.putback
    ensures mp.Valid() && |mp.Ring()| <= 2
    ensures match Trailer(old(mp.Rest()))
            case None => !ok
            case Some(t) => ok && mp.Virtual() == t
  {
    ghost var v := mp.Virtual();
    assert v == mp.Rest();
    var got, d := ReadTwo(mp);
    if !got {
      return false;
    }
    assert d == v[..2] && mp.Virtual() == v[2..];
    assert (d[0] == '\r' && d[1] == '\n') <==> d == "\r\n";
    if d[0] == '\r' && d[1] == '\n' {
    } else if d[0] == '-' {
      PutBackTwo(mp, d);
    }
    ok := true;
  }

  /** afterNextBoundary: moves past the next boundary and its line end; `out` is the body before
      it when `keep` is set. `ok` is false for an I/O error. */
  method AfterNextBoundary(mp: MpStream, b: seq<char>, keep: bool, first: bool) returns (ok: bool, out: seq<char>)
    requires mp.Valid() && IsBoundary(b)
    requires if first then mp.Ring() == [] else |mp.Ring()| <= 1
    modifies mp, mp.putback
    ensures mp.Valid()
    ensures match NextBoundary(old(mp.Virtual()), b, first)
            case None => !ok && out == []
            case Some((body, t)) =>
              ok && out == (if keep then body else []) && mp.Virtual() == t && |mp.Ring()| <= 2
  {
    var w := WorkingBoundary(b, first);
    if !first { ScanIgnoresSplit(mp.Ring(), mp.Rest(), b); }
    assert mp.Ring() == [] ==> mp.Virtual() == mp.Rest();
    ok, out := ScanStream(mp, w);
    if ok {
      ok := ReadTrailer(mp);
    }
    if !ok || !keep {
      out := [];
    }
  }
}
