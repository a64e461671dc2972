/** What the lines of an SDDP packet do, whatever they are: which of them set a header, are ignored, or
    make it no packet. */
module SddpLines {
  import opened Wrappers
  import opened Text
  import opened SddpText
  import opened SddpParser
  import opened SddpWriter
  import opened SddpRoundTrip

  function RenderLines(ls: seq<seq<char>>): seq<char> {
    if ls == [] then [] else ls[0] + "\r\n" + RenderLines(ls[1..])
  }

  /** A line that is not the empty one, which ends the headers. */
  ghost predicate IsLine(l: seq<char>) {
    l != [] && NoCrLf(l)
  }

  /** The line is one of header `h`, spelled in any case. */
  predicate Sets(l: seq<char>, h: Header) {
    ':' in l && EqNc(Before(l, ':'), Name(h))
  }

  lemma HasColon(l: seq<char>)
    ensures ':' in l <==> From(l, ':') != []
  {
    BeforeFrom(l, ':');
  }

  lemma {:induction false} RecogniseIff(name: seq<char>, h: Header, hs: seq<Header>)
    ensures Recognise(name, hs) == Some(h) ==> EqNc(name, Name(h))
    ensures EqNc(name, Name(h)) && h in hs ==> Recognise(name, hs) == Some(h)
  {
    if hs != [] {
      RecogniseIff(name, h, hs[1..]);
      if EqNc(name, Name(hs[0])) && EqNc(name, Name(h)) {
        assert EqNc(Name(h), Name(hs[0]));
        NamesDiffer(h, hs[0]);
      }
    }
  }

  /** The headers behind one more line: the first line of a header sets it, any other line leaves them. */
  lemma LineAdds(p: Packet, l: seq<char>)
    ensures AddHeader(p, l) == None <==> ':' !in l
    ensures var q := AddHeader(p, l);
            q.Some? ==> q.value.head == p.head && q.value.body == p.body
                        && forall h :: Added(p.headers, q.value.headers, l, h)
  {
    HasColon(l);
    var q := AddHeader(p, l);
    if q.Some? {
      forall h ensures Added(p.headers, q.value.headers, l, h) {
        AllHeaders(h);
        RecogniseIff(Before(l, ':'), h, HEADERS);
      }
    }
  }

  predicate Added(before: map<Header, seq<char>>, after: map<Header, seq<char>>, l: seq<char>, h: Header) {
    if h in before then h in after && after[h] == before[h]
    else if Sets(l, h) then HasColonIn(l) && h in after && after[h] == HeaderValue(From(l, ':')[1..])
    else h !in after
  }

  predicate HasColonIn(l: seq<char>) {
    From(l, ':') != []
  }

  /** The lines taken one by one. */
  function AddLines(p: Packet, ls: seq<seq<char>>): Option<Packet>
    decreases |ls|
  {
    if ls == [] then Some(p)
    else
      match AddHeader(p, ls[0])
      case None => None
      case Some(q) => AddLines(q, ls[1..])
  }

  lemma {:induction false} LinesAreTaken(ls: seq<seq<char>>, rest: seq<char>, p: Packet)
    requires forall l :: l in ls ==> IsLine(l)
    ensures Lines(Some(RenderLines(ls) + rest), p) ==
              match AddLines(p, ls)
              case None => None
              case Some(q) => Lines(Some(rest), q)
    decreases |ls|
  {
    if ls == [] {
      assert RenderLines(ls) + rest == rest;
    } else {
      var more := RenderLines(ls[1..]) + rest;
      OneInFront(ls[0] + "\r\n", RenderLines(ls[1..]), rest);
      assert ls[0] in ls;
      LinesStep(ls[0], more, p);
      assert forall l :: l in ls[1..] ==> l in ls;
      var q := AddHeader(p, ls[0]);
      if q.Some? { LinesAreTaken(ls[1..], rest, q.value); }
    }
  }

  /** Line `i` is the first one of header `h`. */
  predicate IsFirst(ls: seq<seq<char>>, h: Header, i: nat) {
    i < |ls| && Sets(ls[i], h) && forall j :: 0 <= j < i ==> !Sets(ls[j], h)
  }

  /** What the lines say of header `h` that was not set before. */
  predicate Said(before: map<Header, seq<char>>, after: map<Header, seq<char>>, ls: seq<seq<char>>, h: Header) {
    if h in before then h in after && after[h] == before[h]
    else
      && (h in after <==> exists i :: 0 <= i < |ls| && Sets(ls[i], h))
      && forall i :: 0 <= i < |ls| && IsFirst(ls, h, i) ==>
           HasColonIn(ls[i]) && h in after && after[h] == HeaderValue(From(ls[i], ':')[1..])
  }

  lemma {:induction false} LinesSay(p: Packet, ls: seq<seq<char>>)
    ensures AddLines(p, ls) == None <==> exists l :: l in ls && ':' !in l
    ensures var q := AddLines(p, ls);
            q.Some? ==> q.value.head == p.head && q.value.body == p.body
                        && forall h :: Said(p.headers, q.value.headers, ls, h)
    decreases |ls|
  {
    if ls != [] {
      LineAdds(p, ls[0]);
      assert ls == [ls[0]] + ls[1..];
      var q := AddHeader(p, ls[0]);
      if q.Some? {
        LinesSay(q.value, ls[1..]);
        var r := AddLines(q.value, ls[1..]);
        if r.Some? {
          forall h ensures Said(p.headers, r.value.headers, ls, h) {
            SaidStep(p.headers, q.value.headers, r.value.headers, ls, h);
          }
        }
      }
    }
  }

  lemma SaidStep(before: map<Header, seq<char>>, middle: map<Header, seq<char>>, after: map<Header, seq<char>>,
                 ls: seq<seq<char>>, h: Header)
    requires ls != [] && Added(before, middle, ls[0], h) && Said(middle, after, ls[1..], h)
    ensures Said(before, after, ls, h)
  {
    if h !in before {
      if Sets(ls[0], h) { SaidAtOnce(before, after, ls, h); } else { SaidLater(before, after, ls, h); }
    }
  }

  lemma SaidAtOnce(before: map<Header, seq<char>>, after: map<Header, seq<char>>, ls: seq<seq<char>>, h: Header)
    requires ls != [] && h !in before && Sets(ls[0], h) && HasColonIn(ls[0])
    requires h in after && after[h] == HeaderValue(From(ls[0], ':')[1..])
    ensures Said(before, after, ls, h)
  {
    forall i | 0 <= i < |ls| && IsFirst(ls, h, i) ensures i == 0 {
    }
  }

  lemma SaidLater(before: map<Header, seq<char>>, after: map<Header, seq<char>>, ls: seq<seq<char>>, h: Header)
    requires ls != [] && h !in before && !Sets(ls[0], h) && Said(before, after, ls[1..], h)
    ensures Said(before, after, ls, h)
  {
    assert forall i :: 0 < i < |ls| ==> ls[i] == ls[1..][i - 1];
    forall i | 0 <= i < |ls| && IsFirst(ls, h, i) ensures IsFirst(ls[1..], h, i - 1) {
    }
    if h in after {
      var i :| 0 <= i < |ls[1..]| && Sets(ls[1..][i], h);
      assert Sets(ls[i + 1], h);
    }
  }

  /** Any first line that parses, any further lines, and a body or none: it is no packet iff some line
      has no colon. Otherwise each header has the value of its first line, those without a line are
      absent, and lines of other names, wherever they are, make no difference. */
  lemma ParseSays(first: seq<char>, ls: seq<seq<char>>, body: Option<seq<char>>)
    requires IsLine(first) && forall l :: l in ls ==> IsLine(l)
    requires FirstLine(first, 2 + |RenderLines(ls) + RenderBody(body)|).Some?
    ensures var p := Parse(first + "\r\n" + (RenderLines(ls) + RenderBody(body)));
            && (p == None <==> exists l :: l in ls && ':' !in l)
            && (p.Some? ==>
                 && Some(p.value.head) == FirstLine(first, 2 + |RenderLines(ls) + RenderBody(body)|)
                 && p.value.body == body && forall h :: Said(map[], p.value.headers, ls, h))
  {
    var rest := RenderLines(ls) + RenderBody(body);
    var h := FirstLine(first, |rest| + 2).value;
    var p := Packet(h, map[], None);
    ParseStep(first, rest);
    LinesAreTaken(ls, RenderBody(body), p);
    LinesSay(p, ls);
    var q := AddLines(p, ls);
    if q.Some? { BodyRoundTrip(q.value, body); }
  }

  /** So a further line of another name anywhere changes nothing of a packet's headers. */
  lemma {:induction false} OtherLineIsIgnored(ls: seq<seq<char>>, l: seq<char>, more: seq<seq<char>>, p: Packet)
    requires ':' in l && forall h :: !Sets(l, h)
    ensures AddLines(p, ls + [l] + more) == AddLines(p, ls + more)
    decreases |ls|
  {
    if ls == [] {
      assert [] + [l] + more == [l] + more && ([l] + more)[1..] == more && [] + more == more;
      LineAdds(p, l);
      var q := AddHeader(p, l);
      forall h ensures Added(p.headers, q.value.headers, l, h) && (h in q.value.headers <==> h in p.headers) {
      }
      assert q.value.headers == p.headers;
    } else {
      assert (ls + [l] + more)[1..] == ls[1..] + [l] + more && (ls + more)[1..] == ls[1..] + more;
      var q := AddHeader(p, ls[0]);
      if q.Some? { OtherLineIsIgnored(ls[1..], l, more, q.value); }
    }
  }

  /** The protocol is measured to the end of the text, not of the line: a request whose version is empty
      is read iff anything follows its first line. */
  lemma EmptyVersionIff(verb: seq<char>, argument: seq<char>, more: nat)
    requires IsToken(verb) && IsToken(argument) && !IsSddp(verb)
    ensures FirstLine(RequestLine(verb, argument, []), more)
         == if more > 0 then Some(Request(verb, argument, [])) else None
  {
    var rest := argument + " " + "SDDP/";
    SkipNothing(verb + " " + rest);
    NotSddp(verb, rest);
    TokenRoundTrip(verb, rest);
    TokenRoundTrip(argument, "SDDP/");
    SddpPrefix([]);
    assert "SDDP/" + [] == "SDDP/";
  }
}
