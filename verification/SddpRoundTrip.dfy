/** Parsing undoes writing an SDDP packet. */
module SddpRoundTrip {
  import opened Wrappers
  import opened Text
  import opened SddpText
  import opened SddpParser
  import opened SddpWriter

  /** A version of a request may have spaces in front. */
  predicate IsVersion(v: seq<char>) {
    IsToken(SkipBlanks(v))
  }

  predicate IsPacketHead(h: Head) {
    match h
    case Unknown => false
    case Request(verb, argument, version) =>
      IsToken(verb) && IsToken(argument) && IsVersion(version) && !IsSddp(verb)
    case Response(statusCode, reason, version) =>
      IsToken(statusCode) && reason != [] && reason[0] != ' ' && IsToken(version)
  }

  ghost predicate IsOneLine(h: Head) {
    match h
    case Unknown => true
    case Request(verb, argument, version) => NoCrLf(verb) && NoCrLf(argument) && NoCrLf(version)
    case Response(statusCode, reason, version) => NoCrLf(statusCode) && NoCrLf(reason) && NoCrLf(version)
  }

  /** The values a header line can carry: any line of text if quoted, a plain one if not. */
  ghost predicate IsHeaderValue(h: Header, v: seq<char>) {
    NoCrLf(v) && (ForceQuotes(h) || IsPlain(v))
  }

  ghost predicate IsPacket(p: Packet) {
    && IsPacketHead(p.head) && IsOneLine(p.head)
    && forall h :: h in p.headers ==> IsHeaderValue(h, p.headers[h])
  }

  // ---- the first line ----

  lemma VersionIff(v: seq<char>)
    requires v != []
    ensures VersionOf(v) == v <==> IsVersion(v)
  {
    var t := SkipBlanks(v);
    BeforeFrom(t, ' ');
    if ' ' !in t { SplitNone(t, ' '); }
    if From(t, ' ') == [] { assert Before(t, ' ') == t; }
  }

  lemma VersionRoundTrip(v: seq<char>)
    requires IsToken(v)
    ensures VersionOf(v + " ") == v
  {
    SkipNothing(v + " ");
    SplitAt(v, ' ', []);
    assert v + " " == v + [' '] + [];
    assert (v + " ")[..|v|] == v;
  }

  function RequestLine(verb: seq<char>, argument: seq<char>, version: seq<char>): seq<char> {
    verb + " " + (argument + " " + ("SDDP/" + version))
  }

  lemma NotSddp(verb: seq<char>, rest: seq<char>)
    requires IsToken(verb) && !IsSddp(verb)
    ensures !IsSddp(verb + " " + rest)
  {
    var l := verb + " " + rest;
    if |verb| >= 5 {
      assert l[..5] == verb[..5];
    } else {
      assert |l| >= 5 ==> l[..5][|verb|] == ' ';
    }
  }

  lemma SddpPrefix(t: seq<char>)
    ensures IsSddp("SDDP/" + t) && ("SDDP/" + t)[5..] == t
  {
    assert ("SDDP/" + t)[..5] == "SDDP/";
  }

  lemma RequestLineRoundTrip(verb: seq<char>, argument: seq<char>, version: seq<char>, more: nat)
    requires IsToken(verb) && IsToken(argument) && IsVersion(version) && !IsSddp(verb)
    ensures FirstLine(RequestLine(verb, argument, version), more) == Some(Request(verb, argument, version))
  {
    var protocol := "SDDP/" + version;
    var rest := argument + " " + protocol;
    SkipNothing(verb + " " + rest);
    NotSddp(verb, rest);
    TokenRoundTrip(verb, rest);
    TokenRoundTrip(argument, protocol);
    SddpPrefix(version);
    VersionIff(version);
  }

  function ResponseLine(version: seq<char>, statusCode: seq<char>, reason: seq<char>): seq<char> {
    ("SDDP/" + version) + " " + (statusCode + " " + reason)
  }

  lemma ResponseVersionText(version: seq<char>, status: seq<char>)
    ensures SddpVersionText(("SDDP/" + version) + " " + status, status) == version + " "
  {
    assert ("SDDP/" + version) + " " + status == "SDDP/" + (version + " ") + status;
  }

  lemma ResponseLineRoundTrip(version: seq<char>, statusCode: seq<char>, reason: seq<char>, more: nat)
    requires IsToken(version) && IsToken(statusCode) && reason != [] && reason[0] != ' '
    ensures FirstLine(ResponseLine(version, statusCode, reason), more) == Some(Response(statusCode, reason, version))
  {
    var status := statusCode + " " + reason;
    var l := ResponseLine(version, statusCode, reason);
    SkipNothing(l);
    assert l == "SDDP/" + (version + " " + status);
    SddpPrefix(version + " " + status);
    TokenRoundTrip("SDDP/" + version, status);
    TokenRoundTrip(statusCode, reason);
    ResponseVersionText(version, status);
    VersionRoundTrip(version);
  }

  function HeadLine(h: Head): seq<char>
    requires h != Unknown
  {
    match h
    case Request(verb, argument, version) => RequestLine(verb, argument, version)
    case Response(statusCode, reason, version) => ResponseLine(version, statusCode, reason)
  }

  lemma HeadIsLine(h: Head)
    requires h != Unknown
    ensures RenderHead(h) == HeadLine(h) + "\r\n"
  {
  }

  lemma HeadLineRoundTrip(h: Head, more: nat)
    requires IsPacketHead(h)
    ensures FirstLine(HeadLine(h), more) == Some(h)
  {
    match h
    case Request(verb, argument, version) => RequestLineRoundTrip(verb, argument, version, more);
    case Response(statusCode, reason, version) => ResponseLineRoundTrip(version, statusCode, reason, more);
  }

  lemma NoCrLfWords(a: seq<char>, b: seq<char>)
    requires NoCrLf(a) && NoCrLf(b)
    ensures NoCrLf(a + " " + b)
  {
    NoCrLfAppend(a, " ");
    NoCrLfAppend(a + " ", b);
  }

  lemma HeadIsOneLine(h: Head)
    requires h != Unknown && IsOneLine(h)
    ensures NoCrLf(HeadLine(h))
  {
    match h
    case Request(verb, argument, version) =>
      NoCrLfAppend("SDDP/", version);
      NoCrLfWords(argument, "SDDP/" + version);
      NoCrLfWords(verb, argument + " " + ("SDDP/" + version));
    case Response(statusCode, reason, version) =>
      NoCrLfAppend("SDDP/", version);
      NoCrLfWords(statusCode, reason);
      NoCrLfWords("SDDP/" + version, statusCode + " " + reason);
  }

  // ---- header lines ----

  function HeaderLine(h: Header, v: seq<char>): seq<char> {
    Name(h) + ":" + (" " + (if ForceQuotes(h) then Quote(v) else v))
  }

  lemma WordsRegroup(a: seq<char>, b: seq<char>, c: seq<char>, d: seq<char>)
    ensures a + (b + c + d) == a + b + c + d
  {
  }

  lemma Quoted(v: seq<char>)
    ensures ": \"" + v + "\"\r\n" == ":" + (" " + Quote(v)) + "\r\n"
  {
  }

  lemma HeaderIsLine(h: Header, headers: map<Header, seq<char>>)
    requires h in headers
    ensures RenderHeader(h, headers) == HeaderLine(h, headers[h]) + "\r\n"
  {
    var v := headers[h];
    var value := if ForceQuotes(h) then Quote(v) else v;
    assert Opening(h) + v + Closing(h) == ":" + (" " + value) + "\r\n" by { Quoted(v); }
    WordsRegroup(Name(h), ":", " " + value, "\r\n");
  }

  /** Numbers are written as they are, any other value in quotes. */
  lemma HeaderIsWritten(h: Header, v: seq<char>)
    ensures RenderHeader(h, map[h := v])
         == if h in {Tran, MaxAge, Timeout} then Name(h) + (": " + v + "\r\n") else Name(h) + (": \"" + v + "\"\r\n")
  {
  }

  lemma HeaderIsOneLine(h: Header, v: seq<char>)
    requires NoCrLf(v)
    ensures NoCrLf(HeaderLine(h, v))
  {
    NoCrLfAppend(['"'], v);
    NoCrLfAppend(['"'] + v, ['"']);
    var value := if ForceQuotes(h) then Quote(v) else v;
    NoCrLfAppend(" ", value);
    NameIsOneLine(h);
    NoCrLfAppend(Name(h) + ":", " " + value);
  }

  lemma NameIsOneLine(h: Header)
    ensures NoCrLf(Name(h) + ":")
  {
    assert '\n' !in Name(h) && '\n' !in ":";
  }

  /** Header names differ even when case is ignored. */
  lemma NamesDiffer(g: Header, h: Header)
    requires EqNc(Name(g), Name(h))
    ensures g == h
  {
    assert |Name(g)| == |Name(h)|;
    assert Lower(Name(g)[0]) == Lower(Name(h)[0]) && Lower(Name(g)[1]) == Lower(Name(h)[1]);
  }

  lemma {:induction false} RecogniseNamed(name: seq<char>, h: Header, hs: seq<Header>)
    requires h in hs && EqNc(name, Name(h))
    ensures Recognise(name, hs) == Some(h)
  {
    if EqNc(name, Name(hs[0])) {
      assert EqNc(Name(h), Name(hs[0]));
      NamesDiffer(h, hs[0]);
    } else {
      RecogniseNamed(name, h, hs[1..]);
    }
  }

  /** A header's name may be spelled in any case. */
  lemma NameCaseIsIgnored(p: Packet, h: Header, name: seq<char>, l: seq<char>)
    requires EqNc(name, Name(h))
    ensures AddHeader(p, name + [':'] + l) == AddHeader(p, Name(h) + [':'] + l)
  {
    NoColon(h);
    assert ':' !in name by {
      forall i | 0 <= i < |name| ensures name[i] != ':' { assert Lower(name[i]) == Lower(Name(h)[i]); }
    }
    NamedLine(p, h, name, l);
    NamedLine(p, h, Name(h), l);
  }

  lemma NamedLine(p: Packet, h: Header, name: seq<char>, l: seq<char>)
    requires EqNc(name, Name(h)) && ':' !in name
    ensures AddHeader(p, name + [':'] + l)
         == Some(if h in p.headers then p else p.(headers := p.headers[h := HeaderValue(l)]))
  {
    SplitAt(name, ':', l);
    assert ([':'] + l)[1..] == l;
    AllHeaders(h);
    RecogniseNamed(name, h, HEADERS);
  }

  lemma NoColon(h: Header)
    ensures ':' !in Name(h)
  {
  }

  /** What is read of a header's line. */
  function Shown(h: Header, v: seq<char>): seq<char> {
    HeaderValue(" " + (if ForceQuotes(h) then Quote(v) else v))
  }

  lemma ShownIff(h: Header, v: seq<char>)
    ensures Shown(h, v) == v <==> ForceQuotes(h) || IsPlain(v)
  {
    if ForceQuotes(h) { QuotedValueRoundTrip(v); } else { PlainValueIff(v); }
  }

  lemma HeaderRoundTrip(p: Packet, h: Header, v: seq<char>)
    requires h !in p.headers
    ensures AddHeader(p, HeaderLine(h, v)) == Some(p.(headers := p.headers[h := Shown(h, v)]))
  {
    var value := " " + (if ForceQuotes(h) then Quote(v) else v);
    assert HeaderLine(h, v) == Name(h) + [':'] + value;
    NoColon(h);
    NamedLine(p, h, Name(h), value);
  }

  // ---- the packet ----

  /** The headers among `hs` that are present. */
  function Present(hs: seq<Header>, headers: map<Header, seq<char>>): map<Header, seq<char>> {
    map h | h in hs && h in headers :: headers[h]
  }

  /** What is read of the headers. */
  function ShownAll(headers: map<Header, seq<char>>): map<Header, seq<char>> {
    map h | h in headers :: Shown(h, headers[h])
  }

  lemma LinesStep(line: seq<char>, rest: seq<char>, p: Packet)
    requires line != [] && NoCrLf(line)
    ensures Lines(Some(line + "\r\n" + rest), p) ==
              match AddHeader(p, line)
              case None => None
              case Some(q) => Lines(Some(rest), q)
  {
    var s := line + "\r\n" + rest;
    LineRoundTrip(line, rest);
    assert s[..|line|] == line && s[|line| + 2..] == rest;
  }

  lemma BodyRoundTrip(p: Packet, body: Option<seq<char>>)
    requires p.body == None
    ensures Lines(Some(RenderBody(body)), p) == Some(p.(body := body))
  {
    if body.Some? {
      assert RenderBody(body)[..2] == "\r\n" && RenderBody(body)[2..] == body.value;
    }
  }

  lemma HeaderLineStep(h: Header, headers: map<Header, seq<char>>, rest: seq<char>, p: Packet)
    requires h in headers && NoCrLf(headers[h]) && h !in p.headers
    ensures Lines(Some(RenderHeader(h, headers) + rest), p)
         == Lines(Some(rest), p.(headers := p.headers[h := Shown(h, headers[h])]))
  {
    HeaderIsLine(h, headers);
    HeaderIsOneLine(h, headers[h]);
    LinesStep(HeaderLine(h, headers[h]), rest, p);
    HeaderRoundTrip(p, h, headers[h]);
  }

  lemma PresentStep(hs: seq<Header>, headers: map<Header, seq<char>>, seen: map<Header, seq<char>>)
    requires hs != [] && hs[0] !in hs[1..]
    ensures (if hs[0] in headers then seen[hs[0] := headers[hs[0]]] else seen) + Present(hs[1..], headers)
         == seen + Present(hs, headers)
  {
    var before := if hs[0] in headers then seen[hs[0] := headers[hs[0]]] else seen;
    assert forall h :: h in hs <==> h == hs[0] || h in hs[1..];
    assert (before + Present(hs[1..], headers)).Keys == (seen + Present(hs, headers)).Keys;
  }

  predicate Distinct(hs: seq<Header>) {
    forall i, j :: 0 <= i < j < |hs| ==> hs[i] != hs[j]
  }

  ghost predicate Unread(hs: seq<Header>, headers: map<Header, seq<char>>, p: Packet) {
    p.body == None && forall h :: h in hs && h in headers ==> NoCrLf(headers[h]) && h !in p.headers
  }

  function Read(h: Header, headers: map<Header, seq<char>>, p: Packet): Packet {
    if h in headers then p.(headers := p.headers[h := Shown(h, headers[h])]) else p
  }

  lemma RenderStep(hs: seq<Header>, headers: map<Header, seq<char>>, rest: seq<char>)
    requires hs != []
    ensures var more := RenderHeaders(hs[1..], headers) + rest;
            RenderHeaders(hs, headers) + rest == if hs[0] in headers then RenderHeader(hs[0], headers) + more else more
  {
    OneInFront(RenderHeader(hs[0], headers), RenderHeaders(hs[1..], headers), rest);
  }

  lemma OneInFront(x: seq<char>, y: seq<char>, z: seq<char>)
    ensures x + y + z == x + (y + z) && (x == [] ==> x + y + z == y + z)
  {
  }

  lemma HeadersStep(hs: seq<Header>, headers: map<Header, seq<char>>, rest: seq<char>, p: Packet)
    requires hs != [] && Unread(hs, headers, p)
    ensures Lines(Some(RenderHeaders(hs, headers) + rest), p)
         == Lines(Some(RenderHeaders(hs[1..], headers) + rest), Read(hs[0], headers, p))
  {
    var more := RenderHeaders(hs[1..], headers) + rest;
    RenderStep(hs, headers, rest);
    if hs[0] in headers {
      HeaderLineStep(hs[0], headers, more, p);
    }
  }

  lemma HeadersBase(headers: map<Header, seq<char>>, body: Option<seq<char>>, p: Packet)
    requires p.body == None
    ensures Lines(Some(RenderHeaders([], headers) + RenderBody(body)), p)
         == Some(Packet(p.head, p.headers + Present([], ShownAll(headers)), body))
  {
    BodyRoundTrip(p, body);
    NothingRendered(headers, RenderBody(body));
    NonePresent(p.headers, ShownAll(headers));
  }

  lemma NothingRendered(headers: map<Header, seq<char>>, rest: seq<char>)
    ensures RenderHeaders([], headers) + rest == rest
  {
  }

  lemma NonePresent(seen: map<Header, seq<char>>, headers: map<Header, seq<char>>)
    ensures seen + Present([], headers) == seen
  {
  }

  lemma {:induction false} HeadersRoundTrip(hs: seq<Header>, headers: map<Header, seq<char>>,
                                            body: Option<seq<char>>, p: Packet)
    requires Distinct(hs) && Unread(hs, headers, p)
    ensures Lines(Some(RenderHeaders(hs, headers) + RenderBody(body)), p)
         == Some(Packet(p.head, p.headers + Present(hs, ShownAll(headers)), body))
    decreases |hs|
  {
    if hs == [] {
      HeadersBase(headers, body, p);
    } else {
      HeadersStep(hs, headers, RenderBody(body), p);
      HeadersRoundTrip(hs[1..], headers, body, Read(hs[0], headers, p));
      PresentStep(hs, ShownAll(headers), p.headers);
    }
  }

  lemma BothSides(line: seq<char>, rest: seq<char>)
    ensures (line + "\r\n" + rest)[..|line|] == line && (line + "\r\n" + rest)[|line| + 2..] == rest
  {
  }

  lemma ParseStep(line: seq<char>, rest: seq<char>)
    requires line != [] && NoCrLf(line)
    ensures Parse(line + "\r\n" + rest)
         == match FirstLine(line, |rest| + 2)
            case None => None
            case Some(head) => Lines(Some(rest), Packet(head, map[], None))
  {
    LineRoundTrip(line, rest);
    BothSides(line, rest);
    ParseIs(line + "\r\n" + rest, |line|);
  }

  lemma DistinctHeaders()
    ensures Distinct(HEADERS)
  {
    forall i, j | 0 <= i < j < |HEADERS| ensures HEADERS[i] != HEADERS[j] {
      PositionAt(i);
      PositionAt(j);
    }
  }

  function Position(h: Header): nat {
    match h
    case Sender => 0
    case Host => 1
    case Tran => 2
    case MaxAge => 3
    case Type => 4
    case Timeout => 5
    case PrimaryProxy => 6
    case Proxies => 7
    case Manufacturer => 8
    case Model => 9
    case Driver => 10
    case ConfigUrl => 11
  }

  lemma PositionAt(i: nat)
    requires i < |HEADERS|
    ensures Position(HEADERS[i]) == i
  {
  }

  lemma AllPresent(headers: map<Header, seq<char>>)
    ensures map[] + Present(HEADERS, headers) == headers
  {
    forall h: Header ensures h in HEADERS { AllHeaders(h); }
  }

  lemma AllHeaders(h: Header)
    ensures h in HEADERS
  {
    assert HEADERS[Position(h)] == h;
  }

  /** The text behind the first line. */
  function RestText(p: Packet): seq<char> {
    RenderHeaders(HEADERS, p.headers) + RenderBody(p.body)
  }

  /** The first line as it parses, each header as its line shows it, and the body. */
  function ReadBack(p: Packet): Option<Packet>
    requires p.head != Unknown
  {
    match FirstLine(HeadLine(p.head), 2 + |RestText(p)|)
    case None => None
    case Some(h) => Some(Packet(h, ShownAll(p.headers), p.body))
  }

  /** That is what comes back of a packet whose fields have no line ends. */
  lemma OneLineFieldsReadBack(p: Packet)
    requires p.head != Unknown && IsOneLine(p.head) && forall h :: h in p.headers ==> NoCrLf(p.headers[h])
    ensures Parse(Render(p)) == ReadBack(p)
  {
    var line, rest := HeadLine(p.head), RestText(p);
    RenderIs(p);
    HeadIsOneLine(p.head);
    ParseStep(line, rest);
    var h := FirstLine(line, |rest| + 2);
    if h.Some? { RestReadBack(p, h.value); }
  }

  lemma RenderIs(p: Packet)
    requires p.head != Unknown
    ensures HeadLine(p.head) != [] && Render(p) == HeadLine(p.head) + "\r\n" + RestText(p)
  {
    HeadIsLine(p.head);
    assert RenderHead(p.head) + RenderHeaders(HEADERS, p.headers) + RenderBody(p.body) == RenderHead(p.head) + RestText(p);
  }

  lemma RestReadBack(p: Packet, h: Head)
    requires forall h :: h in p.headers ==> NoCrLf(p.headers[h])
    ensures Lines(Some(RestText(p)), Packet(h, map[], None)) == Some(Packet(h, ShownAll(p.headers), p.body))
  {
    DistinctHeaders();
    HeadersRoundTrip(HEADERS, p.headers, p.body, Packet(h, map[], None));
    AllPresent(ShownAll(p.headers));
  }

  /** Every well-formed packet comes back from its text, absent and empty fields told apart. */
  lemma PacketRoundTrip(p: Packet)
    requires IsPacket(p)
    ensures Parse(Render(p)) == Some(p)
  {
    OneLineFieldsReadBack(p);
    HeadLineRoundTrip(p.head, 2 + |RestText(p)|);
    AllShown(p.headers);
  }

  lemma AllShown(headers: map<Header, seq<char>>)
    requires forall h :: h in headers ==> IsHeaderValue(h, headers[h])
    ensures ShownAll(headers) == headers
  {
    forall h | h in headers ensures Shown(h, headers[h]) == headers[h] {
      assert IsHeaderValue(h, headers[h]);
      ShownIff(h, headers[h]);
    }
  }

  /** What the writer put into a buffer larger than its count, the parser reads back. */
  method WriteThenParse(p: Packet, bufferSize: nat) returns (n: nat, q: SddpPacket?)
    requires IsPacket(p) && IsCPacket(p)
    ensures n == 1 + |Render(p)| && (n < bufferSize ==> q != null && q.Value() == p)
  {
    var buffer := new char[bufferSize];
    n := WriteSDDPPacket(p, buffer, bufferSize);
    q := ParseSDDPPacket(CString(buffer[..]));
    PacketRoundTrip(p);
  }
}
