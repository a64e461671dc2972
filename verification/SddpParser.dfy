/** The SDDP packet parser. */
module SddpParser {
  import opened Wrappers
  import opened Text
  import opened SddpText

  datatype Head =
    | Unknown
    | Request(verb: seq<char>, argument: seq<char>, version: seq<char>)
    | Response(statusCode: seq<char>, reason: seq<char>, version: seq<char>)

  datatype Header =
    | Sender | Host | Tran | MaxAge | Type | Timeout
    | PrimaryProxy | Proxies | Manufacturer | Model | Driver | ConfigUrl

  /** The headers in the order they are written. */
  const HEADERS: seq<Header> :=
    [Sender, Host, Tran, MaxAge, Type, Timeout, PrimaryProxy, Proxies, Manufacturer, Model, Driver, ConfigUrl]

  function Name(h: Header): seq<char> {
    match h
    case Sender => "From"
    case Host => "Host"
    case Tran => "Tran"
    case MaxAge => "Max-Age"
    case Type => "Type"
    case Timeout => "Timeout"
    case PrimaryProxy => "Primary-Proxy"
    case Proxies => "Proxies"
    case Manufacturer => "Manufacturer"
    case Model => "Model"
    case Driver => "Driver"
    case ConfigUrl => "Config-URL"
  }

  /** A packet; an absent header or body is a NULL pointer, not an empty string. */
  datatype Packet = Packet(head: Head, headers: map<Header, seq<char>>, body: Option<seq<char>>)

  // ---- specification ----

  /** The first of `hs` with the name, up to case. */
  function Recognise(name: seq<char>, hs: seq<Header>): Option<Header> {
    if hs == [] then None
    else if EqNc(name, Name(hs[0])) then Some(hs[0])
    else Recognise(name, hs[1..])
  }

  predicate IsSddp(l: seq<char>) {
    |l| >= 5 && l[..5] == "SDDP/"
  }

  /** The version text: leading spaces stay, and it ends with the first token. */
  function VersionOf(l: seq<char>): seq<char> {
    var t := SkipBlanks(l);
    if t == [] then [] else l[..|l| - |From(t, ' ')|]
  }

  /** A protocol token has at least the five characters of its prefix. */
  lemma SddpTokenLength(p: seq<char>)
    requires IsSddp(p)
    ensures |NextToken(p)| + 5 <= |p|
  {
    assert p[0] == p[..5][0] && p[1] == p[..5][1] && p[2] == p[..5][2] && p[3] == p[..5][3] && p[4] == p[..5][4];
    FromSkips(p, 5);
  }

  lemma {:induction false} FromSkips(p: seq<char>, n: nat)
    requires n <= |p| && forall i :: 0 <= i < n ==> p[i] != ' '
    ensures |From(p, ' ')| + n <= |p|
  {
    if n > 0 {
      FromSkips(p[1..], n - 1);
    }
  }

  /** The first line `l`, with `more` characters behind it: the protocol is measured to the end
      of the whole text, not of the line. */
  function FirstLine(l: seq<char>, more: nat): Option<Head> {
    var p := SkipBlanks(l);
    if p == [] then None
    else if IsSddp(p) && |p| + more > 5 then ResponseFrom(p)
    else RequestFrom(p, more)
  }

  function ResponseFrom(p: seq<char>): Option<Head>
    requires IsSddp(p)
  {
    var status := NextToken(p);
    SddpTokenLength(p);
    if status == [] then None
    else
      var reason := NextToken(status);
      if reason == [] then None
      else Some(Response(Token(status), reason, VersionOf(SddpVersionText(p, status))))
  }

  function RequestFrom(p: seq<char>, more: nat): Option<Head> {
    var argument := NextToken(p);
    if argument == [] then None
    else
      var protocol := NextToken(argument);
      if IsSddp(protocol) && |protocol| + more > 5 then
        Some(Request(Token(p), Token(argument), VersionOf(protocol[5..])))
      else None
  }

  /** The text between the protocol prefix and the status code. */
  function SddpVersionText(p: seq<char>, status: seq<char>): seq<char>
    requires 5 + |status| <= |p|
  {
    p[5..|p| - |status|]
  }

  /** One header line: the first header of a name counts, unknown names are ignored, and a line
      without a colon is an error. */
  function AddHeader(p: Packet, l: seq<char>): Option<Packet> {
    var v := From(l, ':');
    if v == [] then None
    else
      match Recognise(Before(l, ':'), HEADERS)
      case None => Some(p)
      case Some(h) => Some(if h in p.headers then p else p.(headers := p.headers[h := HeaderValue(v[1..])]))
  }

  /** The text behind a line of length `n`, if the line ended with CRLF. */
  function Behind(s: seq<char>, n: nat): (r: Option<seq<char>>)
    ensures r.Some? ==> |r.value| < |s|
  {
    if n + 2 <= |s| then Some(s[n + 2..]) else None
  }

  /** The lines behind the first: an empty one ends the headers, and only if it is terminated
      is there a body. */
  function Lines(text: Option<seq<char>>, p: Packet): Option<Packet>
    decreases if text.None? then 0 else 1 + |text.value|
  {
    match text
    case None => Some(p)
    case Some(s) =>
      var n := LineEnd(s);
      if n == 0 then Some(p.(body := if Behind(s, 0).Some? then Behind(s, 0) else p.body))
      else
        match AddHeader(p, s[..n])
        case None => None
        case Some(q) => Lines(Behind(s, n), q)
  }

  function Parse(s: seq<char>): Option<Packet> {
    var n := LineEnd(s);
    if n == 0 then None
    else
      match FirstLine(s[..n], |s| - n)
      case None => None
      case Some(head) => Lines(Behind(s, n), Packet(head, map[], None))
  }

  // ---- the parser ----

  class SddpPacket {
    var head: Head
    var headers: map<Header, seq<char>>
    var body: Option<seq<char>>

    ghost function Value(): Packet
      reads this
    {
      Packet(head, headers, body)
    }

    constructor (h: Head)
      ensures Value() == Packet(h, map[], None)
    {
      head, headers, body := h, map[], None;
    }

    /** parseHeaderLine on the line of `s` between two pointers. */
    method ParseHeaderLine(s: seq<char>, line: nat, lineEnd: nat) returns (ok: bool)
      requires line <= lineEnd <= |s|
      modifies this`headers
      ensures match AddHeader(old(Value()), s[line..lineEnd])
              case None => !ok && Value() == old(Value())
              case Some(p) => ok && Value() == p
    {
      var colon := FindColon(s, line, lineEnd);
      if colon == lineEnd {
        return false;
      }
      var value := ValueAt(s, colon, lineEnd);
      var h := RecogniseName(s[line..colon], HEADERS);
      if h.Some? && h.value !in headers {
        headers := headers[h.value := value];
      }
      ok := true;
    }
  }

  /** The value behind a colon; nothing but spaces is the empty value. */
  method ValueAt(s: seq<char>, colon: nat, lineEnd: nat) returns (value: seq<char>)
    requires colon < lineEnd <= |s|
    ensures value == HeaderValue(s[colon..lineEnd][1..])
  {
    var start := SkipSpacesFrom(s, colon + 1, lineEnd);
    assert s[colon..lineEnd][1..] == s[colon + 1..lineEnd];
    value := [];
    if start.Some? {
      value := DupValue(s, start.value, lineEnd);
    }
  }

  method FindColon(s: seq<char>, line: nat, lineEnd: nat) returns (colon: nat)
    requires line <= lineEnd <= |s|
    ensures line <= colon <= lineEnd
    ensures s[colon..lineEnd] == From(s[line..lineEnd], ':') && s[line..colon] == Before(s[line..lineEnd], ':')
  {
    colon := line;
    while colon < lineEnd && s[colon] != ':'
      invariant line <= colon <= lineEnd && forall k :: line <= k < colon ==> s[k] != ':'
    {
      colon := colon + 1;
    }
    BeforeIn(s, line, colon, lineEnd, ':');
  }

  method RecogniseName(name: seq<char>, hs: seq<Header>) returns (h: Option<Header>)
    ensures h == Recognise(name, hs)
  {
    var i := 0;
    while i < |hs|
      invariant i <= |hs| && Recognise(name, hs) == Recognise(name, hs[i..])
    {
      var eq := StrEqNc(name, Name(hs[i]));
      if eq {
        return Some(hs[i]);
      }
      i := i + 1;
    }
    h := None;
  }

  /** strncmp(protocol, "SDDP/", 5) == 0 and strlen(protocol) > 5. */
  method HasSddpPrefix(s: seq<char>, protocol: nat, lineEnd: nat) returns (yes: bool)
    requires protocol <= lineEnd <= |s| && (lineEnd < |s| ==> s[lineEnd] == '\r')
    ensures yes == (IsSddp(s[protocol..lineEnd]) && lineEnd - protocol + (|s| - lineEnd) > 5)
  {
    yes := protocol + 5 < |s| && s[protocol..protocol + 5] == "SDDP/";
    SddpPrefixAt(s, protocol, lineEnd);
  }

  /** The prefix cannot reach over the end of the line. */
  lemma SddpPrefixAt(s: seq<char>, p: nat, e: nat)
    requires p <= e <= |s| && (e < |s| ==> s[e] == '\r')
    ensures IsSddp(s[p..e]) <==> p + 5 <= |s| && s[p..p + 5] == "SDDP/"
  {
    if p + 5 <= e {
      assert s[p..e][..5] == s[p..p + 5];
    } else if p + 5 <= |s| {
      assert s[p..p + 5][e - p] == s[e];
    }
  }

  lemma VersionIs(l: seq<char>, v: seq<char>, rest: seq<char>)
    requires l == v + rest && SkipBlanks(l) != [] && rest == From(SkipBlanks(l), ' ')
    ensures VersionOf(l) == v
  {
  }

  lemma SliceParts(s: seq<char>, a: nat, b: nat, c: nat)
    requires a <= b <= c <= |s|
    ensures s[a..c] == s[a..b] + s[b..c]
  {
  }

  lemma VersionAt(s: seq<char>, start: nat, end: nat, lineEnd: nat)
    requires start <= end <= lineEnd <= |s|
    requires var t := SkipBlanks(s[start..lineEnd]); t != [] && s[end..lineEnd] == From(t, ' ')
    ensures VersionOf(s[start..lineEnd]) == s[start..end]
  {
    SliceParts(s, start, end, lineEnd);
    VersionIs(s[start..lineEnd], s[start..end], s[end..lineEnd]);
  }

  method DupVersion(s: seq<char>, start: nat, lineEnd: nat) returns (v: seq<char>)
    requires start <= lineEnd <= |s|
    ensures v == VersionOf(s[start..lineEnd])
  {
    var end := SkipTokenFrom(s, start, lineEnd);
    if end == None {
      return [];
    }
    v := s[start..end.value];
    VersionAt(s, start, end.value, lineEnd);
  }

  method ParseResponseLine(s: seq<char>, protocol: nat, lineEnd: nat) returns (head: Option<Head>)
    requires protocol + 5 <= lineEnd <= |s| && IsSddp(s[protocol..lineEnd]) && s[protocol] != ' '
    ensures head == ResponseFrom(s[protocol..lineEnd])
  {
    ghost var p := s[protocol..lineEnd];
    SddpTokenLength(p);
    var status := FindNextToken(s, protocol, lineEnd);
    if status == None {
      return None;
    }
    var reason := FindNextToken(s, status.value, lineEnd);
    if reason == None {
      return None;
    }
    var code := DupToken(s, status.value, lineEnd);
    assert |p| - |NextToken(p)| == status.value - protocol;
    SliceOfSlice(s, protocol, lineEnd, 5, status.value - protocol);
    assert SddpVersionText(p, NextToken(p)) == s[protocol + 5..status.value];
    var version := DupVersion(s, protocol + 5, status.value);
    head := Some(Response(code, s[reason.value..lineEnd], version));
  }

  method ParseRequestLine(s: seq<char>, verb: nat, lineEnd: nat) returns (head: Option<Head>)
    requires verb < lineEnd <= |s| && s[verb] != ' ' && (lineEnd < |s| ==> s[lineEnd] == '\r')
    ensures head == RequestFrom(s[verb..lineEnd], |s| - lineEnd)
  {
    var argument := FindNextToken(s, verb, lineEnd);
    if argument == None {
      return None;
    }
    var protocol := FindNextToken(s, argument.value, lineEnd);
    if protocol == None {
      return None;
    }
    var yes := HasSddpPrefix(s, protocol.value, lineEnd);
    if !yes {
      return None;
    }
    var h := RequestAt(s, verb, argument.value, protocol.value, lineEnd);
    head := Some(h);
  }

  method RequestAt(s: seq<char>, verb: nat, argument: nat, protocol: nat, lineEnd: nat) returns (head: Head)
    requires verb < lineEnd <= |s| && s[verb] != ' ' && argument < lineEnd && s[argument] != ' '
    requires protocol + 5 <= lineEnd
    ensures head == Request(Token(s[verb..lineEnd]), Token(s[argument..lineEnd]), VersionOf(s[protocol..lineEnd][5..]))
  {
    var m := DupToken(s, verb, lineEnd);
    var a := DupToken(s, argument, lineEnd);
    assert s[protocol..lineEnd][5..] == s[protocol + 5..lineEnd];
    var version := DupVersion(s, protocol + 5, lineEnd);
    head := Request(m, a, version);
  }

  /** parseFirstLine: a first token that looks like a protocol makes the line a response. */
  method ParseFirstLine(s: seq<char>, line: nat, lineEnd: nat) returns (head: Option<Head>)
    requires line <= lineEnd <= |s| && (lineEnd < |s| ==> s[lineEnd] == '\r')
    ensures head == FirstLine(s[line..lineEnd], |s| - lineEnd)
  {
    var first := SkipSpacesFrom(s, line, lineEnd);
    if first == None {
      return None;
    }
    var yes := HasSddpPrefix(s, first.value, lineEnd);
    if yes {
      head := ParseResponseLine(s, first.value, lineEnd);
    } else {
      head := ParseRequestLine(s, first.value, lineEnd);
    }
  }

  /** The text from the next line on, if there is one. */
  function TextAt(s: seq<char>, next: Option<nat>): Option<seq<char>>
    requires next.Some? ==> next.value <= |s|
  {
    if next.Some? then Some(s[next.value..]) else None
  }

  /** Where the line behind the one that ends at `lineEnd` starts. */
  function NextLine(s: seq<char>, lineEnd: nat): Option<nat> {
    if lineEnd < |s| then Some(lineEnd + 2) else None
  }

  method ParseHeaderAt(packet: SddpPacket, s: seq<char>, p: nat, lineEnd: nat) returns (ok: bool, next: Option<nat>)
    requires p < lineEnd <= |s| && lineEnd == p + LineEnd(s[p..])
    modifies packet
    ensures next.Some? ==> p < next.value <= |s|
    ensures Lines(Some(s[p..]), old(packet.Value())) == if ok then Lines(TextAt(s, next), packet.Value()) else None
  {
    ghost var before := packet.Value();
    next := NextLine(s, lineEnd);
    ok := packet.ParseHeaderLine(s, p, lineEnd);
    HeaderTaken(s, p, lineEnd, before, ok, packet.Value(), next);
  }

  method ParseBody(packet: SddpPacket, s: seq<char>, p: nat)
    requires p <= |s| && LineEnd(s[p..]) == 0
    modifies packet
    ensures Lines(Some(s[p..]), old(packet.Value())) == Some(packet.Value())
  {
    LinesStop(s, p, packet.Value());
    if p + 2 <= |s| {
      packet.body := Some(s[p + 2..]);
    }
  }

  /** One line behind the first: where the next one starts, if there is one. */
  method ParseLine(packet: SddpPacket, s: seq<char>, p: nat) returns (ok: bool, next: Option<nat>)
    requires p <= |s|
    modifies packet
    ensures next.Some? ==> p < next.value <= |s|
    ensures Lines(Some(s[p..]), old(packet.Value())) == if ok then Lines(TextAt(s, next), packet.Value()) else None
  {
    var lineEnd := FindLineEnd(s, p);
    if lineEnd == p {
      ParseBody(packet, s, p);
      ok, next := true, None;
    } else {
      ok, next := ParseHeaderAt(packet, s, p, lineEnd);
    }
  }

  /** The lines behind the first, from `line` on. */
  method ParseLines(packet: SddpPacket, s: seq<char>, line: nat) returns (ok: bool)
    requires line <= |s|
    modifies packet
    ensures match Lines(Some(s[line..]), old(packet.Value()))
            case None => !ok
            case Some(p) => ok && packet.Value() == p
  {
    ghost var all := Lines(Some(s[line..]), packet.Value());
    var next;
    ok, next := ParseLine(packet, s, line);
    while ok && next != None
      invariant next.Some? ==> next.value <= |s|
      invariant all == if ok then Lines(TextAt(s, next), packet.Value()) else None
      decreases if next == None then 0 else 1 + |s| - next.value
    {
      ok, next := ParseLine(packet, s, next.value);
    }
  }

  lemma LinesStop(s: seq<char>, p: nat, packet: Packet)
    requires p <= |s| && LineEnd(s[p..]) == 0
    ensures Lines(Some(s[p..]), packet) == Some(packet.(body := if p + 2 <= |s| then Some(s[p + 2..]) else packet.body))
  {
    assert p + 2 <= |s| ==> s[p..][2..] == s[p + 2..];
  }

  /** The line at `p` and the text behind it. */
  lemma LinesNext(s: seq<char>, p: nat, lineEnd: nat, next: Option<nat>, packet: Packet)
    requires p < lineEnd <= |s| && lineEnd == p + LineEnd(s[p..])
    requires next == NextLine(s, lineEnd)
    ensures next.Some? ==> next.value <= |s|
    ensures Lines(Some(s[p..]), packet) ==
              match AddHeader(packet, s[p..lineEnd])
              case None => None
              case Some(q) => Lines(TextAt(s, next), q)
  {
    assert s[p..][..lineEnd - p] == s[p..lineEnd];
    BehindAt(s, p, lineEnd, next);
    LinesAre(s[p..], lineEnd - p, packet);
  }

  lemma BehindAt(s: seq<char>, p: nat, lineEnd: nat, next: Option<nat>)
    requires p <= lineEnd <= |s| && lineEnd == p + LineEnd(s[p..])
    requires next == NextLine(s, lineEnd)
    ensures next.Some? ==> next.value <= |s|
    ensures Behind(s[p..], lineEnd - p) == TextAt(s, next)
  {
    if lineEnd < |s| {
      assert s[p..][lineEnd - p + 2..] == s[lineEnd + 2..];
    }
  }

  lemma LinesAre(t: seq<char>, n: nat, packet: Packet)
    requires 0 < n == LineEnd(t)
    ensures Lines(Some(t), packet) ==
              match AddHeader(packet, t[..n])
              case None => None
              case Some(q) => Lines(Behind(t, n), q)
  {
  }

  /** A header line is taken into the packet, or ends the parse. */
  lemma HeaderTaken(s: seq<char>, p: nat, lineEnd: nat, before: Packet, ok: bool, after: Packet, next: Option<nat>)
    requires p < lineEnd <= |s| && lineEnd == p + LineEnd(s[p..])
    requires match AddHeader(before, s[p..lineEnd])
             case None => !ok && after == before
             case Some(q) => ok && after == q
    requires next == NextLine(s, lineEnd)
    ensures next.Some? ==> p < next.value <= |s|
    ensures Lines(Some(s[p..]), before) == if ok then Lines(TextAt(s, next), after) else None
  {
    LinesNext(s, p, lineEnd, next, before);
  }

  method ParseHeaders(head: Head, s: seq<char>, lineEnd: nat) returns (packet: SddpPacket?)
    requires lineEnd == |s| || lineEnd + 2 <= |s|
    ensures match Lines(TextAt(s, NextLine(s, lineEnd)), Packet(head, map[], None))
            case None => packet == null
            case Some(p) => packet != null && fresh(packet) && packet.Value() == p
  {
    packet := new SddpPacket(head);
    if lineEnd < |s| {
      assert TextAt(s, NextLine(s, lineEnd)) == Some(s[lineEnd + 2..]);
      var ok := ParseLines(packet, s, lineEnd + 2);
      if !ok {
        packet := null;
      }
    }
  }

  lemma ParseAt(s: seq<char>, lineEnd: nat)
    requires lineEnd == LineEnd(s[0..])
    ensures lineEnd <= |s| && (lineEnd < |s| ==> s[lineEnd] == '\r' && lineEnd + 2 <= |s|)
    ensures Parse(s) ==
              if lineEnd == 0 then None
              else match FirstLine(s[0..lineEnd], |s| - lineEnd)
                   case None => None
                   case Some(head) => Lines(TextAt(s, NextLine(s, lineEnd)), Packet(head, map[], None))
  {
    WholeText(s, lineEnd);
    BehindAt(s, 0, lineEnd, NextLine(s, lineEnd));
    if lineEnd < |s| { LineEndIsReturn(s, lineEnd); }
    if lineEnd > 0 { ParseIs(s, lineEnd); }
  }

  lemma ParseIs(s: seq<char>, n: nat)
    requires 0 < n == LineEnd(s)
    ensures Parse(s) == match FirstLine(s[..n], |s| - n)
                        case None => None
                        case Some(head) => Lines(Behind(s, n), Packet(head, map[], None))
  {
  }

  lemma WholeText(s: seq<char>, n: nat)
    requires n <= |s|
    ensures s[0..] == s && s[0..n] == s[..n]
  {
  }

  lemma LineEndIsReturn(s: seq<char>, n: nat)
    requires n == LineEnd(s) && n < |s|
    ensures s[n] == '\r' && n + 2 <= |s|
  {
    assert s[n] == s[n..n + 2][0];
  }

  /** ParseSDDPPacket on the C string `s`; null when it is not a packet. */
  method ParseSDDPPacket(s: seq<char>) returns (packet: SddpPacket?)
    ensures match Parse(s)
            case None => packet == null
            case Some(p) => packet != null && fresh(packet) && packet.Value() == p
  {
    var lineEnd := FindLineEnd(s, 0);
    ParseAt(s, lineEnd);
    packet := null;
    if lineEnd > 0 {
      var head := ParseFirstLine(s, 0, lineEnd);
      if head.Some? {
        packet := ParseHeaders(head.value, s, lineEnd);
      }
    }
  }
}
