/** Only well-formed SDDP packets come back from their text. */
module SddpComesBack {
  import opened Wrappers
  import opened Text
  import opened SddpText
  import opened SddpParser
  import opened SddpWriter
  import opened SddpRoundTrip

  // ---- what is read of one line is on one line ----

  lemma SliceIsOneLine(l: seq<char>, i: nat, j: nat)
    requires NoCrLf(l) && i <= j <= |l|
    ensures NoCrLf(l[i..j])
  {
    forall n | 0 <= n < j - i - 1 ensures !(l[i..j][n] == '\r' && l[i..j][n + 1] == '\n') {
      assert l[i..j][n] == l[i + n] && l[i..j][n + 1] == l[i + n + 1];
    }
  }

  lemma WordsAreOneLine(l: seq<char>, c: char)
    requires NoCrLf(l)
    ensures NoCrLf(Before(l, c)) && NoCrLf(From(l, c))
  {
    BeforeFrom(l, c);
    PartsAreOneLine(l, Before(l, c), From(l, c));
  }

  lemma SkippedIsOneLine(l: seq<char>)
    requires NoCrLf(l)
    ensures NoCrLf(SkipBlanks(l))
  {
    var t := SkipBlanks(l);
    BlanksInFront(l);
    PartsAreOneLine(l, l[..|l| - |t|], t);
  }

  lemma PartsAreOneLine(l: seq<char>, x: seq<char>, y: seq<char>)
    requires NoCrLf(l) && x + y == l
    ensures NoCrLf(x) && NoCrLf(y)
  {
    assert l[0..|x|] == x && l[|x|..|l|] == y;
    SliceIsOneLine(l, 0, |x|);
    SliceIsOneLine(l, |x|, |l|);
  }

  lemma NextTokenIsOneLine(l: seq<char>)
    requires NoCrLf(l)
    ensures NoCrLf(Token(l)) && NoCrLf(NextToken(l))
  {
    WordsAreOneLine(l, ' ');
    SkippedIsOneLine(From(l, ' '));
  }

  lemma VersionIsOneLine(l: seq<char>)
    requires NoCrLf(l)
    ensures NoCrLf(VersionOf(l))
  {
    var t := SkipBlanks(l);
    if t != [] {
      SliceIsOneLine(l, 0, |l| - |From(t, ' ')|);
      assert l[0..|l| - |From(t, ' ')|] == VersionOf(l);
    }
  }

  lemma FirstLineIsOneLine(l: seq<char>, more: nat, h: Head)
    requires NoCrLf(l) && FirstLine(l, more) == Some(h)
    ensures IsOneLine(h)
  {
    var p := SkipBlanks(l);
    SkippedIsOneLine(l);
    if p != [] {
      var second := NextToken(p);
      var third := NextToken(second);
      NextTokenIsOneLine(p);
      NextTokenIsOneLine(second);
      if IsSddp(p) && |p| + more > 5 {
        SddpTokenLength(p);
        ResponseVersionIsOneLine(p, second);
      } else if |third| >= 5 {
        RequestVersionIsOneLine(third);
      }
    }
  }

  lemma RequestVersionIsOneLine(protocol: seq<char>)
    requires NoCrLf(protocol) && |protocol| >= 5
    ensures NoCrLf(VersionOf(protocol[5..]))
  {
    SliceIsOneLine(protocol, 5, |protocol|);
    assert protocol[5..|protocol|] == protocol[5..];
    VersionIsOneLine(protocol[5..]);
  }

  lemma ResponseVersionIsOneLine(p: seq<char>, status: seq<char>)
    requires NoCrLf(p) && |status| + 5 <= |p|
    ensures NoCrLf(VersionOf(SddpVersionText(p, status)))
  {
    SliceIsOneLine(p, 5, |p| - |status|);
    VersionIsOneLine(SddpVersionText(p, status));
  }

  lemma ValueIsOneLine(l: seq<char>)
    requires NoCrLf(l)
    ensures NoCrLf(HeaderValue(l))
  {
    var s := SkipBlanks(l);
    SkippedIsOneLine(l);
    var t := TrimRight(s);
    assert s[0..|t|] == t;
    SliceIsOneLine(s, 0, |t|);
    if QuoteWrapped(t) && |t| > 1 {
      SliceIsOneLine(t, 1, |t| - 1);
    }
  }

  ghost predicate HeadersAreOneLine(p: Packet) {
    forall h :: h in p.headers ==> NoCrLf(p.headers[h])
  }

  lemma AddedIsOneLine(p: Packet, l: seq<char>)
    requires NoCrLf(l) && HeadersAreOneLine(p)
    ensures var q := AddHeader(p, l); q.Some? ==> HeadersAreOneLine(q.value) && q.value.head == p.head
  {
    var v := From(l, ':');
    if v != [] {
      WordsAreOneLine(l, ':');
      PartsAreOneLine(v, [':'], v[1..]);
      ValueIsOneLine(v[1..]);
      AddedIs(p, l, v[1..]);
    }
  }

  lemma AddedIs(p: Packet, l: seq<char>, v: seq<char>)
    requires From(l, ':') == [':'] + v
    ensures var h := Recognise(Before(l, ':'), HEADERS);
            AddHeader(p, l) == Some(if h.None? || h.value in p.headers then p
                                    else p.(headers := p.headers[h.value := HeaderValue(v)]))
  {
  }

  lemma {:induction false} LineIsOneLine(s: seq<char>)
    ensures NoCrLf(s[..LineEnd(s)])
  {
    var n := LineEnd(s);
    if n > 0 {
      LineIsOneLine(s[1..]);
      assert s[..n][1..] == s[1..][..n - 1];
      forall i | 0 <= i < n - 1 ensures !(s[..n][i] == '\r' && s[..n][i + 1] == '\n') {
        if i == 0 {
          assert s[..2] == [s[0], s[1]];
        } else {
          assert s[..n][i] == s[1..][..n - 1][i - 1] && s[..n][i + 1] == s[1..][..n - 1][i];
        }
      }
    }
  }

  lemma {:induction false} LinesAreOneLine(text: Option<seq<char>>, p: Packet)
    requires HeadersAreOneLine(p)
    ensures var q := Lines(text, p); q.Some? ==> HeadersAreOneLine(q.value) && q.value.head == p.head
    decreases if text.None? then 0 else 1 + |text.value|
  {
    if text.Some? {
      var s := text.value;
      var n := LineEnd(s);
      LineIsOneLine(s);
      AddedIsOneLine(p, s[..n]);
      var q := AddHeader(p, s[..n]);
      if n > 0 && q.Some? { LinesAreOneLine(Behind(s, n), q.value); }
    }
  }

  /** No field of a parsed packet, but its body, has a line end. */
  lemma ParsedIsOneLine(s: seq<char>)
    ensures var p := Parse(s); p.Some? ==> FieldsAreOneLine(p.value)
  {
    var n := LineEnd(s);
    var h := FirstLine(s[..n], |s| - n);
    if n > 0 && h.Some? {
      ParseIs(s, n);
      FirstIsOneLine(s, n, h.value);
      BehindIsOneLine(Behind(s, n), h.value);
    }
  }

  ghost predicate FieldsAreOneLine(p: Packet) {
    IsOneLine(p.head) && HeadersAreOneLine(p)
  }

  lemma FirstIsOneLine(s: seq<char>, n: nat, h: Head)
    requires n == LineEnd(s) && FirstLine(s[..n], |s| - n) == Some(h)
    ensures IsOneLine(h)
  {
    LineIsOneLine(s);
    FirstLineIsOneLine(s[..n], |s| - n, h);
  }

  lemma BehindIsOneLine(rest: Option<seq<char>>, h: Head)
    requires IsOneLine(h)
    ensures var p := Lines(rest, Packet(h, map[], None)); p.Some? ==> FieldsAreOneLine(p.value)
  {
    LinesAreOneLine(rest, Packet(h, map[], None));
  }

  // ---- a first line that comes back ----

  lemma TokenHasNoSpace(l: seq<char>)
    ensures ' ' !in Token(l)
  {
  }

  /** What a first line with a verb, or with a protocol, parses to. */
  lemma RequestIs(l: seq<char>, more: nat)
    requires FirstLine(l, more).Some? && FirstLine(l, more).value.Request?
    ensures var p, h := SkipBlanks(l), FirstLine(l, more).value;
            && !(IsSddp(p) && |p| + more > 5) && |NextToken(NextToken(p))| >= 5
            && h == Request(Token(p), Token(NextToken(p)), VersionOf(NextToken(NextToken(p))[5..]))
  {
  }

  lemma ResponseIs(l: seq<char>, more: nat)
    requires FirstLine(l, more).Some? && FirstLine(l, more).value.Response?
    ensures var p, h := SkipBlanks(l), FirstLine(l, more).value;
            && |NextToken(p)| + 5 <= |p|
            && h == Response(Token(NextToken(p)), NextToken(NextToken(p)), VersionOf(SddpVersionText(p, NextToken(p))))
  {
    var p := SkipBlanks(l);
    if IsSddp(p) && |p| + more > 5 { ResponseFromIs(p); }
  }

  lemma ResponseFromIs(p: seq<char>)
    requires IsSddp(p) && ResponseFrom(p).Some?
    ensures |NextToken(p)| + 5 <= |p|
    ensures ResponseFrom(p).value
         == Response(Token(NextToken(p)), NextToken(NextToken(p)), VersionOf(SddpVersionText(p, NextToken(p))))
  {
    SddpTokenLength(p);
  }

  lemma SddpWord(verb: seq<char>, rest: seq<char>)
    requires IsSddp(verb)
    ensures IsSddp(verb + " " + rest)
  {
    assert (verb + " " + rest)[..5] == verb[..5];
  }

  lemma RequestComesBack(verb: seq<char>, argument: seq<char>, version: seq<char>, more: nat)
    requires verb != [] && argument != [] && version != []
    requires FirstLine(RequestLine(verb, argument, version), more) == Some(Request(verb, argument, version))
    ensures IsPacketHead(Request(verb, argument, version))
  {
    var protocol := "SDDP/" + version;
    var rest := argument + " " + protocol;
    var l := verb + " " + rest;
    RequestIs(l, more);
    TokenHasNoSpace(SkipBlanks(l));
    TokenHasNoSpace(NextToken(SkipBlanks(l)));
    SkipNothing(l);
    TokenRoundTrip(verb, rest);
    TokenRoundTrip(argument, protocol);
    SddpPrefix(version);
    VersionIff(version);
    if IsSddp(verb) { SddpWord(verb, rest); }
  }

  /** A version read with spaces in front has taken a token too many. */
  lemma SpacedVersion(version: seq<char>, rest: seq<char>)
    requires IsVersion(version) && version[0] == ' '
    ensures NextToken("SDDP/" + version + " " + rest) == SkipBlanks(version) + " " + rest
  {
    SpacedText(version, version[1..], " " + rest);
    SpacedLine(version, version[1..], rest);
    SpacedWords(SkipBlanks(version), rest);
    SplitAt("SDDP/", ' ', version[1..] + (" " + rest));
    SkipInFront(version, " " + rest);
  }

  lemma SpacedText(version: seq<char>, v: seq<char>, rest: seq<char>)
    requires version == [' '] + v
    ensures [' '] + (v + rest) == version + rest
  {
  }

  lemma SpacedLine(version: seq<char>, v: seq<char>, rest: seq<char>)
    requires version == [' '] + v
    ensures "SDDP/" + version + " " + rest == "SDDP/" + [' '] + (v + (" " + rest))
  {
  }

  lemma SpacedWords(version: seq<char>, rest: seq<char>)
    ensures version + (" " + rest) == version + " " + rest
  {
  }

  lemma {:induction false} SkipInFront(s: seq<char>, rest: seq<char>)
    requires SkipBlanks(s) != []
    ensures SkipBlanks(s + rest) == SkipBlanks(s) + rest
  {
    if s[0] == ' ' {
      assert (s + rest)[1..] == s[1..] + rest;
      SkipInFront(s[1..], rest);
    }
  }

  /** The version read is a token, with the spaces in front of it. */
  lemma VersionIsVersion(l: seq<char>)
    requires VersionOf(l) != []
    ensures IsVersion(VersionOf(l))
  {
    var t := SkipBlanks(l);
    var b, w := l[..|l| - |t|], Before(t, ' ');
    BlanksInFront(l);
    BeforeFrom(t, ' ');
    VersionParts(l, b, w, From(t, ' '));
    SkipFront(b, w);
  }

  lemma VersionParts(l: seq<char>, b: seq<char>, w: seq<char>, rest: seq<char>)
    requires SkipBlanks(l) == w + rest != [] && rest == From(w + rest, ' ') && l == b + (w + rest)
    ensures VersionOf(l) == b + w && w != [] && w[0] != ' '
  {
    assert (w + rest)[0] != ' ';
    assert l[..|l| - |rest|] == b + w;
  }

  lemma {:induction false} SkipFront(b: seq<char>, w: seq<char>)
    requires IsBlank(b) && w != [] && w[0] != ' '
    ensures SkipBlanks(b + w) == w
    decreases |b|
  {
    if b == [] {
      assert b + w == w;
    } else {
      assert (b + w)[1..] == b[1..] + w;
      SkipFront(b[1..], w);
    }
  }

  lemma ResponseComesBack(version: seq<char>, statusCode: seq<char>, reason: seq<char>, more: nat)
    requires version != [] && statusCode != [] && reason != []
    requires FirstLine(ResponseLine(version, statusCode, reason), more) == Some(Response(statusCode, reason, version))
    ensures IsPacketHead(Response(statusCode, reason, version))
  {
    var l, words := ResponseLine(version, statusCode, reason), statusCode + " " + reason;
    ResponseIs(l, more);
    SkipNothing(l);
    TokenHasNoSpace(NextToken(l));
    VersionIsVersion(SddpVersionText(l, NextToken(l)));
    if version[0] == ' ' {
      assert l == "SDDP/" + version + " " + words;
      SpacedVersion(version, words);
      TokenRoundTrip(SkipBlanks(version), words);
    } else {
      SkipNothing(version);
    }
  }

  /** A first line that can be written comes back iff it is well-formed. */
  lemma FirstLineIff(h: Head, more: nat)
    requires IsWritable(h)
    ensures FirstLine(HeadLine(h), more) == Some(h) <==> IsPacketHead(h)
  {
    if IsPacketHead(h) {
      HeadLineRoundTrip(h, more);
    }
    if FirstLine(HeadLine(h), more) == Some(h) {
      match h
      case Request(verb, argument, version) => RequestComesBack(verb, argument, version, more);
      case Response(statusCode, reason, version) => ResponseComesBack(version, statusCode, reason, more);
    }
  }

  /** A packet that can be written comes back from its text iff it is well-formed. */
  lemma PacketComesBackIff(p: Packet)
    requires IsWritable(p.head)
    ensures Parse(Render(p)) == Some(p) <==> IsPacket(p)
  {
    if IsPacket(p) {
      PacketRoundTrip(p);
    }
    if Parse(Render(p)) == Some(p) {
      ParsedFieldsAreOneLine(Render(p), p);
      OneLineFieldsReadBack(p);
      ReadBackIsPacket(p);
    }
  }

  lemma ParsedFieldsAreOneLine(s: seq<char>, p: Packet)
    requires Parse(s) == Some(p)
    ensures FieldsAreOneLine(p)
  {
    ParsedIsOneLine(s);
  }

  lemma ReadBackIsPacket(p: Packet)
    requires IsWritable(p.head) && FieldsAreOneLine(p) && ReadBack(p) == Some(p)
    ensures IsPacket(p)
  {
    ReadBackSame(p);
    FirstLineIff(p.head, 2 + |RestText(p)|);
    forall h | h in p.headers ensures IsHeaderValue(h, p.headers[h]) {
      ShownSame(p.headers, h);
    }
  }

  lemma ReadBackSame(p: Packet)
    requires p.head != Unknown && ReadBack(p) == Some(p)
    ensures FirstLine(HeadLine(p.head), 2 + |RestText(p)|) == Some(p.head) && ShownAll(p.headers) == p.headers
  {
  }

  lemma ShownSame(headers: map<Header, seq<char>>, h: Header)
    requires h in headers && ShownAll(headers) == headers
    ensures ForceQuotes(h) || IsPlain(headers[h])
  {
    assert ShownAll(headers)[h] == Shown(h, headers[h]);
    ShownIff(h, headers[h]);
  }
}
