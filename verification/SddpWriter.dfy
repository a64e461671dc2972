/** The SDDP packet writer, into a bounded buffer. */
module SddpWriter {
  import opened Wrappers
  import opened Text
  import opened SddpParser

  // ---- the text a packet stands for ----

  function ForceQuotes(h: Header): bool {
    h !in {Tran, MaxAge, Timeout}
  }

  function Opening(h: Header): seq<char> {
    if ForceQuotes(h) then ": \"" else ": "
  }

  function Closing(h: Header): seq<char> {
    if ForceQuotes(h) then "\"\r\n" else "\r\n"
  }

  function RenderHeader(h: Header, headers: map<Header, seq<char>>): seq<char> {
    if h in headers then Name(h) + (Opening(h) + headers[h] + Closing(h)) else []
  }

  function RenderHeaders(hs: seq<Header>, headers: map<Header, seq<char>>): seq<char> {
    if hs == [] then [] else RenderHeader(hs[0], headers) + RenderHeaders(hs[1..], headers)
  }

  function RenderHead(h: Head): seq<char> {
    match h
    case Unknown => []
    case Request(verb, argument, version) => (verb + " " + argument) + (" SDDP/" + version + "\r\n")
    case Response(statusCode, reason, version) =>
      ("SDDP/" + version + " ") + (statusCode + " " + reason) + "\r\n"
  }

  function RenderBody(body: Option<seq<char>>): seq<char> {
    if body.Some? then "\r\n" + body.value else []
  }

  function Render(p: Packet): seq<char> {
    RenderHead(p.head) + RenderHeaders(HEADERS, p.headers) + RenderBody(p.body)
  }

  /** A packet whose first line can be written. */
  predicate IsWritable(h: Head) {
    match h
    case Unknown => false
    case Request(verb, argument, version) => verb != [] && argument != [] && version != []
    case Response(statusCode, reason, version) => statusCode != [] && reason != [] && version != []
  }

  /** Every field is a C string. */
  predicate IsCPacket(p: Packet) {
    && (match p.head
        case Unknown => true
        case Request(verb, argument, version) => NUL !in verb && NUL !in argument && NUL !in version
        case Response(statusCode, reason, version) => NUL !in statusCode && NUL !in reason && NUL !in version)
    && (forall h :: h in p.headers ==> NUL !in p.headers[h])
    && (p.body.Some? ==> NUL !in p.body.value)
  }

  // ---- the bounded buffer ----

  /** What the buffer holds of the text offered so far: nothing is added once the count has
      reached the size, so it is always a prefix, and whole only below the size. */
  ghost predicate Holds(text: seq<char>, full: seq<char>, size: nat) {
    && text <= full
    && (1 + |full| < size ==> text == full)
    && (1 + |full| >= size ==> full == [] || |text| < |full|)
  }

  lemma HoldsNext(text: seq<char>, full: seq<char>, size: nat, str: seq<char>)
    requires Holds(text, full, size)
    ensures Holds(if size > 1 + |full + str| then text + str else text, full + str, size)
    ensures size > 1 + |full + str| ==> text == full && |text + str| < size
  {
  }

  /** A buffer that text is appended to while it fits, and a count that goes on past its end. */
  class OutBuffer {
    const data: array?<char>
    const bufferSize: nat
    var written: nat
    /** The C string in the buffer, and all the text offered so far. */
    ghost var text: seq<char>
    ghost var full: seq<char>

    ghost predicate Terminated()
      reads this, data
    {
      data != null && |text| < data.Length && data[..|text|] == text && data[|text|] == NUL && NUL !in text
    }

    ghost predicate Valid()
      reads this, data
    {
      && written == 1 + |full|
      && (data != null && bufferSize > 0 ==>
           data.Length == bufferSize && Terminated() && Holds(text, full, bufferSize))
    }

    constructor (buffer: array?<char>, size: nat)
      requires buffer != null ==> buffer.Length == size
      modifies buffer
      ensures Valid() && full == [] && data == buffer && bufferSize == size
    {
      data, bufferSize, written, full, text := buffer, size, 1, [], [];
      new;
      if buffer != null && size > 0 {
        buffer[0] := NUL;
      }
    }

    /** Where the text in the buffer ends. */
    method Length() returns (n: nat)
      requires Terminated()
      ensures n == |text|
    {
      n := 0;
      while data[n] != NUL
        invariant n <= |text|
        decreases |text| - n
      {
        assert n < |text| ==> data[n] == text[n];
        n := n + 1;
      }
      assert data[..|text|] == text;
    }

    /** strcat. */
    method StrCat(str: seq<char>)
      requires Terminated() && NUL !in str && |text| + |str| < data.Length
      modifies data, this`text
      ensures Terminated() && text == old(text) + str
    {
      var n := Length();
      forall i | 0 <= i < |str| {
        data[n + i] := str[i];
      }
      data[n + |str|] := NUL;
      assert data[..n] == text && data[n..n + |str|] == str;
      text := text + str;
      assert data[..n + |str|] == text;
    }

    /** writeBuffer: nothing is appended once the count has reached the size. */
    method Write(str: seq<char>)
      requires Valid() && NUL !in str
      modifies this, data
      ensures Valid() && full == old(full) + str
    {
      HoldsOnNext(str);
      written := written + |str|;
      if data != null && bufferSize > written {
        StrCat(str);
      }
      full := full + str;
    }

    lemma HoldsOnNext(str: seq<char>)
      requires Valid()
      ensures data != null && bufferSize > 0 ==>
                && Holds(if bufferSize > written + |str| then text + str else text, full + str, bufferSize)
                && (bufferSize > written + |str| ==> |text + str| < bufferSize)
    {
      if data != null && bufferSize > 0 {
        HoldsNext(text, full, bufferSize, str);
      }
    }

    method WriteThree(a: seq<char>, b: seq<char>, c: seq<char>)
      requires Valid() && NUL !in a && NUL !in b && NUL !in c
      modifies this, data
      ensures Valid() && full == old(full) + (a + b + c)
    {
      Write(a);
      Write(b);
      Write(c);
    }

    lemma NamesAreCStrings(h: Header)
      ensures NUL !in Name(h) && NUL !in Opening(h) && NUL !in Closing(h)
    {
    }

    /** writeHeader: an absent header writes nothing, an empty one does. */
    method WriteHeader(h: Header, headers: map<Header, seq<char>>)
      requires Valid() && (h in headers ==> NUL !in headers[h])
      modifies this, data
      ensures Valid() && full == old(full) + RenderHeader(h, headers)
    {
      if h in headers {
        NamesAreCStrings(h);
        ghost var before := full;
        Write(Name(h));
        WriteThree(Opening(h), headers[h], Closing(h));
        Regroup(before, Name(h), Opening(h) + headers[h] + Closing(h));
      } else {
        NothingAdded(full);
      }
    }

    lemma Regroup(x: seq<char>, y: seq<char>, z: seq<char>)
      ensures x + y + z == x + (y + z)
    {
    }

    lemma NothingAdded(x: seq<char>)
      ensures x + [] == x
    {
    }

    method WriteHead(h: Head)
      requires Valid() && IsCPacket(Packet(h, map[], None))
      modifies this, data
      ensures Valid() && full == old(full) + RenderHead(h)
    {
      match h
      case Unknown => NothingAdded(full);
      case Request(verb, argument, version) => WriteRequest(verb, argument, version);
      case Response(statusCode, reason, version) => WriteResponse(statusCode, reason, version);
    }

    method WriteRequest(verb: seq<char>, argument: seq<char>, version: seq<char>)
      requires Valid() && NUL !in verb && NUL !in argument && NUL !in version
      modifies this, data
      ensures Valid() && full == old(full) + RenderHead(Request(verb, argument, version))
    {
      ghost var before := full;
      WriteThree(verb, " ", argument);
      WriteThree(" SDDP/", version, "\r\n");
      Regroup(before, verb + " " + argument, " SDDP/" + version + "\r\n");
    }

    method WriteResponse(statusCode: seq<char>, reason: seq<char>, version: seq<char>)
      requires Valid() && NUL !in statusCode && NUL !in reason && NUL !in version
      modifies this, data
      ensures Valid() && full == old(full) + RenderHead(Response(statusCode, reason, version))
    {
      ghost var before := full;
      WriteThree("SDDP/", version, " ");
      WriteThree(statusCode, " ", reason);
      Write("\r\n");
      Regroup(before, "SDDP/" + version + " ", statusCode + " " + reason);
      Regroup(before, ("SDDP/" + version + " ") + (statusCode + " " + reason), "\r\n");
    }

    method WriteBody(body: Option<seq<char>>)
      requires Valid() && (body.Some? ==> NUL !in body.value)
      modifies this, data
      ensures Valid() && full == old(full) + RenderBody(body)
    {
      if body.Some? {
        Write("\r\n");
        Write(body.value);
      }
    }

    method WritePacket(p: Packet, hs: seq<Header>)
      requires Valid() && IsCPacket(p)
      modifies this, data
      ensures Valid() && full == old(full) + (RenderHead(p.head) + RenderHeaders(hs, p.headers) + RenderBody(p.body))
    {
      ghost var before := full;
      WriteHead(p.head);
      WriteHeaders(hs, p.headers);
      WriteBody(p.body);
      Regroup(before, RenderHead(p.head), RenderHeaders(hs, p.headers));
      Regroup(before, RenderHead(p.head) + RenderHeaders(hs, p.headers), RenderBody(p.body));
    }

    /** The buffer as its reader sees it. */
    lemma Result()
      requires Valid()
      ensures data != null && bufferSize > 0 ==>
                CString(data[..]) == text && Holds(text, full, bufferSize)
    {
      if data != null && bufferSize > 0 {
        CStringIs(data[..], text);
      }
    }

    method WriteHeaders(hs: seq<Header>, headers: map<Header, seq<char>>)
      requires Valid() && forall h :: h in headers ==> NUL !in headers[h]
      modifies this, data
      ensures Valid() && full == old(full) + RenderHeaders(hs, headers)
    {
      for i := 0 to |hs|
        invariant Valid() && full + RenderHeaders(hs[i..], headers) == old(full) + RenderHeaders(hs, headers)
      {
        RenderNext(hs, i, headers);
        Regroup(full, RenderHeader(hs[i], headers), RenderHeaders(hs[i + 1..], headers));
        WriteHeader(hs[i], headers);
      }
      NothingAdded(full);
    }

    lemma RenderNext(hs: seq<Header>, i: nat, headers: map<Header, seq<char>>)
      requires i < |hs|
      ensures RenderHeaders(hs[i..], headers) == RenderHeader(hs[i], headers) + RenderHeaders(hs[i + 1..], headers)
    {
    }
  }

  /** WriteSDDPPacket: the count is that of the whole text and its terminator whatever the size;
      the buffer holds a prefix of the text, and all of it exactly when the count is below the
      size. */
  method WriteSDDPPacket(p: Packet, buffer: array?<char>, bufferSize: nat) returns (n: nat)
    requires buffer != null ==> buffer.Length == bufferSize
    requires IsCPacket(p)
    modifies buffer
    ensures n == if IsWritable(p.head) then 1 + |Render(p)| else 0
    ensures buffer != null && bufferSize > 0 ==>
              && CString(buffer[..]) <= Render(p)
              && (n > 0 ==> (CString(buffer[..]) == Render(p) <==> n < bufferSize))
  {
    var out := new OutBuffer(buffer, bufferSize);
    if !IsWritable(p.head) {
      out.Result();
      return 0;
    }
    out.WritePacket(p, HEADERS);
    assert out.full == Render(p);
    out.Result();
    n := out.written;
  }

  lemma CStringIs(buf: seq<char>, text: seq<char>)
    requires |text| < |buf| && buf[..|text|] == text && buf[|text|] == NUL && NUL !in text
    ensures CString(buf) == text
  {
    assert buf == text + [NUL] + buf[|text| + 1..];
    SplitAt(text, NUL, buf[|text| + 1..]);
  }
}
