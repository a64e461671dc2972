/** The multipart/form-data parser of cgic (RFC 7578). */
module Multipart {
  import opened Wrappers
  import opened Text
  import opened MpStreams
  import opened Boundaries
  import opened Headers

  datatype ParseResult = ParseSuccess | ParseIO

  /** A form entry; an uploaded file's content is in `upload`, and its value is empty. */
  datatype Entry = Entry(attr: seq<char>, value: seq<char>, valueLength: nat, fileName: seq<char>,
                         contentType: seq<char>, upload: Option<seq<char>>)

  /** What the header lines of a part say. */
  datatype Fields = Fields(disposition: seq<char>, name: seq<char>, fileName: seq<char>, contentType: seq<char>)

  const NO_FIELDS := Fields([], [], [], [])
  const ARG_NAMES: seq<seq<char>> := ["name", "filename"]

  function Absorb(h: Fields, attr: seq<char>, value: seq<char>): Fields {
    if EqNc(CString(attr), "Content-Disposition") then
      var (m, args) := Decompose(CString(value), ARG_NAMES);
      Fields(m, args[0], args[1], h.contentType)
    else if EqNc(CString(attr), "Content-Type") then
      h.(contentType := Decompose(CString(value), []).0)
    else h
  }

  function PartHeaders(v: seq<char>, h: Fields): (r: (Fields, seq<char>))
    ensures |r.1| <= |v|
    decreases |v|
  {
    var l := HeaderLine(v, [], [], false);
    if l.ok then PartHeaders(l.rest, Absorb(h, l.attr, l.value)) else (h, l.rest)
  }

  function MakeEntry(h: Fields, body: seq<char>): Entry {
    if h.fileName == [] then Entry(h.name, body, |body|, [], h.contentType, None)
    else Entry(h.name, [], |body|, h.fileName, h.contentType, Some(body))
  }

  predicate IsFormData(h: Fields) {
    EqNc(h.disposition, "form-data")
  }

  predicate IsEnd(v: seq<char>) {
    |v| < 2 || (v[0] == '-' && v[1] == '-')
  }

  /** One part and the boundary behind it: the entry it makes, if it is form data. */
  ghost function NextPart(v: seq<char>, b: seq<char>): (r: Option<(seq<Entry>, seq<char>)>)
    ensures r.Some? ==> |r.value.1| < |v|
  {
    var (h, v1) := PartHeaders(v, NO_FIELDS);
    match NextBoundary(v1, b, false)
    case None => None
    case Some((body, v2)) =>
      ScanShrinks([], v1, WorkingBoundary(b, false), 0, []);
      Some((if IsFormData(h) then [MakeEntry(h, body)] else [], v2))
  }

  /** The entries behind `done`: an absent later boundary is an error, but the entries stay. */
  ghost function Parts(v: seq<char>, b: seq<char>, done: seq<Entry>): (ParseResult, seq<Entry>)
    decreases |v|
  {
    if IsEnd(v) then (ParseSuccess, done)
    else
      match NextPart(v, b)
      case None => (ParseIO, done)
      case Some((e, v2)) => Parts(v2, b, done + e)
  }

  /** The whole submission: without a first boundary it is empty, which is not an error. */
  ghost function Parse(v: seq<char>, b: seq<char>): (ParseResult, seq<Entry>) {
    match NextBoundary(v, b, true)
    case None => (ParseSuccess, [])
    case Some((_, t)) => Parts(t, b, [])
  }

  method ReadPartHeaders(mp: MpStream) returns (h: Fields)
    requires mp.Valid() && |mp.Ring()| <= 2
    modifies mp, mp.putback
    ensures mp.Valid() && |mp.Ring()| <= 1
    ensures PartHeaders(old(mp.Virtual()), NO_FIELDS) == (h, mp.Virtual())
  {
    h := NO_FIELDS;
    ghost var all := PartHeaders(mp.Virtual(), NO_FIELDS);
    while true
      invariant mp.Valid() && |mp.Ring()| <= 2 && PartHeaders(mp.Virtual(), h) == all
      decreases |mp.Virtual()|
    {
      HeadersNext(mp.Virtual(), h);
      var ok, attr, value := ReadHeaderLine(mp);
      if !ok {
        return;
      }
      h := TakeHeader(h, attr, value);
    }
  }

  lemma HeadersNext(v: seq<char>, h: Fields)
    ensures var l := HeaderLine(v, [], [], false);
            PartHeaders(v, h) == if l.ok then PartHeaders(l.rest, Absorb(h, l.attr, l.value)) else (h, l.rest)
  {
  }

  method TakeHeader(h: Fields, attr: seq<char>, value: seq<char>) returns (h': Fields)
    ensures h' == Absorb(h, attr, value)
  {
    h' := h;
    var isDisposition := StrEqNc(CString(attr), "Content-Disposition");
    var isType := StrEqNc(CString(attr), "Content-Type");
    if isDisposition {
      var m, args := DecomposeValue(CString(value), ARG_NAMES);
      h' := Fields(m, args[0], args[1], h.contentType);
    } else if isType {
      var m, _ := DecomposeValue(CString(value), []);
      h' := h.(contentType := m);
    }
  }

  /** Up to two characters of a part are read to see whether it is the end. */
  method AtEnd(mp: MpStream) returns (end: bool)
    requires mp.Valid() && |mp.Ring()| <= 2
    modifies mp, mp.putback
    ensures mp.Valid() && |mp.Ring()| <= 2
    ensures var v := old(mp.Virtual());
            end == IsEnd(v) && (!end ==> mp.Virtual() == v)
  {
    var got, d := ReadTwo(mp);
    if !got || (d[0] == '-' && d[1] == '-') {
      return true;
    }
    PutBackTwo(mp, d);
    end := false;
  }

  /** cgiParsePostMultipartInput over the bytes of `cgiIn`, reading no further than the declared
      content length: the parser with its ring is the pure parser. */
  method ParsePostMultipartInput(cgiIn: seq<char>, contentLength: nat, b: seq<char>)
    returns (result: ParseResult, entries: seq<Entry>)
    requires IsBoundary(b)
    ensures (result, entries) == Parse(cgiIn[..Min(|cgiIn|, contentLength)], b)
  {
    var mp := new MpStream(cgiIn, contentLength);
    entries := [];
    ghost var v := mp.Virtual();
    assert v == cgiIn[..Min(|cgiIn|, contentLength)];
    if contentLength == 0 {
      return ParseSuccess, [];
    }
    var ok, _ := AfterNextBoundary(mp, b, false, true);
    if !ok {
      return ParseSuccess, [];
    }
    result, entries := ReadParts(mp, b);
  }

  method ReadPart(mp: MpStream, b: seq<char>) returns (ok: bool, entry: seq<Entry>)
    requires mp.Valid() && |mp.Ring()| <= 2 && IsBoundary(b)
    modifies mp, mp.putback
    ensures mp.Valid()
    ensures match NextPart(old(mp.Virtual()), b)
            case None => !ok
            case Some((e, v2)) => ok && entry == e && mp.Virtual() == v2 && |mp.Ring()| <= 2
  {
    var h := ReadPartHeaders(mp);
    var isForm := StrEqNc(h.disposition, "form-data");
    var out;
    ok, out := AfterNextBoundary(mp, b, isForm, false);
    entry := if isForm then [MakeEntry(h, out)] else [];
  }

  method ReadParts(mp: MpStream, b: seq<char>) returns (result: ParseResult, entries: seq<Entry>)
    requires mp.Valid() && |mp.Ring()| <= 2 && IsBoundary(b)
    modifies mp, mp.putback
    ensures (result, entries) == Parts(old(mp.Virtual()), b, [])
  {
    entries := [];
    ghost var all := Parts(mp.Virtual(), b, []);
    while true
      invariant mp.Valid() && |mp.Ring()| <= 2
      invariant Parts(mp.Virtual(), b, entries) == all
      decreases |mp.Virtual()|
    {
      var end := AtEnd(mp);
      if end {
        return ParseSuccess, entries;
      }
      var ok, entry := ReadPart(mp, b);
      if !ok {
        return ParseIO, entries;
      }
      entries := entries + entry;
    }
  }
}
