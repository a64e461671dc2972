/** Rendering parts as multipart/form-data and parsing them back (sections 4.1 and 4.2 of RFC 7578). */
module MultipartRoundTrip {
  import opened Wrappers
  import opened Text
  import opened Headers
  import opened Boundaries
  import opened FirstBoundaries
  import opened FirstBoundaryMisled
  import opened FirstBoundaryFront
  import opened Multipart
  import opened HeaderRoundTrip
  import opened HeaderFields

  /** A part, the header fields it is sent with, and what is between them and the boundary in front; or
      something that is no form data. */
  datatype Sent =
    | Sent(part: Part, fields: seq<Field>, gap: seq<char>)
    | Foreign(other: seq<char>, fields: seq<Field>, gap: seq<char>)

  function Body(p: Sent): seq<char> {
    if p.Sent? then p.part.body else p.other
  }

  function RenderSent(p: Sent): seq<char> {
    RenderFields(p.fields) + (CRLF + Body(p))
  }

  /** What follows a boundary: the parts, with a boundary behind each, and `end`. */
  function RenderTail(ps: seq<Sent>, b: seq<char>, end: seq<char>): seq<char> {
    if ps == [] then end
    else ps[0].gap + (RenderSent(ps[0]) + ("\r\n--" + b) + RenderTail(ps[1..], b, end))
  }

  function Render(pre: seq<char>, ps: seq<Sent>, b: seq<char>, end: seq<char>): seq<char> {
    pre + ("--" + b) + RenderTail(ps, b, end)
  }

  /** Between a boundary and a part there is a line end; any other two characters do, if the first is no
      dash. */
  predicate IsGap(gap: seq<char>) {
    |gap| == 2 && gap[0] != '-'
  }

  /** A part that comes back: of its header fields two are its own, any others are ignored; or one that is
      left out. Two dashes in front would end the submission. */
  ghost predicate IsPart(p: Sent, b: seq<char>) {
    && (match p
        case Sent(part, fields, _) => HasHeaders(part) && IsHeaderOf(fields, part)
        case Foreign(_, fields, _) => fields != [] && forall f :: f in fields ==> IsForeignField(f))
    && Absent(Body(p), "\r\n--" + b) && !StartsWithDashes(p.fields) && IsGap(p.gap)
  }

  predicate StartsWithDashes(fs: seq<Field>) {
    fs != [] && |fs[0].name| > 1 && fs[0].name[0] == '-' && fs[0].name[1] == '-'
  }

  function PartEntry(p: Part): Entry {
    if p.fileName == [] then Entry(p.name, p.body, |p.body|, [], p.contentType, None)
    else Entry(p.name, [], |p.body|, p.fileName, p.contentType, Some(p.body))
  }

  function EntryOf(p: Sent): seq<Entry> {
    if p.Sent? then [PartEntry(p.part)] else []
  }

  /** An entry for each part, in order, and none for what is no form data. */
  function PartEntries(ps: seq<Sent>): seq<Entry> {
    if ps == [] then [] else EntryOf(ps[0]) + PartEntries(ps[1..])
  }

  lemma UsualStarts(p: Part)
    ensures !StartsWithDashes(UsualFields(p))
  {
    assert UsualFields(p)[0].name[0] == 'C';
  }

  /** A part with its own two fields alone comes back. */
  lemma UsualIsPart(p: Part, b: seq<char>)
    requires HasHeaders(p) && Absent(p.body, "\r\n--" + b)
    ensures var s := Sent(p, UsualFields(p), CRLF); IsPart(s, b) && RenderSent(s) == RenderPart(p)
  {
    UsualIsHeader(p);
    UsualText(p);
    UsualStarts(p);
  }

  // ---- boundaries ----

  /** A body without CRLF--B, followed by CRLF--B, is found whole: no match can straddle its end. */
  lemma BodyEndsAtBoundary(body: seq<char>, w: seq<char>, t: seq<char>)
    requires |w| > 0 && w[0] !in w[1..] && Absent(body, w)
    ensures FirstAt(body + w + t, w, |body|)
  {
    var v := body + w + t;
    assert v[|body|..|body| + |w|] == w;
    forall j | 0 <= j < |body| ensures !OccursAt(v, w, j) {
      if j + |w| <= |body| {
        assert v[j..j + |w|] == body[j..j + |w|];
        assert !OccursAt(body, w, j);
      } else {
        assert |v| >= j + |w| ==> v[j..j + |w|][|body| - j] == w[0];
        assert w[|body| - j] in w[1..];
      }
    }
  }

  lemma BodyRoundTrip(body: seq<char>, b: seq<char>, t: seq<char>)
    requires IsBoundary(b) && Absent(body, "\r\n--" + b) && Trailer(t).Some?
    ensures NextBoundary(body + ("\r\n--" + b) + t, b, false) == Some((body, Trailer(t).value))
  {
    var w := "\r\n--" + b;
    var v := body + w + t;
    BodyEndsAtBoundary(body, w, t);
    NextBoundaryIsSearch(v, b);
    assert |v| >= |body| + |w| + 2;
    var out := NextBoundary(v, b, false).value.0;
    FirstAtUnique(v, w, |body|, |out|);
    assert v[..|body|] == body && v[|body| + |w|..] == t;
  }

  /** A body comes back exactly if it does not contain CRLF--B. */
  lemma BodyComesBackIff(body: seq<char>, b: seq<char>, t: seq<char>)
    requires IsBoundary(b) && Trailer(t).Some?
    ensures NextBoundary(body + ("\r\n--" + b) + t, b, false) == Some((body, Trailer(t).value))
            <==> Absent(body, "\r\n--" + b)
  {
    var w := "\r\n--" + b;
    var v := body + w + t;
    if Absent(body, w) {
      BodyRoundTrip(body, b, t);
    } else {
      var j :| 0 <= j && OccursAt(body, w, j);
      assert v[j..j + |w|] == body[j..j + |w|];
      NextBoundaryIsSearch(v, b);
      assert OccursAt(v, w, j) && j < |body|;
    }
  }

  /** A preamble behind which the first boundary is found; what follows does not matter. */
  ghost predicate IsPreamble(pre: seq<char>, b: seq<char>) {
    StopsBehind(pre, b)
  }

  /** Behind such a preamble, the first boundary is found. */
  lemma FirstBoundaryRoundTrip(pre: seq<char>, b: seq<char>, t: seq<char>)
    requires IsPreamble(pre, b) && Trailer(t).Some?
    ensures var r := NextBoundary(pre + ("--" + b) + t, b, true);
            r.Some? && r.value.1 == Trailer(t).value
  {
    FrontDecides(pre, b, t);
  }

  // ---- the whole submission ----

  /** What a reader finds once a boundary and what is behind it are read; `rest` is left of the end. */
  function AfterTrailer(ps: seq<Sent>, b: seq<char>, end: seq<char>, rest: seq<char>): seq<char> {
    if ps == [] then rest
    else RenderSent(ps[0]) + ("\r\n--" + b) + RenderTail(ps[1..], b, end)
  }

  lemma TailTrailer(ps: seq<Sent>, b: seq<char>, end: seq<char>, rest: seq<char>)
    requires Trailer(end) == Some(rest) && forall p :: p in ps ==> IsGap(p.gap)
    ensures Trailer(RenderTail(ps, b, end)) == Some(AfterTrailer(ps, b, end, rest))
  {
    if ps != [] {
      assert ps[0] in ps;
      GapIsDropped(ps[0].gap, AfterTrailer(ps, b, end, rest));
    }
  }

  lemma GapIsDropped(gap: seq<char>, rest: seq<char>)
    requires IsGap(gap)
    ensures Trailer(gap + rest) == Some(rest)
  {
    assert (gap + rest)[..2] == gap && (gap + rest)[2..] == rest;
  }

  lemma PartRoundTrip(p: Sent, b: seq<char>, t: seq<char>)
    requires IsPart(p, b) && IsBoundary(b) && Trailer(t).Some?
    ensures var v := RenderSent(p) + ("\r\n--" + b) + t;
            !IsEnd(v) && NextPart(v, b) == Some((EntryOf(p), Trailer(t).value))
  {
    var v, rest := RenderSent(p) + ("\r\n--" + b) + t, Body(p) + ("\r\n--" + b) + t;
    SentText(p, "\r\n--" + b, t);
    var h := SentHeader(p, b, rest);
    BodyRoundTrip(Body(p), b, t);
    FirstFieldIsNamed(p, b);
    NotTheEnd(p, rest);
    PartIsRead(v, b, h, rest, Body(p), Trailer(t).value);
  }

  lemma SentHeader(p: Sent, b: seq<char>, rest: seq<char>) returns (h: Fields)
    requires IsPart(p, b)
    ensures PartHeaders(RenderFields(p.fields) + (CRLF + rest), NO_FIELDS) == (h, rest)
    ensures (if IsFormData(h) then [MakeEntry(h, Body(p))] else []) == EntryOf(p)
  {
    match p
    case Sent(part, fields, _) =>
      HeaderComesBack(fields, part, rest);
      h := PartFields(part);
    case Foreign(_, fields, _) =>
      h := ForeignHeader(fields, NO_FIELDS, rest);
  }

  lemma PartIsRead(v: seq<char>, b: seq<char>, h: Fields, rest: seq<char>, body: seq<char>, next: seq<char>)
    requires PartHeaders(v, NO_FIELDS) == (h, rest) && NextBoundary(rest, b, false) == Some((body, next))
    ensures NextPart(v, b) == Some((if IsFormData(h) then [MakeEntry(h, body)] else [], next))
  {
  }

  lemma FirstFieldIsNamed(p: Sent, b: seq<char>)
    requires IsPart(p, b)
    ensures p.fields != [] && IsLineName(p.fields[0].name)
  {
    assert p.fields != [] && p.fields[0] in p.fields;
  }

  lemma SentText(p: Sent, w: seq<char>, t: seq<char>)
    ensures RenderSent(p) + w + t == RenderFields(p.fields) + (CRLF + (Body(p) + w + t))
  {
  }

  lemma NotTheEnd(p: Sent, rest: seq<char>)
    requires p.fields != [] && IsLineName(p.fields[0].name) && !StartsWithDashes(p.fields)
    ensures !IsEnd(RenderFields(p.fields) + (CRLF + rest))
  {
    var a, more := p.fields[0].name, RenderFields(p.fields[1..]) + (CRLF + rest);
    FieldsStep(p.fields, CRLF + rest);
    LineRegroup(a, p.fields[0].value, more);
  }

  lemma PartsUnfold(v: seq<char>, b: seq<char>, done: seq<Entry>, e: seq<Entry>, v2: seq<char>)
    requires !IsEnd(v) && NextPart(v, b) == Some((e, v2))
    ensures Parts(v, b, done) == Parts(v2, b, done + e)
  {
  }

  lemma PartsStep(ps: seq<Sent>, b: seq<char>, end: seq<char>, rest: seq<char>, done: seq<Entry>)
    requires IsBoundary(b) && ps != [] && (forall p :: p in ps ==> IsPart(p, b)) && Trailer(end) == Some(rest)
    ensures Parts(AfterTrailer(ps, b, end, rest), b, done)
         == Parts(AfterTrailer(ps[1..], b, end, rest), b, done + EntryOf(ps[0]))
  {
    assert ps[0] in ps && forall p :: p in ps[1..] ==> p in ps;
    TailTrailer(ps[1..], b, end, rest);
    PartRoundTrip(ps[0], b, RenderTail(ps[1..], b, end));
    PartsUnfold(AfterTrailer(ps, b, end, rest), b, done, EntryOf(ps[0]), AfterTrailer(ps[1..], b, end, rest));
  }

  lemma EntriesStep(ps: seq<Sent>, done: seq<Entry>)
    requires ps != []
    ensures done + EntryOf(ps[0]) + PartEntries(ps[1..]) == done + PartEntries(ps)
  {
    EntriesSum(done, EntryOf(ps[0]), PartEntries(ps[1..]));
  }

  lemma EntriesSum(x: seq<Entry>, y: seq<Entry>, z: seq<Entry>)
    ensures x + y + z == x + (y + z)
  {
  }

  /** The parts are read one by one, and then what is left of the end. */
  lemma {:induction false} PartsRoundTrip(ps: seq<Sent>, b: seq<char>, end: seq<char>, rest: seq<char>, done: seq<Entry>)
    requires IsBoundary(b) && (forall p :: p in ps ==> IsPart(p, b)) && Trailer(end) == Some(rest)
    ensures Parts(AfterTrailer(ps, b, end, rest), b, done) == Parts(rest, b, done + PartEntries(ps))
    decreases |ps|
  {
    if ps == [] {
      assert done + PartEntries([]) == done;
    } else {
      assert forall p :: p in ps[1..] ==> p in ps;
      PartsStep(ps, b, end, rest, done);
      PartsRoundTrip(ps[1..], b, end, rest, done + EntryOf(ps[0]));
      EntriesStep(ps, done);
    }
  }

  lemma ParseUnfold(v: seq<char>, b: seq<char>, t: seq<char>)
    requires NextBoundary(v, b, true).Some? && NextBoundary(v, b, true).value.1 == t
    ensures Parse(v, b) == Parts(t, b, [])
  {
  }

  /** A submission: its parts come back, and its end is read on its own. */
  lemma SubmissionRead(pre: seq<char>, ps: seq<Sent>, b: seq<char>, end: seq<char>, rest: seq<char>)
    requires IsBoundary(b) && IsPreamble(pre, b) && (forall p :: p in ps ==> IsPart(p, b)) && Trailer(end) == Some(rest)
    ensures Parse(Render(pre, ps, b, end), b) == Parts(rest, b, PartEntries(ps))
  {
    TailTrailer(ps, b, end, rest);
    FirstBoundaryRoundTrip(pre, b, RenderTail(ps, b, end));
    ParseUnfold(Render(pre, ps, b, end), b, AfterTrailer(ps, b, end, rest));
    PartsRoundTrip(ps, b, end, rest, []);
    assert [] + PartEntries(ps) == PartEntries(ps);
  }

  /** Any list of well-formed parts comes back, in order, from its rendering, whatever further header
      fields they are sent with; any preamble behind which the first boundary is found and any epilogue
      are ignored. */
  lemma MultipartRoundTrip(pre: seq<char>, ps: seq<Sent>, b: seq<char>, epilogue: seq<char>)
    requires IsBoundary(b) && IsPreamble(pre, b) && forall p :: p in ps ==> IsPart(p, b)
    ensures Parse(Render(pre, ps, b, "--" + epilogue), b) == (ParseSuccess, PartEntries(ps))
  {
    var end := "--" + epilogue;
    assert end[0] == '-' && end[1] == '-';
    SubmissionRead(pre, ps, b, end, end);
  }

  /** The same of the parser with its ring, run on the rendering with its length declared, whatever
      else the connection holds behind it. */
  method ParseRendered(pre: seq<char>, ps: seq<Sent>, b: seq<char>, epilogue: seq<char>, behind: seq<char>)
    returns (result: ParseResult, entries: seq<Entry>)
    requires IsBoundary(b) && IsPreamble(pre, b) && forall p :: p in ps ==> IsPart(p, b)
    ensures result == ParseSuccess && entries == PartEntries(ps)
  {
    var input := Render(pre, ps, b, "--" + epilogue);
    MultipartRoundTrip(pre, ps, b, epilogue);
    assert (input + behind)[..|input|] == input;
    result, entries := ParsePostMultipartInput(input + behind, |input|, b);
  }

  /** Without a boundary a submission is empty, and that is no error: for every boundary where nothing
      misleads, and on every text for those with no dash behind the leading ones. */
  lemma NoBoundaryIsEmpty(v: seq<char>, b: seq<char>)
    requires Absent(v, "--" + b) && (Unambiguous(v, "--" + b) || IsPlain("--" + b))
    ensures Parse(v, b) == (ParseSuccess, [])
  {
    if IsPlain("--" + b) { NothingFound(v, b); } else { FirstBoundaryIsSearch(v, b); }
  }

  // ---- a submission that breaks off ----

  predicate IsEndOf(r: seq<char>, v: seq<char>) {
    |r| <= |v| && r == v[|v| - |r|..]
  }

  lemma EndOfEnd(r: seq<char>, t: seq<char>, v: seq<char>)
    requires IsEndOf(r, t) && IsEndOf(t, v)
    ensures IsEndOf(r, v)
  {
  }

  /** What is left behind a header line is an end of the text. */
  lemma {:induction false} LineRestIsEnd(v: seq<char>, attr: seq<char>, value: seq<char>, found: bool)
    ensures IsEndOf(HeaderLine(v, attr, value, found).rest, v)
    decreases |v|
  {
    if v != [] && v[0] != '\r' && v[0] != '\n' {
      if v[0] == ':' && attr != [] {
        ColonRestIsEnd(v, attr, value);
      } else {
        CharRestIsEnd(v, if found || IsSpace(v[0]) then attr else Append(attr, v[0]),
                      if found then Append(value, v[0]) else value, found);
      }
    }
  }

  lemma {:induction false} CharRestIsEnd(v: seq<char>, attr: seq<char>, value: seq<char>, found: bool)
    requires v != []
    ensures IsEndOf(HeaderLine(v[1..], attr, value, found).rest, v)
    decreases |v|, 0
  {
    LineRestIsEnd(v[1..], attr, value, found);
    EndOfEnd(HeaderLine(v[1..], attr, value, found).rest, v[1..], v);
  }

  lemma {:induction false} ColonRestIsEnd(v: seq<char>, attr: seq<char>, value: seq<char>)
    requires v != []
    ensures IsEndOf(HeaderLine(SkipSpaces(v[1..]), attr, value, true).rest, v)
    decreases |v|, 0
  {
    var t := SkipSpaces(v[1..]);
    SkippedInFront(v[1..]);
    LineRestIsEnd(t, attr, value, true);
    EndOfEnd(HeaderLine(t, attr, value, true).rest, t, v[1..]);
    EndOfEnd(HeaderLine(t, attr, value, true).rest, v[1..], v);
  }

  lemma {:induction false} HeadersRestIsEnd(v: seq<char>, h: Fields)
    ensures IsEndOf(PartHeaders(v, h).1, v)
    decreases |v|
  {
    var l := HeaderLine(v, [], [], false);
    LineRestIsEnd(v, [], [], false);
    if l.ok {
      HeadersRestIsEnd(l.rest, Absorb(h, l.attr, l.value));
      EndOfEnd(PartHeaders(l.rest, Absorb(h, l.attr, l.value)).1, l.rest, v);
    }
  }

  lemma AbsentInEnd(v: seq<char>, w: seq<char>, r: seq<char>)
    requires IsEndOf(r, v) && Absent(v, w)
    ensures Absent(r, w)
  {
    var k := |v| - |r|;
    forall j | 0 <= j ensures !OccursAt(r, w, j) {
      assert !OccursAt(v, w, j + k);
      if j + |w| <= |r| { assert v[j + k..j + k + |w|] == r[j..j + |w|]; }
    }
  }

  /** A part behind which there is no boundary is an error, wherever it breaks off. */
  lemma NoBoundaryIsError(v: seq<char>, b: seq<char>)
    requires IsBoundary(b) && Absent(v, "\r\n--" + b)
    ensures NextPart(v, b) == None
  {
    var r := PartHeaders(v, NO_FIELDS).1;
    HeadersRestIsEnd(v, NO_FIELDS);
    AbsentInEnd(v, "\r\n--" + b, r);
    NextBoundaryIsSearch(r, b);
  }

  /** A submission that breaks off behind a boundary or anywhere in a part keeps the entries of the whole
      parts: without an error if less than two characters follow the boundary's line end, or two dashes,
      and with one otherwise. */
  lemma BrokenOff(pre: seq<char>, ps: seq<Sent>, b: seq<char>, gap: seq<char>, cut: seq<char>)
    requires IsBoundary(b) && IsPreamble(pre, b) && forall p :: p in ps ==> IsPart(p, b)
    requires IsGap(gap) && Absent(cut, "\r\n--" + b)
    ensures Parse(Render(pre, ps, b, gap + cut), b)
         == (if |cut| < 2 || cut[..2] == "--" then ParseSuccess else ParseIO, PartEntries(ps))
  {
    GapIsDropped(gap, cut);
    SubmissionRead(pre, ps, b, gap + cut, cut);
    NoBoundaryIsError(cut, b);
    assert |cut| >= 2 ==> (cut[..2] == "--" <==> cut[0] == '-' && cut[1] == '-');
  }
}
