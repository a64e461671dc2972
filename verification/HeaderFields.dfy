/** A part's header lines in any order and among any others (section 4.8 of RFC 7578). */
module HeaderFields {
  import opened Text
  import opened Headers
  import opened Multipart
  import opened HeaderRoundTrip
  import opened HeaderParams

  /** A header field as it is sent. */
  datatype Field = Field(name: seq<char>, value: seq<char>)

  function RenderFields(fs: seq<Field>): seq<char> {
    if fs == [] then [] else RenderLine(fs[0].name, fs[0].value) + RenderFields(fs[1..])
  }

  /** What is kept of the field's name is `name`, up to case. */
  predicate IsNamed(f: Field, name: seq<char>) {
    EqNc(CString(Clip(f.name)), name)
  }

  predicate IsDisposition(f: Field) {
    IsNamed(f, "Content-Disposition")
  }

  predicate IsType(f: Field) {
    IsNamed(f, "Content-Type")
  }

  /** The last character that is no white space, and no colon. */
  predicate IsLast(x: seq<char>, n: int) {
    0 <= n < |x| && !IsSpace(x[n]) && x[n] != ':' && IsBlankFrom(x, n + 1)
  }

  predicate IsBlankFrom(x: seq<char>, n: nat) {
    forall j :: n <= j < |x| ==> IsSpace(x[j])
  }

  /** One line of text that is not blank, and not from its last colon on. */
  predicate IsFieldText(x: seq<char>) {
    '\r' !in x && '\n' !in x && exists n :: 0 <= n < |x| && IsLast(x, n)
  }

  /** A field of part `p`: its disposition, its content type, or any other. */
  predicate IsFieldOf(f: Field, p: Part) {
    IsLineName(f.name) &&
    if IsDisposition(f) then f.value == Disposition(p)
    else if IsType(f) then f.value == p.contentType && p.contentType != []
    else IsFieldText(f.value)
  }

  /** A header of part `p`: its disposition and, if it has one, its content type, spelled in any case
      and in any order, and any other fields in front, between and behind. */
  predicate IsHeaderOf(fs: seq<Field>, p: Part) {
    && (forall f :: f in fs ==> IsFieldOf(f, p))
    && HasDisposition(fs) && (p.contentType != [] ==> HasType(fs))
  }

  predicate HasDisposition(fs: seq<Field>) {
    exists f :: f in fs && IsDisposition(f)
  }

  predicate HasType(fs: seq<Field>) {
    exists f :: f in fs && IsType(f)
  }

  // ---- a line of any other field ----

  lemma {:induction false} SkippedInFront(s: seq<char>)
    ensures SkipSpaces(s) == s[|s| - |SkipSpaces(s)|..] && forall i :: 0 <= i < |s| - |SkipSpaces(s)| ==> IsSpace(s[i])
  {
    if s != [] && IsSpace(s[0]) {
      SkippedInFront(s[1..]);
      assert forall i :: 0 < i < |s| ==> s[i] == s[1..][i - 1];
    }
  }

  /** The last character stays when white space in front of it is skipped. */
  lemma LastStays(s: seq<char>, n: int)
    requires IsLast(s, n)
    ensures SkipSpaces(s) != [] && IsLast(SkipSpaces(s), n - (|s| - |SkipSpaces(s)|))
    ensures forall c :: c in SkipSpaces(s) ==> c in s
  {
    SkippedInFront(s);
    var t, k := SkipSpaces(s), |s| - |SkipSpaces(s)|;
    assert k <= n;
    forall j | n - k < j < |t| ensures IsSpace(t[j]) { assert t[j] == s[j + k]; }
  }

  lemma ValueColon(a: seq<char>, value: seq<char>, x: seq<char>, rest: seq<char>)
    requires a != [] && x != [] && x[0] == ':' && SkipSpaces(x[1..]) != []
    ensures HeaderLine(x + CRLF + rest, a, value, true) == HeaderLine(SkipSpaces(x[1..]) + CRLF + rest, a, value, true)
  {
    assert (x + CRLF + rest)[1..] == x[1..] + (CRLF + rest);
    SkipAppend(x[1..], CRLF + rest);
    LineSum(SkipSpaces(x[1..]), rest);
  }

  /** The rest of a value up to its last character `n`, or the blank rest behind it. */
  ghost predicate IsRest(x: seq<char>, n: int, value: seq<char>) {
    '\r' !in x && '\n' !in x && if n < 0 then value != [] && IsBlankFrom(x, 0) else IsLast(x, n)
  }

  /** Colons are dropped with the white space behind them; something stays. */
  lemma {:induction false} OtherValue(a: seq<char>, value: seq<char>, x: seq<char>, n: int, rest: seq<char>)
    returns (kept: seq<char>)
    requires a != [] && IsRest(x, n, value)
    ensures HeaderLine(x + CRLF + rest, a, value, true) == Line(true, a, kept, rest)
    decreases |x|
  {
    if x == [] {
      assert x + CRLF + rest == CRLF + rest;
      ValueEnds(a, value, CRLF, rest);
      kept := value;
    } else if x[0] == ':' {
      var t := SkipSpaces(x[1..]);
      assert IsLast(x[1..], n - 1);
      LastStays(x[1..], n - 1);
      ValueColon(a, value, x, rest);
      kept := OtherValue(a, value, t, n - 1 - (|x| - 1 - |t|), rest);
    } else {
      assert x[..1] == [x[0]] && x[0] in x;
      LineSum(x, rest);
      LineSum(x[1..], rest);
      ValueGoesOn(a, value, x, CRLF + rest);
      RestGoesOn(x, n, value);
      kept := OtherValue(a, Append(value, x[0]), x[1..], if n < 0 then n else n - 1, rest);
    }
  }

  lemma RestGoesOn(x: seq<char>, n: int, value: seq<char>)
    requires x != [] && IsRest(x, n, value)
    ensures IsRest(x[1..], if n < 0 then n else n - 1, Append(value, x[0]))
  {
  }

  lemma OtherLine(a: seq<char>, x: seq<char>, more: seq<char>) returns (kept: seq<char>)
    requires IsLineName(a) && IsFieldText(x)
    ensures HeaderLine(RenderLine(a, x) + more, [], [], false) == Line(true, Clip(a), kept, more)
  {
    var n :| IsLast(x, n);
    var t := SkipSpaces(x);
    LineStarts(a, x, more);
    LastStays(x, n);
    SkipAppend(x, CRLF + more);
    LineSum(x, more);
    LineSum(t, more);
    kept := OtherValue(Clip(a), [], t, n - (|x| - |t|), more);
  }

  // ---- what else is read ----

  /** A line is read alike whichever line end it has. */
  lemma LineEndsAlike(a: seq<char>, x: seq<char>, end: seq<char>, rest: seq<char>)
    requires IsLineName(a) && IsLineText(x) && x != [] && !IsSpace(x[0]) && IsLineEnd(end, rest)
    ensures HeaderLine(a + ": " + (x + (end + rest)), [], [], false) == Line(true, Clip(a), Clip(x), rest)
  {
    var none: seq<char> := [];
    assert Clip(none) == none && none + a == a && none + x == x;
    LineName(none, a, x + (end + rest));
    LineValue(Clip(a), none, x, end, rest);
  }

  /** A colon within a value is dropped with the white space behind it. */
  lemma ColonIsDropped(a: seq<char>, x: seq<char>, blank: seq<char>, y: seq<char>, rest: seq<char>)
    requires IsLineName(a) && IsLineText(x) && x != [] && !IsSpace(x[0]) && SkipSpaces(blank) == []
    requires IsLineText(y) && y != [] && !IsSpace(y[0])
    ensures HeaderLine(a + ": " + (x + ([':'] + (blank + (y + (CRLF + rest))))), [], [], false)
         == Line(true, Clip(a), Clip(x + y), rest)
  {
    var none: seq<char> := [];
    var more := y + (CRLF + rest);
    assert Clip(none) == none && none + a == a && none + x == x;
    LineName(none, a, x + ([':'] + (blank + more)));
    ValuePrefix(Clip(a), none, x, [':'] + (blank + more));
    assert ([':'] + (blank + more))[1..] == blank + more;
    SkipAppend(blank, more);
    LineValue(Clip(a), x, y, CRLF, rest);
  }

  /** The characters of a text that are no white space. */
  function Visible(a: seq<char>): seq<char> {
    if a == [] then [] else (if IsSpace(a[0]) then [] else [a[0]]) + Visible(a[1..])
  }

  /** White space within a name is dropped. */
  lemma {:induction false} NameIsVisible(done: seq<char>, a: seq<char>, more: seq<char>)
    requires IsLineText(a) && done + Visible(a) != []
    ensures HeaderLine(a + ": " + more, Clip(done), [], false) == HeaderLine(SkipSpaces(more), Clip(done + Visible(a)), [], true)
    decreases |a|
  {
    if a == [] {
      NameEnds(Clip(done), a, more);
      assert done + [] == done;
    } else if IsSpace(a[0]) {
      assert (a + ": " + more)[1..] == a[1..] + ": " + more && [] + Visible(a[1..]) == Visible(a[1..]);
      NameIsVisible(done, a[1..], more);
    } else {
      NameGoesOn(Clip(done), a, more);
      AppendClips(done, a[0]);
      assert done + [a[0]] + Visible(a[1..]) == done + Visible(a);
      NameIsVisible(done + [a[0]], a[1..], more);
    }
  }

  // ---- the header of a part ----

  /** What is known of the part behind the fields. */
  function Known(h: Fields, disposition: bool, contentType: bool, p: Part): Fields {
    Fields(if disposition then "form-data" else h.disposition,
           if disposition then p.name else h.name,
           if disposition then p.fileName else h.fileName,
           if contentType then p.contentType else h.contentType)
  }

  lemma DispositionField(f: Field, p: Part, h: Fields, more: seq<char>)
    requires HasHeaders(p) && IsFieldOf(f, p) && IsDisposition(f)
    ensures PartHeaders(RenderLine(f.name, f.value) + more, h) == PartHeaders(more, Known(h, true, false, p))
  {
    DispositionIsText(p);
    ClipIsText(Disposition(p));
    LineCut(f.name, f.value, more);
    FieldAbsorbed(f, Clip(Disposition(p)), h, more);
    AbsorbDisposition(h, Clip(f.name), Clip(Disposition(p)));
    DispositionIff(p);
  }

  lemma TypeField(f: Field, p: Part, h: Fields, more: seq<char>)
    requires HasHeaders(p) && IsFieldOf(f, p) && !IsDisposition(f) && IsType(f)
    ensures PartHeaders(RenderLine(f.name, f.value) + more, h) == PartHeaders(more, Known(h, false, true, p))
  {
    var t := p.contentType;
    ClipIsText(t);
    ClipIsText(SkipSpaces(t));
    LineCut(f.name, t, more);
    FieldAbsorbed(f, Clip(SkipSpaces(t)), h, more);
    AbsorbType(h, Clip(f.name), Clip(SkipSpaces(t)));
    TypeIff(t);
  }

  lemma FieldAbsorbed(f: Field, value: seq<char>, h: Fields, more: seq<char>)
    requires HeaderLine(RenderLine(f.name, f.value) + more, [], [], false) == Line(true, Clip(f.name), value, more)
    ensures PartHeaders(RenderLine(f.name, f.value) + more, h) == PartHeaders(more, Absorb(h, Clip(f.name), value))
  {
  }

  /** A field of another name changes nothing. */
  lemma OtherField(f: Field, p: Part, h: Fields, more: seq<char>)
    requires IsFieldOf(f, p) && !IsDisposition(f) && !IsType(f)
    ensures PartHeaders(RenderLine(f.name, f.value) + more, h) == PartHeaders(more, h)
  {
    var kept := OtherLine(f.name, f.value, more);
    FieldAbsorbed(f, kept, h, more);
  }

  lemma OneField(f: Field, p: Part, h: Fields, more: seq<char>)
    requires HasHeaders(p) && IsFieldOf(f, p)
    ensures PartHeaders(RenderLine(f.name, f.value) + more, h)
         == PartHeaders(more, Known(h, IsDisposition(f), !IsDisposition(f) && IsType(f), p))
  {
    if IsDisposition(f) {
      DispositionField(f, p, h, more);
    } else if IsType(f) {
      TypeField(f, p, h, more);
    } else {
      OtherField(f, p, h, more);
    }
  }

  lemma NamesDiffer(f: Field)
    ensures !(IsDisposition(f) && IsType(f))
  {
  }

  lemma FieldsStep(fs: seq<Field>, more: seq<char>)
    requires fs != []
    ensures RenderFields(fs) + more == RenderLine(fs[0].name, fs[0].value) + (RenderFields(fs[1..]) + more)
    ensures HasDisposition(fs) <==> IsDisposition(fs[0]) || HasDisposition(fs[1..])
    ensures HasType(fs) <==> IsType(fs[0]) || HasType(fs[1..])
  {
    assert fs == [fs[0]] + fs[1..];
  }

  lemma {:induction false} FieldsAreKnown(fs: seq<Field>, p: Part, h: Fields, rest: seq<char>)
    requires HasHeaders(p) && forall f :: f in fs ==> IsFieldOf(f, p)
    ensures PartHeaders(RenderFields(fs) + (CRLF + rest), h) == (Known(h, HasDisposition(fs), HasType(fs), p), rest)
    decreases |fs|
  {
    if fs == [] {
      assert RenderFields(fs) + (CRLF + rest) == CRLF + rest;
      BlankLine(rest);
    } else {
      var more := RenderFields(fs[1..]) + (CRLF + rest);
      FieldsStep(fs, CRLF + rest);
      OneField(fs[0], p, h, more);
      NamesDiffer(fs[0]);
      FieldsAreKnown(fs[1..], p, Known(h, IsDisposition(fs[0]), IsType(fs[0]), p), rest);
    }
  }

  /** Whatever other fields there are, and wherever, the header of a part says what its own two lines
      say, and the body is what follows. */
  lemma HeaderComesBack(fs: seq<Field>, p: Part, rest: seq<char>)
    requires HasHeaders(p) && IsHeaderOf(fs, p)
    ensures PartHeaders(RenderFields(fs) + (CRLF + rest), NO_FIELDS) == (PartFields(p), rest)
  {
    FieldsAreKnown(fs, p, NO_FIELDS, rest);
    if HasType(fs) && p.contentType == [] { TypeIsThere(fs, p); }
  }

  lemma TypeIsThere(fs: seq<Field>, p: Part)
    requires IsHeaderOf(fs, p) && HasType(fs)
    ensures p.contentType != []
  {
    var f :| f in fs && IsType(f);
    NamesDiffer(f);
    assert IsFieldOf(f, p);
  }

  // ---- parts that are no form data ----

  /** A disposition that is not that of form data, with whatever parameters. */
  ghost predicate IsForeignValue(x: seq<char>) {
    IsText(x) && |x| < SPACE && exists n :: 0 < n <= |x| && IsForeignMain(x[..n], x[n..])
  }

  predicate IsForeignMain(main: seq<char>, params: seq<char>) {
    IsBare(main) && IsTail(params) && !EqNc(main, "form-data")
  }

  ghost predicate IsForeignField(f: Field) {
    IsLineName(f.name) &&
    if IsDisposition(f) then IsForeignValue(f.value)
    else if IsType(f) then IsText(f.value) && SkipSpaces(f.value) != []
    else IsFieldText(f.value)
  }

  lemma ForeignValueRead(x: seq<char>)
    requires IsForeignValue(x)
    ensures SkipSpaces(x) == x != [] && Clip(x) == x && NUL !in x && !EqNc(Decompose(x, ARG_NAMES).0, "form-data")
  {
    var n :| 0 < n <= |x| && IsForeignMain(x[..n], x[n..]);
    assert x == x[..n] + x[n..] && x[0] == x[..n][0];
    BareRead(x[..n], x[n..]);
  }

  lemma ForeignField(f: Field, h: Fields, more: seq<char>) returns (h': Fields)
    requires IsForeignField(f) && !IsFormData(h)
    ensures PartHeaders(RenderLine(f.name, f.value) + more, h) == PartHeaders(more, h') && !IsFormData(h')
  {
    if IsDisposition(f) {
      ForeignValueRead(f.value);
      LineCut(f.name, f.value, more);
      FieldAbsorbed(f, f.value, h, more);
      AbsorbDisposition(h, Clip(f.name), f.value);
      h' := Absorb(h, Clip(f.name), f.value);
    } else if IsType(f) {
      var value := Clip(SkipSpaces(f.value));
      LineCut(f.name, f.value, more);
      FieldAbsorbed(f, value, h, more);
      h' := Absorb(h, Clip(f.name), value);
      OnlyDispositionSays(h, Clip(f.name), value);
    } else {
      var kept := OtherLine(f.name, f.value, more);
      FieldAbsorbed(f, kept, h, more);
      h' := h;
    }
  }

  lemma OnlyDispositionSays(h: Fields, a: seq<char>, x: seq<char>)
    requires !EqNc(CString(a), "Content-Disposition")
    ensures Absorb(h, a, x).disposition == h.disposition
  {
  }

  lemma {:induction false} ForeignHeader(fs: seq<Field>, h: Fields, rest: seq<char>) returns (h': Fields)
    requires (forall f :: f in fs ==> IsForeignField(f)) && !IsFormData(h)
    ensures PartHeaders(RenderFields(fs) + (CRLF + rest), h) == (h', rest) && !IsFormData(h')
    decreases |fs|
  {
    if fs == [] {
      assert RenderFields(fs) + (CRLF + rest) == CRLF + rest;
      BlankLine(rest);
      h' := h;
    } else {
      FieldsStep(fs, CRLF + rest);
      assert fs[0] in fs;
      var next := ForeignField(fs[0], h, RenderFields(fs[1..]) + (CRLF + rest));
      h' := ForeignHeader(fs[1..], next, rest);
    }
  }

  // ---- a part's own fields alone ----

  /** The disposition and, if there is one, the content type, under names `a` and `t`. */
  function OwnFields(a: seq<char>, t: seq<char>, p: Part): seq<Field> {
    [Field(a, Disposition(p))] + if p.contentType == [] then [] else [Field(t, p.contentType)]
  }

  lemma OwnFieldsAreHeader(a: seq<char>, t: seq<char>, p: Part)
    requires IsLineName(a) && IsDisposition(Field(a, Disposition(p)))
    requires IsLineName(t) && IsType(Field(t, p.contentType))
    ensures IsHeaderOf(OwnFields(a, t, p), p)
  {
    var fs := OwnFields(a, t, p);
    NamesDiffer(Field(t, p.contentType));
    assert fs[0] in fs;
    if p.contentType != [] { assert fs[1] in fs; }
  }

  function UsualFields(p: Part): seq<Field> {
    OwnFields("Content-Disposition", "Content-Type", p)
  }

  lemma UsualIsHeader(p: Part)
    ensures IsHeaderOf(UsualFields(p), p)
  {
    TypeIsName();
    DispositionIsName();
    OwnFieldsAreHeader("Content-Disposition", "Content-Type", p);
  }

  lemma UsualText(p: Part)
    ensures RenderFields(UsualFields(p)) + (CRLF + p.body) == RenderPart(p)
  {
    OwnFieldsText("Content-Disposition", "Content-Type", p);
    HeaderAndBody(RenderLine("Content-Disposition", Disposition(p)), TypeLine(p), p.body);
  }

  lemma HeaderAndBody(x: seq<char>, y: seq<char>, body: seq<char>)
    ensures x + y + (CRLF + body) == x + y + CRLF + body
  {
  }

  lemma OwnFieldsText(a: seq<char>, t: seq<char>, p: Part)
    ensures RenderFields(OwnFields(a, t, p))
         == RenderLine(a, Disposition(p)) + if p.contentType == [] then [] else RenderLine(t, p.contentType)
  {
    var rest := if p.contentType == [] then [] else [Field(t, p.contentType)];
    assert OwnFields(a, t, p)[1..] == rest;
    if p.contentType != [] {
      assert rest[1..] == [] && RenderFields(rest) == RenderLine(t, p.contentType) + [];
    }
  }

  /** Names in lower case do as well. */
  lemma LowerCaseIsHeader(p: Part)
    ensures IsHeaderOf(OwnFields("content-disposition", "content-type", p), p)
  {
    LowerCaseDisposition();
    LowerCaseType();
    OwnFieldsAreHeader("content-disposition", "content-type", p);
  }

  lemma LowerCaseDisposition()
    ensures IsLineName("content-disposition") && EqNc(CString(Clip("content-disposition")), "Content-Disposition")
  {
    LowerDispositionIsName();
    LowerDispositionMatches();
    NameMatches("content-disposition", "Content-Disposition");
  }

  lemma LowerDispositionMatches()
    ensures EqNc("content-disposition", "Content-Disposition")
  {
    DispositionLetters();
    TwoCapitals("c", "C", "ontent-", "d", "D", "isposition");
  }

  lemma DispositionLetters()
    ensures "c" + "ontent-" + "d" + "isposition" == "content-disposition"
    ensures "C" + "ontent-" + "D" + "isposition" == "Content-Disposition"
  {
  }

  lemma LowerCaseType()
    ensures IsLineName("content-type") && EqNc(CString(Clip("content-type")), "Content-Type")
  {
    LowerTypeIsName();
    LowerTypeMatches();
    NameMatches("content-type", "Content-Type");
  }

  lemma LowerTypeMatches()
    ensures EqNc("content-type", "Content-Type")
  {
    TypeLetters();
    TwoCapitals("c", "C", "ontent-", "t", "T", "ype");
  }

  lemma TypeLetters()
    ensures "c" + "ontent-" + "t" + "ype" == "content-type"
    ensures "C" + "ontent-" + "T" + "ype" == "Content-Type"
  {
  }

  lemma LowerDispositionIsName()
    ensures IsLineName("content-disposition") && NUL !in "content-disposition"
  {
    LowerFirstHalf();
    LowerSecondHalf();
    assert "content-" + "disposition" == "content-disposition";
    NamesJoin("content-", "disposition");
  }

  lemma LowerFirstHalf()
    ensures IsLineName("content-") && NUL !in "content-"
  {
  }

  lemma LowerSecondHalf()
    ensures IsLineName("disposition") && NUL !in "disposition"
  {
  }

  lemma LowerTypeIsName()
    ensures IsLineName("content-type") && NUL !in "content-type"
  {
  }

  lemma NameMatches(a: seq<char>, known: seq<char>)
    requires NUL !in a && |a| < SPACE && EqNc(a, known)
    ensures EqNc(CString(Clip(a)), known)
  {
    CStringOfText(a);
  }

  lemma TwoCapitals(a: seq<char>, b: seq<char>, x: seq<char>, c: seq<char>, d: seq<char>, y: seq<char>)
    requires EqNc(a, b) && EqNc(c, d)
    ensures EqNc(a + x + c + y, b + x + d + y)
  {
  }

  /** A field whose value is blank takes the next line as its value: a disposition there is lost. */
  lemma BlankFieldTakesNext(a: seq<char>, x: seq<char>, next: seq<char>, more: seq<char>) returns (kept: seq<char>)
    requires IsLineName(a) && SkipSpaces(x) == [] && IsFieldText(next) && !IsSpace(next[0])
    ensures HeaderLine(RenderLine(a, x) + (next + CRLF + more), [], [], false) == Line(true, Clip(a), kept, more)
  {
    var n :| 0 <= n < |next| && IsLast(next, n);
    var v := next + CRLF + more;
    LineStarts(a, x, v);
    BlankIsSkipped(x, v);
    kept := OtherValue(Clip(a), [], next, n, more);
  }

  lemma BlankIsSkipped(x: seq<char>, v: seq<char>)
    requires SkipSpaces(x) == [] && v != [] && !IsSpace(v[0])
    ensures SkipSpaces(x + CRLF + v) == v
  {
    SkipAppend(x, CRLF + v);
    LineSum(x, v);
    SkipLineEnd(v);
  }
}
