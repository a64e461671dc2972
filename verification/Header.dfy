/** Part headers of cgic: header lines and their parameters (section 4.2 of RFC 7578). */
module Headers {
  import opened Text
  import opened MpStreams
  import opened Boundaries

  /** Size of the name and value buffers. */
  const SPACE: nat := 1024

  /** What APPEND keeps of a string in a buffer of `SPACE` characters. */
  function Clip(s: seq<char>): (r: seq<char>)
    ensures |s| < SPACE ==> r == s
  {
    s[..Min(|s|, SPACE - 1)]
  }

  function Append(s: seq<char>, c: char): seq<char> {
    if |s| < SPACE - 1 then s + [c] else s
  }

  // ---- header lines ----

  datatype Line = Line(ok: bool, attr: seq<char>, value: seq<char>, rest: seq<char>)

  function Ended(attr: seq<char>, value: seq<char>, rest: seq<char>): Line {
    Line(attr != [] && value != [], attr, value, rest)
  }

  /** One header line: every colon behind a name is dropped with the white space after it. */
  function HeaderLine(v: seq<char>, attr: seq<char>, value: seq<char>, found: bool): (r: Line)
    ensures |r.rest| <= |v| && (r.ok ==> |r.rest| < |v|)
    decreases |v|
  {
    if v == [] then Line(false, attr, value, [])
    else if v[0] == '\r' then Ended(attr, value, if |v| > 1 && v[1] == '\n' then v[2..] else v[1..])
    else if v[0] == '\n' then Ended(attr, value, v[1..])
    else if v[0] == ':' && attr != [] then HeaderLine(SkipSpaces(v[1..]), attr, value, true)
    else if found then HeaderLine(v[1..], attr, Append(value, v[0]), found)
    else HeaderLine(v[1..], if IsSpace(v[0]) then attr else Append(attr, v[0]), value, found)
  }

  method SkipStreamSpaces(mp: MpStream)
    requires mp.Valid() && mp.Ring() == []
    modifies mp, mp.putback
    ensures mp.Valid() && |mp.Ring()| <= 1 && mp.Virtual() == SkipSpaces(old(mp.Virtual()))
  {
    ghost var want := SkipSpaces(mp.Virtual());
    while true
      invariant mp.Valid() && mp.Ring() == [] && SkipSpaces(mp.Virtual()) == want
      decreases |mp.Virtual()|
    {
      ghost var v := mp.Virtual();
      var got, d := ReadOne(mp);
      if !got {
        return;
      }
      assert v[1..] == mp.Virtual();
      if !IsSpace(d) {
        PutBackOne(mp, d);
        return;
      }
    }
  }

  /** The line end after a carriage return. */
  method EndOfLine(mp: MpStream)
    requires mp.Valid() && |mp.Ring()| <= 1
    modifies mp, mp.putback
    ensures mp.Valid() && |mp.Ring()| <= 1
    ensures var v := old(mp.Virtual()); mp.Virtual() == if v != [] && v[0] == '\n' then v[1..] else v
  {
    ghost var v := mp.Virtual();
    var got, d := ReadOne(mp);
    if got && d != '\n' {
      PutBackOne(mp, d);
    }
    assert got ==> v[1..] == old(mp.Virtual())[1..];
  }

  /** readHeaderLine: a put-back ring of at most two characters is drained before it is used. */
  method ReadHeaderLine(mp: MpStream) returns (ok: bool, attr: seq<char>, value: seq<char>)
    requires mp.Valid() && |mp.Ring()| <= 2
    modifies mp, mp.putback
    ensures mp.Valid() && |mp.Ring()| <= 1
    ensures HeaderLine(old(mp.Virtual()), [], [], false) == Line(ok, attr, value, mp.Virtual())
  {
    attr, value := [], [];
    var found := false;
    ghost var all := HeaderLine(mp.Virtual(), [], [], false);
    while true
      invariant mp.Valid() && |mp.Ring()| <= 2 && (attr != [] ==> |mp.Ring()| <= 1)
      invariant all == HeaderLine(mp.Virtual(), attr, value, found)
      decreases |mp.Virtual()|
    {
      ghost var v := mp.Virtual();
      var got, d := ReadOne(mp);
      if !got {
        return false, attr, value;
      }
      assert v[1..] == mp.Virtual();
      if d == '\r' {
        EndOfLine(mp);
        break;
      } else if d == '\n' {
        break;
      } else if d == ':' && attr != [] {
        found := true;
        SkipStreamSpaces(mp);
      } else if !found {
        if !IsSpace(d) {
          attr := Append(attr, d);
        }
      } else {
        value := Append(value, d);
      }
    }
    ok := attr != [] && value != [];
  }

  // ---- header values ----

  /** A quoted or plain value and what follows it, from the next semicolon on. */
  function Valued(s: seq<char>): (r: (seq<char>, seq<char>))
    ensures |r.1| <= |s| && (r.1 != [] ==> r.1[0] == ';')
  {
    if s != [] && s[0] == '"' then (Clip(Before(s[1..], '"')), From(From(s[1..], '"'), ';'))
    else (Clip(Before(s, ';')), From(s, ';'))
  }

  function Find(name: seq<char>, names: seq<seq<char>>): (i: nat)
    ensures i <= |names| && (i < |names| ==> EqNc(name, names[i]))
    ensures forall j :: 0 <= j < i ==> !EqNc(name, names[j])
  {
    if names == [] || EqNc(name, names[0]) then 0 else 1 + Find(name, names[1..])
  }

  /** What precedes the equals sign of a parameter: its name and what follows, if well formed. */
  function ParamName(s: seq<char>): (r: (bool, seq<char>, seq<char>))
    ensures |r.2| <= |s|
  {
    var s1 := SkipSpaces(s);
    var name := AlnumPrefix(s1);
    var s2 := SkipSpaces(s1[|name|..]);
    if s2 == [] || s2[0] != '=' then (false, Clip(name), []) else (true, Clip(name), SkipSpaces(s2[1..]))
  }

  /** The parameters behind a value: a later one of the same name replaces the earlier, and a
      malformed one ends the list. */
  function Params(s: seq<char>, names: seq<seq<char>>, args: seq<seq<char>>): (r: seq<seq<char>>)
    requires |args| == |names|
    ensures |r| == |names|
    decreases |s|
  {
    if s == [] || s[0] != ';' then args
    else
      var (ok, name, s3) := ParamName(s[1..]);
      if !ok then args
      else
        var i, (val, rest) := Find(name, names), Valued(s3);
        Params(rest, names, if i < |names| then args[i := val] else args)
  }

  function Decompose(s: seq<char>, names: seq<seq<char>>): (r: (seq<char>, seq<seq<char>>))
    ensures |r.1| == |names|
  {
    var (mvalue, rest) := Valued(SkipSpaces(s));
    (mvalue, Params(rest, names, seq(|names|, _ => [])))
  }

  method SkipFrom(s: seq<char>, p: nat) returns (q: nat)
    requires p <= |s|
    ensures p <= q <= |s| && s[q..] == SkipSpaces(s[p..])
  {
    q := p;
    while q < |s| && IsSpace(s[q])
      invariant p <= q <= |s| && forall k :: p <= k < q ==> IsSpace(s[k])
    {
      q := q + 1;
    }
    SkipSpacesAt(s, p, q);
  }

  lemma ClipSnoc(s: seq<char>, p: nat, q: nat)
    requires p <= q < |s|
    ensures Append(Clip(s[p..q]), s[q]) == Clip(s[p..q + 1])
  {
    assert s[p..q + 1] == s[p..q] + [s[q]];
  }

  /** Copies up to the next `stop`, as far as the buffer goes. */
  method CopyUntil(s: seq<char>, p: nat, stop: char) returns (copy: seq<char>, q: nat)
    requires p <= |s|
    ensures p <= q <= |s| && s[q..] == From(s[p..], stop) && copy == Clip(Before(s[p..], stop))
  {
    copy, q := [], p;
    while q < |s| && s[q] != stop
      invariant p <= q <= |s| && copy == Clip(s[p..q])
      invariant forall k :: p <= k < q ==> s[k] != stop
    {
      ClipSnoc(s, p, q);
      copy := Append(copy, s[q]);
      q := q + 1;
    }
    BeforeAt(s, p, q, stop);
  }

  method CopyValue(s: seq<char>, p: nat) returns (val: seq<char>, q: nat)
    requires p <= |s|
    ensures p <= q <= |s| && Valued(s[p..]) == (val, s[q..])
  {
    if p < |s| && s[p] == '"' {
      assert s[p..][1..] == s[p + 1..];
      val, q := CopyUntil(s, p + 1, '"');
      var _, q' := CopyUntil(s, q, ';');
      q := q';
    } else {
      val, q := CopyUntil(s, p, ';');
    }
  }

  method CopyAlnum(s: seq<char>, p: nat) returns (name: seq<char>, q: nat)
    requires p <= |s|
    ensures p <= q <= |s| && AlnumPrefix(s[p..]) == s[p..q] && name == Clip(s[p..q])
  {
    name, q := [], p;
    while q < |s| && IsAlnum(s[q])
      invariant p <= q <= |s| && name == Clip(s[p..q]) && forall k :: p <= k < q ==> IsAlnum(s[k])
    {
      ClipSnoc(s, p, q);
      name := Append(name, s[q]);
      q := q + 1;
    }
    AlnumPrefixAt(s, p, q);
  }

  method CopyName(s: seq<char>, p: nat) returns (ok: bool, name: seq<char>, q: nat)
    requires p <= |s|
    ensures p <= q <= |s| && ParamName(s[p..]).0 == ok && ParamName(s[p..]).1 == name
    ensures ok ==> ParamName(s[p..]).2 == s[q..]
  {
    var start := SkipFrom(s, p);
    name, q := CopyAlnum(s, start);
    var mid := SkipFrom(s, q);
    ParamNameAt(s, p, start, q, mid);
    ok, q := mid < |s| && s[mid] == '=', mid;
    if ok {
      q := SkipFrom(s, q + 1);
    }
  }

  lemma ParamNameAt(s: seq<char>, p: nat, start: nat, end: nat, mid: nat)
    requires p <= start <= end <= mid <= |s|
    requires s[start..] == SkipSpaces(s[p..]) && s[start..end] == AlnumPrefix(s[start..]) && s[mid..] == SkipSpaces(s[end..])
    ensures var yes := mid < |s| && s[mid] == '=';
            ParamName(s[p..]) == (yes, Clip(s[start..end]), if yes then SkipSpaces(s[mid + 1..]) else [])
  {
    assert s[start..][end - start..] == s[end..];
    assert mid < |s| ==> s[mid..][1..] == s[mid + 1..];
  }

  method FindName(name: seq<char>, names: seq<seq<char>>) returns (i: nat)
    ensures i == Find(name, names)
  {
    i := 0;
    while i < |names|
      invariant i <= |names| && Find(name, names) == i + Find(name, names[i..])
    {
      var eq := StrEqNc(name, names[i]);
      if eq {
        return;
      }
      i := i + 1;
    }
  }

  /** decomposeValue on the C string `s`; `args` holds the values of the parameters `names`. */
  method DecomposeValue(s: seq<char>, names: seq<seq<char>>) returns (mvalue: seq<char>, args: seq<seq<char>>)
    ensures Decompose(s, names) == (mvalue, args)
  {
    args := seq(|names|, _ => []);
    var p := SkipFrom(s, 0);
    assert s[0..] == s;
    mvalue, p := CopyValue(s, p);
    ghost var all := Params(s[p..], names, args);
    var more := true;
    while more && p < |s| && s[p] == ';'
      invariant p <= |s| && |args| == |names|
      invariant all == if more then Params(s[p..], names, args) else args
    {
      more, args, p := TakeParam(s, p, names, args);
    }
  }

  /** One parameter; `more` is false for a malformed one. */
  method TakeParam(s: seq<char>, p: nat, names: seq<seq<char>>, args: seq<seq<char>>)
    returns (more: bool, args': seq<seq<char>>, q: nat)
    requires p < |s| && s[p] == ';' && |args| == |names|
    ensures p < q <= |s| && |args'| == |names|
    ensures Params(s[p..], names, args) == if more then Params(s[q..], names, args') else args'
  {
    assert s[p..][1..] == s[p + 1..];
    var name;
    more, name, q := CopyName(s, p + 1);
    args' := args;
    if more {
      var i := FindName(name, names);
      var val;
      val, q := CopyValue(s, q);
      if i < |names| {
        args' := args[i := val];
      }
    }
  }
}
