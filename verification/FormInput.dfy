/** cgic's urlencoded forms (section 17.13.4 of HTML 4.01; section 2.1 of RFC 3986). */
module FormInput {
  import opened Text

  /** A name and its value, as C strings. */
  type Pair = (seq<char>, seq<char>)

  /** The cgiHexValue table: other characters count as zero. */
  function HexValue(c: char): (n: nat)
    ensures n < 16
  {
    if '0' <= c <= '9' then c as int - '0' as int
    else if 'A' <= c <= 'F' then c as int - 'A' as int + 10
    else if 'a' <= c <= 'f' then c as int - 'a' as int + 10
    else 0
  }

  function Escaped(high: char, low: char): char {
    (HexValue(high) * 16 + HexValue(low)) as char
  }

  // ---- unescaping ----

  /** An escape cut off by the end is dropped. */
  function Unescape(s: seq<char>): (r: seq<char>)
    ensures |r| <= |s|
  {
    if s == [] then []
    else if s[0] == '%' then (if |s| < 3 then [] else [Escaped(s[1], s[2])] + Unescape(s[3..]))
    else [if s[0] == '+' then ' ' else s[0]] + Unescape(s[1..])
  }

  lemma PlainStep(cp: seq<char>, p: nat, s: seq<char>)
    requires p < |cp| && cp[p] != '%'
    ensures s + [if cp[p] == '+' then ' ' else cp[p]] + Unescape(cp[p + 1..]) == s + Unescape(cp[p..])
  {
    assert cp[p..][1..] == cp[p + 1..];
  }

  lemma EscapeStep(cp: seq<char>, p: nat, s: seq<char>)
    requires p + 2 < |cp| && cp[p] == '%'
    ensures s + [Escaped(cp[p + 1], cp[p + 2])] + Unescape(cp[p + 3..]) == s + Unescape(cp[p..])
  {
    assert cp[p..][3..] == cp[p + 3..];
  }

  datatype EscapeState = Rest | First | Second

  /** cgiUnescapeChars: what is written never passes what has been read. */
  method UnescapeChars(cp: seq<char>) returns (s: seq<char>)
    ensures s == Unescape(cp) && |s| <= |cp|
  {
    var escapeState, escapedValue, srcPos := Rest, 0, 0;
    s := [];
    ghost var start := 0;
    while srcPos < |cp|
      invariant start <= srcPos <= |cp| && |s| <= start && s + Unescape(cp[start..]) == Unescape(cp)
      invariant srcPos - start == match escapeState case Rest => 0 case First => 1 case Second => 2
      invariant escapeState != Rest ==> cp[start] == '%'
      invariant escapeState == Second ==> escapedValue == HexValue(cp[start + 1]) * 16
    {
      var ch := cp[srcPos];
      match escapeState {
        case Rest =>
          if ch == '%' {
            escapeState := First;
          } else {
            PlainStep(cp, start, s);
            var d := if ch == '+' then ' ' else ch;
            s, start := s + [d], start + 1;
          }
        case First =>
          escapedValue := HexValue(ch) * 16;
          escapeState := Second;
        case Second =>
          escapedValue := escapedValue + HexValue(ch);
          EscapeStep(cp, start, s);
          var d := escapedValue as char;
          assert d == Escaped(cp[start + 1], cp[start + 2]);
          s, start := s + [d], start + 3;
          escapeState := Rest;
      }
      srcPos := srcPos + 1;
    }
    assert Unescape(cp[start..]) == [];
  }

  // ---- splitting ----

  function NamePart(s: seq<char>): (r: seq<char>)
    ensures |r| <= |s|
  {
    if s == [] || s[0] == '&' || s[0] == '=' then [] else [s[0]] + NamePart(s[1..])
  }

  function BehindName(s: seq<char>): (r: seq<char>)
    ensures |r| + |NamePart(s)| <= |s|
  {
    var r := s[|NamePart(s)|..];
    if r != [] && r[0] == '=' then r[1..] else r
  }

  /** The pairs of a form: a name without a value gets an empty one, an empty name ends the form. */
  function Pairs(s: seq<char>): seq<Pair>
    decreases |s|
  {
    var name := NamePart(s);
    if name == [] then []
    else
      var value, more := Before(BehindName(s), '&'), From(BehindName(s), '&');
      var pair := (CString(Unescape(name)), CString(Unescape(value)));
      [pair] + if more == [] then [] else Pairs(more[1..])
  }

  lemma {:induction false} NamePartAt(s: seq<char>, p: nat, q: nat)
    requires p <= q <= |s| && (q == |s| || s[q] == '&' || s[q] == '=')
    requires forall k :: p <= k < q ==> s[k] != '&' && s[k] != '='
    ensures NamePart(s[p..]) == s[p..q]
    decreases q - p
  {
    if p < q {
      NamePartAt(s, p + 1, q);
      assert s[p..][1..] == s[p + 1..];
      assert [s[p]] + s[p + 1..q] == s[p..q];
    }
  }

  method ScanName(data: seq<char>, start: nat) returns (end: nat)
    requires start <= |data|
    ensures start <= end <= |data| && data[start..end] == NamePart(data[start..])
  {
    end := start;
    while end < |data| && data[end] != '&' && data[end] != '='
      invariant start <= end <= |data| && forall k :: start <= k < end ==> data[k] != '&' && data[k] != '='
    {
      end := end + 1;
    }
    NamePartAt(data, start, end);
  }

  lemma BehindNameAt(data: seq<char>, start: nat, end: nat)
    requires start <= end <= |data| && data[start..end] == NamePart(data[start..])
    ensures BehindName(data[start..]) == if end < |data| && data[end] == '=' then data[end + 1..] else data[end..]
  {
    assert |NamePart(data[start..])| == end - start;
    assert data[start..][end - start..] == data[end..];
    assert end < |data| ==> data[end..][1..] == data[end + 1..];
  }

  method ScanValue(data: seq<char>, start: nat) returns (end: nat)
    requires start <= |data|
    ensures start <= end <= |data|
    ensures data[start..end] == Before(data[start..], '&') && data[end..] == From(data[start..], '&')
  {
    end := start;
    while end < |data| && data[end] != '&'
      invariant start <= end <= |data| && forall k :: start <= k < end ==> data[k] != '&'
    {
      end := end + 1;
    }
    BeforeAt(data, start, end, '&');
  }

  /** The pair at `pos`; `found` is false for an empty name, `more` whether a & follows. */
  method ReadPair(data: seq<char>, pos: nat) returns (found: bool, pair: Pair, more: bool, next: nat)
    requires pos <= |data|
    ensures pos <= next <= |data| && (found && more ==> pos < next)
    ensures Pairs(data[pos..]) == if !found then [] else [pair] + if more then Pairs(data[next..]) else []
  {
    var end := ScanName(data, pos);
    BehindNameAt(data, pos, end);
    if end == pos {
      return false, ([], []), false, pos;
    }
    var attr := UnescapeChars(data[pos..end]);
    var start := if end < |data| && data[end] == '=' then end + 1 else end;
    end := ScanValue(data, start);
    var value := UnescapeChars(data[start..end]);
    found, pair, more := true, (CString(attr), CString(value)), end < |data|;
    next := if more then end + 1 else end;
    assert more ==> data[end..][1..] == data[next..];
  }

  /** cgiParseFormInput */
  method ParseFormInput(data: seq<char>) returns (entries: seq<Pair>)
    ensures entries == Pairs(data)
  {
    entries := [];
    var pos := 0;
    assert data[0..] == data;
    while pos != |data|
      invariant pos <= |data| && entries + Pairs(data[pos..]) == Pairs(data)
      decreases |data| - pos
    {
      var found, pair, more, next := ReadPair(data, pos);
      if !found {
        break;
      }
      Regroup(entries, pair, if more then Pairs(data[next..]) else []);
      entries := entries + [pair];
      if !more {
        return;
      }
      pos := next;
    }
    assert Pairs(data[pos..]) == [];
  }

  lemma Regroup(p: seq<Pair>, x: Pair, q: seq<Pair>)
    ensures p + ([x] + q) == p + [x] + q && p + [x] + [] == p + [x]
  {
  }

  // ---- round trip ----

  predicate IsHex(c: char) {
    '0' <= c <= '9' || 'A' <= c <= 'F' || 'a' <= c <= 'f'
  }

  /** `e` is some urlencoding of `s`: each character stands for itself, is a plus for a space, or
      is an escape with digits of either case. */
  predicate Encodes(e: seq<char>, s: seq<char>)
    decreases |s|
  {
    if s == [] then e == []
    else
      || (e != [] && e[0] == s[0] && e[0] !in "%+&=" && Encodes(e[1..], s[1..]))
      || (e != [] && e[0] == '+' && s[0] == ' ' && Encodes(e[1..], s[1..]))
      || (|e| >= 3 && e[0] == '%' && IsHex(e[1]) && IsHex(e[2]) && Escaped(e[1], e[2]) == s[0]
          && Encodes(e[3..], s[1..]))
  }

  lemma {:induction false} EncodedComesBack(e: seq<char>, s: seq<char>)
    requires Encodes(e, s)
    ensures Unescape(e) == s && '&' !in e && '=' !in e && (s != [] ==> e != [])
    decreases |s|
  {
    if s != [] {
      var n := if e[0] == '%' then 3 else 1;
      EncodedComesBack(e[n..], s[1..]);
      assert e == e[..n] + e[n..];
      assert s == [s[0]] + s[1..];
    }
  }

  /** A hexadecimal digit, with a small letter or a capital. */
  function Digit(n: nat, small: bool): (c: char)
    requires n < 16
    ensures IsHex(c) && HexValue(c) == n
  {
    if n < 10 then ('0' as int + n) as char
    else if small then ('a' as int + n - 10) as char
    else ('A' as int + n - 10) as char
  }

  /** An encoder, to show that every byte string has an encoding. */
  function Encode(s: seq<char>, small: bool): seq<char>
    requires forall i :: 0 <= i < |s| ==> s[i] as int < 256
  {
    if s == [] then []
    else (if IsAlnum(s[0]) then [s[0]]
          else if s[0] == ' ' then ['+']
          else ['%', Digit(s[0] as int / 16, small), Digit(s[0] as int % 16, small)]) + Encode(s[1..], small)
  }

  lemma {:induction false} EncodeEncodes(s: seq<char>, small: bool)
    requires forall i :: 0 <= i < |s| ==> s[i] as int < 256
    ensures Encodes(Encode(s, small), s)
  {
    if s != [] {
      var e, tail := Encode(s, small), Encode(s[1..], small);
      EncodeEncodes(s[1..], small);
      if IsAlnum(s[0]) || s[0] == ' ' {
        assert e[1..] == tail;
      } else {
        assert e[1] == Digit(s[0] as int / 16, small) && e[2] == Digit(s[0] as int % 16, small) && e[3..] == tail;
      }
    }
  }

  /** An escape that the end cuts off is dropped, and nothing else. */
  lemma {:induction false} CutEscapeIsDropped(e: seq<char>, s: seq<char>, h: seq<char>)
    requires Encodes(e, s) && |h| <= 1
    ensures Unescape(e + (['%'] + h)) == s
    decreases |s|
  {
    var cut := ['%'] + h;
    if s == [] {
      assert e + cut == cut;
    } else {
      var n := if e[0] == '%' then 3 else 1;
      assert (e + cut)[n..] == e[n..] + cut && forall i :: 0 <= i < n ==> (e + cut)[i] == e[i];
      CutEscapeIsDropped(e[n..], s[1..], h);
      assert s == [s[0]] + s[1..];
    }
  }

  /** A name with its value as they are sent, or a name alone. */
  datatype Item = Full(name: seq<char>, value: seq<char>) | Bare(name: seq<char>)

  function ItemText(e: Item): seq<char> {
    match e
    case Full(name, value) => name + ['='] + value
    case Bare(name) => name
  }

  function Serialise(es: seq<Item>): seq<char> {
    if es == [] then [] else ItemText(es[0]) + if |es| == 1 then [] else ['&'] + Serialise(es[1..])
  }

  /** What is sent of a pair of byte strings; a name alone stands for an empty value. */
  ghost predicate IsItem(e: Item, p: Pair) {
    && Encodes(e.name, p.0) && (if e.Full? then Encodes(e.value, p.1) else p.1 == []) && p.0 != []
  }

  ghost predicate IsForm(es: seq<Item>, ps: seq<Pair>) {
    |es| == |ps| && forall i :: 0 <= i < |ps| ==> IsItem(es[i], ps[i])
  }

  /** What of the pairs is stored: each text up to its first NUL. */
  function Stored(ps: seq<Pair>): seq<Pair> {
    seq(|ps|, i requires 0 <= i < |ps| => (CString(ps[i].0), CString(ps[i].1)))
  }

  /** Pairs of C strings are stored as they are. */
  lemma CStringsAreStored(ps: seq<Pair>)
    requires forall i :: 0 <= i < |ps| ==> NUL !in ps[i].0 && NUL !in ps[i].1
    ensures Stored(ps) == ps
  {
    forall i | 0 <= i < |ps| ensures Stored(ps)[i] == ps[i] {
      SplitNone(ps[i].0, NUL);
      SplitNone(ps[i].1, NUL);
    }
  }

  lemma NamePartStops(n: seq<char>, rest: seq<char>)
    requires '&' !in n && '=' !in n && (rest != [] ==> rest[0] == '&' || rest[0] == '=')
    ensures NamePart(n + rest) == n && (n + rest)[|n|..] == rest
  {
    var s := n + rest;
    NamePartAt(s, 0, |n|);
    assert s[0..] == s && s[0..|n|] == n;
  }

  lemma SplitValue(v: seq<char>, more: seq<char>)
    requires '&' !in v && (more != [] ==> more[0] == '&')
    ensures Before(v + more, '&') == v && From(v + more, '&') == more
  {
    if more == [] {
      assert v + more == v;
      SplitNone(v, '&');
    } else {
      assert v + more == v + ['&'] + more[1..];
      SplitAt(v, '&', more[1..]);
      assert ['&'] + more[1..] == more;
    }
  }

  /** The first pair of a form and what follows it. */
  lemma FirstPair(n: seq<char>, v: seq<char>, more: seq<char>)
    requires '&' !in n && '=' !in n && n != [] && '&' !in v && (more != [] ==> more[0] == '&')
    ensures Pairs(n + ['='] + v + more)
         == [(CString(Unescape(n)), CString(Unescape(v)))] + if more == [] then [] else Pairs(more[1..])
  {
    assert n + ['='] + v + more == n + (['='] + (v + more));
    NamePartStops(n, ['='] + (v + more));
    assert (['='] + (v + more))[1..] == v + more;
    SplitValue(v, more);
  }

  lemma FirstBare(n: seq<char>, more: seq<char>)
    requires '&' !in n && '=' !in n && n != [] && (more != [] ==> more[0] == '&')
    ensures Pairs(n + more) == [(CString(Unescape(n)), [])] + if more == [] then [] else Pairs(more[1..])
  {
    NamePartStops(n, more);
    assert BehindName(n + more) == more && [] + more == more;
    SplitValue([], more);
  }

  lemma ItemRead(e: Item, p: Pair, more: seq<char>)
    requires IsItem(e, p) && (more != [] ==> more[0] == '&')
    ensures Pairs(ItemText(e) + more) == [(CString(p.0), CString(p.1))] + if more == [] then [] else Pairs(more[1..])
  {
    EncodedComesBack(e.name, p.0);
    match e
    case Full(n, v) =>
      EncodedComesBack(v, p.1);
      FirstPair(n, v, more);
    case Bare(n) =>
      FirstBare(n, more);
  }

  /** Every form comes back from any of its encodings, in order, and then what is read behind it. */
  lemma {:induction false} FormIsRead(es: seq<Item>, ps: seq<Pair>, more: seq<char>)
    requires IsForm(es, ps) && es != [] && (more != [] ==> more[0] == '&')
    ensures Pairs(Serialise(es) + more) == Stored(ps) + if more == [] then [] else Pairs(more[1..])
    decreases |ps|
  {
    SerialiseStep(es, more);
    if |es| == 1 {
      ItemRead(es[0], ps[0], more);
      StoredParts(ps);
    } else {
      var next := Serialise(es[1..]) + more;
      FormIsRead(es[1..], ps[1..], more);
      FirstOfMore(es[0], ps[0], next);
      StoredParts(ps);
      PairsSum(Stored(ps), if more == [] then [] else Pairs(more[1..]));
    }
  }

  lemma FirstOfMore(e: Item, p: Pair, next: seq<char>)
    requires IsItem(e, p)
    ensures Pairs(ItemText(e) + (['&'] + next)) == [(CString(p.0), CString(p.1))] + Pairs(next)
  {
    ItemRead(e, p, ['&'] + next);
    assert (['&'] + next)[1..] == next;
  }

  lemma StoredParts(ps: seq<Pair>)
    requires ps != []
    ensures Stored(ps)[0] == (CString(ps[0].0), CString(ps[0].1)) && Stored(ps)[1..] == Stored(ps[1..])
    ensures |ps| == 1 ==> Stored(ps) == [Stored(ps)[0]]
  {
  }

  lemma SerialiseStep(es: seq<Item>, more: seq<char>)
    requires es != []
    ensures Serialise(es) + more
         == ItemText(es[0]) + if |es| == 1 then more else ['&'] + (Serialise(es[1..]) + more)
  {
    TextSum(ItemText(es[0]), if |es| == 1 then [] else Serialise(es[1..]), more);
  }

  lemma TextSum(x: seq<char>, y: seq<char>, z: seq<char>)
    ensures x + (['&'] + y) + z == x + (['&'] + (y + z)) && x + [] + z == x + z
  {
  }

  lemma PairsSum(ps: seq<Pair>, q: seq<Pair>)
    requires ps != []
    ensures [ps[0]] + (ps[1..] + q) == ps + q
  {
  }

  lemma FormRoundTrip(es: seq<Item>, ps: seq<Pair>)
    requires IsForm(es, ps)
    ensures Pairs(Serialise(es)) == Stored(ps)
  {
    if es != [] {
      FormIsRead(es, ps, []);
      assert Serialise(es) + [] == Serialise(es);
    }
  }

  /** A form ends at an empty name: a second separator, or a value without a name. */
  lemma EmptyNameEnds(es: seq<Item>, ps: seq<Pair>, rest: seq<char>)
    requires IsForm(es, ps) && (rest != [] ==> rest[0] == '&' || rest[0] == '=')
    ensures Pairs(rest) == [] && (es != [] ==> Pairs(Serialise(es) + (['&'] + rest)) == Stored(ps))
  {
    if es != [] {
      FormIsRead(es, ps, ['&'] + rest);
      assert (['&'] + rest)[1..] == rest;
    }
  }
}
