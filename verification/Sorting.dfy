/** Python's sorted() on a set of strings. */
module Sorting {

  predicate NoRepeat(q: seq<string>) {
    forall i, j :: 0 <= i < j < |q| ==> q[i] != q[j]
  }

  predicate Less(a: string, b: string) {
    if b == "" then false
    else if a == "" then true
    else a[0] < b[0] || (a[0] == b[0] && Less(a[1..], b[1..]))
  }

  lemma {:induction false} LessTransitive(a: string, b: string, c: string)
    requires Less(a, b) && Less(b, c)
    ensures Less(a, c)
    decreases |a|
  {
    if a != "" && a[0] == b[0] && b[0] == c[0] {
      LessTransitive(a[1..], b[1..], c[1..]);
    }
  }

  lemma {:induction false} LessTotal(a: string, b: string)
    ensures a == b || Less(a, b) || Less(b, a)
    ensures !(Less(a, b) && Less(b, a)) && !Less(a, a)
    decreases |a|
  {
    if a != "" {
      LessTotal(a[1..], if b == "" then "" else b[1..]);
      if b != "" && a[0] == b[0] {
        assert a == [a[0]] + a[1..] && b == [b[0]] + b[1..];
      }
    }
  }

  ghost predicate IsSorted(q: seq<string>) {
    forall i, j :: 0 <= i < j < |q| ==> Less(q[i], q[j])
  }

  function Elements(q: seq<string>): set<string> {
    set x | x in q
  }

  /** The listing of a set is unique. */
  lemma {:induction false} SortedUnique(p: seq<string>, q: seq<string>)
    requires IsSorted(p) && IsSorted(q) && Elements(p) == Elements(q)
    ensures p == q
    decreases |p|
  {
    assert q != [] ==> q[0] in Elements(q);
    if p != [] {
      assert p[0] in Elements(q);
      FirstIsLeast(p, q[0]);
      FirstIsLeast(q, p[0]);
      LessTotal(p[0], q[0]);
      TailElements(p);
      TailElements(q);
      SortedUnique(p[1..], q[1..]);
    }
  }

  lemma FirstIsLeast(q: seq<string>, x: string)
    requires IsSorted(q) && x in q
    ensures q[0] == x || Less(q[0], x)
  {
  }

  lemma TailElements(q: seq<string>)
    requires IsSorted(q) && q != []
    ensures Elements(q[1..]) == Elements(q) - {q[0]} && IsSorted(q[1..])
  {
    forall i | 0 < i < |q| ensures q[i] != q[0] {
      LessTotal(q[0], q[i]);
    }
    assert q == [q[0]] + q[1..];
  }

  method Insert(q: seq<string>, x: string) returns (r: seq<string>)
    requires IsSorted(q) && x !in q
    ensures IsSorted(r) && Elements(r) == Elements(q) + {x}
  {
    var i := 0;
    while i < |q| && Less(q[i], x)
      invariant i <= |q| && forall k :: 0 <= k < i ==> Less(q[k], x)
    {
      i := i + 1;
    }
    r := q[..i] + [x] + q[i..];
    forall k | i <= k < |q| ensures Less(x, q[k]) {
      LessTotal(x, q[i]);
      if k > i { LessTransitive(x, q[i], q[k]); }
    }
    assert q == q[..i] + q[i..];
  }

  /** sorted(s) */
  method Sorted(s: set<string>) returns (q: seq<string>)
    ensures IsSorted(q) && Elements(q) == s
  {
    q := [];
    var todo := s;
    while todo != {}
      invariant todo <= s && IsSorted(q) && Elements(q) == s - todo
      decreases |todo|
    {
      var x :| x in todo;
      assert x !in Elements(q);
      q := Insert(q, x);
      todo := todo - {x};
    }
  }

  lemma SortedOnce(q: seq<string>)
    requires IsSorted(q)
    ensures NoRepeat(q)
  {
    forall i, j | 0 <= i < j < |q| ensures q[i] != q[j] { LessTotal(q[i], q[j]); }
  }
}
