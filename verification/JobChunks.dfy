/** Sharing out the recipes to parse among BitBake's worker processes. */
module JobChunks {

  type Job = nat

  /** How often a job occurs in a list. */
  function Count(q: seq<Job>, j: Job): nat {
    if q == [] then 0 else (if q[0] == j then 1 else 0) + Count(q[1..], j)
  }

  lemma {:induction false} CountAppend(p: seq<Job>, q: seq<Job>, j: Job)
    ensures Count(p + q, j) == Count(p, j) + Count(q, j)
  {
    if p == [] {
      assert p + q == q;
    } else {
      assert (p + q)[1..] == p[1..] + q;
      CountAppend(p[1..], q, j);
    }
  }

  lemma CountLast(q: seq<Job>, j: Job)
    requires q != []
    ensures Count(q, j) == Count(q[..|q| - 1], j) + Count([q[|q| - 1]], j)
  {
    assert q == q[..|q| - 1] + [q[|q| - 1]];
    CountAppend(q[..|q| - 1], [q[|q| - 1]], j);
  }

  /** lst[i::n] */
  function Strided(lst: seq<Job>, i: nat, n: nat): seq<Job>
    requires n > 0
    decreases |lst| - i
  {
    if i < |lst| then [lst[i]] + Strided(lst, i + n, n) else []
  }

  function CountAll(chunks: seq<seq<Job>>, j: Job): nat {
    if chunks == [] then 0 else Count(chunks[0], j) + CountAll(chunks[1..], j)
  }

  lemma {:induction false} CountAllAppend(p: seq<seq<Job>>, chunk: seq<Job>, j: Job)
    ensures CountAll(p + [chunk], j) == CountAll(p, j) + Count(chunk, j)
  {
    if p != [] {
      assert (p + [chunk])[1..] == p[1..] + [chunk];
      CountAllAppend(p[1..], chunk, j);
    }
  }

  /** The occurrences of a job in the `m` chunks that start at consecutive indices from `k` on. */
  ghost function CountChunks(lst: seq<Job>, k: nat, m: nat, n: nat, j: Job): nat
    requires n > 0
  {
    if m == 0 then 0 else CountChunks(lst, k, m - 1, n, j) + Count(Strided(lst, k + m - 1, n), j)
  }

  lemma {:induction false} CountChunksCons(lst: seq<Job>, k: nat, m: nat, n: nat, j: Job)
    requires n > 0 && m > 0
    ensures CountChunks(lst, k, m, n, j) == Count(Strided(lst, k, n), j) + CountChunks(lst, k + 1, m - 1, n, j)
  {
    if m > 1 {
      CountChunksCons(lst, k, m - 1, n, j);
    }
  }

  /** n chunks in a row hold every later job exactly as often as the list does. */
  lemma {:induction false} ChunksPartition(lst: seq<Job>, k: nat, n: nat, j: Job)
    requires n > 0 && k <= |lst|
    ensures CountChunks(lst, k, n, n, j) == Count(lst[k..], j)
    decreases |lst| - k
  {
    if k == |lst| {
      NoChunks(lst, k, n, n, j);
    } else {
      ChunksPartition(lst, k + 1, n, j);
      CountChunksCons(lst, k, n, n, j);
      assert (lst[k..])[1..] == lst[k + 1..];
      assert Strided(lst, k, n)[1..] == Strided(lst, k + n, n);
    }
  }

  lemma {:induction false} NoChunks(lst: seq<Job>, k: nat, m: nat, n: nat, j: Job)
    requires n > 0 && k >= |lst|
    ensures CountChunks(lst, k, m, n, j) == 0
  {
    if m > 0 {
      NoChunks(lst, k, m - 1, n, j);
    }
  }

  /** chunkify: the chunks share out the list without loss or duplication. */
  method Chunkify(lst: seq<Job>, n: nat) returns (chunks: seq<seq<Job>>)
    requires n > 0
    ensures |chunks| == n && forall i :: 0 <= i < n ==> chunks[i] == Strided(lst, i, n)
    ensures forall j :: CountAll(chunks, j) == Count(lst, j)
  {
    chunks := [];
    for i := 0 to n
      invariant |chunks| == i && forall k :: 0 <= k < i ==> chunks[k] == Strided(lst, k, n)
      invariant forall j :: CountAll(chunks, j) == CountChunks(lst, 0, i, n, j)
    {
      var chunk := Stride(lst, i, n);
      forall j { CountAllAppend(chunks, chunk, j); }
      chunks := chunks + [chunk];
    }
    forall j ensures CountAll(chunks, j) == Count(lst, j) {
      ChunksPartition(lst, 0, n, j);
      assert lst[0..] == lst;
    }
  }

  /** Chunk `i` holds every n-th job from the i-th on, in order. */
  lemma {:induction false} StridedAt(lst: seq<Job>, i: nat, n: nat, k: nat)
    requires n > 0
    ensures k < |Strided(lst, i, n)| <==> i + k * n < |lst|
    ensures k < |Strided(lst, i, n)| ==> Strided(lst, i, n)[k] == lst[i + k * n]
    decreases k
  {
    if k > 0 {
      assert i + k * n == i + n + (k - 1) * n;
      if i < |lst| { StridedAt(lst, i + n, n, k - 1); }
    }
  }

  lemma {:induction false} StridedShrinks(lst: seq<Job>, i: nat, j: nat, n: nat)
    requires n > 0 && i <= j
    ensures |Strided(lst, j, n)| <= |Strided(lst, i, n)|
    decreases |lst| - i
  {
    if j < |lst| {
      StridedShrinks(lst, i + n, j + n, n);
    }
  }

  /** No chunk is more than one job longer than another. */
  lemma ChunksAreEven(lst: seq<Job>, n: nat, i: nat, j: nat)
    requires i < n && j < n
    ensures |Chunks(lst, n)[i]| <= |Chunks(lst, n)[j]| + 1
  {
    if i <= j { StridedShrinks(lst, j, i + n, n); } else { StridedShrinks(lst, j, i, n); }
  }

  lemma Regroup(p: seq<Job>, j: Job, q: seq<Job>)
    ensures p + [j] + q == p + ([j] + q)
  {
  }

  method Stride(lst: seq<Job>, i: nat, n: nat) returns (chunk: seq<Job>)
    requires n > 0
    ensures chunk == Strided(lst, i, n)
  {
    chunk := [];
    var p := i;
    while p < |lst|
      invariant chunk + Strided(lst, p, n) == Strided(lst, i, n)
      decreases |lst| - p
    {
      Regroup(chunk, lst[p], Strided(lst, p + n, n));
      chunk := chunk + [lst[p]];
      p := p + n;
    }
    assert chunk + [] == chunk;
  }

  /** The chunks as a list, for those who only need them. */
  function Chunks(lst: seq<Job>, n: nat): (r: seq<seq<Job>>)
    requires n > 0
    ensures |r| == n
  {
    seq(n, i requires 0 <= i < n => Strided(lst, i, n))
  }

  lemma {:induction false} CountPrefix(lst: seq<Job>, m: nat, n: nat, j: Job)
    requires n > 0 && m <= n
    ensures CountAll(Chunks(lst, n)[..m], j) == CountChunks(lst, 0, m, n, j)
  {
    if m > 0 {
      var c := Chunks(lst, n);
      CountPrefix(lst, m - 1, n, j);
      assert c[..m] == c[..m - 1] + [c[m - 1]];
      CountAllAppend(c[..m - 1], c[m - 1], j);
    }
  }

  lemma ChunksShareOut(lst: seq<Job>, n: nat, j: Job)
    requires n > 0
    ensures CountAll(Chunks(lst, n), j) == Count(lst, j)
  {
    CountPrefix(lst, n, n, j);
    assert Chunks(lst, n)[..n] == Chunks(lst, n);
    ChunksPartition(lst, 0, n, j);
    assert lst[0..] == lst;
  }
}
