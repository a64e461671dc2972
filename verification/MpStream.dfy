/** The virtual input stream of cgic: a ring of put-back characters in front of `cgiIn`,
    read up to the declared content length. */
module MpStreams {

  const RING: nat := 1024

  function Min(a: int, b: int): int {
    if a <= b then a else b
  }

  /** The characters waiting in a ring, oldest first. */
  ghost function Waiting(buf: seq<char>, r: nat, w: nat): seq<char>
    requires |buf| == RING && r < RING && w < RING
  {
    if r <= w then buf[r..w] else buf[r..] + buf[..w]
  }

  /** Reading one character removes the oldest one. */
  lemma WaitingPop(buf: seq<char>, r: nat, w: nat)
    requires |buf| == RING && r < RING && w < RING && r != w
    ensures var q := Waiting(buf, r, w);
            q != [] && q[0] == buf[r] && Waiting(buf, (r + 1) % RING, w) == q[1..]
  {
    if r == RING - 1 {
      assert (r + 1) % RING == 0;
    } else {
      assert (r + 1) % RING == r + 1;
    }
  }

  /** Putting one character back adds it behind the waiting ones, if one slot stays free. */
  lemma WaitingPush(buf: seq<char>, r: nat, w: nat, c: char)
    requires |buf| == RING && r < RING && w < RING
    requires |Waiting(buf, r, w)| < RING - 1
    ensures Waiting(buf[w := c], r, (w + 1) % RING) == Waiting(buf, r, w) + [c]
  {
    if w == RING - 1 {
      assert (w + 1) % RING == 0;
    } else {
      assert (w + 1) % RING == w + 1;
    }
  }

  /** What `data` pushed one by one makes of a ring. */
  function PushAll(buf: seq<char>, w: nat, data: seq<char>): (r: (seq<char>, nat))
    requires |buf| == RING && w < RING
    ensures |r.0| == RING && r.1 < RING
    decreases |data|
  {
    if data == [] then (buf, w)
    else PushAll(buf[w := data[0]], (w + 1) % RING, data[1..])
  }

  lemma Regroup(q: seq<char>, data: seq<char>)
    requires data != []
    ensures q + [data[0]] + data[1..] == q + data
  {
  }

  lemma {:induction false} PushAllQueues(buf: seq<char>, r: nat, w: nat, data: seq<char>)
    requires |buf| == RING && r < RING && w < RING
    requires |Waiting(buf, r, w)| + |data| < RING
    ensures var q := PushAll(buf, w, data);
            Waiting(q.0, r, q.1) == Waiting(buf, r, w) + data
    decreases |data|
  {
    var q := Waiting(buf, r, w);
    if data == [] {
      assert q + [] == q;
    } else {
      WaitingPush(buf, r, w, data[0]);
      PushAllQueues(buf[w := data[0]], r, (w + 1) % RING, data[1..]);
      Regroup(q, data);
    }
  }

  /** The ring queues what is put back exactly when fewer than 1024 characters then wait:
      the comment in the source allows 1024, but a full ring looks empty. */
  lemma RingQueuesIffRoom(buf: seq<char>, r: nat, w: nat, data: seq<char>)
    requires |buf| == RING && r < RING && w < RING
    ensures var q := PushAll(buf, w, data);
            (Waiting(q.0, r, q.1) == Waiting(buf, r, w) + data) <==> |Waiting(buf, r, w)| + |data| < RING
  {
    if |Waiting(buf, r, w)| + |data| < RING {
      PushAllQueues(buf, r, w, data);
    } else {
      var q := PushAll(buf, w, data);
      assert |Waiting(q.0, r, q.1)| < RING;
    }
  }

  lemma TakeInTwo(s: seq<char>, k: nat, n: nat)
    requires k <= n <= |s|
    ensures s[..n] == s[..k] + s[k..][..n - k]
  {
  }

  lemma TakeNext(data: seq<char>, c: char, rest: seq<char>)
    ensures data + ([c] + rest) == data + [c] + rest
  {
  }

  /** `n` characters taken of ring `q` and `rest`: from the ring first, and `more` from the rest. */
  lemma TakenInFront(q: seq<char>, rest: seq<char>, n: nat, taken: seq<char>, more: seq<char>, ring': seq<char>, rest': seq<char>)
    requires taken == q[..Min(n, |q|)] && ring' == q[Min(n, |q|)..]
    requires rest == more + rest' && |more| == Min(n - |taken|, |rest|)
    ensures q + rest == (taken + more) + (ring' + rest') && |taken + more| == Min(n, |q + rest|)
  {
    assert q == taken + ring';
  }

  class MpStream {
    /** Put-back ring; the next character comes from it unless readPos == writePos. */
    const putback: array<char>
    var readPos: nat
    var writePos: nat
    /** Offset in the virtual stream, comparable with the content length. */
    var offset: int
    /** What `cgiIn` still has to deliver. */
    var input: seq<char>
    const contentLength: nat
    ghost const whole: seq<char>

    ghost predicate Valid()
      reads this, putback
    {
      && putback.Length == RING && readPos < RING && writePos < RING
      && 0 <= offset
      && |input| <= |whole| && input == whole[|whole| - |input|..]
      && offset + |Ring()| == |whole| - |input| <= contentLength
    }

    ghost function Ring(): seq<char>
      reads this, putback
      requires putback.Length == RING && readPos < RING && writePos < RING
    {
      Waiting(putback[..], readPos, writePos)
    }

    /** The input that may still be read without passing the declared length. */
    ghost function Rest(): seq<char>
      reads this, putback
      requires Valid()
    {
      input[..Min(|input|, contentLength - offset - |Ring()|)]
    }

    ghost function Virtual(): seq<char>
      reads this, putback
      requires Valid()
    {
      Ring() + Rest()
    }

    constructor (cgiIn: seq<char>, length: nat)
      ensures Valid() && fresh(putback)
      ensures Ring() == [] && offset == 0 && contentLength == length && whole == cgiIn
      ensures Rest() == cgiIn[..Min(|cgiIn|, length)]
    {
      putback := new char[RING];
      readPos, writePos, offset := 0, 0, 0;
      input, whole, contentLength := cgiIn, cgiIn, length;
    }

    /** Takes the oldest waiting character. */
    method Pop() returns (c: char)
      requires putback.Length == RING && readPos < RING && writePos < RING && readPos != writePos
      modifies this`readPos
      ensures readPos < RING && old(Ring()) == [c] + Ring()
    {
      WaitingPop(putback[..], readPos, writePos);
      c := putback[readPos];
      readPos := (readPos + 1) % RING;
    }

    /** Takes up to `limit` characters out of the ring, oldest first. */
    method Drain(limit: nat) returns (data: seq<char>)
      requires Valid() && limit <= contentLength - offset
      modifies this`readPos, this`offset
      ensures Valid() && Rest() == old(Rest()) && offset == old(offset) + |data|
      ensures data == old(Ring())[..Min(limit, |old(Ring())|)]
      ensures Ring() == old(Ring())[Min(limit, |old(Ring())|)..]
    {
      data := [];
      while |data| < limit && readPos != writePos
        invariant readPos < RING
        invariant offset == old(offset) && |data| <= limit && old(Ring()) == data + Ring()
        decreases limit - |data|
      {
        var c := Pop();
        TakeNext(data, c, Ring());
        data := data + [c];
      }
      offset := offset + |data|;
    }

    /** fread of up to `limit` characters, the ring being empty. */
    method FromFile(limit: nat) returns (data: seq<char>)
      requires Valid() && Ring() == [] && limit <= contentLength - offset
      modifies this`input, this`offset
      ensures Valid() && Ring() == [] && offset == old(offset) + |data|
      ensures old(Rest()) == data + Rest() && |data| == Min(limit, |old(Rest())|)
    {
      var n := Min(limit, |input|);
      ghost var most := Min(|input|, contentLength - offset);
      TakeInTwo(input, n, most);
      data := input[..n];
      input := input[n..];
      offset := offset + n;
    }

    /** Nothing of the virtual stream lies behind the declared length. */
    lemma VirtualFits(len: nat)
      requires Valid()
      ensures Min(len, |Virtual()|) == Min(Min(len, contentLength - offset), |Virtual()|)
    {
      assert |Virtual()| <= contentLength - offset;
    }

    /** mpRead: at most `len` characters, ring first; `got` is EOF (-1) at the declared end. */
    method Read(len: nat) returns (got: int, data: seq<char>)
      requires Valid()
      modifies this
      ensures Valid()
      ensures old(Virtual()) == data + Virtual() && |data| == Min(len, |old(Virtual())|)
      ensures Ring() == old(Ring())[Min(len, |old(Ring())|)..]
      ensures offset == old(offset) + |data|
      ensures got == if len > 0 && old(offset) == contentLength then -1 else |data|
    {
      var n := Min(len, contentLength - offset);
      ghost var q, rest := Ring(), Rest();
      VirtualFits(len);
      data := Drain(n);
      var more := [];
      if |data| < n {
        more := FromFile(n - |data|);
      }
      TakenInFront(q, rest, n, data, more, Ring(), Rest());
      data := data + more;
      got := if n == 0 && len > 0 then -1 else |data|;
    }

    /** The loop of mpPutBack, whether there is room in the ring or not. */
    method Push(data: seq<char>)
      requires putback.Length == RING && writePos < RING
      modifies this`writePos, putback
      ensures (putback[..], writePos) == PushAll(old(putback[..]), old(writePos), data)
    {
      var i := 0;
      ghost var all := PushAll(putback[..], writePos, data);
      assert data[0..] == data;
      while i < |data|
        invariant 0 <= i <= |data| && writePos < RING
        invariant PushAll(putback[..], writePos, data[i..]) == all
      {
        ghost var before := putback[..];
        putback[writePos] := data[i];
        assert putback[..] == before[writePos := data[i]] && data[i..][1..] == data[i + 1..];
        writePos := (writePos + 1) % RING;
        i := i + 1;
      }
    }

    /** mpPutBack: appends at the tail, so it undoes a read only while the ring is empty. */
    method PutBack(data: seq<char>)
      requires Valid() && |Ring()| + |data| < RING && |data| <= offset
      modifies this, putback
      ensures Valid()
      ensures Ring() == old(Ring()) + data && Rest() == old(Rest())
      ensures offset == old(offset) - |data|
    {
      offset := offset - |data|;
      PushAllQueues(putback[..], readPos, writePos, data);
      Push(data);
    }
  }
}
