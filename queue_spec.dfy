/** The abstract bounded first-in-first-out queue that the three circular buffers implement,
    and the ring-index facts they share. */
module QueueSpec {

  import Bitops

  /** The result codes shared by the buffers (`OK`, `FULL`, `EMPTY`). */
  datatype Status = Ok | Full | Empty

  /** Adding to a queue of capacity `cap`: refused when full, otherwise appended at the back. */
  function Add<T>(q: seq<T>, cap: nat, x: T): (r: (Status, seq<T>))
    requires |q| <= cap
    ensures |r.1| <= cap
    ensures r.0 == Full <==> |q| == cap
    ensures r.0 == Full ==> r.1 == q
    ensures r.0 != Full ==> r.0 == Ok && |r.1| == |q| + 1 && r.1[..|q|] == q && r.1[|q|] == x
  {
    if |q| == cap then (Full, q) else (Ok, q + [x])
  }

  /** Taking from a queue: refused when empty, leaving the caller's value; otherwise the
      front element is handed out and removed. */
  function Get<T>(q: seq<T>, inout: T): (r: (Status, T, seq<T>))
    ensures r.0 == Empty <==> q == []
    ensures r.0 == Empty ==> r.1 == inout && r.2 == q
    ensures r.0 != Empty ==> r.0 == Ok && q == [r.1] + r.2
  {
    if q == [] then (Empty, inout, q) else (Ok, q[0], q[1..])
  }

  /** Adds every element of `xs` in turn; the statuses and the final queue. */
  function AddAll<T>(q: seq<T>, cap: nat, xs: seq<T>): (r: (seq<Status>, seq<T>))
    requires |q| <= cap
    ensures |r.0| == |xs| && |r.1| <= cap
    decreases |xs|
  {
    if xs == [] then ([], q)
    else
      var (s, q1) := Add(q, cap, xs[0]);
      var (ss, q2) := AddAll(q1, cap, xs[1..]);
      ([s] + ss, q2)
  }

  /** Gets `n` times in turn (each with `inout` as the caller's value); the values handed
      out and the final queue. */
  function GetN<T>(q: seq<T>, n: nat, inout: T): (r: (seq<T>, seq<T>))
    ensures |r.0| == n
    decreases n
  {
    if n == 0 then ([], q)
    else
      var (_, v, q1) := Get(q, inout);
      var (vs, q2) := GetN(q1, n - 1, inout);
      ([v] + vs, q2)
  }

  /** While there is room, every add succeeds and the elements queue up in order. */
  lemma {:induction false} AddAllFits<T>(q: seq<T>, cap: nat, xs: seq<T>)
    requires |q| + |xs| <= cap
    ensures AddAll(q, cap, xs).1 == q + xs
    ensures forall i :: 0 <= i < |xs| ==> AddAll(q, cap, xs).0[i] == Ok
    decreases |xs|
  {
    if xs != [] {
      AddAllFits(q + [xs[0]], cap, xs[1..]);
      assert q + [xs[0]] + xs[1..] == q + xs;
    }
  }

  /** Getting as many times as there are elements hands them out in insertion order and
      leaves the queue empty. */
  lemma {:induction false} GetNDrains<T>(q: seq<T>, inout: T)
    ensures GetN(q, |q|, inout) == (q, [])
    decreases |q|
  {
    if q != [] {
      GetNDrains(q[1..], inout);
      assert [q[0]] + q[1..] == q;
    }
  }

  /** First in, first out: whatever is added to an empty queue within capacity comes back
      out in the same order. */
  lemma FirstInFirstOut<T>(cap: nat, xs: seq<T>, inout: T)
    requires |xs| <= cap
    ensures AddAll([], cap, xs).1 == xs
    ensures GetN(AddAll([], cap, xs).1, |xs|, inout) == (xs, [])
  {
    AddAllFits([], cap, xs);
    assert [] + xs == xs;
    GetNDrains(xs, inout);
  }

  /** Once the queue is full, every further add is refused and the queue stays as it is. */
  lemma {:induction false} AddAllWhenFull<T>(q: seq<T>, cap: nat, xs: seq<T>)
    requires |q| == cap
    ensures AddAll(q, cap, xs).1 == q
    ensures forall i :: 0 <= i < |xs| ==> AddAll(q, cap, xs).0[i] == Full
    decreases |xs|
  {
    if xs != [] {
      AddAllWhenFull(q, cap, xs[1..]);
    }
  }

  // ---------------------------------------------------------------------------
  // The ring: `count` elements of `buf` starting at index `read`, wrapping at the end

  /** The position after `i` in a ring of `n` slots. */
  function Next(i: nat, n: nat): (r: nat)
    requires i < n
    ensures r < n && (r == 0 <==> i == n - 1)
  {
    if i + 1 == n then 0 else i + 1
  }

  /** The slot `i` places after `read` in a ring of `n` slots (i <= n), wrapping once. */
  function Slot(read: nat, i: nat, n: nat): (r: nat)
    requires read < n && i <= n
    ensures r < n
  {
    if read + i < n then read + i else read + i - n
  }

  /** The wrapped slot is the one counted modulo n. */
  lemma SlotIsMod(read: nat, i: nat, n: nat)
    requires read < n && i <= n
    ensures Slot(read, i, n) == (read + i) % n
  {
    if read + i < n {
      Bitops.DivUnique(read + i, n, 0, read + i);
    } else {
      Bitops.DivUnique(read + i, n, 1, read + i - n);
    }
  }

  /** Indices are valid for a ring of `n` slots: `read` and `write` in range (both 0 for an
      empty array), at most `n` elements, and `write` `count` places after `read`. */
  predicate RingIndices(n: nat, read: nat, write: nat, count: nat)
  {
    count <= n && (if n == 0 then read == 0 && write == 0 else read < n && write == Slot(read, count, n))
  }

  /** The elements held in the ring, oldest first. */
  function RingContents<T>(buf: seq<T>, read: nat, count: nat): (s: seq<T>)
    requires count <= |buf| && (|buf| == 0 || read < |buf|)
    ensures |s| == count
  {
    seq(count, i requires 0 <= i < count => buf[Slot(read, i, |buf|)])
  }

  /** Storing at `write` and advancing it appends to the contents. */
  lemma RingAdd<T>(buf: seq<T>, read: nat, write: nat, count: nat, x: T)
    requires RingIndices(|buf|, read, write, count) && count < |buf|
    ensures RingIndices(|buf|, read, Next(write, |buf|), count + 1)
    ensures RingContents(buf[write := x], read, count + 1) == RingContents(buf, read, count) + [x]
  {
    var lhs := RingContents(buf[write := x], read, count + 1);
    var rhs := RingContents(buf, read, count) + [x];
    assert forall i | 0 <= i < count + 1 :: lhs[i] == rhs[i];
  }

  /** Taking at `read` and advancing it removes the front of the contents. */
  lemma RingGet<T>(buf: seq<T>, read: nat, write: nat, count: nat)
    requires RingIndices(|buf|, read, write, count) && count > 0
    ensures RingIndices(|buf|, Next(read, |buf|), write, count - 1)
    ensures RingContents(buf, read, count)[0] == buf[read]
    ensures RingContents(buf, Next(read, |buf|), count - 1) == RingContents(buf, read, count)[1..]
  {
    var lhs := RingContents(buf, Next(read, |buf|), count - 1);
    var rhs := RingContents(buf, read, count)[1..];
    assert forall i | 0 <= i < count - 1 :: lhs[i] == rhs[i];
  }
}
