/** Ring buffers whose size is a power of two, with one place always free. */
module Circ {
  import Arith

  function Min(a: int, b: int): int { if a < b then a else b }

  /** CIRC_CNT: masking with size - 1 is the remainder. */
  function Cnt(head: int, tail: int, size: nat): (n: nat)
    requires size > 0
    ensures n < size
  {
    (head - tail) % size
  }

  function Space(head: int, tail: int, size: nat): (n: nat)
    requires size > 0
    ensures n < size
  {
    Cnt(tail, head + 1, size)
  }

  function CntToEnd(head: int, tail: int, size: nat): int
    requires size > 0
  {
    Min(Cnt(head, tail, size), size - tail)
  }

  function SpaceToEnd(head: int, tail: int, size: nat): int
    requires size > 0
  {
    Min(Space(head, tail, size), size - head)
  }

  /** The macros give the numbers of a producer and a consumer whose indices are their counts modulo the size. */
  lemma MacroValues(size: nat, head: nat, tail: nat, h: nat, t: nat)
    requires size > 0 && head % size == h % size && tail % size == t % size && t <= h < t + size
    ensures Cnt(head, tail, size) == h - t && Space(head, tail, size) == size - 1 - (h - t)
  {
    var a, b, c, d := head / size, h / size, tail / size, t / size;
    var k := (a - b) - (c - d);
    Arith.Distribute(a, b, size);
    Arith.Distribute(c, d, size);
    Arith.Distribute(a - b, c - d, size);
    assert head - tail == size * k + (h - t);
    Arith.DivModUnique(head - tail, size, k, h - t);
    Arith.Distribute(-k, 1, size);
    assert size * -k == -(size * k);
    Arith.DivModUnique(tail - (head + 1), size, -k - 1, size - 1 - (h - t));
  }

  /** An index moved past the end starts again at the front. */
  lemma Wrapped(i: int, size: nat)
    requires size > 0
    ensures 0 <= i < size ==> i % size == i
    ensures size <= i < 2 * size ==> i % size == i - size
    ensures 0 - size <= i < 0 ==> i % size == i + size
  {
    if 0 <= i < size {
      Arith.DivModUnique(i, size, 0, i);
    } else if size <= i < 2 * size {
      Arith.DivModUnique(i, size, 1, i - size);
    } else if 0 - size <= i < 0 {
      Arith.DivModUnique(i, size, -1, i + size);
    }
  }

  function Length(size: nat, head: nat, tail: nat): (n: nat)
    requires head < size && tail < size
    ensures n < size
  {
    if tail <= head then head - tail else head + size - tail
  }

  /** The place i steps after tail. */
  function Place(size: nat, tail: nat, i: nat): (p: nat)
    requires tail < size && i < size
    ensures p < size
  {
    if tail + i < size then tail + i else tail + i - size
  }

  /** What the ring holds, oldest first. */
  function Contents<T>(buf: seq<T>, head: nat, tail: nat): (c: seq<T>)
    requires head < |buf| && tail < |buf|
    ensures |c| == Length(|buf|, head, tail)
  {
    seq(Length(|buf|, head, tail), i requires 0 <= i < Length(|buf|, head, tail) => buf[Place(|buf|, tail, i)])
  }

  lemma Counts(size: nat, head: nat, tail: nat)
    requires head < size && tail < size
    ensures Cnt(head, tail, size) == Length(size, head, tail)
    ensures Space(head, tail, size) == size - 1 - Length(size, head, tail)
  {
    Wrapped(head - tail, size);
    if tail == 0 && head == size - 1 {
      Arith.DivModUnique(tail - (head + 1), size, -1, 0);
    }
    Wrapped(tail - (head + 1), size);
  }

  function Splice<T>(buf: seq<T>, at: nat, data: seq<T>): (r: seq<T>)
    requires at + |data| <= |buf|
    ensures |r| == |buf|
  {
    buf[..at] + data + buf[at + |data|..]
  }

  /** Both indices of a copy in two pieces: short of the end, up to the end, or around it. */
  predicate TwoPieces(size: nat, start: nat, n: nat, first: int, next: int, last: int)
  {
    if start + n < size then first == n && next == last == start + n
    else first == size - start && next == 0 && last == n - first < size
  }

  lemma ReadIndices(size: nat, head: nat, tail: nat, n: nat)
    requires head < size && tail < size && n <= Cnt(head, tail, size)
    ensures
      var first := Min(n, CntToEnd(head, tail, size));
      var next := (tail + first) % size;
      TwoPieces(size, tail, n, first, next, (next + (n - first)) % size)
  {
    var first := Min(n, CntToEnd(head, tail, size));
    Wrapped(tail + first, size);
    Wrapped((tail + first) % size + (n - first), size);
  }

  lemma WriteIndices(size: nat, head: nat, tail: nat, n: nat)
    requires head < size && tail < size && n <= Space(head, tail, size)
    ensures
      var first := Min(n, SpaceToEnd(head, tail, size));
      var next := (head + first) % size;
      TwoPieces(size, head, n, first, next, (next + (n - first)) % size)
  {
    var first := Min(n, SpaceToEnd(head, tail, size));
    Wrapped(head + first, size);
    Wrapped((head + first) % size + (n - first), size);
  }

  lemma PiecesFit(size: nat, start: nat, n: nat, first: int, next: int, last: int)
    requires start < size && n < size && TwoPieces(size, start, n, first, next, last)
    ensures 0 <= first <= n && start + first <= size && 0 <= next && next + (n - first) <= size && 0 <= last < size
  {}

  /** Reading n elements in two pieces takes the oldest n, in order. */
  lemma TwoPieceRead<T>(buf: seq<T>, head: nat, tail: nat, n: nat, first: nat, next: nat, last: nat)
    requires head < |buf| && tail < |buf| && n <= Length(|buf|, head, tail)
    requires TwoPieces(|buf|, tail, n, first, next, last)
    ensures last < |buf| && tail + first <= |buf| && first <= n && next + (n - first) <= |buf|
    ensures buf[tail..tail + first] + buf[next..next + (n - first)] == Contents(buf, head, tail)[..n]
    ensures Contents(buf, head, last) == Contents(buf, head, tail)[n..]
  {}

  lemma SpliceAt<T>(buf: seq<T>, at: nat, data: seq<T>, i: nat)
    requires at + |data| <= |buf| && i < |buf|
    ensures Splice(buf, at, data)[i] == if at <= i < at + |data| then data[i - at] else buf[i]
  {}

  /** Writing data in two pieces appends it. */
  lemma TwoPieceWrite<T>(buf: seq<T>, head: nat, tail: nat, data: seq<T>, first: nat, next: nat, last: nat)
    requires head < |buf| && tail < |buf| && Length(|buf|, head, tail) + |data| < |buf|
    requires TwoPieces(|buf|, head, |data|, first, next, last)
    ensures last < |buf| && head + first <= |buf| && first <= |data| && next + (|data| - first) <= |buf|
    ensures Contents(Splice(Splice(buf, head, data[..first]), next, data[first..]), last, tail)
         == Contents(buf, head, tail) + data
  {
    var one := Splice(buf, head, data[..first]);
    var two := Splice(one, next, data[first..]);
    var k := Length(|buf|, head, tail);
    forall i | 0 <= i < k + |data|
      ensures two[Place(|buf|, tail, i)] == if i < k then buf[Place(|buf|, tail, i)] else data[i - k]
    {
      hide Splice, Contents;
      var p := Place(|buf|, tail, i);
      SpliceAt(buf, head, data[..first], p);
      SpliceAt(one, next, data[first..], p);
    }
    hide Splice;
  }
}
