/** Sequential model of the fixed-capacity ring buffer `Lockless<T>` of lockless/lockless.hpp.

    Slot storage is an array whose length `count` is a power of two; every index is reduced
    with `mask == count - 1`.  Four cursors delimit the regions of the ring:

        least_tail <= tail  (read side: freed boundary, claimed boundary)
        least_head <= head  (write side: published boundary, claimed boundary)

    Read single-threaded, every compare-and-swap succeeds on its first attempt, so the claim
    and publish loops of `push` and `pop` are plain assignments and the spin-waits on a full or
    empty buffer are preconditions.  The items a consumer can see are the slots from `tail` up
    to (excluding) `least_head`, counted modulo `count`.
*/
module Lockless {

  /** 2^64: `size_t` arithmetic wraps modulo this value. */
  const SIZE: nat := 0x1_0000_0000_0000_0000

  /** The largest `size_t`. */
  const SIZE_MAX: nat := SIZE - 1

  // ---------------------------------------------------------------------------------------
  // Powers of two and bitwise and

  function Pow2(k: nat): (p: nat)
    ensures p >= 1
  {
    if k == 0 then 1 else 2 * Pow2(k - 1)
  }

  /** `n` is a power of two (1, 2, 4, ...). */
  predicate IsPow2(n: nat)
    decreases n
  {
    n == 1 || (n >= 2 && n % 2 == 0 && IsPow2(n / 2))
  }

  lemma {:induction false} Pow2IsPow2(k: nat)
    ensures IsPow2(Pow2(k))
  {
    if k > 0 {
      Pow2IsPow2(k - 1);
    }
  }

  /** Every power of two is 2^k for some k. */
  lemma {:induction false} IsPow2HasExponent(n: nat) returns (k: nat)
    requires IsPow2(n)
    ensures Pow2(k) == n
    decreases n
  {
    if n == 1 {
      k := 0;
    } else {
      var j := IsPow2HasExponent(n / 2);
      k := j + 1;
    }
  }

  /** Bitwise and of two non-negative integers, bit by bit from the least significant one. */
  function BitAnd(a: nat, b: nat): (r: nat)
    decreases a
  {
    if a == 0 || b == 0 then 0
    else 2 * BitAnd(a / 2, b / 2) + (if a % 2 == 1 && b % 2 == 1 then 1 else 0)
  }

  /** Quotient and remainder are determined by `x == q * d + r` with `0 <= r < d`. */
  lemma DivModUnique(x: int, d: int, q: int, r: int)
    requires d > 0 && 0 <= r < d && x == q * d + r
    ensures x / d == q && x % d == r
  {
    var q0, r0 := x / d, x % d;
    assert x == q0 * d + r0 && 0 <= r0 < d;
    assert (q - q0) * d == r0 - r;
    if q > q0 {
      MulAtLeast(q - q0, d);
    } else if q < q0 {
      MulAtLeast(q0 - q, d);
    }
  }

  lemma MulAtLeast(a: int, d: int)
    requires a >= 1 && d > 0
    ensures a * d >= d
  {
    assert a * d == (a - 1) * d + d;
  }

  lemma HalfMod(x: nat, m: nat)
    requires m >= 1
    ensures x % (2 * m) == 2 * ((x / 2) % m) + x % 2
  {
    var h := x / 2;
    var q := h / m;
    var r := h % m;
    assert h == q * m + r;
    assert x == 2 * h + x % 2;
    assert x == q * (2 * m) + (2 * r + x % 2);
    DivModUnique(x, 2 * m, q, 2 * r + x % 2);
  }

  /** Masking with 2^k - 1 keeps the low k bits, that is, reduces modulo 2^k. */
  lemma {:induction false} MaskIsMod(x: nat, k: nat)
    ensures BitAnd(x, Pow2(k) - 1) == x % Pow2(k)
    decreases k
  {
    if k == 0 {
    } else if x == 0 {
    } else {
      var m := Pow2(k - 1);
      assert Pow2(k) - 1 == 2 * (m - 1) + 1;
      assert (Pow2(k) - 1) / 2 == m - 1 && (Pow2(k) - 1) % 2 == 1;
      MaskIsMod(x / 2, k - 1);
      HalfMod(x, m);
    }
  }

  /** The smallest power of two at least `n`: any power of two that reaches `n` is at least `c`. */
  lemma SmallestPow2(c: nat, p: nat, n: nat)
    requires IsPow2(c) && IsPow2(p)
    requires c / 2 < n <= p
    ensures c <= p
  {
    if c > p {
      SmallerPow2Halves(c, p);
    }
  }

  /** Two powers of two: the larger one is a multiple of twice the smaller one, if they differ. */
  lemma {:induction false} SmallerPow2Halves(c: nat, p: nat)
    requires IsPow2(c) && IsPow2(p) && p < c
    ensures c >= 2 * p
    decreases c
  {
    if p == 1 {
      assert c >= 2;
    } else {
      assert c >= 2 && p >= 2;
      SmallerPow2Halves(c / 2, p / 2);
    }
  }

  /** A power of two no larger than 2^64 divides 2^64. */
  lemma Pow2DividesSize(c: nat)
    requires IsPow2(c) && c <= SIZE
    ensures SIZE % c == 0
  {
    var k := IsPow2HasExponent(c);
    Pow2Value64();
    if k > 64 {
      Pow2Monotone(65, k);
    }
    Pow2Divides(k, 64);
  }

  lemma {:induction false} Pow2Add(a: nat, b: nat)
    ensures Pow2(a + b) == Pow2(a) * Pow2(b)
    decreases a
  {
    if a > 0 {
      Pow2Add(a - 1, b);
      var p, q := Pow2(a - 1), Pow2(b);
      assert Pow2(a + b) == 2 * (p * q);
      assert 2 * (p * q) == (2 * p) * q;
    }
  }

  lemma Pow2Value16()
    ensures Pow2(16) == 0x1_0000
  {
    assert Pow2(4) == 16;
    Pow2Add(4, 4);
    Pow2Add(8, 8);
  }

  lemma Pow2Value64()
    ensures Pow2(64) == SIZE && Pow2(63) == SIZE / 2 && Pow2(62) == SIZE / 4
  {
    Pow2Value16();
    Pow2Add(16, 16);
    Pow2Add(32, 32);
    Pow2Add(62, 2);
    Pow2Add(63, 1);
  }

  lemma {:induction false} Pow2Monotone(j: nat, k: nat)
    requires j <= k
    ensures Pow2(j) <= Pow2(k)
    decreases k
  {
    if j < k {
      Pow2Monotone(j, k - 1);
    }
  }

  lemma {:induction false} Pow2Divides(j: nat, k: nat)
    requires j <= k
    ensures Pow2(k) % Pow2(j) == 0
    decreases k
  {
    if j == k {
      DivModUnique(Pow2(k), Pow2(j), 1, 0);
    } else {
      Pow2Divides(j, k - 1);
      var q := Pow2(k - 1) / Pow2(j);
      assert Pow2(k - 1) == q * Pow2(j);
      assert Pow2(k) == (2 * q) * Pow2(j);
      DivModUnique(Pow2(k), Pow2(j), 2 * q, 0);
    }
  }

  /** Doubling a power of two below `n <= 2^63` neither wraps nor passes 2^63. */
  lemma DoublingFits(a: nat, n: nat)
    requires IsPow2(a) && a < n <= SIZE / 2
    ensures IsPow2(2 * a) && 2 * a <= SIZE / 2 && (2 * a) % SIZE == 2 * a && (2 * a) / 2 == a
  {
    assert IsPow2(SIZE / 2) by {
      Pow2IsPow2(63);
      Pow2Value64();
    }
    SmallerPow2Halves(SIZE / 2, a);
    assert (2 * a) / 2 == a;
    assert IsPow2(2 * a);
    DivModUnique(2 * a, SIZE, 0, 2 * a);
  }

  // ---------------------------------------------------------------------------------------
  // Construction arithmetic

  /** The constructor aborts when `sz + 1`, computed in `size_t`, is below 2. */
  function Aborts(sz: nat): (b: bool)
    requires sz <= SIZE_MAX
    ensures b <==> sz == 0 || sz == SIZE_MAX
  {
    (sz + 1) % SIZE < 2
  }

  /** The successor of a cursor, `(curr + 1) & mask`, with `curr + 1` wrapping as a `size_t`. */
  function Next(curr: nat, mask: nat): nat
  {
    BitAnd((curr + 1) % SIZE, mask)
  }

  /** With `mask == count - 1` and `count` a power of two, `Next` is the successor modulo
      `count`, for every `size_t` cursor value. */
  lemma NextIsSuccessorMod(curr: nat, count: nat)
    requires IsPow2(count) && count <= SIZE && curr <= SIZE_MAX
    ensures Next(curr, count - 1) == (curr + 1) % count
    ensures Next(curr, count - 1) < count
  {
    var k := IsPow2HasExponent(count);
    MaskIsMod((curr + 1) % SIZE, k);
    Pow2DividesSize(count);
    ModOfMod(curr + 1, count, SIZE);
  }

  lemma ModOfMod(x: nat, c: nat, n: nat)
    requires c >= 1 && n >= 1 && n % c == 0
    ensures (x % n) % c == x % c
  {
    var q := n / c;
    assert n == q * c;
    var a := x / n;
    assert x == a * n + x % n;
    assert x == (a * q) * c + x % n;
    ModAddMultiple(x % n, a * q, c);
  }

  lemma ModAddMultiple(r: nat, q: nat, c: nat)
    requires c >= 1
    ensures (q * c + r) % c == r % c
  {
    var s := r / c;
    assert r == s * c + r % c;
    assert q * c + r == (q + s) * c + r % c;
    DivModUnique(q * c + r, c, q + s, r % c);
  }

  // ---------------------------------------------------------------------------------------
  // The ring window

  /** The slots of `s` from index `from` up to, excluding, index `to`, wrapping past the end. */
  function Window<T>(s: seq<T>, from: nat, to: nat): seq<T>
    requires from < |s| && to < |s|
  {
    if from <= to then s[from..to] else s[from..] + s[..to]
  }

  /** The window holds `(to - from) mod |s|` items: never all `|s|` of them. */
  lemma WindowLength<T>(s: seq<T>, from: nat, to: nat)
    requires from < |s| && to < |s|
    ensures |Window(s, from, to)| == (to - from) % |s|
    ensures |Window(s, from, to)| < |s|
  {
    if from > to {
      DivModUnique(to - from, |s|, -1, to - from + |s|);
    } else {
      DivModUnique(to - from, |s|, 0, to - from);
    }
  }

  /** The successor of an index modulo `n`. */
  lemma ModSucc(i: nat, n: nat)
    requires i < n
    ensures (i + 1) % n == if i + 1 < n then i + 1 else 0
  {
    if i + 1 < n {
      DivModUnique(i + 1, n, 0, i + 1);
    } else {
      DivModUnique(i + 1, n, 1, 0);
    }
  }

  /** Writing slot `to` and advancing `to` by one appends the written item to the window,
      provided the advanced `to` does not reach `from`. */
  lemma WindowPush<T>(s: seq<T>, from: nat, to: nat, x: T)
    requires from < |s| && to < |s|
    requires (to + 1) % |s| != from
    ensures Window(s[to := x], from, (to + 1) % |s|) == Window(s, from, to) + [x]
  {
    ModSucc(to, |s|);
    if to + 1 < |s| {
      WindowPushInside(s, from, to, x);
    } else {
      WindowPushWrap(s, from, to, x);
    }
  }

  lemma WindowPushInside<T>(s: seq<T>, from: nat, to: nat, x: T)
    requires from < |s| && to + 1 < |s| && to + 1 != from
    ensures Window(s[to := x], from, to + 1) == Window(s, from, to) + [x]
  {
    var s' := s[to := x];
    if from <= to {
      assert s'[from..to + 1] == s[from..to] + [x];
    } else {
      assert s'[from..] == s[from..];
      assert s'[..to + 1] == s[..to] + [x];
    }
  }

  lemma WindowPushWrap<T>(s: seq<T>, from: nat, to: nat, x: T)
    requires 0 < from <= to && to + 1 == |s|
    ensures Window(s[to := x], from, 0) == Window(s, from, to) + [x]
  {
    var s' := s[to := x];
    assert s'[from..] == s[from..to] + [x];
    assert s'[..0] == [];
  }

  /** Advancing `from` by one drops the front of a non-empty window. */
  lemma WindowPop<T>(s: seq<T>, from: nat, to: nat)
    requires from < |s| && to < |s| && from != to
    ensures |Window(s, from, to)| > 0 && Window(s, from, to)[0] == s[from]
    ensures Window(s, (from + 1) % |s|, to) == Window(s, from, to)[1..]
  {
    ModSucc(from, |s|);
    if from + 1 < |s| {
      WindowPopInside(s, from, to);
    } else {
      WindowPopWrap(s, from, to);
    }
  }

  lemma WindowPopInside<T>(s: seq<T>, from: nat, to: nat)
    requires from + 1 < |s| && to < |s| && from != to
    ensures |Window(s, from, to)| > 0 && Window(s, from, to)[0] == s[from]
    ensures Window(s, from + 1, to) == Window(s, from, to)[1..]
  {
    if from > to {
      assert s[from + 1..] == s[from..][1..];
    }
  }

  lemma WindowPopWrap<T>(s: seq<T>, from: nat, to: nat)
    requires from + 1 == |s| && to < from
    ensures |Window(s, from, to)| > 0 && Window(s, from, to)[0] == s[from]
    ensures Window(s, 0, to) == Window(s, from, to)[1..]
  {
    assert s[from..] == [s[from]];
  }

  /** The full test of `push`: the successor of the write cursor meets the freed boundary
      exactly when the window already holds `count - 1` items. */
  lemma FullIff<T>(s: seq<T>, from: nat, to: nat)
    requires from < |s| && to < |s|
    ensures (to + 1) % |s| == from <==> |Window(s, from, to)| == |s| - 1
  {
    WindowLength(s, from, to);
    ModSucc(to, |s|);
    if from > to {
      assert |Window(s, from, to)| == |s| - from + to;
    } else {
      assert |Window(s, from, to)| == to - from;
    }
  }

  // ---------------------------------------------------------------------------------------
  // The queue

  class Lockless<T(0)> {
    /** `data_`: the slot storage, sized once by the constructor. */
    var data: array<T>
    /** `count_`: the number of slots, a power of two. */
    var count: nat
    /** `mask_`: `count - 1`. */
    var mask: nat
    /** `head_`, `tail_`, `least_head_`, `least_tail_`. */
    var head: nat
    var tail: nat
    var leastHead: nat
    var leastTail: nat

    /** The storage and its mask, fixed by the constructor. */
    ghost predicate Shape()
      reads this
    {
      data.Length == count && IsPow2(count) && 2 <= count <= SIZE / 2 && mask == count - 1
    }

    ghost predicate Valid()
      reads this
    {
      Shape() &&
      head < count && tail < count && leastHead < count && leastTail < count &&
      // between calls every publishing compare-and-swap has caught up with its claim
      head == leastHead && tail == leastTail
    }

    /** The items a consumer can observe, oldest first. */
    ghost function Contents(): seq<T>
      reads this, data
      requires Valid()
    {
      Window(data[..], tail, leastHead)
    }

    /** `Lockless(sz)`: `sz + 1` slots rounded up to a power of two; one slot always stays
        empty, so `sz` items fit.  `Aborts(sz)` is the `abort()` path; beyond `2^63` slots the
        doubling of `align_size` wraps to 0 and never terminates. */
    constructor (sz: nat)
      requires sz <= SIZE_MAX && !Aborts(sz)
      requires sz + 1 <= SIZE / 2
      ensures Valid() && fresh(data)
      ensures IsPow2(count) && count >= sz + 1 && count / 2 < sz + 1
      ensures mask == count - 1
      ensures head == leastHead == tail == leastTail == 0
      ensures Contents() == []
    {
      DivModUnique(sz + 1, SIZE, 0, sz + 1);
      var n := (sz + 1) % SIZE;
      var alignSize: nat := 1;
      while alignSize < n
        invariant IsPow2(alignSize) && 1 <= alignSize <= SIZE / 2
        invariant alignSize == 1 || alignSize / 2 < n
        decreases SIZE - alignSize
      {
        DoublingFits(alignSize, n);
        alignSize := (alignSize * 2) % SIZE;
      }
      count := alignSize;
      mask := alignSize - 1;
      data := new T[alignSize];
      head, leastHead := 0, 0;
      tail, leastTail := 0, 0;
    }

    /** `next`: the cursor after `curr`. */
    function NextIndex(curr: nat): (r: nat)
      reads this
      requires Shape() && curr < count
      ensures r == (curr + 1) % count && r < count
    {
      NextIsSuccessorMod(curr, count);
      Next(curr, mask)
    }

    /** The spin-wait condition of `push`. */
    predicate IsFull()
      reads this
      requires Valid()
    {
      NextIndex(head) == leastTail
    }

    /** The spin-wait condition of `pop`. */
    predicate IsEmpty()
      reads this
      requires Valid()
    {
      tail == leastHead
    }

    lemma FullMeansCapacity()
      requires Valid()
      ensures IsFull() <==> |Contents()| == count - 1
      ensures IsEmpty() <==> Contents() == []
      ensures |Contents()| <= count - 1
    {
      FullIff(data[..], tail, leastHead);
      WindowLength(data[..], tail, leastHead);
    }

    /** `push`: claim slot `head` (advance `head_`), write the item, publish (advance
        `least_head_`).  A full buffer would spin forever, so it is excluded. */
    method Push(item: T)
      requires Valid() && !IsFull()
      modifies this, data
      ensures Valid() && data == old(data) && count == old(count) && mask == old(mask)
      ensures data[..] == old(data[..])[old(head) := item]
      ensures head == leastHead == (old(head) + 1) % count
      ensures tail == old(tail) && leastTail == old(leastTail)
      ensures Contents() == old(Contents()) + [item]
    {
      var h := head;
      // claim: the compare-and-swap on head_ succeeds at once
      head := NextIndex(h);
      data[h] := item;
      // publish: least_head_ == h, so this compare-and-swap succeeds at once
      assert leastHead == h;
      leastHead := NextIndex(h);
      WindowPush(old(data[..]), tail, h, item);
    }

    /** `pop`: claim slot `tail` (advance `tail_`), read it, free it (advance `least_tail_`).
        An empty buffer would spin forever, so it is excluded. */
    method Pop() returns (t: T)
      requires Valid() && !IsEmpty()
      modifies this
      ensures Valid() && data == old(data) && count == old(count) && mask == old(mask)
      ensures t == old(data[tail]) && t == old(Contents())[0]
      ensures tail == leastTail == (old(tail) + 1) % count
      ensures head == old(head) && leastHead == old(leastHead)
      ensures Contents() == old(Contents())[1..]
    {
      var tl := tail;
      tail := NextIndex(tl);
      t := data[tl];
      assert leastTail == tl;
      leastTail := NextIndex(tl);
      WindowPop(data[..], tl, leastHead);
    }
  }

  /** Three items fit a queue created for three; the fourth push must wait for one pop. */
  method QueueOfThree()
  {
    var q := new Lockless<int>(3);
    assert q.count == 4 by {
      assert IsPow2(4);
      SmallestPow2(q.count, 4, 4);
    }
    q.Push(1);
    q.Push(2);
    q.FullMeansCapacity();
    q.Push(3);
    q.FullMeansCapacity();
    assert q.IsFull();
    var a := q.Pop();
    assert a == 1;
    q.FullMeansCapacity();
    q.Push(4);
    var b := q.Pop();
    q.FullMeansCapacity();
    var c := q.Pop();
    q.FullMeansCapacity();
    var d := q.Pop();
    assert [b, c, d] == [2, 3, 4];
    q.FullMeansCapacity();
    assert q.IsEmpty();
  }
}
