/**
 * The container macros of src/types.h: FIFO(T, N), a ring buffer of N cells
 * (N a power of two) with u32 head, tail and size counters, and Vector(T), a
 * growable array whose capacity starts at 8 and doubles.
 */
module Types {
  import opened Bits

  // ---------------------------------------------------------------------------
  // FIFO

  /** The n cells of the ring s read from cell h onwards, wrapping at the end. */
  function Window<T>(s: seq<T>, h: nat, n: nat): seq<T>
    requires |s| > 0
  {
    seq(n, i requires 0 <= i < n => s[(h + i) % |s|])
  }

  /** Writing v into the cell after the last of n < |s| elements appends v. */
  lemma WindowPush<T>(s: seq<T>, h: nat, n: nat, v: T)
    requires h < |s| && n < |s|
    ensures Window(s[(h + n) % |s| := v], h, n + 1) == Window(s, h, n) + [v]
  {
    var t := (h + n) % |s|;
    var a := Window(s[t := v], h, n + 1);
    var b := Window(s, h, n) + [v];
    forall i | 0 <= i < n + 1 ensures a[i] == b[i] {
      ModSmallSum(h, i, |s|);
      ModSmallSum(h, n, |s|);
    }
  }

  /** Moving the head one cell on drops the oldest element. */
  lemma WindowPop<T>(s: seq<T>, h: nat, n: nat)
    requires h < |s| && 0 < n
    ensures Window(s, (h + 1) % |s|, n - 1) == Window(s, h, n)[1..]
  {
    var a := Window(s, (h + 1) % |s|, n - 1);
    var b := Window(s, h, n)[1..];
    forall i | 0 <= i < n - 1 ensures a[i] == b[i] {
      NextCell(s, h, i);
    }
    assert a == b;
  }

  /** Cell i after head h + 1 is cell i + 1 after head h. */
  lemma NextCell<T>(s: seq<T>, h: nat, i: nat)
    requires |s| > 0
    ensures s[((h + 1) % |s| + i) % |s|] == s[(h + (i + 1)) % |s|]
  {
    ModAdd(h + 1, i, |s|);
  }

  /** Adding a multiple of m does not change the remainder modulo m. */
  lemma ModShift(y: int, t: int, m: int)
    requires m >= 1
    ensures (y + t * m) % m == y % m
  {
    assert y + t * m == (y / m + t) * m + y % m by {
      assert y == (y / m) * m + y % m;
      assert (y / m + t) * m == (y / m) * m + t * m;
    }
    DivModUnique(y + t * m, m, y / m + t, y % m);
  }

  /** Wrapping a u32 counter does not change its remainder modulo a power of two. */
  lemma WrapKeepsMod(a: int, x: int, logMax: nat)
    requires logMax <= 32
    ensures (a + x % U32) % Pow2(logMax) == (a + x) % Pow2(logMax)
  {
    var m := Pow2(logMax);
    var b := Pow2(32 - logMax);
    Pow2Split(logMax, 32);
    Pow2Of32();
    var q := x / U32;
    MulRegroup(q, m, b, U32);
    assert a + x == (a + x % U32) + (q * b) * m by {
      assert x == q * U32 + x % U32;
    }
    ModShift(a + x % U32, q * b, m);
  }

  /** The counters after FIFO_push keep tail at head + size modulo the ring size. */
  lemma CountersAfterPush(head: nat, size: nat, logMax: nat)
    requires logMax <= 31 && size < U32
    ensures (head + (size + 1) % U32) % Pow2(logMax) == ((head + size) % Pow2(logMax) + 1) % Pow2(logMax)
    ensures size < Pow2(logMax) ==> (size + 1) % U32 == size + 1
  {
    WrapKeepsMod(head, size + 1, logMax);
    ModAdd(head + size, 1, Pow2(logMax));
    Pow2Mono(logMax, 31);
    Pow2Of32();
    assert Pow2(32) == 2 * Pow2(31);
    if size < Pow2(logMax) {
      DivModUnique(size + 1, U32, 0, size + 1);
    }
  }

  /** The counters after FIFO_pop keep tail at head + size modulo the ring size. */
  lemma CountersAfterPop(head: nat, size: nat, logMax: nat)
    requires logMax <= 31 && size < U32
    ensures ((head + 1) % Pow2(logMax) + (size - 1) % U32) % Pow2(logMax) == (head + size) % Pow2(logMax)
    ensures 0 < size ==> (size - 1) % U32 == size - 1
  {
    WrapKeepsMod((head + 1) % Pow2(logMax), size - 1, logMax);
    ModAdd(head + 1, size - 1, Pow2(logMax));
    if 0 < size {
      DivModUnique(size - 1, U32, 0, size - 1);
    }
  }

  /** The FIFO counter invariant for a ring of m cells: head and tail are
      cell indices, size is a u32, and tail is head + size around the ring. */
  ghost predicate Counters(head: nat, tail: nat, size: nat, m: nat)
  {
    0 < m && head < m && tail < m && size < U32 && (head + size) % m == tail
  }

  /** FIFO_push on a ring of cells: the masked tail is the next cell, the
      counter invariant survives the u32 increment of size, and while the ring
      is not full the written value joins the end of the window. */
  lemma PushStep<T>(cells: seq<T>, head: nat, tail: nat, size: nat, logMax: nat, v: T)
    requires logMax <= 31 && |cells| == Pow2(logMax) && Counters(head, tail, size, |cells|)
    ensures And(tail + 1, |cells| - 1) == (tail + 1) % |cells|
    ensures Counters(head, (tail + 1) % |cells|, (size + 1) % U32, |cells|)
    ensures size < |cells| ==> Window(cells[tail := v], head, (size + 1) % U32) == Window(cells, head, size) + [v]
  {
    MaskIsMod(tail + 1, logMax);
    CountersAfterPush(head, size, logMax);
    if size < |cells| {
      WindowPush(cells, head, size, v);
    }
  }

  /** FIFO_pop on a ring of cells: the masked head is the next cell, the
      counter invariant survives the u32 decrement of size, and while the ring
      holds 1 to |cells| elements the head cell is the first of the window and
      the rest of the window remains. */
  lemma PopStep<T>(cells: seq<T>, head: nat, tail: nat, size: nat, logMax: nat)
    requires logMax <= 31 && |cells| == Pow2(logMax) && Counters(head, tail, size, |cells|)
    ensures And(head + 1, |cells| - 1) == (head + 1) % |cells|
    ensures Counters((head + 1) % |cells|, tail, (size - 1) % U32, |cells|)
    ensures 0 < size <= |cells| ==> cells[head] == Window(cells, head, size)[0]
    ensures 0 < size <= |cells| ==> Window(cells, (head + 1) % |cells|, (size - 1) % U32) == Window(cells, head, size)[1..]
  {
    MaskIsMod(head + 1, logMax);
    CountersAfterPop(head, size, logMax);
    if 0 < size <= |cells| {
      ModSmallSum(head, 0, |cells|);
      WindowPop(cells, head, size);
    }
  }

  /** One step of FIFO_foreach: masking the successor of cell j mod m gives
      cell (j + 1) mod m. */
  lemma NextIndex(j: nat, logMax: nat)
    ensures And(j % Pow2(logMax) + 1, Pow2(logMax) - 1) == (j + 1) % Pow2(logMax)
  {
    var m := Pow2(logMax);
    MaskIsMod(j % m + 1, logMax);
    ModAdd(j, 1, m);
  }

  /** FIFO(T, N). The counters are u32 values; `x & (N - 1)` is computed with
      And, which MaskIsMod shows to be `x % N` for N = 2^logMax. */
  class Fifo<T> {
    /** FIFO_MAX: the number of cells. */
    const max: nat
    ghost const logMax: nat
    /** The value a zero-initialised cell holds. */
    const zero: T
    const d: array<T>
    var head: nat
    var tail: nat
    var size: nat

    ghost predicate Valid()
      reads this
    {
      logMax <= 31 && max == Pow2(logMax) && d.Length == max && Counters(head, tail, size, max)
    }

    /** The stored elements, oldest first, while no push has overrun the ring. */
    ghost function Contents(): seq<T>
      reads this, d
      requires d.Length > 0
    {
      Window(d[..], head, size)
    }

    /** A zero-initialised FIFO of 2^logMax cells. */
    constructor (logMax: nat, zero: T)
      requires logMax <= 31
      ensures Valid() && fresh(d) && this.logMax == logMax && this.zero == zero
      ensures head == 0 && tail == 0 && size == 0 && Contents() == []
      ensures forall i :: 0 <= i < d.Length ==> d[i] == zero
    {
      this.logMax := logMax;
      max := Pow2(logMax);
      this.zero := zero;
      d := new T[Pow2(logMax)](_ => zero);
      head, tail, size := 0, 0, 0;
      DivModUnique(0, Pow2(logMax), 0, 0);
    }

    /** FIFO_push: store v at tail and advance tail and size. */
    method Push(v: T)
      requires Valid()
      modifies this, d
      ensures Valid() && d[..] == old(d[..])[old(tail) := v]
      ensures head == old(head) && tail == (old(tail) + 1) % max && size == (old(size) + 1) % U32
      ensures old(size) < max ==> Contents() == old(Contents()) + [v]
    {
      ghost var cells := d[..];
      var t := tail;
      d[t] := v;
      assert d[..] == cells[t := v];
      PushStep(cells, head, t, size, logMax, v);
      tail := And(t + 1, max - 1);
      size := (size + 1) % U32;
    }

    /** FIFO_pop: take the value at head and advance head; size counts down,
        wrapping below zero as a u32 does. */
    method Pop() returns (v: T)
      requires Valid()
      modifies this
      ensures Valid() && v == d[old(head)]
      ensures head == (old(head) + 1) % max && tail == old(tail) && size == (old(size) - 1) % U32
      ensures 0 < old(size) <= max ==> v == old(Contents())[0] && Contents() == old(Contents())[1..]
    {
      v := d[head];
      PopStep(d[..], head, tail, size, logMax);
      head := And(head + 1, max - 1);
      size := (size - 1) % U32;
    }

    /** FIFO_peek: the value at head, which the next pop returns. */
    function Peek(): (v: T)
      reads this, d
      requires Valid()
      ensures 0 < size <= max ==> v == Contents()[0]
    {
      ModSmallSum(head, 0, max);
      d[head]
    }

    /** FIFO_foreach: the cell indices the loop visits, in order. */
    method Foreach() returns (visited: seq<nat>)
      requires Valid()
      ensures |visited| == size
      ensures forall j :: 0 <= j < size ==> visited[j] == (head + j) % max
      ensures size <= max ==> forall j :: 0 <= j < size ==> d[visited[j]] == Contents()[j]
    {
      visited := [];
      var k := 0;
      var i := head;
      ModSmallSum(head, 0, max);
      while k < size
        invariant 0 <= k <= size && i == (head + k) % max
        invariant |visited| == k
        invariant forall j :: 0 <= j < k ==> visited[j] == (head + j) % max
      {
        visited := visited + [i];
        NextIndex(head + k, logMax);
        i := And(i + 1, max - 1);
        k := k + 1;
      }
    }

    /** FIFO_clear: zero cell 0 and all three counters. */
    method Clear()
      requires Valid()
      modifies this, d
      ensures Valid() && d[..] == old(d[..])[0 := zero]
      ensures head == 0 && tail == 0 && size == 0 && Contents() == []
    {
      d[0] := zero;
      head, tail, size := 0, 0, 0;
      DivModUnique(0, max, 0, 0);
    }
  }

  // ---------------------------------------------------------------------------
  // Vector

  /** The capacities a vector can have: 0, or 8 doubled any number of times. */
  ghost predicate IsCapacity(c: nat)
  {
    c == 0 || c == 8 || (c > 8 && c % 2 == 0 && IsCapacity(c / 2))
  }

  /** The capacity Vec_push moves to when the vector is full. */
  function Grow(cap: nat): (r: nat)
    ensures r > cap
    ensures IsCapacity(cap) ==> IsCapacity(r)
  {
    if cap != 0 then 2 * cap else 8
  }

  /** The capacity of a vector after n pushes from Vec_init. */
  function CapAfter(n: nat): nat
  {
    if n == 0 then 0
    else if n - 1 == CapAfter(n - 1) then Grow(CapAfter(n - 1))
    else CapAfter(n - 1)
  }

  /** After n >= 1 pushes the capacity holds the n elements, is 8 doubled
      some number of times, and is below 2n once it exceeds 8. */
  lemma {:induction false} CapAfterBounds(n: nat)
    requires n >= 1
    ensures n <= CapAfter(n) && IsCapacity(CapAfter(n))
    ensures CapAfter(n) == 8 || CapAfter(n) < 2 * n
  {
    if n > 1 {
      CapAfterBounds(n - 1);
    }
  }

  /** Vector(T): d holds cap cells of which the first size are in use. */
  class Vec<T> {
    var d: array<T>
    var size: nat
    var cap: nat

    ghost predicate Valid()
      reads this
    {
      d.Length == cap && size <= cap && IsCapacity(cap)
    }

    ghost function Elements(): seq<T>
      reads this, d
      requires Valid()
    {
      d[..size]
    }

    /** Vec_init: no storage, no elements. */
    constructor ()
      ensures Valid() && size == 0 && cap == 0 && Elements() == []
    {
      d := new T[0];
      size, cap := 0, 0;
    }

    /** Vec_push: grow when full, store e after the last element and return its index. */
    method Push(e: T) returns (index: nat)
      requires Valid()
      modifies this, d
      ensures Valid() && index == old(size) && size == old(size) + 1
      ensures Elements() == old(Elements()) + [e]
      ensures cap == if old(size) == old(cap) then Grow(old(cap)) else old(cap)
      ensures old(size) < old(cap) ==> d == old(d)
      ensures old(size) == old(cap) ==> fresh(d)
    {
      if size == cap {
        var n := Grow(cap);
        // realloc: the new block starts with the old contents
        var oldD := d;
        d := new T[n](i requires 0 <= i < n reads oldD => if i < oldD.Length then oldD[i] else e);
        cap := n;
      }
      d[size] := e;
      size := size + 1;
      index := size - 1;
    }
  }
}
