/**
 * The guest virtual-memory block map of src/memory.c.
 *
 * The emulator keeps the 2^20 pages of the 32-bit guest address space in a
 * circular doubly-linked list of blocks [startpg, endpg), each with a
 * permission and a state, behind a sentinel node at [2^20, 2^20). Here the
 * list between the sentinel's next and prev is a sequence in list order and
 * the sentinel is implicit one past its end. insert_vmblock is specified by
 * the function Insert, written step by step like the C code, and the method
 * AddressSpace.InsertVMBlock is proved to compute it.
 */
module Memory {
  import opened Wrappers
  import opened Bits

  const PAGE_SIZE: nat := 0x1000
  /** BIT(20): the number of guest pages, and the sentinel's startpg and endpg. */
  const PAGES: nat := 0x10_0000
  const MEMST_FREE: nat := 0

  datatype VMBlock = VMBlock(startpg: nat, endpg: nat, perm: nat, state: nat)

  /** The two attributes insert_vmblock compares before merging blocks. */
  datatype Attr = Attr(perm: nat, state: nat)

  function AttrOf(b: VMBlock): Attr
  {
    Attr(b.perm, b.state)
  }

  predicate Holds(b: VMBlock, pg: nat)
  {
    b.startpg <= pg < b.endpg
  }

  /** A block insert_vmblock accepts: a non-empty page range inside the address space. */
  predicate Fits(n: VMBlock)
  {
    n.startpg < n.endpg <= PAGES
  }

  // ---------------------------------------------------------------------------
  // Layout

  /** bs covers the pages from lo to hi: each block starts where the previous one ends. */
  ghost predicate Chain(bs: seq<VMBlock>, lo: nat, hi: nat)
    decreases |bs|
  {
    if |bs| == 0 then lo == hi
    else bs[0].startpg == lo && lo <= bs[0].endpg && Chain(bs[1..], bs[0].endpg, hi)
  }

  /** The block list between the sentinel's next and prev covers every page, in order. */
  ghost predicate Wf(bs: seq<VMBlock>)
  {
    Chain(bs, 0, PAGES)
  }

  /** Where a chain starting at lo has got to after the blocks of x. */
  function Seam(x: seq<VMBlock>, lo: nat): nat
  {
    if |x| == 0 then lo else x[|x| - 1].endpg
  }

  lemma {:induction false} ChainBounds(bs: seq<VMBlock>, lo: nat, hi: nat)
    requires Chain(bs, lo, hi)
    ensures lo <= hi
    ensures forall i :: 0 <= i < |bs| ==> lo <= bs[i].startpg <= bs[i].endpg <= hi
  {
    if |bs| > 0 {
      ChainBounds(bs[1..], bs[0].endpg, hi);
      forall i | 0 < i < |bs|
        ensures lo <= bs[i].startpg <= bs[i].endpg <= hi
      {
        assert bs[i] == bs[1..][i - 1];
      }
    }
  }

  lemma {:induction false} ChainAppend(x: seq<VMBlock>, y: seq<VMBlock>, lo: nat, mid: nat, hi: nat)
    requires Chain(x, lo, mid) && Chain(y, mid, hi)
    ensures Chain(x + y, lo, hi)
  {
    if |x| == 0 {
      assert x + y == y;
    } else {
      assert (x + y)[0] == x[0];
      assert (x + y)[1..] == x[1..] + y;
      ChainAppend(x[1..], y, x[0].endpg, mid, hi);
    }
  }

  lemma {:induction false} ChainSplit(x: seq<VMBlock>, y: seq<VMBlock>, lo: nat, hi: nat)
    requires Chain(x + y, lo, hi)
    ensures Chain(x, lo, Seam(x, lo)) && Chain(y, Seam(x, lo), hi)
  {
    if |x| == 0 {
      assert x + y == y;
    } else {
      assert (x + y)[0] == x[0];
      assert (x + y)[1..] == x[1..] + y;
      ChainSplit(x[1..], y, x[0].endpg, hi);
      assert Seam(x[1..], x[0].endpg) == Seam(x, lo);
    }
  }

  /** A one-block chain. */
  lemma ChainOne(b: VMBlock, rest: seq<VMBlock>, hi: nat)
    requires b.startpg <= b.endpg && Chain(rest, b.endpg, hi)
    ensures Chain([b] + rest, b.startpg, hi)
  {
    assert ([b] + rest)[0] == b;
    assert ([b] + rest)[1..] == rest;
  }

  // ---------------------------------------------------------------------------
  // Looking pages up

  /** The first block holding page pg: the search loops of insert_vmblock and x3ds_vmquery. */
  function Find(bs: seq<VMBlock>, pg: nat): (r: Option<nat>)
    ensures r.Some? ==> r.value < |bs| && Holds(bs[r.value], pg)
    ensures r.Some? ==> forall j :: 0 <= j < r.value ==> !Holds(bs[j], pg)
    ensures r.None? ==> forall j :: 0 <= j < |bs| ==> !Holds(bs[j], pg)
  {
    if |bs| == 0 then None
    else if Holds(bs[0], pg) then Some(0)
    else match Find(bs[1..], pg)
      case None => None
      case Some(i) =>
        assert forall j :: 1 <= j <= i ==> bs[j] == bs[1..][j - 1];
        Some(i + 1)
  }

  lemma FindIs(bs: seq<VMBlock>, pg: nat, i: nat)
    requires i < |bs| && Holds(bs[i], pg)
    requires forall j :: 0 <= j < i ==> !Holds(bs[j], pg)
    ensures Find(bs, pg) == Some(i)
  {
  }

  /** A chain from lo to hi holds exactly the pages from lo to hi. */
  lemma {:induction false} ChainCovers(bs: seq<VMBlock>, lo: nat, hi: nat, pg: nat)
    requires Chain(bs, lo, hi)
    ensures Find(bs, pg).Some? <==> lo <= pg < hi
  {
    ChainBounds(bs, lo, hi);
    if |bs| > 0 && !Holds(bs[0], pg) {
      ChainCovers(bs[1..], bs[0].endpg, hi, pg);
    }
  }

  /** The attributes of page pg, if a block holds it. */
  function AttrAt(bs: seq<VMBlock>, pg: nat): Option<Attr>
  {
    match Find(bs, pg)
    case None => None
    case Some(i) => Some(AttrOf(bs[i]))
  }

  lemma AttrAtConcat(x: seq<VMBlock>, y: seq<VMBlock>, pg: nat)
    ensures AttrAt(x + y, pg) == if AttrAt(x, pg).Some? then AttrAt(x, pg) else AttrAt(y, pg)
  {
    var xy := x + y;
    match Find(x, pg)
    case Some(i) =>
      FindIs(xy, pg, i);
    case None =>
      match Find(y, pg)
      case Some(j) =>
        assert xy[|x| + j] == y[j];
        forall k | 0 <= k < |x| + j
          ensures !Holds(xy[k], pg)
        {
          if k >= |x| {
            assert xy[k] == y[k - |x|];
          }
        }
        FindIs(xy, pg, |x| + j);
      case None =>
        forall k | 0 <= k < |xy|
          ensures !Holds(xy[k], pg)
        {
          if k >= |x| {
            assert xy[k] == y[k - |x|];
          }
        }
  }

  /** The attributes of a page in a chain cut around one block b. */
  lemma ThreeParts(x: seq<VMBlock>, b: VMBlock, y: seq<VMBlock>, lo: nat, hi: nat, pg: nat)
    requires Chain(x, lo, b.startpg) && b.startpg <= b.endpg && Chain(y, b.endpg, hi)
    ensures AttrAt(x + [b] + y, pg) ==
      if pg < b.startpg then AttrAt(x, pg)
      else if pg < b.endpg then Some(AttrOf(b))
      else AttrAt(y, pg)
  {
    assert x + [b] + y == x + ([b] + y);
    AttrAtConcat(x, [b] + y, pg);
    AttrAtConcat([b], y, pg);
    ChainCovers(x, lo, b.startpg, pg);
    ChainCovers(y, b.endpg, hi, pg);
    assert AttrAt([b], pg) == if Holds(b, pg) then Some(AttrOf(b)) else None;
  }

  /** Joining two adjacent blocks of equal attributes keeps the chain and every page's attributes. */
  lemma MergeKeepsAttrs(x: seq<VMBlock>, b1: VMBlock, b2: VMBlock, y: seq<VMBlock>, lo: nat, hi: nat, pg: nat)
    requires Chain(x + [b1, b2] + y, lo, hi)
    requires AttrOf(b1) == AttrOf(b2)
    ensures Chain(x + [b1.(endpg := b2.endpg)] + y, lo, hi)
    ensures AttrAt(x + [b1.(endpg := b2.endpg)] + y, pg) == AttrAt(x + [b1, b2] + y, pg)
  {
    var m := b1.(endpg := b2.endpg);
    var tail := [b2] + y;
    assert x + [b1, b2] + y == x + ([b1] + tail);
    ChainSplit(x, [b1] + tail, lo, hi);
    assert ([b1] + tail)[0] == b1 && ([b1] + tail)[1..] == tail;
    assert tail[0] == b2 && tail[1..] == y;
    assert x + [b1, b2] + y == x + [b1] + tail;
    ThreeParts(x, b1, tail, lo, hi, pg);
    assert [] + [b2] + y == tail;
    ThreeParts([], b2, y, b2.startpg, hi, pg);
    ChainOne(m, y, hi);
    ChainAppend(x, [m] + y, lo, b1.startpg, hi);
    assert x + [m] + y == x + ([m] + y);
    ThreeParts(x, m, y, lo, hi, pg);
  }

  // ---------------------------------------------------------------------------
  // insert_vmblock

  /** Step 3: drop the blocks after l that end before n does, and move the start of the
      first one reaching n's end up to it (possibly leaving it empty). */
  function TrimRight(right: seq<VMBlock>, e: nat): seq<VMBlock>
    decreases |right|
  {
    if |right| == 0 || e <= right[0].startpg then right
    else if right[0].endpg < e then TrimRight(right[1..], e)
    else [right[0].(startpg := e)] + right[1..]
  }

  /** Steps 1 to 4: the blocks that end up before n and after it, before any merge. */
  function Cut(bs: seq<VMBlock>, n: VMBlock): (seq<VMBlock>, seq<VMBlock>)
    requires Wf(bs) && Fits(n)
  {
    ChainCovers(bs, 0, PAGES, n.startpg);
    var li := Find(bs, n.startpg).value;
    Around(bs[..li], bs[li], TrimRight(bs[li + 1..], n.endpg), n)
  }

  /** Step 4, with l the block holding n.startpg: keep the part of l after n as a new block,
      and either drop l (when n starts where l does) or end it where n starts. */
  function Around(left: seq<VMBlock>, l: VMBlock, right: seq<VMBlock>, n: VMBlock): (seq<VMBlock>, seq<VMBlock>)
  {
    // l holds n.startpg, so this test always passes
    if n.startpg < l.endpg then
      (if l.startpg == n.startpg then left else left + [l.(endpg := n.startpg)],
       if n.endpg < l.endpg then [l.(startpg := n.endpg)] + right else right)
    else
      (left + [l], right)
  }

  /** Step 5: absorb the block after n when it has n's attributes; the sentinel, at 2^20, never merges. */
  function MergeNext(n: VMBlock, right: seq<VMBlock>): (VMBlock, seq<VMBlock>)
  {
    if |right| > 0 && right[0].startpg < PAGES && AttrOf(right[0]) == AttrOf(n)
    then (n.(endpg := right[0].endpg), right[1..])
    else (n, right)
  }

  /** Step 6: extend the block before n over n when it has n's attributes. */
  function MergePrev(left: seq<VMBlock>, n: VMBlock): seq<VMBlock>
  {
    if |left| > 0 && left[|left| - 1].startpg < PAGES && AttrOf(left[|left| - 1]) == AttrOf(n)
    then left[..|left| - 1] + [left[|left| - 1].(endpg := n.endpg)]
    else left + [n]
  }

  /** The block list after insert_vmblock(n). */
  function Insert(bs: seq<VMBlock>, n: VMBlock): seq<VMBlock>
    requires Wf(bs) && Fits(n)
  {
    var cut := Cut(bs, n);
    var next := MergeNext(n, cut.1);
    MergePrev(cut.0, next.0) + next.1
  }

  /** Trimming keeps a chain that reaches past e, and the attributes of the pages from e on. */
  lemma {:induction false} TrimShape(right: seq<VMBlock>, lo: nat, hi: nat, e: nat, pg: nat)
    requires Chain(right, lo, hi) && e <= hi
    ensures e <= lo ==> TrimRight(right, e) == right
    ensures Chain(TrimRight(right, e), if lo < e then e else lo, hi)
    ensures e <= pg ==> AttrAt(TrimRight(right, e), pg) == AttrAt(right, pg)
  {
    if |right| > 0 && right[0].startpg < e {
      var r0 := right[0];
      assert [] + [r0] + right[1..] == right;
      ThreeParts([], r0, right[1..], lo, hi, pg);
      if r0.endpg < e {
        TrimShape(right[1..], r0.endpg, hi, e, pg);
      } else {
        var t0 := r0.(startpg := e);
        assert [] + [t0] + right[1..] == [t0] + right[1..];
        ThreeParts([], t0, right[1..], e, hi, pg);
        ChainOne(t0, right[1..], hi);
      }
    }
  }

  /** The list split around l, the block that holds n.startpg. */
  lemma Locate(bs: seq<VMBlock>, n: VMBlock) returns (li: nat)
    requires Wf(bs) && Fits(n)
    ensures Find(bs, n.startpg) == Some(li)
    ensures bs == bs[..li] + [bs[li]] + bs[li + 1..]
    ensures Chain(bs[..li], 0, bs[li].startpg) && Chain(bs[li + 1..], bs[li].endpg, PAGES)
    ensures Holds(bs[li], n.startpg)
  {
    ChainCovers(bs, 0, PAGES, n.startpg);
    li := Find(bs, n.startpg).value;
    var l := bs[li];
    var left, rest := bs[..li], bs[li + 1..];
    assert bs == left + ([l] + rest);
    ChainSplit(left, [l] + rest, 0, PAGES);
    assert ([l] + rest)[0] == l && ([l] + rest)[1..] == rest;
  }

  /** The two sides of the cut: the left one reaches n's start, the right one starts at n's end,
      and each keeps the attributes of the pages it still holds. */
  lemma CutShape(bs: seq<VMBlock>, n: VMBlock, pg: nat)
    requires Wf(bs) && Fits(n)
    ensures Chain(Cut(bs, n).0, 0, n.startpg) && Chain(Cut(bs, n).1, n.endpg, PAGES)
    ensures pg < n.startpg ==> AttrAt(Cut(bs, n).0, pg) == AttrAt(bs, pg)
    ensures n.endpg <= pg ==> AttrAt(Cut(bs, n).1, pg) == AttrAt(bs, pg)
  {
    var li := Locate(bs, n);
    var left, l, rest := bs[..li], bs[li], bs[li + 1..];
    ThreeParts(left, l, rest, 0, PAGES, pg);
    TrimShape(rest, l.endpg, PAGES, n.endpg, pg);
    AroundShape(left, l, rest, TrimRight(rest, n.endpg), n, pg);
  }

  lemma AroundShape(left: seq<VMBlock>, l: VMBlock, rest: seq<VMBlock>, right: seq<VMBlock>, n: VMBlock, pg: nat)
    requires Fits(n) && Holds(l, n.startpg)
    requires Chain(left, 0, l.startpg) && Chain(rest, l.endpg, PAGES)
    requires n.endpg <= l.endpg ==> right == rest
    requires Chain(right, if l.endpg < n.endpg then n.endpg else l.endpg, PAGES)
    requires n.endpg <= pg ==> AttrAt(right, pg) == AttrAt(rest, pg)
    ensures Chain(Around(left, l, right, n).0, 0, n.startpg) && Chain(Around(left, l, right, n).1, n.endpg, PAGES)
    ensures pg < n.startpg ==> AttrAt(Around(left, l, right, n).0, pg) == AttrAt(left + [l] + rest, pg)
    ensures n.endpg <= pg ==> AttrAt(Around(left, l, right, n).1, pg) == AttrAt(left + [l] + rest, pg)
  {
    ThreeParts(left, l, rest, 0, PAGES, pg);
    if l.startpg != n.startpg {
      var l1 := l.(endpg := n.startpg);
      ChainOne(l1, [], n.startpg);
      assert [l1] + [] == [l1];
      ChainAppend(left, [l1], 0, l.startpg, n.startpg);
      assert left + [l1] + [] == left + [l1];
      ThreeParts(left, l1, [], 0, n.startpg, pg);
    }
    if n.endpg < l.endpg {
      var r1 := l.(startpg := n.endpg);
      ChainOne(r1, rest, PAGES);
      assert [] + [r1] + rest == [r1] + rest;
      ThreeParts([], r1, rest, n.endpg, PAGES, pg);
    }
  }

  /** Step 5 keeps the chain and every page's attributes. */
  lemma MergeNextKeeps(left: seq<VMBlock>, n: VMBlock, right: seq<VMBlock>, pg: nat)
    requires Chain(left + [n] + right, 0, PAGES)
    ensures Chain(left + [MergeNext(n, right).0] + MergeNext(n, right).1, 0, PAGES)
    ensures AttrAt(left + [MergeNext(n, right).0] + MergeNext(n, right).1, pg) == AttrAt(left + [n] + right, pg)
  {
    if |right| > 0 && right[0].startpg < PAGES && AttrOf(right[0]) == AttrOf(n) {
      assert left + [n] + right == left + [n, right[0]] + right[1..];
      MergeKeepsAttrs(left, n, right[0], right[1..], 0, PAGES, pg);
    }
  }

  /** Step 6 keeps the chain and every page's attributes. */
  lemma MergePrevKeeps(left: seq<VMBlock>, m: VMBlock, rest: seq<VMBlock>, pg: nat)
    requires Chain(left + [m] + rest, 0, PAGES)
    ensures Chain(MergePrev(left, m) + rest, 0, PAGES)
    ensures AttrAt(MergePrev(left, m) + rest, pg) == AttrAt(left + [m] + rest, pg)
  {
    var k := |left|;
    if k > 0 && left[k - 1].startpg < PAGES && AttrOf(left[k - 1]) == AttrOf(m) {
      assert left + [m] + rest == left[..k - 1] + [left[k - 1], m] + rest;
      MergeKeepsAttrs(left[..k - 1], left[k - 1], m, rest, 0, PAGES, pg);
    }
  }

  lemma InsertAttrsAt(bs: seq<VMBlock>, n: VMBlock, pg: nat)
    requires Wf(bs) && Fits(n)
    ensures Wf(Insert(bs, n))
    ensures AttrAt(Insert(bs, n), pg) == if n.startpg <= pg < n.endpg then Some(AttrOf(n)) else AttrAt(bs, pg)
  {
    var cut := Cut(bs, n);
    CutShape(bs, n, pg);
    var left, right := cut.0, cut.1;
    ChainOne(n, right, PAGES);
    ChainAppend(left, [n] + right, 0, n.startpg, PAGES);
    assert left + [n] + right == left + ([n] + right);
    ThreeParts(left, n, right, 0, PAGES, pg);
    MergeNextKeeps(left, n, right, pg);
    var next := MergeNext(n, right);
    MergePrevKeeps(left, next.0, next.1, pg);
  }

  lemma InsertKeepsWf(bs: seq<VMBlock>, n: VMBlock)
    requires Wf(bs) && Fits(n)
    ensures Wf(Insert(bs, n))
  {
    InsertAttrsAt(bs, n, 0);
  }

  /** insert_vmblock keeps the list a cover of the address space in order, gives every page of
      [n.startpg, n.endpg) n's perm and state, and leaves every other page's as it was. */
  lemma InsertOverlays(bs: seq<VMBlock>, n: VMBlock)
    requires Wf(bs) && Fits(n)
    ensures Wf(Insert(bs, n))
    ensures forall pg: nat ::
      AttrAt(Insert(bs, n), pg) == if n.startpg <= pg < n.endpg then Some(AttrOf(n)) else AttrAt(bs, pg)
  {
    InsertAttrsAt(bs, n, 0);
    forall pg: nat
      ensures AttrAt(Insert(bs, n), pg) == if n.startpg <= pg < n.endpg then Some(AttrOf(n)) else AttrAt(bs, pg)
    {
      InsertAttrsAt(bs, n, pg);
    }
  }

  // ---------------------------------------------------------------------------
  // Merging

  /** Neighbouring blocks differ in perm or state, except where the second one starts at
      2^20 (an empty block left at the top, which insert_vmblock never merges). */
  ghost predicate Coalesced(bs: seq<VMBlock>)
  {
    forall i :: 0 < i < |bs| && bs[i].startpg < PAGES ==> AttrOf(bs[i - 1]) != AttrOf(bs[i])
  }

  /** The pair where x and y meet obeys Coalesced. */
  ghost predicate Joins(x: seq<VMBlock>, y: seq<VMBlock>)
  {
    |x| == 0 || |y| == 0 || PAGES <= y[0].startpg || AttrOf(x[|x| - 1]) != AttrOf(y[0])
  }

  lemma CoalescedConcat(x: seq<VMBlock>, y: seq<VMBlock>)
    ensures Coalesced(x + y) <==> Coalesced(x) && Coalesced(y) && Joins(x, y)
  {
    var xy := x + y;
    if Coalesced(xy) {
      forall i | 0 < i < |x| && x[i].startpg < PAGES
        ensures AttrOf(x[i - 1]) != AttrOf(x[i])
      {
        assert xy[i] == x[i] && xy[i - 1] == x[i - 1];
      }
      forall i | 0 < i < |y| && y[i].startpg < PAGES
        ensures AttrOf(y[i - 1]) != AttrOf(y[i])
      {
        assert xy[|x| + i] == y[i] && xy[|x| + i - 1] == y[i - 1];
      }
      if |x| > 0 && |y| > 0 {
        assert xy[|x|] == y[0] && xy[|x| - 1] == x[|x| - 1];
      }
    }
    if Coalesced(x) && Coalesced(y) && Joins(x, y) {
      forall i | 0 < i < |xy| && xy[i].startpg < PAGES
        ensures AttrOf(xy[i - 1]) != AttrOf(xy[i])
      {
        if i < |x| {
          assert xy[i] == x[i] && xy[i - 1] == x[i - 1];
        } else if i == |x| {
          assert xy[i] == y[0] && xy[i - 1] == x[|x| - 1];
        } else {
          assert xy[i] == y[i - |x|] && xy[i - 1] == y[i - 1 - |x|];
        }
      }
    }
  }

  lemma {:induction false} TrimKeepsCoalesced(right: seq<VMBlock>, e: nat)
    requires Coalesced(right)
    ensures Coalesced(TrimRight(right, e))
  {
    if |right| > 0 && e > right[0].startpg {
      assert right == [right[0]] + right[1..];
      CoalescedConcat([right[0]], right[1..]);
      if right[0].endpg < e {
        TrimKeepsCoalesced(right[1..], e);
      } else {
        CoalescedConcat([right[0].(startpg := e)], right[1..]);
      }
    }
  }

  lemma CutKeepsCoalesced(bs: seq<VMBlock>, n: VMBlock)
    requires Wf(bs) && Fits(n) && Coalesced(bs)
    ensures Coalesced(Cut(bs, n).0) && Coalesced(Cut(bs, n).1)
  {
    var li := Locate(bs, n);
    var left, l, rest := bs[..li], bs[li], bs[li + 1..];
    assert bs == left + ([l] + rest);
    CoalescedConcat(left, [l] + rest);
    CoalescedConcat([l], rest);
    assert ([l] + rest)[0] == l;
    TrimKeepsCoalesced(rest, n.endpg);
    TrimShape(rest, l.endpg, PAGES, n.endpg, 0);
    AroundKeepsCoalesced(left, l, rest, TrimRight(rest, n.endpg), n);
  }

  lemma AroundKeepsCoalesced(left: seq<VMBlock>, l: VMBlock, rest: seq<VMBlock>, right: seq<VMBlock>, n: VMBlock)
    requires Fits(n) && Holds(l, n.startpg)
    requires n.endpg < l.endpg ==> right == rest
    requires Coalesced(left) && Coalesced(right) && Coalesced(rest)
    requires Joins(left, [l]) && Joins([l], rest)
    ensures Coalesced(Around(left, l, right, n).0) && Coalesced(Around(left, l, right, n).1)
  {
    if l.startpg != n.startpg {
      CoalescedConcat(left, [l.(endpg := n.startpg)]);
    }
    if n.endpg < l.endpg {
      CoalescedConcat([l.(startpg := n.endpg)], rest);
    }
  }

  /** insert_vmblock merges n with a neighbour of equal perm and state, so a list in which
      neighbours differ stays that way. */
  lemma InsertKeepsCoalesced(bs: seq<VMBlock>, n: VMBlock)
    requires Wf(bs) && Fits(n) && Coalesced(bs)
    ensures Coalesced(Insert(bs, n))
  {
    var cut := Cut(bs, n);
    CutShape(bs, n, 0);
    CutKeepsCoalesced(bs, n);
    var left, right := cut.0, cut.1;
    var next := MergeNext(n, right);
    var m, rest := next.0, next.1;
    if |right| > 0 {
      assert right == [right[0]] + right[1..];
      CoalescedConcat([right[0]], right[1..]);
    }
    CoalescedConcat([m], rest);
    ChainBounds(left, 0, n.startpg);
    var k := |left|;
    if k > 0 && left[k - 1].startpg < PAGES && AttrOf(left[k - 1]) == AttrOf(m) {
      var lm := left[k - 1].(endpg := m.endpg);
      assert left == left[..k - 1] + [left[k - 1]];
      CoalescedConcat(left[..k - 1], [left[k - 1]]);
      CoalescedConcat(left[..k - 1], [lm]);
      CoalescedConcat(left[..k - 1] + [lm], rest);
    } else {
      CoalescedConcat(left, [m]);
      CoalescedConcat(left + [m], rest);
    }
  }

  /** A block reaching exactly to n's end is trimmed to nothing and stays in the list:
      inserting [5, 20) over [0, 10), [10, 20), [20, 2^20) leaves an empty block at 20. */
  lemma TrimToEmpty()
    ensures var bs := [VMBlock(0, 10, 1, 1), VMBlock(10, 20, 3, 3), VMBlock(20, PAGES, 2, 2)];
      && Wf(bs) && Coalesced(bs)
      && Insert(bs, VMBlock(5, 20, 2, 2)) ==
         [VMBlock(0, 5, 1, 1), VMBlock(5, 20, 2, 2), VMBlock(20, 20, 3, 3), VMBlock(20, PAGES, 2, 2)]
  {
    var bs := [VMBlock(0, 10, 1, 1), VMBlock(10, 20, 3, 3), VMBlock(20, PAGES, 2, 2)];
    assert Chain(bs[1..][1..][1..], PAGES, PAGES);
    assert Chain(bs[1..][1..], 20, PAGES);
    assert Chain(bs[1..], 10, PAGES);
    assert Wf(bs);
    assert Find(bs, 5) == Some(0);
    assert bs[1..] == [VMBlock(10, 20, 3, 3), VMBlock(20, PAGES, 2, 2)];
    assert TrimRight(bs[1..], 20) == [VMBlock(20, 20, 3, 3), VMBlock(20, PAGES, 2, 2)];
  }

  /** Looking a page up in a well-formed list never yields NULL. */
  lemma QueryNeverNull(bs: seq<VMBlock>, addr: nat)
    requires Wf(bs) && addr < U32
    ensures Find(bs, addr / PAGE_SIZE).Some?
  {
    ChainCovers(bs, 0, PAGES, addr / PAGE_SIZE);
  }

  // ---------------------------------------------------------------------------
  // x3ds_vmalloc's rounding

  /** base & ~(PAGE_SIZE - 1): base rounded down to a page boundary. */
  function PageFloor(x: nat): (r: nat)
    ensures r % PAGE_SIZE == 0 && r <= x < r + PAGE_SIZE
  {
    x - x % PAGE_SIZE
  }

  /** (size + PAGE_SIZE - 1) & ~(PAGE_SIZE - 1) in u32 arithmetic: size rounded up to a page
      boundary, which is 0 for a zero size and for one so large that the addition wraps. */
  function PageCeil(size: nat): (r: nat)
    requires size < U32
    ensures r % PAGE_SIZE == 0 && r < U32
    ensures r == 0 <==> size == 0 || U32 <= size + PAGE_SIZE - 1
    ensures size + PAGE_SIZE - 1 < U32 ==> size <= r < size + PAGE_SIZE
  {
    ModSmallSum(size, PAGE_SIZE - 1, U32);
    PageFloor((size + PAGE_SIZE - 1) % U32)
  }

  /** The u32 mask ~(PAGE_SIZE - 1) rounds down. */
  lemma PageMask(x: nat)
    requires x < U32
    ensures And(x, U32 - PAGE_SIZE) == PageFloor(x)
  {
    MaskClearsLow(x, 12, 32);
    Pow2Of32();
    assert Pow2(12) == PAGE_SIZE;
    DivModUnique(x, U32, 0, x);
  }

  /** The block x3ds_vmalloc inserts, or None when the rounded size is 0. */
  function AllocBlock(base: nat, size: nat, perm: nat, state: nat): (r: Option<VMBlock>)
    requires base < U32 && size < U32 && PageFloor(base) + PageCeil(size) < U32
    ensures r.None? <==> PageCeil(size) == 0
    ensures r.Some? ==> Fits(r.value) && AttrOf(r.value) == Attr(perm, state)
    ensures r.Some? ==> r.value.startpg * PAGE_SIZE == PageFloor(base)
    ensures r.Some? ==> r.value.endpg * PAGE_SIZE == PageFloor(base) + PageCeil(size)
  {
    var b, sz := PageFloor(base), PageCeil(size);
    if sz == 0 then None
    else
      PageRange(b, sz);
      Some(VMBlock(b / PAGE_SIZE, (b + sz) / PAGE_SIZE, perm, state))
  }

  lemma PageRange(b: nat, sz: nat)
    requires b % PAGE_SIZE == 0 && sz % PAGE_SIZE == 0 && 0 < sz && b + sz < U32
    ensures (b / PAGE_SIZE) * PAGE_SIZE == b && ((b + sz) / PAGE_SIZE) * PAGE_SIZE == b + sz
    ensures b / PAGE_SIZE < (b + sz) / PAGE_SIZE <= PAGES
  {
    var q1, q2 := b / PAGE_SIZE, sz / PAGE_SIZE;
    assert b == q1 * PAGE_SIZE;
    assert sz == q2 * PAGE_SIZE;
    DivModUnique(b + sz, PAGE_SIZE, q1 + q2, 0);
    assert q2 >= 1;
    assert (q1 + q2) * PAGE_SIZE < PAGES * PAGE_SIZE;
  }

  /** x3ds_vmalloc's u32 masking and shifting compute PageFloor, PageCeil and
      the block AllocBlock describes. */
  lemma AllocComputes(base: nat, size: nat, perm: nat, state: nat)
    requires base < U32 && size < U32 && PageFloor(base) + PageCeil(size) < U32
    ensures And(base, U32 - PAGE_SIZE) == PageFloor(base)
    ensures And((size + PAGE_SIZE - 1) % U32, U32 - PAGE_SIZE) == PageCeil(size)
    ensures PageCeil(size) != 0 ==>
      AllocBlock(base, size, perm, state)
      == Some(VMBlock(PageFloor(base) / PAGE_SIZE, (PageFloor(base) + PageCeil(size)) % U32 / PAGE_SIZE, perm, state))
  {
    PageMask(base);
    PageMask((size + PAGE_SIZE - 1) % U32);
    var b, sz := PageFloor(base), PageCeil(size);
    DivModUnique(b + sz, U32, 0, b + sz);
  }

  /** With a page-aligned base every requested byte lies in the inserted block. */
  lemma AlignedAllocCovers(base: nat, size: nat, perm: nat, state: nat, addr: nat)
    requires base < U32 && size < U32 && PageFloor(base) + PageCeil(size) < U32
    requires base % PAGE_SIZE == 0 && size + PAGE_SIZE - 1 < U32 && base <= addr < base + size
    ensures AllocBlock(base, size, perm, state).Some?
    ensures Holds(AllocBlock(base, size, perm, state).value, addr / PAGE_SIZE)
  {
    var n := AllocBlock(base, size, perm, state).value;
    var q := addr / PAGE_SIZE;
    assert addr == q * PAGE_SIZE + addr % PAGE_SIZE;
    assert n.startpg * PAGE_SIZE <= q * PAGE_SIZE < n.endpg * PAGE_SIZE;
  }

  /** The two roundings are independent: with base 0x1fff and size 2 the block is page 1
      alone, and the requested byte 0x2000, on page 2, lies outside it. */
  lemma UnalignedAllocMissesEnd()
    ensures AllocBlock(0x1fff, 2, 0, 0) == Some(VMBlock(1, 2, 0, 0))
    ensures !Holds(VMBlock(1, 2, 0, 0), 0x2000 / PAGE_SIZE)
  {
    assert PageFloor(0x1fff) == 0x1000;
    assert PageCeil(2) == 0x1000;
  }

  // ---------------------------------------------------------------------------
  // The address space

  /** The list x3ds_memory_init builds: one free block over the whole address space. */
  function InitialBlocks(): (r: seq<VMBlock>)
    ensures Wf(r) && Coalesced(r)
    ensures forall pg: nat :: AttrAt(r, pg) == if pg < PAGES then Some(Attr(0, MEMST_FREE)) else None
  {
    var r := [VMBlock(0, PAGES, 0, MEMST_FREE)];
    assert r[1..] == [];
    forall pg: nat
      ensures AttrAt(r, pg) == if pg < PAGES then Some(Attr(0, MEMST_FREE)) else None
    {
      ChainCovers(r, 0, PAGES, pg);
    }
    r
  }

  /** The search loop at the top of insert_vmblock: the index of the first block holding pg,
      or |bs| (the sentinel) when none does. */
  method FirstHolding(bs: seq<VMBlock>, pg: nat) returns (i: nat)
    ensures i <= |bs|
    ensures Find(bs, pg).Some? ==> Find(bs, pg) == Some(i)
    ensures Find(bs, pg).None? ==> i == |bs|
  {
    i := 0;
    while i < |bs| && !(bs[i].startpg <= pg < bs[i].endpg)
      invariant i <= |bs|
      invariant forall j :: 0 <= j < i ==> !Holds(bs[j], pg)
    {
      i := i + 1;
    }
    if i < |bs| {
      FindIs(bs, pg, i);
    }
  }

  /** The removal loop of insert_vmblock (step 3) on the blocks after l. */
  method TrimLoop(right: seq<VMBlock>, e: nat) returns (r: seq<VMBlock>)
    ensures r == TrimRight(right, e)
  {
    r := right;
    while |r| > 0 && r[0].startpg < e
      invariant TrimRight(r, e) == TrimRight(right, e)
      decreases |r|
    {
      if r[0].endpg < e {
        r := r[1..];
      } else {
        r := [r[0].(startpg := e)] + r[1..];
        break;
      }
    }
  }

  class AddressSpace {
    /** The blocks from the sentinel's next to its prev. */
    var blocks: seq<VMBlock>
    /** used_memory: the bytes x3ds_vmalloc has mapped. */
    var usedMemory: nat

    ghost predicate Valid()
      reads this
    {
      Wf(blocks)
    }

    /** x3ds_memory_init; used_memory is not set there, so it keeps the value given. */
    constructor (usedMemory: nat)
      ensures Valid() && blocks == InitialBlocks() && this.usedMemory == usedMemory
    {
      blocks := [VMBlock(0, PAGES, 0, MEMST_FREE)];
      this.usedMemory := usedMemory;
    }

    /** insert_vmblock: overlay n on the list. */
    method InsertVMBlock(n: VMBlock)
      requires Valid() && Fits(n)
      modifies this
      ensures Valid() && blocks == Insert(old(blocks), n) && usedMemory == old(usedMemory)
    {
      var s, e := n.startpg, n.endpg;
      ChainCovers(blocks, 0, PAGES, s);
      var li := FirstHolding(blocks, s);
      var l := blocks[li];
      var left := blocks[..li];
      var right := TrimLoop(blocks[li + 1..], e);
      if s < l.endpg {
        if e < l.endpg {
          // nr: the part of l after n
          right := [l.(startpg := e)] + right;
        }
        if l.startpg != s {
          left := left + [l.(endpg := s)];
        }
      }
      InsertKeepsWf(blocks, n);
      // steps 5 and 6: link n in, then merge it with its neighbours
      var next := MergeNext(n, right);
      blocks := MergePrev(left, next.0) + next.1;
    }

    /** x3ds_vmquery: the first block holding the page of addr, or None (NULL). */
    method VMQuery(addr: nat) returns (r: Option<nat>)
      requires addr < U32
      ensures r == Find(blocks, addr / PAGE_SIZE)
    {
      var pg := addr / PAGE_SIZE;
      var i := 0;
      while i < |blocks|
        invariant i <= |blocks|
        invariant forall j :: 0 <= j < i ==> !Holds(blocks[j], pg)
      {
        if blocks[i].startpg <= pg < blocks[i].endpg {
          FindIs(blocks, pg, i);
          return Some(i);
        }
        i := i + 1;
      }
      return None;
    }

    /** x3ds_vmalloc: round base down and size up to whole pages, do nothing when the size
        rounds to 0, and otherwise insert the block and count the bytes in used_memory. */
    method VMAlloc(base: nat, size: nat, perm: nat, state: nat)
      requires Valid() && base < U32 && size < U32 && PageFloor(base) + PageCeil(size) < U32
      modifies this
      ensures Valid()
      ensures AllocBlock(base, size, perm, state).None? ==>
        blocks == old(blocks) && usedMemory == old(usedMemory)
      ensures AllocBlock(base, size, perm, state).Some? ==>
        blocks == Insert(old(blocks), AllocBlock(base, size, perm, state).value)
        && usedMemory == old(usedMemory) + PageCeil(size)
    {
      AllocComputes(base, size, perm, state);
      var b := And(base, U32 - PAGE_SIZE);
      var sz := And((size + PAGE_SIZE - 1) % U32, U32 - PAGE_SIZE);
      if sz == 0 {
        return;
      }
      var n := VMBlock(b / PAGE_SIZE, (b + sz) % U32 / PAGE_SIZE, perm, state);
      InsertVMBlock(n);
      usedMemory := usedMemory + sz;
    }
  }
}
