/**
 * The vertex-shader JIT cache (src/pica/shaderjit/shaderjit.c).
 *
 * The GPU keeps a fixed array of VSH_MAX slots. A slot is keyed by the 64-bit
 * hash of the whole shader instruction memory (hash 0 marks an empty slot) and
 * owns the backend that compiled that program. A request scans the slots in
 * ascending order for a slot holding the hash or an empty one, falls back to
 * the least-recently-used slot, promotes the chosen slot, and rebuilds the
 * backend only when the slot's hash changes.
 *
 * The pure function Lookup states one request on a value of the cache; the
 * class ShaderCache performs it in place and is proved equal to it.
 */
module ShaderJit {
  import opened Wrappers

  /** What a slot's backend pointer refers to: nothing yet, or the unit made by
      the id-th call of the backend initialiser (ids are handed out in order,
      so a new id is a fresh allocation). */
  datatype Backend = NoBackend | Compiled(id: nat)

  datatype Slot = Slot(hash: bv64, backend: Backend)

  /** A slot can serve a request for hash h when it holds h or is empty. */
  predicate Fits(s: Slot, h: bv64)
  {
    s.hash == h || s.hash == 0
  }

  /** The scan of shaderjit_get: the first slot at or after `from` that fits h. */
  function FirstFit(slots: seq<Slot>, h: bv64, from: nat): (r: Option<nat>)
    requires from <= |slots|
    decreases |slots| - from
    ensures r.Some? ==> from <= r.value < |slots| && Fits(slots[r.value], h)
    ensures r.Some? ==> forall k :: from <= k < r.value ==> !Fits(slots[k], h)
    ensures r.None? <==> forall k :: from <= k < |slots| ==> !Fits(slots[k], h)
  {
    if from == |slots| then None
    else if Fits(slots[from], h) then Some(from)
    else FirstFit(slots, h, from + 1)
  }

  // ---------------------------------------------------------------------------
  // Recency order: a sequence of slot indices, least recently used first.

  ghost predicate Distinct(order: seq<nat>)
  {
    forall j, k :: 0 <= j < k < |order| ==> order[j] != order[k]
  }

  /** The recency order of an n-slot cache holds every slot index exactly once. */
  ghost predicate IsOrder(order: seq<nat>, n: nat)
  {
    && |order| == n
    && Distinct(order)
    && (forall x :: x in order ==> x < n)
    && (forall i :: 0 <= i < n ==> i in order)
  }

  /** `order` with i taken out; the other indices keep their relative order. */
  function Without(order: seq<nat>, i: nat): (r: seq<nat>)
    ensures forall x :: x in r <==> x in order && x != i
    ensures i !in order ==> r == order
    ensures Distinct(order) ==> Distinct(r)
    ensures Distinct(order) && i in order ==> |r| == |order| - 1
    ensures |order| > 0 && order[0] != i ==> |r| > 0 && r[0] == order[0]
  {
    if order == [] then []
    else if order[0] == i then Without(order[1..], i)
    else
      var rest := Without(order[1..], i);
      assert Distinct(order) ==> order[0] !in order[1..];
      assert Distinct(order) ==> Distinct([order[0]] + rest) by {
        if Distinct(order) {
          forall j, k | 0 <= j < k < |[order[0]] + rest| ensures ([order[0]] + rest)[j] != ([order[0]] + rest)[k] {
            if j == 0 {
              assert ([order[0]] + rest)[k] in rest;
            }
          }
        }
      }
      [order[0]] + rest
  }

  /** LRU_use: i becomes the most recently used index. */
  function LruUse(order: seq<nat>, i: nat): (r: seq<nat>)
    ensures |r| > 0 && r[|r| - 1] == i
    ensures r[..|r| - 1] == Without(order, i)
  {
    Without(order, i) + [i]
  }

  /** LRU_eject: the least recently used index. */
  function LruEject(order: seq<nat>): nat
    requires |order| > 0
  {
    order[0]
  }

  lemma LruUseKeepsOrder(order: seq<nat>, n: nat, i: nat)
    requires IsOrder(order, n) && i < n
    ensures IsOrder(LruUse(order, i), n)
  {
    var w := Without(order, i);
    var r := LruUse(order, i);
    assert r == w + [i];
    assert Distinct(r) by {
      forall j, k | 0 <= j < k < |r| ensures r[j] != r[k] {
        if k == |r| - 1 {
          assert r[j] in w;
        }
      }
    }
  }

  // ---------------------------------------------------------------------------
  // The cache as a value.

  datatype Cache = Cache(slots: seq<Slot>, recency: seq<nat>, nextId: nat)
  {
    /** Every compiled backend was issued before nextId, and no two slots own the
        same backend. */
    ghost predicate Owned()
    {
      && (forall k :: 0 <= k < |slots| && slots[k].backend.Compiled? ==> slots[k].backend.id < nextId)
      && (forall j, k :: 0 <= j < k < |slots| && slots[j].backend.Compiled? ==> slots[j].backend != slots[k].backend)
    }

    ghost predicate Valid()
    {
      |slots| >= 1 && IsOrder(recency, |slots|) && Owned()
    }
  }

  /** The outcome of one request: the new cache, the chosen slot, whether its
      backend was rebuilt, and the backend released before the rebuild. */
  datatype Outcome = Outcome(next: Cache, chosen: nat, rebuilt: bool, released: Backend)

  function Iota(n: nat): (r: seq<nat>)
    ensures |r| == n && forall k :: 0 <= k < n ==> r[k] == k
  {
    if n == 0 then [] else Iota(n - 1) + [n - 1]
  }

  lemma IotaIsOrder(n: nat)
    ensures IsOrder(Iota(n), n)
  {
    var order := Iota(n);
    forall i | 0 <= i < n ensures i in order {
      assert order[i] == i;
    }
  }

  /** A cache of n empty slots (the zero-initialised GPU state). */
  function Empty(n: nat): (c: Cache)
    requires n >= 1
    ensures c.Valid()
    ensures |c.slots| == n && forall k :: 0 <= k < n ==> c.slots[k] == Slot(0, NoBackend)
  {
    var order := Iota(n);
    IotaIsOrder(n);
    Cache(seq(n, _ => Slot(0, NoBackend)), order, 0)
  }

  /** The slot a request for h lands in: the first slot that fits, else the
      least recently used one. */
  function Choose(c: Cache, h: bv64): (i: nat)
    requires c.Valid()
    ensures i < |c.slots|
    ensures FirstFit(c.slots, h, 0).Some? ==>
      Fits(c.slots[i], h) && forall k :: 0 <= k < i ==> !Fits(c.slots[k], h)
    ensures FirstFit(c.slots, h, 0).None? ==> i == c.recency[0]
  {
    var found := FirstFit(c.slots, h, 0);
    if found.Some? then found.value
    else
      assert c.recency[0] in c.recency;
      LruEject(c.recency)
  }

  /** Storing h in slot i: nothing changes when the slot already holds h;
      otherwise the slot takes h and a backend with a fresh id. */
  function Install(slots: seq<Slot>, nextId: nat, i: nat, h: bv64): (r: (seq<Slot>, nat))
    requires i < |slots|
    ensures |r.0| == |slots| && r.0[i].hash == h
    ensures slots[i].hash == h ==> r == (slots, nextId)
    ensures slots[i].hash != h ==> r.0[i].backend == Compiled(nextId) && r.1 == nextId + 1
    ensures forall k :: 0 <= k < |slots| && k != i ==> r.0[k] == slots[k]
  {
    if slots[i].hash == h then (slots, nextId)
    else (slots[i := Slot(h, Compiled(nextId))], nextId + 1)
  }

  /** One call of shaderjit_get for the program whose hash is h. */
  function Lookup(c: Cache, h: bv64): (r: Outcome)
    requires c.Valid()
    ensures r.chosen < |c.slots| && r.next.Valid() && |r.next.slots| == |c.slots|
    ensures r.next.slots[r.chosen].hash == h
    // scan order: the first slot holding h or empty wins
    ensures FirstFit(c.slots, h, 0).Some? ==>
      Fits(c.slots[r.chosen], h) && forall k :: 0 <= k < r.chosen ==> !Fits(c.slots[k], h)
    // eviction only when nothing fits, and then of the least recently used slot
    ensures FirstFit(c.slots, h, 0).None? ==> r.chosen == c.recency[0]
    // promotion on every path
    ensures r.next.recency[|c.slots| - 1] == r.chosen
    ensures r.next.recency[..|c.slots| - 1] == Without(c.recency, r.chosen)
    // a hit keeps the backend; a miss releases the old one and installs a fresh one
    ensures r.rebuilt <==> c.slots[r.chosen].hash != h
    ensures !r.rebuilt ==> r.next.slots == c.slots && r.next.nextId == c.nextId && r.released == NoBackend
    ensures r.rebuilt ==> && r.released == c.slots[r.chosen].backend
                          && r.next.slots[r.chosen].backend == Compiled(c.nextId)
                          && r.next.nextId == c.nextId + 1
                          && forall k :: 0 <= k < |c.slots| ==> c.slots[k].backend != Compiled(c.nextId)
    // every other slot is untouched
    ensures forall k :: 0 <= k < |c.slots| && k != r.chosen ==> r.next.slots[k] == c.slots[k]
  {
    var chosen := Choose(c, h);
    LruUseKeepsOrder(c.recency, |c.slots|, chosen);
    var installed := Install(c.slots, c.nextId, chosen, h);
    InstallKeepsOwned(c, chosen, h);
    var rebuilt := c.slots[chosen].hash != h;
    Outcome(Cache(installed.0, LruUse(c.recency, chosen), installed.1), chosen, rebuilt,
            if rebuilt then c.slots[chosen].backend else NoBackend)
  }

  lemma InstallKeepsOwned(c: Cache, i: nat, h: bv64)
    requires c.Owned() && i < |c.slots|
    ensures var r := Install(c.slots, c.nextId, i, h); Cache(r.0, c.recency, r.1).Owned()
    ensures forall k :: 0 <= k < |c.slots| ==> c.slots[k].backend != Compiled(c.nextId)
  {
  }

  // ---------------------------------------------------------------------------
  // Invariants of the slot array and the behaviour over several requests.

  /** Non-empty stored hashes are pairwise distinct. */
  ghost predicate HashesDistinct(slots: seq<Slot>)
  {
    forall j, k :: 0 <= j < k < |slots| && slots[j].hash != 0 ==> slots[j].hash != slots[k].hash
  }

  /** Empty slots form a suffix of the array. */
  ghost predicate EmptiesLast(slots: seq<Slot>)
  {
    forall j, k :: 0 <= j < k < |slots| && slots[j].hash == 0 ==> slots[k].hash == 0
  }

  /** The zero-initialised cache meets both slot invariants, so they hold for
      as long as every request has a non-zero hash. */
  lemma EmptyHasSlotInvariants(n: nat)
    requires n >= 1
    ensures HashesDistinct(Empty(n).slots) && EmptiesLast(Empty(n).slots)
  {
  }

  /** For a non-zero hash, a request keeps both slot invariants. */
  lemma LookupKeepsSlotInvariants(c: Cache, h: bv64)
    requires c.Valid() && h != 0
    requires HashesDistinct(c.slots) && EmptiesLast(c.slots)
    ensures HashesDistinct(Lookup(c, h).next.slots) && EmptiesLast(Lookup(c, h).next.slots)
  {
    var i := Choose(c, h);
    InstallKeepsSlotInvariants(c.slots, c.nextId, i, h);
  }

  /** Installing a non-zero hash in the slot a request chooses keeps both slot invariants. */
  lemma InstallKeepsSlotInvariants(slots: seq<Slot>, nextId: nat, i: nat, h: bv64)
    requires i < |slots| && h != 0
    requires HashesDistinct(slots) && EmptiesLast(slots)
    requires forall k :: 0 <= k < i ==> !Fits(slots[k], h)
    requires Fits(slots[i], h) || forall k :: 0 <= k < |slots| ==> !Fits(slots[k], h)
    ensures HashesDistinct(Install(slots, nextId, i, h).0) && EmptiesLast(Install(slots, nextId, i, h).0)
  {
    if slots[i].hash != h {
      // h is stored nowhere: a slot holding it would have been found first
      assert forall k :: 0 <= k < |slots| ==> slots[k].hash != h;
      // the chosen slot was the first fitting one, so no empty slot precedes it
      assert forall j :: 0 <= j < i ==> slots[j].hash != 0;
    }
  }

  /** A hash already stored is a hit: while the slot invariants hold, a request
      for a non-zero hash held by slot i chooses slot i and rebuilds nothing. */
  lemma LookupHits(c: Cache, h: bv64, i: nat)
    requires c.Valid() && h != 0 && HashesDistinct(c.slots) && EmptiesLast(c.slots)
    requires i < |c.slots| && c.slots[i].hash == h
    ensures Lookup(c, h).chosen == i && !Lookup(c, h).rebuilt
  {
    var r := FirstFit(c.slots, h, 0);
    assert Fits(c.slots[i], h);
    if r.Some? && r.value != i {
      assert r.value < i;
    }
  }

  /** A request for hash 0 while some slot is empty takes the first empty slot
      and does not rebuild its backend. */
  lemma ZeroHashTakesFirstEmpty(c: Cache, e: nat)
    requires c.Valid() && e < |c.slots| && c.slots[e].hash == 0
    requires forall k :: 0 <= k < e ==> c.slots[k].hash != 0
    ensures Lookup(c, 0).chosen == e && !Lookup(c, 0).rebuilt
  {
    assert Fits(c.slots[e], 0);
  }

  /** A request for hash 0 on a full cache evicts the least recently used slot
      and rebuilds it, leaving it looking empty. */
  lemma ZeroHashOnFullCacheRebuilds(c: Cache)
    requires c.Valid()
    requires forall k :: 0 <= k < |c.slots| ==> c.slots[k].hash != 0
    ensures Lookup(c, 0).chosen == c.recency[0] && Lookup(c, 0).rebuilt
    ensures Lookup(c, 0).next.slots[c.recency[0]].hash == 0
  {
    assert FirstFit(c.slots, 0, 0).None?;
  }

  /** With two slots, the requests A, B, A, C leave the cache holding A and C:
      the third request is a hit and the fourth evicts B, the less recently used. */
  lemma TwoSlotScenario(a: bv64, b: bv64, x: bv64)
    requires a != 0 && b != 0 && x != 0 && a != b && a != x && b != x
    ensures var s1 := Lookup(Empty(2), a);
            var s2 := Lookup(s1.next, b);
            var s3 := Lookup(s2.next, a);
            var s4 := Lookup(s3.next, x);
            && s1.rebuilt && s2.rebuilt && !s3.rebuilt && s4.rebuilt
            && s4.chosen == 1 && s4.released == s2.next.slots[1].backend
            && s4.next.slots[0].hash == a && s4.next.slots[1].hash == x
  {
    var c0 := Empty(2);
    var s1 := Lookup(c0, a);
    assert FirstFit(c0.slots, a, 0) == Some(0);
    assert s1.chosen == 0 && s1.next.recency == [1, 0];
    var s2 := Lookup(s1.next, b);
    assert FirstFit(s1.next.slots, b, 0) == Some(1);
    assert s2.chosen == 1 && s2.next.recency == [0, 1];
    var s3 := Lookup(s2.next, a);
    assert FirstFit(s2.next.slots, a, 0) == Some(0);
    assert s3.chosen == 0 && s3.next.recency == [1, 0];
    var s4 := Lookup(s3.next, x);
    assert FirstFit(s3.next.slots, x, 0) == None;
  }

  /** A request for hash 0 can break the distinctness of stored hashes: with two
      slots, the requests A, B, 0, B evict A for hash 0, and the second B then
      lands in that slot, because it looks empty, leaving B in both slots. */
  lemma ZeroHashLetsHashRepeat(a: bv64, b: bv64)
    requires a != 0 && b != 0 && a != b
    ensures var s1 := Lookup(Empty(2), a);
            var s2 := Lookup(s1.next, b);
            var s3 := Lookup(s2.next, 0);
            var s4 := Lookup(s3.next, b);
            && s3.chosen == 0 && s3.rebuilt
            && s4.chosen == 0 && s4.rebuilt
            && s4.next.slots[0].hash == b && s4.next.slots[1].hash == b
            && !HashesDistinct(s4.next.slots)
  {
    var c0 := Empty(2);
    var s1 := Lookup(c0, a);
    assert FirstFit(c0.slots, a, 0) == Some(0);
    assert s1.chosen == 0 && s1.next.recency == [1, 0];
    var s2 := Lookup(s1.next, b);
    assert FirstFit(s1.next.slots, b, 0) == Some(1);
    assert s2.chosen == 1 && s2.next.recency == [0, 1];
    var s3 := Lookup(s2.next, 0);
    assert FirstFit(s2.next.slots, 0, 0) == None;
    assert s3.chosen == 0 && s3.next.recency == [1, 0];
    var s4 := Lookup(s3.next, b);
    assert FirstFit(s3.next.slots, b, 0) == Some(0);
    assert s4.next.slots[0].hash == s4.next.slots[1].hash;
  }

  /** Every id in `freed` was issued before, and no slot still owns a freed backend. */
  ghost predicate NoneFreed(c: Cache, freed: set<nat>)
  {
    && (forall id :: id in freed ==> id < c.nextId)
    && (forall k :: 0 <= k < |c.slots| && c.slots[k].backend.Compiled? ==> c.slots[k].backend.id !in freed)
  }

  /** Releasing the backend a request replaces never frees one that a slot still owns. */
  lemma LookupKeepsNoneFreed(c: Cache, freed: set<nat>, h: bv64)
    requires c.Valid() && NoneFreed(c, freed)
    ensures var r := Lookup(c, h);
            NoneFreed(r.next, if r.released.Compiled? then freed + {r.released.id} else freed)
  {
  }

  // ---------------------------------------------------------------------------
  // The cache as the GPU holds it, updated in place.

  class ShaderCache {
    /** VSH_MAX, the number of slots. */
    const capacity: nat
    const slots: array<Slot>
    /** The LRU list, least recently used first. */
    var recency: seq<nat>
    /** The id the backend initialiser hands out next. */
    var nextId: nat
    /** Ids of the backends released so far. */
    ghost var freed: set<nat>

    ghost predicate Valid()
      reads this, slots
    {
      && slots.Length == capacity
      && State().Valid()
      && NoneFreed(State(), freed)
    }

    function State(): Cache
      reads this, slots
    {
      Cache(slots[..], recency, nextId)
    }

    constructor (n: nat)
      requires n >= 1
      ensures Valid() && fresh(slots)
      ensures State() == Empty(n) && freed == {}
    {
      capacity := n;
      slots := new Slot[n](_ => Slot(0, NoBackend));
      recency := Iota(n);
      nextId := 0;
      freed := {};
      new;
      assert slots[..] == Empty(n).slots;
    }

    /** shaderjit_get: `xxh3` stands for the hash of the instruction memory
        `code`; the returned backend is the one whose code is handed back. */
    method Get(code: seq<bv32>, xxh3: seq<bv32> -> bv64) returns (chosen: nat, unit: Backend)
      requires Valid()
      modifies this, slots
      ensures Valid()
      ensures var r := Lookup(old(State()), xxh3(code));
              && State() == r.next && chosen == r.chosen && unit == r.next.slots[chosen].backend
              && freed == (if r.released.Compiled? then old(freed) + {r.released.id} else old(freed))
    {
      var hash := xxh3(code);
      chosen := Scan(hash);
      ghost var before := State();
      recency := LruUse(recency, chosen);
      Promote(chosen, hash);
      unit := slots[chosen].backend;
      assert State() == Lookup(before, hash).next;
      LookupKeepsNoneFreed(before, old(freed), hash);
    }

    /** The slot search of shaderjit_get: the first slot holding the hash or
        empty, else the least recently used slot. */
    method Scan(hash: bv64) returns (chosen: nat)
      requires Valid()
      ensures chosen == Choose(State(), hash)
    {
      var i := 0;
      while i < slots.Length
        invariant 0 <= i <= slots.Length
        invariant FirstFit(slots[..], hash, 0) == FirstFit(slots[..], hash, i)
      {
        if slots[i].hash == hash || slots[i].hash == 0 {
          return i;
        }
        i := i + 1;
      }
      assert recency[0] in recency;
      chosen := LruEject(recency);
    }

    /** The update of shaderjit_get once slot i is chosen and promoted: when
        its hash differs, free its backend and build a new one. */
    method Promote(i: nat, hash: bv64)
      requires i < slots.Length
      modifies this, slots
      ensures recency == old(recency)
      ensures slots[..] == Install(old(slots[..]), old(nextId), i, hash).0
      ensures nextId == Install(old(slots[..]), old(nextId), i, hash).1
      ensures freed == old(if slots[i].hash != hash && slots[i].backend.Compiled? then freed + {slots[i].backend.id} else freed)
    {
      if slots[i].hash != hash {
        var oldBackend := slots[i].backend;
        if oldBackend.Compiled? {
          freed := freed + {oldBackend.id};
        }
        ghost var cells := slots[..];
        slots[i] := Slot(hash, Compiled(nextId));
        assert slots[..] == cells[i := Slot(hash, Compiled(nextId))];
        nextId := nextId + 1;
      }
    }
  }
}
