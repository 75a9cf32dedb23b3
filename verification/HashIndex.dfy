/** The open-addressing index: slots holding entry indices, a power-of-two number of them,
    probed linearly with wraparound. The index knows nothing about keys. */
module HashIndex {
  import opened Bits

  const EMPTY: int := -1
  const NOT_FOUND: int := -11

  const SUCCESS: int := 0
  const NULL_TABLE: int := -1
  const SIZE_NOT_POWER_OF_2: int := -2
  const HT_FULL: int := -4

  /** The slot where probing for a hash starts. */
  function Home(hash: nat, cap: nat): (home: nat)
    requires IsPowerOf2(cap)
    ensures home < cap && home == hash % cap
  {
    MaskIsRemainder(hash, cap);
    And(hash, cap - 1)
  }

  /** The slot visited by probe number `d`. */
  function ProbeAt(home: nat, d: nat, cap: nat): (p: nat)
    requires home < cap && d <= cap
    ensures p < cap
  {
    if home + d < cap then home + d else home + d - cap
  }

  /** Number of probes between a home slot and a slot. */
  function Distance(home: nat, p: nat, cap: nat): (d: nat)
    requires home < cap && p < cap
    ensures d < cap && ProbeAt(home, d, cap) == p
  {
    if home <= p then p - home else p + cap - home
  }

  /** The increment-and-mask step of every probe loop. */
  lemma MaskedStep(home: nat, d: nat, cap: nat)
    requires IsPowerOf2(cap) && home < cap && d < cap
    ensures And(ProbeAt(home, d, cap) + 1, cap - 1) == ProbeAt(home, d + 1, cap)
  {
    var p := ProbeAt(home, d, cap);
    MaskIsRemainder(p + 1, cap);
    if p + 1 == cap {
      ModUnique(cap, cap, 1, 0);
    } else {
      ModUnique(p + 1, cap, 0, p + 1);
    }
  }

  /** The slot after `d` rounds of the loops' masked increment. */
  function MaskedProbe(hash: nat, d: nat, cap: nat): nat
    requires cap > 0
  {
    if d == 0 then And(hash, cap - 1) else And(MaskedProbe(hash, d - 1, cap) + 1, cap - 1)
  }

  lemma {:induction false} MaskedProbeIs(hash: nat, d: nat, cap: nat)
    requires IsPowerOf2(cap) && d <= cap
    ensures MaskedProbe(hash, d, cap) == ProbeAt(Home(hash, cap), d, cap)
  {
    if d > 0 {
      MaskedProbeIs(hash, d - 1, cap);
      MaskedStep(Home(hash, cap), d - 1, cap);
    }
  }

  /** A full round of masked probes visits every slot exactly once. */
  lemma ProbesVisitOnce(hash: nat, p: nat, cap: nat)
    requires IsPowerOf2(cap) && p < cap
    ensures exists d: nat :: d < cap && MaskedProbe(hash, d, cap) == p
    ensures forall d: nat, e: nat ::
      d < cap && e < cap && MaskedProbe(hash, d, cap) == p && MaskedProbe(hash, e, cap) == p ==> d == e
  {
    forall d: nat | d < cap ensures MaskedProbe(hash, d, cap) == ProbeAt(Home(hash, cap), d, cap) {
      MaskedProbeIs(hash, d, cap);
    }
    assert MaskedProbe(hash, Distance(Home(hash, cap), p, cap), cap) == p;
  }

  /** No probe from `home` meets an empty slot before slot `p`. */
  ghost predicate Reaches(slots: seq<int>, home: nat, p: nat)
    requires home < |slots| && p < |slots|
  {
    forall d :: 0 <= d < Distance(home, p, |slots|) ==> slots[ProbeAt(home, d, |slots|)] != EMPTY
  }

  /** The index invariant: slots are empty or hold entry indices, no entry is held twice,
      and every held entry is reachable from the home of its hash. */
  ghost predicate Chained(slots: seq<int>, hashes: seq<nat>) {
    && IsPowerOf2(|slots|)
    && (forall p :: 0 <= p < |slots| ==> EMPTY <= slots[p] < |hashes|)
    && (forall p, q :: 0 <= p < q < |slots| && slots[p] == slots[q] ==> slots[p] == EMPTY)
    && (forall p :: 0 <= p < |slots| && slots[p] != EMPTY ==>
          Reaches(slots, Home(hashes[slots[p]], |slots|), p))
  }

  /** Number of the first probe, from probe `d` on, that meets an empty slot; the size if none does. */
  function FirstFree(slots: seq<int>, home: nat, d: nat): (r: nat)
    requires home < |slots| && d <= |slots|
    ensures d <= r <= |slots|
    ensures forall e :: d <= e < r ==> slots[ProbeAt(home, e, |slots|)] != EMPTY
    ensures r < |slots| ==> slots[ProbeAt(home, r, |slots|)] == EMPTY
    decreases |slots| - d
  {
    if d == |slots| || slots[ProbeAt(home, d, |slots|)] == EMPTY then d
    else FirstFree(slots, home, d + 1)
  }

  /** The slots after inserting entry index `k` under `hash`; unchanged if no slot is empty. */
  function Put(slots: seq<int>, hash: nat, k: int): (r: seq<int>)
    requires IsPowerOf2(|slots|)
    ensures |r| == |slots|
  {
    var home := Home(hash, |slots|);
    var d := FirstFree(slots, home, 0);
    if d < |slots| then slots[ProbeAt(home, d, |slots|) := k] else slots
  }

  /** What the probe loops return: the first entry index from probe `d` on that `hit` accepts,
      or `NOT_FOUND` at the first empty slot or after a full round. */
  function Find(slots: seq<int>, home: nat, d: nat, hit: set<int>): int
    requires home < |slots| && d <= |slots|
    decreases |slots| - d
  {
    if d == |slots| then NOT_FOUND
    else
      var e := slots[ProbeAt(home, d, |slots|)];
      if e == EMPTY then NOT_FOUND
      else if e in hit then e
      else Find(slots, home, d + 1, hit)
  }

  lemma {:induction false} FindSound(slots: seq<int>, home: nat, d: nat, hit: set<int>)
    requires home < |slots| && d <= |slots|
    ensures var r := Find(slots, home, d, hit);
      r == NOT_FOUND || (r != EMPTY && r in hit && r in slots)
    decreases |slots| - d
  {
    if d < |slots| { FindSound(slots, home, d + 1, hit); }
  }

  lemma {:induction false} FindReaches(slots: seq<int>, home: nat, d: nat, p: nat, hit: set<int>)
    requires home < |slots| && p < |slots| && d <= Distance(home, p, |slots|)
    requires slots[p] != EMPTY && Reaches(slots, home, p) && slots[p] in hit
    requires forall q :: 0 <= q < |slots| && slots[q] != EMPTY && slots[q] in hit ==> slots[q] == slots[p]
    ensures Find(slots, home, d, hit) == slots[p]
    decreases |slots| - d
  {
    if d < Distance(home, p, |slots|) && slots[ProbeAt(home, d, |slots|)] !in hit {
      FindReaches(slots, home, d + 1, p, hit);
    }
  }

  /** Stopping at the first empty slot never misses an indexed entry: in a chained index whose
      accepted entries all carry `hash` and coincide, probing returns that entry, and `NOT_FOUND`
      exactly when no indexed entry is accepted. */
  lemma FindDecides(slots: seq<int>, hashes: seq<nat>, hash: nat, hit: set<int>)
    requires Chained(slots, hashes)
    requires forall e :: e in slots && e != EMPTY && e in hit ==> hashes[e] == hash
    requires forall e, f :: e in slots && f in slots && e != EMPTY && f != EMPTY && e in hit && f in hit ==> e == f
    ensures forall e :: e in slots && e != EMPTY && e in hit ==> Find(slots, Home(hash, |slots|), 0, hit) == e
    ensures (forall e :: e in slots && e != EMPTY ==> e !in hit) <==>
      Find(slots, Home(hash, |slots|), 0, hit) == -11
  {
    var home := Home(hash, |slots|);
    FindSound(slots, home, 0, hit);
    forall e | e in slots && e != EMPTY && e in hit
      ensures Find(slots, home, 0, hit) == e
    {
      var p: nat :| p < |slots| && slots[p] == e;
      FindReaches(slots, home, 0, p, hit);
    }
  }

  /** An injective sequence of naturals below `n` has at most `n` elements. */
  lemma {:induction false} Pigeonhole(s: seq<int>, n: nat)
    requires forall i :: 0 <= i < |s| ==> 0 <= s[i] < n
    requires forall i, j :: 0 <= i < j < |s| ==> s[i] != s[j]
    ensures |s| <= n
    decreases n
  {
    if n > 0 {
      if n - 1 in s {
        var i :| 0 <= i < |s| && s[i] == n - 1;
        var rest := s[..i] + s[i + 1..];
        assert forall j :: 0 <= j < |rest| ==> rest[j] == s[if j < i then j else j + 1];
        Pigeonhole(rest, n - 1);
      } else {
        Pigeonhole(s, n - 1);
      }
    }
  }

  /** With fewer entries than slots there is an empty slot, and every probe sequence finds one:
      the insertion's fall-through return is unreachable. */
  lemma FreeSlotExists(slots: seq<int>, hashes: seq<nat>, hash: nat)
    requires Chained(slots, hashes) && |hashes| < |slots|
    ensures FirstFree(slots, Home(hash, |slots|), 0) < |slots|
  {
    var home := Home(hash, |slots|);
    if FirstFree(slots, home, 0) == |slots| {
      forall p | 0 <= p < |slots| ensures slots[p] != EMPTY {
        assert ProbeAt(home, Distance(home, p, |slots|), |slots|) == p;
      }
      Pigeonhole(slots, |hashes|);
    }
  }

  /** Inserting a not yet indexed entry keeps the invariant and adds just that entry. */
  lemma PutChained(slots: seq<int>, hashes: seq<nat>, hash: nat, k: nat)
    requires Chained(slots, hashes) && k < |hashes| && hashes[k] == hash && k !in slots
    requires FirstFree(slots, Home(hash, |slots|), 0) < |slots|
    ensures Chained(Put(slots, hash, k), hashes)
    ensures forall e :: e != EMPTY ==> (e in Put(slots, hash, k) <==> e in slots || e == k)
  {
    var cap := |slots|;
    var home := Home(hash, cap);
    var d := FirstFree(slots, home, 0);
    var at := ProbeAt(home, d, cap);
    var r := Put(slots, hash, k);
    assert Distance(home, at, cap) == d;
    forall e | e != EMPTY ensures e in r <==> e in slots || e == k {
      if e in slots {
        var p :| 0 <= p < cap && slots[p] == e;
        assert r[p] == e;
      }
      assert r[at] == k;
    }
  }

  /** Hashes of entries appended later do not matter. */
  lemma ChainedExtends(slots: seq<int>, hashes: seq<nat>, more: seq<nat>)
    requires Chained(slots, hashes)
    ensures Chained(slots, hashes + more)
  {
  }

  /** Appending and indexing a new entry, as long as there are fewer entries than slots. */
  lemma AppendChained(slots: seq<int>, hashes: seq<nat>, hash: nat)
    requires Chained(slots, hashes) && |hashes| < |slots|
    ensures FirstFree(slots, Home(hash, |slots|), 0) < |slots|
    ensures Chained(Put(slots, hash, |hashes|), hashes + [hash])
    ensures forall e :: e != EMPTY ==> (e in Put(slots, hash, |hashes|) <==> e in slots || e == |hashes|)
  {
    assert |hashes| !in slots;
    FreeSlotExists(slots, hashes, hash);
    ChainedExtends(slots, hashes, [hash]);
    PutChained(slots, hashes + [hash], hash, |hashes|);
  }

  function SlotAfter(hash: nat, d: nat, cap: nat): (p: nat)
    requires cap > 0
    ensures p < cap
  {
    (hash + d) % cap
  }

  /** Probe `d` is the slot `d` places after the hash, modulo the size. */
  lemma ProbeIsModular(hash: nat, d: nat, cap: nat)
    requires IsPowerOf2(cap) && d < cap
    ensures ProbeAt(Home(hash, cap), d, cap) == SlotAfter(hash, d, cap)
  {
    hide IsPowerOf2;
    var q, r := hash / cap, hash % cap;
    assert hash == cap * q + r;
    if r + d < cap {
      ModUnique(hash + d, cap, q, r + d);
    } else {
      assert hash + d == cap * (q + 1) + (r + d - cap);
      ModUnique(hash + d, cap, q + 1, r + d - cap);
    }
  }

  /** Insertion writes the first empty slot at or after the hash, modulo the size, and no other. */
  lemma PutFirstEmpty(slots: seq<int>, hash: nat, k: int, d: nat)
    requires IsPowerOf2(|slots|) && d < |slots| && slots[SlotAfter(hash, d, |slots|)] == EMPTY
    requires forall e: nat :: e < d ==> slots[SlotAfter(hash, e, |slots|)] != EMPTY
    ensures Put(slots, hash, k) == slots[SlotAfter(hash, d, |slots|) := k]
  {
    var cap := |slots|;
    var home := Home(hash, cap);
    ProbeIsModular(hash, d, cap);
    var r := FirstFree(slots, home, 0);
    if r < d {
      ProbeIsModular(hash, r, cap);
    }
  }

  function EmptySlots(cap: nat): (r: seq<int>)
    ensures |r| == cap && forall p :: 0 <= p < cap ==> r[p] == -1
  {
    seq(cap, _ => EMPTY)
  }

  /** `hash_index_table_init`. */
  method InitSlots(slots: array?<int>, size: nat) returns (st: int)
    requires slots != null ==> slots.Length == size
    modifies slots
    ensures slots == null ==> st == -1
    ensures slots != null && !IsPowerOf2(size) ==> st == -2 && slots[..] == old(slots[..])
    ensures slots != null && IsPowerOf2(size) ==> st == 0 && slots[..] == EmptySlots(size)
  {
    if slots == null { return NULL_TABLE; }
    if !IsPowerOf2(size) { return SIZE_NOT_POWER_OF_2; }
    var i := 0;
    while i < size
      invariant 0 <= i <= size
      invariant forall p :: 0 <= p < i ==> slots[p] == EMPTY
    {
      slots[i] := EMPTY;
      i := i + 1;
    }
    return SUCCESS;
  }

  /** `hash_index_table_insert`: a full table yields the non-negative slot where probing stopped,
      which callers cannot tell from success. */
  method InsertSlot(slots: array?<int>, size: nat, keyHash: nat, kIdx: int) returns (st: int)
    requires slots != null ==> slots.Length == size
    modifies slots
    ensures slots == null ==> st == -1
    ensures slots != null && !IsPowerOf2(size) ==> st == -2 && slots[..] == old(slots[..])
    ensures slots != null && IsPowerOf2(size) ==>
      && slots[..] == Put(old(slots[..]), keyHash, kIdx)
      && var home := Home(keyHash, size);
         st == if FirstFree(old(slots[..]), home, 0) < size then 0 else home
  {
    if slots == null { return NULL_TABLE; }
    if !IsPowerOf2(size) { return SIZE_NOT_POWER_OF_2; }
    ghost var home := Home(keyHash, size);
    ghost var was := slots[..];
    ghost var free := FirstFree(was, home, 0);
    var hIdx := And(keyHash, size - 1);
    var probes := 0;
    while probes < size
      invariant 0 <= probes <= size
      invariant hIdx == ProbeAt(home, probes, size)
      invariant slots[..] == was
      invariant free == FirstFree(was, home, probes)
    {
      if slots[hIdx] == EMPTY {
        slots[hIdx] := kIdx;
        return SUCCESS;
      }
      MaskedStep(home, probes, size);
      hIdx := hIdx + 1;
      probes := probes + 1;
      hIdx := And(hIdx, size - 1);
    }
    return hIdx;
  }

  /** `hash_index_table_insert` of the growing table, which also takes and bumps a used count. */
  method InsertSlotCounted(slots: array?<int>, size: nat, used: nat, keyHash: nat, kIdx: int)
    returns (st: int, used': nat)
    requires slots != null ==> slots.Length == size
    modifies slots
    ensures slots == null ==> st == -1 && used' == used
    ensures slots != null && used >= size ==> st == -4 && used' == used && slots[..] == old(slots[..])
    ensures slots != null && used < size && !IsPowerOf2(size) ==>
      st == -2 && used' == used && slots[..] == old(slots[..])
    ensures slots != null && used < size && IsPowerOf2(size) ==>
      && slots[..] == Put(old(slots[..]), keyHash, kIdx)
      && var home := Home(keyHash, size);
         var free := FirstFree(old(slots[..]), home, 0) < size;
         st == (if free then 0 else home) && used' == (if free then used + 1 else used)
  {
    if slots == null { return NULL_TABLE, used; }
    if used >= size { return HT_FULL, used; }
    if !IsPowerOf2(size) { return SIZE_NOT_POWER_OF_2, used; }
    ghost var home := Home(keyHash, size);
    ghost var was := slots[..];
    ghost var free := FirstFree(was, home, 0);
    var hIdx := And(keyHash, size - 1);
    var probes := 0;
    while probes < size
      invariant 0 <= probes <= size
      invariant hIdx == ProbeAt(home, probes, size)
      invariant slots[..] == was
      invariant free == FirstFree(was, home, probes)
    {
      if slots[hIdx] == EMPTY {
        slots[hIdx] := kIdx;
        return SUCCESS, used + 1;
      }
      MaskedStep(home, probes, size);
      hIdx := hIdx + 1;
      probes := probes + 1;
      hIdx := And(hIdx, size - 1);
    }
    return hIdx, used;
  }
}
