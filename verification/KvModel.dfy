/** The growing key/value table on values: an append-only list of pairs whose bytes are laid out
    in a private arena, a hash index over all of them, growth by copying and compaction. */
module KvModel {
  import opened Bits
  import opened Wrappers
  import opened HashIndex
  import Fnv

  type Key = seq<Byte>
  type Value = seq<Byte>

  const ALLOC_FAILURE: int := -3
  const MEM_ALIGN: nat := 4

  /** A stored pair, and how many bytes its key has room for: just its length, except that a file
      cuts the keys of dead pairs to 16 bits of length without moving anything. */
  datatype Pair = Pair(key: Key, val: Value, live: bool, room: nat)

  function NewPair(key: Key, val: Value): Pair {
    Pair(key, val, true, |key|)
  }

  ghost predicate RoomFits(p: Pair) {
    |p.key| <= p.room && (p.live ==> p.room == |p.key|)
  }

  ghost predicate Roomy(pairs: seq<Pair>) {
    forall i :: 0 <= i < |pairs| ==> RoomFits(pairs[i])
  }

  /** Appended pairs, index slots, the arena's cursor and its size. */
  datatype Kv = Kv(pairs: seq<Pair>, slots: seq<int>, cur: nat, size: nat)

  // ---- Layout ----

  function Align4(x: nat): (r: nat)
    ensures x <= r <= x + 3
  {
    Four();
    AlignOffsetLeast(x, 4);
    AlignOffset(x, MEM_ALIGN)
  }

  lemma Four()
    ensures IsPowerOf2(4)
  {
  }

  /** The least multiple of four from `x` on. */
  lemma Align4Value(x: nat)
    ensures Align4(x) % 4 == 0 && Align4(x) == x + (if x % 4 == 0 then 0 else 4 - x % 4)
  {
    Four();
    AlignOffsetLeast(x, 4);
  }

  lemma Align4Monotone(x: nat, y: nat)
    requires x <= y
    ensures Align4(x) <= Align4(y)
  {
    Four();
    AlignMonotone(x, y, 4);
  }

  /** The cursor after storing a key and a value, each with a terminator, from a cursor on. */
  function EndAfter(cur: nat, keyLen: nat, valLen: nat): nat {
    Align4(Align4(cur) + keyLen + 1) + valLen + 1
  }

  /** The cursor after storing all pairs in order from an empty arena. */
  function End(pairs: seq<Pair>): nat {
    if pairs == [] then 0
    else
      var last := pairs[|pairs| - 1];
      EndAfter(End(pairs[..|pairs| - 1]), last.room, |last.val|)
  }

  function KeyOff(pairs: seq<Pair>, i: nat): nat
    requires i < |pairs|
  {
    Align4(End(pairs[..i]))
  }

  function ValOff(pairs: seq<Pair>, i: nat): nat
    requires i < |pairs|
  {
    Align4(KeyOff(pairs, i) + pairs[i].room + 1)
  }

  lemma EndOfAppend(pairs: seq<Pair>, p: Pair)
    ensures End(pairs + [p]) == EndAfter(End(pairs), p.room, |p.val|)
  {
  }

  lemma EndAppend(pairs: seq<Pair>, p: Pair)
    ensures End(pairs + [p]) == EndAfter(End(pairs), p.room, |p.val|)
    ensures KeyOff(pairs + [p], |pairs|) == Align4(End(pairs))
    ensures ValOff(pairs + [p], |pairs|) == Align4(Align4(End(pairs)) + p.room + 1)
  {
    EndOfAppend(pairs, p);
    hide Align4, EndAfter, End;
    assert (pairs + [p])[..|pairs|] == pairs;
  }

  /** Offsets of earlier pairs do not depend on later ones. */
  lemma OffsetsExtend(pairs: seq<Pair>, p: Pair, i: nat)
    requires i < |pairs|
    ensures KeyOff(pairs + [p], i) == KeyOff(pairs, i) && ValOff(pairs + [p], i) == ValOff(pairs, i)
  {
    hide Align4, End;
    assert (pairs + [p])[..i] == pairs[..i];
  }

  lemma {:induction false} EndMonotone(pairs: seq<Pair>, i: nat)
    requires i <= |pairs|
    ensures End(pairs[..i]) <= End(pairs)
    decreases |pairs| - i
  {
    hide Align4;
    if i < |pairs| {
      assert pairs[..i + 1][..i] == pairs[..i];
      EndMonotone(pairs, i + 1);
    } else {
      assert pairs[..i] == pairs;
    }
  }

  /** Pairs occupy disjoint stretches of the arena, in order, below the final cursor. */
  lemma PairWithin(pairs: seq<Pair>, i: nat)
    requires i < |pairs|
    ensures End(pairs[..i]) <= KeyOff(pairs, i)
    ensures KeyOff(pairs, i) + pairs[i].room + 1 <= ValOff(pairs, i)
    ensures ValOff(pairs, i) + |pairs[i].val| + 1 == End(pairs[..i + 1]) <= End(pairs)
  {
    hide Align4, End;
    EndOfPrefix(pairs, i);
    EndMonotone(pairs, i + 1);
  }

  lemma EndOfPrefix(pairs: seq<Pair>, i: nat)
    requires i < |pairs|
    ensures End(pairs[..i + 1]) == EndAfter(End(pairs[..i]), pairs[i].room, |pairs[i].val|)
  {
    hide Align4, End, EndAfter;
    EndOfAppend(pairs[..i], pairs[i]);
    assert pairs[..i + 1] == pairs[..i] + [pairs[i]];
  }

  /** The live pairs, in order. */
  function Live(pairs: seq<Pair>): (r: seq<Pair>)
    ensures |r| <= |pairs|
  {
    if pairs == [] then []
    else
      var rest := Live(pairs[..|pairs| - 1]);
      var last := pairs[|pairs| - 1];
      if last.live then rest + [last] else rest
  }

  /** Dropping dead pairs never moves the end up: copies of the live pairs always fit where
      the whole store did. */
  lemma {:induction false} LiveLayoutShrinks(pairs: seq<Pair>)
    ensures End(Live(pairs)) <= End(pairs)
  {
    if pairs != [] {
      var rest, last := pairs[..|pairs| - 1], pairs[|pairs| - 1];
      LiveLayoutShrinks(rest);
      hide Align4, EndAfter;
      EndAfterMonotone(End(Live(rest)), End(rest), last.room, |last.val|);
      EndAppend(Live(rest), last);
    }
  }

  lemma EndAfterMonotone(c: nat, d: nat, keyLen: nat, valLen: nat)
    requires c <= d
    ensures d <= EndAfter(d, keyLen, valLen) && EndAfter(c, keyLen, valLen) <= EndAfter(d, keyLen, valLen)
  {
    hide Align4;
    Align4Monotone(c, d);
    Align4Monotone(Align4(c) + keyLen + 1, Align4(d) + keyLen + 1);
  }

  // ---- Memory tests ----

  /** A pair of these lengths needs no growth: an entry is free and at least eight bytes are spare. */
  predicate NoGrowth(t: Kv, keyLen: nat, valLen: nat) {
    |t.pairs| < |t.slots| && t.cur + keyLen + valLen + 8 <= t.size
  }

  predicate Fits(cur: nat, size: nat, keyLen: nat, valLen: nat) {
    EndAfter(cur, keyLen, valLen) <= size
  }

  predicate MemoryShouldResize(t: Kv, keyLen: nat, valLen: nat) {
    t.cur + keyLen + valLen + 2 * MEM_ALIGN > t.size
  }

  predicate CapacityShouldResize(t: Kv) {
    |t.pairs| + 1 > |t.slots|
  }

  /** The slack the resize test allows for is sufficient. */
  lemma SlackSuffices(t: Kv, keyLen: nat, valLen: nat)
    requires !MemoryShouldResize(t, keyLen, valLen)
    ensures Fits(t.cur, t.size, keyLen, valLen)
  {
    hide Align4;
  }

  /** And tight: storing a pair takes at most the slack beyond its bytes, and takes all of it
      exactly when the cursor is one past an aligned offset and the key length is aligned. */
  lemma SlackIsTight(cur: nat, keyLen: nat, valLen: nat)
    ensures EndAfter(cur, keyLen, valLen) <= cur + keyLen + valLen + 2 * MEM_ALIGN
    ensures EndAfter(cur, keyLen, valLen) == cur + keyLen + valLen + 2 * MEM_ALIGN
      <==> cur % MEM_ALIGN == 1 && keyLen % MEM_ALIGN == 0
  {
    hide Align4;
    Align4Value(cur);
    Align4Value(Align4(cur) + keyLen + 1);
  }

  // ---- Transitions ----

  function Hashes(pairs: seq<Pair>): (h: seq<nat>)
    ensures |h| == |pairs| && forall i :: 0 <= i < |h| ==> h[i] == Fnv.Hash32(pairs[i].key)
  {
    seq(|pairs|, i requires 0 <= i < |pairs| => Fnv.Hash32(pairs[i].key))
  }

  /** What a probe accepts: only live pairs, unlike the fixed-size table's lookup. */
  function LiveHits(pairs: seq<Pair>, key: Key): set<int> {
    set e | 0 <= e < |pairs| && pairs[e].live && pairs[e].key == key
  }

  function Locate(t: Kv, key: Key): int
    requires IsPowerOf2(|t.slots|)
  {
    Find(t.slots, Home(Fnv.Hash32(key), |t.slots|), 0, LiveHits(t.pairs, key))
  }

  function EmptyKv(cap: nat, size: nat): Kv {
    Kv([], EmptySlots(cap), 0, size)
  }

  /** The table after appending a live pair. */
  function Append(t: Kv, key: Key, val: Value): (r: Kv)
    requires IsPowerOf2(|t.slots|)
    ensures |r.slots| == |t.slots| && r.size == t.size
  {
    Kv(t.pairs + [NewPair(key, val)], Put(t.slots, Fnv.Hash32(key), |t.pairs|),
       EndAfter(t.cur, |key|, |val|), t.size)
  }

  /** Append the pairs in order; the flag says whether memory sufficed. */
  function AppendAll(t: Kv, pairs: seq<Pair>): (r: (Kv, bool))
    requires IsPowerOf2(|t.slots|)
    ensures |r.0.slots| == |t.slots| && r.0.size == t.size
  {
    if pairs == [] then (t, true)
    else
      var (u, ok) := AppendAll(t, pairs[..|pairs| - 1]);
      var p := pairs[|pairs| - 1];
      if !ok || !Fits(u.cur, u.size, |p.key|, |p.val|) then (u, false)
      else (Append(u, p.key, p.val), true)
  }

  /** A fresh table of the given dimensions with copies of the live pairs, if they fit. */
  function CopyInto(cap: nat, size: nat, pairs: seq<Pair>): (Kv, bool)
    requires IsPowerOf2(cap)
  {
    AppendAll(EmptyKv(cap, size), Live(pairs))
  }

  function Compact(t: Kv): Option<Kv>
    requires IsPowerOf2(|t.slots|)
  {
    var (u, ok) := CopyInto(|t.slots|, t.size, t.pairs);
    if ok then Some(u) else None
  }

  function MarkDead(t: Kv, i: nat): Kv
    requires i < |t.pairs|
  {
    t.(pairs := t.pairs[i := t.pairs[i].(live := false)])
  }

  function Remove(t: Kv, key: Key): (Kv, int)
    requires KvInv(t)
  {
    var i := Locate(t, key);
    LocateDecides(t, key);
    if i < 0 then (t, NOT_FOUND) else (MarkDead(t, i), i)
  }

  function Lookup(t: Kv, key: Key): Option<Value>
    requires KvInv(t)
  {
    var i := Locate(t, key);
    LocateDecides(t, key);
    if i < 0 then None else Some(t.pairs[i].val)
  }

  /** How an insertion ends: with a table; with the caller's table untouched; or with NULL after
      the caller's table has already been destroyed. */
  datatype Outcome = Returned(t: Kv) | Untouched | Destroyed

  /** The table an insertion works on: the caller's, or a copy with doubled capacity, doubled
      memory or both; `None` if the copy does not fit. */
  function Grown(t: Kv, keyLen: nat, valLen: nat): (r: Option<Kv>)
    requires KvInv(t)
    ensures r.Some? ==> IsPowerOf2(|r.value.slots|)
  {
    if !CapacityShouldResize(t) && !MemoryShouldResize(t, keyLen, valLen) then Some(t)
    else
      var cap := if CapacityShouldResize(t) then |t.slots| * 2 else |t.slots|;
      var size := if MemoryShouldResize(t, keyLen, valLen) then t.size * 2 else t.size;
      DoublePower(|t.slots|);
      var (u, ok) := CopyInto(cap, size, t.pairs);
      if ok then Some(u) else None
  }

  function Insert(t: Kv, key: Key, val: Value): Outcome
    requires KvInv(t)
  {
    if key == [] || val == [] then Untouched
    else
      var g := Grown(t, |key|, |val|);
      if g.None? then Untouched
      else
        GrownInv(t, |key|, |val|);
        var u := Remove(g.value, key).0;
        RemoveInv(g.value, key);
        if Fits(u.cur, u.size, |key|, |val|) then Returned(Append(u, key, val)) else Destroyed
  }

  // ---- The invariant ----

  ghost predicate LiveDistinct(pairs: seq<Pair>) {
    forall i, j :: 0 <= i < j < |pairs| && pairs[i].live && pairs[j].live ==> pairs[i].key != pairs[j].key
  }

  ghost predicate Proper(pairs: seq<Pair>) {
    LiveDistinct(pairs) && Roomy(pairs)
  }

  /** The state of a table made by creation, insertions, removals and compactions. */
  ghost predicate Built(t: Kv) {
    t.cur == End(t.pairs) <= t.size
  }

  /** The state of a table loaded from a file and not yet inserted into: memory is full, and the
      last value's terminator may be cut off. */
  ghost predicate Loaded(t: Kv) {
    t.cur == t.size && End(t.pairs) <= t.size + 1
  }

  ghost predicate Indexed(t: Kv) {
    && Chained(t.slots, Hashes(t.pairs))
    && |t.pairs| <= |t.slots|
    && forall i :: 0 <= i < |t.pairs| ==> i in t.slots
  }

  ghost predicate KvInv(t: Kv) {
    Indexed(t) && Proper(t.pairs) && t.size > 0 && (Built(t) || Loaded(t))
  }

  ghost predicate LiveAt(t: Kv, key: Key, i: int) {
    0 <= i < |t.pairs| && t.pairs[i].live && t.pairs[i].key == key
  }

  /** Lookup is exact: it finds the one live pair with the key. */
  lemma LocateDecides(t: Kv, key: Key)
    requires Indexed(t) && LiveDistinct(t.pairs)
    ensures forall i :: LiveAt(t, key, i) ==> Locate(t, key) == i
    ensures Locate(t, key) == NOT_FOUND || LiveAt(t, key, Locate(t, key))
  {
    var hits := LiveHits(t.pairs, key);
    FindDecides(t.slots, Hashes(t.pairs), Fnv.Hash32(key), hits);
    FindSound(t.slots, Home(Fnv.Hash32(key), |t.slots|), 0, hits);
    hide Find, Home, Chained, Hashes;
    forall i | LiveAt(t, key, i) ensures Locate(t, key) == i {
      assert i in t.slots && i in hits;
    }
  }

  lemma LocateDecidesInv(t: Kv, key: Key)
    requires KvInv(t)
    ensures IsPowerOf2(|t.slots|) && |t.pairs| <= |t.slots|
    ensures forall i :: LiveAt(t, key, i) ==> Locate(t, key) == i
    ensures Locate(t, key) == NOT_FOUND || LiveAt(t, key, Locate(t, key))
  {
    LocateDecides(t, key);
  }

  lemma EmptyKvInv(cap: nat, size: nat)
    requires IsPowerOf2(cap) && size > 0
    ensures KvInv(EmptyKv(cap, size)) && Built(EmptyKv(cap, size))
  {
  }

  lemma AppendIndexed(t: Kv, key: Key, val: Value)
    requires Indexed(t) && |t.pairs| < |t.slots|
    ensures Indexed(Append(t, key, val))
    ensures FirstFree(t.slots, Home(Fnv.Hash32(key), |t.slots|), 0) < |t.slots|
  {
    var hash := Fnv.Hash32(key);
    var a := Append(t, key, val);
    assert Hashes(a.pairs) == Hashes(t.pairs) + [hash];
    AppendChained(t.slots, Hashes(t.pairs), hash);
    forall i | 0 <= i < |a.pairs| ensures i in a.slots {}
  }

  /** Appending a key that is not live, where there is room, keeps a built table built. */
  lemma AppendInv(t: Kv, key: Key, val: Value)
    requires KvInv(t) && Built(t) && |t.pairs| < |t.slots| && Fits(t.cur, t.size, |key|, |val|)
    requires forall i :: !LiveAt(t, key, i)
    ensures KvInv(Append(t, key, val)) && Built(Append(t, key, val))
  {
    AppendIndexed(t, key, val);
    EndOfAppend(t.pairs, NewPair(key, val));
    hide Indexed, End, EndAfter;
    var a := Append(t, key, val);
    forall i, j | 0 <= i < j < |a.pairs| && a.pairs[i].live && a.pairs[j].live
      ensures a.pairs[i].key != a.pairs[j].key
    {
      assert a.pairs[i] == t.pairs[i];
      assert !LiveAt(t, key, i);
    }
  }

  lemma AppendFields(t: Kv, key: Key, val: Value)
    requires IsPowerOf2(|t.slots|)
    ensures var a := Append(t, key, val);
      a.pairs == t.pairs + [NewPair(key, val)] && a.cur == EndAfter(t.cur, |key|, |val|) && a.size == t.size
  {
  }

  lemma BuiltFacts(t: Kv)
    requires KvInv(t) && Built(t)
    ensures IsPowerOf2(|t.slots|) && t.cur == End(t.pairs) <= t.size && Indexed(t)
  {
  }

  /** An append to a built table with a free entry finds a slot and keeps the invariant. */
  lemma AppendReady(t: Kv, key: Key, val: Value)
    requires KvInv(t) && Built(t) && |t.pairs| < |t.slots| && forall i :: !LiveAt(t, key, i)
    ensures Roomy(t.pairs)
    ensures IsPowerOf2(|t.slots|) && FirstFree(t.slots, Home(Fnv.Hash32(key), |t.slots|), 0) < |t.slots|
    ensures Fits(t.cur, t.size, |key|, |val|) ==> KvInv(Append(t, key, val)) && Built(Append(t, key, val))
  {
    AppendIndexed(t, key, val);
    if Fits(t.cur, t.size, |key|, |val|) {
      AppendInv(t, key, val);
    }
  }

  /** Where it puts the pair. */
  lemma AppendPlaces(t: Kv, key: Key, val: Value)
    requires IsPowerOf2(|t.slots|) && t.cur == End(t.pairs)
    ensures var a := Append(t, key, val);
      a.pairs == t.pairs + [NewPair(key, val)] && a.cur == EndAfter(t.cur, |key|, |val|) && a.size == t.size
    ensures var q := t.pairs + [NewPair(key, val)];
      KeyOff(q, |t.pairs|) == Align4(t.cur) && ValOff(q, |t.pairs|) == Align4(Align4(t.cur) + |key| + 1)
  {
    hide End, Align4, Append, EndAfter, IsPowerOf2, KeyOff, ValOff;
    AppendFields(t, key, val);
    EndAppend(t.pairs, NewPair(key, val));
  }

  ghost predicate AllLive(pairs: seq<Pair>) {
    forall i :: 0 <= i < |pairs| ==> pairs[i].live
  }

  /** Copying distinct live pairs into a fresh table succeeds exactly when their layout fits, and
      then the table holds just those pairs in the same order. */
  lemma {:induction false} AppendAllExact(cap: nat, size: nat, pairs: seq<Pair>)
    requires IsPowerOf2(cap) && size > 0 && |pairs| <= cap && Proper(pairs) && AllLive(pairs)
    ensures var (u, ok) := AppendAll(EmptyKv(cap, size), pairs);
      (ok <==> End(pairs) <= size) && (ok ==> u.pairs == pairs && KvInv(u) && Built(u))
    decreases |pairs|
  {
    if pairs == [] {
      EmptyKvInv(cap, size);
    } else {
      var n := |pairs| - 1;
      var init, p := pairs[..n], pairs[n];
      AppendAllExact(cap, size, init);
      AppendAllStep(EmptyKv(cap, size), init, p);
      assert pairs == init + [p];
      EndOfAppend(init, p);
      var (u, ok) := AppendAll(EmptyKv(cap, size), init);
      hide KvInv, Built, AppendAll, End, EndAfter, EmptyKv;
      EndAfterMonotone(End(init), End(init), |p.key|, |p.val|);
      if ok && Fits(u.cur, size, |p.key|, |p.val|) {
        forall i ensures !LiveAt(u, p.key, i) {}
        AppendInv(u, p.key, p.val);
      }
    }
  }

  lemma AppendAllStep(t: Kv, init: seq<Pair>, p: Pair)
    requires IsPowerOf2(|t.slots|)
    ensures AppendAll(t, init + [p]) ==
      var (u, ok) := AppendAll(t, init);
      if !ok || !Fits(u.cur, u.size, |p.key|, |p.val|) then (u, false) else (Append(u, p.key, p.val), true)
  {
  }

  lemma {:induction false} LiveIsFilter(pairs: seq<Pair>)
    ensures AllLive(Live(pairs))
    ensures forall p :: p in Live(pairs) <==> p in pairs && p.live
  {
    if pairs != [] {
      var n := |pairs| - 1;
      LiveIsFilter(pairs[..n]);
      assert pairs == pairs[..n] + [pairs[n]];
    }
  }

  /** The live pairs are in the order of the store, each once: pair `i` stands behind as many as
      are live before it, and there are as many as live positions. */
  lemma {:induction false} LiveInOrder(pairs: seq<Pair>, i: nat)
    requires i < |pairs| && pairs[i].live
    ensures |Live(pairs[..i])| < |Live(pairs)| && Live(pairs)[|Live(pairs[..i])|] == pairs[i]
    decreases |pairs|
  {
    var n := |pairs| - 1;
    if i < n {
      LiveInOrder(pairs[..n], i);
      assert pairs[..n][..i] == pairs[..i];
    }
  }

  lemma {:induction false} LiveCounts(pairs: seq<Pair>)
    ensures |Live(pairs)| == |set i | 0 <= i < |pairs| && pairs[i].live|
  {
    var s := set i | 0 <= i < |pairs| && pairs[i].live;
    if pairs == [] {
      assert s == {};
    } else {
      var n := |pairs| - 1;
      var r := set i | 0 <= i < |pairs[..n]| && pairs[..n][i].live;
      LiveCounts(pairs[..n]);
      assert s == if pairs[n].live then r + {n} else r;
    }
  }

  lemma {:induction false} LiveKeepsDistinct(pairs: seq<Pair>)
    requires LiveDistinct(pairs)
    ensures LiveDistinct(Live(pairs))
  {
    if pairs != [] {
      var n := |pairs| - 1;
      var rest := pairs[..n];
      LiveKeepsDistinct(rest);
      LiveIsFilter(rest);
      if pairs[n].live {
        forall i | 0 <= i < |Live(rest)| ensures Live(rest)[i].key != pairs[n].key {
          assert Live(rest)[i] in rest;
        }
      }
    }
  }

  /** A copy holds exactly the live pairs in order, and fails only for lack of memory. */
  lemma CopyExact(cap: nat, size: nat, pairs: seq<Pair>)
    requires IsPowerOf2(cap) && size > 0 && |pairs| <= cap && Proper(pairs)
    ensures var (u, ok) := CopyInto(cap, size, pairs);
      (ok <==> End(Live(pairs)) <= size) && (ok ==> u.pairs == Live(pairs) && KvInv(u) && Built(u))
  {
    LiveIsFilter(pairs);
    LiveKeepsDistinct(pairs);
    AppendAllExact(cap, size, Live(pairs));
  }

  lemma LiveNext(pairs: seq<Pair>, i: nat)
    requires i < |pairs|
    ensures Live(pairs[..i + 1]) == if pairs[i].live then Live(pairs[..i]) + [pairs[i]] else Live(pairs[..i])
  {
    var q := pairs[..i + 1];
    assert q[..|q| - 1] == pairs[..i] && q[|q| - 1] == pairs[i];
  }

  lemma {:induction false} LivePrefixEnd(pairs: seq<Pair>, i: nat)
    requires i <= |pairs|
    ensures End(Live(pairs[..i])) <= End(Live(pairs))
    decreases |pairs| - i
  {
    hide Live, End, EndAfter;
    if i == |pairs| {
      assert pairs[..i] == pairs;
    } else {
      LiveNext(pairs, i);
      EndOfAppend(Live(pairs[..i]), pairs[i]);
      EndAfterMonotone(End(Live(pairs[..i])), End(Live(pairs[..i])), pairs[i].room, |pairs[i].val|);
      LivePrefixEnd(pairs, i + 1);
    }
  }

  /** One turn of the copy loop. */
  lemma CopyStep(cap: nat, size: nat, pairs: seq<Pair>, i: nat)
    requires IsPowerOf2(cap) && size > 0 && i < |pairs| <= cap && Proper(pairs)
    requires CopyInto(cap, size, pairs[..i]).1
    ensures var u := CopyInto(cap, size, pairs[..i]).0;
      var p := pairs[i];
      && KvInv(u) && Built(u) && |u.pairs| < cap && |u.slots| == cap && u.size == size
      && (!p.live ==> CopyInto(cap, size, pairs[..i + 1]) == (u, true))
      && (p.live ==> forall j :: !LiveAt(u, p.key, j))
      && (p.live && Fits(u.cur, u.size, |p.key|, |p.val|) ==>
            CopyInto(cap, size, pairs[..i + 1]) == (Append(u, p.key, p.val), true))
      && (p.live && !Fits(u.cur, u.size, |p.key|, |p.val|) ==> !CopyInto(cap, size, pairs).1)
  {
    var u := CopyInto(cap, size, pairs[..i]).0;
    var p := pairs[i];
    CopyExact(cap, size, pairs[..i]);
    LiveNext(pairs, i);
    AppendAllStep(EmptyKv(cap, size), Live(pairs[..i]), p);
    CopyExact(cap, size, pairs);
    LivePrefixEnd(pairs, i + 1);
    EndOfAppend(Live(pairs[..i]), p);
    LiveIsFilter(pairs[..i]);
    hide KvInv, AppendAll, Live, End, EndAfter, EmptyKv, Append;
    if p.live {
      forall j ensures !LiveAt(u, p.key, j) {
        if LiveAt(u, p.key, j) {
          DeadPrefixKey(pairs, i, u.pairs[j]);
        }
      }
    }
  }

  lemma DeadPrefixKey(pairs: seq<Pair>, i: nat, p: Pair)
    requires LiveDistinct(pairs) && i < |pairs| && pairs[i].live && p in pairs[..i] && p.live
    ensures p.key != pairs[i].key
  {
  }

  lemma DoublePower(cap: nat)
    requires IsPowerOf2(cap)
    ensures IsPowerOf2(cap * 2)
  {
    PowerOf2Iff(cap);
    var k: nat :| cap == Pow2(k);
    assert cap * 2 == Pow2(k + 1);
    PowerOf2Iff(cap * 2);
  }

  /** Compaction yields the live pairs in the old order. It succeeds for every table built by
      creation, insertion, removal and compaction; a table just loaded from a file is the one
      case where it may fail, exactly when the live pairs with their terminators exceed it. */
  lemma CompactExact(t: Kv)
    requires KvInv(t)
    ensures Compact(t).Some? <==> End(Live(t.pairs)) <= t.size
    ensures Compact(t).Some? ==> var u := Compact(t).value;
      KvInv(u) && Built(u) && u.pairs == Live(t.pairs) && |u.slots| == |t.slots| && u.size == t.size && u.cur <= t.cur
    ensures Built(t) ==> Compact(t).Some?
  {
    LiveLayoutShrinks(t.pairs);
    CopyExact(|t.slots|, t.size, t.pairs);
    CopyFits(t, t.size);
    hide End, Live, CopyInto, Indexed;
  }

  lemma CopyFits(t: Kv, size: nat)
    requires KvInv(t)
    ensures Built(t) ==> End(Live(t.pairs)) <= t.cur
    ensures End(Live(t.pairs)) <= 2 * t.size
  {
    LiveLayoutShrinks(t.pairs);
    hide End, Live, Indexed;
  }

  /** Growing always succeeds, for loaded tables too, and leaves an entry slot free. */
  lemma GrownInv(t: Kv, keyLen: nat, valLen: nat)
    requires KvInv(t)
    ensures Grown(t, keyLen, valLen).Some?
    ensures var g := Grown(t, keyLen, valLen).value;
      && KvInv(g) && Built(g) && |g.pairs| < |g.slots|
      && (if CapacityShouldResize(t) || MemoryShouldResize(t, keyLen, valLen) then g.pairs == Live(t.pairs) else g == t)
      && (!MemoryShouldResize(t, keyLen, valLen) ==> g.size == t.size && g.cur <= t.cur)
      && (MemoryShouldResize(t, keyLen, valLen) ==> g.size == 2 * t.size)
    ensures CapacityShouldResize(t) <==> |t.pairs| == |t.slots|
    ensures MemoryShouldResize(t, keyLen, valLen) <==> t.cur + keyLen + valLen + 8 > t.size
  {
    var mem := MemoryShouldResize(t, keyLen, valLen);
    var size := if mem then t.size * 2 else t.size;
    var cap := if CapacityShouldResize(t) then |t.slots| * 2 else |t.slots|;
    DoublePower(|t.slots|);
    assert IsPowerOf2(|t.slots|) && 0 < |t.slots| && |t.pairs| <= |t.slots| && (Built(t) || Loaded(t));
    CopyExact(cap, size, t.pairs);
    CopyFits(t, size);
    hide KvInv, End, Live, CopyInto, IsPowerOf2;
  }

  lemma RemoveInv(t: Kv, key: Key)
    requires KvInv(t)
    ensures KvInv(Remove(t, key).0) && |Remove(t, key).0.slots| == |t.slots| && |Remove(t, key).0.pairs| == |t.pairs|
    ensures Remove(t, key).0.cur == t.cur && Remove(t, key).0.size == t.size
    ensures Built(t) <==> Built(Remove(t, key).0)
    ensures Loaded(t) <==> Loaded(Remove(t, key).0)
    ensures forall i :: !LiveAt(Remove(t, key).0, key, i)
  {
    hide Locate, KvInv, End;
    LocateDecidesInv(t, key);
    var i := Locate(t, key);
    if i >= 0 { MarkDeadInv(t, i); }
    forall j ensures !LiveAt(Remove(t, key).0, key, j) {
      assert LiveAt(Remove(t, key).0, key, j) ==> LiveAt(t, key, j);
    }
  }

  lemma MarkDeadInv(t: Kv, i: nat)
    requires KvInv(t) && i < |t.pairs|
    ensures KvInv(MarkDead(t, i)) && End(MarkDead(t, i).pairs) == End(t.pairs)
  {
    var u := MarkDead(t, i);
    assert Hashes(u.pairs) == Hashes(t.pairs);
    SameLengthsSameEnd(t.pairs, u.pairs);
    hide End;
  }

  lemma {:induction false} SameLengthsSameEnd(a: seq<Pair>, b: seq<Pair>)
    requires |a| == |b| && forall i :: 0 <= i < |a| ==> a[i].room == b[i].room && |a[i].val| == |b[i].val|
    ensures End(a) == End(b)
    decreases |a|
  {
    hide EndAfter;
    if a != [] {
      SameLengthsSameEnd(a[..|a| - 1], b[..|b| - 1]);
    }
  }

  // ---- Meaning ----

  /** The live pairs are the finite map `m`. */
  ghost predicate Means(pairs: seq<Pair>, m: map<Key, Value>) {
    && (forall p :: p in pairs && p.live ==> p.key in m && m[p.key] == p.val)
    && (forall k :: k in m ==> exists p :: p in pairs && p.live && p.key == k)
  }

  lemma MeansLive(pairs: seq<Pair>, m: map<Key, Value>)
    requires Means(pairs, m)
    ensures Means(Live(pairs), m)
  {
    LiveIsFilter(pairs);
    hide Live;
    forall k | k in m ensures exists p :: p in Live(pairs) && p.live && p.key == k {
      var p :| p in pairs && p.live && p.key == k;
      assert p in Live(pairs);
    }
  }

  function Meaning(pairs: seq<Pair>): map<Key, Value> {
    if pairs == [] then map[]
    else
      var m, last := Meaning(pairs[..|pairs| - 1]), pairs[|pairs| - 1];
      if last.live then m[last.key := last.val] else m
  }

  /** With at most one live pair per key, the pairs are a map. */
  lemma {:induction false} MeaningIsMap(pairs: seq<Pair>)
    requires LiveDistinct(pairs)
    ensures Means(pairs, Meaning(pairs))
    decreases |pairs|
  {
    if pairs != [] {
      var n := |pairs| - 1;
      var rest, last := pairs[..n], pairs[n];
      MeaningIsMap(rest);
      assert pairs == rest + [last];
      if last.live {
        AppendMeans(rest, Meaning(rest), last);
      } else {
        AppendDeadMeans(rest, Meaning(rest), last);
      }
    }
  }

  lemma AppendDeadMeans(pairs: seq<Pair>, m: map<Key, Value>, dead: Pair)
    requires Means(pairs, m) && !dead.live
    ensures Means(pairs + [dead], m)
  {
  }

  function MapGet(m: map<Key, Value>, key: Key): Option<Value> {
    if key in m then Some(m[key]) else None
  }

  lemma LookupIsGet(t: Kv, m: map<Key, Value>, key: Key)
    requires KvInv(t) && Means(t.pairs, m)
    ensures Lookup(t, key) == MapGet(m, key)
  {
    LocateDecides(t, key);
    hide Locate, KvInv;
    if key in m {
      var p :| p in t.pairs && p.live && p.key == key;
      var i :| 0 <= i < |t.pairs| && t.pairs[i] == p;
      assert LiveAt(t, key, i);
    }
  }

  lemma RemoveIsDelete(t: Kv, m: map<Key, Value>, key: Key)
    requires KvInv(t) && Means(t.pairs, m)
    ensures KvInv(Remove(t, key).0) && Means(Remove(t, key).0.pairs, m - {key})
    ensures Remove(t, key).1 >= 0 <==> key in m
    ensures forall i :: LiveAt(t, key, i) ==> Remove(t, key).1 == i
    ensures (forall i :: !LiveAt(t, key, i)) ==> Remove(t, key) == (t, -11)
  {
    hide KvInv, Locate, Lookup, Means;
    LookupIsGet(t, m, key);
    RemoveInv(t, key);
    LocateDecidesInv(t, key);
    DeleteMeans(t, m, key);
    LookupFinds(t, key);
    RemoveExact(t, key);
  }

  /** Removal returns the one live entry with the key and marks it dead, changing nothing else. */
  lemma RemoveExact(t: Kv, key: Key)
    requires KvInv(t)
    ensures forall i :: LiveAt(t, key, i) ==> Remove(t, key).1 == i
    ensures (forall i :: !LiveAt(t, key, i)) ==> Remove(t, key) == (t, -11)
    ensures Remove(t, key).0 == t.(pairs := Remove(t, key).0.pairs) && Marked(t.pairs, Remove(t, key).0.pairs, key)
  {
    LocateDecidesInv(t, key);
    MarkedOnce(t, key);
    hide KvInv, Locate, Marked;
  }

  /** `after` is `before` with every pair of the key dead. */
  ghost predicate Marked(before: seq<Pair>, after: seq<Pair>, key: Key) {
    && |after| == |before|
    && forall i :: 0 <= i < |before| ==> after[i] == before[i].(live := before[i].live && before[i].key != key)
  }

  lemma MarkedOnce(t: Kv, key: Key)
    requires KvInv(t)
    ensures Marked(t.pairs, Remove(t, key).0.pairs, key)
  {
    LocateDecidesInv(t, key);
    hide KvInv, Locate;
    var u := Remove(t, key).0;
    forall i | 0 <= i < |t.pairs|
      ensures u.pairs[i] == t.pairs[i].(live := t.pairs[i].live && t.pairs[i].key != key)
    {
      assert t.pairs[i].live && t.pairs[i].key == key ==> LiveAt(t, key, i);
    }
  }

  lemma LookupFinds(t: Kv, key: Key)
    requires KvInv(t)
    ensures Lookup(t, key).Some? <==> Remove(t, key).1 >= 0
  {
    LocateDecidesInv(t, key);
    hide KvInv, Locate;
  }

  lemma DeleteMeans(t: Kv, m: map<Key, Value>, key: Key)
    requires KvInv(t) && Means(t.pairs, m) && forall i :: !LiveAt(Remove(t, key).0, key, i)
    ensures Means(Remove(t, key).0.pairs, m - {key})
  {
    hide KvInv, Locate;
    LocateDecidesInv(t, key);
    var u := Remove(t, key).0;
    var m' := m - {key};
    forall p | p in u.pairs && p.live ensures p.key in m' && m'[p.key] == p.val {
      var i :| 0 <= i < |u.pairs| && u.pairs[i] == p;
      assert !LiveAt(u, key, i);
      assert p in t.pairs;
    }
    forall k | k in m' ensures exists p :: p in u.pairs && p.live && p.key == k {
      var p :| p in t.pairs && p.live && p.key == k;
      var i :| 0 <= i < |t.pairs| && t.pairs[i] == p;
      assert u.pairs[i] == p;
    }
  }

  lemma AppendMeans(pairs: seq<Pair>, m: map<Key, Value>, p: Pair)
    requires Means(pairs, m) && p.live && p.key !in m
    ensures Means(pairs + [p], m[p.key := p.val])
  {
    var q, m' := pairs + [p], m[p.key := p.val];
    forall k | k in m' ensures exists r :: r in q && r.live && r.key == k {
      if k != p.key {
        var r :| r in pairs && r.live && r.key == k;
        assert r in q;
      } else {
        assert q[|pairs|] in q;
      }
    }
  }

  /** The whole contract of an insertion. Empty keys and values are rejected with the table
      untouched. Otherwise a returned table is exactly the updated map, whatever was doubled on
      the way; and no table is returned exactly when memory had to be doubled and twice the
      memory still does not hold the pair after the live ones, in which case the caller's table
      is already gone. */
  lemma InsertExact(t: Kv, m: map<Key, Value>, key: Key, val: Value)
    requires KvInv(t) && Means(t.pairs, m)
    ensures Insert(t, key, val).Untouched? <==> key == [] || val == []
    ensures Insert(t, key, val).Destroyed? <==>
      && key != [] && val != [] && t.cur + |key| + |val| + 8 > t.size
      && EndAfter(End(Live(t.pairs)), |key|, |val|) > 2 * t.size
    ensures Insert(t, key, val).Returned? ==>
      var u := Insert(t, key, val).t;
      KvInv(u) && Built(u) && Means(u.pairs, m[key := val])
  {
    if key != [] && val != [] {
      GrownInv(t, |key|, |val|);
      var g := Grown(t, |key|, |val|).value;
      MeansLive(t.pairs, m);
      InsertGrown(t, g, m, key, val);
      FitsAfterGrowth(t, g, |key|, |val|);
    }
  }

  /** What the returned table looks like. Its capacity is doubled exactly when all entries were used
      and its memory exactly when fewer than eight spare bytes would have been left; then it holds
      the live pairs only, otherwise all pairs, with the key's old pair dead and the new one last. */
  lemma InsertShape(t: Kv, key: Key, val: Value)
    requires KvInv(t) && Insert(t, key, val).Returned?
    ensures var u := Insert(t, key, val).t;
      var cap := |t.pairs| == |t.slots|;
      var mem := t.cur + |key| + |val| + 8 > t.size;
      var base := if cap || mem then Live(t.pairs) else t.pairs;
      && |u.slots| == (if cap then 2 * |t.slots| else |t.slots|)
      && u.size == (if mem then 2 * t.size else t.size)
      && |u.pairs| == |base| + 1 && u.pairs[|base|] == NewPair(key, val)
      && Marked(base, u.pairs[..|base|], key)
  {
    GrownInv(t, |key|, |val|);
    GrownDimensions(t, |key|, |val|);
    var g := Grown(t, |key|, |val|).value;
    InsertUnfolds(t, g, key, val);
    RemoveInv(g, key);
    RemoveExact(g, key);
    KvCapacity(t);
    hide KvInv, Grown, Remove, Append, Fits, Insert, Marked, Live;
    var r := Remove(g, key).0;
    AppendFields(r, key, val);
    assert (r.pairs + [NewPair(key, val)])[..|r.pairs|] == r.pairs;
    MarkedLength(g.pairs, r.pairs, key);
  }

  lemma KvCapacity(t: Kv)
    requires KvInv(t)
    ensures IsPowerOf2(|t.slots|) && |t.pairs| <= |t.slots|
  {
  }

  lemma MarkedLength(before: seq<Pair>, after: seq<Pair>, key: Key)
    requires Marked(before, after, key)
    ensures |after| == |before|
  {
  }

  lemma GrownDimensions(t: Kv, keyLen: nat, valLen: nat)
    requires KvInv(t) && Grown(t, keyLen, valLen).Some?
    ensures var g := Grown(t, keyLen, valLen).value;
      && |g.slots| == (if |t.pairs| == |t.slots| then 2 * |t.slots| else |t.slots|)
      && g.size == (if t.cur + keyLen + valLen + 8 > t.size then 2 * t.size else t.size)
  {
    KvCapacity(t);
    DoublePower(|t.slots|);
    hide KvInv, Live, IsPowerOf2, AppendAll;
  }

  lemma InsertUnfolds(t: Kv, g: Kv, key: Key, val: Value)
    requires KvInv(t) && key != [] && val != []
    requires Grown(t, |key|, |val|) == Option.Some(g) && KvInv(g)
    ensures KvInv(Remove(g, key).0)
    ensures var u := Remove(g, key).0;
      Insert(t, key, val) == if Fits(u.cur, u.size, |key|, |val|) then Returned(Append(u, key, val)) else Destroyed
  {
    RemoveInv(g, key);
    hide KvInv, Grown, Remove, Append, Fits;
  }

  /** Without a memory doubling the pair fits; with one, that is decided by the live layout. */
  lemma FitsAfterGrowth(t: Kv, g: Kv, keyLen: nat, valLen: nat)
    requires g.cur == End(g.pairs)
    requires MemoryShouldResize(t, keyLen, valLen) ==> g.size == 2 * t.size && g.pairs == Live(t.pairs)
    requires !MemoryShouldResize(t, keyLen, valLen) ==> g.size == t.size && g.cur <= t.cur
    ensures Fits(g.cur, g.size, keyLen, valLen) <==>
      !MemoryShouldResize(t, keyLen, valLen) || Fits(End(Live(t.pairs)), 2 * t.size, keyLen, valLen)
  {
  }

  /** Removing the key and appending it anew, in the table an insertion works on. */
  lemma InsertGrown(t: Kv, g: Kv, m: map<Key, Value>, key: Key, val: Value)
    requires KvInv(t) && key != [] && val != []
    requires Grown(t, |key|, |val|) == Option.Some(g) && KvInv(g) && Built(g) && |g.pairs| < |g.slots|
    requires Means(g.pairs, m)
    ensures !Insert(t, key, val).Untouched?
    ensures Insert(t, key, val).Destroyed? <==> !Fits(g.cur, g.size, |key|, |val|)
    ensures Insert(t, key, val).Returned? ==>
      var u := Insert(t, key, val).t;
      KvInv(u) && Built(u) && Means(u.pairs, m[key := val])
  {
    hide KvInv, Grown, Remove, Built, Fits, Means, Insert, Append;
    RemoveIsDelete(g, m, key);
    RemoveInv(g, key);
    var u := Remove(g, key).0;
    InsertUnfolds(t, g, key, val);
    if Fits(u.cur, u.size, |key|, |val|) {
      AppendInv(u, key, val);
      AppendMeans(u.pairs, m - {key}, NewPair(key, val));
      assert (m - {key})[key := val] == m[key := val];
      assert Append(u, key, val).pairs == u.pairs + [NewPair(key, val)] by { AppendFields(u, key, val); }
    }
  }

  /** The simplest tables an insertion destroys: the empty ones whose doubled memory does not hold
      the pair. */
  lemma FirstInsertDestroysIff(cap: nat, size: nat, key: Key, val: Value)
    requires IsPowerOf2(cap) && size > 0
    ensures KvInv(EmptyKv(cap, size))
    ensures Insert(EmptyKv(cap, size), key, val).Destroyed? <==>
      key != [] && val != [] && 2 * size < EndAfter(0, |key|, |val|)
  {
    hide Insert, Align4;
    EmptyKvInv(cap, size);
    MeaningIsMap([]);
    InsertExact(EmptyKv(cap, size), map[], key, val);
  }

  // ---- Whole runs ----

  datatype Op = InsertOp(key: Key, val: Value) | RemoveOp(key: Key) | LookupOp(key: Key) | CompactOp

  datatype Answer = Done | Removed(found: bool) | Found(val: Option<Value>)

  /** One operation through a handle: the table it then refers to, unless the table is gone. */
  function Step(t: Kv, op: Op): (Option<Kv>, Answer)
    requires KvInv(t)
  {
    match op
    case InsertOp(key, val) =>
      (match Insert(t, key, val)
       case Returned(u) => Some(u)
       case Untouched => Some(t)
       case Destroyed => None, Done)
    case RemoveOp(key) => (Some(Remove(t, key).0), Removed(Remove(t, key).1 >= 0))
    case LookupOp(key) => (Some(t), Found(Lookup(t, key)))
    case CompactOp => (if Compact(t).Some? then Compact(t) else Some(t), Done)
  }

  function MapStep(m: map<Key, Value>, op: Op): (map<Key, Value>, Answer) {
    match op
    case InsertOp(key, val) => (if key == [] || val == [] then m else m[key := val], Done)
    case RemoveOp(key) => (m - {key}, Removed(key in m))
    case LookupOp(key) => (m, Found(MapGet(m, key)))
    case CompactOp => (m, Done)
  }

  lemma StepInv(t: Kv, op: Op)
    requires KvInv(t)
    ensures Step(t, op).0.Some? ==> KvInv(Step(t, op).0.value)
  {
    MeaningIsMap(t.pairs);
    StepRefines(t, Meaning(t.pairs), op);
  }

  /** The answers of a run, up to the insertion that loses the table if there is one, and the
      table the handle refers to at the end. */
  function Run(t: Kv, ops: seq<Op>): (seq<Answer>, Option<Kv>)
    requires KvInv(t)
    decreases |ops|
  {
    hide *;
    if ops == [] then ([], Some(t))
    else
      StepInv(t, ops[0]);
      var (u, a) := Step(t, ops[0]);
      if u.None? then ([], None)
      else
        var (rest, end) := Run(u.value, ops[1..]);
        ([a] + rest, end)
  }

  function MapRun(m: map<Key, Value>, ops: seq<Op>): (seq<Answer>, map<Key, Value>)
    decreases |ops|
  {
    if ops == [] then ([], m)
    else
      var (m', a) := MapStep(m, ops[0]);
      var (rest, end) := MapRun(m', ops[1..]);
      ([a] + rest, end)
  }

  /** One operation on the table is the same operation on the map. The handle is lost exactly by an
      insertion that destroys the table; a compaction that fits leaves just the live pairs. */
  lemma StepRefines(t: Kv, m: map<Key, Value>, op: Op)
    requires KvInv(t) && Means(t.pairs, m)
    ensures var (u, a) := Step(t, op);
      && (u.None? <==> op.InsertOp? && Insert(t, op.key, op.val).Destroyed?)
      && (u.Some? ==> KvInv(u.value) && Means(u.value.pairs, MapStep(m, op).0) && a == MapStep(m, op).1)
      && (op.CompactOp? && End(Live(t.pairs)) <= t.size ==> u.value.pairs == Live(t.pairs))
  {
    match op {
      case InsertOp(key, val) => InsertExact(t, m, key, val);
      case RemoveOp(key) => RemoveIsDelete(t, m, key);
      case LookupOp(key) => LookupIsGet(t, m, key);
      case CompactOp =>
        CompactExact(t);
        MeansLive(t.pairs, m);
    }
  }

  /** A run ends early exactly at the first insertion that destroys the table, after an answer to
      each operation before it. */
  lemma {:induction false} RunEnds(t: Kv, ops: seq<Op>)
    requires KvInv(t)
    ensures Run(t, ops).1.Some? ==> |Run(t, ops).0| == |ops|
    ensures Run(t, ops).1.None? ==>
      var k := |Run(t, ops).0|;
      && k < |ops| && ops[k].InsertOp? && Run(t, ops[..k]).1.Some?
      && var u := Run(t, ops[..k]).1.value;
         KvInv(u) && Insert(u, ops[k].key, ops[k].val).Destroyed?
    decreases |ops|
  {
    hide Step, KvInv, Means, MapStep, Insert;
    if ops != [] {
      MeaningIsDefined(t);
      StepRefines(t, Meaning(t.pairs), ops[0]);
      var u := Step(t, ops[0]).0;
      assert ops[..0] == [];
      if u.Some? {
        RunEnds(u.value, ops[1..]);
        var k := |Run(u.value, ops[1..]).0|;
        if k < |ops[1..]| {
          assert ops[..k + 1][1..] == ops[1..][..k] && ops[..k + 1][0] == ops[0];
        }
      }
    }
  }

  lemma MeaningIsDefined(t: Kv)
    requires KvInv(t)
    ensures Means(t.pairs, Meaning(t.pairs))
  {
    MeaningIsMap(t.pairs);
  }

  /** Over every run of insertions, removals, lookups and compactions, with all the doublings they
      trigger, the table answers exactly as a finite map does, for as long as its handle lasts;
      in every state it is that map, with at most one live pair per key. */
  lemma {:induction false} RunRefinesMap(t: Kv, m: map<Key, Value>, ops: seq<Op>)
    requires KvInv(t) && Means(t.pairs, m)
    ensures Run(t, ops).0 <= MapRun(m, ops).0
    ensures Run(t, ops).1.Some? ==>
      var u := Run(t, ops).1.value;
      Run(t, ops).0 == MapRun(m, ops).0 && KvInv(u) && Means(u.pairs, MapRun(m, ops).1) && LiveDistinct(u.pairs)
    decreases |ops|
  {
    assert LiveDistinct(t.pairs);
    hide Step, KvInv, Means, MapStep, LiveDistinct;
    if ops != [] {
      StepRefines(t, m, ops[0]);
      var u := Step(t, ops[0]).0;
      if u.Some? {
        RunRefinesMap(u.value, MapStep(m, ops[0]).0, ops[1..]);
      }
    }
  }
}
