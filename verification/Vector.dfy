/** The growable vector: elements of a fixed size packed into one byte buffer that doubles when full. */
module Vector {
  import opened Bits

  const MIN_CAPACITY: nat := 16

  // ---- The vector as a sequence ----

  /** The elements, the capacity, and two counts kept for the cost argument: elements pushed, and
      elements moved by reallocation. */
  datatype State = State(elems: seq<seq<Byte>>, capacity: nat, pushed: nat, moved: nat)

  datatype Op = Push(elem: seq<Byte>) | Pop | Clear | Reserve(count: nat)

  function Grown(s: State, capacity: nat): State {
    s.(capacity := capacity, moved := s.moved + s.capacity)
  }

  /** One call and what it returns; `Clear` returns nothing, shown as zero. */
  function Step(s: State, op: Op): (State, int) {
    match op
    case Push(e) =>
      var room :=
        if |s.elems| < s.capacity then s
        else Grown(s, if s.capacity == 0 then MIN_CAPACITY else 2 * s.capacity);
      (room.(elems := s.elems + [e], pushed := s.pushed + 1), |s.elems| + 1)
    case Pop => if s.elems == [] then (s, -1) else (s.(elems := s.elems[..|s.elems| - 1]), |s.elems| - 1)
    case Clear => (s.(elems := []), 0)
    case Reserve(n) =>
      var room := if s.capacity < n then Grown(s, n) else s;
      (room, room.capacity)
  }

  function Run(s: State, ops: seq<Op>): State
    decreases |ops|
  {
    if ops == [] then s else Run(Step(s, ops[0]).0, ops[1..])
  }

  function Empty(capacity: nat): State {
    State([], capacity, 0, 0)
  }

  // ---- Laws of the sequence ----

  /** A push returns the new size; the new element is last, every earlier one where it was. The
      capacity doubles, from nothing to 16, exactly when it was used up. */
  lemma PushLaw(s: State, e: seq<Byte>)
    ensures var (u, r) := Step(s, Push(e));
      var n := |s.elems|;
      && |u.elems| == n + 1 == r && u.elems[n] == e && (forall k :: 0 <= k < n ==> u.elems[k] == s.elems[k])
      && u.capacity == (if n < s.capacity then s.capacity else if s.capacity == 0 then 16 else 2 * s.capacity)
  {
  }

  /** A pop returns the new size, one less, and keeps every other element; on an empty vector it
      returns -1 and does nothing. The capacity stays. */
  lemma PopLaw(s: State)
    ensures s.elems == [] ==> Step(s, Pop) == (s, -1)
    ensures s.elems != [] ==>
      var (u, r) := Step(s, Pop);
      var n := |s.elems| - 1;
      |u.elems| == n == r && u.capacity == s.capacity && forall k :: 0 <= k < n ==> u.elems[k] == s.elems[k]
  {
  }

  /** The last element pushed is the first to go. */
  lemma PopUndoesPush(s: State, e: seq<Byte>)
    ensures Step(Step(s, Push(e)).0, Pop).0.elems == s.elems
    ensures Step(Step(s, Push(e)).0, Pop).1 == |s.elems|
  {
  }

  /** Clearing forgets the elements, reserving keeps them; neither ever shrinks the capacity, and
      reserving returns one that is at least what was asked for, and no more than necessary. */
  lemma ClearReserveLaw(s: State, n: nat)
    ensures |Step(s, Clear).0.elems| == 0 && Step(s, Clear).0.capacity == s.capacity
    ensures var (u, r) := Step(s, Reserve(n));
      u.elems == s.elems && r == u.capacity && s.capacity <= r && n <= r && (r == n || r == s.capacity)
  {
  }

  /** `n` pushes and then `n` pops, whatever is pushed and however often the buffer moves. */
  lemma {:induction false} PopsUndoPushes(s: State, es: seq<seq<Byte>>)
    ensures Run(Run(s, PushAll(es)), Pops(|es|)).elems == s.elems
    decreases |es|
  {
    if es != [] {
      var n := |es| - 1;
      var before := Run(s, PushAll(es[..n]));
      assert PushAll(es) == PushAll(es[..n]) + [Push(es[n])];
      RunAppend(s, PushAll(es[..n]), Push(es[n]));
      var after := Step(before, Push(es[n])).0;
      PopUndoesPush(before, es[n]);
      assert Pops(|es|)[0] == Pop && Pops(|es|)[1..] == Pops(n);
      PopsDepend(Step(after, Pop).0, before, n);
      PopsUndoPushes(s, es[..n]);
    }
  }

  function PushAll(es: seq<seq<Byte>>): (ops: seq<Op>)
    ensures |ops| == |es|
  {
    seq(|es|, i requires 0 <= i < |es| => Push(es[i]))
  }

  function Pops(n: nat): (ops: seq<Op>)
    ensures |ops| == n
  {
    seq(n, _ => Pop)
  }

  /** What pops leave depends on the elements alone. */
  lemma {:induction false} PopsDepend(s: State, t: State, n: nat)
    requires s.elems == t.elems
    ensures Run(s, Pops(n)).elems == Run(t, Pops(n)).elems
    decreases n
  {
    if n > 0 {
      assert Pops(n)[0] == Pop && Pops(n)[1..] == Pops(n - 1);
      PopsDepend(Step(s, Pop).0, Step(t, Pop).0, n - 1);
    }
  }

  // ---- The cost of growth ----

  /** What the doubling rule keeps, from a vector created with some capacity: until it grows
      nothing has moved; afterwards everything moved fits in the capacity, less the first one, and
      half the capacity has been pushed. */
  ghost predicate Amortised(s: State, first: nat) {
    && |s.elems| <= s.capacity && |s.elems| <= s.pushed
    && (|| (s.capacity == first && s.moved == 0)
        || (first == 0 && s.capacity == MIN_CAPACITY && s.moved == 0 && s.pushed > 0)
        || (s.moved < s.capacity <= 2 * s.pushed && s.moved + (if first == 0 then MIN_CAPACITY else first) == s.capacity))
  }

  lemma StepAmortised(s: State, op: Op, first: nat)
    requires Amortised(s, first) && !op.Reserve?
    ensures Amortised(Step(s, op).0, first)
  {
  }

  lemma {:induction false} RunAmortised(s: State, ops: seq<Op>, first: nat)
    requires Amortised(s, first) && forall k :: 0 <= k < |ops| ==> !ops[k].Reserve?
    ensures Amortised(Run(s, ops), first)
    decreases |ops|
  {
    hide Step, Amortised;
    if ops != [] {
      assert !ops[0].Reserve?;
      StepAmortised(s, ops[0], first);
      RunAmortised(Step(s, ops[0]).0, ops[1..], first);
    }
  }

  /** Whatever is pushed, popped and cleared, reallocation moves fewer than two elements a push. */
  lemma MovesAmortised(capacity: nat, ops: seq<Op>)
    requires forall k :: 0 <= k < |ops| ==> !ops[k].Reserve?
    ensures var s := Run(Empty(capacity), ops);
      (s.pushed == 0 && s.moved == 0) || s.moved < 2 * s.pushed
  {
    hide Run;
    RunAmortised(Empty(capacity), ops, capacity);
  }

  function Pushes(e: seq<Byte>, n: nat): (ops: seq<Op>)
    ensures |ops| == n
  {
    seq(n, _ => Push(e))
  }

  lemma {:induction false} RunAppend(s: State, ops: seq<Op>, op: Op)
    ensures Run(s, ops + [op]) == Step(Run(s, ops), op).0
    decreases |ops|
  {
    hide Step;
    if ops == [] {
      assert [op][1..] == [];
    } else {
      assert (ops + [op])[1..] == ops[1..] + [op];
      RunAppend(Step(s, ops[0]).0, ops[1..], op);
    }
  }

  /** Filling a vector of capacity one, then pushing once more: the counts after `n` pushes. */
  lemma {:induction false} PushesFrom1(e: seq<Byte>, n: nat, k: nat)
    requires Pow2(k) < n <= Pow2(k + 1)
    ensures var s := Run(Empty(1), Pushes(e, n));
      |s.elems| == s.pushed == n && s.capacity == Pow2(k + 1) && s.moved == Pow2(k + 1) - 1
    decreases n
  {
    assert Pushes(e, n) == Pushes(e, n - 1) + [Push(e)];
    RunAppend(Empty(1), Pushes(e, n - 1), Push(e));
    if n - 1 > Pow2(k) {
      PushesFrom1(e, n - 1, k);
    } else if k > 0 {
      PushesFrom1(e, n - 1, k - 1);
    } else {
      assert Pushes(e, 1) == Pushes(e, 0) + [Push(e)];
      RunAppend(Empty(1), Pushes(e, 0), Push(e));
    }
  }

  /** Two is the least such factor: some run of pushes, however long, stays within three of it. */
  lemma MovesTight(e: seq<Byte>, k: nat)
    ensures var s := Run(Empty(1), Pushes(e, Pow2(k) + 1));
      s.pushed == Pow2(k) + 1 && s.moved == 2 * s.pushed - 3
  {
    PushesFrom1(e, Pow2(k) + 1, k);
  }

  // ---- The byte buffer ----

  /** The first `n` elements of a buffer of elements of one size. */
  function Chunks(bytes: seq<Byte>, size: nat, n: nat): (r: seq<seq<Byte>>)
    requires size * n <= |bytes|
    ensures |r| == n
  {
    if n == 0 then []
    else
      Stride(size, n);
      Chunks(bytes, size, n - 1) + [bytes[size * (n - 1)..size * n]]
  }

  lemma Stride(size: nat, n: nat)
    requires n > 0
    ensures size * n == size * (n - 1) + size && 0 <= size * (n - 1)
  {
  }

  /** Elements depend only on the bytes they occupy. */
  lemma {:induction false} ChunksDepend(a: seq<Byte>, b: seq<Byte>, size: nat, n: nat)
    requires size * n <= |a| && size * n <= |b| && a[..size * n] == b[..size * n]
    ensures Chunks(a, size, n) == Chunks(b, size, n)
  {
    if n > 0 {
      Stride(size, n);
      var m, e := size * (n - 1), size * n;
      assert a[..m] == a[..e][..m] && b[..m] == b[..e][..m];
      assert a[m..e] == a[..e][m..] && b[m..e] == b[..e][m..];
      ChunksDepend(a, b, size, n - 1);
    }
  }

  /** Element `k` is the stretch at `k` strides, and earlier elements are those of a shorter vector. */
  lemma {:induction false} ChunksAt(bytes: seq<Byte>, size: nat, n: nat, k: nat)
    requires size * n <= |bytes| && k < n
    ensures size * k + size <= |bytes|
    ensures Chunks(bytes, size, n)[k] == bytes[size * k..size * k + size]
    ensures Chunks(bytes, size, n)[..n - 1] == Chunks(bytes, size, n - 1)
    decreases n
  {
    Stride(size, n);
    if k < n - 1 { ChunksAt(bytes, size, n - 1, k); }
  }

  /** `realloc` to a larger block: the old bytes, then bytes of no particular value. */
  method Realloc(data: array<Byte>, length: nat) returns (r: array<Byte>)
    requires data.Length <= length
    ensures fresh(r) && r.Length == length && r[..data.Length] == data[..]
  {
    r := new Byte[length];
    var i := 0;
    while i < data.Length
      invariant 0 <= i <= data.Length
      invariant r[..i] == data[..i]
    {
      r[i] := data[i];
      i := i + 1;
    }
  }

  /** `memcpy` of one element into place. */
  method CopyElem(data: array<Byte>, at: nat, elem: seq<Byte>)
    requires at + |elem| <= data.Length
    modifies data
    ensures data[..at] == old(data[..at]) && data[at..at + |elem|] == elem
  {
    var i := 0;
    while i < |elem|
      invariant 0 <= i <= |elem|
      invariant data[..at] == old(data[..at])
      invariant data[at..at + i] == elem[..i]
    {
      data[at + i] := elem[i];
      i := i + 1;
    }
  }

  class Vector {
    var data: array<Byte>
    const elemSize: nat
    var size: nat
    var capacity: nat
    ghost var pushed: nat
    ghost var moved: nat

    predicate Valid()
      reads this, data
    {
      elemSize > 0 && data.Length == elemSize * capacity && size <= capacity
    }

    lemma Fits(n: nat)
      requires Valid() && n <= capacity
      ensures elemSize * n <= data.Length
    {
    }

    ghost function Value(): (s: State)
      reads this, data
      requires Valid()
      ensures |s.elems| == size
    {
      Fits(size);
      State(Chunks(data[..], elemSize, size), capacity, pushed, moved)
    }

    constructor (elemBytes: nat, count: nat)
      requires elemBytes > 0
      ensures Valid() && fresh(data) && elemSize == elemBytes && Value() == Empty(count)
    {
      MulMonotone(elemBytes, 0, count);
      data := new Byte[elemBytes * count];
      elemSize, size, capacity, pushed, moved := elemBytes, 0, count, 0, 0;
    }

    method Grow(count: nat)
      requires Valid() && capacity <= count
      modifies this`data, this`capacity, this`moved
      ensures Valid() && fresh(data) && Value() == Grown(old(Value()), count)
    {
      MulMonotone(elemSize, capacity, count);
      Fits(size);
      ghost var was := data[..];
      data := Realloc(data, elemSize * count);
      assert data[..elemSize * size] == data[..|was|][..elemSize * size];
      ChunksDepend(was, data[..], elemSize, size);
      moved := moved + capacity;
      capacity := count;
    }

    method Push(elem: seq<Byte>) returns (r: int)
      requires Valid() && |elem| == elemSize
      modifies this, data
      ensures Valid() && (data == old(data) || fresh(data))
      ensures (Value(), r) == Step(old(Value()), Op.Push(elem))
    {
      if size >= capacity {
        Grow(if capacity == 0 then MIN_CAPACITY else 2 * capacity);
      }
      Fits(size + 1);
      Fits(size);
      Stride(elemSize, size + 1);
      ghost var was := data[..];
      CopyElem(data, elemSize * size, elem);
      ChunksDepend(was, data[..], elemSize, size);
      size := size + 1;
      pushed := pushed + 1;
      r := size;
    }

    method Pop() returns (r: int)
      requires Valid()
      modifies this`size
      ensures Valid() && (Value(), r) == Step(old(Value()), Op.Pop)
    {
      if size == 0 { return -1; }
      Fits(size);
      ChunksAt(data[..], elemSize, size, size - 1);
      size := size - 1;
      r := size;
    }

    method Clear()
      requires Valid()
      modifies this`size
      ensures Valid() && Value() == Step(old(Value()), Op.Clear).0
    {
      size := 0;
    }

    method Reserve(count: nat) returns (r: int)
      requires Valid()
      modifies this`data, this`capacity, this`moved
      ensures Valid() && (data == old(data) || fresh(data))
      ensures (Value(), r) == Step(old(Value()), Op.Reserve(count))
    {
      if capacity < count { Grow(count); }
      r := capacity;
    }

    /** `_c_vector_at`: the bytes the returned address points to, or nothing. */
    method At(idx: nat) returns (ok: bool, elem: seq<Byte>)
      requires Valid()
      ensures ok <==> idx < size
      ensures ok ==> elem == Value().elems[idx]
    {
      if size == 0 || idx >= size { return false, []; }
      Fits(size);
      ghost var bytes := data[..];
      ChunksAt(bytes, elemSize, size, idx);
      var at := elemSize * idx;
      ok, elem := true, data[at..at + elemSize];
      assert elem == bytes[at..at + elemSize];
    }
  }
}
