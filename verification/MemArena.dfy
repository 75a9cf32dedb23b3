/** The bump arena: a cursor over a fixed buffer, advanced by aligned allocations and moved
    back by `setcur` and `reset`. */
module MemArena {
  import opened Bits

  const NULL: int := -1

  datatype Block = Block(off: nat, len: nat) {
    function End(): nat { off + len }
  }

  /** What the arena's fields hold, and the blocks handed out and not given back since. */
  datatype Arena = Arena(size: nat, align: nat, cur: nat, allocs: nat, live: seq<Block>) {
    /** A block of `n` bytes at the next aligned offset, or `NULL` if it does not fit. */
    function Alloc(n: nat): (Arena, int)
      requires align > 0
    {
      var at := NextAlloc(cur, align, size, n);
      if n == 0 || at < 0 then (this, NULL)
      else (this.(cur := at + n, allocs := allocs + 1, live := live + [Block(at, n)]), at)
    }

    function SetCur(pos: nat): Arena {
      if pos > cur then this else this.(cur := pos, live := Below(live, pos))
    }

    function Reset(): Arena {
      this.(cur := 0, allocs := 0, live := [])
    }
  }

  /** `_mem_arena_get_next_alloc_memcur`: where a block of `n` bytes would start. */
  function NextAlloc(cur: nat, align: nat, size: nat, n: nat): int
    requires align > 0
  {
    var at := AlignOffset(cur, align);
    if at + n > size then NULL else at
  }

  /** The blocks that end at or before a cursor. */
  function Below(live: seq<Block>, pos: nat): seq<Block> {
    if live == [] || live[|live| - 1].End() <= pos then live
    else Below(live[..|live| - 1], pos)
  }

  ghost predicate Safe(a: Arena) {
    && IsPowerOf2(a.align)
    && a.cur <= a.size
    && (forall i :: 0 <= i < |a.live| ==> a.live[i].len > 0 && a.live[i].off % a.align == 0 && a.live[i].End() <= a.cur)
    && Disjoint(a.live)
  }

  datatype Op = AllocOp(n: nat) | SetCurOp(pos: nat) | ResetOp

  function Step(a: Arena, op: Op): Arena
    requires a.align > 0
  {
    match op
    case AllocOp(n) => a.Alloc(n).0
    case SetCurOp(pos) => a.SetCur(pos)
    case ResetOp => a.Reset()
  }

  lemma {:induction false} BelowIsPrefix(live: seq<Block>, pos: nat)
    ensures Below(live, pos) <= live
    ensures var r := Below(live, pos); r == [] || r[|r| - 1].End() <= pos
  {
    if !(live == [] || live[|live| - 1].End() <= pos) {
      BelowIsPrefix(live[..|live| - 1], pos);
    }
  }

  lemma StepSafe(a: Arena, op: Op)
    requires Safe(a)
    ensures a.align > 0 && Safe(Step(a, op)) && Step(a, op).size == a.size && Step(a, op).align == a.align
  {
    hide IsPowerOf2, AlignOffset, Below;
    PositiveAlign(a);
    match op
    case AllocOp(n) => AlignOffsetLeast(a.cur, a.align);
    case SetCurOp(pos) => if pos <= a.cur { BelowSafe(a.live, pos); }
    case ResetOp =>
  }

  lemma PositiveAlign(a: Arena)
    requires Safe(a)
    ensures a.align > 0
  {
  }

  ghost predicate Disjoint(live: seq<Block>) {
    forall i, j :: 0 <= i < j < |live| ==> live[i].End() <= live[j].off
  }

  lemma BelowSafe(live: seq<Block>, pos: nat)
    requires Disjoint(live)
    ensures Below(live, pos) <= live && forall i :: 0 <= i < |Below(live, pos)| ==> Below(live, pos)[i].End() <= pos
  {
    hide Below;
    var r := Below(live, pos);
    BelowIsPrefix(live, pos);
    forall i | 0 <= i < |r| ensures r[i].End() <= pos {
      assert r[i] == live[i];
      if i < |r| - 1 { assert live[i].End() <= live[|r| - 1].off; }
    }
  }

  function Run(a: Arena, ops: seq<Op>): Arena
    requires Safe(a)
    decreases |ops|
  {
    if ops == [] then a
    else
      StepSafe(a, ops[0]);
      Run(Step(a, ops[0]), ops[1..])
  }

  /** A run is its operations one after the other. */
  lemma {:induction false} RunNext(a: Arena, ops: seq<Op>, op: Op)
    requires Safe(a)
    ensures Run(a, []) == a && Run(a, ops).align > 0
    ensures Run(a, ops + [op]) == Step(Run(a, ops), op)
    decreases |ops|
  {
    hide Safe, Step;
    PositiveAlign(a);
    if ops == [] {
      StepSafe(a, op);
      assert [] + [op] == [op] && [op][1..] == [];
    } else {
      StepSafe(a, ops[0]);
      assert (ops + [op])[1..] == ops[1..] + [op];
      RunNext(Step(a, ops[0]), ops[1..], op);
    }
  }

  /** Over every run the live blocks are aligned, inside the buffer and pairwise disjoint. */
  lemma {:induction false} RunSafe(a: Arena, ops: seq<Op>)
    requires Safe(a)
    ensures Safe(Run(a, ops)) && Run(a, ops).size == a.size
    decreases |ops|
  {
    if ops != [] {
      StepSafe(a, ops[0]);
      RunSafe(Step(a, ops[0]), ops[1..]);
    }
  }

  /** After `a`, only later blocks were handed out. */
  ghost predicate Grown(a: Arena, b: Arena) {
    && a.live <= b.live && a.cur <= b.cur && a.size == b.size && a.align == b.align
    && forall i :: |a.live| <= i < |b.live| ==> b.live[i].End() > a.cur
  }

  /** A new block starts at or after the cursor, and the cursor ends up at its end. */
  lemma AllocatesAbove(a: Arena, n: nat)
    requires Safe(a) && n > 0
    ensures var (b, off) := a.Alloc(n);
      && Safe(b) && b.size == a.size && b.align == a.align
      && (off >= 0 ==> a.cur <= off && off + n == b.cur <= b.size)
      && (off < 0 ==> b == a && off == NULL)
  {
    StepSafe(a, AllocOp(n));
    AlignOffsetLeast(a.cur, a.align);
  }

  lemma AllocGrows(a: Arena, b: Arena, n: nat)
    requires Safe(b) && Grown(a, b)
    ensures Safe(b.Alloc(n).0) && Grown(a, b.Alloc(n).0)
  {
    StepSafe(b, AllocOp(n));
    AlignOffsetLeast(b.cur, b.align);
  }

  /** The operations that give back nothing below a mark. */
  predicate KeepsBelow(op: Op, mark: nat) {
    match op
    case AllocOp(_) => true
    case SetCurOp(pos) => mark <= pos
    case ResetOp => false
  }

  lemma {:induction false} BelowKeeps(live: seq<Block>, more: seq<Block>, pos: nat)
    requires forall i :: 0 <= i < |live| ==> live[i].End() <= pos
    ensures live <= Below(live + more, pos) <= live + more
    decreases |more|
  {
    BelowIsPrefix(live + more, pos);
    if more == [] {
      assert live + more == live;
    } else {
      assert (live + more)[|live + more| - 1] == more[|more| - 1];
      assert (live + more)[..|live + more| - 1] == live + more[..|more| - 1];
      BelowKeeps(live, more[..|more| - 1], pos);
    }
  }

  lemma SetCurGrows(a: Arena, b: Arena, pos: nat)
    requires Safe(a) && Safe(b) && Grown(a, b) && a.cur <= pos
    ensures Safe(b.SetCur(pos)) && Grown(a, b.SetCur(pos))
  {
    hide IsPowerOf2, Below;
    StepSafe(b, SetCurOp(pos));
    if pos <= b.cur {
      assert b.live == a.live + b.live[|a.live|..];
      BelowKeeps(a.live, b.live[|a.live|..], pos);
    }
  }

  lemma {:induction false} RunGrows(a: Arena, b: Arena, ops: seq<Op>)
    requires Safe(a) && Safe(b) && Grown(a, b)
    requires forall i :: 0 <= i < |ops| ==> KeepsBelow(ops[i], a.cur)
    ensures Grown(a, Run(b, ops))
    decreases |ops|
  {
    hide Safe, Grown;
    if ops != [] {
      assert KeepsBelow(ops[0], a.cur);
      match ops[0] {
        case AllocOp(n) => AllocGrows(a, b, n);
        case SetCurOp(pos) => SetCurGrows(a, b, pos);
      }
      StepSafe(b, ops[0]);
      RunGrows(a, Step(b, ops[0]), ops[1..]);
    }
  }

  lemma {:induction false} BelowDropsExactly(live: seq<Block>, more: seq<Block>, pos: nat)
    requires forall i :: 0 <= i < |live| ==> live[i].End() <= pos
    requires forall i :: 0 <= i < |more| ==> more[i].End() > pos
    ensures Below(live + more, pos) == live
    decreases |more|
  {
    if more == [] {
      assert live + more == live;
    } else {
      assert (live + more)[|live + more| - 1] == more[|more| - 1];
      assert (live + more)[..|live + more| - 1] == live + more[..|more| - 1];
      BelowDropsExactly(live, more[..|more| - 1], pos);
    }
  }

  lemma GrownRollsBack(a: Arena, b: Arena)
    requires Safe(a) && Grown(a, b)
    ensures b.SetCur(a.cur) == a.(allocs := b.allocs)
  {
    assert b.live == a.live + b.live[|a.live|..];
    BelowDropsExactly(a.live, b.live[|a.live|..], a.cur);
  }

  /** Rolling back to a mark undoes all allocations made since, whatever rollbacks to later marks
      happened in between: the cursor, and with it the free space, and the set of live blocks are
      those at the mark. Only the allocation count stays. */
  lemma RollbackRestores(a: Arena, ops: seq<Op>)
    requires Safe(a) && forall i :: 0 <= i < |ops| ==> KeepsBelow(ops[i], a.cur)
    ensures Run(a, ops).SetCur(a.cur) == a.(allocs := Run(a, ops).allocs)
  {
    RunGrows(a, a, ops);
    GrownRollsBack(a, Run(a, ops));
  }

  /** A mark kept in 32 bits restores exactly the cursors that fit them. */
  lemma NarrowMark(a: Arena, b: Arena)
    requires Safe(a) && Grown(a, b)
    ensures b.SetCur(Wrap32(a.cur)) == a.(allocs := b.allocs) <==> a.cur < DWORD
  {
    hide IsPowerOf2, Below;
    GrownRollsBack(a, b);
  }

  /** Each operation exactly. An allocation takes the least aligned offset from the cursor on, and
      fails exactly for zero bytes or when they do not fit from there. */
  lemma AllocExact(a: Arena, n: nat)
    requires Safe(a)
    ensures var (b, off) := a.Alloc(n);
      if off >= 0 then
        && n > 0 && a.cur <= off && off % a.align == 0 && off + n <= a.size
        && (forall m: nat :: a.cur <= m && m % a.align == 0 ==> off <= m)
        && b == Arena(a.size, a.align, off + n, a.allocs + 1, a.live + [Block(off, n)])
      else
        && off == -1 && b == a
        && (n == 0 || forall m: nat :: a.cur <= m && m % a.align == 0 ==> m + n > a.size)
  {
    PositiveAlign(a);
    hide IsPowerOf2, AlignOffset;
    AlignOffsetLeast(a.cur, a.align);
  }

  // ---- Several blocks at once ----

  /** Allocations of the given sizes in order, each tried whatever became of the others, and
      whether all succeeded. */
  function AllocAll(a: Arena, sizes: seq<nat>): (Arena, bool)
    requires a.align > 0
    decreases |sizes|
  {
    if sizes == [] then (a, true)
    else
      var (b, off) := a.Alloc(sizes[0]);
      var (c, ok) := AllocAll(b, sizes[1..]);
      (c, off >= 0 && ok)
  }

  lemma AllocAllFirst(a: Arena, n: nat, rest: seq<nat>)
    requires Safe(a)
    ensures a.align > 0 && Safe(a.Alloc(n).0)
    ensures a.Alloc(n).0.align > 0
    ensures AllocAll(a, [n] + rest) == (AllocAll(a.Alloc(n).0, rest).0, a.Alloc(n).1 >= 0 && AllocAll(a.Alloc(n).0, rest).1)
    ensures AllocAll(a, []) == (a, true)
  {
    hide NextAlloc;
    StepSafe(a, AllocOp(n));
    assert ([n] + rest)[1..] == rest;
  }

  /** Blocks of the given sizes from a cursor on, each at the next aligned offset. */
  function Stacked(cur: nat, align: nat, sizes: seq<nat>): seq<Block>
    requires align > 0
    decreases |sizes|
  {
    if sizes == [] then []
    else
      var off := AlignOffset(cur, align);
      [Block(off, sizes[0])] + Stacked(off + sizes[0], align, sizes[1..])
  }

  function StackEnd(cur: nat, align: nat, sizes: seq<nat>): nat
    requires align > 0
    decreases |sizes|
  {
    if sizes == [] then cur else StackEnd(AlignOffset(cur, align) + sizes[0], align, sizes[1..])
  }

  lemma StackUnfolds(cur: nat, align: nat, sizes: seq<nat>)
    requires align > 0 && sizes != []
    ensures var off := AlignOffset(cur, align);
      && Stacked(cur, align, sizes) == [Block(off, sizes[0])] + Stacked(off + sizes[0], align, sizes[1..])
      && StackEnd(cur, align, sizes) == StackEnd(off + sizes[0], align, sizes[1..])
  {
    hide AlignOffset;
  }

  lemma {:induction false} StackGrows(cur: nat, align: nat, sizes: seq<nat>)
    requires IsPowerOf2(align)
    ensures cur <= StackEnd(cur, align, sizes)
    decreases |sizes|
  {
    if sizes != [] {
      AlignOffsetLeast(cur, align);
      StackGrows(AlignOffset(cur, align) + sizes[0], align, sizes[1..]);
    }
  }

  ghost predicate NoneZero(sizes: seq<nat>) {
    forall i :: 0 <= i < |sizes| ==> sizes[i] > 0
  }

  lemma NoneZeroSplits(sizes: seq<nat>)
    requires sizes != []
    ensures NoneZero(sizes) <==> sizes[0] > 0 && NoneZero(sizes[1..])
  {
    assert sizes == [sizes[0]] + sizes[1..];
  }

  /** They all succeed exactly when none is empty and the stack of them fits; then just these blocks
      are added. In any case nothing but blocks at or above the cursor is handed out. */
  lemma {:induction false} AllocAllExact(a: Arena, sizes: seq<nat>)
    requires Safe(a)
    ensures a.align > 0
    ensures var (b, ok) := AllocAll(a, sizes);
      && Safe(b) && Grown(a, b)
      && (ok <==> NoneZero(sizes) && StackEnd(a.cur, a.align, sizes) <= a.size)
      && (ok ==> b.cur == StackEnd(a.cur, a.align, sizes) && b.live == a.live + Stacked(a.cur, a.align, sizes))
    decreases |sizes|
  {
    PositiveAlign(a);
    if sizes == [] {
      assert a.live + [] == a.live;
    } else {
      AllocAllStep(a, sizes);
    }
  }

  lemma AllocAllStep(a: Arena, sizes: seq<nat>)
    requires Safe(a) && sizes != []
    ensures a.align > 0
    ensures var (b, ok) := AllocAll(a, sizes);
      && Safe(b) && Grown(a, b)
      && (ok <==> NoneZero(sizes) && StackEnd(a.cur, a.align, sizes) <= a.size)
      && (ok ==> b.cur == StackEnd(a.cur, a.align, sizes) && b.live == a.live + Stacked(a.cur, a.align, sizes))
    decreases |sizes|, 0
  {
    hide Safe, NextAlloc, AlignOffset, IsPowerOf2, Grown, NoneZero, AllocAll, Stacked, StackEnd;
    PositiveAlign(a);
    NoneZeroSplits(sizes);
    AllocAllFirst(a, sizes[0], sizes[1..]);
    assert [sizes[0]] + sizes[1..] == sizes;
    StackUnfolds(a.cur, a.align, sizes);
    AllocEnds(a, sizes[0]);
    var (b, off) := a.Alloc(sizes[0]);
    AllocAllExact(b, sizes[1..]);
    GrownOnce(a, sizes[0], AllocAll(b, sizes[1..]).0);
    SafePower(a);
    StackGrows(AlignOffset(a.cur, a.align) + sizes[0], a.align, sizes[1..]);
    if off >= 0 {
      assert a.live + Stacked(a.cur, a.align, sizes) == b.live + Stacked(b.cur, a.align, sizes[1..]);
    }
  }

  lemma GrownOnce(a: Arena, n: nat, c: Arena)
    requires Safe(a) && a.align > 0 && Grown(a.Alloc(n).0, c)
    ensures Grown(a, c)
  {
    hide AlignOffset, IsPowerOf2;
    AlignOffsetLeast(a.cur, a.align);
  }

  lemma SafePower(a: Arena)
    requires Safe(a)
    ensures IsPowerOf2(a.align)
  {
  }

  lemma AllocEnds(a: Arena, n: nat)
    requires Safe(a)
    ensures var (b, off) := a.Alloc(n);
      && Safe(b) && b.size == a.size && b.align == a.align > 0
      && (off >= 0 <==> n > 0 && AlignOffset(a.cur, a.align) + n <= a.size)
      && (off >= 0 ==> off == AlignOffset(a.cur, a.align) && b.cur == off + n && b.live == a.live + [Block(off, n)])
      && (off < 0 ==> b == a) && a.cur <= AlignOffset(a.cur, a.align)
  {
    PositiveAlign(a);
    hide IsPowerOf2, AlignOffset;
    AlignOffsetLeast(a.cur, a.align);
    StepSafe(a, AllocOp(n));
  }

  /** Moving the cursor back gives up just the blocks that reach beyond it. */
  lemma SetCurExact(a: Arena, pos: nat)
    requires Safe(a)
    ensures a.cur < pos ==> a.SetCur(pos) == a
    ensures pos <= a.cur ==>
      var b := a.SetCur(pos);
      && b.cur == pos && b.allocs == a.allocs && b.size == a.size && b.align == a.align && b.live <= a.live
      && forall i :: 0 <= i < |a.live| ==> (i < |b.live| <==> a.live[i].End() <= pos)
  {
    hide IsPowerOf2, Below;
    if pos <= a.cur {
      var r := Below(a.live, pos);
      BelowSafe(a.live, pos);
      BelowStops(a.live, pos);
      forall i | 0 <= i < |a.live| ensures i < |r| <==> a.live[i].End() <= pos {
        if i < |r| {
          assert r[i] == a.live[i];
        } else if |r| < i {
          assert a.live[|r|].End() <= a.live[i].off;
        }
      }
    }
  }

  lemma {:induction false} BelowStops(live: seq<Block>, pos: nat)
    ensures |Below(live, pos)| <= |live|
    ensures |Below(live, pos)| < |live| ==> live[|Below(live, pos)|].End() > pos
  {
    if !(live == [] || live[|live| - 1].End() <= pos) {
      BelowStops(live[..|live| - 1], pos);
    }
  }

  /** After a reset the arena is as it was after its initialisation: all its space is free, and
      whatever was allocated first gets the same offset again. */
  lemma ResetIsFresh(a: Arena, n: nat)
    requires Safe(a)
    ensures a.Reset() == Arena(a.size, a.align, 0, 0, [])
    ensures 0 < n <= a.size ==> a.Reset().Alloc(n).1 == 0
  {
    PositiveAlign(a);
    hide IsPowerOf2, AlignOffset;
    AlignOffsetLeast(0, a.align);
    assert 0 % a.align == 0;
  }

  /** Setting the cursor forward, as the table loader does, keeps the arena safe. */
  lemma MoveUp(a: Arena, pos: nat)
    requires Safe(a) && a.cur <= pos <= a.size
    ensures Safe(a.(cur := pos))
  {
  }

  class MemArena {
    const buf: array<Byte>
    const align: nat
    var cur: nat
    var allocs: nat
    ghost var live: seq<Block>

    ghost function State(): Arena
      reads this
    {
      Arena(buf.Length, align, cur, allocs, live)
    }

    /** `mem_arena_init` over a buffer the caller provides. */
    constructor (buf: array<Byte>, align: nat)
      ensures this.buf == buf && this.align == align
      ensures State() == Arena(buf.Length, align, 0, 0, [])
    {
      this.buf, this.align, cur, allocs, live := buf, align, 0, 0, [];
    }

    /** `mem_arena_alloc`: the offset of the new block, or `NULL`. */
    method Alloc(n: nat) returns (off: int)
      requires Safe(State())
      modifies this
      ensures (State(), off) == old(State()).Alloc(n)
      ensures Safe(State())
    {
      StepSafe(State(), AllocOp(n));
      if n == 0 { return NULL; }
      var at := AlignOffset(cur, align);
      if at + n > buf.Length { return NULL; }
      cur := at + n;
      allocs := allocs + 1;
      live := live + [Block(at, n)];
      return at;
    }

    /** `mem_arena_alloc_arr`. */
    method AllocArr(count: nat, elemSize: nat) returns (off: int)
      requires Safe(State())
      modifies this
      ensures (State(), off) == old(State()).Alloc(count * elemSize)
      ensures Safe(State())
    {
      if count == 0 || elemSize == 0 { return NULL; }
      off := Alloc(count * elemSize);
    }

    /** `mem_arena_setcur`: moves the cursor back, never forward. */
    method SetCur(pos: nat)
      requires Safe(State())
      modifies this
      ensures State() == old(State()).SetCur(pos)
      ensures Safe(State())
    {
      StepSafe(State(), SetCurOp(pos));
      if pos > cur { return; }
      cur := pos;
      live := Below(live, pos);
    }

    /** `mem_arena_reset`. */
    method Reset()
      requires Safe(State())
      modifies this
      ensures State() == old(State()).Reset()
      ensures Safe(State())
    {
      cur, allocs, live := 0, 0, [];
    }
  }
}
