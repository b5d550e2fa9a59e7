/** The two-level allocator of coroutine stacks: a fixed pool of reusable coroutines on the
    blocks of the first arena, and further arenas when all of those are in use. */
module CoroutinePools {
  import opened Bytes

  // ----- stacks as address ranges -----

  datatype Range = Range(start: int, size: nat)

  predicate Apart(a: Range, b: Range) {
    a.start + a.size <= b.start || b.start + b.size <= a.start
  }

  function BlockOf(start: int, size: nat, i: nat): (r: Range)
    ensures r.size == size
  {
    Range(start + i * size, size)
  }

  lemma BlocksApart(start: int, size: nat, i: nat, j: nat)
    requires i != j
    ensures Apart(BlockOf(start, size, i), BlockOf(start, size, j))
  {
    if i < j {
      assert (i + 1) * size <= j * size;
    } else {
      assert (j + 1) * size <= i * size;
    }
  }

  lemma BlockInside(start: int, size: nat, count: nat, i: nat)
    requires i < count
    ensures start <= BlockOf(start, size, i).start
    ensures BlockOf(start, size, i).start + size <= start + count * size
  {
    assert (i + 1) * size <= count * size;
  }

  lemma OnlyMultiple(k: int, size: nat)
    requires 0 - size < k * size < size
    ensures k == 0
  {
  }

  lemma BlockIndex(n: nat, size: nat, i: nat)
    requires size > 0 && n == i * size
    ensures n / size == i
  {
    var q := n / size;
    assert n == q * size + n % size;
    assert (i - q) * size == i * size - q * size;
    OnlyMultiple(i - q, size);
  }

  lemma IndexInside(n: nat, size: nat, count: nat)
    requires size > 0 && n < count * size
    ensures 0 <= n / size < count
  {
    var q := n / size;
    assert n == q * size + n % size;
    assert q >= count ==> q * size >= count * size;
  }

  /** `malloc`: some range apart from all that were handed out before. */
  class Heap {
    var used: set<Range>
    var top: int

    ghost predicate Valid()
      reads this
    {
      forall r :: r in used ==> r.start + r.size <= top
    }

    constructor ()
      ensures Valid() && used == {}
    {
      used, top := {}, 0;
    }

    method Malloc(size: nat) returns (start: int)
      requires Valid()
      modifies this
      ensures Valid() && used == old(used) + {Range(start, size)}
      ensures forall r :: r in old(used) ==> Apart(r, Range(start, size))
    {
      start := *;
      if exists r :: r in used && !Apart(r, Range(start, size)) {
        start := top;
      }
      used := used + {Range(start, size)};
      if start + size > top {
        top := start + size;
      }
    }
  }

  // ----- an arena -----

  function Count(blocks: seq<bool>): (n: nat)
    ensures n <= |blocks|
  {
    if blocks == [] then 0 else Count(blocks[..|blocks| - 1]) + if blocks[|blocks| - 1] then 1 else 0
  }

  lemma {:induction false} CountUpdate(blocks: seq<bool>, i: nat, b: bool)
    requires i < |blocks|
    ensures Count(blocks[i := b]) == Count(blocks) + (if b then 1 else 0) - if blocks[i] then 1 else 0
  {
    var n := |blocks| - 1;
    if i == n {
      assert blocks[i := b][..n] == blocks[..n];
    } else {
      assert blocks[i := b][..n] == blocks[..n][i := b];
      CountUpdate(blocks[..n], i, b);
    }
  }

  lemma {:induction false} CountNone(blocks: seq<bool>)
    requires forall i :: 0 <= i < |blocks| ==> !blocks[i]
    ensures Count(blocks) == 0
  {
    if blocks != [] {
      CountNone(blocks[..|blocks| - 1]);
    }
  }

  predicate Full(blocks: seq<bool>) {
    forall i :: 0 <= i < |blocks| ==> blocks[i]
  }

  /** The first free block. */
  ghost predicate FirstFree(blocks: seq<bool>, i: nat) {
    i < |blocks| && !blocks[i] && forall j :: 0 <= j < i ==> blocks[j]
  }

  class Memory {
    const blockSize: nat
    const blockCount: nat
    const start: int
    var refCounts: int
    var blocks: seq<bool>

    ghost predicate Valid()
      reads this
    {
      && blockSize > 0
      && |blocks| == blockCount
      && refCounts == Count(blocks)
    }

    function Whole(): Range {
      Range(start, blockCount * blockSize)
    }

    function Block(i: nat): Range {
      BlockOf(start, blockSize, i)
    }

    constructor (heap: Heap, blockSize: nat, blockCount: nat)
      requires heap.Valid() && blockSize > 0
      modifies heap
      ensures Valid() && this.blockSize == blockSize && this.blockCount == blockCount
      ensures forall i :: 0 <= i < blockCount ==> !blocks[i]
      ensures heap.Valid() && heap.used == old(heap.used) + {Whole()}
      ensures forall r :: r in old(heap.used) ==> Apart(r, Whole())
    {
      var p := heap.Malloc(blockCount * blockSize);
      this.blockSize, this.blockCount := blockSize, blockCount;
      start := p;
      blocks := seq(blockCount, _ => false);
      refCounts := 0;
      new;
      CountNone(blocks);
    }

    /** The address of the first free block, which is taken; nothing when there is none. */
    method GetBlock() returns (p: Option<int>, ghost t: nat)
      requires Valid()
      modifies this`blocks, this`refCounts
      ensures Valid() && (p.None? <==> Full(old(blocks)))
      ensures p.None? ==> blocks == old(blocks)
      ensures p.Some? ==> FirstFree(old(blocks), t) && t < blockCount && !old(blocks)[t]
      ensures p.Some? ==> p.value == Block(t).start && blocks == old(blocks)[t := true]
    {
      var i := 0;
      while i < |blocks| && blocks[i]
        invariant i <= |blocks| && forall j :: 0 <= j < i ==> blocks[j]
      {
        i := i + 1;
      }
      t := i;
      if i == |blocks| {
        return None, t;
      }
      CountUpdate(blocks, i, true);
      blocks := blocks[i := true];
      refCounts := refCounts + 1;
      p := Some(start + i * blockSize);
    }

    /** Frees the block `s` lies in; a second return of the same block spoils the count. */
    method BackBlock(s: int)
      requires Valid()
      modifies this`blocks, this`refCounts
      ensures !HasBlock(s) ==> blocks == old(blocks) && Valid()
      ensures HasBlock(s) ==>
                var k := (s - start) / blockSize;
                && 0 <= k < blockCount && blocks == old(blocks)[k := false]
                && refCounts == old(refCounts) - 1
                && (Valid() <==> old(blocks)[k])
    {
      if s > start + blockCount * blockSize - 1 || s < start {
        return;
      }
      IndexInside(s - start, blockSize, blockCount);
      var k := (s - start) / blockSize;
      CountUpdate(blocks, k, false);
      blocks := blocks[k := false];
      refCounts := refCounts - 1;
    }

    predicate HasBlock(s: int) {
      start <= s <= start + blockCount * blockSize - 1
    }
  }

  // ----- coroutines -----

  class Coroutine {
    const stackSize: nat
    const stackPtr: int
    const index: int
    var inCoFunction: bool
    var canResume: bool
    var stackTop: int

    /** With the `setIndex` that follows in the pool; -1 outside. */
    constructor (stackSize: nat, stackPtr: int, index: int)
      ensures this.stackSize == stackSize && this.stackPtr == stackPtr && this.index == index
      ensures !inCoFunction
    {
      this.stackSize, this.stackPtr, this.index := stackSize, stackPtr, index;
      inCoFunction, canResume, stackTop := false, true, 0;
    }

    function Stack(): Range {
      Range(stackPtr, stackSize)
    }

    /** Refused only inside `CoFunction` (the main coroutine is never in a pool); the stack
        pointer is set to the highest multiple of 16 in reach. */
    method SetCallBack() returns (ok: bool)
      modifies this
      ensures ok == !old(inCoFunction)
      ensures ok ==> canResume && stackTop % 16 == 0 && stackPtr + stackSize - 16 < stackTop <= stackPtr + stackSize
      ensures inCoFunction == old(inCoFunction)
    {
      if inCoFunction {
        return false;
      }
      var top := stackPtr + stackSize;
      stackTop := top - top % 16;
      canResume := true;
      ok := true;
    }
  }

  // ----- the pool -----

  /** A block by arena and position. */
  datatype Place = Place(arena: nat, block: nat)

  /** The state of the pool as values: arenas never change once made, their blocks do.
      `overflow` are the coroutines made on further arenas and not returned yet. */
  datatype Pool = Pool(size: nat, stack: nat, arenas: seq<Memory>, blocks: seq<seq<bool>>,
                       cors: seq<Coroutine>, taken: seq<bool>, overflow: map<Place, Coroutine>)

  /** The arenas are distinct and apart. */
  ghost predicate Laid(p: Pool) {
    && |p.arenas| == |p.blocks| > 0
    && (forall j :: 0 <= j < |p.arenas| ==>
          p.arenas[j].blockSize == p.stack && p.arenas[j].blockCount == p.size == |p.blocks[j]|)
    && (forall i, j :: 0 <= i < j < |p.arenas| ==>
          p.arenas[i] != p.arenas[j] && Apart(p.arenas[i].Whole(), p.arenas[j].Whole()))
  }

  /** The pool's own coroutines sit on the blocks of the first arena, which stay taken. */
  ghost predicate Pooled(p: Pool) {
    && |p.arenas| > 0 && |p.blocks| > 0 && |p.cors| == |p.taken| == p.size
    && (forall i :: 0 <= i < p.size ==>
          p.cors[i].index == i && p.cors[i].Stack() == BlockOf(p.arenas[0].start, p.stack, i))
    && Full(p.blocks[0])
  }

  /** The taken blocks of all arenas but the first are those of the overflow coroutines. */
  ghost predicate Fits(p: Pool) {
    && |p.arenas| == |p.blocks|
    && (forall a :: a in p.overflow ==>
          && 1 <= a.arena < |p.arenas| && a.block < |p.blocks[a.arena]| && p.blocks[a.arena][a.block]
          && p.overflow[a].index == -1
          && p.overflow[a].Stack() == BlockOf(p.arenas[a.arena].start, p.stack, a.block))
    && (forall j, b :: 1 <= j < |p.arenas| && 0 <= b < |p.blocks[j]| && p.blocks[j][b] ==> Place(j, b) in p.overflow)
  }

  ghost predicate Good(p: Pool) {
    p.size > 0 && p.stack > 0 && Laid(p) && Pooled(p) && Fits(p)
  }

  /** The coroutines handed out and not returned. */
  ghost function Outstanding(p: Pool): set<Coroutine> {
    (set i | 0 <= i < |p.cors| && i < |p.taken| && p.taken[i] :: p.cors[i]) + p.overflow.Values
  }

  /** Every coroutine the pool knows: all pooled ones and the outstanding others. */
  ghost function Known(p: Pool): set<Coroutine> {
    (set i | 0 <= i < |p.cors| :: p.cors[i]) + p.overflow.Values
  }

  /** The first free block of the further arenas. */
  ghost predicate FirstPlace(p: Pool, a: Place) {
    && 1 <= a.arena < |p.blocks| && FirstFree(p.blocks[a.arena], a.block)
    && forall j :: 1 <= j < a.arena ==> Full(p.blocks[j])
  }

  /** No block is free in the further arenas. */
  ghost predicate NoFreeBlock(p: Pool) {
    forall j :: 1 <= j < |p.blocks| ==> Full(p.blocks[j])
  }

  function Take(p: Pool, i: nat): Pool
    requires i < |p.taken|
  {
    p.(taken := p.taken[i := true])
  }

  function PutBack(p: Pool, i: nat): Pool
    requires i < |p.taken|
  {
    p.(taken := p.taken[i := false])
  }

  function Occupy(p: Pool, a: Place, cor: Coroutine): Pool
    requires a.arena < |p.blocks| && a.block < |p.blocks[a.arena]|
  {
    p.(blocks := p.blocks[a.arena := p.blocks[a.arena][a.block := true]], overflow := p.overflow[a := cor])
  }

  function Vacate(p: Pool, a: Place): Pool
    requires a.arena < |p.blocks| && a.block < |p.blocks[a.arena]|
  {
    p.(blocks := p.blocks[a.arena := p.blocks[a.arena][a.block := false]], overflow := p.overflow - {a})
  }

  /** A new arena has only free blocks. */
  function Extend(p: Pool, arena: Memory): Pool {
    p.(arenas := p.arenas + [arena], blocks := p.blocks + [seq(p.size, _ => false)])
  }

  /** After the return of a coroutine: its block becomes free if it is an overflow coroutine. */
  ghost predicate Returned(p: Pool, cor: Coroutine, q: Pool)
    requires |p.taken| == p.size
  {
    if 0 <= cor.index < p.size then q == PutBack(p, cor.index)
    else exists a :: && a in p.overflow && p.overflow[a] == cor
                     && a.arena < |p.blocks| && a.block < |p.blocks[a.arena]| && q == Vacate(p, a)
  }

  lemma TakeGood(p: Pool, i: nat)
    requires Good(p) && i < p.size && !p.taken[i]
    ensures Good(Take(p, i)) && p.cors[i] !in Outstanding(p)
    ensures Outstanding(Take(p, i)) == Outstanding(p) + {p.cors[i]}
  {
    var q := Take(p, i);
    forall k | 0 <= k < p.size && p.cors[k] == p.cors[i]
      ensures k == i
    {
      assert p.cors[k].index == k && p.cors[i].index == i;
    }
    assert q.taken[i];
    assert forall k :: 0 <= k < p.size && k != i ==> q.taken[k] == p.taken[k];
  }

  lemma ValuesAdd<A, B>(m: map<A, B>, a: A, b: B)
    requires a !in m
    ensures m[a := b].Values == m.Values + {b}
  {
    assert m[a := b][a] == b;
    assert forall k :: k in m ==> m[a := b][k] == m[k];
  }

  lemma ValuesRemove<A, B>(m: map<A, B>, a: A)
    requires a in m && forall k :: k in m && m[k] == m[a] ==> k == a
    ensures (m - {a}).Values == m.Values - {m[a]}
  {
    assert forall k :: k in m && k != a ==> (m - {a})[k] == m[k];
  }

  lemma OccupyFits(p: Pool, a: Place, cor: Coroutine)
    requires Fits(p) && 1 <= a.arena < |p.blocks| && a.block < |p.blocks[a.arena]| && !p.blocks[a.arena][a.block]
    requires cor.index == -1 && cor.Stack() == BlockOf(p.arenas[a.arena].start, p.stack, a.block)
    ensures Fits(Occupy(p, a, cor)) && a !in p.overflow
  {
    hide BlockOf;
    var q := Occupy(p, a, cor);
    forall j, b | 1 <= j < |q.arenas| && 0 <= b < |q.blocks[j]| && q.blocks[j][b]
      ensures Place(j, b) in q.overflow
    {
      assert Place(j, b) == a || p.blocks[j][b];
    }
  }

  lemma OccupyLaid(p: Pool, a: Place, cor: Coroutine)
    requires Laid(p) && Pooled(p) && 1 <= a.arena < |p.blocks| && a.block < |p.blocks[a.arena]|
    ensures Laid(Occupy(p, a, cor)) && Pooled(Occupy(p, a, cor))
  {
    hide Full, BlockOf, Apart;
  }

  lemma OccupyGood(p: Pool, a: Place, cor: Coroutine)
    requires Good(p) && 1 <= a.arena < |p.blocks| && a.block < p.size && !p.blocks[a.arena][a.block]
    requires cor.index == -1 && cor.Stack() == BlockOf(p.arenas[a.arena].start, p.stack, a.block)
    ensures Good(Occupy(p, a, cor))
    ensures Outstanding(Occupy(p, a, cor)) == Outstanding(p) + {cor}
  {
    OccupyFits(p, a, cor);
    OccupyLaid(p, a, cor);
    hide Laid, Pooled, Fits, BlockOf;
    ValuesAdd(p.overflow, a, cor);
  }

  lemma ExtendGood(p: Pool, arena: Memory)
    requires Good(p) && arena !in p.arenas && arena.blockSize == p.stack && arena.blockCount == p.size
    requires forall j :: 0 <= j < |p.arenas| ==> Apart(p.arenas[j].Whole(), arena.Whole())
    ensures Good(Extend(p, arena)) && Outstanding(Extend(p, arena)) == Outstanding(p)
  {
    hide Full, BlockOf, Apart;
    var q := Extend(p, arena);
    assert forall j :: 0 <= j < |p.arenas| ==> q.arenas[j] == p.arenas[j] && q.blocks[j] == p.blocks[j];
    assert Laid(q) && Pooled(q);
    assert Fits(q);
  }

  /** An overflow coroutine is neither pooled nor kept at two places. */
  lemma OverflowApart(p: Pool, a: Place)
    requires Good(p) && a in p.overflow
    ensures forall i :: 0 <= i < p.size ==> p.cors[i] != p.overflow[a]
    ensures forall b :: b in p.overflow && p.overflow[b] == p.overflow[a] ==> b == a
  {
    assert forall i :: 0 <= i < p.size ==> p.cors[i].index == i;
    forall b | b in p.overflow && p.overflow[b] == p.overflow[a]
      ensures b == a
    {
      if b != a {
        PlacesApart(p, a, b);
      }
    }
  }

  /** Different blocks, of the same arena or of two, do not overlap. */
  lemma PlacesApart(p: Pool, a: Place, b: Place)
    requires Laid(p) && p.stack > 0 && a != b
    requires a.arena < |p.arenas| && a.block < p.size && b.arena < |p.arenas| && b.block < p.size
    ensures Apart(BlockOf(p.arenas[a.arena].start, p.stack, a.block),
                  BlockOf(p.arenas[b.arena].start, p.stack, b.block))
  {
    var s, t := p.arenas[a.arena], p.arenas[b.arena];
    if a.arena == b.arena {
      BlocksApart(s.start, p.stack, a.block, b.block);
    } else {
      BlockInside(s.start, p.stack, p.size, a.block);
      BlockInside(t.start, p.stack, p.size, b.block);
      assert Apart(s.Whole(), t.Whole());
    }
  }

  ghost predicate At(p: Pool, cor: Coroutine, a: Place) {
    && a.arena < |p.arenas| && a.block < p.size
    && cor.Stack() == BlockOf(p.arenas[a.arena].start, p.stack, a.block)
  }

  /** Where a known coroutine's stack is; two coroutines are never at the same place. */
  ghost function Where(p: Pool, cor: Coroutine): (a: Place)
    requires Good(p) && cor in Known(p)
    ensures At(p, cor, a)
    ensures if a.arena == 0 then p.cors[a.block] == cor else a in p.overflow && p.overflow[a] == cor
  {
    if exists i :: 0 <= i < |p.cors| && p.cors[i] == cor then
      var i :| 0 <= i < |p.cors| && p.cors[i] == cor;
      Place(0, i)
    else
      var a :| a in p.overflow && p.overflow[a] == cor;
      a
  }

  /** No two coroutines share any byte of stack: not among those handed out, nor with the
      pooled ones that were returned while still running. */
  lemma StacksApart(p: Pool, c: Coroutine, d: Coroutine)
    requires Good(p) && c in Known(p) && d in Known(p) && c != d
    ensures Apart(c.Stack(), d.Stack())
  {
    PlacesApart(p, Where(p, c), Where(p, d));
  }

  /** A coroutine made on a free block is not one of those already known. */
  lemma Newcomer(p: Pool, a: Place, cor: Coroutine)
    requires Good(p) && 1 <= a.arena < |p.blocks| && a.block < p.size && !p.blocks[a.arena][a.block]
    requires cor.Stack() == BlockOf(p.arenas[a.arena].start, p.stack, a.block)
    ensures cor !in Known(p)
  {
    if cor in Known(p) {
      var b := Where(p, cor);
      if b != a {
        PlacesApart(p, a, b);
      }
      assert false;
    }
  }

  lemma OutstandingKnown(p: Pool)
    ensures Outstanding(p) <= Known(p)
  {
  }

  lemma PutBackGood(p: Pool, i: nat)
    requires Good(p) && i < p.size && p.taken[i]
    ensures Good(PutBack(p, i)) && Outstanding(PutBack(p, i)) == Outstanding(p) - {p.cors[i]}
  {
    var q := PutBack(p, i);
    assert forall k :: 0 <= k < p.size ==> p.cors[k].index == k;
    assert forall k :: 0 <= k < p.size && k != i ==> q.taken[k] == p.taken[k];
    forall a | a in p.overflow
      ensures p.overflow[a] != p.cors[i]
    {
      OverflowApart(p, a);
    }
  }

  lemma VacateGood(p: Pool, a: Place)
    requires Good(p) && a in p.overflow
    ensures Good(Vacate(p, a)) && Outstanding(Vacate(p, a)) == Outstanding(p) - {p.overflow[a]}
  {
    hide Full, BlockOf, Apart;
    var q := Vacate(p, a);
    OverflowApart(p, a);
    ValuesRemove(p.overflow, a);
    assert Laid(q) && Pooled(q);
    assert Fits(q);
  }

  /** A free block that the pool can still hand out covers the stack. */
  ghost predicate Exposed(p: Pool, cor: Coroutine) {
    exists a: Place :: && 1 <= a.arena < |p.blocks| && a.arena < |p.arenas| && a.block < |p.blocks[a.arena]|
                       && !p.blocks[a.arena][a.block]
                       && !Apart(BlockOf(p.arenas[a.arena].start, p.stack, a.block), cor.Stack())
  }

  /** The stack of a returned coroutine, running or not, is up for the next one exactly if the
      coroutine was not a pooled one; a pooled coroutine stays known. */
  lemma ReturnExposes(p: Pool, cor: Coroutine, q: Pool)
    requires Good(p) && cor in Outstanding(p) && Returned(p, cor, q)
    ensures Good(q) && Outstanding(q) == Outstanding(p) - {cor}
    ensures Exposed(q, cor) <==> cor.index == -1
    ensures cor in Known(q) <==> cor.index != -1
  {
    ReturnPlace(p, cor);
    hide Good, Outstanding, Known, Exposed, PutBack, Vacate;
    if 0 <= cor.index < p.size {
      PutBackGood(p, cor.index);
      PutBackKnown(p, cor.index);
      KnownNotExposed(q, cor);
    } else {
      var a :| a in p.overflow && p.overflow[a] == cor && q == Vacate(p, a);
      VacateGood(p, a);
      VacateExposes(p, a);
    }
  }

  lemma PutBackKnown(p: Pool, i: nat)
    requires Good(p) && i < p.size
    ensures p.cors[i] in Known(PutBack(p, i)) && p.cors[i].index == i
  {
  }

  lemma VacateExposes(p: Pool, a: Place)
    requires Good(p) && a in p.overflow
    ensures Exposed(Vacate(p, a), p.overflow[a]) && p.overflow[a].index == -1 && p.overflow[a] !in Known(Vacate(p, a))
  {
    var q := Vacate(p, a);
    VacateGood(p, a);
    Newcomer(q, a, p.overflow[a]);
    hide Good, Known;
    assert !q.blocks[a.arena][a.block] && p.stack > 0;
  }

  /** No free block covers the stack of a coroutine the pool knows. */
  lemma KnownNotExposed(p: Pool, cor: Coroutine)
    requires Good(p) && cor in Known(p)
    ensures !Exposed(p, cor)
  {
    var b := Where(p, cor);
    forall a: Place | 1 <= a.arena < |p.blocks| && a.block < p.size && !p.blocks[a.arena][a.block]
      ensures Apart(BlockOf(p.arenas[a.arena].start, p.stack, a.block), cor.Stack())
    {
      PlacesApart(p, a, b);
    }
  }

  /** A pooled coroutine, returned while still running, keeps its stack to itself in every later
      state of the pool: all coroutines handed out then are apart from it. */
  lemma PooledKept(p: Pool, cor: Coroutine, later: Pool, other: Coroutine)
    requires Good(p) && cor in Known(p) && cor.index != -1
    requires Good(later) && later.cors == p.cors && other in Outstanding(later) && other != cor
    ensures Apart(cor.Stack(), other.Stack())
  {
    assert forall a :: a in p.overflow ==> p.overflow[a].index == -1;
    assert cor in p.cors;
    StacksApart(later, cor, other);
  }

  /** An overflow coroutine's stack starts in its own arena and in no other. */
  lemma HomeArena(p: Pool, a: Place, j: nat)
    requires Good(p) && a in p.overflow && j < |p.arenas|
    ensures p.arenas[j].HasBlock(p.overflow[a].stackPtr) <==> j == a.arena
    ensures (p.overflow[a].stackPtr - p.arenas[a.arena].start) / p.stack == a.block
  {
    var home, s := p.arenas[a.arena], p.overflow[a].stackPtr;
    assert p.overflow[a].Stack() == BlockOf(home.start, p.stack, a.block);
    BlockInside(home.start, p.stack, p.size, a.block);
    BlockIndex(s - home.start, p.stack, a.block);
    if j != a.arena {
      assert Apart(home.Whole(), p.arenas[j].Whole());
    }
  }

  // ----- how many coroutines the pool can hand out before it must grow -----

  function Holes(blocks: seq<bool>): nat {
    |blocks| - Count(blocks)
  }

  function Vacancies(rows: seq<seq<bool>>): nat {
    if rows == [] then 0 else Vacancies(rows[..|rows| - 1]) + Holes(rows[|rows| - 1])
  }

  lemma {:induction false} VacanciesUpdate(rows: seq<seq<bool>>, j: nat, row: seq<bool>)
    requires j < |rows|
    ensures Vacancies(rows[j := row]) == Vacancies(rows) - Holes(rows[j]) + Holes(row)
  {
    var n := |rows| - 1;
    if j == n {
      assert rows[j := row][..n] == rows[..n];
    } else {
      assert rows[j := row][..n] == rows[..n][j := row];
      VacanciesUpdate(rows[..n], j, row);
    }
  }

  function Room(p: Pool): nat {
    Holes(p.taken) + Vacancies(p.blocks)
  }

  lemma TakeRoom(p: Pool, i: nat)
    requires i < |p.taken| && !p.taken[i]
    ensures Room(Take(p, i)) < Room(p)
  {
    CountUpdate(p.taken, i, true);
  }

  /** The block at `a` is free. */
  ghost predicate FreeAt(p: Pool, a: Place) {
    1 <= a.arena < |p.blocks| && a.block < |p.blocks[a.arena]| && !p.blocks[a.arena][a.block]
  }

  lemma OccupyRoom(p: Pool, a: Place, cor: Coroutine)
    requires FreeAt(p, a)
    ensures Room(Occupy(p, a, cor)) < Room(p)
  {
    CountUpdate(p.blocks[a.arena], a.block, true);
    VacanciesUpdate(p.blocks, a.arena, p.blocks[a.arena][a.block := true]);
  }

  lemma FirstPlaceUnique(p: Pool, a: Place, b: Place)
    requires FirstPlace(p, a) && FirstPlace(p, b)
    ensures a == b
  {
    assert a.arena == b.arena;
  }

  lemma StillRoom(p: Pool, a: Place)
    requires FreeAt(p, a)
    ensures !NoFreeBlock(p)
    ensures forall b: Place :: FirstPlace(p, b) ==> b.arena > 0 && FreeAt(p, b)
  {
  }

  lemma FirstIsFree(p: Pool, a: Place)
    requires FirstPlace(p, a)
    ensures FreeAt(p, a) && !NoFreeBlock(p)
  {
  }

  lemma TakeFree(p: Pool, a: Place, i: nat)
    requires FreeAt(p, a) && i < |p.taken|
    ensures FreeAt(Take(p, i), a)
  {
  }

  /** It stays free until it is the first one. */
  lemma StillFree(p: Pool, a: Place, b: Place, cor: Coroutine)
    requires FreeAt(p, a) && FreeAt(p, b)
    ensures if b == a then a in Occupy(p, b, cor).overflow && Occupy(p, b, cor).overflow[a] == cor
            else FreeAt(Occupy(p, b, cor), a)
  {
  }

  lemma PooledIndex(p: Pool)
    requires Good(p)
    ensures forall i :: 0 <= i < |p.cors| ==> p.cors[i].index != -1
  {
  }

  /** Whoever has a stack on the block of `a` is the overflow coroutine there. */
  lemma SameBlock(p: Pool, a: Place, q: Pool, next: Coroutine)
    requires Good(p) && Good(q) && q.arenas == p.arenas && q.stack == p.stack && q.size == p.size
    requires a in p.overflow && next in Outstanding(q)
    ensures next.stackPtr == p.overflow[a].stackPtr ==> next.Stack() == p.overflow[a].Stack() && next.index == -1
    ensures a in q.overflow && q.overflow[a] == next ==> next.stackPtr == p.overflow[a].stackPtr
  {
    OutstandingKnown(q);
    var w := Where(q, next);
    if w != a {
      PlacesApart(q, w, a);
    }
  }

  class CoroutinePool {
    const poolSize: nat
    const stackSize: nat
    const heap: Heap
    var freeCors: seq<Coroutine>
    var taken: seq<bool>
    var memoryPool: seq<Memory>
    ghost var blocks: seq<seq<bool>>
    ghost var overflow: map<Place, Coroutine>

    ghost function Abs(): Pool
      reads this
    {
      Pool(poolSize, stackSize, memoryPool, blocks, freeCors, taken, overflow)
    }

    /** Every arena's count is right, and `blocks` shows their real blocks. */
    ghost predicate Linked()
      reads `memoryPool, `blocks, heap, memoryPool
    {
      && heap.Valid()
      && |blocks| == |memoryPool|
      && forall j :: 0 <= j < |memoryPool| ==>
           memoryPool[j].Valid() && memoryPool[j].blocks == blocks[j] && memoryPool[j].Whole() in heap.used
    }

    ghost predicate Valid()
      reads this, heap, memoryPool
    {
      Linked() && Good(Abs())
    }

    /** No coroutine of the pool can be handed out. */
    ghost predicate PoolBusy()
      reads this, freeCors
    {
      forall i :: 0 <= i < |freeCors| && i < |taken| ==> taken[i] || freeCors[i].inCoFunction
    }

    constructor (heap: Heap, poolSize: nat, stackSize: nat)
      requires poolSize > 0 && stackSize > 0 && heap.Valid()
      modifies heap
      ensures Valid() && this.poolSize == poolSize && this.stackSize == stackSize && this.heap == heap
      ensures Outstanding(Abs()) == {} && |memoryPool| == 1
      ensures fresh(memoryPool) && fresh(freeCors)
    {
      this.heap, this.poolSize, this.stackSize := heap, poolSize, stackSize;
      var arena := new Memory(heap, stackSize, poolSize);
      memoryPool := [arena];
      freeCors, taken, overflow, blocks := [], [], map[], [arena.blocks];
      new;
      hide Count;
      for i := 0 to poolSize
        invariant Linked() && memoryPool == [arena] && memoryPool[0] == arena && fresh(arena) && overflow == map[]
        invariant |freeCors| == |taken| == i && fresh(freeCors)
        invariant forall k :: 0 <= k < i ==>
                    arena.blocks[k] && !taken[k] && freeCors[k].index == k
                    && freeCors[k].Stack() == BlockOf(arena.start, stackSize, k)
        invariant forall k :: i <= k < poolSize ==> !arena.blocks[k]
      {
        assert !arena.blocks[i];
        var p, t := arena.GetBlock();
        assert t == i;
        blocks := [arena.blocks];
        var cor := new Coroutine(stackSize, p.value, i);
        freeCors, taken := freeCors + [cor], taken + [false];
      }
    }

    /** The first loop: the first coroutine of the pool that is neither taken nor running. */
    method TakePooled() returns (cor: Option<Coroutine>, i: nat)
      requires Valid()
      modifies this`taken
      ensures Valid() && (cor.None? <==> old(PoolBusy()))
      ensures cor.None? ==> Abs() == old(Abs())
      ensures cor.Some? ==>
                && i < poolSize && cor.value == freeCors[i] && !old(taken)[i] && !cor.value.inCoFunction
                && (forall j :: 0 <= j < i ==> old(taken)[j] || freeCors[j].inCoFunction)
                && Abs() == Take(old(Abs()), i) && i < |old(taken)| && poolSize > 0
    {
      i := 0;
      while i < poolSize
        invariant i <= poolSize
        invariant forall j :: 0 <= j < i ==> taken[j] || freeCors[j].inCoFunction
      {
        if !freeCors[i].inCoFunction && !taken[i] {
          TakeGood(Abs(), i);
          hide Good;
          taken := taken[i := true];
          return Some(freeCors[i]), i;
        }
        i := i + 1;
      }
      cor := None;
    }

    /** `getBlock` at arena `j`. */
    method MarkBlock(j: nat) returns (p: Option<int>, ghost t: nat)
      requires Linked() && Laid(Abs()) && 1 <= j < |memoryPool|
      modifies this`blocks, memoryPool[j]
      ensures Linked() && (p.None? <==> Full(old(blocks)[j]))
      ensures p.None? ==> blocks == old(blocks)
      ensures p.Some? ==> && t < poolSize && FirstFree(old(blocks)[j], t)
                          && p.value == BlockOf(memoryPool[j].start, stackSize, t).start
                          && blocks == old(blocks)[j := old(blocks)[j][t := true]]
    {
      var arena := memoryPool[j];
      assert forall k :: 0 <= k < |memoryPool| && k != j ==> memoryPool[k] != arena;
      assert arena.blockCount == poolSize == |blocks[j]| && arena.blockSize == stackSize;
      hide Laid, BlockOf, Count, Full, FirstFree;
      p, t := arena.GetBlock();
      blocks := blocks[j := arena.blocks];
    }

    /** A coroutine on the first free block of arena `j`. */
    method OccupyArena(j: nat) returns (cor: Option<Coroutine>, ghost t: nat)
      requires Valid() && 1 <= j < |memoryPool|
      modifies this`overflow, this`blocks, memoryPool[j]
      ensures Valid() && (cor.None? <==> Full(old(blocks)[j]))
      ensures cor.None? ==> Abs() == old(Abs())
      ensures cor.Some? ==>
                && fresh(cor.value) && !cor.value.inCoFunction
                && FirstFree(old(blocks)[j], t)
                && Abs() == Occupy(old(Abs()), Place(j, t), cor.value)
                && cor.value !in old(Outstanding(Abs()))
                && Outstanding(Abs()) == old(Outstanding(Abs())) + {cor.value}
    {
      ghost var before := Abs();
      assert |memoryPool| == |blocks| && |blocks[j]| == poolSize;
      hide Linked, Laid, Pooled, Fits, BlockOf, Full, Outstanding, Known;
      var p;
      p, t := MarkBlock(j);
      if p.None? {
        return None, t;
      }
      var made := new Coroutine(stackSize, p.value, -1);
      OccupyGood(before, Place(j, t), made);
      Newcomer(before, Place(j, t), made);
      OutstandingKnown(before);
      overflow := overflow[Place(j, t) := made];
      cor := Some(made);
    }

    /** The second loop: the first free block of a further arena. */
    method TakeBlock() returns (cor: Option<Coroutine>, ghost a: Place)
      requires Valid()
      modifies this`overflow, this`blocks, memoryPool
      ensures Valid() && (cor.None? <==> NoFreeBlock(old(Abs())))
      ensures cor.None? ==> Abs() == old(Abs())
      ensures cor.Some? ==>
                && fresh(cor.value) && !cor.value.inCoFunction
                && FirstPlace(old(Abs()), a) && Abs() == Occupy(old(Abs()), a, cor.value)
                && cor.value !in old(Outstanding(Abs()))
                && Outstanding(Abs()) == old(Outstanding(Abs())) + {cor.value}
    {
      assert |memoryPool| == |blocks| > 0;
      hide Good, Outstanding, Linked, Full, Occupy;
      var j := 1;
      while j < |memoryPool|
        invariant Valid() && 1 <= j <= |memoryPool| == |blocks| && Abs() == old(Abs())
        invariant forall k :: 1 <= k < j ==> Full(blocks[k])
      {
        ghost var t;
        cor, t := OccupyArena(j);
        if cor.Some? {
          a := Place(j, t);
          return;
        }
        j := j + 1;
      }
      cor, a := None, Place(0, 0);
    }

    /** `m_memory_pool.push_back`. */
    method AddArena()
      requires Valid()
      modifies this`memoryPool, this`blocks, heap
      ensures Valid() && |memoryPool| == |old(memoryPool)| + 1 > 1
      ensures fresh(memoryPool[|memoryPool| - 1]) && Abs() == Extend(old(Abs()), memoryPool[|memoryPool| - 1])
      ensures Outstanding(Abs()) == old(Outstanding(Abs()))
      ensures |blocks| == |memoryPool| && FirstFree(blocks[|memoryPool| - 1], 0) && !Full(blocks[|memoryPool| - 1])
    {
      ghost var before := Abs();
      var arena := new Memory(heap, stackSize, poolSize);
      ExtendGood(before, arena);
      assert |before.arenas| > 0 && !arena.blocks[0] && arena.blocks == seq(poolSize, _ => false);
      hide Good, Outstanding, Count, Apart;
      memoryPool := memoryPool + [arena];
      blocks := blocks + [arena.blocks];
      assert Abs() == Extend(before, arena);
    }

    /** The pool's coroutines are preferred, lowest first; then comes the first free block of the
        further arenas; an arena is added only when there is none, and its first block is used. */
    method GetCoroutineInstanse() returns (cor: Coroutine, ghost a: Place)
      requires Valid()
      modifies this`taken, this`memoryPool, this`blocks, this`overflow, heap, memoryPool
      ensures Valid() && !cor.inCoFunction
      ensures cor !in old(Outstanding(Abs())) && Outstanding(Abs()) == old(Outstanding(Abs())) + {cor}
      ensures !old(PoolBusy()) ==>
                && a.arena == 0 && a.block < poolSize == |old(taken)|
                && cor == freeCors[a.block] && !old(taken)[a.block]
                && (forall j :: 0 <= j < a.block ==> old(taken)[j] || freeCors[j].inCoFunction)
                && Abs() == Take(old(Abs()), a.block)
      ensures old(PoolBusy()) && !NoFreeBlock(old(Abs())) ==>
                fresh(cor) && FirstPlace(old(Abs()), a) && Abs() == Occupy(old(Abs()), a, cor)
      ensures old(PoolBusy()) && NoFreeBlock(old(Abs())) ==>
                && fresh(cor) && a == Place(|old(memoryPool)|, 0) && |memoryPool| == |blocks| == |old(memoryPool)| + 1
                && a.arena == |old(blocks)| && poolSize > 0
                && Abs() == Occupy(Extend(old(Abs()), memoryPool[a.arena]), a, cor)
    {
      assert |taken| == poolSize > 0 && |memoryPool| == |blocks|;
      hide Good, Linked, Outstanding, Occupy, Take;
      var reused, i := TakePooled();
      if reused.Some? {
        TakeGood(old(Abs()), i);
        return reused.value, Place(0, i);
      }
      hide Full;
      var made;
      made, a := TakeBlock();
      if made.Some? {
        return made.value, a;
      }
      AddArena();
      ghost var t;
      made, t := OccupyArena(|memoryPool| - 1);
      cor, a := made.value, Place(|memoryPool| - 1, t);
    }

    /** `hasBlock` and `backBlock` at arena `j`. */
    method FreeBlock(j: nat, s: int)
      requires Linked() && Laid(Abs()) && 1 <= j < |memoryPool| && stackSize > 0
      requires memoryPool[j].HasBlock(s) ==>
                 var k := (s - memoryPool[j].start) / stackSize; 0 <= k < poolSize && blocks[j][k]
      modifies this`blocks, memoryPool[j]
      ensures Linked()
      ensures blocks == if memoryPool[j].HasBlock(s)
                        then old(blocks)[j := old(blocks)[j][(s - memoryPool[j].start) / stackSize := false]]
                        else old(blocks)
    {
      var arena := memoryPool[j];
      assert forall k :: 0 <= k < |memoryPool| && k != j ==> memoryPool[k] != arena;
      assert arena.blockCount == poolSize == |blocks[j]| && arena.blockSize == stackSize;
      hide Laid, BlockOf, Count;
      if arena.HasBlock(s) {
        arena.BackBlock(s);
        blocks := blocks[j := arena.blocks];
      }
    }

    /** The blocks once the loop has passed the arenas before `j`. */
    static ghost function Passed(before: Pool, a: Place, j: nat): seq<seq<bool>>
      requires a.arena < |before.blocks| && a.block < |before.blocks[a.arena]|
    {
      if j <= a.arena then before.blocks else Vacate(before, a).blocks
    }

    /** One arena of the loop: only the coroutine's own has its block. */
    method FreeAtArena(j: nat, cor: Coroutine, ghost before: Pool, ghost a: Place)
      requires Linked() && Good(before) && a in before.overflow && before.overflow[a] == cor
      requires Abs() == before.(blocks := Passed(before, a, j)) && 1 <= j < |memoryPool|
      modifies this`blocks, memoryPool[j]
      ensures Linked() && Abs() == before.(blocks := Passed(before, a, j + 1))
    {
      HomeArena(before, a, j);
      assert 1 <= a.arena < |before.blocks| && before.blocks[a.arena][a.block] && a.block < poolSize;
      VacateLaid(before, a, Abs());
      hide Linked, Laid, Pooled, Fits, Memory.HasBlock;
      FreeBlock(j, cor.stackPtr);
    }

    /** The loop of `returnCoroutine` over the further arenas. */
    method FreeEverywhere(cor: Coroutine, ghost before: Pool, ghost a: Place)
      requires Linked() && Good(before) && Abs() == before && a in overflow && overflow[a] == cor
      modifies this`blocks, memoryPool
      ensures Linked() && Abs() == before.(blocks := Passed(before, a, |memoryPool|))
    {
      assert |memoryPool| > 0;
      hide *;
      StillThere(before, a);
      var j := 1;
      while j < |memoryPool|
        invariant 1 <= j <= |memoryPool| && Linked() && Abs() == before.(blocks := Passed(before, a, j))
      {
        FreeAtArena(j, cor, before, a);
        j := j + 1;
      }
    }

    method FreeStack(cor: Coroutine, ghost a: Place)
      requires Valid() && a in overflow && overflow[a] == cor
      modifies this`blocks, this`overflow, memoryPool
      ensures Valid() && Abs() == Vacate(old(Abs()), a)
    {
      ghost var before := Abs();
      VacateGood(before, a);
      StillThere(before, a);
      hide Linked, Good, Outstanding, Passed, Laid, Pooled, Fits, Heap.Valid, Memory.Valid;
      assert |memoryPool| == |before.arenas|;
      FreeEverywhere(cor, before, a);
      overflow := overflow - {a};
      assert Abs() == Vacate(before, a);
    }

    static lemma StillThere(p: Pool, a: Place)
      requires Good(p) && a in p.overflow
      ensures 1 <= a.arena < |p.blocks| && a.block < |p.blocks[a.arena]| && Passed(p, a, 1) == p.blocks
      ensures |p.blocks| == |p.arenas| && Passed(p, a, |p.arenas|) == Vacate(p, a).blocks
    {
    }

    method ReturnCoroutine(cor: Coroutine)
      requires Valid() && cor in Outstanding(Abs())
      modifies this`taken, this`blocks, this`overflow, memoryPool
      ensures Valid() && |old(taken)| == poolSize && Returned(old(Abs()), cor, Abs())
      ensures Outstanding(Abs()) == old(Outstanding(Abs())) - {cor}
    {
      var i := cor.index;
      ReturnPlace(Abs(), cor);
      hide Good, Linked, Outstanding;
      if 0 <= i < poolSize {
        PutBackGood(Abs(), i);
        taken := taken[i := false];
      } else {
        ghost var a :| a in overflow && overflow[a] == cor;
        VacateGood(Abs(), a);
        FreeStack(cor, a);
      }
    }

    /** The return of an overflow coroutine, running or not, frees its block. */
    method ReturnOverflow(cor: Coroutine, ghost a: Place)
      requires Valid() && a in overflow && overflow[a] == cor
      modifies this`taken, this`blocks, this`overflow, memoryPool
      ensures Valid() && FreeAt(Abs(), a) && |old(taken)| == poolSize && taken == old(taken)
      ensures a.arena < |old(blocks)| && a.block < |old(blocks)[a.arena]| && Abs() == Vacate(old(Abs()), a)
      ensures Outstanding(Abs()) == old(Outstanding(Abs())) - {cor}
    {
      ghost var before := Abs();
      ReturnPlace(before, cor);
      VacateGood(before, a);
      OverflowApart(before, a);
      assert cor.index == -1 && FreeAt(Vacate(before, a), a) && cor in Outstanding(before);
      hide Good, Linked, Outstanding, Vacate, FreeAt;
      ReturnCoroutine(cor);
    }

    /** With the pool busy and no free block before its own, the very next coroutine gets the stack
        of a returned overflow coroutine, which may still be running. */
    method LoseStackAtOnce(cor: Coroutine, ghost a: Place) returns (next: Coroutine)
      requires Valid() && PoolBusy() && a in overflow && overflow[a] == cor
      requires a.arena < |blocks| && a.block < |blocks[a.arena]| && FirstPlace(Vacate(Abs(), a), a)
      modifies this`taken, this`memoryPool, this`blocks, this`overflow, heap, memoryPool
      ensures Valid() && fresh(next) && next.Stack() == cor.Stack()
      ensures Outstanding(Abs()) == old(Outstanding(Abs())) - {cor} + {next}
    {
      hide Good, Linked, Outstanding, Take, FirstPlace, NoFreeBlock, FreeAt;
      ghost var before := Abs();
      ReturnOverflow(cor, a);
      ghost var now, b := Abs(), Place(0, 0);
      FirstIsFree(now, a);
      next, b := GetCoroutineInstanse();
      FirstPlaceUnique(now, a, b);
      StillFree(now, a, a, next);
      SameBlock(before, a, Abs(), next);
    }

    /** One coroutine more, while the block at `a`, once that of an overflow coroutine, is free:
        either it gets that block, or there is less room in front of it. */
    method TakeTowards(ghost before: Pool, ghost a: Place) returns (next: Coroutine)
      requires Valid() && FreeAt(Abs(), a) && Good(before) && a in before.overflow
      requires memoryPool == before.arenas && stackSize == before.stack && poolSize == before.size
      modifies this`taken, this`memoryPool, this`blocks, this`overflow, heap, memoryPool
      ensures Valid() && memoryPool == old(memoryPool) && next in Outstanding(Abs())
      ensures if next.stackPtr == before.overflow[a].stackPtr
              then fresh(next) && next.Stack() == before.overflow[a].Stack()
              else FreeAt(Abs(), a) && Room(Abs()) < old(Room(Abs()))
    {
      ghost var now := Abs();
      PooledIndex(now);
      hide *;
      StillRoom(now, a);
      ghost var b;
      next, b := GetCoroutineInstanse();
      SameBlock(before, a, Abs(), next);
      if b.arena == 0 {
        TakeRoom(now, b.block);
        TakeFree(now, a, b.block);
      } else {
        OccupyRoom(now, b, next);
        StillFree(now, a, b, next);
      }
    }

    /** As long as coroutines are taken, one of them will get that stack. */
    method LoseStack(cor: Coroutine, ghost a: Place) returns (next: Coroutine)
      requires Valid() && a in overflow && overflow[a] == cor
      modifies this`taken, this`memoryPool, this`blocks, this`overflow, heap, memoryPool
      ensures Valid() && fresh(next) && next in Outstanding(Abs()) && next.Stack() == cor.Stack()
    {
      hide Good, Linked, Outstanding, Vacate, FreeAt, Room;
      ghost var before := Abs();
      ReturnOverflow(cor, a);
      while true
        invariant Valid() && FreeAt(Abs(), a) && memoryPool == old(memoryPool)
        decreases Room(Abs())
      {
        next := TakeTowards(before, a);
        if next.stackPtr == cor.stackPtr {
          return;
        }
      }
    }
  }

  lemma VacateLaid(p: Pool, a: Place, q: Pool)
    requires Laid(p) && a.arena < |p.blocks| && a.block < |p.blocks[a.arena]|
    requires q.arenas == p.arenas && q.size == p.size && q.stack == p.stack
    requires q.blocks == p.blocks || q.blocks == Vacate(p, a).blocks
    ensures Laid(q)
  {
  }

  /** The index tells the pooled coroutines from the others. */
  lemma ReturnPlace(p: Pool, cor: Coroutine)
    requires Good(p) && cor in Outstanding(p)
    ensures |p.taken| == p.size
    ensures 0 <= cor.index < p.size ==> p.cors[cor.index] == cor && p.taken[cor.index]
    ensures !(0 <= cor.index < p.size) ==> exists a :: a in p.overflow && p.overflow[a] == cor
  {
  }
}
