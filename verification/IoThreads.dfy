/** How work is spread over the I/O threads: new connections in turn, coroutines at random
    but not to the thread that hands them over. */
module IoThreads {

  /** The thread of the `k`-th connection. */
  function Turn(size: nat, k: nat): (i: nat)
    requires size > 0
    ensures i < size
  {
    if k == 0 then 0 else if Turn(size, k - 1) + 1 == size then 0 else Turn(size, k - 1) + 1
  }

  /** A thread drawn for a coroutine, other than `own` if there is another: a draw of `own` moves on
      by one, or back by one from the end. */
  function PickThread(draw: nat, own: nat, size: nat): (i: nat)
    requires draw < size
    ensures i < size && (size > 1 ==> i != own) && (draw != own ==> i == draw)
    ensures draw == own ==> own - 1 <= i <= own + 1 && (i < own ==> own + 1 == size)
  {
    if size == 1 || draw != own then draw else if draw + 1 == size then draw - 1 else draw + 1
  }

  class IOThreadPool {
    const size: nat
    var index: int
    ghost var picks: nat

    ghost predicate Valid()
      reads this
    {
      size > 0 && index == if picks == 0 then -1 else Turn(size, picks - 1) + 1
    }

    constructor (size: nat)
      requires size > 0
      ensures Valid() && this.size == size && picks == 0
    {
      this.size, index, picks := size, -1, 0;
    }

    method GetIOThread() returns (i: nat)
      requires Valid()
      modifies this
      ensures Valid() && picks == old(picks) + 1 && i == Turn(size, old(picks))
    {
      if index == size || index == -1 {
        index := 0;
      }
      i := index;
      index := index + 1;
      picks := picks + 1;
    }

    /** The thread that `addCoroutineToRandomThread` chooses; `random` is what `rand` gives and
        `current` the calling thread. */
    method PickOther(random: nat, current: nat, self: bool) returns (i: nat)
      requires size > 0
      ensures i == if self then random % size else PickThread(random % size, current, size)
    {
      if size == 1 {
        return 0;
      }
      i := random % size;
      if !self && i == current {
        i := i + 1;
        if i == size {
          i := i - 2;
        }
      }
    }
  }

  lemma {:induction false} TurnAhead(size: nat, k: nat, d: nat)
    requires size > 0 && d <= size
    ensures Turn(size, k + d) == if Turn(size, k) + d < size then Turn(size, k) + d else Turn(size, k) + d - size
  {
    if d > 0 {
      TurnAhead(size, k, d - 1);
    }
  }

  /** Among any `size` connections in a row, each thread gets exactly one. */
  lemma FairTurns(size: nat, k: nat, thread: nat)
    requires thread < size
    ensures exists i :: k <= i < k + size && Turn(size, i) == thread
    ensures forall i, j :: k <= i < j < k + size ==> Turn(size, i) != Turn(size, j)
  {
    var first := Turn(size, k);
    var d := if thread >= first then thread - first else thread + size - first;
    TurnAhead(size, k, d);
    assert Turn(size, k + d) == thread;
    forall i, j | k <= i < j < k + size
      ensures Turn(size, i) != Turn(size, j)
    {
      TurnAhead(size, k, i - k);
      TurnAhead(size, k, j - k);
    }
  }
}
