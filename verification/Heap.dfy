/**
 `_sbrk`: a bump allocator over the memory between the linker symbol `_end` and the
 stack reserve, whose break pointer is initialised whenever a call finds it null.
 Addresses are mathematical integers; the null pointer is address 0.
 */
module Heap {

  /** Linker symbols: end of static data, end of RAM, size of the stack reserve. */
  datatype Linker = Linker(end: int, estack: int, minStackSize: int) {
    /** The first address the heap must not cross. */
    function MaxHeap(): int {
      estack - minStackSize
    }

    /** The symbols of a usable memory map: static data does not start at null, the heap fits below the reserve. */
    predicate Sane() {
      0 < end <= estack - minStackSize
    }
  }

  /** A successful call returns the old break; failure is reported as (void*)-1 with ENOMEM. */
  datatype Outcome = Block(start: int) | NoMemory

  const NULL := 0

  /** The break a call starts from: the first call, and any later one that finds null, begins at `_end`. */
  function Base(l: Linker, brk: int): int {
    if brk == NULL then l.end else brk
  }

  /** One call: the new break and the outcome. */
  function Step(l: Linker, brk: int, incr: int): (int, Outcome) {
    var b := Base(l, brk);
    if b + incr > l.MaxHeap() then (b, NoMemory) else (b + incr, Block(b))
  }

  class Allocator {
    const linker: Linker
    var heapEnd: int
    var enomem: bool

    constructor (linker: Linker)
      ensures this.linker == linker && heapEnd == NULL && !enomem
    {
      this.linker := linker;
      heapEnd, enomem := NULL, false;
    }

    method Sbrk(incr: int) returns (r: Outcome)
      modifies this
      ensures (heapEnd, r) == Step(linker, old(heapEnd), incr)
      ensures var start := if old(heapEnd) == 0 then linker.end else old(heapEnd);
              && (r.NoMemory? <==> start + incr > linker.estack - linker.minStackSize)
              && (r.NoMemory? ==> heapEnd == start)
              && (r.Block? ==> r.start == start && heapEnd == start + incr)
      ensures enomem == (old(enomem) || r.NoMemory?)
    {
      var stackLimit := linker.estack - linker.minStackSize;
      var maxHeap := stackLimit;
      if heapEnd == NULL {
        heapEnd := linker.end;
      }
      if heapEnd + incr > maxHeap {
        enomem := true;
        return NoMemory;
      }
      var prevHeapEnd := heapEnd;
      heapEnd := heapEnd + incr;
      return Block(prevHeapEnd);
    }

    /** A client's whole history of calls. */
    method Serve(incrs: seq<int>) returns (outcomes: seq<Outcome>)
      modifies this
      ensures heapEnd == Break(linker, old(heapEnd), incrs, |incrs|)
      ensures |outcomes| == |incrs|
      ensures forall i :: 0 <= i < |incrs| ==> outcomes[i] == Result(linker, old(heapEnd), incrs, i)
    {
      outcomes := [];
      for i := 0 to |incrs|
        invariant |outcomes| == i && heapEnd == Break(linker, old(heapEnd), incrs, i)
        invariant forall j :: 0 <= j < i ==> outcomes[j] == Result(linker, old(heapEnd), incrs, j)
      {
        var r := Sbrk(incrs[i]);
        outcomes := outcomes + [r];
      }
    }
  }

  // ---- Histories --------------------------------------------------------------

  /** The break after the first `n` calls of a history that found it at `start`. */
  function Break(l: Linker, start: int, incrs: seq<int>, n: nat): int
    requires n <= |incrs|
  {
    if n == 0 then start else Step(l, Break(l, start, incrs, n - 1), incrs[n - 1]).0
  }

  /** The outcome of call `i`. */
  function Result(l: Linker, start: int, incrs: seq<int>, i: nat): Outcome
    requires i < |incrs|
  {
    Step(l, Break(l, start, incrs, i), incrs[i]).1
  }

  /** The sum of the increments accepted among the first `n` calls. */
  function Accepted(l: Linker, start: int, incrs: seq<int>, n: nat): int
    requires n <= |incrs|
  {
    if n == 0 then 0
    else Accepted(l, start, incrs, n - 1) + if Result(l, start, incrs, n - 1).Block? then incrs[n - 1] else 0
  }

  /** How many of the first `n` calls found a null break and initialised it. */
  function Initialisations(l: Linker, start: int, incrs: seq<int>, n: nat): nat
    requires n <= |incrs|
  {
    if n == 0 then 0
    else Initialisations(l, start, incrs, n - 1) + if Break(l, start, incrs, n - 1) == NULL then 1 else 0
  }

  /** The break after `n` calls from power-up, for any history: one `_end` per initialisation, plus what was accepted. */
  lemma {:induction false} Conservation(l: Linker, incrs: seq<int>, n: nat)
    requires n <= |incrs|
    ensures Break(l, NULL, incrs, n) == l.end * Initialisations(l, NULL, incrs, n) + Accepted(l, NULL, incrs, n)
  {
    if n > 0 {
      Conservation(l, incrs, n - 1);
      if Break(l, NULL, incrs, n - 1) == NULL {
        OneMore(l.end, Initialisations(l, NULL, incrs, n - 1));
      }
    }
  }

  lemma OneMore(a: int, n: int)
    ensures a * (n + 1) == a * n + a
  {
  }

  /** No history moves the break past the stack reserve. */
  lemma {:induction false} NeverIntoStack(l: Linker, incrs: seq<int>, n: nat)
    requires l.Sane() && n <= |incrs|
    ensures Break(l, NULL, incrs, n) <= l.estack - l.minStackSize
  {
    if n > 0 {
      NeverIntoStack(l, incrs, n - 1);
    }
  }

  /** The break, as far as clients can tell, stays at or above `_end`. */
  ghost predicate NeverBelowEnd(l: Linker, incrs: seq<int>, n: nat)
    requires n <= |incrs|
  {
    forall i :: 1 <= i <= n ==> Break(l, NULL, incrs, i) >= l.end
  }

  /** A history that never gives back more than it took initialises once and obeys the exact accounting. */
  lemma {:induction false} Accounting(l: Linker, incrs: seq<int>, n: nat)
    requires l.Sane() && 1 <= n <= |incrs| && NeverBelowEnd(l, incrs, n)
    ensures Initialisations(l, NULL, incrs, n) == 1
    ensures Break(l, NULL, incrs, n) == l.end + Accepted(l, NULL, incrs, n)
    ensures l.end <= Break(l, NULL, incrs, n) <= l.estack - l.minStackSize
  {
    if n > 1 {
      Accounting(l, incrs, n - 1);
    }
    NeverIntoStack(l, incrs, n);
  }

  /** Call `i` from power-up finds the break at null. */
  predicate FindsNull(l: Linker, incrs: seq<int>, i: nat)
    requires i <= |incrs|
  {
    Break(l, NULL, incrs, i) == NULL
  }

  /** Re-initialisation happens exactly when some earlier call left the break at null. */
  lemma {:induction false} InitialisedOnce(l: Linker, incrs: seq<int>, n: nat)
    requires 1 <= n <= |incrs|
    ensures Initialisations(l, NULL, incrs, n) == 1 <==> forall i :: 1 <= i < n ==> !FindsNull(l, incrs, i)
    ensures Initialisations(l, NULL, incrs, n) >= 1
  {
    if n > 1 {
      InitialisedOnce(l, incrs, n - 1);
      var again := FindsNull(l, incrs, n - 1);
      assert Initialisations(l, NULL, incrs, n) == Initialisations(l, NULL, incrs, n - 1) + if again then 1 else 0;
    } else {
      assert Initialisations(l, NULL, incrs, 0) == 0 && Break(l, NULL, incrs, 0) == NULL;
    }
  }

  /** The hazard in concrete numbers: releasing down to null makes the next call hand out `_end` again. */
  lemma ReleaseToNullForgets(l: Linker)
    requires l.Sane()
    ensures Break(l, NULL, [-l.end, 0], 1) == NULL
    ensures Break(l, NULL, [-l.end, 0], 2) == l.end
    ensures Initialisations(l, NULL, [-l.end, 0], 2) == 2
  {
    var incrs := [-l.end, 0];
    assert Break(l, NULL, incrs, 0) == NULL;
    assert Break(l, NULL, incrs, 1) == NULL;
    assert Initialisations(l, NULL, incrs, 1) == 1;
  }

  /** A call fails exactly when its increment, on top of all accepted before it, would cross the reserve; a failed call takes nothing. */
  lemma FailureIsExact(l: Linker, incrs: seq<int>, i: nat)
    requires i < |incrs|
    ensures var inUse := l.end * Initialisations(l, NULL, incrs, i + 1) + Accepted(l, NULL, incrs, i);
            && (Result(l, NULL, incrs, i).NoMemory? <==> inUse + incrs[i] > l.estack - l.minStackSize)
            && (Result(l, NULL, incrs, i).NoMemory? ==> Break(l, NULL, incrs, i + 1) == inUse)
            && (Result(l, NULL, incrs, i).Block? ==> Result(l, NULL, incrs, i).start == inUse)
  {
    InUse(l, incrs, i);
    hide Initialisations, Accepted;
  }

  /** What a call finds in use: the accepted increments, and `_end` once per initialisation including its own. */
  lemma InUse(l: Linker, incrs: seq<int>, i: nat)
    requires i < |incrs|
    ensures Base(l, Break(l, NULL, incrs, i)) == l.end * Initialisations(l, NULL, incrs, i + 1) + Accepted(l, NULL, incrs, i)
  {
    Conservation(l, incrs, i);
    hide Step;
    if Break(l, NULL, incrs, i) == NULL {
      OneMore(l.end, Initialisations(l, NULL, incrs, i));
    }
  }

  ghost predicate NonNegative(incrs: seq<int>) {
    forall i :: 0 <= i < |incrs| ==> incrs[i] >= 0
  }

  lemma {:induction false} BreakGrows(l: Linker, incrs: seq<int>, i: nat, j: nat)
    requires l.Sane() && NonNegative(incrs) && i <= j <= |incrs|
    ensures l.end <= Base(l, Break(l, NULL, incrs, i)) <= Base(l, Break(l, NULL, incrs, j))
    decreases j
  {
    if i < j {
      BreakGrows(l, incrs, i, j - 1);
    } else if i > 0 {
      BreakGrows(l, incrs, i - 1, i - 1);
    }
  }

  /** Allocating only: blocks never overlap, lie in call order, and stay below the stack reserve. */
  lemma BlocksDisjoint(l: Linker, incrs: seq<int>, i: nat, j: nat)
    requires l.Sane() && NonNegative(incrs) && i < j < |incrs|
    requires Result(l, NULL, incrs, i).Block? && Result(l, NULL, incrs, j).Block?
    ensures var a, b := Result(l, NULL, incrs, i).start, Result(l, NULL, incrs, j).start;
            l.end <= a <= a + incrs[i] <= b <= b + incrs[j] <= l.estack - l.minStackSize
  {
    BreakGrows(l, incrs, i, i);
    BreakGrows(l, incrs, i + 1, j);
    NeverIntoStack(l, incrs, j + 1);
  }

  /** Consecutive blocks are contiguous when every call between them failed or asked for nothing. */
  lemma {:induction false} BlocksContiguous(l: Linker, incrs: seq<int>, i: nat, j: nat)
    requires l.Sane() && NonNegative(incrs) && i < j < |incrs|
    requires Result(l, NULL, incrs, i).Block? && Result(l, NULL, incrs, j).Block?
    requires forall k :: i < k < j ==> Result(l, NULL, incrs, k).NoMemory? || incrs[k] == 0
    ensures Result(l, NULL, incrs, j).start == Result(l, NULL, incrs, i).start + incrs[i]
  {
    BreakGrows(l, incrs, i, i);
    BreakStands(l, incrs, i + 1, j);
  }

  lemma {:induction false} BreakStands(l: Linker, incrs: seq<int>, i: nat, j: nat)
    requires i <= j <= |incrs|
    requires forall k :: i <= k < j ==> Result(l, NULL, incrs, k).NoMemory? || incrs[k] == 0
    ensures Base(l, Break(l, NULL, incrs, j)) == Base(l, Break(l, NULL, incrs, i))
    decreases j
  {
    if i < j {
      BreakStands(l, incrs, i, j - 1);
      assert Result(l, NULL, incrs, j - 1).NoMemory? || incrs[j - 1] == 0;
    }
  }

  /**
   Giving back what was just taken restores the break, unless the taking (a negative one)
   had reached null. Then the release starts from `_end`, and ends there only if it fails.
   */
  lemma TakeThenRelease(l: Linker, brk: int, n: int)
    requires l.Sane() && Base(l, brk) <= l.MaxHeap()
    requires Step(l, brk, n).1.Block?
    ensures var taken := Step(l, brk, n).0;
            Step(l, taken, -n).0 == Base(l, brk) <==> taken != NULL || (n == -l.end && 2 * l.end > l.MaxHeap())
  {
  }
}
