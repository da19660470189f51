/**
 `__cmsis_start`: the loops that fill .data from its load image and clear .bss.
 Memory is one array of 32-bit words; the copy and zero tables lie in it too and
 are read again on every iteration, so the code relies on not overwriting them.
 */
module Startup {

  type Word = w: int | 0 <= w < 0x1_0000_0000

  /** One row of a table, three words for a copy and two for a zero fill (which has no source). */
  datatype Row = Row(src: nat, dest: nat, wlen: nat)

  function CopyRow(m: seq<Word>, p: nat): Row
    requires p + 3 <= |m|
  {
    Row(m[p], m[p + 1], m[p + 2])
  }

  function ZeroRow(m: seq<Word>, p: nat): Row
    requires p + 2 <= |m|
  {
    Row(0, m[p], m[p + 1])
  }

  /** Where the tables lie and which rows they hold at start-up. */
  datatype Tables = Tables(copyTable: nat, copies: seq<Row>, zeroTable: nat, zeroes: seq<Row>)

  predicate Writes(r: Row, a: int) {
    r.dest <= a < r.dest + r.wlen
  }

  predicate Reads(r: Row, a: int) {
    r.src <= a < r.src + r.wlen
  }

  // ---- What the loops compute, row by row -------------------------------------

  predicate InBounds(r: Row, size: nat) {
    r.src + r.wlen <= size && r.dest + r.wlen <= size
  }

  /** Memory after a row has been copied, all words taken from the memory before. */
  function Blit(m: seq<Word>, r: Row): (m': seq<Word>)
    requires InBounds(r, |m|)
    ensures |m'| == |m|
    decreases r.wlen
  {
    if r.wlen == 0 then m
    else
      var n := r.wlen - 1;
      Blit(m, r.(wlen := n))[r.dest + n := m[r.src + n]]
  }

  function Clear(m: seq<Word>, r: Row): (m': seq<Word>)
    requires InBounds(r, |m|)
    ensures |m'| == |m|
    decreases r.wlen
  {
    if r.wlen == 0 then m
    else
      var n := r.wlen - 1;
      Clear(m, r.(wlen := n))[r.dest + n := 0]
  }

  lemma {:induction false} BlitAt(m: seq<Word>, r: Row, a: nat)
    requires InBounds(r, |m|) && a < |m|
    ensures Blit(m, r)[a] == if Writes(r, a) then m[r.src + (a - r.dest)] else m[a]
    decreases r.wlen
  {
    if r.wlen > 0 {
      BlitAt(m, r.(wlen := r.wlen - 1), a);
    }
  }

  lemma {:induction false} ClearAt(m: seq<Word>, r: Row, a: nat)
    requires InBounds(r, |m|) && a < |m|
    ensures Clear(m, r)[a] == if Writes(r, a) then 0 else m[a]
    decreases r.wlen
  {
    if r.wlen > 0 {
      ClearAt(m, r.(wlen := r.wlen - 1), a);
    }
  }

  predicate AllInBounds(rows: seq<Row>, size: nat) {
    forall k :: 0 <= k < |rows| ==> InBounds(rows[k], size)
  }

  /** Memory after the first `n` rows have been copied in table order. */
  function BlitAll(m: seq<Word>, rows: seq<Row>, n: nat): (m': seq<Word>)
    requires AllInBounds(rows, |m|) && n <= |rows|
    ensures |m'| == |m|
  {
    if n == 0 then m else Blit(BlitAll(m, rows, n - 1), rows[n - 1])
  }

  function ClearAll(m: seq<Word>, rows: seq<Row>, n: nat): (m': seq<Word>)
    requires AllInBounds(rows, |m|) && n <= |rows|
    ensures |m'| == |m|
  {
    if n == 0 then m else Clear(ClearAll(m, rows, n - 1), rows[n - 1])
  }

  /** Memory after both loops. */
  function AfterStart(m: seq<Word>, t: Tables): (m': seq<Word>)
    requires AllInBounds(t.copies, |m|) && AllInBounds(t.zeroes, |m|)
    ensures |m'| == |m|
  {
    ClearAll(BlitAll(m, t.copies, |t.copies|), t.zeroes, |t.zeroes|)
  }

  // ---- The tables ---------------------------------------------------------------

  ghost predicate TablesHold(t: Tables, m: seq<Word>) {
    && t.copyTable + 3 * |t.copies| <= |m|
    && t.zeroTable + 2 * |t.zeroes| <= |m|
    && (forall k :: 0 <= k < |t.copies| ==> t.copies[k] == CopyRow(m, t.copyTable + 3 * k))
    && (forall k :: 0 <= k < |t.zeroes| ==> t.zeroes[k] == ZeroRow(m, t.zeroTable + 2 * k))
  }

  predicate InTables(t: Tables, a: int) {
    || t.copyTable <= a < t.copyTable + 3 * |t.copies|
    || t.zeroTable <= a < t.zeroTable + 2 * |t.zeroes|
  }

  /**
   What running the loops needs: ranges inside memory, no row writing into the tables,
   and no source that an ascending copy would overwrite before reading it.
   */
  ghost predicate Runnable(t: Tables, size: nat) {
    && AllInBounds(t.copies, size) && AllInBounds(t.zeroes, size)
    && (forall k, a :: 0 <= k < |t.copies| && Writes(t.copies[k], a) ==> !InTables(t, a))
    && (forall k, a :: 0 <= k < |t.zeroes| && Writes(t.zeroes[k], a) ==> !InTables(t, a))
    && (forall k :: 0 <= k < |t.copies| ==> !(t.copies[k].src < t.copies[k].dest < t.copies[k].src + t.copies[k].wlen))
  }

  lemma TablesSurviveBlit(t: Tables, m: seq<Word>, k: nat)
    requires TablesHold(t, m) && Runnable(t, |m|) && k < |t.copies|
    ensures TablesHold(t, Blit(m, t.copies[k]))
  {
    forall a | 0 <= a < |m| && InTables(t, a)
      ensures Blit(m, t.copies[k])[a] == m[a]
    {
      BlitAt(m, t.copies[k], a);
    }
  }

  lemma TablesSurviveClear(t: Tables, m: seq<Word>, k: nat)
    requires TablesHold(t, m) && Runnable(t, |m|) && k < |t.zeroes|
    ensures TablesHold(t, Clear(m, t.zeroes[k]))
  {
    forall a | 0 <= a < |m| && InTables(t, a)
      ensures Clear(m, t.zeroes[k])[a] == m[a]
    {
      ClearAt(m, t.zeroes[k], a);
    }
  }

  /** Row `k` of the copy table is in place and does not write over itself. */
  lemma CopyRowReady(t: Tables, m: seq<Word>, k: nat)
    requires TablesHold(t, m) && Runnable(t, |m|) && k < |t.copies|
    ensures var p, r := t.copyTable + 3 * k, t.copies[k];
            && r == CopyRow(m, p) && InBounds(r, |m|)
            && !Writes(r, p) && !Writes(r, p + 1) && !Writes(r, p + 2)
            && !(r.src < r.dest < r.src + r.wlen)
  {
    var p := t.copyTable + 3 * k;
    assert InTables(t, p) && InTables(t, p + 1) && InTables(t, p + 2);
  }

  lemma ZeroRowReady(t: Tables, m: seq<Word>, k: nat)
    requires TablesHold(t, m) && Runnable(t, |m|) && k < |t.zeroes|
    ensures var p, r := t.zeroTable + 2 * k, t.zeroes[k];
            && r == ZeroRow(m, p) && InBounds(r, |m|)
            && !Writes(r, p) && !Writes(r, p + 1)
  {
    var p := t.zeroTable + 2 * k;
    assert InTables(t, p) && InTables(t, p + 1);
  }

  // ---- The loops ------------------------------------------------------------------

  /** The inner copy loop: the row is read from memory again before every word. */
  method CopyOneRow(mem: array<Word>, pTable: nat, ghost before: seq<Word>, ghost r: Row)
    requires mem[..] == before && pTable + 3 <= mem.Length
    requires r == CopyRow(before, pTable) && InBounds(r, mem.Length)
    requires !Writes(r, pTable) && !Writes(r, pTable + 1) && !Writes(r, pTable + 2)
    requires !(r.src < r.dest < r.src + r.wlen)
    modifies mem
    ensures mem[..] == Blit(before, r)
  {
    var i := 0;
    while i < mem[pTable + 2]
      invariant 0 <= i <= r.wlen
      invariant mem[pTable] == r.src && mem[pTable + 1] == r.dest && mem[pTable + 2] == r.wlen
      invariant mem[..] == Blit(before, r.(wlen := i))
      decreases r.wlen - i
    {
      BlitAt(before, r.(wlen := i), r.src + i);
      assert mem[..][r.src + i] == before[r.src + i];
      mem[mem[pTable + 1] + i] := mem[mem[pTable] + i];
      i := i + 1;
    }
  }

  method ZeroOneRow(mem: array<Word>, pTable: nat, ghost before: seq<Word>, ghost r: Row)
    requires mem[..] == before && pTable + 2 <= mem.Length
    requires r == ZeroRow(before, pTable) && InBounds(r, mem.Length)
    requires !Writes(r, pTable) && !Writes(r, pTable + 1)
    modifies mem
    ensures mem[..] == Clear(before, r)
  {
    var i := 0;
    while i < mem[pTable + 1]
      invariant 0 <= i <= r.wlen
      invariant mem[pTable] == r.dest && mem[pTable + 1] == r.wlen
      invariant mem[..] == Clear(before, r.(wlen := i))
      decreases r.wlen - i
    {
      mem[mem[pTable] + i] := 0;
      i := i + 1;
    }
  }

  /** The outer loop over the copy table. */
  method CopySections(mem: array<Word>, copyStart: nat, copyEnd: nat, ghost t: Tables)
    requires TablesHold(t, mem[..]) && Runnable(t, mem.Length)
    requires copyStart == t.copyTable && copyEnd == t.copyTable + 3 * |t.copies|
    modifies mem
    ensures TablesHold(t, mem[..]) && mem[..] == BlitAll(old(mem[..]), t.copies, |t.copies|)
  {
    ghost var before, now := mem[..], mem[..];
    var pTable := copyStart;
    ghost var k := 0;
    while pTable < copyEnd
      invariant 0 <= k <= |t.copies| && pTable == copyStart + 3 * k
      invariant mem[..] == now && TablesHold(t, now)
      invariant now == BlitAll(before, t.copies, k)
      decreases copyEnd - pTable
    {
      CopyRowReady(t, now, k);
      TablesSurviveBlit(t, now, k);
      CopyOneRow(mem, pTable, now, t.copies[k]);
      now := Blit(now, t.copies[k]);
      pTable := pTable + 3;
      k := k + 1;
    }
  }

  /** The outer loop over the zero table. */
  method ZeroSections(mem: array<Word>, zeroStart: nat, zeroEnd: nat, ghost t: Tables)
    requires TablesHold(t, mem[..]) && Runnable(t, mem.Length)
    requires zeroStart == t.zeroTable && zeroEnd == t.zeroTable + 2 * |t.zeroes|
    modifies mem
    ensures mem[..] == ClearAll(old(mem[..]), t.zeroes, |t.zeroes|)
  {
    ghost var before, now := mem[..], mem[..];
    var pTable := zeroStart;
    ghost var k := 0;
    while pTable < zeroEnd
      invariant 0 <= k <= |t.zeroes| && pTable == zeroStart + 2 * k
      invariant mem[..] == now && TablesHold(t, now)
      invariant now == ClearAll(before, t.zeroes, k)
      decreases zeroEnd - pTable
    {
      ZeroRowReady(t, now, k);
      TablesSurviveClear(t, now, k);
      ZeroOneRow(mem, pTable, now, t.zeroes[k]);
      now := Clear(now, t.zeroes[k]);
      pTable := pTable + 2;
      k := k + 1;
    }
  }

  method CmsisStart(mem: array<Word>, copyStart: nat, copyEnd: nat, zeroStart: nat, zeroEnd: nat, ghost t: Tables)
    requires TablesHold(t, mem[..]) && Runnable(t, mem.Length)
    requires copyStart == t.copyTable && copyEnd == t.copyTable + 3 * |t.copies|
    requires zeroStart == t.zeroTable && zeroEnd == t.zeroTable + 2 * |t.zeroes|
    modifies mem
    ensures mem[..] == AfterStart(old(mem[..]), t)
    ensures Disjoint(t) ==> WordsInitialised(t, old(mem[..]), mem[..])
  {
    ghost var before := mem[..];
    CopySections(mem, copyStart, copyEnd, t);
    ZeroSections(mem, zeroStart, zeroEnd, t);
    if Disjoint(t) {
      StartupInitialisesWords(t, before);
    }
  }

  // ---- What start-up promises --------------------------------------------------

  /**
   The linker script's side: copy destinations are disjoint from each other, from every
   load image and from every zero fill. Zero fills may overlap each other and the load images.
   */
  ghost predicate Disjoint(t: Tables) {
    && (forall j, k, a {:trigger Writes(t.copies[j], a), Reads(t.copies[k], a)} ::
          0 <= j < |t.copies| && 0 <= k < |t.copies| && Writes(t.copies[j], a) ==> !Reads(t.copies[k], a))
    && (forall j, k, a {:trigger Writes(t.copies[j], a), Writes(t.copies[k], a)} ::
          0 <= j < k < |t.copies| && Writes(t.copies[j], a) ==> !Writes(t.copies[k], a))
    && (forall j, k, a {:trigger Writes(t.copies[j], a), Writes(t.zeroes[k], a)} ::
          0 <= j < |t.copies| && 0 <= k < |t.zeroes| && Writes(t.copies[j], a) ==> !Writes(t.zeroes[k], a))
  }

  lemma {:induction false} ClearAllAt(m: seq<Word>, rows: seq<Row>, n: nat, a: nat)
    requires AllInBounds(rows, |m|) && a < |m| && n <= |rows|
    ensures ClearAll(m, rows, n)[a] == if exists k :: 0 <= k < n && Writes(rows[k], a) then 0 else m[a]
  {
    if n > 0 {
      ClearAllAt(m, rows, n - 1, a);
      ClearAt(ClearAll(m, rows, n - 1), rows[n - 1], a);
    }
  }

  /** An address no copy writes keeps its word. */
  lemma {:induction false} BlitAllElsewhere(m: seq<Word>, rows: seq<Row>, n: nat, a: nat)
    requires AllInBounds(rows, |m|) && a < |m| && n <= |rows|
    requires forall k :: 0 <= k < n ==> !Writes(rows[k], a)
    ensures BlitAll(m, rows, n)[a] == m[a]
  {
    if n > 0 {
      BlitAllElsewhere(m, rows, n - 1, a);
      BlitAt(BlitAll(m, rows, n - 1), rows[n - 1], a);
    }
  }

  /** An address copy `j` writes receives a word of the memory before all copies. */
  lemma {:induction false} BlitAllCopies(t: Tables, m: seq<Word>, n: nat, j: nat, a: nat)
    requires AllInBounds(t.copies, |m|) && Disjoint(t)
    requires j < n <= |t.copies| && Writes(t.copies[j], a) && a < |m|
    ensures BlitAll(m, t.copies, n)[a] == m[t.copies[j].src + (a - t.copies[j].dest)]
  {
    var last := t.copies[n - 1];
    BlitAt(BlitAll(m, t.copies, n - 1), last, a);
    if j == n - 1 {
      var b := last.src + (a - last.dest);
      assert Reads(last, b);
      BlitAllElsewhere(m, t.copies, n - 1, b);
    } else {
      assert !Writes(last, a);
      BlitAllCopies(t, m, n - 1, j, a);
    }
  }

  /** After start-up: initialised data holds its load image, cleared data is zero, the rest is as before. */
  lemma StartupInitialises(t: Tables, m: seq<Word>)
    requires AllInBounds(t.copies, |m|) && AllInBounds(t.zeroes, |m|) && Disjoint(t)
    ensures forall j, a :: 0 <= j < |t.copies| && Writes(t.copies[j], a) ==>
              AfterStart(m, t)[a] == m[t.copies[j].src + (a - t.copies[j].dest)]
    ensures forall j, a :: 0 <= j < |t.zeroes| && Writes(t.zeroes[j], a) ==> AfterStart(m, t)[a] == 0
    ensures forall a :: 0 <= a < |m|
              && (forall j :: 0 <= j < |t.copies| ==> !Writes(t.copies[j], a))
              && (forall j :: 0 <= j < |t.zeroes| ==> !Writes(t.zeroes[j], a))
              ==> AfterStart(m, t)[a] == m[a]
  {
    var copied := BlitAll(m, t.copies, |t.copies|);
    forall j, a | 0 <= j < |t.copies| && Writes(t.copies[j], a)
      ensures AfterStart(m, t)[a] == m[t.copies[j].src + (a - t.copies[j].dest)]
    {
      BlitAllCopies(t, m, |t.copies|, j, a);
      ClearAllAt(copied, t.zeroes, |t.zeroes|, a);
    }
    forall j, a | 0 <= j < |t.zeroes| && Writes(t.zeroes[j], a)
      ensures AfterStart(m, t)[a] == 0
    {
      ClearAllAt(copied, t.zeroes, |t.zeroes|, a);
    }
    forall a | 0 <= a < |m|
      && (forall j :: 0 <= j < |t.copies| ==> !Writes(t.copies[j], a))
      && (forall j :: 0 <= j < |t.zeroes| ==> !Writes(t.zeroes[j], a))
      ensures AfterStart(m, t)[a] == m[a]
    {
      BlitAllElsewhere(m, t.copies, |t.copies|, a);
      ClearAllAt(copied, t.zeroes, |t.zeroes|, a);
    }
  }

  // ---- The same on the words of the tables in memory ---------------------------------------------

  /** The row at `p`, source, destination and length, has been copied. */
  ghost predicate CopiedFrom(m: seq<Word>, m': seq<Word>, p: nat)
    requires p + 3 <= |m| == |m'|
  {
    var src: nat, dest: nat, wlen: nat := m[p], m[p + 1], m[p + 2];
    dest + wlen <= |m| && src + wlen <= |m| && m'[dest..dest + wlen] == m[src..src + wlen]
  }

  /** The row at `p`, destination and length, has been cleared. */
  ghost predicate ClearedFrom(m: seq<Word>, m': seq<Word>, p: nat)
    requires p + 2 <= |m| == |m'|
  {
    var dest: nat, wlen: nat := m[p], m[p + 1];
    dest + wlen <= |m| && forall a :: dest <= a < dest + wlen ==> m'[a] == 0
  }

  /** The address lies in the range whose start and length are the words at `p`. */
  predicate RangeHolds(m: seq<Word>, p: nat, a: nat)
    requires p + 2 <= |m|
  {
    var first: nat, wlen: nat := m[p], m[p + 1];
    first <= a < first + wlen
  }

  /** Where row `j` of each table lies. */
  function CopyPlace(t: Tables, j: nat): nat { t.copyTable + 3 * j }

  function ZeroPlace(t: Tables, j: nat): nat { t.zeroTable + 2 * j }

  ghost predicate WordsInitialised(t: Tables, m: seq<Word>, m': seq<Word>)
    requires TablesHold(t, m) && |m'| == |m|
  {
    && (forall j :: 0 <= j < |t.copies| ==> CopiedFrom(m, m', CopyPlace(t, j)))
    && (forall j :: 0 <= j < |t.zeroes| ==> ClearedFrom(m, m', ZeroPlace(t, j)))
    && (forall a: nat :: a < |m| && Outside(t, m, a) ==> m'[a] == m[a])
  }

  /** No row of either table names this address as part of its destination. */
  ghost predicate Outside(t: Tables, m: seq<Word>, a: nat)
    requires TablesHold(t, m)
  {
    && (forall j :: 0 <= j < |t.copies| ==> !RangeHolds(m, CopyPlace(t, j) + 1, a))
    && (forall j :: 0 <= j < |t.zeroes| ==> !RangeHolds(m, ZeroPlace(t, j), a))
  }

  lemma StartupInitialisesWords(t: Tables, m: seq<Word>)
    requires TablesHold(t, m) && AllInBounds(t.copies, |m|) && AllInBounds(t.zeroes, |m|) && Disjoint(t)
    ensures WordsInitialised(t, m, AfterStart(m, t))
  {
    var m' := AfterStart(m, t);
    hide AfterStart, Disjoint, CopiedFrom, ClearedFrom, AllInBounds, Outside, CopyPlace, ZeroPlace;
    forall j | 0 <= j < |t.copies|
      ensures CopyPlace(t, j) + 3 <= |m| && CopiedFrom(m, m', CopyPlace(t, j))
    {
      CopyRowDone(t, m, j);
    }
    forall j | 0 <= j < |t.zeroes|
      ensures ZeroPlace(t, j) + 2 <= |m| && ClearedFrom(m, m', ZeroPlace(t, j))
    {
      ZeroRowDone(t, m, j);
    }
    forall a: nat | a < |m| && Outside(t, m, a)
      ensures m'[a] == m[a]
    {
      OutsideKept(t, m, a);
    }
  }

  lemma CopyRowDone(t: Tables, m: seq<Word>, j: nat)
    requires TablesHold(t, m) && AllInBounds(t.copies, |m|) && AllInBounds(t.zeroes, |m|) && Disjoint(t) && j < |t.copies|
    ensures CopyPlace(t, j) + 3 <= |m| && CopiedFrom(m, AfterStart(m, t), CopyPlace(t, j))
  {
    CopyRowWords(t, m, j);
    RowCopied(t, m, j);
    hide AfterStart, Disjoint, AllInBounds, TablesHold, CopyPlace;
    SliceCopied(m, AfterStart(m, t), t.copies[j]);
  }

  lemma CopyRowWords(t: Tables, m: seq<Word>, j: nat)
    requires TablesHold(t, m) && AllInBounds(t.copies, |m|) && j < |t.copies|
    ensures CopyPlace(t, j) + 3 <= |m| && InBounds(t.copies[j], |m|)
    ensures var p := CopyPlace(t, j);
            t.copies[j].src == m[p] && t.copies[j].dest == m[p + 1] && t.copies[j].wlen == m[p + 2]
  {
  }

  lemma RowCopied(t: Tables, m: seq<Word>, j: nat)
    requires AllInBounds(t.copies, |m|) && AllInBounds(t.zeroes, |m|) && Disjoint(t) && j < |t.copies|
    ensures forall a :: Writes(t.copies[j], a) ==> AfterStart(m, t)[a] == m[t.copies[j].src + (a - t.copies[j].dest)]
  {
    StartupInitialises(t, m);
  }

  lemma SliceCopied(m: seq<Word>, m': seq<Word>, r: Row)
    requires |m'| == |m| && InBounds(r, |m|)
    requires forall a :: Writes(r, a) ==> m'[a] == m[r.src + (a - r.dest)]
    ensures m'[r.dest..r.dest + r.wlen] == m[r.src..r.src + r.wlen]
  {
    var moved, from := m'[r.dest..r.dest + r.wlen], m[r.src..r.src + r.wlen];
    forall i | 0 <= i < |moved|
      ensures moved[i] == from[i]
    {
      assert Writes(r, r.dest + i);
    }
  }

  lemma ZeroRowDone(t: Tables, m: seq<Word>, j: nat)
    requires TablesHold(t, m) && AllInBounds(t.copies, |m|) && AllInBounds(t.zeroes, |m|) && Disjoint(t) && j < |t.zeroes|
    ensures ZeroPlace(t, j) + 2 <= |m| && ClearedFrom(m, AfterStart(m, t), ZeroPlace(t, j))
  {
    ZeroRowWords(t, m, j);
    RowCleared(t, m, j);
    hide AfterStart, Disjoint, AllInBounds, TablesHold, ZeroPlace;
    var r, m' := t.zeroes[j], AfterStart(m, t);
    forall a | r.dest <= a < r.dest + r.wlen
      ensures m'[a] == 0
    {
      assert Writes(r, a);
    }
  }

  lemma ZeroRowWords(t: Tables, m: seq<Word>, j: nat)
    requires TablesHold(t, m) && AllInBounds(t.zeroes, |m|) && j < |t.zeroes|
    ensures ZeroPlace(t, j) + 2 <= |m| && InBounds(t.zeroes[j], |m|)
    ensures var p := ZeroPlace(t, j);
            t.zeroes[j].dest == m[p] && t.zeroes[j].wlen == m[p + 1]
  {
  }

  lemma RowCleared(t: Tables, m: seq<Word>, j: nat)
    requires AllInBounds(t.copies, |m|) && AllInBounds(t.zeroes, |m|) && Disjoint(t) && j < |t.zeroes|
    ensures forall a :: Writes(t.zeroes[j], a) ==> AfterStart(m, t)[a] == 0
  {
    StartupInitialises(t, m);
  }

  lemma OutsideKept(t: Tables, m: seq<Word>, a: nat)
    requires TablesHold(t, m) && AllInBounds(t.copies, |m|) && AllInBounds(t.zeroes, |m|) && Disjoint(t) && a < |m|
    requires Outside(t, m, a)
    ensures AfterStart(m, t)[a] == m[a]
  {
    forall j | 0 <= j < |t.copies|
      ensures !Writes(t.copies[j], a)
    {
      assert !RangeHolds(m, CopyPlace(t, j) + 1, a);
    }
    forall j | 0 <= j < |t.zeroes|
      ensures !Writes(t.zeroes[j], a)
    {
      assert !RangeHolds(m, ZeroPlace(t, j), a);
    }
    StartupInitialises(t, m);
    hide AfterStart, Disjoint;
  }
}
