/** The pool allocator: chunks of one size in one block, the free ones linked as runs through headers they hold. */
module MemPool {
  import opened Containers
  import Modular

  // `len` neighbouring free chunks from chunk `start` on.
  datatype Run = Run(start: int, len: int)

  // What the pool is about: the free list, and the chunks in use.
  datatype Pool = Pool(total: nat, runs: seq<Run>, live: set<int>)

  predicate Has(r: Run, c: int) { r.start <= c < r.start + r.len }

  ghost predicate IsFree(runs: seq<Run>, c: int) {
    exists i :: 0 <= i < |runs| && Has(runs[i], c)
  }

  function FreeCount(runs: seq<Run>): int {
    if runs == [] then 0 else runs[0].len + FreeCount(runs[1..])
  }

  // The free list is a list of non-empty, disjoint runs; every chunk is free or in use, and not both.
  ghost predicate Inv(p: Pool) {
    && (forall i :: 0 <= i < |p.runs| ==> 0 <= p.runs[i].start < p.runs[i].start + p.runs[i].len <= p.total)
    && (forall i, j, c :: 0 <= i < j < |p.runs| && Has(p.runs[i], c) ==> !Has(p.runs[j], c))
    && (forall c :: c in p.live <==> 0 <= c < p.total && !IsFree(p.runs, c))
  }

  // The list after its first chunk is taken.
  function Shrink(runs: seq<Run>): seq<Run>
    requires runs != []
  {
    if runs[0].len <= 1 then runs[1..] else [Run(runs[0].start + 1, runs[0].len - 1)] + runs[1..]
  }

  function Allocate(p: Pool): (Pool, Option<int>) {
    if p.runs == [] then (p, None)
    else
      var c := p.runs[0].start;
      (Pool(p.total, Shrink(p.runs), p.live + {c}), Some(c))
  }

  function Free(p: Pool, c: int): Pool {
    Pool(p.total, [Run(c, 1)] + p.runs, p.live - {c})
  }

  lemma ShrinkIsFree(runs: seq<Run>, c: int)
    requires runs != [] && 0 < runs[0].len
    requires forall j, d :: 0 < j < |runs| && Has(runs[0], d) ==> !Has(runs[j], d)
    ensures IsFree(Shrink(runs), c) <==> IsFree(runs, c) && c != runs[0].start
  {
    var s := Shrink(runs);
    var d := if runs[0].len == 1 then 1 else 0;
    assert forall j :: 0 < j < |runs| ==> s[j - d] == runs[j];
    if IsFree(s, c) {
      var i :| 0 <= i < |s| && Has(s[i], c);
      assert Has(runs[i + d], c);
      assert Has(runs[0], runs[0].start);
    }
    if IsFree(runs, c) && c != runs[0].start {
      var i :| 0 <= i < |runs| && Has(runs[i], c);
      assert Has(s[i - d], c);
    }
  }

  lemma {:induction false} NoRunsNoFree(runs: seq<Run>)
    requires forall i :: 0 <= i < |runs| ==> 0 < runs[i].len
    ensures 0 <= FreeCount(runs) && (FreeCount(runs) == 0 <==> runs == [])
    ensures runs != [] ==> FreeCount(Shrink(runs)) == FreeCount(runs) - 1
  {
    if runs != [] {
      NoRunsNoFree(runs[1..]);
      if runs[0].len > 1 {
        assert Shrink(runs)[1..] == runs[1..];
      }
    }
  }

  // Allocation fails only when nothing is free, and otherwise hands out a chunk that was free.
  lemma AllocateKeeps(p: Pool)
    requires Inv(p)
    ensures Inv(Allocate(p).0)
    ensures Allocate(p).1.None? <==> forall c :: 0 <= c < p.total ==> c in p.live
    ensures Allocate(p).1.Some? ==> var c := Allocate(p).1.value; 0 <= c < p.total && c !in p.live && IsFree(p.runs, c)
  {
    if p.runs != [] {
      var c := p.runs[0].start;
      assert Has(p.runs[0], c);
      forall d ensures IsFree(Shrink(p.runs), d) <==> IsFree(p.runs, d) && d != c {
        ShrinkIsFree(p.runs, d);
      }
      ShrinkApart(p.runs);
      hide IsFree;
    }
  }

  lemma ShrinkApart(runs: seq<Run>)
    requires runs != [] && 0 < runs[0].len
    requires forall i, j, c :: 0 <= i < j < |runs| && Has(runs[i], c) ==> !Has(runs[j], c)
    ensures forall i, j, c :: 0 <= i < j < |Shrink(runs)| && Has(Shrink(runs)[i], c) ==> !Has(Shrink(runs)[j], c)
  {
    var s := Shrink(runs);
    var d := if runs[0].len == 1 then 1 else 0;
    forall i, j, c | 0 <= i < j < |s| && Has(s[i], c) ensures !Has(s[j], c) {
      assert Has(runs[i + d], c) && s[j] == runs[j + d];
    }
  }

  lemma FreeKeeps(p: Pool, c: int)
    requires Inv(p) && c in p.live
    ensures Inv(Free(p, c)) && FreeCount(Free(p, c).runs) == FreeCount(p.runs) + 1
  {
    var q := Free(p, c);
    assert q.runs[1..] == p.runs;
    forall d ensures IsFree(q.runs, d) <==> IsFree(p.runs, d) || d == c {
      if IsFree(p.runs, d) {
        var i :| 0 <= i < |p.runs| && Has(p.runs[i], d);
        assert Has(q.runs[i + 1], d);
      }
      assert Has(q.runs[0], c);
    }
  }

  // ---------------------------------------------------------------- every sequence of calls

  datatype Op = Took(c: int) | GaveBack(c: int) | Exhausted

  // The chunks in use, by the calls alone.
  function InUse(ops: seq<Op>): set<int> {
    if ops == [] then {}
    else
      match ops[|ops| - 1]
      case Took(c) => InUse(ops[..|ops| - 1]) + {c}
      case GaveBack(c) => InUse(ops[..|ops| - 1]) - {c}
      case Exhausted => InUse(ops[..|ops| - 1])
  }

  ghost predicate StepsTo(p: Pool, op: Op, q: Pool) {
    match op
    case Took(c) => Allocate(p) == (q, Some(c))
    case Exhausted => Allocate(p) == (q, None)
    case GaveBack(c) => c in p.live && q == Free(p, c)
  }

  function Fresh(total: nat): Pool {
    Pool(total, if total == 0 then [] else [Run(0, total)], {})
  }

  ghost predicate Calls(ps: seq<Pool>, ops: seq<Op>, total: nat) {
    && |ps| == |ops| + 1 && ps[0] == Fresh(total)
    && forall k :: 0 <= k < |ops| ==> StepsTo(ps[k], ops[k], ps[k + 1])
  }

  lemma {:induction false} CallsKeep(ps: seq<Pool>, ops: seq<Op>, total: nat, k: nat)
    requires Calls(ps, ops, total) && k <= |ops|
    ensures Inv(ps[k]) && ps[k].live == InUse(ops[..k]) && ps[k].total == total
  {
    if k == 0 {
      FreshInv(total);
    } else {
      CallsKeep(ps, ops, total, k - 1);
      assert StepsTo(ps[k - 1], ops[k - 1], ps[k]);
      assert ops[..k][..k - 1] == ops[..k - 1];
      AllocateKeeps(ps[k - 1]);
      if ops[k - 1].GaveBack? {
        FreeKeeps(ps[k - 1], ops[k - 1].c);
      }
      hide Inv;
    }
  }

  // Over every sequence of allocations and legal frees: the chunks in use are those taken and not given back, a chunk
  // is taken only while it is not in use, and an allocation fails only when all chunks are in use.
  lemma NoDoubleAllocation(ps: seq<Pool>, ops: seq<Op>, total: nat, k: nat)
    requires Calls(ps, ops, total) && k < |ops|
    ensures match ops[k]
            case Took(c) => 0 <= c < total && c !in InUse(ops[..k])
            case GaveBack(c) => c in InUse(ops[..k])
            case Exhausted => forall c :: 0 <= c < total ==> c in InUse(ops[..k])
  {
    hide Inv, InUse;
    CallsKeep(ps, ops, total, k);
    AllocateKeeps(ps[k]);
    assert StepsTo(ps[k], ops[k], ps[k + 1]);
  }

  lemma FreshInv(total: nat)
    ensures Inv(Fresh(total)) && FreeCount(Fresh(total).runs) == total
  {
    if total > 0 {
      assert forall c :: 0 <= c < total ==> Has(Fresh(total).runs[0], c);
    }
  }

  // ---------------------------------------------------------------- the allocator in its memory

  // Cell x of chunk c, for chunks of n cells.
  function Cell(c: int, x: int, n: int): int { c * n + x }

  lemma CellFacts(c: int, n: int, total: int)
    requires 0 <= c < total && 0 < n
    ensures 0 <= Cell(c, 0, n) && Cell(c, 0, n) + n <= total * n
    ensures forall x :: Cell(c, x, n) == Cell(c, 0, n) + x
    ensures Cell(c + 1, 0, n) == Cell(c, 0, n) + n
  {
    Modular.MulGap(c, total, n);
    Modular.MulGap(-1, c, n);
    assert (c + 1) * n == c * n + n;
  }

  // Neither of two chunks at these addresses reaches into the other.
  predicate Apart(a: int, b: int, n: int) { a + n <= b || b + n <= a }

  lemma ChunksApart(c: int, d: int, n: int)
    requires c != d && 0 < n
    ensures Apart(Cell(c, 0, n), Cell(d, 0, n), n)
  {
    if c < d {
      Modular.MulGap(c, d, n);
    } else {
      Modular.MulGap(d, c, n);
    }
  }

  const NULL := -1
  // sizeof(mem_chunk) in cells of four bytes: mc_free_chunks in the first, mc_next from the third on.
  const HEADER := 4

  // Address of the i-th run of the list.
  function At(runs: seq<Run>, i: nat, n: int): int {
    if i < |runs| then Cell(runs[i].start, 0, n) else NULL
  }

  // The header of the i-th run.
  ghost predicate HeaderOk(mem: seq<int>, runs: seq<Run>, i: nat, n: int)
    requires i < |runs|
  {
    var a := At(runs, i, n);
    && 0 <= a && a + HEADER <= |mem|
    && mem[a] == runs[i].len && mem[a + 2] == At(runs, i + 1, n)
  }

  // A run that moves in the list keeps its header, if its cells are left alone.
  lemma HeaderMoves(mem: seq<int>, mem': seq<int>, runs: seq<Run>, i: nat, runs': seq<Run>, j: nat, n: int)
    requires i < |runs| && j < |runs'| && HeaderOk(mem, runs, i, n)
    requires runs'[j] == runs[i] && At(runs', j + 1, n) == At(runs, i + 1, n)
    requires |mem'| == |mem| && var a := At(runs, i, n); mem'[a] == mem[a] && mem'[a + 2] == mem[a + 2]
    ensures HeaderOk(mem', runs', j, n)
  {
  }

  ghost predicate HeadersOk(mem: seq<int>, runs: seq<Run>, n: int) {
    forall i :: 0 <= i < |runs| ==> HeaderOk(mem, runs, i, n)
  }

  // Memory after the header of the run at address `a` is written.
  function SetHeader(mem: seq<int>, a: int, len: int, next: int): seq<int>
    requires 0 <= a && a + HEADER <= |mem|
  {
    mem[a := len][a + 2 := next]
  }

  // What MPAllocateChunk leaves of the first run: its count in the chunk handed out, a new header in the next one.
  function AfterTake(mem: seq<int>, a: int, n: int): seq<int>
    requires 0 <= a && HEADER <= n && a + HEADER <= |mem| && (mem[a] != 1 ==> a + n + HEADER <= |mem|)
  {
    if mem[a] == 1 then mem[a := 0] else SetHeader(mem[a := mem[a] - 1], a + n, mem[a] - 1, mem[a + 2])
  }

  lemma TakeHeaders(p: Pool, mem: seq<int>, n: int)
    requires Inv(p) && p.runs != [] && HEADER <= n && |mem| == p.total * n && HeadersOk(mem, p.runs, n)
    ensures var a := At(p.runs, 0, n);
            && 0 <= a && a + HEADER <= |mem| && (mem[a] != 1 ==> a + n + HEADER <= |mem|)
            && HeadersOk(AfterTake(mem, a, n), Shrink(p.runs), n)
  {
    var runs, c := p.runs, p.runs[0].start;
    assert HeaderOk(mem, runs, 0, n);
    CellFacts(c, n, p.total);
    if runs[0].len > 1 {
      CellFacts(c + 1, n, p.total);
    }
    forall j | 0 <= j < |Shrink(runs)| ensures HeaderOk(AfterTake(mem, At(runs, 0, n), n), Shrink(runs), j, n) {
      if runs[0].len == 1 {
        OtherHeader(p, mem, n, j + 1, j);
      } else if j > 0 {
        OtherHeader(p, mem, n, j, j);
      } else {
        hide Cell;
      }
    }
  }

  // The headers after the first keep their place in memory.
  lemma OtherHeader(p: Pool, mem: seq<int>, n: int, i: nat, j: nat)
    requires Inv(p) && HEADER <= n && |mem| == p.total * n && HeadersOk(mem, p.runs, n)
    requires 0 < i < |p.runs| && j == (if p.runs[0].len == 1 then i - 1 else i)
    ensures var a := At(p.runs, 0, n);
            && 0 <= a && a + HEADER <= |mem| && (mem[a] != 1 ==> a + n + HEADER <= |mem|) && j < |Shrink(p.runs)|
            && HeaderOk(AfterTake(mem, a, n), Shrink(p.runs), j, n)
  {
    var runs, c, d := p.runs, p.runs[0].start, p.runs[i].start;
    assert HeaderOk(mem, runs, 0, n) && HeaderOk(mem, runs, i, n);
    assert Has(runs[0], c) && Has(runs[i], d) && (runs[0].len > 1 ==> Has(runs[0], c + 1));
    hide Inv, HeadersOk, HeaderOk, Cell;
    CellFacts(c, n, p.total);
    ChunksApart(c, d, n);
    if runs[0].len > 1 {
      CellFacts(c + 1, n, p.total);
      ChunksApart(c + 1, d, n);
    }
    HeaderMoves(mem, AfterTake(mem, At(runs, 0, n), n), runs, i, Shrink(runs), j, n);
  }

  class Allocator {
    const mem: array<int>
    const chunkCells: int        // mp_chunk_size / 4
    var freePtr: int
    var freeChunks: int
    const totalChunks: nat
    ghost var pool: Pool

    ghost predicate Valid()
      reads this, mem
    {
      && HEADER <= chunkCells && mem.Length == totalChunks * chunkCells
      && Inv(pool) && pool.total == totalChunks && freeChunks == FreeCount(pool.runs)
      && freePtr == At(pool.runs, 0, chunkCells)
      && HeadersOk(mem[..], pool.runs, chunkCells)
    }

    // The cells of a chunk.
    ghost function Contents(c: int): (s: seq<int>)
      requires Valid() && 0 <= c < totalChunks
      reads this, mem
      ensures |s| == chunkCells
    {
      CellFacts(c, chunkCells, totalChunks);
      mem[Cell(c, 0, chunkCells)..Cell(c, 0, chunkCells) + chunkCells]
    }

    // MPCreate for a chunk size it accepts: enough chunks for `totalSize` bytes, and no more.
    constructor (chunkSize: int, totalSize: int)
      requires 16 <= chunkSize && chunkSize % 4 == 0 && 0 < totalSize
      ensures Valid() && fresh(mem) && pool == Fresh(totalChunks) && chunkCells * 4 == chunkSize
      ensures (totalChunks - 1) * chunkSize < totalSize <= totalChunks * chunkSize
    {
      var n := (totalSize + (chunkSize - 1)) / chunkSize;
      CeilingFacts(totalSize, chunkSize);
      chunkCells := chunkSize / 4;
      totalChunks := n;
      CellFacts(0, chunkSize / 4, n);
      mem := new int[n * (chunkSize / 4)];
      freePtr := 0;
      freeChunks := n;
      pool := Fresh(n);
      new;
      FreshInv(n);
      mem[freePtr] := n;
      mem[freePtr + 2] := NULL;
    }

    // MPAllocateChunk: the address of the chunk, or NULL.
    method AllocateChunk() returns (p: int)
      requires Valid()
      modifies this, mem
      ensures Valid() && pool == Allocate(old(pool)).0
      ensures match Allocate(old(pool)).1 case None => p == NULL case Some(c) => p == Cell(c, 0, chunkCells)
      ensures forall c :: c in old(pool).live ==> Contents(c) == old(Contents(c))
    {
      hide Inv, HeadersOk, AfterTake, Cell;
      PoolFacts(pool);
      p := freePtr;
      if freeChunks == 0 {
        return NULL;
      }
      TakeFacts(pool, mem[..], chunkCells);
      ghost var was := mem[..];
      TakeFirst(p);
      pool := Allocate(pool).0;
    }

    // Its updates, for the first chunk of the first run.
    method TakeFirst(p: int)
      requires 0 <= p == freePtr && HEADER <= chunkCells && p + HEADER <= mem.Length
      requires mem[p] != 1 ==> p + chunkCells + HEADER <= mem.Length
      modifies this`freePtr, this`freeChunks, mem
      ensures mem[..] == AfterTake(old(mem[..]), p, chunkCells) && freeChunks == old(freeChunks) - 1
      ensures freePtr == if old(mem[p]) == 1 then old(mem[p + 2]) else p + chunkCells
    {
      mem[p] := mem[p] - 1;
      freeChunks := freeChunks - 1;
      if mem[p] != 0 {
        freePtr := p + chunkCells;
        mem[freePtr] := mem[p];
        mem[freePtr + 2] := mem[p + 2];
      } else {
        freePtr := mem[p + 2];
      }
    }

    // MPFreeChunk of chunk c, which is in use.
    method FreeChunk(p: int, ghost c: int)
      requires Valid() && c in pool.live && p == Cell(c, 0, chunkCells)
      modifies this, mem
      ensures Valid() && pool == Free(old(pool), c)
      ensures forall d :: d in old(pool).live && d != c ==> Contents(d) == old(Contents(d))
    {
      hide Inv, HeadersOk, Cell;
      GiveBackFacts(pool, mem[..], chunkCells, c);
      assert p % chunkCells == 0;
      ghost var was := mem[..];
      mem[p] := 1;
      mem[p + 2] := freePtr;
      freePtr := p;
      freeChunks := freeChunks + 1;
      pool := Free(pool, c);
      assert mem[..] == SetHeader(was, p, 1, old(freePtr));
    }

    // What the owner of a chunk does with it: any cell, any value.
    method Write(ghost c: int, p: int, x: int, value: int)
      requires Valid() && c in pool.live && p == Cell(c, 0, chunkCells) && 0 <= x < chunkCells
      modifies mem
      ensures Valid() && Contents(c) == old(Contents(c))[x := value]
      ensures forall d :: d in pool.live && d != c ==> Contents(d) == old(Contents(d))
    {
      hide Inv, HeadersOk, Cell;
      WriteFacts(pool, mem[..], chunkCells, c, x, value);
      ghost var was := mem[..];
      mem[p + x] := value;
      assert mem[..] == was[p + x := value];
    }
  }

  // Cells of a chunk in use belong to no header and to no other chunk.
  lemma WriteFacts(p: Pool, mem: seq<int>, n: int, c: int, x: int, value: int)
    requires Inv(p) && HEADER <= n && |mem| == p.total * n && HeadersOk(mem, p.runs, n) && c in p.live && 0 <= x < n
    ensures var a := Cell(c, 0, n);
            && 0 <= a && a + n <= |mem| && HeadersOk(mem[a + x := value], p.runs, n)
            && forall d :: d in p.live && d != c ==> SameChunk(mem, mem[a + x := value], d, n)
  {
    CellFacts(c, n, p.total);
    var a := Cell(c, 0, n);
    forall d | d in p.live && d != c ensures SameChunk(mem, mem[a + x := value], d, n) {
      CellFacts(d, n, p.total);
      ChunksApart(c, d, n);
      hide Cell;
    }
    var mem' := mem[a + x := value];
    forall i | 0 <= i < |p.runs| ensures HeaderOk(mem', p.runs, i, n) {
      RunApart(p, mem, n, c, i);
      hide Cell;
      HeaderMoves(mem, mem', p.runs, i, p.runs, i, n);
    }
  }

  lemma RunApart(p: Pool, mem: seq<int>, n: int, c: int, i: nat)
    requires Inv(p) && HEADER <= n && HeadersOk(mem, p.runs, n) && c in p.live && i < |p.runs|
    ensures HeaderOk(mem, p.runs, i, n) && Apart(Cell(c, 0, n), At(p.runs, i, n), n)
  {
    assert Has(p.runs[i], p.runs[i].start);
    ChunksApart(c, p.runs[i].start, n);
  }

  lemma GiveBackFacts(p: Pool, mem: seq<int>, n: int, c: int)
    requires Inv(p) && HEADER <= n && |mem| == p.total * n && HeadersOk(mem, p.runs, n) && c in p.live
    ensures var a := Cell(c, 0, n); var q := Free(p, c); var mem' := SetHeader(mem, a, 1, At(p.runs, 0, n));
            && 0 <= a && a + n <= |mem| && a % n == 0
            && Inv(q) && FreeCount(q.runs) == FreeCount(p.runs) + 1 && At(q.runs, 0, n) == a
            && HeadersOk(mem', q.runs, n)
            && forall d :: d in p.live && d != c ==> SameChunk(mem, mem', d, n)
  {
    CellFacts(c, n, p.total);
    FreeKeeps(p, c);
    Modular.ModUnique(c * n, c, 0, n);
    var a, q := Cell(c, 0, n), Free(p, c);
    var mem' := SetHeader(mem, a, 1, At(p.runs, 0, n));
    forall d | d in p.live && d != c ensures SameChunk(mem, mem', d, n) {
      CellFacts(d, n, p.total);
      ChunksApart(c, d, n);
      hide Cell;
    }
    forall i | 0 <= i < |q.runs| ensures HeaderOk(mem', q.runs, i, n) {
      if i > 0 {
        RunApart(p, mem, n, c, i - 1);
        hide Cell;
        HeaderMoves(mem, mem', p.runs, i - 1, q.runs, i, n);
      }
    }
  }

  lemma PoolFacts(p: Pool)
    requires Inv(p)
    ensures FreeCount(p.runs) == 0 <==> p.runs == []
  {
    NoRunsNoFree(p.runs);
  }

  // All that taking the first free chunk does.
  lemma TakeFacts(p: Pool, mem: seq<int>, n: int)
    requires Inv(p) && p.runs != [] && HEADER <= n && |mem| == p.total * n && HeadersOk(mem, p.runs, n)
    ensures var a := At(p.runs, 0, n); var q := Allocate(p).0;
            && 0 <= a && a + HEADER <= |mem| && (mem[a] != 1 ==> a + n + HEADER <= |mem|)
            && Inv(q) && FreeCount(q.runs) == FreeCount(p.runs) - 1
            && HeadersOk(AfterTake(mem, a, n), q.runs, n)
            && At(q.runs, 0, n) == (if mem[a] == 1 then mem[a + 2] else a + n)
            && forall c :: c in p.live ==> SameChunk(mem, AfterTake(mem, a, n), c, n)
  {
    hide AfterTake, SameChunk;
    NoRunsNoFree(p.runs);
    AllocateKeeps(p);
    TakeHeaders(p, mem, n);
    TakeKeepsLive(p, mem, n);
    assert HeaderOk(mem, p.runs, 0, n);
    CellFacts(p.runs[0].start, n, p.total);
  }

  // Nobody's chunk changes when another is handed out.
  lemma TakeKeepsLive(p: Pool, mem: seq<int>, n: int)
    requires Inv(p) && p.runs != [] && HEADER <= n && |mem| == p.total * n && HeadersOk(mem, p.runs, n)
    ensures var a := At(p.runs, 0, n);
            && 0 <= a && a + HEADER <= |mem| && (mem[a] != 1 ==> a + n + HEADER <= |mem|)
            && forall c :: c in p.live ==> SameChunk(mem, AfterTake(mem, a, n), c, n)
  {
    var runs, c := p.runs, p.runs[0].start;
    TakeHeaders(p, mem, n);
    assert HeaderOk(mem, runs, 0, n);
    assert Has(runs[0], c) && (runs[0].len > 1 ==> Has(runs[0], c + 1));
    forall d | d in p.live ensures SameChunk(mem, AfterTake(mem, At(p.runs, 0, n), n), d, n) {
      CellFacts(d, n, p.total);
      ChunksApart(c, d, n);
      CellFacts(c, n, p.total);
      if runs[0].len > 1 {
        ChunksApart(c + 1, d, n);
      }
      hide Cell, HeaderOk, HeadersOk;
    }
  }

  ghost predicate SameChunk(mem: seq<int>, mem': seq<int>, c: int, n: int) {
    var a := Cell(c, 0, n);
    0 <= a && a + n <= |mem| == |mem'| && 0 <= n && mem'[a..a + n] == mem[a..a + n]
  }

  lemma CeilingFacts(total: int, size: int)
    requires 0 < total && 0 < size
    ensures var n := (total + (size - 1)) / size; 0 < n && (n - 1) * size < total <= n * size
  {
    var n := (total + (size - 1)) / size;
    assert n * size + (total + (size - 1)) % size == total + (size - 1);
    assert (n - 1) * size == n * size - size;
  }

  // MPCreate; null where the source rejects the chunk size.
  method Create(chunkSize: int, totalSize: int) returns (mp: Allocator?)
    requires 0 < totalSize
    ensures mp != null <==> 16 <= chunkSize && chunkSize % 4 == 0
    ensures mp != null ==> mp.Valid() && fresh(mp) && fresh(mp.mem) && mp.pool == Fresh(mp.totalChunks)
    ensures mp != null ==> (mp.totalChunks - 1) * chunkSize < totalSize <= mp.totalChunks * chunkSize
  {
    if chunkSize < 16 || chunkSize % 4 != 0 {
      return null;
    }
    mp := new Allocator(chunkSize, totalSize);
  }
}
