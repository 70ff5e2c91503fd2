/** Swapping a segment out to disk and back in (arch/i86/mm/malloc.c, CONFIG_SWAP): two segment maps, the
  * memory and device bytes behind them, and the task table that names segments in either. */
module Swap {
  import opened Blocks
  import opened HoleList
  import opened Malloc

  const K := 1024

  /** A task slot: its segments, which of them are on the swap device, and the saved registers that
    * swap_in rewrites. */
  datatype Task = Task(cseg: nat, dseg: nat, csSwap: bool, dsSwap: bool, sp: nat, cs: nat, ds: nat, ss: nat) {
    predicate Resident() { !csSwap && !dsSwap }
  }

  // ---------------------------------------------------------------- the task table

  /** The loop body of swap_out for one task. */
  function OutTask(t: Task, base: nat, to: nat): Task {
    var u := if t.cseg == base && !t.csSwap then t.(cseg := to, csSwap := true) else t;
    if t.dseg == base && !t.dsSwap then u.(dseg := to, dsSwap := true) else u
  }

  /** The loop body of swap_in for one task, registers included. */
  function InTask(t: Task, base: nat, to: nat): Task {
    var u := if t.cseg == base && t.csSwap then t.(cseg := to, csSwap := false) else t;
    var w := if t.dseg == base && t.dsSwap then u.(dseg := to, dsSwap := false) else u;
    if Rejoins(t, base) then w.(cs := w.cseg, ds := w.dseg, ss := w.dseg) else w
  }

  /** A task that was not resident and becomes so when swap segment `base` comes in. */
  predicate Rejoins(t: Task, base: nat) {
    && !t.Resident()
    && (t.csSwap ==> t.cseg == base)
    && (t.dsSwap ==> t.dseg == base)
  }

  /** Where put_ustack(t, 2, cs) stores: the word at ss:sp+2. */
  function SavedCs(t: Task): nat { 16 * t.ss + U16(t.sp + 2) }

  /** The 16-bit word in memory at a byte address. */
  function WordAt(mem: seq<Byte>, at: nat): nat
    requires at + 1 < |mem|
  {
    (mem[at] as int) + 256 * (mem[at + 1] as int)
  }

  /** pokew into memory, if it lies within the megabyte. */
  function Poke(mem: seq<Byte>, at: nat, w: nat): (r: seq<Byte>)
    requires w < 0x1_0000
    ensures |r| == |mem|
    ensures forall y :: 0 <= y < |mem| && y != at && y != at + 1 ==> r[y] == mem[y]
    ensures at + 1 < |mem| ==> WordAt(r, at) == w
  {
    if at + 1 < |mem| then mem[at := w % 256][at + 1 := w / 256] else mem
  }

  /** Memory after the first n tasks have been brought up to date. */
  function Patched(mem: seq<Byte>, ts: seq<Task>, base: nat, to: nat, n: nat): (r: seq<Byte>)
    requires n <= |ts|
    ensures |r| == |mem|
    ensures forall y :: 0 <= y < |mem| && !PatchedByte(ts, base, to, n, y) ==> r[y] == mem[y]
  {
    if n == 0 then mem else
    var m := Patched(mem, ts, base, to, n - 1);
    var t := InTask(ts[n - 1], base, to);
    if Rejoins(ts[n - 1], base) then Poke(m, SavedCs(t), U16(t.cs)) else m
  }

  /** Byte y is part of a saved-CS word among the first n tasks that rejoin. */
  ghost predicate PatchedByte(ts: seq<Task>, base: nat, to: nat, n: nat, y: nat)
    requires n <= |ts|
  {
    exists i :: 0 <= i < n && Rejoins(ts[i], base)
        && (y == SavedCs(InTask(ts[i], base, to)) || y == SavedCs(InTask(ts[i], base, to)) + 1)
  }

  /** Task i rejoins, and no later one that does stores into the two bytes of its saved CS. */
  ghost predicate LastStored(ts: seq<Task>, base: nat, to: nat, n: nat, i: nat)
    requires i < n <= |ts|
  {
    Rejoins(ts[i], base) && forall j :: i < j < n && Rejoins(ts[j], base) ==>
      var a, b := SavedCs(InTask(ts[i], base, to)), SavedCs(InTask(ts[j], base, to));
      a + 1 < b || b + 1 < a
  }

  /** What a rejoining task will pop as its CS is its new code segment. */
  lemma {:induction false} StoredCs(mem: seq<Byte>, ts: seq<Task>, base: nat, to: nat, n: nat, i: nat)
    requires i < n <= |ts| && LastStored(ts, base, to, n, i) && SavedCs(InTask(ts[i], base, to)) + 1 < |mem|
    ensures var r, u := Patched(mem, ts, base, to, n), InTask(ts[i], base, to);
            WordAt(r, SavedCs(u)) == U16(u.cs)
    decreases n
  {
    if i < n - 1 { StoredCs(mem, ts, base, to, n - 1, i); }
  }

  /** A task that ran from memory, with a segment there. */
  predicate Returns(t: Task, base: nat) { t.Resident() && (t.cseg == base || t.dseg == base) }

  /** Out and in again: exactly the tasks that named the segment now name its new place, resident as
    * before; everyone else names what they named. */
  lemma OutIn(t: Task, base: nat, slot: nat, to: nat)
    requires (t.csSwap ==> t.cseg != slot) && (t.dsSwap ==> t.dseg != slot)
    ensures var u := InTask(OutTask(t, base, slot), slot, to);
            && u.cseg == (if t.cseg == base && !t.csSwap then to else t.cseg)
            && u.dseg == (if t.dseg == base && !t.dsSwap then to else t.dseg)
            && u.csSwap == t.csSwap && u.dsSwap == t.dsSwap && u.sp == t.sp
            && (if Returns(t, base) then u.cs == u.cseg && u.ds == u.dseg && u.ss == u.dseg
                else u.cs == t.cs && u.ds == t.ds && u.ss == t.ss)
            && (Rejoins(OutTask(t, base, slot), slot) <==> Returns(t, base))
  {
  }

  /** What swap_out and swap_in come to: the segment's new place, no room, or panic for want of a
    * descriptor. */
  datatype Moved = At(base: nat) | NoRoom | Panic

  /** Blocks a segment of `extent` pages takes on the device. */
  function BlocksFor(extent: nat): (n: nat)
    ensures 0 < extent <= 4096 ==> 64 * (n - 1) < extent <= 64 * n
  {
    U16(extent + 0x3f) / 64
  }

  class Swapper {
    const memmap: MallocHead
    const swapmap: MallocHead
    var tasks: seq<Task>

    ghost predicate Valid()
      reads this, memmap, swapmap, memmap.holes, swapmap.holes
    {
      && Maps() && memmap.hi <= 0xa000
      && (forall i :: 0 <= i < |tasks| ==> tasks[i].cseg < 0x1_0000 && tasks[i].dseg < 0x1_0000)
      && (forall i :: 0 <= i < |tasks| ==> SwapNamed(tasks[i], swapmap.Segs()))
    }

    constructor (m: MallocHead, s: MallocHead, ts: seq<Task>)
      requires m != s && m.holes != s.holes && m.Valid() && s.Valid() && m.unit == 16 && s.unit == K && m.hi <= 0xa000
      requires forall i :: 0 <= i < |ts| ==>
                 ts[i].cseg < 0x1_0000 && ts[i].dseg < 0x1_0000 && SwapNamed(ts[i], s.Segs())
      ensures Valid() && memmap == m && swapmap == s && tasks == ts
    {
      memmap, swapmap, tasks := m, s, ts;
    }

    /** The write loop of swap_out: `blocks` blocks from memory at page `from` to the device at `to`. The
      * buffer address ct << 10 is 16 bits wide. */
    method WriteOut(from: nat, to: nat, blocks: nat)
      requires memmap != swapmap && |memmap.mem| == MEMORY && |swapmap.mem| == 0x1_0000 * K
      requires blocks <= 64 && 16 * from + K * blocks <= MEMORY && to + blocks <= 0x1_0000
      modifies swapmap`mem
      ensures |swapmap.mem| == 0x1_0000 * K
      ensures Copied(old(swapmap.mem), swapmap.mem, K * to, memmap.mem, 16 * from, K * blocks)
    {
      var ct := 0;
      while ct < blocks
        invariant 0 <= ct <= blocks && |swapmap.mem| == 0x1_0000 * K
        invariant Copied(old(swapmap.mem), swapmap.mem, K * to, memmap.mem, 16 * from, K * ct)
      {
        var src := 16 * from + U16(K * ct);
        swapmap.mem := swapmap.mem[..K * (to + ct)] + memmap.mem[src..src + K] + swapmap.mem[K * (to + ct) + K..];
        ct := ct + 1;
      }
    }

    /** The read loop of swap_in. */
    method ReadIn(from: nat, to: nat, blocks: nat)
      requires memmap != swapmap && |memmap.mem| == MEMORY && |swapmap.mem| == 0x1_0000 * K
      requires blocks <= 64 && 16 * to + K * blocks <= MEMORY && from + blocks <= 0x1_0000
      modifies memmap`mem
      ensures |memmap.mem| == MEMORY
      ensures Copied(old(memmap.mem), memmap.mem, 16 * to, swapmap.mem, K * from, K * blocks)
    {
      var ct := 0;
      while ct < blocks
        invariant 0 <= ct <= blocks && |memmap.mem| == MEMORY
        invariant Copied(old(memmap.mem), memmap.mem, 16 * to, swapmap.mem, K * from, K * ct)
      {
        var dst := 16 * to + U16(K * ct);
        memmap.mem := memmap.mem[..dst] + swapmap.mem[K * (from + ct)..K * (from + ct) + K] + memmap.mem[dst + K..];
        ct := ct + 1;
      }
    }

    /** The task loop of swap_out. */
    method MoveOut(base: nat, to: nat)
      modifies this`tasks
      ensures |tasks| == old(|tasks|)
      ensures forall i :: 0 <= i < |tasks| ==> tasks[i] == OutTask(old(tasks)[i], base, to)
    {
      var i := 0;
      while i < |tasks|
        invariant 0 <= i <= |tasks| == old(|tasks|)
        invariant forall j :: 0 <= j < i ==> tasks[j] == OutTask(old(tasks)[j], base, to)
        invariant forall j :: i <= j < |tasks| ==> tasks[j] == old(tasks)[j]
      {
        var c := tasks[i];
        if tasks[i].cseg == base && !c.csSwap { tasks := tasks[i := tasks[i].(cseg := to, csSwap := true)]; }
        if tasks[i].dseg == base && !c.dsSwap { tasks := tasks[i := tasks[i].(dseg := to, dsSwap := true)]; }
        i := i + 1;
      }
    }

    /** The task loop of swap_in, which also stores the new CS where a rejoining task will pop it. */
    method MoveIn(base: nat, to: nat)
      requires forall i :: 0 <= i < |tasks| ==> tasks[i].cseg < 0x1_0000 && tasks[i].dseg < 0x1_0000
      requires to < 0x1_0000
      modifies this`tasks, memmap`mem
      ensures |tasks| == old(|tasks|)
      ensures forall i :: 0 <= i < |tasks| ==> tasks[i] == InTask(old(tasks)[i], base, to)
      ensures memmap.mem == Patched(old(memmap.mem), old(tasks), base, to, |old(tasks)|)
    {
      var i := 0;
      while i < |tasks|
        invariant 0 <= i <= |tasks| == old(|tasks|)
        invariant forall j :: 0 <= j < i ==> tasks[j] == InTask(old(tasks)[j], base, to)
        invariant forall j :: i <= j < |tasks| ==> tasks[j] == old(tasks)[j]
        invariant memmap.mem == Patched(old(memmap.mem), old(tasks), base, to, i)
      {
        var c := tasks[i];
        var t := c;
        if t.cseg == base && c.csSwap { t := t.(cseg := to, csSwap := false); }
        if t.dseg == base && c.dsSwap { t := t.(dseg := to, dsSwap := false); }
        if !c.Resident() && t.Resident() {
          t := t.(cs := t.cseg, ds := t.dseg, ss := t.dseg);
          memmap.mem := Poke(memmap.mem, SavedCs(t), U16(t.cs));
        }
        tasks := tasks[i := t];
        i := i + 1;
      }
    }

    /** mm_alloc's tail on either map: claim a best fit of `pages` and give it a reference count. */
    method Place(map0: MallocHead, pages: nat, count: Byte) returns (r: Moved, ghost x: Seg)
      requires map0.Valid() && pages > 0
      modifies map0, map0.holes
      ensures map0.mem == old(map0.mem)
      ensures r.NoRoom? <==> !exists a :: FreeRun(old(map0.Segs()), a, pages)
      ensures r.NoRoom? ==> map0.Valid() && map0.Segs() == old(map0.Segs())
      ensures r.At? ==> map0.Valid() && x == Seg(r.base, pages, Used, count)
      ensures r.At? ==> UsedPlus(old(map0.Segs()), map0.Segs(), x)
      ensures r.At? ==> map0.lo <= r.base && r.base + pages <= map0.hi && !UsedAt(old(map0.Segs()), r.base)
      ensures r.Panic? ==> old(map0.Spent())
    {
      x := Seg(0, 0, Used, 0);
      ghost var s := map0.Segs();
      NoFitIffNoRun(s, map0.lo, map0.hi, pages);
      var m;
      ghost var k, stale;
      m, k := map0.BestFitHole(pages);
      if m == -1 { return NoRoom, x; }
      map0.Seen(k);
      assert HoleList.Fits(s, k, pages);
      Inside(s, map0.lo, map0.hi, k);
      var ok;
      ghost var n;
      ok, stale, n := map0.Claim(m, pages, k);
      if !ok { return Moved.Panic, x; }
      map0.Seen(k);
      map0.SetCount(m, k, count);
      map0.Seen(k);
      x := map0.Segs()[k];
      r := At(map0.holes[m].base);
      PlacedUsed(s, map0.lo, map0.hi, k, pages, stale, count);
    }

    /** Freeing a whole segment of either map. */
    method Vacate(map0: MallocHead, base: nat)
      requires map0.Valid() && UsedAt(map0.Segs(), base)
      modifies map0, map0.holes
      ensures map0.Valid() && map0.mem == old(map0.mem) && UsedMinus(old(map0.Segs()), map0.Segs(), base)
      ensures old(!map0.Spent()) ==> !map0.Spent()
    {
      ghost var s := map0.Segs();
      ghost var y :| y in s && y.flag == Used && y.base == base;
      var m;
      ghost var k;
      m, k := map0.Lookup(base, y);
      BaseUnique(s, map0.lo, map0.hi, base);
      map0.FreeHole(m, k);
      forall x: Seg | x.flag == Used ensures x in map0.Segs() <==> x in s && x.base != base {
        FreedUsed(s, k, s[k].refcount, x);
      }
    }

    ghost predicate Maps()
      reads this, memmap, swapmap, memmap.holes, swapmap.holes
    {
      && memmap != swapmap && memmap.holes != swapmap.holes
      && memmap.Valid() && swapmap.Valid() && memmap.unit == 16 && swapmap.unit == K
    }

    /** What follows the claim in swap_out: tasks told, blocks written, memory freed. */
    method OutRest(base: nat, to: nat, blocks: nat)
      requires Maps() && UsedAt(memmap.Segs(), base)
      requires blocks <= 64 && 16 * base + K * blocks <= MEMORY && to + blocks <= 0x1_0000
      modifies this, memmap, memmap.holes, swapmap`mem
      ensures Maps() && memmap.mem == old(memmap.mem) && swapmap.Segs() == old(swapmap.Segs())
      ensures UsedMinus(old(memmap.Segs()), memmap.Segs(), base)
      ensures old(!memmap.Spent()) ==> !memmap.Spent()
      ensures Copied(old(swapmap.mem), swapmap.mem, K * to, memmap.mem, 16 * base, K * blocks)
      ensures |tasks| == |old(tasks)| && forall i :: 0 <= i < |tasks| ==> tasks[i] == OutTask(old(tasks)[i], base, to)
    {
      MoveOut(base, to);
      WriteOut(base, to, blocks);
      Vacate(memmap, base);
    }

    /** What follows the claim in swap_in: blocks read, tasks told, blocks freed. */
    method InRest(base: nat, to: nat, blocks: nat)
      requires Maps() && UsedAt(swapmap.Segs(), base)
      requires forall i :: 0 <= i < |tasks| ==> tasks[i].cseg < 0x1_0000 && tasks[i].dseg < 0x1_0000
      requires to < 0x1_0000 && blocks <= 64 && 16 * to + K * blocks <= MEMORY && base + blocks <= 0x1_0000
      modifies this, swapmap, swapmap.holes, memmap`mem
      ensures Maps() && swapmap.mem == old(swapmap.mem) && memmap.Segs() == old(memmap.Segs())
      ensures UsedMinus(old(swapmap.Segs()), swapmap.Segs(), base)
      ensures Restored(old(memmap.mem), memmap.mem, 16 * to, swapmap.mem, K * base, K * blocks, old(tasks), base, to)
      ensures |tasks| == |old(tasks)| && forall i :: 0 <= i < |tasks| ==> tasks[i] == InTask(old(tasks)[i], base, to)
    {
      ReadIn(base, to, blocks);
      ghost var mid := memmap.mem;
      MoveIn(base, to);
      Vacate(swapmap, base);
      assert Copied(old(memmap.mem), mid, 16 * to, swapmap.mem, K * base, K * blocks);
    }

    /** swap_out: the segment's bytes, rounded up to whole blocks, go to the device and every task that
      * named it is told; its memory is freed. */
    method SwapOut(base: nat, ghost o: Seg) returns (r: Moved, ghost so: Seg)
      requires Valid() && o in memmap.Segs() && o.flag == Used && o.base == base && o.extent <= 4096
      modifies this, memmap, memmap.holes, swapmap, swapmap.holes
      ensures r.NoRoom? <==> !exists a :: FreeRun(old(swapmap.Segs()), a, BlocksFor(o.extent))
      ensures r.NoRoom? ==>
                && Valid() && tasks == old(tasks) && swapmap.mem == old(swapmap.mem)
                && memmap.Segs() == old(memmap.Segs()) && swapmap.Segs() == old(swapmap.Segs())
      ensures memmap.mem == old(memmap.mem)
      ensures r.Panic? ==> old(swapmap.Spent())
      ensures old(!memmap.Spent()) ==> !memmap.Spent()
      ensures r.At? ==>
                && Valid() && so == Seg(r.base, BlocksFor(o.extent), Used, o.refcount)
                && UsedPlus(old(swapmap.Segs()), swapmap.Segs(), so) && !UsedAt(old(swapmap.Segs()), r.base)
                && UsedMinus(old(memmap.Segs()), memmap.Segs(), base)
                && Copied(old(swapmap.mem), swapmap.mem, K * r.base, memmap.mem, 16 * base, K * BlocksFor(o.extent))
                && |tasks| == |old(tasks)|
                && forall i :: 0 <= i < |tasks| ==> tasks[i] == OutTask(old(tasks)[i], base, r.base)
    {
      var m;
      ghost var k;
      m, k := memmap.Lookup(base, o);
      Inside(memmap.Segs(), memmap.lo, memmap.hi, k);
      var blocks := BlocksFor(memmap.holes[m].extent);
      ghost var w := swapmap.Segs();
      r, so := Place(swapmap, blocks, memmap.holes[m].refcount);
      if !r.At? { return; }
      assert UsedAt(memmap.Segs(), base);
      OutRest(base, r.base, blocks);
      AllStill(old(tasks), w, swapmap.Segs(), so, base, tasks);
    }

    /** swap_in: the segment comes back to memory, every task that named it is told, and its blocks are
      * freed. A task all of whose segments are now resident gets its registers and saved CS rewritten. */
    method SwapIn(base: nat, ghost so: Seg) returns (r: Moved, ghost o: Seg)
      requires Valid() && so in swapmap.Segs() && so.flag == Used && so.base == base && so.extent <= 64
      modifies this, memmap, memmap.holes, swapmap, swapmap.holes
      ensures swapmap.mem == old(swapmap.mem)
      ensures r.Panic? ==> old(memmap.Spent())
      ensures r.NoRoom? <==> !exists a :: FreeRun(old(memmap.Segs()), a, 64 * so.extent)
      ensures r.NoRoom? ==>
                && Valid() && tasks == old(tasks) && memmap.mem == old(memmap.mem)
                && memmap.Segs() == old(memmap.Segs()) && swapmap.Segs() == old(swapmap.Segs())
      ensures r.At? ==>
                && Valid() && o == Seg(r.base, 64 * so.extent, Used, so.refcount)
                && UsedPlus(old(memmap.Segs()), memmap.Segs(), o) && !UsedAt(old(memmap.Segs()), r.base)
                && UsedMinus(old(swapmap.Segs()), swapmap.Segs(), base)
                && |tasks| == |old(tasks)|
                && (forall i :: 0 <= i < |tasks| ==> tasks[i] == InTask(old(tasks)[i], base, r.base))
                && Restored(old(memmap.mem), memmap.mem, 16 * r.base, swapmap.mem, K * base, K * so.extent,
                    old(tasks), base, r.base)
    {
      ghost var w := swapmap.Segs();
      var m;
      ghost var k;
      m, k := swapmap.Lookup(base, so);
      Inside(w, swapmap.lo, swapmap.hi, k);
      var blocks := swapmap.holes[m].extent;
      r, o := Place(memmap, 64 * blocks, swapmap.holes[m].refcount);
      if !r.At? { return; }
      assert UsedAt(swapmap.Segs(), base);
      InRest(base, r.base, blocks);
      AllLess(old(tasks), w, swapmap.Segs(), base, r.base, tasks);
    }
  }

  /** What a task has on the swap device is in use there. */
  ghost predicate SwapNamed(t: Task, s: Segs) {
    && (t.csSwap ==> UsedAt(s, t.cseg))
    && (t.dsSwap ==> UsedAt(s, t.dseg))
  }

  ghost predicate UsedAt(s: Segs, b: nat) {
    exists x :: x in s && x.flag == Used && x.base == b
  }

  /** The segments in use are those of s, less the one at `gone`, plus x. */
  ghost predicate UsedPlus(s: Segs, s': Segs, x: Seg) {
    x in s' && x.flag == Used && forall y: Seg :: y.flag == Used ==> (y in s' <==> y in s || y == x)
  }

  ghost predicate UsedMinus(s: Segs, s': Segs, b: nat) {
    forall y: Seg :: y.flag == Used ==> (y in s' <==> y in s && y.base != b)
  }

  /** `after` is `before` with n bytes of src from position `from` laid over it at `at`. */
  ghost predicate Copied(before: seq<Byte>, after: seq<Byte>, at: nat, src: seq<Byte>, from: nat, n: nat) {
    && |after| == |before| && at + n <= |before| && from + n <= |src|
    && forall y :: 0 <= y < |after| ==> after[y] == if at <= y < at + n then src[from + (y - at)] else before[y]
  }

  lemma PlacedUsed(s: Segs, lo: nat, hi: nat, k: nat, pages: nat, stale: Byte, count: Byte)
    requires Tiles(s, lo, hi) && NoAdjacentFree(s) && HoleList.Fits(s, k, pages) && pages > 0
    ensures var t := Take(s, k, pages, stale);
            UsedPlus(s, t[k := t[k].(refcount := count)], Seg(s[k].base, pages, Used, count))
    ensures !UsedAt(s, s[k].base)
  {
    var t := Take(s, k, pages, stale);
    var x := Seg(s[k].base, pages, Used, count);
    var t' := t[k := x];
    TakeTiles(s, k, pages, stale, lo, hi);
    BaseUnique(s, lo, hi, s[k].base);
    BaseUnique(t, lo, hi, s[k].base);
    assert t'[k] in t' && t[k] in t;
    forall y: Seg | y.flag == Used ensures y in t' <==> y in s || y == x {
      TakeUsed(s, k, pages, stale, y);
      if y in t && y != t[k] { var i :| 0 <= i < |t| && t[i] == y; assert t'[i] == y; }
    }
  }

  /** Memory after a swap_in: n bytes of src laid over it at `at`, and then the saved-CS words. */
  ghost predicate Restored(before: seq<Byte>, after: seq<Byte>, at: nat, src: seq<Byte>, from: nat, n: nat,
                           ts: seq<Task>, base: nat, to: nat) {
    exists mid :: Copied(before, mid, at, src, from, n) && after == Patched(mid, ts, base, to, |ts|)
  }

  lemma AllStill(ts: seq<Task>, s: Segs, s': Segs, so: Seg, base: nat, ts': seq<Task>)
    requires forall i :: 0 <= i < |ts| ==> SwapNamed(ts[i], s)
    requires UsedPlus(s, s', so)
    requires |ts'| == |ts| && forall i :: 0 <= i < |ts| ==> ts'[i] == OutTask(ts[i], base, so.base)
    ensures forall i :: 0 <= i < |ts'| ==> SwapNamed(ts'[i], s')
  {
    assert UsedAt(s', so.base);
    forall b | UsedAt(s, b) ensures UsedAt(s', b) { }
    forall i | 0 <= i < |ts'| ensures SwapNamed(ts'[i], s') { assert SwapNamed(ts[i], s); }
  }

  lemma AllLess(ts: seq<Task>, s: Segs, s': Segs, base: nat, to: nat, ts': seq<Task>)
    requires forall i :: 0 <= i < |ts| ==> SwapNamed(ts[i], s)
    requires UsedMinus(s, s', base)
    requires |ts'| == |ts| && forall i :: 0 <= i < |ts| ==> ts'[i] == InTask(ts[i], base, to)
    ensures forall i :: 0 <= i < |ts'| ==> SwapNamed(ts'[i], s')
  {
    forall b | b != base && UsedAt(s, b) ensures UsedAt(s', b) { }
    forall i | 0 <= i < |ts'| ensures SwapNamed(ts'[i], s') { assert SwapNamed(ts[i], s); }
  }

  // ---------------------------------------------------------------- out and in again

  /** The tasks of ts as swap_out leaves them. */
  function OutAll(ts: seq<Task>, base: nat, slot: nat): seq<Task> {
    seq(|ts|, i requires 0 <= i < |ts| => OutTask(ts[i], base, slot))
  }

  /** Every task that named the segment names its new place, in the same role, and if it can run again its registers
    * name its segments; every other task names what it named. */
  ghost predicate Regrouped(ts: seq<Task>, ts': seq<Task>, base: nat, to: nat) {
    && |ts'| == |ts|
    && forall i :: 0 <= i < |ts| ==>
         && ts'[i].cseg == (if ts[i].cseg == base && !ts[i].csSwap then to else ts[i].cseg)
         && ts'[i].dseg == (if ts[i].dseg == base && !ts[i].dsSwap then to else ts[i].dseg)
         && ts'[i].csSwap == ts[i].csSwap && ts'[i].dsSwap == ts[i].dsSwap && ts'[i].sp == ts[i].sp
         && (if ts[i].Resident() && (ts[i].cseg == base || ts[i].dseg == base)
             then ts'[i].cs == ts'[i].cseg && ts'[i].ds == ts'[i].dseg && ts'[i].ss == ts'[i].dseg
             else ts'[i].cs == ts[i].cs && ts'[i].ds == ts[i].ds && ts'[i].ss == ts[i].ss)
  }

  /** Every task that can run again has its code segment as the word it will pop for CS, unless a later one's
    * overlaps. */
  ghost predicate StacksRight(mem: seq<Byte>, ts: seq<Task>, slot: nat, to: nat) {
    forall i: nat :: i < |ts| ==> StackRight(mem, ts, slot, to, i)
  }

  ghost predicate StackRight(mem: seq<Byte>, ts: seq<Task>, slot: nat, to: nat, i: nat)
    requires i < |ts|
  {
    LastStored(ts, slot, to, |ts|, i) && SavedCs(InTask(ts[i], slot, to)) + 1 < |mem| ==>
      var u := InTask(ts[i], slot, to); WordAt(mem, SavedCs(u)) == U16(u.cs)
  }

  /** The bytes of segment o, at their new place, but for saved-CS words. */
  ghost predicate BytesKept(mem: seq<Byte>, mem': seq<Byte>, o: Seg, to: nat, ts: seq<Task>, slot: nat) {
    forall y :: 16 * to <= y < 16 * to + 16 * o.extent && y < |mem'| && !PatchedByte(ts, slot, to, |ts|, y) ==>
      0 <= 16 * o.base + (y - 16 * to) < |mem| && mem'[y] == mem[16 * o.base + (y - 16 * to)]
  }

  /** No other segment in use is moved, and none of its bytes changes but for saved-CS words. */
  ghost predicate OthersKept(mem: seq<Byte>, mem': seq<Byte>, s: Segs, s': Segs, o: Seg, ts: seq<Task>, slot: nat,
      to: nat) {
    forall z: Seg :: z in s && z.flag == Used && z.base != o.base ==>
      z in s' && forall y :: 16 * z.base <= y < 16 * z.End() && y < |mem| && y < |mem'| ==>
        PatchedByte(ts, slot, to, |ts|, y) || mem'[y] == mem[y]
  }

  /** swap_out of a segment and swap_in of what it became. When both find room the segment is back in
    * memory with its bytes and count, its tasks regrouped around it, the device as free as before, and
    * nobody else's segment moved. */
  method RoundTrip(s: Swapper, base: nat, ghost o: Seg) returns (r: Moved, ghost slot: nat)
    requires s.Valid() && o in s.memmap.Segs() && o.flag == Used && o.base == base && o.extent <= 4096
    modifies s, s.memmap, s.memmap.holes, s.swapmap, s.swapmap.holes
    ensures r.At? ==>
              && s.Valid()
              && Seg(r.base, 64 * BlocksFor(o.extent), Used, o.refcount) in s.memmap.Segs()
              && Regrouped(old(s.tasks), s.tasks, base, r.base)
              && BytesKept(old(s.memmap.mem), s.memmap.mem, o, r.base, OutAll(old(s.tasks), base, slot), slot)
              && StacksRight(s.memmap.mem, OutAll(old(s.tasks), base, slot), slot, r.base)
              && OthersKept(old(s.memmap.mem), s.memmap.mem, old(s.memmap.Segs()), s.memmap.Segs(), o,
                            OutAll(old(s.tasks), base, slot), slot, r.base)
              && forall y: Seg :: y.flag == Used ==> (y in s.swapmap.Segs() <==> y in old(s.swapmap.Segs()))
    ensures r.NoRoom? ==>
              || (forall a :: !FreeRun(old(s.swapmap.Segs()), a, BlocksFor(o.extent)))
              || (forall a :: !FreeRun(old(s.memmap.Segs()), a, 64 * BlocksFor(o.extent)))
    ensures r.Panic? ==> old(s.swapmap.Spent()) || old(s.memmap.Spent())
  {
    slot := 0;
    ghost var so, n;
    ghost var mem0, dev0, seg0, w0, ts0 := s.memmap.mem, s.swapmap.mem, s.memmap.Segs(), s.swapmap.Segs(), s.tasks;
    r, so := s.SwapOut(base, o);
    if !r.At? { return; }
    slot := r.base;
    ghost var ts1 := s.tasks;
    assert ts1 == OutAll(ts0, base, slot);
    ghost var seg1 := s.memmap.Segs();
    forall a | FreeRun(seg0, a, 64 * BlocksFor(o.extent)) ensures FreeRun(seg1, a, 64 * BlocksFor(o.extent)) {
      FreeStays(seg0, seg1, s.memmap.lo, s.memmap.hi, base, a, 64 * BlocksFor(o.extent));
    }
    r, n := s.SwapIn(r.base, so);
    if !r.At? { return; }
    SwapGone(w0, so, s.swapmap.Segs());
    ghost var mid :| Copied(mem0, mid, 16 * r.base, s.swapmap.mem, K * slot, K * so.extent)
        && s.memmap.mem == Patched(mid, ts1, slot, r.base, |ts1|);
    BytesReturn(mem0, mid, s.memmap.mem, dev0, s.swapmap.mem, o, slot, r.base, ts1);
    OthersReturn(mem0, mid, s.memmap.mem, s.swapmap.mem, seg0, seg1, s.memmap.Segs(), s.memmap.lo, s.memmap.hi, o, n,
        slot, so.extent, ts1);
    forall i | 0 <= i < |ts0| ensures s.tasks[i] == InTask(OutTask(ts0[i], base, slot), slot, r.base)
      && (ts0[i].csSwap ==> ts0[i].cseg != slot) && (ts0[i].dsSwap ==> ts0[i].dseg != slot) {
      assert SwapNamed(ts0[i], w0);
    }
    RegroupAll(ts0, s.tasks, base, slot, r.base);
    StacksAll(mid, s.memmap.mem, ts1, slot, r.base);
  }

  lemma StacksAll(mid: seq<Byte>, mem: seq<Byte>, ts: seq<Task>, slot: nat, to: nat)
    requires mem == Patched(mid, ts, slot, to, |ts|)
    ensures StacksRight(mem, ts, slot, to)
  {
    forall i: nat | i < |ts| ensures StackRight(mem, ts, slot, to, i) {
      if LastStored(ts, slot, to, |ts|, i) && SavedCs(InTask(ts[i], slot, to)) + 1 < |mem| {
        StoredCs(mid, ts, slot, to, |ts|, i);
      }
    }
  }

  lemma RegroupAll(ts: seq<Task>, ts': seq<Task>, base: nat, slot: nat, to: nat)
    requires |ts'| == |ts|
    requires forall i :: 0 <= i < |ts| ==> ts'[i] == InTask(OutTask(ts[i], base, slot), slot, to)
    requires forall i :: 0 <= i < |ts| ==>
               (ts[i].csSwap ==> ts[i].cseg != slot) && (ts[i].dsSwap ==> ts[i].dseg != slot)
    ensures Regrouped(ts, ts', base, to)
  {
    forall i | 0 <= i < |ts| ensures ts'[i] == InTask(OutTask(ts[i], base, slot), slot, to) {
      OutIn(ts[i], base, slot, to);
    }
    forall i | 0 <= i < |ts|
      ensures ts'[i].cseg == (if ts[i].cseg == base && !ts[i].csSwap then to else ts[i].cseg)
           && ts'[i].dseg == (if ts[i].dseg == base && !ts[i].dsSwap then to else ts[i].dseg)
           && ts'[i].csSwap == ts[i].csSwap && ts'[i].dsSwap == ts[i].dsSwap && ts'[i].sp == ts[i].sp
    {
      OutIn(ts[i], base, slot, to);
    }
  }

  /** Freeing a segment takes no free page away. */
  lemma FreeStays(s: Segs, s': Segs, lo: nat, hi: nat, b: nat, a: int, n: nat)
    requires Tiles(s, lo, hi) && Tiles(s', lo, hi) && UsedMinus(s, s', b) && FreeRun(s, a, n)
    ensures FreeRun(s', a, n)
  {
    forall p | a <= p < a + n ensures FreePage(s', p) {
      assert FreePage(s, p);
      var k :| 0 <= k < |s| && s[k].flag == Free && s[k].base <= p < s[k].End();
      Inside(s, lo, hi, k);
      var j := Covers(s', lo, hi, p);
      NoSpares(s', lo, hi);
      if s'[j].flag == Used {
        assert s'[j] in s;
        var i :| 0 <= i < |s| && s[i] == s'[j];
        SegmentsDisjoint(s, lo, hi, i, k, p);
      }
    }
  }

  /** Every page of a tiling is in some segment. */
  lemma {:induction false} Covers(s: Segs, lo: nat, hi: nat, p: int) returns (j: nat)
    requires Tiles(s, lo, hi) && lo <= p < hi
    ensures j < |s| && s[j].base <= p < s[j].End()
    decreases |s|
  {
    if p < s[0].End() { return 0; }
    j := Covers(s[1..], s[0].End(), hi, p);
    j := j + 1;
  }

  lemma SwapGone(w0: Segs, so: Seg, w2: Segs)
    requires !UsedAt(w0, so.base)
    requires exists w1 :: UsedPlus(w0, w1, so) && UsedMinus(w1, w2, so.base)
    ensures forall y: Seg :: y.flag == Used ==> (y in w2 <==> y in w0)
  {
    var w1 :| UsedPlus(w0, w1, so) && UsedMinus(w1, w2, so.base);
  }

  lemma BytesReturn(mem0: seq<Byte>, mid: seq<Byte>, mem2: seq<Byte>, dev0: seq<Byte>, dev1: seq<Byte>, o: Seg,
      slot: nat, to: nat, ts: seq<Task>)
    requires o.extent <= 4096
    requires Copied(dev0, dev1, K * slot, mem0, 16 * o.base, K * BlocksFor(o.extent))
    requires Copied(mem0, mid, 16 * to, dev1, K * slot, K * BlocksFor(o.extent))
    requires mem2 == Patched(mid, ts, slot, to, |ts|)
    ensures BytesKept(mem0, mem2, o, to, ts, slot)
  {
    assert 16 * o.extent <= K * BlocksFor(o.extent);
    forall y | 16 * to <= y < 16 * to + 16 * o.extent && y < |mem2| && !PatchedByte(ts, slot, to, |ts|, y)
      ensures 0 <= 16 * o.base + (y - 16 * to) < |mem0| && mem2[y] == mem0[16 * o.base + (y - 16 * to)]
    {
      assert mid[y] == dev1[K * slot + (y - 16 * to)];
    }
  }

  lemma OthersReturn(mem0: seq<Byte>, mid: seq<Byte>, mem2: seq<Byte>, dev: seq<Byte>, s0: Segs, s1: Segs, s2: Segs,
      lo: nat, hi: nat,
                     o: Seg, n: Seg, slot: nat, blocks: nat, ts: seq<Task>)
    requires UsedMinus(s0, s1, o.base) && UsedPlus(s1, s2, n) && !UsedAt(s1, n.base) && Tiles(s2, lo, hi)
    requires n.extent == 64 * blocks
    requires Copied(mem0, mid, 16 * n.base, dev, K * slot, K * blocks)
    requires mem2 == Patched(mid, ts, slot, n.base, |ts|)
    ensures OthersKept(mem0, mem2, s0, s2, o, ts, slot, n.base)
  {
    forall z: Seg | z in s0 && z.flag == Used && z.base != o.base
      ensures z in s2 && forall y :: 16 * z.base <= y < 16 * z.End() && y < |mem0| && y < |mem2| ==>
                PatchedByte(ts, slot, n.base, |ts|, y) || mem2[y] == mem0[y]
    {
      assert z in s1;
      Apart(s2, lo, hi, z, n);
    }
  }

  lemma Apart(s: Segs, lo: nat, hi: nat, x: Seg, z: Seg)
    requires Tiles(s, lo, hi) && x in s && z in s && x.base != z.base
    ensures x.End() <= z.base || z.End() <= x.base
  {
    var i :| 0 <= i < |s| && s[i] == x;
    var j :| 0 <= j < |s| && s[j] == z;
    if i < j { Ascending(s, lo, hi, i, j); } else { Ascending(s, lo, hi, j, i); }
  }
}
