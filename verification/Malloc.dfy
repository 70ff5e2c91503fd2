/** The memory manager of arch/i86/mm/malloc.c without swap: a list of segment descriptors linked
  * through a fixed table. */
module Malloc {
  import opened Blocks
  import opened HoleList

  const MEMORY := 0x10_0000

  /** struct malloc_hole; next is an index into the table, -1 for NULL. */
  datatype Hole = Hole(base: nat, extent: nat, next: int, refcount: Byte, flag: Flag) {
    function Segment(): Seg { Seg(base, extent, flag, refcount) }
  }

  /** A chain: the descriptors from slot 0 along `next`, and where in it each descriptor stands. */
  datatype Chain = Chain(order: seq<nat>, pos: seq<int>)

  function NextOf(order: seq<nat>, k: nat): int {
    if k + 1 < |order| then order[k + 1] else -1
  }

  ghost predicate LinkAt(hs: seq<Hole>, c: Chain, k: nat)
    requires |c.pos| == |hs|
  {
    k < |c.order| ==>
      var m := c.order[k];
      m < |hs| && c.pos[m] == k && hs[m].next == NextOf(c.order, k) && hs[m].flag != Spare
  }

  ghost predicate SlotAt(hs: seq<Hole>, c: Chain, i: nat)
    requires |c.pos| == |hs|
  {
    i < |hs| ==> if hs[i].flag == Spare then c.pos[i] == -1 else 0 <= c.pos[i] < |c.order| && c.order[c.pos[i]] == i
  }

  /** The table and the chain agree: exactly the descriptors that are not spare are linked, once each. */
  ghost predicate Chained(hs: seq<Hole>, c: Chain) {
    && |c.pos| == |hs| && c.order != [] && c.order[0] == 0
    && (forall k :: LinkAt(hs, c, k))
    && (forall i :: SlotAt(hs, c, i))
  }

  ghost function View(hs: seq<Hole>, c: Chain): Segs {
    seq(|c.order|, k requires 0 <= k < |c.order| =>
      if c.order[k] < |hs| then hs[c.order[k]].Segment() else Seg(0, 0, Spare, 0))
  }

  // ---------------------------------------------------------------- list surgery

  ghost function Inserted(c: Chain, k: nat, n: nat): Chain
    requires k < |c.order|
  {
    Chain(c.order[..k + 1] + [n] + c.order[k + 1..],
          seq(|c.pos|, i requires 0 <= i < |c.pos| =>
            if i == n then k + 1 else if c.pos[i] > k then c.pos[i] + 1 else c.pos[i]))
  }

  ghost function Removed(c: Chain, k: nat): Chain
    requires k + 1 < |c.order|
  {
    Chain(c.order[..k + 1] + c.order[k + 2..],
          seq(|c.pos|, i requires 0 <= i < |c.pos| =>
            if i == c.order[k + 1] then -1 else if c.pos[i] > k then c.pos[i] - 1 else c.pos[i]))
  }

  ghost function SplitTable(hs: seq<Hole>, m: nat, len: nat, n: nat): seq<Hole>
    requires m < |hs| && n < |hs| && len <= hs[m].extent
  {
    hs[m := hs[m].(extent := len, next := n)]
      [n := Hole(hs[m].base + len, hs[m].extent - len, hs[m].next, hs[n].refcount, Free)]
  }

  ghost function MergeTable(hs: seq<Hole>, m: nat, x: nat): seq<Hole>
    requires m < |hs| && x < |hs|
  {
    hs[m := hs[m].(extent := hs[m].extent + hs[x].extent, next := hs[x].next)][x := hs[x].(flag := Spare)]
  }

  lemma SplitChained(hs: seq<Hole>, c: Chain, k: nat, len: nat, n: nat)
    requires Chained(hs, c) && k < |c.order| && n < |hs| && hs[n].flag == Spare
    requires LinkAt(hs, c, k) && len <= hs[c.order[k]].extent
    ensures Chained(SplitTable(hs, c.order[k], len, n), Inserted(c, k, n))
  {
    var hs', c' := SplitTable(hs, c.order[k], len, n), Inserted(c, k, n);
    assert SlotAt(hs, c, n);
    forall j: nat ensures LinkAt(hs', c', j) {
      assert LinkAt(hs, c, j) && (j > 0 ==> LinkAt(hs, c, j - 1));
    }
    forall i: nat ensures SlotAt(hs', c', i) { assert SlotAt(hs, c, i); }
  }

  lemma SplitView(hs: seq<Hole>, c: Chain, k: nat, len: nat, n: nat)
    requires Chained(hs, c) && k < |c.order| && n < |hs| && hs[n].flag == Spare
    requires LinkAt(hs, c, k) && len < hs[c.order[k]].extent
    ensures View(SplitTable(hs, c.order[k], len, n), Inserted(c, k, n)) == SplitAt(View(hs, c), k, len, hs[n].refcount)
  {
    var v, v' := SplitAt(View(hs, c), k, len, hs[n].refcount),
        View(SplitTable(hs, c.order[k], len, n), Inserted(c, k, n));
    assert SlotAt(hs, c, n);
    forall j: nat | j < |v| ensures v'[j] == v[j] {
      assert LinkAt(hs, c, j) && (j > 0 ==> LinkAt(hs, c, j - 1));
    }
  }

  lemma MergeChained(hs: seq<Hole>, c: Chain, k: nat)
    requires Chained(hs, c) && k + 1 < |c.order| && LinkAt(hs, c, k) && LinkAt(hs, c, k + 1)
    ensures Chained(MergeTable(hs, c.order[k], c.order[k + 1]), Removed(c, k))
  {
    var hs', c' := MergeTable(hs, c.order[k], c.order[k + 1]), Removed(c, k);
    forall j: nat ensures LinkAt(hs', c', j) { assert LinkAt(hs, c, j) && LinkAt(hs, c, j + 1); }
    forall i: nat ensures SlotAt(hs', c', i) { assert SlotAt(hs, c, i); }
  }

  lemma MergeView(hs: seq<Hole>, c: Chain, k: nat)
    requires Chained(hs, c) && k + 1 < |c.order| && LinkAt(hs, c, k) && LinkAt(hs, c, k + 1)
    ensures var v := View(hs, c);
            View(MergeTable(hs, c.order[k], c.order[k + 1]), Removed(c, k))
                == v[..k] + [Merge(v[k], v[k + 1])] + v[k + 2..]
  {
    var v, v' := View(hs, c), View(MergeTable(hs, c.order[k], c.order[k + 1]), Removed(c, k));
    forall j: nat | j < |v| - 1 ensures v'[j] == (v[..k] + [Merge(v[k], v[k + 1])] + v[k + 2..])[j] {
      assert LinkAt(hs, c, j) && LinkAt(hs, c, j + 1);
    }
  }

  /** Changing the flag and count of a linked descriptor. */
  lemma Mark(hs: seq<Hole>, c: Chain, k: nat, flag: Flag, refcount: Byte)
    requires Chained(hs, c) && k < |c.order| && LinkAt(hs, c, k) && flag != Spare
    ensures var m := c.order[k];
            var hs' := hs[m := hs[m].(flag := flag, refcount := refcount)];
            Chained(hs', c) && View(hs', c) == View(hs, c)[k := View(hs, c)[k].(flag := flag, refcount := refcount)]
  {
    var m := c.order[k];
    var hs' := hs[m := hs[m].(flag := flag, refcount := refcount)];
    forall j: nat ensures LinkAt(hs', c, j) { assert LinkAt(hs, c, j); }
    forall i: nat ensures SlotAt(hs', c, i) { assert SlotAt(hs, c, i); }
    var v, v' := View(hs, c), View(hs', c);
    forall j: nat | j < |v| ensures v'[j] == v[k := v[k].(flag := flag, refcount := refcount)][j] {
      assert LinkAt(hs, c, j);
    }
  }

  /** What mm_alloc and mm_dup deliver. */
  datatype Outcome = Segment(base: nat) | NoMemory | Panic

  class MallocHead {
    const holes: array<Hole>
    const lo: nat
    const hi: nat
    const unit: nat             // bytes to the page: 16 in memory, 1024 on the swap device
    var mem: seq<Byte>          // what the pages hold
    ghost var chain: Chain

    ghost predicate Linked()
      reads this, holes
    {
      Chained(holes[..], chain)
    }

    ghost function Segs(): Segs
      reads this, holes
    {
      View(holes[..], chain)
    }

    ghost predicate Valid()
      reads this, holes
    {
      Linked() && Tiles(Segs(), lo, hi) && NoAdjacentFree(Segs()) && hi <= 0xffff && |mem| == 0x1_0000 * unit
    }

    /** No descriptor is spare. */
    ghost predicate Spent()
      reads this, holes
    {
      forall i :: 0 <= i < holes.Length ==> holes[i].flag != Spare
    }

    /** Descriptor m stands in position k of the chain. */
    ghost predicate At(m: int, k: nat)
      reads this, holes
    {
      k < |chain.order| && 0 <= m < holes.Length && chain.order[k] == m
    }

    /** mm_init, and mm_swap_on for the swap map: one free segment holding everything. */
    constructor (slots: nat, start: nat, end: nat, bytes: nat, contents: seq<Byte>)
      requires slots > 0 && start < end <= 0xffff && |contents| == 0x1_0000 * bytes
      ensures fresh(holes) && holes.Length == slots && lo == start && hi == end && unit == bytes && mem == contents
      ensures Valid() && Segs() == [Seg(start, end - start, Free, 0)]
    {
      lo, hi, unit, mem := start, end, bytes, contents;
      chain := Chain([0], seq(slots, i => if i == 0 then 0 else -1));
      holes := new Hole[slots](i => if i == 0 then Hole(start, end - start, -1, 0, Free) else Hole(0, 0, -1, 0, Spare));
    }

    /** alloc_hole: the first spare descriptor; -1 when there is none and the kernel panics. */
    method AllocHole() returns (n: int)
      ensures -1 <= n < holes.Length
      ensures n >= 0 ==> holes[n].flag == Spare
      ensures n == -1 ==> forall i :: 0 <= i < holes.Length ==> holes[i].flag != Spare
    {
      n := 0;
      while n < holes.Length
        invariant 0 <= n <= holes.Length
        invariant forall i :: 0 <= i < n ==> holes[i].flag != Spare
      {
        if holes[n].flag == Spare { return; }
        n := n + 1;
      }
      n := -1;
    }

    /** What a walk along the chain sees at position k. */
    lemma Seen(k: nat)
      requires Linked() && k < |chain.order|
      ensures LinkAt(holes[..], chain, k) && At(chain.order[k], k)
      ensures holes[chain.order[k]].next == NextOf(chain.order, k) && Segs()[k] == holes[chain.order[k]].Segment()
      ensures holes[chain.order[k]].flag != Spare
    {
      assert LinkAt(holes[..], chain, k);
    }

    /** The second half of split_hole: descriptor x takes what descriptor m has past len pages. */
    method Cut(m: nat, len: nat, x: nat)
      requires m < holes.Length && x < holes.Length && x != m && len <= holes[m].extent
      modifies holes
      ensures holes[..] == SplitTable(old(holes[..]), m, len, x)
      ensures forall i :: 0 <= i < holes.Length && i != x ==> holes[i].flag == old(holes[i].flag)
    {
      holes[x] := Hole(holes[m].base + len, holes[m].extent - len, holes[m].next, holes[x].refcount, Free);
      holes[m] := holes[m].(extent := len, next := x);
    }

    /** split_hole on descriptor m, in position k. False means panic: no descriptor was spare. */
    method SplitHole(m: nat, len: nat, ghost k: nat) returns (ok: bool, ghost stale: Byte, ghost n: int)
      requires Linked() && At(m, k) && len <= holes[m].extent
      modifies holes, this`chain
      ensures ok ==> Linked() && At(m, k) && Segs() == SplitAt(old(Segs()), k, len, stale)
      ensures ok <==> len == old(holes[m].extent) || !old(Spent())
      ensures forall i :: 0 <= i < holes.Length && i != n && old(holes[i].flag) == Spare ==> holes[i].flag == Spare
    {
      Seen(k);
      var spare := holes[m].extent - len;
      if spare == 0 { return true, 0, -1; }
      var x := AllocHole();
      if x == -1 { return false, 0, -1; }
      ghost var hs := holes[..];
      stale, n := holes[x].refcount, x;
      SplitChained(hs, chain, k, len, x);
      SplitView(hs, chain, k, len, x);
      Cut(m, len, x);
      chain := Inserted(chain, k, x);
      ok := true;
    }

    /** One merge of sweep_holes. */
    method MergeNext(m: nat, x: nat, ghost k: nat)
      requires Linked() && At(m, k) && At(x, k + 1)
      modifies holes, this`chain
      ensures Linked() && At(m, k) && |chain.order| == old(|chain.order|) - 1
      ensures forall i :: 0 <= i < holes.Length && old(holes[i].flag) == Spare ==> holes[i].flag == Spare
      ensures Segs() == old(Segs())[..k] + [Merge(old(Segs())[k], old(Segs())[k + 1])] + old(Segs())[k + 2..]
    {
      Seen(k); Seen(k + 1);
      ghost var hs := holes[..];
      MergeChained(hs, chain, k);
      MergeView(hs, chain, k);
      holes[m] := holes[m].(extent := holes[m].extent + holes[x].extent);
      holes[x] := holes[x].(flag := Spare);
      holes[m] := holes[m].(next := holes[x].next);
      assert holes[..] == MergeTable(hs, m, x);
      chain := Removed(chain, k);
    }

    /** sweep_holes. */
    method SweepHoles()
      requires Linked()
      modifies holes, this`chain
      ensures Linked() && Segs() == Sweep(old(Segs()))
      ensures forall i :: 0 <= i < holes.Length && old(holes[i].flag) == Spare ==> holes[i].flag == Spare
    {
      var m := 0;
      ghost var k, s := 0, Segs();
      assert s[..0] + Sweep(s[0..]) == Sweep(s) by { assert s[0..] == s; }
      Seen(0);
      while holes[m].next != -1
        invariant Linked() && At(m, k)
        invariant Segs()[..k] + Sweep(Segs()[k..]) == Sweep(s)
        invariant forall i :: 0 <= i < holes.Length && old(holes[i].flag) == Spare ==> holes[i].flag == Spare
        decreases |chain.order| - k
      {
        Seen(k);
        Seen(k + 1);
        var x := holes[m].next;
        SweepStep(Segs(), k);
        if holes[m].flag == Free && holes[x].flag == Free && holes[m].base + holes[m].extent == holes[x].base {
          MergeNext(m, x, k);
        } else {
          m := x;
          k := k + 1;
        }
      }
      Seen(k);
      assert Segs()[..k] + Segs()[k..] == Segs();
    }

    /** best_fit_hole. */
    method BestFitHole(size: nat) returns (best: int, ghost k: nat)
      requires Linked()
      ensures IsBestFit(Segs(), size, k)
      ensures best == -1 <==> k == |chain.order|
      ensures best != -1 ==> At(best, k) && 0 <= best < holes.Length
      ensures best != -1 ==> holes[best].flag == Free && holes[best].extent >= size
    {
      best, k := -1, |chain.order|;
      var m := 0;
      ghost var i := 0;
      while m != -1
        invariant i <= |chain.order| && (if i < |chain.order| then m == chain.order[i] else m == -1)
        invariant best == -1 <==> k == |chain.order|
        invariant best != -1 ==> At(best, k) && Segs()[k] == holes[best].Segment()
        invariant BestSoFar(Segs(), size, k, i)
        decreases |chain.order| - i
      {
        Seen(i);
        if holes[m].extent >= size && holes[m].flag == Free {
          if best == -1 || holes[best].extent > holes[m].extent {
            best, k := m, i;
          }
        }
        m, i := holes[m].next, i + 1;
      }
    }

    /** find_hole: the first descriptor with that base. */
    method FindHole(base: nat) returns (m: int, ghost k: nat)
      requires Linked()
      ensures k <= |chain.order| && (m == -1 <==> k == |chain.order|)
      ensures k < |chain.order| ==> At(m, k) && Segs()[k].base == base
      ensures forall j :: 0 <= j < k ==> Segs()[j].base != base
    {
      m, k := 0, 0;
      Seen(0);
      while m != -1 && holes[m].base != base
        invariant k <= |chain.order| && (if k < |chain.order| then At(m, k) else m == -1)
        invariant k < |chain.order| ==> Segs()[k] == holes[m].Segment()
        invariant forall j :: 0 <= j < k ==> Segs()[j].base != base
        decreases |chain.order| - k
      {
        Seen(k);
        m, k := holes[m].next, k + 1;
        if k < |chain.order| { Seen(k); }
      }
    }

    /** find_hole where a segment with that base is known to exist. */
    method Lookup(base: nat, ghost x: Seg) returns (m: nat, ghost k: nat)
      requires Valid() && x in Segs() && x.base == base
      ensures At(m, k) && Segs()[k] == x && holes[m].Segment() == x
    {
      ghost var j :| 0 <= j < |Segs()| && Segs()[j] == x;
      var i;
      i, k := FindHole(base);
      BaseUnique(Segs(), lo, hi, base);
      Seen(k);
      m := i;
    }

    // -------------------------------------------------------------- the interface

    /** Claiming segment k of the right size or larger: split_hole, flag and count. */
    method Claim(m: nat, pages: nat, ghost k: nat) returns (ok: bool, ghost stale: Byte, ghost n: int)
      requires Valid() && At(m, k) && HoleList.Fits(Segs(), k, pages) && pages > 0
      modifies holes, this`chain
      ensures ok ==> Valid() && At(m, k) && holes[m].base == old(holes[m].base)
      ensures ok ==> Segs() == Take(old(Segs()), k, pages, stale)
      ensures ok <==> pages == old(Segs())[k].extent || !old(Spent())
      ensures forall i :: 0 <= i < holes.Length && i != n && old(holes[i].flag) == Spare ==> holes[i].flag == Spare
    {
      Seen(k);
      ghost var s := Segs();
      ok, stale, n := SplitHole(m, pages, k);
      if !ok { return; }
      Seen(k);
      Mark(holes[..], chain, k, Used, 1);
      holes[m] := holes[m].(flag := Used, refcount := 1);
      TakeTiles(s, k, pages, stale, lo, hi);
      Seen(k);
    }

    /** mm_alloc. It picks a smallest fitting segment, and fails exactly when no run of free pages is
      * long enough; the kernel panics only when a split finds no spare descriptor. */
    method MmAlloc(pages: nat) returns (r: Outcome, ghost k: nat, ghost stale: Byte, ghost n: int)
      requires Valid() && pages > 0
      modifies holes, this`chain
      ensures IsBestFit(old(Segs()), pages, k)
      ensures r.NoMemory? <==> !exists a :: FreeRun(old(Segs()), a, pages)
      ensures r.NoMemory? ==> Valid() && Segs() == old(Segs())
      ensures r.Segment? ==> k < |old(Segs())| && r.base == old(Segs())[k].base
      ensures r.Segment? ==> Valid() && Segs() == Take(old(Segs()), k, pages, stale)
      ensures !r.NoMemory? ==> k < |old(Segs())|
      ensures r.Panic? <==> k < |old(Segs())| && pages < old(Segs())[k].extent && old(Spent())
      ensures forall i :: 0 <= i < holes.Length && i != n && old(holes[i].flag) == Spare ==> holes[i].flag == Spare
    {
      stale := 0;
      var m;
      m, k := BestFitHole(pages);
      NoFitIffNoRun(Segs(), lo, hi, pages);
      if m == -1 { return NoMemory, k, 0, -1; }
      Seen(k);
      assert HoleList.Fits(Segs(), k, pages);
      var ok;
      ok, stale, n := Claim(m, pages, k);
      r := if ok then Segment(holes[m].base) else Panic;
    }

    /** mm_dup: a fresh segment of the same extent with the old one's bytes, as many as a 16-bit count
      * can name. Panics if the old segment is not in use, or for want of a descriptor. */
    method MmDup(base: nat) returns (r: Outcome, ghost o: nat, ghost k: nat, ghost stale: Byte)
      requires Valid() && unit == 16 && exists j :: 0 <= j < |Segs()| && Segs()[j].base == base
      modifies holes, this`chain, this`mem
      ensures o < |old(Segs())| && old(Segs())[o].base == base
      ensures r.Panic? <==> old(Segs())[o].flag != Used
                            || (IsBestFit(old(Segs()), old(Segs())[o].extent, k) && k < |old(Segs())|
                                && old(Segs())[o].extent < old(Segs())[k].extent && old(Spent()))
      ensures old(Segs())[o].flag == Used ==>
                (r.NoMemory? <==> !exists a :: FreeRun(old(Segs()), a, old(Segs())[o].extent))
      ensures !r.Segment? ==> mem == old(mem)
      ensures r.NoMemory? ==> Valid() && Segs() == old(Segs())
      ensures r.Segment? ==>
                && IsBestFit(old(Segs()), old(Segs())[o].extent, k) && k < |old(Segs())|
                && r.base == old(Segs())[k].base
                && Valid() && Segs() == Take(old(Segs()), k, old(Segs())[o].extent, stale)
                && 16 * r.base + DupLength(old(Segs())[o].extent) <= MEMORY
                && 16 * base + DupLength(old(Segs())[o].extent) <= MEMORY
                && mem == CopyBytes(old(mem), 16 * r.base, 16 * base, DupLength(old(Segs())[o].extent))
    {
      var m;
      k, stale := 0, 0;
      m, o := FindHole(base);
      ghost var j :| 0 <= j < |Segs()| && Segs()[j].base == base;
      Seen(o);
      if holes[m].flag != Used { return Panic, o, 0, 0; }
      Inside(Segs(), lo, hi, o);
      var extent := holes[m].extent;
      ghost var s := Segs();
      ghost var n;
      r, k, stale, n := MmAlloc(extent);
      if r.Segment? {
        Inside(s, lo, hi, k);
        mem := CopyBytes(mem, 16 * r.base, 16 * base, DupLength(extent));
      }
    }

    /** mm_get_usage for main memory, in KB. */
    method GetUsage(used: bool) returns (kb: nat)
      requires Valid()
      ensures kb == Pages(Segs(), if used then Used else Free) / 64
    {
      var flag := if used then Used else Free;
      var m, ret := 0, 0;
      ghost var k := 0;
      while m != -1
        invariant k <= |chain.order| && (if k < |chain.order| then m == chain.order[k] else m == -1)
        invariant ret == Pages(Segs()[..k], flag)
        decreases |chain.order| - k
      {
        Seen(k);
        PagesConcat(Segs()[..k], [Segs()[k]], flag);
        assert Segs()[..k + 1] == Segs()[..k] + [Segs()[k]];
        if holes[m].flag == flag { ret := ret + holes[m].extent; }
        m, k := holes[m].next, k + 1;
      }
      assert Segs()[..k] == Segs();
      kb := ret / 64;
    }

    /** mm_realloc: one more reference. The count is a byte. */
    method MmRealloc(base: nat) returns (r: nat, ghost k: nat)
      requires Valid() && exists j :: 0 <= j < |Segs()| && Segs()[j].base == base && Segs()[j].flag == Used
      modifies holes
      ensures Valid() && r == base && k < |old(Segs())|
      ensures old(Segs())[k].base == base && old(Segs())[k].flag == Used
      ensures Segs() == old(Segs())[k := old(Segs())[k].(refcount := (old(Segs())[k].refcount + 1) % 256)]
      ensures forall i :: 0 <= i < holes.Length ==> holes[i].flag == old(holes[i].flag)
    {
      var m;
      m, k := FindHole(base);
      ghost var j :| 0 <= j < |Segs()| && Segs()[j].base == base;
      assert k <= j;
      Seen(k);
      BaseUnique(Segs(), lo, hi, base);
      Mark(holes[..], chain, k, holes[m].flag, (holes[m].refcount + 1) % 256);
      SameTiles(Segs(), k, (holes[m].refcount + 1) % 256, lo, hi);
      holes[m] := holes[m].(refcount := (holes[m].refcount + 1) % 256);
      r := holes[m].base;
    }

    /** `m->refcount = count` on a segment in use. */
    method SetCount(m: nat, ghost k: nat, count: Byte)
      requires Valid() && At(m, k) && Segs()[k].flag == Used
      modifies holes
      ensures Valid() && At(m, k) && Segs() == old(Segs())[k := old(Segs())[k].(refcount := count)]
    {
      Seen(k);
      ghost var s := Segs();
      Mark(holes[..], chain, k, Used, count);
      holes[m] := holes[m].(refcount := count);
      SameTiles(s, k, count, lo, hi);
    }

    /** `m->flags = HOLE_FREE` and a sweep; the count stays as it was. */
    method FreeHole(m: nat, ghost k: nat)
      requires Valid() && At(m, k)
      modifies holes, this`chain
      ensures Valid() && Segs() == Sweep(old(Segs())[k := old(Segs())[k].(flag := Free)])
      ensures forall i :: 0 <= i < holes.Length && old(holes[i].flag) == Spare ==> holes[i].flag == Spare
    {
      Seen(k);
      ghost var s := Segs();
      Mark(holes[..], chain, k, Free, holes[m].refcount);
      holes[m] := holes[m].(flag := Free);
      ReleaseTiles(s, k, s[k].refcount, lo, hi);
      SweepHoles();
    }

    /** mm_free: one reference fewer, and the segment is swept up with the last. False means panic: no
      * such segment, or one that is not in use. */
    method MmFree(base: nat) returns (ok: bool, ghost k: nat)
      requires Valid()
      modifies holes, this`chain
      ensures ok <==> exists j :: 0 <= j < |old(Segs())| && old(Segs())[j].base == base && old(Segs())[j].flag == Used
      ensures !ok ==> Segs() == old(Segs())
      ensures ok ==> k < |old(Segs())| && old(Segs())[k].base == base && old(Segs())[k].flag == Used
      ensures ok ==> Valid() && Segs() == (var s := old(Segs());
                if s[k].refcount == 1 then HoleList.Release(s, k)
                    else s[k := s[k].(refcount := (s[k].refcount + 255) % 256)])
    {
      var m;
      m, k := FindHole(base);
      BaseUnique(Segs(), lo, hi, base);
      if m == -1 { return false, k; }
      Seen(k);
      if holes[m].flag != Used { return false, k; }
      ok := true;
      ghost var s := Segs();
      var count := (holes[m].refcount + 255) % 256;
      SetCount(m, k, count);
      if count == 0 {
        FreeHole(m, k);
        assert s[k := s[k].(refcount := 0)][k := s[k].(flag := Free, refcount := 0)]
            == s[k := s[k].(flag := Free, refcount := 0)];
      }
    }
  }

  /** Bytes from..from+n of memory copied to to..to+n: fmemcpy. */
  function CopyBytes(mem: seq<Byte>, to: nat, from: nat, n: nat): seq<Byte>
    requires to + n <= |mem| && from + n <= |mem|
  {
    mem[..to] + mem[from..from + n] + mem[to + n..]
  }

  /** The length mm_dup hands to fmemcpy: (__u16) (extent << 4). */
  function DupLength(extent: nat): nat { U16(16 * extent) }

  /** After mm_dup, byte y of the old segment is also at its place in the new one. */
  ghost predicate DupFaithful(mem: seq<Byte>, to: nat, from: nat, extent: nat)
    requires |mem| == MEMORY && 16 * (to + extent) <= MEMORY && 16 * (from + extent) <= MEMORY && extent <= 0xffff
  {
    var after := CopyBytes(mem, 16 * to, 16 * from, DupLength(extent));
    forall y :: 16 * from <= y < 16 * from + 16 * extent ==> after[16 * to + (y - 16 * from)] == mem[y]
  }

  /** mm_dup copies the whole of a segment, whatever is in it, exactly when the segment is shorter than
    * 64 KB: at 4096 pages the byte count wraps to 0. */
  lemma DupCopiesAllIff(to: nat, from: nat, extent: nat)
    requires 16 * (to + extent) <= MEMORY && 16 * (from + extent) <= MEMORY && extent <= 0xffff
    requires to + extent <= from || from + extent <= to
    ensures (forall mem: seq<Byte> :: |mem| == MEMORY ==> DupFaithful(mem, to, from, extent)) <==> extent < 4096
  {
    if extent >= 4096 {
      var n := DupLength(extent);
      var mem: seq<Byte> := seq(MEMORY, i => if 16 * from <= i < 16 * from + 16 * extent then 1 else 0);
      var after := CopyBytes(mem, 16 * to, 16 * from, n);
      assert n < 16 * extent;
      assert after[16 * to + n] == mem[16 * to + n] == 0 && mem[16 * from + n] == 1;
      assert !DupFaithful(mem, to, from, extent);
    } else {
      forall mem: seq<Byte> | |mem| == MEMORY ensures DupFaithful(mem, to, from, extent) { }
    }
  }

  function Pages(s: Segs, flag: Flag): nat {
    if s == [] then 0 else (if s[0].flag == flag then s[0].extent else 0) + Pages(s[1..], flag)
  }

  lemma {:induction false} PagesConcat(p: Segs, q: Segs, flag: Flag)
    ensures Pages(p + q, flag) == Pages(p, flag) + Pages(q, flag)
    decreases |p|
  {
    if p == [] {
      assert p + q == q;
    } else {
      assert (p + q)[1..] == p[1..] + q;
      PagesConcat(p[1..], q, flag);
    }
  }

  /** Pages are conserved: used and free pages make up all of user memory. */
  lemma {:induction false} PagesAddUp(s: Segs, lo: nat, hi: nat)
    requires Tiles(s, lo, hi)
    ensures Pages(s, Used) + Pages(s, Free) == hi - lo
    decreases |s|
  {
    if s != [] { PagesAddUp(s[1..], s[0].End(), hi); }
  }

  /** mm_alloc and then mm_free of what it returned: the list of base, extent and flag is as before. */
  method AllocThenFree(h: MallocHead, pages: nat) returns (r: Outcome)
    requires h.Valid() && pages > 0
    modifies h, h.holes
    ensures !r.Panic? ==> h.Valid() && SameShape(h.Segs(), old(h.Segs()))
  {
    ghost var s, k, stale := h.Segs(), 0, 0;
    ghost var n;
    r, k, stale, n := h.MmAlloc(pages);
    if r.Segment? {
      ghost var t := h.Segs();
      assert t[k].base == r.base && t[k].flag == Used && t[k].refcount == 1;
      var ok;
      ghost var j;
      ok, j := h.MmFree(r.base);
      BaseUnique(t, h.lo, h.hi, r.base);
      TakeThenRelease(s, h.lo, h.hi, k, pages, stale);
    }
  }

  ghost predicate BestSoFar(s: Segs, size: nat, k: nat, i: nat) {
    && (k >= |s| ==> forall j: nat :: j < i ==> !HoleList.Fits(s, j, size))
    && (k < |s| ==> k < i && HoleList.Fits(s, k, size) && forall j: nat :: j < i && HoleList.Fits(s, j, size) ==>
          s[k].extent <= s[j].extent && (j < k ==> s[k].extent < s[j].extent))
  }

  lemma SweepStep(s: Segs, k: nat)
    requires k + 1 < |s|
    ensures Mergeable(s[k], s[k + 1]) ==>
              var t := s[..k] + [Merge(s[k], s[k + 1])] + s[k + 2..];
              t[..k] + Sweep(t[k..]) == s[..k] + Sweep(s[k..])
    ensures !Mergeable(s[k], s[k + 1]) ==> s[..k + 1] + Sweep(s[k + 1..]) == s[..k] + Sweep(s[k..])
  {
    assert s[k..][1..] == s[k + 1..] && s[k..][2..] == s[k + 2..];
    var t := s[..k] + [Merge(s[k], s[k + 1])] + s[k + 2..];
    assert t[..k] == s[..k] && t[k..] == [Merge(s[k], s[k + 1])] + s[k + 2..];
    assert s[..k + 1] + Sweep(s[k + 1..]) == s[..k] + ([s[k]] + Sweep(s[k + 1..]));
  }

  lemma Inside(s: Segs, lo: nat, hi: nat, k: nat)
    requires Tiles(s, lo, hi) && k < |s|
    ensures 0 < s[k].extent && lo <= s[k].base && s[k].End() <= hi
    decreases k
  {
    if k > 0 { Inside(s[1..], s[0].End(), hi, k - 1); }
    TilesUp(s[1..], s[0].End(), hi);
  }

  lemma {:induction false} TilesUp(s: Segs, lo: nat, hi: nat)
    requires Tiles(s, lo, hi)
    ensures lo <= hi
    decreases |s|
  {
    if s != [] { TilesUp(s[1..], s[0].End(), hi); }
  }

  /** Segment bases are distinct. */
  lemma BaseUnique(s: Segs, lo: nat, hi: nat, base: nat)
    requires Tiles(s, lo, hi)
    ensures forall i, j :: 0 <= i < |s| && 0 <= j < |s| && s[i].base == base && s[j].base == base ==> i == j
  {
    forall i, j | 0 <= i < j < |s| && s[i].base == base && s[j].base == base ensures false {
      Ascending(s, lo, hi, i, j);
    }
  }

  lemma SameTiles(s: Segs, k: nat, count: Byte, lo: nat, hi: nat)
    requires Tiles(s, lo, hi) && NoAdjacentFree(s) && k < |s|
    ensures Tiles(s[k := s[k].(refcount := count)], lo, hi) && NoAdjacentFree(s[k := s[k].(refcount := count)])
  {
    var t := s[k := s[k].(refcount := count)];
    NoSpares(s, lo, hi);
    SameBoundsTile(s, t, lo, hi);
    SameFlagsSeparate(s, t);
  }
}
