/** Who holds which segment: fork, vfork, exec and exit (kernel/fork.c, fs/exec.c, kernel/exit.c) over the
  * memory manager without swap. An exec sleeps while it reads the image, so it is two atomic steps. */
module Segments {
  import opened Blocks
  import opened HoleList
  import opened Malloc

  const MAX_TASKS := 15

  /** Segments an exec in progress has acquired but not yet installed. */
  datatype Hold = NoHold | Holding(code: nat, data: nat, inode: nat)

  /** A task slot: the fields that bear on segments. Segment and inode 0 are NULL. */
  datatype Task = Task(live: bool, cseg: nat, dseg: nat, inode: nat, hold: Hold)

  function Is(seg: nat, b: nat): nat { if seg == b && b != 0 then 1 else 0 }

  /** The references one task holds to the segment at b. */
  function TaskRefs(t: Task, b: nat): nat {
    if !t.live then 0
    else Is(t.cseg, b) + Is(t.dseg, b) + (if t.hold.Holding? then Is(t.hold.code, b) + Is(t.hold.data, b) else 0)
  }

  function Refs(tasks: seq<Task>, b: nat): nat {
    if tasks == [] then 0 else TaskRefs(tasks[0], b) + Refs(tasks[1..], b)
  }

  /** How many slots are unused. */
  function Vacant(tasks: seq<Task>): (n: nat)
    ensures n == 0 <==> forall i :: 0 <= i < |tasks| ==> tasks[i].live
    ensures n <= 1 <==> forall i, j :: 0 <= i < j < |tasks| ==> tasks[i].live || tasks[j].live
  {
    if tasks == [] then 0 else (if tasks[0].live then 0 else 1) + Vacant(tasks[1..])
  }

  lemma {:induction false} VacantJoin(p: seq<Task>, q: seq<Task>)
    ensures Vacant(p + q) == Vacant(p) + Vacant(q)
  {
    if p == [] {
      assert p + q == q;
    } else {
      assert (p + q)[1..] == p[1..] + q;
      VacantJoin(p[1..], q);
    }
  }

  lemma {:induction false} RefsUpdate(tasks: seq<Task>, i: nat, t: Task, b: nat)
    requires i < |tasks|
    ensures Refs(tasks[i := t], b) == Refs(tasks, b) - TaskRefs(tasks[i], b) + TaskRefs(t, b)
    decreases i
  {
    if i == 0 {
      assert tasks[i := t][1..] == tasks[1..];
    } else {
      assert tasks[i := t][1..] == tasks[1..][i - 1 := t];
      RefsUpdate(tasks[1..], i - 1, t, b);
    }
  }

  lemma {:induction false} RefsBound(tasks: seq<Task>, b: nat)
    ensures Refs(tasks, b) <= 4 * |tasks| && Refs(tasks, 0) == 0
    decreases |tasks|
  {
    if tasks != [] { RefsBound(tasks[1..], b); }
  }

  /** A used segment's count is the number of references to it, which is never zero, and every reference
    * is to a used segment: none is leaked and none is dangling. */
  ghost predicate Exact(s: Segs, bag: Counts) {
    && (forall x :: CountRight(s, bag, x))
    && (forall b :: RefersUsed(s, bag, b))
  }

  ghost predicate CountRight(s: Segs, bag: Counts, x: Seg) {
    x in s && x.flag == Used ==> x.refcount == bag(x.base) && x.refcount > 0
  }

  ghost predicate RefersUsed(s: Segs, bag: Counts, b: nat) {
    bag(b) > 0 ==> HasUsed(s, b)
  }

  ghost predicate HasUsed(s: Segs, b: nat) {
    exists x :: x in s && x.flag == Used && x.base == b
  }

  // ---------------------------------------------------------------- what the list operations do to counts

  /** Two members of a tiling with one base are the same segment. */
  lemma SameBase(s: Segs, lo: nat, hi: nat, x: Seg, y: Seg)
    requires Tiles(s, lo, hi) && x in s && y in s && x.base == y.base
    ensures x == y
  {
    BaseUnique(s, lo, hi, x.base);
  }

  lemma TakeExact(s: Segs, k: nat, size: nat, stale: Byte, lo: nat, hi: nat, bag: Counts)
    requires Tiles(s, lo, hi) && NoAdjacentFree(s) && HoleList.Fits(s, k, size) && size > 0 && Exact(s, bag)
    ensures bag(s[k].base) == 0
    ensures Exact(Take(s, k, size, stale), Plus(bag, s[k].base))
  {
    var t := Take(s, k, size, stale);
    var b, bag' := s[k].base, Plus(bag, s[k].base);
    assert RefersUsed(s, bag, b);
    if bag(b) > 0 {
      var x :| x in s && x.flag == Used && x.base == b;
      SameBase(s, lo, hi, x, s[k]);
    }
    TakeOpen(s, k, size, stale, t[k]);
    assert t == t[k := t[k]];
    assert s == s[..k] + [s[k]] + s[k + 1..];
    forall x: Seg ensures x.flag == Used ==> (x in t <==> x in s || x == t[k]) { }
    forall x ensures CountRight(t, bag', x) { assert CountRight(s, bag, x); }
    forall c ensures RefersUsed(t, bag', c) {
      assert RefersUsed(s, bag, c);
      if c == b { assert t[k] in t && t[k].base == b; }
    }
  }

  lemma CountExact(s: Segs, k: nat, count: Byte, lo: nat, hi: nat, bag: Counts, bag': Counts)
    requires Tiles(s, lo, hi) && k < |s| && s[k].flag == Used && Exact(s, bag)
    requires count > 0 && bag'(s[k].base) == count && forall c :: c != s[k].base ==> bag'(c) == bag(c)
    ensures Exact(s[k := s[k].(refcount := count)], bag')
  {
    var t := s[k := s[k].(refcount := count)];
    BaseUnique(s, lo, hi, s[k].base);
    forall x ensures CountRight(t, bag', x) {
      if x in t {
        var j :| 0 <= j < |t| && t[j] == x;
        assert CountRight(s, bag, s[j]);
      }
    }
    forall c ensures RefersUsed(t, bag', c) {
      assert RefersUsed(s, bag, c);
      if c == s[k].base {
        assert t[k] in t;
      } else if bag(c) > 0 {
        var x :| x in s && x.flag == Used && x.base == c;
        var j :| 0 <= j < |s| && s[j] == x;
        assert t[j] in t;
      }
    }
  }

  lemma ReleaseExact(s: Segs, k: nat, lo: nat, hi: nat, bag: Counts)
    requires Tiles(s, lo, hi) && k < |s| && s[k].flag == Used && s[k].refcount == 1 && Exact(s, bag)
    ensures Exact(HoleList.Release(s, k), Minus(bag, s[k].base))
  {
    var u := s[k := s[k].(flag := Free, refcount := 0)];
    var t := HoleList.Release(s, k);
    var bag' := Minus(bag, s[k].base);
    assert s[k] in s && CountRight(s, bag, s[k]);
    BaseUnique(s, lo, hi, s[k].base);
    forall x ensures CountRight(t, bag', x) {
      if x in t && x.flag == Used {
        SweepUsed(u, x);
        var j :| 0 <= j < |u| && u[j] == x;
        assert CountRight(s, bag, s[j]);
      }
    }
    forall c ensures RefersUsed(t, bag', c) {
      assert RefersUsed(s, bag, c);
      if bag'(c) > 0 {
        var x :| x in s && x.flag == Used && x.base == c;
        var j :| 0 <= j < |s| && s[j] == x;
        assert u[j] in u;
        SweepUsed(u, x);
      }
    }
  }

  // ---------------------------------------------------------------- places, sizes and bytes

  /** A segment of e pages is in use at b. */
  ghost predicate Occupied(s: Segs, b: nat, e: nat) {
    exists x :: x in s && x.flag == Used && x.base == b && x.extent == e
  }

  ghost predicate SameOccupied(s: Segs, s': Segs) { forall b, e :: Occupied(s', b, e) <==> Occupied(s, b, e) }

  ghost predicate OneMore(s: Segs, s': Segs, to: nat, pages: nat) {
    forall b, e :: Occupied(s', b, e) <==> Occupied(s, b, e) || (b == to && e == pages)
  }

  ghost predicate OneFewer(s: Segs, s': Segs, at: nat) {
    forall b, e :: Occupied(s', b, e) <==> Occupied(s, b, e) && b != at
  }

  /** The bytes of the segments in use are as they were. */
  ghost predicate SameBytes(s: Segs, mem: seq<Byte>, mem': seq<Byte>) {
    |mem'| == |mem| && forall b: nat, e: nat, y :: Occupied(s, b, e) && 16 * b <= y < 16 * (b + e) && y < |mem| ==>
      mem'[y] == mem[y]
  }

  /** Whatever is still referred to is in place, with its size. */
  ghost predicate Stay(s: Segs, s': Segs, bag: Counts) {
    forall b, e :: Occupied(s, b, e) && bag(b) > 0 ==> Occupied(s', b, e)
  }

  ghost predicate HasRun(s: Segs, n: nat) { exists a :: FreeRun(s, a, n) }

  ghost predicate SameFree(s: Segs, s': Segs) { forall p :: FreePage(s', p) <==> FreePage(s, p) }

  /** Where there was room for pages and some more there is still room for the rest. */
  ghost predicate Leaves(s: Segs, s': Segs, pages: nat) {
    forall d: nat :: d > 0 && HasRun(s, pages + d) ==> HasRun(s', d)
  }

  lemma TakeOccupies(s: Segs, k: nat, size: nat, stale: Byte)
    requires HoleList.Fits(s, k, size)
    ensures OneMore(s, Take(s, k, size, stale), s[k].base, size)
  {
    var t := Take(s, k, size, stale);
    forall b, e ensures Occupied(t, b, e) <==> Occupied(s, b, e) || (b == s[k].base && e == size) {
      forall x: Seg | x.flag == Used ensures x in t <==> x in s || x == t[k] { TakeUsed(s, k, size, stale, x); }
      assert t[k].flag == Used && t[k].base == s[k].base && t[k].extent == size && t[k] in t;
    }
  }

  lemma CountOccupies(s: Segs, k: nat, count: Byte)
    requires k < |s| && s[k].flag == Used
    ensures SameOccupied(s, s[k := s[k].(refcount := count)]) && SameFree(s, s[k := s[k].(refcount := count)])
  {
    var t := s[k := s[k].(refcount := count)];
    forall b, e ensures Occupied(t, b, e) <==> Occupied(s, b, e) {
      if Occupied(s, b, e) {
        var x :| x in s && x.flag == Used && x.base == b && x.extent == e;
        var j :| 0 <= j < |s| && s[j] == x;
        assert t[j] in t;
      }
      if Occupied(t, b, e) {
        var x :| x in t && x.flag == Used && x.base == b && x.extent == e;
        var j :| 0 <= j < |t| && t[j] == x;
        assert s[j] in s;
      }
    }
    forall p ensures FreePage(t, p) <==> FreePage(s, p) {
      assert forall j :: 0 <= j < |s| && s[j].flag == Free ==> t[j] == s[j];
      assert forall j :: 0 <= j < |t| && t[j].flag == Free ==> t[j] == s[j];
    }
  }

  lemma ReleaseOccupies(s: Segs, k: nat, lo: nat, hi: nat)
    requires Tiles(s, lo, hi) && k < |s| && s[k].flag == Used
    ensures OneFewer(s, HoleList.Release(s, k), s[k].base)
  {
    BaseUnique(s, lo, hi, s[k].base);
    var t := HoleList.Release(s, k);
    forall b, e ensures Occupied(t, b, e) <==> Occupied(s, b, e) && b != s[k].base {
      forall x: Seg | x.flag == Used ensures x in t <==> x in s && x != s[k] { FreedUsed(s, k, 0, x); }
      forall x: Seg | x in s && x.base == s[k].base ensures x == s[k] {
        var j :| 0 <= j < |s| && s[j] == x;
      }
    }
  }

  lemma ShorterRun(s: Segs, n: nat, m: nat)
    requires HasRun(s, n) && m <= n
    ensures HasRun(s, m)
  {
    var a :| FreeRun(s, a, n);
    assert FreeRun(s, a, m);
  }

  lemma SameRuns(s: Segs, s': Segs, n: nat)
    requires SameFree(s, s')
    ensures HasRun(s, n) <==> HasRun(s', n)
  {
    if HasRun(s, n) {
      var a :| FreeRun(s, a, n);
      assert FreeRun(s', a, n) by { forall p | a <= p < a + n ensures FreePage(s', p) { assert FreePage(s, p); } }
    }
    if HasRun(s', n) {
      var a :| FreeRun(s', a, n);
      assert FreeRun(s, a, n) by { forall p | a <= p < a + n ensures FreePage(s, p) { assert FreePage(s', p); } }
    }
  }

  lemma SegmentIsRun(s: Segs, k: nat, d: nat)
    requires k < |s| && s[k].flag == Free && d <= s[k].extent
    ensures HasRun(s, d)
  {
    assert FreeRun(s, s[k].base, d);
  }

  /** What best fit takes leaves room for the rest of any run. */
  lemma TakeLeaves(s: Segs, k: nat, size: nat, stale: Byte, lo: nat, hi: nat)
    requires Tiles(s, lo, hi) && NoAdjacentFree(s) && HoleList.Fits(s, k, size) && size > 0
    ensures Leaves(s, Take(s, k, size, stale), size)
  {
    var t := Take(s, k, size, stale);
    forall d: nat | d > 0 && HasRun(s, size + d) ensures HasRun(t, d) {
      var a :| FreeRun(s, a, size + d);
      RunInOneSegment(s, lo, hi, a, size + d);
      var j :| 0 <= j < |s| && s[j].flag == Free && s[j].base <= a && a + (size + d) <= s[j].End();
      if j == k {
        SegmentIsRun(t, k + 1, d);
      } else {
        var i := if j < k || size == s[k].extent then j else j + 1;
        assert t[i] == s[j];
        SegmentIsRun(t, i, d);
      }
    }
  }

  /** A copy in a segment that was free touches no segment in use. */
  lemma CopySpares(s: Segs, lo: nat, hi: nat, k: nat, mem: seq<Byte>, from: nat, n: nat)
    requires Tiles(s, lo, hi) && k < |s| && s[k].flag == Free && n <= 16 * s[k].extent
    requires 16 * s[k].base + n <= |mem| && from + n <= |mem|
    ensures SameBytes(s, mem, CopyBytes(mem, 16 * s[k].base, from, n))
  {
    var mem' := CopyBytes(mem, 16 * s[k].base, from, n);
    forall b: nat, e: nat, y | Occupied(s, b, e) && 16 * b <= y < 16 * (b + e) && y < |mem|
      ensures mem'[y] == mem[y]
    {
      var x :| x in s && x.flag == Used && x.base == b && x.extent == e;
      var j :| 0 <= j < |s| && s[j] == x;
      if j < k { Ascending(s, lo, hi, j, k); } else { Ascending(s, lo, hi, k, j); }
    }
  }

  lemma LengthWithin(extent: nat)
    ensures DupLength(extent) <= 16 * extent && (extent < 4096 ==> DupLength(extent) == 16 * extent)
  {}

  /** The segment at to is new, of the size of the one at from, and a copy of it if that is shorter than 64 KB. */
  ghost predicate Copied(s: Segs, s': Segs, mem: seq<Byte>, mem': seq<Byte>, from: nat, to: nat, extent: nat) {
    && Occupied(s, from, extent) && OneMore(s, s', to, extent) && SameBytes(s, mem, mem')
    && (extent < 4096 ==> SameRange(mem, mem', 16 * from, 16 * to, 16 * extent))
  }

  ghost predicate SameRange(mem: seq<Byte>, mem': seq<Byte>, from: nat, to: nat, n: nat) {
    from + n <= |mem| && to + n <= |mem'| && forall y :: to <= y < to + n ==> mem'[y] == mem[from + (y - to)]
  }

  lemma CopyIsSame(mem: seq<Byte>, to: nat, from: nat, n: nat)
    requires to + n <= |mem| && from + n <= |mem|
    ensures SameRange(mem, CopyBytes(mem, to, from, n), from, to, n)
  {}

  lemma DupCopies(s: Segs, lo: nat, hi: nat, o: nat, k: nat, stale: Byte, mem: seq<Byte>)
    requires Tiles(s, lo, hi) && o < |s| && s[o].flag == Used && IsBestFit(s, s[o].extent, k) && k < |s|
    requires 16 * s[k].base + DupLength(s[o].extent) <= |mem| && 16 * s[o].base + DupLength(s[o].extent) <= |mem|
    ensures Copied(s, Take(s, k, s[o].extent, stale), mem,
                   CopyBytes(mem, 16 * s[k].base, 16 * s[o].base, DupLength(s[o].extent)),
                   s[o].base, s[k].base, s[o].extent)
    ensures HasRun(s, s[o].extent)
  {
    assert s[o] in s;
    TakeOccupies(s, k, s[o].extent, stale);
    LengthWithin(s[o].extent);
    CopySpares(s, lo, hi, k, mem, 16 * s[o].base, DupLength(s[o].extent));
    CopyIsSame(mem, 16 * s[k].base, 16 * s[o].base, DupLength(s[o].extent));
    SegmentIsRun(s, k, s[o].extent);
  }

  lemma CopiedAfter(s0: Segs, s: Segs, s': Segs, mem: seq<Byte>, mem': seq<Byte>, from: nat, to: nat, extent: nat)
    requires SameOccupied(s0, s) && Copied(s, s', mem, mem', from, to, extent)
    ensures Copied(s0, s', mem, mem', from, to, extent)
  {}

  /** One reference less to segment k: the count goes down, or the segment goes. */
  lemma DropExact(s: Segs, k: nat, lo: nat, hi: nat, bag: Counts)
    requires Tiles(s, lo, hi) && k < |s| && s[k].flag == Used && Exact(s, bag)
    ensures s[k].refcount == bag(s[k].base) > 0
    ensures var t := if s[k].refcount == 1 then HoleList.Release(s, k)
                     else s[k := s[k].(refcount := (s[k].refcount + 255) % 256)];
            && Exact(t, Minus(bag, s[k].base))
            && if s[k].refcount == 1 then OneFewer(s, t, s[k].base) else SameOccupied(s, t)
  {
    assert s[k] in s && CountRight(s, bag, s[k]);
    if s[k].refcount == 1 {
      ReleaseExact(s, k, lo, hi, bag);
      ReleaseOccupies(s, k, lo, hi);
    } else {
      CountExact(s, k, s[k].refcount - 1, lo, hi, bag, Minus(bag, s[k].base));
      CountOccupies(s, k, s[k].refcount - 1);
    }
  }

  ghost predicate StillOccupied(s: Segs, s': Segs) { forall b, e :: Occupied(s, b, e) ==> Occupied(s', b, e) }

  lemma NotOccupied(s: Segs, bag: Counts, b: nat)
    requires Exact(s, bag) && bag(b) == 0
    ensures forall e :: !Occupied(s, b, e)
  {
    forall x: Seg ensures x in s && x.flag == Used ==> x.base != b { assert CountRight(s, bag, x); }
  }

  /** What was acquired and is given back leaves no trace among the segments in use. */
  lemma BackAgain(s0: Segs, s1: Segs, s2: Segs, bag: Counts, b: nat, pages: nat)
    requires Exact(s0, bag) && bag(b) == 0 && OneMore(s0, s1, b, pages) && OneFewer(s1, s2, b)
    ensures SameOccupied(s0, s2)
  {
    NotOccupied(s0, bag, b);
  }

  // ---------------------------------------------------------------- the kernel's side

  const EAGAIN := 11
  const ENOMEM := 12

  /** A live task is either a kernel task with no segments and no program, or has both segments. */
  predicate TaskSane(t: Task) {
    && (t.live ==> (t.cseg == 0 <==> t.dseg == 0) && (t.inode != 0 ==> t.cseg != 0))
    && (t.hold.Holding? ==> t.hold.code != 0 && t.hold.data != 0 && t.hold.inode != 0)
  }

  /** Reference counts by segment base. */
  type Counts = nat -> nat

  ghost function Plus(f: Counts, b: nat): Counts { x => if x == b then f(x) + 1 else f(x) }

  ghost function Minus(f: Counts, b: nat): Counts { x => if x == b && f(x) > 0 then (f(x) - 1) as nat else f(x) }

  /** The references in the bag to b are those of the tasks and of the kernel itself. */
  ghost predicate Balanced(tasks: seq<Task>, pinned: set<nat>, bag: Counts, b: nat) {
    bag(b) == Refs(tasks, b) + (if b in pinned then 1 else 0)
  }

  /** What task i names is in the bag, that often, and no count comes near a byte's limit. */
  lemma Held(tasks: seq<Task>, pinned: set<nat>, bag: Counts, i: nat, b: nat)
    requires i < |tasks| == MAX_TASKS && Balanced(tasks, pinned, bag, b)
    ensures TaskRefs(tasks[i], b) <= bag(b) <= 4 * MAX_TASKS + 1
  {
    RefsBound(tasks, b);
    RefsUpdate(tasks, i, Task(false, 0, 0, 0, NoHold), b);
  }

  /** Replacing task i when the references it names have moved by the same amounts. */
  lemma Rebalance(tasks: seq<Task>, pinned: set<nat>, bag: Counts, i: nat, t: Task, bag': Counts)
    requires i < |tasks| && forall b :: Balanced(tasks, pinned, bag, b)
    requires forall b :: Moved(tasks[i], t, bag, bag', b)
    ensures var tasks' := tasks[i := t]; forall b :: Balanced(tasks', pinned, bag', b)
  {
    var tasks' := tasks[i := t];
    forall b ensures Balanced(tasks', pinned, bag', b) {
      assert Balanced(tasks, pinned, bag, b) && Moved(tasks[i], t, bag, bag', b);
      RefsUpdate(tasks, i, t, b);
    }
  }

  ghost predicate Moved(t: Task, t': Task, bag: Counts, bag': Counts, b: nat) {
    bag'(b) + TaskRefs(t, b) == bag(b) + TaskRefs(t', b)
  }

  class Kernel {
    const mm: MallocHead
    var tasks: seq<Task>
    var pinned: set<nat>      // segments the kernel itself allocated and never frees
    var halted: bool               // panic
    ghost var bag: Counts   // all references, with multiplicity

    /** The list and the counts are exact for `bag`. */
    ghost predicate Core()
      reads this, mm, mm.holes
    {
      mm.Valid() && mm.unit == 16 && mm.lo > 0 && Exact(mm.Segs(), bag)
    }

    ghost predicate Valid()
      reads this, mm, mm.holes
    {
      && Core() && |tasks| == MAX_TASKS
      && (forall i :: 0 <= i < |tasks| ==> TaskSane(tasks[i]))
      && (forall b :: Balanced(tasks, pinned, bag, b))
    }

    constructor (m: MallocHead)
      requires m.Valid() && m.unit == 16 && 0 < m.lo < m.hi && m.Segs() == [Seg(m.lo, m.hi - m.lo, Free, 0)]
      ensures mm == m && Valid() && !halted
    {
      mm := m;
      tasks := seq(MAX_TASKS, i => Task(i < 2, 0, 0, 0, NoHold));
      pinned, bag, halted := {}, b => 0, false;
      new;
      forall b ensures Balanced(tasks, pinned, bag, b) { NoRefs(tasks, b); }
    }

    /** What exactness means for one referenced segment. */
    lemma Referenced(b: nat)
      requires Core() && bag(b) > 0
      ensures exists k :: 0 <= k < |mm.Segs()| && mm.Segs()[k].base == b && mm.Segs()[k].flag == Used
      ensures forall k :: 0 <= k < |mm.Segs()| && mm.Segs()[k].base == b ==>
                mm.Segs()[k].flag == Used && mm.Segs()[k].refcount == bag(b)
    {
      var s := mm.Segs();
      assert RefersUsed(s, bag, b);
      var x :| x in s && x.flag == Used && x.base == b;
      var j :| 0 <= j < |s| && s[j] == x;
      BaseUnique(s, mm.lo, mm.hi, b);
      assert CountRight(s, bag, x);
    }

    /** mm_alloc: 0 when there is no memory. */
    method Acquire(pages: nat) returns (base: nat, ghost n: int)
      requires Core() && !halted && pages > 0
      modifies this`halted, this`bag, mm, mm.holes
      ensures !halted ==> Core()
      ensures !halted ==> if base == 0 then bag == old(bag) else old(bag)(base) == 0 && bag == Plus(old(bag), base)
      ensures !halted && base == 0 ==> !HasRun(old(mm.Segs()), pages) && mm.Segs() == old(mm.Segs())
      ensures !halted && base != 0 ==>
                && HasRun(old(mm.Segs()), pages)
                && OneMore(old(mm.Segs()), mm.Segs(), base, pages) && Leaves(old(mm.Segs()), mm.Segs(), pages)
      ensures halted ==> old(mm.Spent())
      ensures mm.mem == old(mm.mem)
      ensures forall i :: 0 <= i < mm.holes.Length && i != n && old(mm.holes[i].flag) == Flag.Spare ==>
                mm.holes[i].flag == Flag.Spare
    {
      ghost var s, k, stale := mm.Segs(), 0, 0;
      var r;
      r, k, stale, n := mm.MmAlloc(pages);
      match r {
        case Panic => halted := true; base := 0;
        case NoMemory => base := 0;
        case Segment(b) =>
          Inside(s, mm.lo, mm.hi, k);
          TakeExact(s, k, pages, stale, mm.lo, mm.hi, bag);
          TakeOccupies(s, k, pages, stale);
          TakeLeaves(s, k, pages, stale, mm.lo, mm.hi);
          base := b;
          bag := Plus(bag, b);
      }
    }

    /** mm_dup of a segment in use: 0 when there is no memory. */
    method Duplicate(from: nat) returns (base: nat, ghost extent: nat)
      requires Core() && !halted && bag(from) > 0
      modifies this`halted, this`bag, mm, mm.holes
      ensures !halted ==> Core()
      ensures !halted ==> if base == 0 then bag == old(bag) else old(bag)(base) == 0 && bag == Plus(old(bag), base)
      ensures Occupied(old(mm.Segs()), from, extent)
      ensures !halted && base == 0 ==>
                !HasRun(old(mm.Segs()), extent) && mm.Segs() == old(mm.Segs()) && mm.mem == old(mm.mem)
      ensures !halted && base != 0 ==>
                && HasRun(old(mm.Segs()), extent)
                && Copied(old(mm.Segs()), mm.Segs(), old(mm.mem), mm.mem, from, base, extent)
      ensures halted ==> old(mm.Spent())
    {
      Referenced(from);
      ghost var s, o, k, stale := mm.Segs(), 0, 0, 0;
      var r;
      r, o, k, stale := mm.MmDup(from);
      extent := s[o].extent;
      match r {
        case Panic => halted := true; base := 0;
        case NoMemory => base := 0;
        case Segment(b) =>
          Inside(s, mm.lo, mm.hi, k);
          Inside(s, mm.lo, mm.hi, o);
          TakeExact(s, k, s[o].extent, stale, mm.lo, mm.hi, bag);
          DupCopies(s, mm.lo, mm.hi, o, k, stale, old(mm.mem));
          base := b;
          bag := Plus(bag, b);
      }
    }

    /** mm_realloc. */
    method AddRef(b: nat)
      requires Core() && 0 < bag(b) < 255
      modifies this`bag, mm.holes
      ensures Core() && bag == Plus(old(bag), b)
      ensures SameOccupied(old(mm.Segs()), mm.Segs()) && SameFree(old(mm.Segs()), mm.Segs())
      ensures forall i :: 0 <= i < mm.holes.Length ==> mm.holes[i].flag == old(mm.holes[i].flag)
    {
      Referenced(b);
      ghost var s := mm.Segs();
      var _, k := mm.MmRealloc(b);
      CountOccupies(s, k, s[k].refcount + 1);
      CountExact(s, k, s[k].refcount + 1, mm.lo, mm.hi, bag, Plus(bag, b));
      bag := Plus(bag, b);
    }

    /** mm_free of a referenced segment never panics. */
    method DropRef(b: nat)
      requires Core() && bag(b) > 0
      modifies this`bag, mm, mm.holes
      ensures Core() && bag == Minus(old(bag), b) && mm.mem == old(mm.mem)
      ensures if old(bag)(b) == 1 then OneFewer(old(mm.Segs()), mm.Segs(), b)
              else SameOccupied(old(mm.Segs()), mm.Segs())
    {
      Referenced(b);
      ghost var s := mm.Segs();
      var ok, k := mm.MmFree(b);
      DropExact(s, k, mm.lo, mm.hi, bag);
      bag := Minus(bag, b);
    }

    /** find_empty_process: the last unused slot, refused to ordinary users when it is the only one. */
    method FindEmptyProcess(root: bool) returns (n: int)
      requires |tasks| == MAX_TASKS
      ensures n == -EAGAIN <==> Vacant(tasks) == 0 || (Vacant(tasks) == 1 && !root)
      ensures n != -EAGAIN ==> 0 <= n < MAX_TASKS && !tasks[n].live && forall j :: n < j < MAX_TASKS ==> tasks[j].live
    {
      var i, unused := 0, 0;
      n := -EAGAIN;
      while i < MAX_TASKS
        invariant 0 <= i <= MAX_TASKS
        invariant unused == 0 <==> n == -EAGAIN
        invariant unused > 0 ==> 0 <= n < i && !tasks[n].live && forall j :: n < j < i ==> tasks[j].live
        invariant unused == Vacant(tasks[..i]) >= 0
      {
        VacantJoin(tasks[..i], [tasks[i]]);
        assert tasks[..i + 1] == tasks[..i] + [tasks[i]];
        if !tasks[i].live { unused, n := unused + 1, i; }
        i := i + 1;
      }
      assert tasks[..i] == tasks;
      if unused <= 1 {
        if unused == 0 || !root { n := -EAGAIN; }
      }
    }

    /** The child's data segment: the parent's own for vfork, a copy for fork, 0 for no memory. */
    method CloneData(d: nat, virtual: bool) returns (data: nat, ghost extent: nat)
      requires Core() && !halted && d != 0 && 0 < bag(d) < 255
      modifies this`halted, this`bag, mm, mm.holes
      ensures !halted ==> Core() && (if data == 0 then bag == old(bag) else bag == Plus(old(bag), data))
      ensures !halted ==> if virtual then data == d else data == 0 || old(bag)(data) == 0
      ensures Occupied(old(mm.Segs()), d, extent)
      ensures !halted && (virtual || data == 0) ==> SameOccupied(old(mm.Segs()), mm.Segs()) && mm.mem == old(mm.mem)
      ensures !halted && data == 0 ==> !HasRun(old(mm.Segs()), extent)
      ensures !halted && !virtual && data != 0 ==>
                && HasRun(old(mm.Segs()), extent)
                && Copied(old(mm.Segs()), mm.Segs(), old(mm.mem), mm.mem, d, data, extent)
      ensures halted ==> !virtual && old(mm.Spent())
    {
      if virtual {
        extent := ExtentOf(d);
        AddRef(d);
        data := d;
      } else {
        data, extent := Duplicate(d);
      }
    }

    /** The child's segments: one more reference to the text, and the data; 0 for no memory, with nothing kept. */
    method CloneBoth(c: nat, d: nat, virtual: bool) returns (data: nat, ghost extent: nat)
      requires Core() && !halted && c != 0 && d != 0 && 0 < bag(c) < 254 && 0 < bag(d) < 254
      modifies this`halted, this`bag, mm, mm.holes
      ensures !halted ==> Core()
      ensures !halted ==> forall b :: bag(b) == old(bag)(b) + if data == 0 then 0 else Is(c, b) + Is(data, b)
      ensures !halted ==> if virtual then data == d else data == 0 || old(bag)(data) == 0
      ensures Occupied(old(mm.Segs()), d, extent)
      ensures !halted && (virtual || data == 0) ==> SameOccupied(old(mm.Segs()), mm.Segs()) && mm.mem == old(mm.mem)
      ensures !halted && !virtual ==> (data == 0 <==> !HasRun(old(mm.Segs()), extent))
      ensures !halted && !virtual && data != 0 ==>
                Copied(old(mm.Segs()), mm.Segs(), old(mm.mem), mm.mem, d, data, extent)
      ensures halted ==> !virtual && old(mm.Spent())
    {
      ghost var s0, bag0 := mm.Segs(), bag;
      AddRef(c);
      ghost var s1, mem1 := mm.Segs(), mm.mem;
      data, extent := CloneData(d, virtual);
      SameRuns(s0, s1, extent);
      if halted { return; }
      if data == 0 {
        DropRef(c);
        assert forall b :: bag(b) == bag0(b);
      } else if !virtual {
        CopiedAfter(s0, s1, mm.Segs(), mem1, mm.mem, d, data, extent);
      }
    }

    /** do_fork: the text is shared, the data shared by vfork and copied by fork. It fails for want of a slot exactly if
      * there is none, or one that only root may take; for want of memory exactly if no run of pages takes the copy; and
      * panics only if no descriptor is spare. */
    method Fork(parent: nat, virtual: bool, root: bool) returns (res: int, ghost extent: nat)
      requires !halted && Valid() && parent < MAX_TASKS
      requires tasks[parent].live && tasks[parent].cseg != 0 && tasks[parent].hold.NoHold?
      modifies this, mm, mm.holes
      ensures !halted ==> Valid() && pinned == old(pinned)
      ensures halted ==> !virtual && old(mm.Spent())
      ensures Occupied(old(mm.Segs()), old(tasks)[parent].dseg, extent)
      ensures !halted ==> (res == -EAGAIN <==> Vacant(old(tasks)) == 0 || (Vacant(old(tasks)) == 1 && !root))
      ensures !halted && res != -EAGAIN ==>
                && (res == -ENOMEM <==> !virtual && !HasRun(old(mm.Segs()), extent))
                && (res == -ENOMEM || 0 <= res < MAX_TASKS)
      ensures !halted && res >= 0 ==>
                && !old(tasks[res].live) && tasks == old(tasks)[res := old(tasks)[parent].(dseg := tasks[res].dseg)]
                && (if virtual then tasks[res].dseg == tasks[parent].dseg else old(bag)(tasks[res].dseg) == 0)
      ensures !halted && res >= 0 && !virtual ==>
                Copied(old(mm.Segs()), mm.Segs(), old(mm.mem), mm.mem, old(tasks)[parent].dseg, tasks[res].dseg, extent)
      ensures !halted && (res < 0 || virtual) ==> SameOccupied(old(mm.Segs()), mm.Segs()) && mm.mem == old(mm.mem)
      ensures !halted && res < 0 ==> forall i :: 0 <= i < MAX_TASKS ==>
                if old(tasks[i].live) then tasks[i] == old(tasks[i]) else !tasks[i].live
      ensures !halted && res == -EAGAIN ==> tasks == old(tasks)
    {
      var p := tasks[parent];
      Names(parent, p.cseg);
      Names(parent, p.dseg);
      res := FindEmptyProcess(root);
      if res < 0 {
        extent := ExtentOf(p.dseg);
        return;
      }
      ghost var tasks0, bag0 := tasks, bag;
      var d;
      d, extent := CloneBoth(p.cseg, p.dseg, virtual);
      if halted { return; }
      var child := if d == 0 then p.(live := false) else p.(dseg := d);
      tasks := tasks[res := child];
      forall b ensures Moved(tasks0[res], child, bag0, bag, b) { }
      Rebalance(tasks0, pinned, bag0, res, child, bag);
      if d == 0 { res := -ENOMEM; }
    }

    /** The size of a referenced segment. */
    lemma ExtentOf(b: nat) returns (extent: nat)
      requires Core() && bag(b) > 0
      ensures Occupied(mm.Segs(), b, extent)
    {
      Referenced(b);
      var k :| 0 <= k < |mm.Segs()| && mm.Segs()[k].base == b && mm.Segs()[k].flag == Used;
      assert mm.Segs()[k] in mm.Segs();
      extent := mm.Segs()[k].extent;
    }

    /** The text of a running task with the same program; mm.cseg of the first such slot. */
    method SharedText(inode: nat) returns (cseg: nat)
      requires Valid() && inode != 0
      ensures cseg != 0 ==> exists i ::
                0 <= i < MAX_TASKS && tasks[i].live && tasks[i].inode == inode && tasks[i].cseg == cseg
      ensures cseg == 0 ==> forall i :: 0 <= i < MAX_TASKS && tasks[i].live ==> tasks[i].inode != inode
    {
      var i := 0;
      while i < MAX_TASKS
        invariant 0 <= i <= MAX_TASKS
        invariant forall j :: 0 <= j < i && tasks[j].live ==> tasks[j].inode != inode
      {
        if tasks[i].live && tasks[i].inode == inode { return tasks[i].cseg; }
        i := i + 1;
      }
      return 0;
    }

    /** A live task runs the program. */
    ghost predicate Shares(inode: nat)
      reads this`tasks
    {
      exists i :: 0 <= i < |tasks| && tasks[i].live && tasks[i].inode == inode
    }

    /** sys_execve up to its first read: text shared or allocated, data allocated, or nothing kept. It fails only if the
      * program is too big or no run of free pages takes what is to be allocated. */
    method ExecAcquire(t: nat, inode: nat, textPages: nat, dataPages: nat, tooBig: bool) returns (err: int)
      requires !halted && Valid() && t < MAX_TASKS && tasks[t].live && tasks[t].hold.NoHold?
      requires inode != 0 && textPages > 0 && dataPages > 0
      modifies this, mm, mm.holes
      ensures !halted ==> Valid() && pinned == old(pinned) && mm.mem == old(mm.mem)
      ensures !halted && err != 0 ==> err == -ENOMEM && tasks == old(tasks) && SameOccupied(old(mm.Segs()), mm.Segs())
      ensures !halted ==> (err != 0 ==>
                tooBig || !HasRun(old(mm.Segs()), if old(Shares(inode)) then dataPages else textPages + dataPages))
      ensures !halted && tooBig ==> err != 0
      ensures halted ==> forall i, j :: 0 <= i < j < mm.holes.Length ==>
                old(mm.holes[i].flag) != Flag.Spare || old(mm.holes[j].flag) != Flag.Spare
      ensures !halted && err == 0 ==>
                && tasks[t].hold.Holding? && tasks[t].hold.inode == inode && old(bag)(tasks[t].hold.data) == 0
                && tasks == old(tasks)[t := old(tasks)[t].(hold := tasks[t].hold)]
                && Occupied(mm.Segs(), tasks[t].hold.data, dataPages) && StillOccupied(old(mm.Segs()), mm.Segs())
                && (if old(Shares(inode)) then
                      exists i :: 0 <= i < MAX_TASKS && old(tasks)[i].live && old(tasks)[i].inode == inode
                                  && old(tasks)[i].cseg == tasks[t].hold.code
                    else old(bag)(tasks[t].hold.code) == 0 && Occupied(mm.Segs(), tasks[t].hold.code, textPages))
    {
      ghost var tasks0, bag0 := tasks, bag;
      var c, d := AcquireBoth(inode, textPages, dataPages, tooBig);
      if halted { return 0; }
      if d == 0 {
        forall b ensures Balanced(tasks, pinned, bag, b) { assert Balanced(tasks, pinned, bag0, b); }
        return -ENOMEM;
      }
      var task := tasks[t].(hold := Holding(c, d, inode));
      tasks := tasks[t := task];
      forall b ensures Moved(tasks0[t], task, bag0, bag, b) { }
      Rebalance(tasks0, pinned, bag0, t, task, bag);
      err := 0;
    }

    /** Both segments of an exec, or neither; data is 0 for neither. */
    method AcquireBoth(inode: nat, textPages: nat, dataPages: nat, tooBig: bool) returns (c: nat, d: nat)
      requires !halted && Valid() && inode != 0 && textPages > 0 && dataPages > 0
      modifies this`halted, this`bag, mm, mm.holes
      ensures !halted ==> Core() && mm.mem == old(mm.mem)
      ensures !halted && d == 0 ==> (forall b :: bag(b) == old(bag)(b)) && SameOccupied(old(mm.Segs()), mm.Segs())
      ensures !halted && d == 0 ==>
                tooBig || !HasRun(old(mm.Segs()), if Shares(inode) then dataPages else textPages + dataPages)
      ensures !halted && tooBig ==> d == 0
      ensures halted ==> forall i, j :: 0 <= i < j < mm.holes.Length ==>
                old(mm.holes[i].flag) != Flag.Spare || old(mm.holes[j].flag) != Flag.Spare
      ensures !halted && d != 0 ==>
                && c != 0 && old(bag)(d) == 0 && (forall b :: bag(b) == old(bag)(b) + Is(c, b) + Is(d, b))
                && Occupied(mm.Segs(), d, dataPages) && StillOccupied(old(mm.Segs()), mm.Segs())
                && (if Shares(inode) then
                      exists i :: 0 <= i < MAX_TASKS && tasks[i].live && tasks[i].inode == inode && tasks[i].cseg == c
                    else old(bag)(c) == 0 && Occupied(mm.Segs(), c, textPages))
    {
      ghost var s0, bag0 := mm.Segs(), bag;
      ghost var n;
      c, n := AcquireText(inode, textPages);
      d := 0;
      if halted { return; }
      if c == 0 {
        if HasRun(s0, textPages + dataPages) { ShorterRun(s0, textPages + dataPages, textPages); }
        return;
      }
      ghost var s1 := mm.Segs();
      if !tooBig {
        ghost var i;
        d, i := Acquire(dataPages);
        if halted { return; }
      }
      ghost var s2 := mm.Segs();
      if d == 0 {
        DropRef(c);
        if Shares(inode) { SameRuns(s0, s1, dataPages); } else { BackAgain(s0, s2, mm.Segs(), bag0, c, textPages); }
      }
    }

    /** The text segment of an exec: mm_realloc of a running copy's, or a new one; 0 for no memory. */
    method AcquireText(inode: nat, pages: nat) returns (cseg: nat, ghost n: int)
      requires !halted && Valid() && inode != 0 && pages > 0
      modifies this`halted, this`bag, mm, mm.holes
      ensures !halted ==> Core() && (if cseg == 0 then bag == old(bag) else bag == Plus(old(bag), cseg))
      ensures !halted && cseg == 0 ==>
                !Shares(inode) && !HasRun(old(mm.Segs()), pages) && mm.Segs() == old(mm.Segs())
      ensures !halted && cseg != 0 ==>
                if Shares(inode) then
                  && SameOccupied(old(mm.Segs()), mm.Segs()) && SameFree(old(mm.Segs()), mm.Segs())
                  && old(bag)(cseg) > 0
                  && exists i :: 0 <= i < MAX_TASKS && tasks[i].live && tasks[i].inode == inode && tasks[i].cseg == cseg
                else
                  && old(bag)(cseg) == 0 && OneMore(old(mm.Segs()), mm.Segs(), cseg, pages)
                  && Leaves(old(mm.Segs()), mm.Segs(), pages)
      ensures halted ==> !Shares(inode) && old(mm.Spent())
      ensures mm.mem == old(mm.mem)
      ensures forall i :: 0 <= i < mm.holes.Length && i != n && old(mm.holes[i].flag) == Flag.Spare ==>
                mm.holes[i].flag == Flag.Spare
    {
      n := -1;
      cseg := SharedText(inode);
      if cseg != 0 {
        ghost var i :| 0 <= i < MAX_TASKS && tasks[i].live && tasks[i].inode == inode && tasks[i].cseg == cseg;
        Names(i, cseg);
        AddRef(cseg);
      } else {
        cseg, n := Acquire(pages);
      }
    }

    /** A failed read: both new segments go back. */
    method ExecFail(t: nat)
      requires !halted && Valid() && t < MAX_TASKS && tasks[t].live && tasks[t].hold.Holding?
      modifies this, mm, mm.holes
      ensures Stay(old(mm.Segs()), mm.Segs(), bag) && mm.mem == old(mm.mem)
      ensures !halted && Valid() && pinned == old(pinned) && tasks == old(tasks)[t := old(tasks)[t].(hold := NoHold)]
    {
      ghost var tasks0, bag0 := tasks, bag;
      var h, task := tasks[t].hold, tasks[t].(hold := NoHold);
      Names(t, h.code);
      Names(t, h.data);
      DropBoth(h.code, h.data);
      tasks := tasks[t := task];
      forall b ensures Moved(tasks0[t], task, bag0, bag, b) { }
      Rebalance(tasks0, pinned, bag0, t, task, bag);
    }

    /** mm_free of a segment that may be NULL. */
    method DropIfAny(b: nat)
      requires Core() && (b != 0 ==> bag(b) > 0)
      modifies this`bag, mm, mm.holes
      ensures Core() && bag == if b == 0 then old(bag) else Minus(old(bag), b)
      ensures Stay(old(mm.Segs()), mm.Segs(), bag) && mm.mem == old(mm.mem)
    {
      if b != 0 { DropRef(b); }
    }

    method DropBoth(c: nat, d: nat)
      requires Core() && (c != 0 ==> bag(c) > 0) && (d != 0 ==> bag(d) > 0) && (c == d != 0 ==> bag(d) > 1)
      modifies this`bag, mm, mm.holes
      ensures Core() && forall b :: bag(b) + Is(c, b) + Is(d, b) == old(bag)(b)
      ensures Stay(old(mm.Segs()), mm.Segs(), bag) && mm.mem == old(mm.mem)
    {
      DropIfAny(c);
      DropIfAny(d);
    }

    /** The old binary is flushed out and the new one installed. */
    method ExecCommit(t: nat)
      requires !halted && Valid() && t < MAX_TASKS && tasks[t].live && tasks[t].hold.Holding?
      modifies this, mm, mm.holes
      ensures !halted && Valid() && pinned == old(pinned)
      ensures Stay(old(mm.Segs()), mm.Segs(), bag) && mm.mem == old(mm.mem)
      ensures var h := old(tasks)[t].hold; tasks == old(tasks)[t := Task(true, h.code, h.data, h.inode, NoHold)]
    {
      ghost var tasks0, bag0 := tasks, bag;
      var c, d := tasks[t].cseg, tasks[t].dseg;
      Names(t, c);
      Names(t, d);
      DropBoth(c, d);
      var h := tasks[t].hold;
      var task := Task(true, h.code, h.data, h.inode, NoHold);
      tasks := tasks[t := task];
      forall b ensures Moved(tasks0[t], task, bag0, bag, b) { }
      Rebalance(tasks0, pinned, bag0, t, task, bag);
    }

    /** do_exit, in one step. */
    method Exit(t: nat)
      requires !halted && Valid() && t < MAX_TASKS && tasks[t].live && tasks[t].hold.NoHold?
      modifies this, mm, mm.holes
      ensures !halted && Valid() && pinned == old(pinned)
      ensures tasks == old(tasks)[t := old(tasks)[t].(live := false, cseg := 0, dseg := 0)]
      ensures Stay(old(mm.Segs()), mm.Segs(), bag) && mm.mem == old(mm.mem)
    {
      ghost var tasks0, bag0 := tasks, bag;
      var c, d := tasks[t].cseg, tasks[t].dseg;
      Names(t, c);
      Names(t, d);
      DropBoth(c, d);
      var task := tasks[t].(live := false, cseg := 0, dseg := 0);
      tasks := tasks[t := task];
      forall b ensures Moved(tasks0[t], task, bag0, bag, b) { }
      Rebalance(tasks0, pinned, bag0, t, task, bag);
    }

    /** A segment the kernel takes for good, such as the second-level buffers. */
    method Pin(pages: nat)
      requires !halted && Valid() && pages > 0
      modifies this, mm, mm.holes
      ensures !halted ==> Valid() && tasks == old(tasks) && mm.mem == old(mm.mem)
      ensures !halted ==> StillOccupied(old(mm.Segs()), mm.Segs())
      ensures !halted ==>
                pinned == old(pinned) || exists b :: pinned == old(pinned) + {b} && Occupied(mm.Segs(), b, pages)
    {
      ghost var bag0, pinned0 := bag, pinned;
      var base, _ := Acquire(pages);
      if halted { return; }
      if base != 0 { pinned := pinned + {base}; }
      forall b ensures Balanced(tasks, pinned, bag, b) { assert Balanced(tasks, pinned0, bag0, b); }
    }

    /** A segment is referenced at least as often as a task names it, and not near a byte's limit. */
    lemma Names(i: nat, b: nat)
      requires Valid() && i < MAX_TASKS
      ensures TaskRefs(tasks[i], b) <= bag(b) <= 4 * MAX_TASKS + 1
    {
      assert Balanced(tasks, pinned, bag, b);
      Held(tasks, pinned, bag, i, b);
    }
  }

  lemma {:induction false} NoRefs(tasks: seq<Task>, b: nat)
    requires forall i :: 0 <= i < |tasks| ==> tasks[i].cseg == tasks[i].dseg == 0 && tasks[i].hold.NoHold?
    ensures Refs(tasks, b) == 0
    decreases |tasks|
  {
    if tasks != [] { NoRefs(tasks[1..], b); }
  }

  // ---------------------------------------------------------------- runs

  datatype Event =
    | ForkEvent(t: nat, virtual: bool, root: bool)
    | ExecEvent(t: nat, inode: nat, textPages: nat, dataPages: nat, tooBig: bool)
    | ReadFailed(t: nat)
    | ImageLoaded(t: nat)
    | ExitEvent(t: nat)
    | KernelAlloc(pages: nat)

  /** A live task has the segment at b, or has it for the program that it is loading. */
  ghost predicate Uses(t: Task, b: nat) {
    t.live && b != 0 && (b == t.cseg || b == t.dseg || (t.hold.Holding? && (b == t.hold.code || b == t.hold.data)))
  }

  ghost predicate InUse(tasks: seq<Task>, b: nat) { exists i :: 0 <= i < |tasks| && Uses(tasks[i], b) }

  /** Every used segment's count is the number of references to it from live tasks and the kernel. */
  ghost predicate CountsExact(k: Kernel)
    reads k, k.mm, k.mm.holes
  {
    forall i :: 0 <= i < |k.mm.Segs()| && k.mm.Segs()[i].flag == Used ==>
      var s := k.mm.Segs()[i];
      s.refcount > 0 && s.refcount == Refs(k.tasks, s.base) + (if s.base in k.pinned then 1 else 0)
  }

  /** No segment a live task has, or has for the program that it is loading, has been freed. */
  ghost predicate NoneDangling(k: Kernel)
    reads k, k.mm, k.mm.holes
  {
    forall b :: InUse(k.tasks, b) ==> HasUsed(k.mm.Segs(), b)
  }

  lemma ValidMeans(k: Kernel)
    requires k.Valid()
    ensures CountsExact(k) && NoneDangling(k)
  {
    forall i | 0 <= i < |k.mm.Segs()| && k.mm.Segs()[i].flag == Used
      ensures var s := k.mm.Segs()[i];
              s.refcount > 0 && s.refcount == Refs(k.tasks, s.base) + (if s.base in k.pinned then 1 else 0)
    {
      assert CountRight(k.mm.Segs(), k.bag, k.mm.Segs()[i]);
      assert Balanced(k.tasks, k.pinned, k.bag, k.mm.Segs()[i].base);
    }
    forall b | InUse(k.tasks, b) ensures HasUsed(k.mm.Segs(), b) {
      var i :| 0 <= i < |k.tasks| && Uses(k.tasks[i], b);
      k.Names(i, b);
      assert RefersUsed(k.mm.Segs(), k.bag, b);
    }
  }

  // ---------------------------------------------------------------- what a run does

  /** The task an event is about is in a state to cause it. */
  predicate Possible(tasks: seq<Task>, e: Event) {
    match e
    case ForkEvent(t, _, _) => t < |tasks| && tasks[t].live && tasks[t].cseg != 0 && tasks[t].hold.NoHold?
    case ExecEvent(t, inode, text, data, _) =>
      t < |tasks| && tasks[t].live && tasks[t].hold.NoHold? && inode != 0 && text > 0 && data > 0
    case ReadFailed(t) => t < |tasks| && tasks[t].live && tasks[t].hold.Holding?
    case ImageLoaded(t) => t < |tasks| && tasks[t].live && tasks[t].hold.Holding?
    case ExitEvent(t) => t < |tasks| && tasks[t].live && tasks[t].hold.NoHold?
    case KernelAlloc(pages) => pages > 0
  }

  /** Slot c, unused before, is task t's child, with the parent's own data segment exactly if it is a vfork. */
  ghost predicate Born(a: seq<Task>, z: seq<Task>, t: nat, virtual: bool, c: nat) {
    && t < |a| == |z| && c < |a| && !a[c].live && z[c].live
    && z == a[c := a[t].(dseg := z[c].dseg)] && (z[c].dseg == a[t].dseg <==> virtual)
  }

  /** No task is born or changed. */
  ghost predicate NoneBorn(a: seq<Task>, z: seq<Task>) {
    |a| == |z| && forall i :: 0 <= i < |a| ==> if a[i].live then z[i] == a[i] else !z[i].live
  }

  /** What an event does to the tasks. A vfork fails exactly for want of a slot. */
  ghost predicate Follows(a: seq<Task>, e: Event, z: seq<Task>)
    requires Possible(a, e)
  {
    match e
    case ForkEvent(t, virtual, root) =>
      var noSlot := Vacant(a) == 0 || (Vacant(a) == 1 && !root);
      && ((exists c :: Born(a, z, t, virtual, c)) || NoneBorn(a, z))
      && (noSlot ==> z == a) && (virtual && !noSlot ==> exists c :: Born(a, z, t, virtual, c))
    case ExecEvent(t, inode, _, _, tooBig) =>
      z == a || (!tooBig && t < |z| && z[t].hold.Holding? && z[t].hold.inode == inode
                 && z == a[t := a[t].(hold := z[t].hold)])
    case ReadFailed(t) => z == a[t := a[t].(hold := NoHold)]
    case ImageLoaded(t) => var h := a[t].hold; z == a[t := Task(true, h.code, h.data, h.inode, NoHold)]
    case ExitEvent(t) => z == a[t := a[t].(live := false, cseg := 0, dseg := 0)]
    case KernelAlloc(_) => z == a
  }

  /** The tasks, the list and the contents of memory at one time. */
  datatype Snap = Snap(tasks: seq<Task>, segs: Segs, mem: seq<Byte>)

  ghost function Now(k: Kernel): Snap
    reads k, k.mm, k.mm.holes
  {
    Snap(k.tasks, k.mm.Segs(), k.mm.mem)
  }

  /** What is in use afterwards is where it was, if it was there, and nothing in use has been written to. */
  ghost predicate Keeps(a: Snap, z: Snap) {
    && SameBytes(a.segs, a.mem, z.mem)
    && forall b, x :: Occupied(a.segs, b, x) && InUse(z.tasks, b) ==> Occupied(z.segs, b, x)
  }

  lemma StayKeeps(k: Kernel, a: Snap)
    requires k.Valid() && Stay(a.segs, k.mm.Segs(), k.bag) && SameBytes(a.segs, a.mem, k.mm.mem)
    ensures Keeps(a, Now(k))
  {
    forall b, x | Occupied(a.segs, b, x) && InUse(k.tasks, b) ensures Occupied(k.mm.Segs(), b, x) {
      var i :| 0 <= i < |k.tasks| && Uses(k.tasks[i], b);
      k.Names(i, b);
    }
  }

  ghost predicate Does(a: Snap, e: Event, z: Snap) {
    (if Possible(a.tasks, e) then Follows(a.tasks, e, z.tasks) else z.tasks == a.tasks) && Keeps(a, z)
  }

  method ForkStep(k: Kernel, t: nat, virtual: bool, root: bool)
    requires !k.halted && k.Valid() && Possible(k.tasks, ForkEvent(t, virtual, root))
    modifies k, k.mm, k.mm.holes
    ensures k.halted || (k.Valid() && Does(old(Now(k)), ForkEvent(t, virtual, root), Now(k)))
  {
    ghost var a := Now(k);
    k.Names(t, k.tasks[t].dseg);
    var res, extent := k.Fork(t, virtual, root);
    if k.halted { return; }
    StayKeeps(k, a);
    if res >= 0 {
      assert Born(a.tasks, k.tasks, t, virtual, res);
    } else {
      assert NoneBorn(a.tasks, k.tasks);
    }
  }

  /** One event, if the task it concerns is in a state to cause it. */
  method Step(k: Kernel, e: Event)
    requires !k.halted && k.Valid()
    modifies k, k.mm, k.mm.holes
    ensures k.halted || (k.Valid() && Does(old(Now(k)), e, Now(k)))
  {
    ghost var a := Now(k);
    if Possible(k.tasks, e) {
      match e {
        case ForkEvent(t, virtual, root) => ForkStep(k, t, virtual, root); return;
        case ExecEvent(t, inode, text, data, tooBig) => var _ := k.ExecAcquire(t, inode, text, data, tooBig);
        case ReadFailed(t) => k.ExecFail(t);
        case ImageLoaded(t) => k.ExecCommit(t);
        case ExitEvent(t) => k.Exit(t);
        case KernelAlloc(pages) => k.Pin(pages);
      }
    }
    if !k.halted { StayKeeps(k, a); }
  }

  /** The snapshots are those before and after each of the events. */
  ghost predicate Trace(snaps: seq<Snap>, events: seq<Event>) {
    |snaps| == |events| + 1 && forall i :: 0 <= i < |events| ==> Does(snaps[i], events[i], snaps[i + 1])
  }

  /** Over any run of forks, execs in progress and exits of any tasks in any order, up to a panic: each event has its
    * effect, the list tiles memory with no two free neighbours, every count is exact, and no segment in use is
    * freed. */
  method Run(k: Kernel, events: seq<Event>) returns (ghost snaps: seq<Snap>)
    requires !k.halted && k.Valid()
    modifies k, k.mm, k.mm.holes
    ensures k.halted || (CountsExact(k) && NoneDangling(k))
    ensures k.halted || (Tiles(k.mm.Segs(), k.mm.lo, k.mm.hi) && NoAdjacentFree(k.mm.Segs()))
    ensures k.halted || (Trace(snaps, events) && snaps[0] == old(Now(k)) && snaps[|events|] == Now(k))
  {
    snaps := [Now(k)];
    var i := 0;
    while i < |events| && !k.halted
      invariant 0 <= i <= |events|
      invariant k.halted || (k.Valid() && Trace(snaps, events[..i]) && snaps[0] == old(Now(k)) && snaps[i] == Now(k))
    {
      Step(k, events[i]);
      assert events[..i + 1][..i] == events[..i];
      snaps := snaps + [Now(k)];
      i := i + 1;
    }
    assert !k.halted ==> events[..i] == events;
    if !k.halted { ValidMeans(k); }
  }

  /** So as long as some task has a segment, through any run, it stays where it is and keeps its size and its bytes. */
  lemma {:induction false} Isolated(snaps: seq<Snap>, events: seq<Event>, b: nat, extent: nat, y: nat)
    requires Trace(snaps, events) && Occupied(snaps[0].segs, b, extent)
    requires forall i :: 0 <= i <= |events| ==> InUse(snaps[i].tasks, b)
    requires 16 * b <= y < 16 * (b + extent) && y < |snaps[0].mem|
    ensures Occupied(snaps[|events|].segs, b, extent)
    ensures y < |snaps[|events|].mem| && snaps[|events|].mem[y] == snaps[0].mem[y]
    decreases |events|
  {
    if events != [] {
      var n := |events| - 1;
      var p, q := snaps[..n + 1], events[..n];
      forall i | 0 <= i < |q| ensures Does(p[i], q[i], p[i + 1]) { assert Does(snaps[i], events[i], snaps[i + 1]); }
      Isolated(p, q, b, extent, y);
      assert Does(snaps[n], events[n], snaps[n + 1]);
    }
  }
}
