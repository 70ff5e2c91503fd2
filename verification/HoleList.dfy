/** The segment list of the memory manager as a value (arch/i86/mm/malloc.c): what splitting, sweeping,
  * best fit and freeing mean for the sequence of segments in memory order. */
module HoleList {
  import opened Blocks

  datatype Flag = Used | Free | Spare

  /** One segment, in 16-byte pages. */
  datatype Seg = Seg(base: nat, extent: nat, flag: Flag, refcount: Byte) {
    function End(): nat { base + extent }
  }

  type Segs = seq<Seg>

  /** The segments cover [lo, hi) in ascending order, without gap or overlap, none empty. */
  ghost predicate Tiles(s: Segs, lo: nat, hi: nat) {
    if s == [] then lo == hi
    else s[0].base == lo && s[0].extent > 0 && s[0].flag != Spare && Tiles(s[1..], s[0].End(), hi)
  }

  ghost predicate NoAdjacentFree(s: Segs) {
    |s| >= 2 ==> !(s[0].flag == Free && s[1].flag == Free) && NoAdjacentFree(s[1..])
  }

  ghost predicate Mergeable(a: Seg, b: Seg) {
    a.flag == Free && b.flag == Free && a.End() == b.base
  }

  function Merge(a: Seg, b: Seg): Seg {
    a.(extent := a.extent + b.extent)
  }

  /** sweep_holes. */
  ghost function Sweep(s: Segs): Segs
    decreases |s|
  {
    if |s| < 2 then s
    else if Mergeable(s[0], s[1]) then Sweep([Merge(s[0], s[1])] + s[2..])
    else [s[0]] + Sweep(s[1..])
  }

  /** split_hole: segment k keeps len pages, the rest becomes a free segment after it. The new
    * descriptor keeps whatever count it last held. */
  ghost function SplitAt(s: Segs, k: nat, len: nat, stale: Byte): Segs
    requires k < |s| && len <= s[k].extent
  {
    if len == s[k].extent then s
    else s[..k] + [s[k].(extent := len), Seg(s[k].base + len, s[k].extent - len, Free, stale)] + s[k + 1..]
  }

  ghost predicate Fits(s: Segs, k: nat, size: nat) {
    k < |s| && s[k].extent >= size && s[k].flag == Free
  }

  /** best_fit_hole: the first of the smallest free segments of at least `size` pages; |s| for none. */
  ghost predicate IsBestFit(s: Segs, size: nat, k: nat) {
    && k <= |s|
    && (k == |s| ==> forall i: nat :: !Fits(s, i, size))
    && (k < |s| ==> Fits(s, k, size) && forall i: nat :: Fits(s, i, size) ==>
          s[k].extent <= s[i].extent && (i < k ==> s[k].extent < s[i].extent))
  }

  ghost function Take(s: Segs, k: nat, size: nat, stale: Byte): Segs
    requires Fits(s, k, size)
  {
    var t := SplitAt(s, k, size, stale);
    t[k := t[k].(flag := Used, refcount := 1)]
  }

  /** Dropping the last reference to segment k. */
  ghost function Release(s: Segs, k: nat): Segs
    requires k < |s|
  {
    Sweep(s[k := s[k].(flag := Free, refcount := 0)])
  }

  // ---------------------------------------------------------------- tiling

  ghost function EndOf(s: Segs, lo: nat): nat {
    if s == [] then lo else s[|s| - 1].End()
  }

  lemma {:induction false} TilesConcat(p: Segs, q: Segs, lo: nat, hi: nat)
    ensures Tiles(p + q, lo, hi) <==> Tiles(p, lo, EndOf(p, lo)) && Tiles(q, EndOf(p, lo), hi)
    decreases |p|
  {
    if p == [] {
      assert p + q == q;
    } else {
      assert (p + q)[1..] == p[1..] + q;
      TilesConcat(p[1..], q, p[0].End(), hi);
    }
  }

  lemma {:induction false} SeparateConcat(p: Segs, q: Segs)
    ensures NoAdjacentFree(p + q) <==>
            NoAdjacentFree(p) && NoAdjacentFree(q)
                && (p != [] && q != [] ==> !(p[|p| - 1].flag == Free && q[0].flag == Free))
    decreases |p|
  {
    if p == [] {
      assert p + q == q;
    } else {
      assert (p + q)[1..] == p[1..] + q;
      SeparateConcat(p[1..], q);
    }
  }

  lemma Cons(x: Seg, r: Segs, lo: nat, hi: nat)
    ensures Tiles([x] + r, lo, hi) <==> x.base == lo && x.extent > 0 && x.flag != Spare && Tiles(r, x.End(), hi)
    ensures NoAdjacentFree([x] + r) <==> NoAdjacentFree(r) && (r != [] ==> !(x.flag == Free && r[0].flag == Free))
  {
    assert ([x] + r)[1..] == r;
  }

  /** Tiling depends on bases and extents only. */
  lemma {:induction false} SameBoundsTile(s: Segs, t: Segs, lo: nat, hi: nat)
    requires Tiles(s, lo, hi) && |t| == |s|
    requires forall k :: 0 <= k < |s| ==> t[k].base == s[k].base && t[k].extent == s[k].extent && t[k].flag != Spare
    ensures Tiles(t, lo, hi)
    decreases |s|
  {
    if s != [] { SameBoundsTile(s[1..], t[1..], s[0].End(), hi); }
  }

  lemma {:induction false} SameFlagsSeparate(s: Segs, t: Segs)
    requires |s| == |t| && NoAdjacentFree(s) && forall k :: 0 <= k < |s| ==> t[k].flag == s[k].flag
    ensures NoAdjacentFree(t)
    decreases |s|
  {
    if |s| >= 2 { SameFlagsSeparate(s[1..], t[1..]); }
  }

  lemma {:induction false} NoSpares(s: Segs, lo: nat, hi: nat)
    requires Tiles(s, lo, hi)
    ensures forall k :: 0 <= k < |s| ==> s[k].flag != Spare
    decreases |s|
  {
    if s != [] { NoSpares(s[1..], s[0].End(), hi); }
  }

  /** A list opened at segment k. */
  lemma Open(s: Segs, k: nat, lo: nat, hi: nat)
    requires k < |s|
    ensures s == s[..k] + ([s[k]] + s[k + 1..])
    ensures Tiles(s, lo, hi)
            <==> Tiles(s[..k], lo, EndOf(s[..k], lo)) && Tiles([s[k]] + s[k + 1..], EndOf(s[..k], lo), hi)
  {
    assert s == s[..k] + ([s[k]] + s[k + 1..]);
    TilesConcat(s[..k], [s[k]] + s[k + 1..], lo, hi);
  }

  lemma {:induction false} SweepTiles(s: Segs, lo: nat, hi: nat)
    requires Tiles(s, lo, hi)
    ensures Tiles(Sweep(s), lo, hi)
    decreases |s|
  {
    if |s| >= 2 {
      if Mergeable(s[0], s[1]) {
        SweepTiles([Merge(s[0], s[1])] + s[2..], lo, hi);
      } else {
        SweepTiles(s[1..], s[1].base, hi);
      }
    }
  }

  /** A sweep leaves no two free neighbours, and starts with a segment as free as s's first. */
  lemma {:induction false} SweepSeparates(s: Segs, lo: nat, hi: nat)
    requires Tiles(s, lo, hi)
    ensures NoAdjacentFree(Sweep(s)) && (s != [] ==> Sweep(s) != [] && Sweep(s)[0].flag == s[0].flag)
    decreases |s|
  {
    if |s| >= 2 {
      if Mergeable(s[0], s[1]) {
        SweepSeparates([Merge(s[0], s[1])] + s[2..], lo, hi);
      } else {
        SweepSeparates(s[1..], s[1].base, hi);
      }
    }
  }

  /** A split list, opened at the split. */
  lemma TakeOpen(s: Segs, k: nat, size: nat, stale: Byte, f: Seg)
    requires Fits(s, k, size)
    ensures var t := Take(s, k, size, stale);
            t[k := f] == s[..k] + (if size == s[k].extent then [f] + s[k + 1..] else [f, t[k + 1]] + s[k + 1..])
  {
  }

  /** Swapping what starts at x for another tiling of the same stretch that starts in use. */
  lemma Substitute(p: Segs, x: Seg, r: Segs, q: Segs, lo: nat, hi: nat)
    requires Tiles(p + ([x] + r), lo, hi) && NoAdjacentFree(p + ([x] + r))
    requires Tiles(q, x.base, hi) && NoAdjacentFree(q) && (q != [] ==> q[0].flag == Used)
    ensures Tiles(p + q, lo, hi) && NoAdjacentFree(p + q)
  {
    TilesConcat(p, [x] + r, lo, hi);
    TilesConcat(p, q, lo, hi);
    SeparateConcat(p, [x] + r);
    SeparateConcat(p, q);
  }

  lemma TakeTiles(s: Segs, k: nat, size: nat, stale: Byte, lo: nat, hi: nat)
    requires Tiles(s, lo, hi) && NoAdjacentFree(s) && Fits(s, k, size) && size > 0
    ensures Tiles(Take(s, k, size, stale), lo, hi) && NoAdjacentFree(Take(s, k, size, stale))
  {
    var p, r, t := s[..k], s[k + 1..], Take(s, k, size, stale);
    Open(s, k, lo, hi);
    SeparateConcat(p, [s[k]] + r);
    Cons(s[k], r, s[k].base, hi);
    TakeOpen(s, k, size, stale, t[k]);
    assert t == t[k := t[k]];
    if size == s[k].extent {
      Cons(t[k], r, s[k].base, hi);
      Substitute(p, s[k], r, [t[k]] + r, lo, hi);
    } else {
      var q := [t[k]] + ([t[k + 1]] + r);
      Cons(t[k + 1], r, t[k].End(), hi);
      Cons(t[k], [t[k + 1]] + r, s[k].base, hi);
      Substitute(p, s[k], r, q, lo, hi);
      assert [t[k], t[k + 1]] + r == q;
    }
  }

  /** Zero pages are the exception: the segment handed out would be empty. */
  lemma TakeTilesIff(s: Segs, k: nat, size: nat, stale: Byte, lo: nat, hi: nat)
    requires Tiles(s, lo, hi) && NoAdjacentFree(s) && Fits(s, k, size)
    ensures Tiles(Take(s, k, size, stale), lo, hi) <==> size > 0
  {
    if size > 0 {
      TakeTiles(s, k, size, stale, lo, hi);
    } else {
      Open(Take(s, k, size, stale), k, lo, hi);
    }
  }

  /** Freeing a segment and sweeping keeps the tiling, and leaves no two free neighbours. */
  lemma ReleaseTiles(s: Segs, k: nat, count: Byte, lo: nat, hi: nat)
    requires Tiles(s, lo, hi) && k < |s|
    ensures var t := Sweep(s[k := s[k].(flag := Free, refcount := count)]); Tiles(t, lo, hi) && NoAdjacentFree(t)
  {
    var t := s[k := s[k].(flag := Free, refcount := count)];
    NoSpares(s, lo, hi);
    SameBoundsTile(s, t, lo, hi);
    SweepTiles(t, lo, hi);
    SweepSeparates(t, lo, hi);
  }

  // ---------------------------------------------------------------- pages

  /** Page p lies in a free segment. */
  ghost predicate FreePage(s: Segs, p: int) {
    exists k :: 0 <= k < |s| && s[k].flag == Free && s[k].base <= p < s[k].End()
  }

  /** size consecutive free pages, whatever segments they belong to. */
  ghost predicate FreeRun(s: Segs, a: int, size: nat) {
    forall p :: a <= p < a + size ==> FreePage(s, p)
  }

  /** Later segments start at or after earlier ones end; neighbours touch and are not both free. */
  lemma {:induction false} Ascending(s: Segs, lo: nat, hi: nat, i: nat, j: nat)
    requires Tiles(s, lo, hi) && i < j < |s|
    ensures lo <= s[i].base && s[i].extent > 0 && s[i].End() <= s[j].base && (j == i + 1 ==> s[i].End() == s[j].base)
    ensures NoAdjacentFree(s) && j == i + 1 ==> !(s[i].flag == Free && s[j].flag == Free)
    decreases j
  {
    if i > 0 { Ascending(s[1..], s[0].End(), hi, i - 1, j - 1); }
    else if j > 1 { Ascending(s[1..], s[0].End(), hi, 0, j - 1); }
  }

  /** Live segments never overlap. */
  lemma SegmentsDisjoint(s: Segs, lo: nat, hi: nat, i: nat, j: nat, p: nat)
    requires Tiles(s, lo, hi) && i < |s| && j < |s|
    requires s[i].base <= p < s[i].End() && s[j].base <= p < s[j].End()
    ensures i == j
  {
    if i < j { Ascending(s, lo, hi, i, j); }
    if j < i { Ascending(s, lo, hi, j, i); }
  }

  /** With no two free neighbours, a run of free pages lies inside one free segment. */
  lemma {:induction false} RunInOneSegment(s: Segs, lo: nat, hi: nat, a: int, size: nat)
    requires Tiles(s, lo, hi) && NoAdjacentFree(s) && FreeRun(s, a, size) && size > 0
    ensures exists k :: 0 <= k < |s| && s[k].flag == Free && s[k].base <= a && a + size <= s[k].End()
    decreases size
  {
    assert FreePage(s, a);
    if size == 1 { return; }
    assert FreeRun(s, a, size - 1);
    RunInOneSegment(s, lo, hi, a, size - 1);
    var k :| 0 <= k < |s| && s[k].flag == Free && s[k].base <= a && a + size - 1 <= s[k].End();
    if s[k].End() == a + size - 1 {
      assert FreePage(s, a + size - 1);
      var j :| 0 <= j < |s| && s[j].flag == Free && s[j].base <= a + size - 1 < s[j].End();
      if j < k { Ascending(s, lo, hi, j, k); }
      if k < j { Ascending(s, lo, hi, k, k + 1); }
      if k + 1 < j { Ascending(s, lo, hi, k + 1, j); }
    }
  }

  /** Best fit fails exactly when memory holds no contiguous run of that many free pages. */
  lemma NoFitIffNoRun(s: Segs, lo: nat, hi: nat, size: nat)
    requires Tiles(s, lo, hi) && NoAdjacentFree(s) && size > 0
    ensures (forall k: nat :: !Fits(s, k, size)) <==> !exists a :: FreeRun(s, a, size)
  {
    if exists a :: FreeRun(s, a, size) {
      var a :| FreeRun(s, a, size);
      RunInOneSegment(s, lo, hi, a, size);
      var k :| 0 <= k < |s| && s[k].flag == Free && s[k].base <= a && a + size <= s[k].End();
      assert Fits(s, k, size);
    }
    forall k: nat | Fits(s, k, size) ensures FreeRun(s, s[k].base, size) { }
  }

  // ---------------------------------------------------------------- allocate, then free

  /** The same segments up to the counts of free descriptors. */
  ghost predicate SameShape(s: Segs, t: Segs) {
    && |s| == |t|
    && forall k :: 0 <= k < |s| ==>
         (&& s[k].base == t[k].base && s[k].extent == t[k].extent && s[k].flag == t[k].flag
          && (s[k].flag == Used ==> s[k].refcount == t[k].refcount))
  }

  lemma {:induction false} SweepFixed(s: Segs)
    requires NoAdjacentFree(s)
    ensures Sweep(s) == s
    decreases |s|
  {
    if |s| >= 2 { SweepFixed(s[1..]); }
  }

  /** A sweep passes over a stretch with no free neighbours that ends in a used segment. */
  lemma {:induction false} SweepSkips(p: Segs, q: Segs)
    requires NoAdjacentFree(p) && (p != [] ==> p[|p| - 1].flag != Free)
    ensures Sweep(p + q) == p + Sweep(q)
    decreases |p|
  {
    if p == [] {
      assert p + q == q;
    } else {
      assert (p + q)[1..] == p[1..] + q;
      SweepSkips(p[1..], q);
      assert |p| == 1 || !Mergeable(p[0], p[1]);
    }
  }

  /** Sweeping a free segment cut in two makes it whole again. */
  lemma SweepHeals(p: Segs, f: Seg, g: Seg, rest: Segs)
    requires Mergeable(f, g) && NoAdjacentFree(p + ([Merge(f, g)] + rest))
    ensures Sweep(p + ([f, g] + rest)) == p + ([Merge(f, g)] + rest)
  {
    SeparateConcat(p, [Merge(f, g)] + rest);
    SweepSkips(p, [f, g] + rest);
    SweepFixed([Merge(f, g)] + rest);
    assert ([f, g] + rest)[2..] == rest;
  }

  /** Freeing what was just allocated restores the list. */
  lemma TakeThenRelease(s: Segs, lo: nat, hi: nat, k: nat, size: nat, stale: Byte)
    requires Tiles(s, lo, hi) && NoAdjacentFree(s) && Fits(s, k, size) && size > 0
    ensures SameShape(Release(Take(s, k, size, stale), k), s)
  {
    var t := Take(s, k, size, stale);
    var f, whole := t[k].(flag := Free, refcount := 0), s[k].(refcount := 0);
    TakeOpen(s, k, size, stale, f);
    assert s[k := whole] == s[..k] + ([whole] + s[k + 1..]);
    SameFlagsSeparate(s, s[k := whole]);
    if size == s[k].extent {
      SweepFixed(s[k := whole]);
    } else {
      SweepHeals(s[..k], f, t[k + 1], s[k + 1..]);
    }
  }

  // ---------------------------------------------------------------- the segments in use

  /** A sweep touches no segment in use. */
  lemma {:induction false} SweepUsed(s: Segs, x: Seg)
    requires x.flag == Used
    ensures x in Sweep(s) <==> x in s
    decreases |s|
  {
    if |s| >= 2 {
      if Mergeable(s[0], s[1]) {
        SweepUsed([Merge(s[0], s[1])] + s[2..], x);
        assert s == [s[0], s[1]] + s[2..];
      } else {
        SweepUsed(s[1..], x);
        assert s == [s[0]] + s[1..];
      }
    }
  }

  /** Allocation adds one segment in use and disturbs none. */
  lemma TakeUsed(s: Segs, k: nat, size: nat, stale: Byte, x: Seg)
    requires Fits(s, k, size) && x.flag == Used
    ensures x in Take(s, k, size, stale) <==> x in s || x == Take(s, k, size, stale)[k]
  {
    var t := Take(s, k, size, stale);
    TakeOpen(s, k, size, stale, t[k]);
    assert t == t[k := t[k]] && s == s[..k] + [s[k]] + s[k + 1..];
  }

  /** Freeing segment k and sweeping takes that one away and disturbs no other in use. */
  lemma FreedUsed(s: Segs, k: nat, count: Byte, x: Seg)
    requires k < |s| && x.flag == Used
    requires forall i :: 0 <= i < |s| && i != k ==> s[i] != s[k]
    ensures x in Sweep(s[k := s[k].(flag := Free, refcount := count)]) <==> x in s && x != s[k]
  {
    var t := s[k := s[k].(flag := Free, refcount := count)];
    SweepUsed(t, x);
    if x in s && x != s[k] {
      var i :| 0 <= i < |s| && s[i] == x;
      assert t[i] == x;
    }
  }
}
