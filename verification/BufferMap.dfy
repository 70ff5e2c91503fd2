/** The two-level buffer memory of fs/buffer.c: every buffer has a home in second-level memory, and eight
  * slots of directly addressable memory hold whichever are mapped. */
module BufferMap {
  import opened Blocks

  const NR_MAPBUFS := 8
  const NR_BUFFERS := 64

  /** The part of a buffer head that concerns mapping: b_data as a slot number, -1 for NULL. */
  datatype Head = Head(data: int, mapcount: nat)

  /** Slot table and heads as values; a slot holds a buffer number, -1 for none. */
  datatype Table = Table(slots: seq<int>, heads: seq<Head>) {
    ghost predicate Sized() { |slots| == NR_MAPBUFS && |heads| == NR_BUFFERS }

    /** Slot i names a buffer that points back at it. */
    ghost predicate SlotRight(i: nat)
      requires Sized()
    {
      i < NR_MAPBUFS ==> slots[i] == -1 || (0 <= slots[i] < NR_BUFFERS && heads[slots[i]].data == i)
    }

    /** Buffer b points at a slot that names it, or is unmapped and unheld. */
    ghost predicate HeadRight(b: nat)
      requires Sized()
    {
      b < NR_BUFFERS ==>
        if heads[b].data == -1 then heads[b].mapcount == 0
        else 0 <= heads[b].data < NR_MAPBUFS && slots[heads[b].data] == b
    }

    /** The slot table and the b_data pointers are inverse to each other, so both are injective, and a
      * buffer whose mapcount is positive has a slot. */
    ghost predicate Inverse() {
      Sized() && (forall i :: SlotRight(i)) && (forall b :: HeadRight(b))
    }

    /** What map_buffer writes when it puts b into slot i. */
    function Map(b: nat, i: nat): Table
      requires b < |heads| && i < |slots|
    {
      Table(slots[i := b], heads[b := Head(i, heads[b].mapcount + 1)])
    }

    /** Sending the buffer in slot i back to second-level memory. */
    function Evict(i: nat): Table
      requires i < |slots| && 0 <= slots[i] < |heads|
    {
      Table(slots[i := -1], heads[slots[i] := heads[slots[i]].(data := -1)])
    }
  }

  lemma EvictInverse(t: Table, i: nat)
    requires t.Inverse() && i < NR_MAPBUFS && t.slots[i] != -1 && t.SlotRight(i) && t.heads[t.slots[i]].mapcount == 0
    ensures t.Evict(i).Inverse()
  {
    var t' := t.Evict(i);
    forall j: nat ensures t'.SlotRight(j) { assert t.SlotRight(j); }
    forall b: nat ensures t'.HeadRight(b) { assert t.HeadRight(b); }
  }

  /** Mapping into a free slot keeps the table sound exactly when the buffer is unmapped at that moment. */
  lemma MapInverseIff(t: Table, b: nat, i: nat)
    requires t.Inverse() && b < NR_BUFFERS && i < NR_MAPBUFS && t.slots[i] == -1
    ensures t.Map(b, i).Inverse() <==> t.heads[b].data == -1
  {
    var t' := t.Map(b, i);
    assert t.HeadRight(b);
    if t.heads[b].data == -1 {
      forall j: nat ensures t'.SlotRight(j) { assert t.SlotRight(j); }
      forall c: nat ensures t'.HeadRight(c) { assert t.HeadRight(c); }
    } else {
      var j := t.heads[b].data;
      assert t.SlotRight(j) && t'.slots[j] == b && t'.heads[b].data == i != j;
      assert !t'.SlotRight(j);
    }
  }

  // ---------------------------------------------------------------- one pass of the loop in map_buffer

  /** The first free slot from i on. */
  function FirstFree(slots: seq<int>, i: nat): (k: nat)
    requires i <= |slots|
    ensures i <= k <= |slots| && (k < |slots| ==> slots[k] == -1) && forall j :: i <= j < k ==> slots[j] != -1
    decreases |slots| - i
  {
    if i == |slots| || slots[i] == -1 then i else FirstFree(slots, i + 1)
  }

  predicate Unheld(t: Table, i: nat) {
    i < |t.slots| && 0 <= t.slots[i] < |t.heads| && t.heads[t.slots[i]].mapcount == 0
  }

  function NextSlot(i: nat): (r: nat)
    requires i < NR_MAPBUFS
    ensures r < NR_MAPBUFS && r == if i == NR_MAPBUFS - 1 then 0 else i + 1
  {
    (i + 1) % NR_MAPBUFS
  }

  /** How many slots the scan that stops before last has yet to see, standing at slot i. */
  function Ahead(last: nat, i: nat): nat
    requires last < NR_MAPBUFS && i < NR_MAPBUFS
  {
    if i > last then NR_MAPBUFS - i + last else last - i
  }

  /** The scan for a mapped buffer nobody holds, standing at slot i; it stops before last itself. */
  function VictimFrom(t: Table, last: nat, i: nat): (v: nat)
    requires last < NR_MAPBUFS && i < NR_MAPBUFS
    ensures v < NR_MAPBUFS && (v != last ==> Unheld(t, v))
    decreases Ahead(last, i)
  {
    if i == last || Unheld(t, i) then i else VictimFrom(t, last, NextSlot(i))
  }

  /** The scan comes to its end exactly when every buffer in its way is held. */
  lemma {:induction false} NoVictim(t: Table, last: nat, i: nat, j: nat)
    requires last < NR_MAPBUFS && i < NR_MAPBUFS && j < NR_MAPBUFS && j != last && Ahead(last, j) <= Ahead(last, i)
    requires VictimFrom(t, last, i) == last
    ensures !Unheld(t, j)
    decreases Ahead(last, i)
  {
    if i != j { NoVictim(t, last, NextSlot(i), j); }
  }

  function Victim(t: Table, last: nat): nat
    requires last < NR_MAPBUFS
  {
    VictimFrom(t, last, NextSlot(last))
  }

  /** The loop of map_buffer from one sleep to the next: the table, lastumap, and whether b has got a slot. */
  function AttemptOf(t: Table, last: nat, b: nat): (r: (Table, nat, bool))
    requires |t.slots| == NR_MAPBUFS && last < NR_MAPBUFS && b < |t.heads|
    ensures r.1 < NR_MAPBUFS
  {
    var i, v := FirstFree(t.slots, 0), Victim(t, last);
    if i < NR_MAPBUFS then (t.Map(b, i), last, true)
    else if v == last then (t, last, false)
    else (t.Evict(v).Map(b, v), v, true)
  }

  /** The buffer has been mapped meanwhile, and is not the one that is sent back to make room. */
  predicate Spoils(t: Table, last: nat, b: nat)
    requires |t.slots| == NR_MAPBUFS && last < NR_MAPBUFS && b < |t.heads|
  {
    t.heads[b].data != -1
    && (FirstFree(t.slots, 0) < NR_MAPBUFS || (Victim(t, last) != last && t.slots[Victim(t, last)] != b))
  }

  lemma EvictedIsFree(t: Table, v: nat)
    requires t.Sized() && FirstFree(t.slots, 0) == NR_MAPBUFS && v < NR_MAPBUFS && Unheld(t, v)
    ensures FirstFree(t.Evict(v).slots, 0) == v
  {
    assert forall j :: 0 <= j < NR_MAPBUFS && j != v ==> t.Evict(v).slots[j] == t.slots[j];
    assert t.Evict(v).slots[v] == -1;
  }

  /** map_buffer up to its first sleep. */
  function EnterOf(t: Table, last: nat, b: nat): (r: (Table, nat, bool))
    requires |t.slots| == NR_MAPBUFS && last < NR_MAPBUFS && b < |t.heads|
    ensures r.1 < NR_MAPBUFS
  {
    if t.heads[b].data != -1 then
      (t.(heads := t.heads[b := t.heads[b].(mapcount := t.heads[b].mapcount + 1)]), last, true)
    else AttemptOf(t, last, b)
  }

  /** unmap_buffer. */
  function Unmapped(t: Table, b: nat): Table
    requires b < |t.heads|
  {
    var n := t.heads[b].mapcount;
    t.(heads := t.heads[b := t.heads[b].(mapcount := if n == 0 then 0 else n - 1)])
  }

  /** A pass keeps the table sound if and only if, when the task wakes up, the buffer is unmapped, or no slot is free
    * and the slot that is taken is the buffer's own, or none is taken. */
  lemma AttemptSoundIff(t: Table, last: nat, b: nat)
    requires t.Inverse() && last < NR_MAPBUFS && b < NR_BUFFERS
    ensures AttemptOf(t, last, b).0.Inverse() <==> !Spoils(t, last, b)
    ensures !Spoils(t, last, b) ==> Undisturbed(t, AttemptOf(t, last, b).0, b)
  {
    var i, v := FirstFree(t.slots, 0), Victim(t, last);
    assert t.HeadRight(b);
    if i < NR_MAPBUFS {
      MapInverseIff(t, b, i);
    } else if v != last {
      assert t.SlotRight(v);
      EvictInverse(t, v);
      MapInverseIff(t.Evict(v), b, v);
    }
  }

  class Buffers {
    const slots: array<int>          // bufmem_map
    const heads: array<Head>
    const l1: array<Block>           // bufmem
    const l2: array<Block>           // the segment behind _buf_ds
    var lastumap: nat

    ghost predicate Valid()
      reads this, slots, heads, l1, l2
    {
      && l1 != l2 && l1.Length == NR_MAPBUFS && l2.Length == NR_BUFFERS && lastumap < NR_MAPBUFS
      && View().Inverse()
    }

    ghost function View(): Table
      reads slots, heads
    {
      Table(slots[..], heads[..])
    }

    /** The logical contents of a buffer: its slot if mapped, its home if not. */
    function Contents(b: nat): Block
      requires Valid() && b < NR_BUFFERS
      reads this, slots, heads, l1, l2
    {
      assert View().HeadRight(b);
      if heads[b].data == -1 then l2[b] else l1[heads[b].data]
    }

    /** buffer_init. */
    constructor ()
      ensures Valid() && fresh(slots) && fresh(heads) && fresh(l1) && fresh(l2)
      ensures forall b :: 0 <= b < NR_BUFFERS ==> heads[b] == Head(-1, 0)
    {
      slots := new int[NR_MAPBUFS](_ => -1);
      heads := new Head[NR_BUFFERS](_ => Head(-1, 0));
      l1 := new Block[NR_MAPBUFS](_ => ZeroBlock());
      l2 := new Block[NR_BUFFERS](_ => ZeroBlock());
      lastumap := 0;
      new;
      forall i: nat ensures View().SlotRight(i) { }
      forall b: nat ensures View().HeadRight(b) { }
    }

    /** The trivial case of map_buffer: the first free slot. */
    method FreeSlot() returns (i: nat)
      requires Valid()
      ensures i == FirstFree(slots[..], 0)
    {
      i := 0;
      while i < NR_MAPBUFS
        invariant 0 <= i <= NR_MAPBUFS && FirstFree(slots[..], i) == FirstFree(slots[..], 0)
      {
        if slots[i] == -1 { return; }
        i := i + 1;
      }
    }

    /** The eviction scan: round the slots from the one after lastumap, stopping before lastumap itself,
      * for a mapped buffer nobody holds. */
    method FindVictim() returns (i: nat)
      requires Valid() && forall j :: 0 <= j < NR_MAPBUFS ==> slots[j] != -1
      ensures i == Victim(View(), lastumap) && (i != lastumap ==> Unheld(View(), i))
      ensures i == lastumap ==> forall j :: 0 <= j < NR_MAPBUFS && j != lastumap ==>
                0 <= slots[j] < NR_BUFFERS && heads[slots[j]].mapcount > 0
    {
      forall j: nat | j < NR_MAPBUFS ensures 0 <= slots[j] < NR_BUFFERS { assert View().SlotRight(j); }
      i := NextSlot(lastumap);
      while i != lastumap
        invariant i < NR_MAPBUFS && VictimFrom(View(), lastumap, i) == Victim(View(), lastumap)
        decreases Ahead(lastumap, i)
      {
        if heads[slots[i]].mapcount == 0 { return; }
        i := NextSlot(i);
      }
      forall j: nat | j < NR_MAPBUFS && j != lastumap ensures heads[slots[j]].mapcount > 0 {
        assert View().slots[j] == slots[j];
        NoVictim(View(), lastumap, NextSlot(lastumap), j);
      }
    }

    /** All logical contents. */
    function Image(): seq<Block>
      requires Valid()
      reads this, slots, heads, l1, l2
    {
      seq(NR_BUFFERS, b requires 0 <= b < NR_BUFFERS && Valid() reads this, slots, heads, l1, l2 => Contents(b))
    }

    /** Copying a buffer into a free slot. */
    method MapInto(b: nat, i: nat)
      requires Valid() && b < NR_BUFFERS && i < NR_MAPBUFS && slots[i] == -1
      modifies slots, heads, l1
      ensures View() == old(View()).Map(b, i) && l1[..] == old(l1[..])[i := l2[b]]
      ensures Valid() <==> old(heads[b].data) == -1
      ensures Valid() ==> Image() == old(Image())
    {
      MapInverseIff(View(), b, i);
      ghost var t := View();
      slots[i] := b;
      heads[b] := Head(i, heads[b].mapcount + 1);
      l1[i] := l2[b];
      assert View() == t.Map(b, i);
      if t.heads[b].data == -1 {
        forall c: nat | c < NR_BUFFERS ensures Contents(c) == old(Contents(c)) { assert t.HeadRight(c); }
      }
    }

    /** Sending an unheld buffer home. */
    method EvictSlot(i: nat)
      requires Valid() && i < NR_MAPBUFS && 0 <= slots[i] < NR_BUFFERS && heads[slots[i]].mapcount == 0
      modifies slots, heads, l2
      ensures Valid() && View() == old(View()).Evict(i) && Image() == old(Image())
    {
      ghost var t := View();
      assert t.SlotRight(i);
      EvictInverse(t, i);
      var b := slots[i];
      l2[b] := l1[heads[b].data];
      heads[b] := heads[b].(data := -1);
      slots[i] := -1;
      assert View() == t.Evict(i);
      forall c: nat | c < NR_BUFFERS ensures Contents(c) == old(Contents(c)) { assert t.HeadRight(c); }
    }

    /** The loop of map_buffer from one sleep to the next. It does not look at b_data again, so a buffer
      * that some other task has mapped in the meantime may be mapped a second time. False means the
      * task goes (back) to sleep. */
    method Attempt(b: nat) returns (ok: bool)
      requires Valid() && b < NR_BUFFERS
      modifies this, slots, heads, l1, l2
      ensures (View(), lastumap, ok) == AttemptOf(old(View()), old(lastumap), b)
      ensures Valid() <==> !Spoils(old(View()), old(lastumap), b)
      ensures Valid() ==> Image() == old(Image()) && Undisturbed(old(View()), View(), b)
      ensures Valid() && ok ==> heads[b].data != -1 && heads[b].mapcount == old(heads[b].mapcount) + 1
      ensures !ok ==> Valid() && forall j :: 0 <= j < NR_MAPBUFS && j != lastumap ==>
                0 <= slots[j] < NR_BUFFERS && heads[slots[j]].mapcount > 0
    {
      AttemptSoundIff(View(), lastumap, b);
      ghost var t, last := View(), lastumap;
      var i := FreeSlot();
      if i == NR_MAPBUFS {
        var made := MakeRoom();
        if !made { return false; }
        EvictedIsFree(t, Victim(t, last));
        i := FreeSlot();
      }
      MapInto(b, i);
      ok := true;
    }

    /** The second half of the loop: the victim goes home and its slot is where the next scan sets out. */
    method MakeRoom() returns (made: bool)
      requires Valid() && FirstFree(slots[..], 0) == NR_MAPBUFS
      modifies this, slots, heads, l2
      ensures Valid() && Image() == old(Image()) && lastumap == Victim(old(View()), old(lastumap))
      ensures made <==> lastumap != old(lastumap)
      ensures made ==> Unheld(old(View()), lastumap) && View() == old(View()).Evict(lastumap)
      ensures !made ==> View() == old(View()) && forall j :: 0 <= j < NR_MAPBUFS && j != lastumap ==>
                0 <= slots[j] < NR_BUFFERS && heads[slots[j]].mapcount > 0
    {
      var v := FindVictim();
      if v == lastumap { return false; }
      EvictSlot(v);
      lastumap := v;
      made := true;
    }

    /** map_buffer, entered by a task: a mapped buffer is only counted. */
    method MapBuffer(b: nat) returns (ok: bool)
      requires Valid() && b < NR_BUFFERS
      modifies this, slots, heads, l1, l2
      ensures Valid() && Image() == old(Image())
      ensures ok ==> heads[b].data != -1 && heads[b].mapcount == old(heads[b].mapcount) + 1
      ensures Undisturbed(old(View()), View(), b)
      ensures (View(), lastumap, ok) == EnterOf(old(View()), old(lastumap), b)
    {
      if heads[b].data != -1 {
        Recount(b, heads[b].mapcount + 1);
        return true;
      }
      ok := Attempt(b);
    }

    /** unmap_buffer: one holder fewer; the buffer keeps its slot until someone needs it. */
    method UnmapBuffer(b: nat)
      requires Valid() && b < NR_BUFFERS
      modifies heads
      ensures Valid() && Image() == old(Image())
      ensures View() == Unmapped(old(View()), b)
    {
      if heads[b].mapcount <= 0 {
        heads[b] := heads[b].(mapcount := 0);
        assert heads[..] == old(heads[..]);
      } else {
        assert View().HeadRight(b);
        Recount(b, heads[b].mapcount - 1);
      }
    }

    method Recount(b: nat, n: nat)
      requires Valid() && b < NR_BUFFERS && (heads[b].data == -1 ==> n == 0)
      modifies heads
      ensures Valid() && Image() == old(Image())
      ensures View() == old(View()).(heads := old(heads[..])[b := old(heads[b]).(mapcount := n)])
    {
      ghost var t := View();
      heads[b] := heads[b].(mapcount := n);
      forall i: nat ensures View().SlotRight(i) { assert t.SlotRight(i); }
      forall c: nat ensures View().HeadRight(c) { assert t.HeadRight(c); }
      forall c: nat | c < NR_BUFFERS ensures Contents(c) == old(Contents(c)) { }
    }

    /** A holder rewriting the buffer through b_data. */
    method Store(b: nat, block: Block)
      requires Valid() && b < NR_BUFFERS && heads[b].mapcount > 0
      modifies l1
      ensures Valid() && Image() == old(Image())[b := block]
    {
      assert View().HeadRight(b);
      l1[heads[b].data] := block;
      forall c: nat | c < NR_BUFFERS ensures Contents(c) == if c == b then block else old(Contents(c)) {
        assert View().HeadRight(c);
      }
    }
  }

  /** Every other buffer keeps its count, and its slot while it is held. */
  ghost predicate Undisturbed(t: Table, t': Table, b: nat) {
    |t.heads| == |t'.heads| && forall c :: 0 <= c < |t.heads| && c != b ==>
      t'.heads[c].mapcount == t.heads[c].mapcount && (t.heads[c].mapcount > 0 ==> t'.heads[c] == t.heads[c])
  }

  // ---------------------------------------------------------------- runs

  datatype Op = MapOp(b: nat) | UnmapOp(b: nat) | StoreOp(b: nat, block: Block)

  function Replay(image: seq<Block>, stores: seq<(nat, Block)>): seq<Block> {
    if stores == [] then image
    else
      var (b, block) := stores[|stores| - 1];
      var before := Replay(image, stores[..|stores| - 1]);
      if b < |before| then before[b := block] else before
  }

  /** The tables, lastumap and the stores that the operations lead to; a store into a buffer that nobody holds is
    * passed over. */
  ghost function Played(t: Table, last: nat, ops: seq<Op>): (r: (Table, nat, seq<(nat, Block)>))
    requires t.Sized() && last < NR_MAPBUFS && forall op :: op in ops ==> op.b < NR_BUFFERS
    ensures r.0.Sized() && r.1 < NR_MAPBUFS
    decreases |ops|
  {
    if ops == [] then (t, last, [])
    else
      var op := ops[|ops| - 1];
      var (u, l, w) := Played(t, last, ops[..|ops| - 1]);
      match op
      case MapOp(b) => (EnterOf(u, l, b).0, EnterOf(u, l, b).1, w)
      case UnmapOp(b) => (Unmapped(u, b), l, w)
      case StoreOp(b, block) => (u, l, if u.heads[b].mapcount > 0 then w + [(b, block)] else w)
  }

  /** Any run of maps, unmaps and stores through held buffers leaves the tables that its operations make, and every
    * buffer with the last block stored in it, however often it was paged in and out: the second level is invisible. */
  method Run(m: Buffers, ops: seq<Op>) returns (stores: seq<(nat, Block)>)
    requires m.Valid() && forall op :: op in ops ==> op.b < NR_BUFFERS
    modifies m, m.slots, m.heads, m.l1, m.l2
    ensures m.Valid() && m.Image() == Replay(old(m.Image()), stores)
    ensures Played(old(m.View()), old(m.lastumap), ops) == (m.View(), m.lastumap, stores)
  {
    stores := [];
    ghost var t, last := m.View(), m.lastumap;
    for i := 0 to |ops|
      invariant m.Valid() && m.Image() == Replay(old(m.Image()), stores)
      invariant Played(t, last, ops[..i]) == (m.View(), m.lastumap, stores)
    {
      assert ops[..i + 1][..i] == ops[..i];
      match ops[i] {
        case MapOp(b) => var _ := m.MapBuffer(b);
        case UnmapOp(b) => m.UnmapBuffer(b);
        case StoreOp(b, block) =>
          if m.heads[b].mapcount > 0 {
            m.Store(b, block);
            assert (stores + [(b, block)])[..|stores|] == stores;
            stores := stores + [(b, block)];
          }
      }
    }
    assert ops[..|ops|] == ops;
  }
}
