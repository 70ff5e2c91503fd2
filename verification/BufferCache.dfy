/** The buffer cache of fs/buffer.c run by one task: lookup, reuse in LRU order, write-back. The block
  * driver is taken at its word: a READ that succeeds fills the buffer, a WRITE stores it. Both map the buffer, and
  * may send others home for that: which buffers have a slot whenever a scan looks is a parameter. */
module BufferCache {
  import opened Blocks

  /** struct buffer_head; prev and next are the LRU links, -1 for NULL. */
  datatype Head = Head(dev: nat, block: nat, count: nat, dirty: bool, uptodate: bool, prev: int, next: int) {
    predicate Is(d: nat, n: nat) { dev == d && block == n }
    predicate Idle() { count == 0 && !dirty }
  }

  // ---------------------------------------------------------------- the LRU list

  /** The buffers in LRU order, and each one's place in it. */
  datatype Lru = Lru(order: seq<nat>, pos: seq<nat>)

  ghost predicate PlaceAt(l: Lru, n: nat, i: nat)
    requires |l.order| == |l.pos| == n
  {
    i < n ==> l.order[i] < n && l.pos[i] < n && l.order[l.pos[i]] == i && l.pos[l.order[i]] == i
  }

  ghost predicate LinkAt(hs: seq<Head>, l: Lru, k: nat)
    requires |l.order| == |l.pos| == |hs|
  {
    k < |hs| && l.order[k] < |hs| ==>
      && hs[l.order[k]].prev == (if k == 0 then -1 else l.order[k - 1])
      && hs[l.order[k]].next == (if k + 1 == |hs| then -1 else l.order[k + 1])
  }

  /** The list holds every buffer once, doubly linked, between its two ends. */
  ghost predicate Linked(hs: seq<Head>, l: Lru, first: int, last: int) {
    && |l.order| == |l.pos| == |hs| > 0
    && (forall i :: PlaceAt(l, |hs|, i))
    && (forall k :: LinkAt(hs, l, k))
    && first == l.order[0] && last == l.order[|hs| - 1]
  }

  ghost function MovedLast(l: Lru, k: nat): Lru
    requires k < |l.order| == |l.pos|
  {
    var n := |l.order|;
    Lru(l.order[..k] + l.order[k + 1..] + [l.order[k]],
        seq(n, i requires 0 <= i < n =>
          if i == l.order[k] then n - 1 else if l.pos[i] > k then l.pos[i] - 1 else l.pos[i]))
  }

  /** The table put_last_lru leaves: x unhooked from its neighbours and hung after the old last. */
  function Rehung(hs: seq<Head>, x: nat, last: nat): seq<Head>
    requires x < |hs| && last < |hs| && -1 <= hs[x].next < |hs| && -1 <= hs[x].prev < |hs|
  {
    var n, p := hs[x].next, hs[x].prev;
    var h1 := if n != -1 then hs[n := hs[n].(prev := p)] else hs;
    var h2 := if p != -1 then h1[p := h1[p].(next := n)] else h1;
    var h3 := h2[x := h2[x].(next := -1, prev := last)];
    h3[last := h3[last].(next := x)]
  }

  /** Moving a buffer to the end keeps the list a permutation of all buffers, soundly linked. */
  lemma MoveLastLinked(hs: seq<Head>, l: Lru, first: int, last: int, k: nat)
    requires Linked(hs, l, first, last) && k + 1 < |hs|
    requires PlaceAt(l, |hs|, k) && LinkAt(hs, l, k) && l.order[k + 1] < |hs| && (k > 0 ==> l.order[k - 1] < |hs|)
        && 0 <= last < |hs|
    ensures var x := l.order[k];
            Linked(Rehung(hs, x, last), MovedLast(l, k), if x == first then l.order[k + 1] else first, x)
  {
    var n, x := |hs|, l.order[k];
    var l', hs' := MovedLast(l, k), Rehung(hs, x, last);
    assert PlaceAt(l, n, 0) && PlaceAt(l, n, n - 1) && PlaceAt(l, n, k + 1) && (k > 0 ==> PlaceAt(l, n, k - 1));
    forall i: nat ensures PlaceAt(l', n, i) { MoveLastPlace(l, n, k, i); }
    forall j: nat ensures LinkAt(hs', l', j) { MoveLastLink(hs, l, last, k, j); }
  }

  lemma MoveLastPlace(l: Lru, n: nat, k: nat, i: nat)
    requires |l.order| == |l.pos| == n && k < n && (forall j :: PlaceAt(l, n, j))
    ensures PlaceAt(MovedLast(l, k), n, i)
  {
    assert PlaceAt(l, n, i) && PlaceAt(l, n, k) && (i + 1 < n ==> PlaceAt(l, n, i + 1));
  }

  lemma RehungAt(hs: seq<Head>, x: nat, last: nat, y: nat)
    requires x < |hs| && last < |hs| && x != last && 0 <= hs[x].next < |hs| && -1 <= hs[x].prev < |hs| && y < |hs|
    requires hs[x].next != x && hs[x].prev != x && hs[x].prev != last && hs[x].prev != hs[x].next
    ensures var h := Rehung(hs, x, last)[y];
            && h.next == (if y == x then -1 else if y == last then x else if y == hs[x].prev then hs[x].next
                else hs[y].next)
            && h.prev == (if y == x then last else if y == hs[x].next then hs[x].prev else hs[y].prev)
            && h.(prev := hs[y].prev, next := hs[y].next) == hs[y]
  {
  }

  lemma MovedAt(l: Lru, k: nat, j: nat)
    requires k < |l.order| == |l.pos| && j < |l.order|
    ensures var n := |l.order|;
            MovedLast(l, k).order[j] == if j < k then l.order[j] else if j + 1 < n then l.order[j + 1] else l.order[k]
  {
  }

  lemma Distinct(l: Lru, n: nat, i: nat, j: nat)
    requires |l.order| == |l.pos| == n && i < n && j < n && PlaceAt(l, n, i) && PlaceAt(l, n, j)
    ensures l.order[i] == l.order[j] <==> i == j
  {
  }

  /** Position i's neighbours after buffer l.order[k] has been hung at the end. */
  lemma NextMoved(hs: seq<Head>, l: Lru, last: nat, k: nat, i: nat)
    requires |l.order| == |l.pos| == |hs| && k + 1 < |hs| && last == l.order[|hs| - 1] && i < |hs|
    requires PlaceAt(l, |hs|, i) && PlaceAt(l, |hs|, k) && PlaceAt(l, |hs|, k + 1) && PlaceAt(l, |hs|, |hs| - 1)
    requires k > 0 ==> PlaceAt(l, |hs|, k - 1)
    requires LinkAt(hs, l, i) && LinkAt(hs, l, k)
    ensures var h := Rehung(hs, l.order[k], last)[l.order[i]];
            && h.next == (if i == k then -1 else if i == |hs| - 1 then l.order[k] else if i == k - 1
                then l.order[k + 1] else l.order[i + 1])
            && h.prev == (if i == k then l.order[|hs| - 1] else if i == k + 1
                then (if k == 0 then -1 else l.order[k - 1]) else if i == 0 then -1 else l.order[i - 1])
  {
    var n := |hs|;
    Distinct(l, n, k, n - 1);
    Distinct(l, n, k, k + 1);
    if k > 0 { Distinct(l, n, k - 1, k + 1); Distinct(l, n, k - 1, n - 1); Distinct(l, n, k - 1, k); }
    RehungAt(hs, l.order[k], last, l.order[i]);
    if i != k {
      Distinct(l, n, i, k);
      Distinct(l, n, i, k + 1);
      Distinct(l, n, i, n - 1);
      if k > 0 { Distinct(l, n, i, k - 1); }
    }
  }

  lemma MoveLastLink(hs: seq<Head>, l: Lru, last: nat, k: nat, j: nat)
    requires |l.order| == |l.pos| == |hs| && k + 1 < |hs| && last == l.order[|hs| - 1] < |hs|
    requires (forall i :: PlaceAt(l, |hs|, i)) && (forall i :: LinkAt(hs, l, i))
    requires l.order[k] < |hs| && LinkAt(hs, l, k) && l.order[k + 1] < |hs| && (k > 0 ==> l.order[k - 1] < |hs|)
    ensures LinkAt(Rehung(hs, l.order[k], last), MovedLast(l, k), j)
  {
    var n := |hs|;
    if j < n {
      var i := if j < k then j else if j + 1 < n then j + 1 else k;
      assert PlaceAt(l, n, i) && PlaceAt(l, n, k) && PlaceAt(l, n, k + 1) && PlaceAt(l, n, n - 1) && LinkAt(hs, l, i);
      assert k > 0 ==> PlaceAt(l, n, k - 1);
      NextMoved(hs, l, last, k, i);
      LinkMoved(hs, l, last, k, j, i);
    }
  }

  lemma LinkMoved(hs: seq<Head>, l: Lru, last: nat, k: nat, j: nat, i: nat)
    requires |l.order| == |l.pos| == |hs| && k + 1 < |hs| && j < |hs|
        && i == (if j < k then j else if j + 1 < |hs| then j + 1 else k)
    requires l.order[k] < |hs| && last < |hs| && l.order[i] < |hs| && -1 <= hs[l.order[k]].next < |hs|
        && -1 <= hs[l.order[k]].prev < |hs|
    requires var h := Rehung(hs, l.order[k], last)[l.order[i]];
             && h.next == (if i == k then -1 else if i == |hs| - 1 then l.order[k] else if i == k - 1
                 then l.order[k + 1] else l.order[i + 1])
             && h.prev == (if i == k then l.order[|hs| - 1] else if i == k + 1
                 then (if k == 0 then -1 else l.order[k - 1]) else if i == 0 then -1 else l.order[i - 1])
    ensures LinkAt(Rehung(hs, l.order[k], last), MovedLast(l, k), j)
  {
    MovedAt(l, k, j);
    if j > 0 { MovedAt(l, k, j - 1); }
    if j + 1 < |hs| { MovedAt(l, k, j + 1); }
  }

  /** Moving buffer b, not the last, to the end: the list stays sound and only links change. */
  lemma MoveLast(hs: seq<Head>, l: Lru, first: int, last: int, b: nat)
    requires Linked(hs, l, first, last) && b < |hs| && b != last
    ensures 0 <= last < |hs| && 0 <= hs[b].next < |hs| && -1 <= hs[b].prev < |hs| && l.pos[b] < |hs|
    ensures var hs' := Rehung(hs, b, last);
            && Linked(hs', MovedLast(l, l.pos[b]), if b == first then hs[b].next else first, b)
            && forall c :: 0 <= c < |hs| ==> hs'[c] == hs[c].(prev := hs'[c].prev, next := hs'[c].next)
  {
    var n, k := |hs|, l.pos[b];
    assert PlaceAt(l, n, b) && PlaceAt(l, n, n - 1);
    assert PlaceAt(l, n, k) && LinkAt(hs, l, k) && PlaceAt(l, n, k + 1) && (k > 0 ==> PlaceAt(l, n, k - 1));
    MoveLastLinked(hs, l, first, last, k);
    Distinct(l, n, k, k + 1);
    if k > 0 { Distinct(l, n, k - 1, k + 1); Distinct(l, n, k - 1, k); Distinct(l, n, k - 1, n - 1); }
    var hs' := Rehung(hs, b, last);
    forall c: nat | c < n ensures hs'[c] == hs[c].(prev := hs'[c].prev, next := hs'[c].next) {
      RehungAt(hs, b, last, c);
    }
  }

  // ---------------------------------------------------------------- contents

  /** The device, and what was last written to each block of it, wherever those bytes now are. */
  type Flat = (nat, nat) -> Block

  function Put(f: Flat, dev: nat, block: nat, b: Block): Flat {
    (d, n) => if d == dev && n == block then b else f(d, n)
  }

  /** A valid buffer holds what was last written to its block; only valid buffers are dirty. */
  ghost predicate BufRight(hs: seq<Head>, data: seq<Block>, flat: Flat, b: nat)
    requires |data| == |hs|
  {
    b < |hs| ==>
      && (hs[b].uptodate && hs[b].dev != 0 ==> data[b] == flat(hs[b].dev, hs[b].block))
      && (hs[b].dirty ==> hs[b].uptodate && hs[b].dev != 0)
  }

  ghost predicate DirtyAt(hs: seq<Head>, d: nat, n: nat) {
    exists b :: 0 <= b < |hs| && hs[b].dirty && hs[b].Is(d, n)
  }

  /** The device holds what was last written to a block unless a dirty buffer still has it. */
  ghost predicate DiskRight(hs: seq<Head>, disk: Flat, flat: Flat, d: nat, n: nat) {
    d != 0 ==> disk(d, n) == flat(d, n) || DirtyAt(hs, d, n)
  }

  /** At most one buffer per block of a real device. */
  ghost predicate UniqueAt(hs: seq<Head>, b: nat, c: nat) {
    b < |hs| && c < |hs| && hs[b].dev != 0 && hs[b].dev == hs[c].dev && hs[b].block == hs[c].block ==> b == c
  }

  ghost predicate Coherent(hs: seq<Head>, data: seq<Block>, disk: Flat, flat: Flat) {
    && |data| == |hs|
    && (forall b :: BufRight(hs, data, flat, b))
    && (forall d, n :: DiskRight(hs, disk, flat, d, n))
    && (forall b, c :: UniqueAt(hs, b, c))
  }

  /** Heads that differ only in counts and LRU links. */
  ghost predicate SameContents(hs: seq<Head>, hs': seq<Head>) {
    |hs'| == |hs| && forall b :: 0 <= b < |hs| ==> SameHead(hs[b], hs'[b])
  }

  predicate SameHead(h: Head, h': Head) {
    h'.dev == h.dev && h'.block == h.block && h'.dirty == h.dirty && h'.uptodate == h.uptodate
  }

  lemma SameCoherent(hs: seq<Head>, hs': seq<Head>, data: seq<Block>, disk: Flat, flat: Flat)
    requires Coherent(hs, data, disk, flat) && SameContents(hs, hs')
    ensures Coherent(hs', data, disk, flat)
  {
    forall b: nat ensures BufRight(hs', data, flat, b) { assert BufRight(hs, data, flat, b); }
    forall d, n ensures DiskRight(hs', disk, flat, d, n) {
      assert DiskRight(hs, disk, flat, d, n);
      if DirtyAt(hs, d, n) {
        var b :| 0 <= b < |hs| && hs[b].dirty && hs[b].Is(d, n);
        assert hs'[b].Is(d, n);
      }
    }
    forall b: nat, c: nat ensures UniqueAt(hs', b, c) { assert UniqueAt(hs, b, c); }
  }

  /** Reusing a clean buffer for a block that has none. */
  lemma ReuseCoherent(hs: seq<Head>, b: nat, h: Head, data: seq<Block>, disk: Flat, flat: Flat)
    requires Coherent(hs, data, disk, flat) && b < |hs| && !hs[b].dirty
    requires !h.dirty && !h.uptodate && h.dev != 0
    requires forall c :: 0 <= c < |hs| ==> !hs[c].Is(h.dev, h.block)
    ensures Coherent(hs[b := h], data, disk, flat)
  {
    var hs' := hs[b := h];
    forall c: nat ensures BufRight(hs', data, flat, c) { assert BufRight(hs, data, flat, c); }
    forall d, n ensures DiskRight(hs', disk, flat, d, n) {
      assert DiskRight(hs, disk, flat, d, n);
      if DirtyAt(hs, d, n) {
        var c :| 0 <= c < |hs| && hs[c].dirty && hs[c].Is(d, n);
        assert hs'[c].Is(d, n);
      }
    }
    forall c: nat, e: nat ensures UniqueAt(hs', c, e) {
      assert UniqueAt(hs, c, e);
      assert c < |hs| ==> !hs[c].Is(h.dev, h.block);
      assert e < |hs| ==> !hs[e].Is(h.dev, h.block);
    }
  }

  /** A READ that succeeds. */
  lemma ReadCoherent(hs: seq<Head>, b: nat, data: seq<Block>, disk: Flat, flat: Flat)
    requires Coherent(hs, data, disk, flat) && b < |hs| && !hs[b].uptodate && hs[b].dev != 0
    ensures Coherent(hs[b := hs[b].(uptodate := true, dirty := false)],
                     data[b := disk(hs[b].dev, hs[b].block)], disk, flat)
    ensures disk(hs[b].dev, hs[b].block) == flat(hs[b].dev, hs[b].block)
  {
    var hs', data' := hs[b := hs[b].(uptodate := true, dirty := false)], data[b := disk(hs[b].dev, hs[b].block)];
    assert BufRight(hs, data, flat, b) && DiskRight(hs, disk, flat, hs[b].dev, hs[b].block);
    forall c: nat ensures c < |hs| ==> !(hs[c].dirty && hs[c].Is(hs[b].dev, hs[b].block)) { assert UniqueAt(hs, b, c); }
    forall c: nat ensures BufRight(hs', data', flat, c) { assert BufRight(hs, data, flat, c); }
    forall d, n ensures DiskRight(hs', disk, flat, d, n) {
      assert DiskRight(hs, disk, flat, d, n);
      if DirtyAt(hs, d, n) {
        var c :| 0 <= c < |hs| && hs[c].dirty && hs[c].Is(d, n);
        assert hs'[c].Is(d, n);
      }
    }
    forall c: nat, e: nat ensures UniqueAt(hs', c, e) { assert UniqueAt(hs, c, e); }
  }

  /** A WRITE of a dirty buffer. */
  lemma FlushCoherent(hs: seq<Head>, b: nat, data: seq<Block>, disk: Flat, flat: Flat)
    requires Coherent(hs, data, disk, flat) && b < |hs| && hs[b].dirty
    ensures Coherent(hs[b := hs[b].(dirty := false)], data, Put(disk, hs[b].dev, hs[b].block, data[b]), flat)
  {
    var hs', disk' := hs[b := hs[b].(dirty := false)], Put(disk, hs[b].dev, hs[b].block, data[b]);
    assert BufRight(hs, data, flat, b);
    forall c: nat ensures BufRight(hs', data, flat, c) { assert BufRight(hs, data, flat, c); }
    forall d, n ensures DiskRight(hs', disk', flat, d, n) {
      assert DiskRight(hs, disk, flat, d, n);
      if !hs[b].Is(d, n) && DirtyAt(hs, d, n) {
        var c :| 0 <= c < |hs| && hs[c].dirty && hs[c].Is(d, n);
        assert hs'[c].Is(d, n);
      }
    }
    forall c: nat, e: nat ensures UniqueAt(hs', c, e) { assert UniqueAt(hs, c, e); }
  }

  /** A holder filling the whole buffer and marking it valid and dirty. */
  lemma FillCoherent(hs: seq<Head>, b: nat, block: Block, data: seq<Block>, disk: Flat, flat: Flat)
    requires Coherent(hs, data, disk, flat) && b < |hs| && hs[b].dev != 0
    ensures Coherent(hs[b := hs[b].(dirty := true, uptodate := true)], data[b := block], disk,
              Put(flat, hs[b].dev, hs[b].block, block))
  {
    var hs', data', flat' := hs[b := hs[b].(dirty := true, uptodate := true)], data[b := block],
        Put(flat, hs[b].dev, hs[b].block, block);
    forall c: nat ensures BufRight(hs', data', flat', c) { assert BufRight(hs, data, flat, c) && UniqueAt(hs, b, c); }
    forall d, n ensures DiskRight(hs', disk, flat', d, n) {
      assert DiskRight(hs, disk, flat, d, n);
      if hs[b].Is(d, n) {
        assert hs'[b].dirty && hs'[b].Is(d, n);
      } else if DirtyAt(hs, d, n) {
        var c :| 0 <= c < |hs| && hs[c].dirty && hs[c].Is(d, n);
        assert hs'[c].Is(d, n);
      }
    }
    forall c: nat, e: nat ensures UniqueAt(hs', c, e) { assert UniqueAt(hs, c, e); }
  }

  class Cache {
    const heads: array<Head>
    var data: seq<Block>           // the 1K contents of each buffer
    var disk: Flat                 // what the device holds
    var first: int                 // bh_lru
    var last: int                  // bh_llru
    ghost var lru: Lru
    ghost var flat: Flat           // what was last written to each block

    ghost predicate Valid()
      reads this, heads
    {
      Linked(heads[..], lru, first, last) && Coherent(heads[..], data, disk, flat)
    }

    /** buffer_init: no buffer belongs to a device yet. */
    constructor (n: nat, d: Flat)
      requires n > 0
      ensures Valid() && heads.Length == n && disk == d && flat == d && fresh(heads)
      ensures forall b :: 0 <= b < n ==> heads[b].dev == 0 && heads[b].Idle()
    {
      heads := new Head[n](i =>
        Head(0, 0, 0, false, false, if i == 0 then -1 else i - 1, if i == n - 1 then -1 else i + 1));
      data := seq(n, _ => ZeroBlock());
      disk, flat := d, d;
      first, last := 0, n - 1;
      lru := Lru(seq(n, i => i), seq(n, i => i));
      new;
      forall i: nat ensures PlaceAt(lru, n, i) { }
      forall k: nat ensures LinkAt(heads[..], lru, k) { }
      forall x, m ensures DiskRight(heads[..], disk, flat, x, m) { }
      forall b: nat ensures BufRight(heads[..], data, flat, b) { }
    }

    /** A change to one head that leaves its links alone keeps the list. */
    lemma Relinked(hs: seq<Head>, b: nat)
      requires Linked(hs, lru, first, last) && b < |hs| == heads.Length
      requires heads[..] == hs[b := heads[b]] && heads[b].prev == hs[b].prev && heads[b].next == hs[b].next
      ensures Linked(heads[..], lru, first, last)
    {
      forall i: nat ensures PlaceAt(lru, |hs|, i) { }
      forall k: nat ensures LinkAt(heads[..], lru, k) { assert LinkAt(hs, lru, k); }
    }

    /** The pointer work of put_last_lru for a buffer that is not the last. */
    method Rehang(b: nat)
      requires b < heads.Length && 0 <= last < heads.Length && last != b
      requires 0 <= heads[b].next < heads.Length && -1 <= heads[b].prev < heads.Length
      modifies heads, this`first, this`last
      ensures heads[..] == Rehung(old(heads[..]), b, old(last)) && last == b
      ensures first == if b == old(first) then old(heads[b].next) else old(first)
    {
      var bhn, p := heads[b].next, heads[b].prev;
      heads[bhn] := heads[bhn].(prev := p);
      if p != -1 { heads[p] := heads[p].(next := bhn); }
      if b == first { first := bhn; }
      heads[b] := heads[b].(next := -1, prev := last);
      heads[last] := heads[last].(next := b);
      last := b;
    }

    /** put_last_lru. */
    method PutLastLru(b: nat)
      requires Valid() && b < heads.Length
      modifies heads, this`first, this`last, this`lru
      ensures Valid() && last == b
      ensures forall c :: 0 <= c < heads.Length ==>
                heads[c] == old(heads[c]).(prev := heads[c].prev, next := heads[c].next)
    {
      if last == b { return; }
      ghost var hs, last0 := heads[..], last;
      MoveLast(hs, lru, first, last, b);
      Rehang(b);
      lru := MovedLast(lru, lru.pos[b]);
      assert heads[..] == Rehung(hs, b, last0);
      forall c | 0 <= c < heads.Length ensures heads[c] == hs[c].(prev := heads[c].prev, next := heads[c].next) {
        assert heads[..][c] == heads[c];
      }
      SameCoherent(hs, heads[..], data, disk, flat);
    }

    /** The block has a buffer with valid contents. */
    ghost predicate Fresh(dev: nat, block: nat)
      reads heads
    {
      exists c :: 0 <= c < heads.Length && heads[c].Is(dev, block) && heads[c].uptodate
    }

    /** find_buffer: -1 for NULL. */
    method FindBuffer(dev: nat, block: nat) returns (b: int)
      ensures -1 <= b < heads.Length
      ensures b >= 0 ==> heads[b].Is(dev, block)
      ensures b == -1 ==> forall c :: 0 <= c < heads.Length ==> !heads[c].Is(dev, block)
    {
      b := 0;
      while b < heads.Length
        invariant 0 <= b <= heads.Length
        invariant forall c :: 0 <= c < b ==> !heads[c].Is(dev, block)
      {
        if heads[b].Is(dev, block) { return; }
        b := b + 1;
      }
      b := -1;
    }

    /** A count moving on one buffer. */
    method SetCount(b: nat, n: nat)
      requires Valid() && b < heads.Length
      modifies heads
      ensures Valid() && heads[..] == old(heads[..])[b := old(heads[b]).(count := n)]
    {
      ghost var hs := heads[..];
      heads[b] := heads[b].(count := n);
      Relinked(hs, b);
      forall c | 0 <= c < |hs| ensures SameHead(hs[c], heads[c]) { }
      SameCoherent(hs, heads[..], data, disk, flat);
    }

    /** WRITE of one dirty buffer. */
    method Flush(b: nat)
      requires Valid() && b < heads.Length && heads[b].dirty
      modifies heads, this`disk
      ensures Valid() && heads[..] == old(heads[..])[b := old(heads[b]).(dirty := false)]
    {
      ghost var hs := heads[..];
      FlushCoherent(hs, b, data, disk, flat);
      disk := Put(disk, heads[b].dev, heads[b].block, data[b]);
      heads[b] := heads[b].(dirty := false);
      Relinked(hs, b);
    }

    /** sync_buffers for one device, or for all when dev is 0. */
    method SyncBuffers(dev: nat)
      requires Valid()
      modifies heads, this`disk
      ensures Valid()
      ensures forall b :: 0 <= b < heads.Length ==> heads[b] == old(heads[b]).(dirty := heads[b].dirty)
      ensures forall b :: 0 <= b < heads.Length ==>
                heads[b].dirty == (old(heads[b].dirty) && dev != 0 && heads[b].dev != dev)
    {
      var b := 0;
      while b < heads.Length
        invariant 0 <= b <= heads.Length && Valid()
        invariant forall c :: b <= c < heads.Length ==> heads[c] == old(heads[c])
        invariant forall c :: 0 <= c < b ==>
            heads[c] == old(heads[c]).(dirty := old(heads[c].dirty) && dev != 0 && old(heads[c].dev) != dev)
      {
        if (dev == 0 || heads[b].dev == dev) && heads[b].dirty {
          Flush(b);
        }
        b := b + 1;
      }
    }

    /** No buffer less recently used than b would do. */
    ghost predicate Before(b: nat, slotted: set<nat>)
      reads this, heads
      requires b < heads.Length == |lru.pos|
    {
      forall c :: 0 <= c < heads.Length && lru.pos[c] < lru.pos[b] ==> !heads[c].Idle() || c in slotted
    }

    /** The scan of get_free_buffer from the least recently used end, for a buffer that has no slot; -1 if none will
      * do. */
    method ScanFree(slotted: set<nat>) returns (b: int)
      requires Valid()
      ensures -1 <= b < heads.Length
      ensures b >= 0 ==> heads[b].Idle() && b !in slotted
      ensures b == -1 ==> forall c :: 0 <= c < heads.Length ==> !heads[c].Idle() || c in slotted
      ensures |lru.pos| == heads.Length && (b >= 0 ==> Before(b, slotted))
    {
      ghost var k, n := 0, heads.Length;
      b := first;
      while b != -1
        invariant 0 <= k <= n && b == (if k < n then lru.order[k] else -1)
        invariant forall j :: 0 <= j < k ==>
            0 <= lru.order[j] < n && (!heads[lru.order[j]].Idle() || lru.order[j] in slotted)
        decreases n - k
      {
        assert PlaceAt(lru, n, k) && LinkAt(heads[..], lru, k);
        if heads[b].Idle() && b !in slotted {
          forall c: nat | c < n && lru.pos[c] < lru.pos[b] ensures !heads[c].Idle() || c in slotted {
            assert PlaceAt(lru, n, c);
          }
          return;
        }
        b, k := heads[b].next, k + 1;
      }
      forall c: nat | c < n ensures !heads[c].Idle() || c in slotted { assert PlaceAt(lru, n, c); }
    }

    /** get_free_buffer. When the scan fails everything dirty is written and the scan is tried once more; before and
      * after are the buffers with a slot at the one and the other. When the second scan fails too there is nothing
      * left to write, the kernel scans for ever, and the result is -1. */
    method GetFreeBuffer(before: set<nat>, after: set<nat>) returns (b: int)
      requires Valid()
      modifies heads, this`disk, this`first, this`last, this`lru
      ensures Valid() && -1 <= b < heads.Length
      ensures b >= 0 ==> heads[b].Idle() && b !in (if old(Busy(before)) then after else before)
      ensures b == -1 <==> old(Busy(before)) && forall c :: 0 <= c < heads.Length ==>
                old(heads[c].count) > 0 || c in after
      ensures b >= 0 ==> last == b && |old(lru.pos)| == heads.Length && forall c ::
                0 <= c < heads.Length && old(lru.pos)[c] < old(lru.pos)[b] ==>
                if old(Busy(before)) then heads[c].count > 0 || c in after
                else old(heads[c].count > 0 || heads[c].dirty) || c in before
      ensures forall c :: 0 <= c < heads.Length ==> SameHeld(old(heads[c]), heads[c])
    {
      b := ScanFree(before);
      if b == -1 {
        SyncBuffers(0);
        b := ScanFree(after);
        if b == -1 { return; }
      }
      PutLastLru(b);
    }

    /** The kernel would scan for ever: the block has no buffer, and no buffer is to be had. */
    predicate Spins(dev: nat, block: nat, before: set<nat>, after: set<nat>)
      reads heads
    {
      && Busy(before)
      && forall c :: 0 <= c < heads.Length ==> !heads[c].Is(dev, block) && (heads[c].count > 0 || c in after)
    }

    /** Every buffer is held, dirty or in a slot. */
    predicate Busy(slotted: set<nat>)
      reads heads
    {
      forall c :: 0 <= c < heads.Length ==> heads[c].count > 0 || heads[c].dirty || c in slotted
    }

    /** getblk, with get_hash_table: the block's buffer with one more holder, reusing an unheld clean one
      * if it has none; -1 if the kernel would spin for want of one. */
    method Getblk(dev: nat, block: nat, before: set<nat>, after: set<nat>) returns (b: int)
      requires Valid() && dev != 0
      modifies heads, this`disk, this`first, this`last, this`lru
      ensures Valid() && -1 <= b < heads.Length
      ensures b == -1 <==> old(Spins(dev, block, before, after))
      ensures b >= 0 ==> (heads[b].uptodate <==> old(Fresh(dev, block)))
      ensures b >= 0 && !(old(heads[b]).Is(dev, block) && (heads[b].dirty || !heads[b].uptodate)) ==> last == b
      ensures b >= 0 ==> heads[b].Is(dev, block) && heads[b].count > 0
      ensures b >= 0 ==> heads[b].count == (if old(heads[b]).Is(dev, block) then old(heads[b].count) + 1 else 1)
      ensures forall c :: 0 <= c < heads.Length && (c != b || old(heads[c].count) > 0) ==>
                SameHeld(old(heads[c]).(count := 0), heads[c].(count := 0))
                    && (c != b ==> heads[c].count == old(heads[c].count))
    {
      b := FindBuffer(dev, block);
      if b != -1 {
        assert forall c :: 0 <= c < heads.Length && heads[c].Is(dev, block) ==> c == b by {
          forall c: nat | c < heads.Length && heads[c].Is(dev, block) ensures c == b {
            assert UniqueAt(heads[..], b, c);
          }
        }
        SetCount(b, heads[b].count + 1);
        if !heads[b].dirty && heads[b].uptodate { PutLastLru(b); }
        return;
      }
      b := GetFreeBuffer(before, after);
      if b == -1 { return; }
      ghost var hs := heads[..];
      var h := heads[b].(count := 1, dirty := false, uptodate := false, dev := dev, block := block);
      forall c | 0 <= c < |hs| ensures !hs[c].Is(dev, block) { assert SameHeld(old(heads[c]), heads[c]); }
      ReuseCoherent(hs, b, h, data, disk, flat);
      heads[b] := h;
      assert heads[..] == hs[b := h];
      Relinked(hs, b);
    }

    /** readbuf: the buffer made valid, or released and -1 if the READ fails. `io` says whether it would. */
    method Readbuf(b: nat, io: bool) returns (r: int)
      requires Valid() && b < heads.Length && heads[b].dev != 0 && heads[b].count > 0
      modifies heads, this`data
      ensures Valid() && (r == b || r == -1)
      ensures r == -1 <==> !old(heads[b].uptodate) && !io
      ensures r == b ==> heads[b] == old(heads[b]).(uptodate := true, dirty := heads[b].dirty)
      ensures r == b ==> data[b] == flat(heads[b].dev, heads[b].block)
      ensures r == -1 ==> data == old(data) && heads[b] == old(heads[b]).(count := old(heads[b].count) - 1)
      ensures forall c :: 0 <= c < heads.Length && c != b ==> heads[c] == old(heads[c]) && data[c] == old(data[c])
    {
      assert BufRight(heads[..], data, flat, b);
      if heads[b].uptodate { return b; }
      if !io {
        var _ := Brelse(b);
        return -1;
      }
      ghost var hs := heads[..];
      ReadCoherent(hs, b, data, disk, flat);
      data := data[b := disk(heads[b].dev, heads[b].block)];
      heads[b] := heads[b].(uptodate := true, dirty := false);
      Relinked(hs, b);
      r := b;
    }

    /** __brelse; releasing an unheld buffer panics. */
    method Brelse(b: nat) returns (panic: bool)
      requires Valid() && b < heads.Length
      modifies heads
      ensures Valid() && (panic <==> old(heads[b].count) == 0)
      ensures heads[..] == if panic then old(heads[..])
                else old(heads[..])[b := old(heads[b]).(count := old(heads[b].count) - 1)]
    {
      panic := heads[b].count == 0;
      if !panic { SetCount(b, heads[b].count - 1); }
    }

    /** bread: on success the buffer holds what was last written to the block. */
    method Bread(dev: nat, block: nat, io: bool, before: set<nat>, after: set<nat>) returns (b: int)
      requires Valid() && dev != 0
      modifies heads, this`disk, this`first, this`last, this`lru, this`data
      ensures Valid() && -1 <= b < heads.Length && |data| == old(|data|)
      ensures b == -1 <==> old(Spins(dev, block, before, after)) || (!io && !old(Fresh(dev, block)))
      ensures b >= 0 ==> heads[b].Is(dev, block) && heads[b].count > 0 && data[b] == flat(dev, block)
      ensures forall c :: 0 <= c < heads.Length && c != b && old(heads[c].count) > 0 ==>
                heads[c].Is(old(heads[c].dev), old(heads[c].block)) && heads[c].count >= old(heads[c].count)
                    && data[c] == old(data[c])
    {
      b := Getblk(dev, block, before, after);
      if b != -1 { b := Readbuf(b, io); }
    }

    /** A holder rewriting the whole block, then mark_buffer_uptodate and mark_buffer_dirty. */
    method Fill(b: nat, block: Block)
      requires Valid() && b < heads.Length && heads[b].dev != 0 && heads[b].count > 0
      modifies heads, this`data, this`flat
      ensures Valid() && flat == Put(old(flat), heads[b].dev, heads[b].block, block)
      ensures heads[..] == old(heads[..])[b := old(heads[b]).(dirty := true, uptodate := true)]
                && data == old(data)[b := block]
    {
      ghost var hs := heads[..];
      FillCoherent(hs, b, block, data, disk, flat);
      flat := Put(flat, heads[b].dev, heads[b].block, block);
      data := data[b := block];
      heads[b] := heads[b].(dirty := true, uptodate := true);
      Relinked(hs, b);
    }
  }

  /** Same identity, validity and count; a dirty buffer may have been written out. */
  predicate SameHeld(h: Head, h': Head) {
    h'.dev == h.dev && h'.block == h.block && h'.uptodate == h.uptodate && h'.count == h.count
  }

  // ---------------------------------------------------------------- runs

  /** Reading a block, rewriting one, and writing back what is dirty. before and after are the buffers with a slot if
    * a free buffer is looked for, before and after dirty ones have been written. */
  datatype Op =
    | ReadOp(dev: nat, block: nat, io: bool, before: set<nat>, after: set<nat>)
    | FillOp(dev: nat, block: nat, contents: Block, before: set<nat>, after: set<nat>)
    | SyncOp(dev: nat)

  datatype Seen = Bytes(contents: Block) | Nothing

  /** The plain array of blocks after some operations. */
  function After(f: Flat, ops: seq<Op>): Flat {
    if ops == [] then f
    else
      var g := After(f, ops[..|ops| - 1]);
      match ops[|ops| - 1]
      case FillOp(d, n, b, _, _) => Put(g, d, n, b)
      case _ => g
  }

  /** One operation; false if the kernel would spin. */
  method Step(c: Cache, op: Op) returns (ok: bool, result: Seen)
    requires c.Valid() && (op.SyncOp? || op.dev != 0)
    modifies c, c.heads
    ensures c.Valid()
    ensures ok ==> c.flat == (if op.FillOp? then Put(old(c.flat), op.dev, op.block, op.contents) else old(c.flat))
    ensures result.Bytes? ==> op.ReadOp? && result.contents == old(c.flat)(op.dev, op.block)
    ensures !ok <==> !op.SyncOp? && old(c.Spins(op.dev, op.block, op.before, op.after))
    ensures result.Bytes? <==> ok && op.ReadOp? && (op.io || old(c.Fresh(op.dev, op.block)))
    ensures !ok ==> c.flat == old(c.flat)
    ensures !ok ==> forall b :: 0 <= b < c.heads.Length ==> SameHeld(old(c.heads[b]), c.heads[b])
    ensures forall b :: 0 <= b < c.heads.Length ==> c.heads[b].count == old(c.heads[b].count)
    ensures op.SyncOp? ==> forall b :: 0 <= b < c.heads.Length ==>
              var h := old(c.heads[b]);
              c.heads[b] == h.(dirty := h.dirty && op.dev != 0 && h.dev != op.dev)
  {
    ok, result := true, Nothing;
    match op {
      case SyncOp(dev) => c.SyncBuffers(dev);
      case ReadOp(dev, block, io, before, after) =>
        var b := c.Getblk(dev, block, before, after);
        if b == -1 { return false, Nothing; }
        b := c.Readbuf(b, io);
        if b != -1 {
          result := Bytes(c.data[b]);
          var _ := c.Brelse(b);
        }
      case FillOp(dev, block, contents, before, after) =>
        var b := c.Getblk(dev, block, before, after);
        if b == -1 { return false, Nothing; }
        c.Fill(b, contents);
        var _ := c.Brelse(b);
    }
  }

  /** What the i-th operation saw is what the plain array held there, and every read that reaches the device saw it. */
  ghost predicate SawAt(f: Flat, ops: seq<Op>, seen: seq<Seen>, i: nat) {
    i < |seen| <= |ops| ==>
      && (seen[i].Bytes? ==>
            ops[i].ReadOp? && seen[i].contents == After(f, ops[..i])(ops[i].dev, ops[i].block))
      && (ops[i].ReadOp? && ops[i].io ==> seen[i].Bytes?)
  }

  lemma SawMore(f: Flat, ops: seq<Op>, seen: seq<Seen>, result: Seen)
    requires |seen| < |ops| && forall i :: SawAt(f, ops, seen, i)
    requires SawAt(f, ops, seen + [result], |seen|)
    ensures forall i :: SawAt(f, ops, seen + [result], i)
  {
    forall i: nat ensures SawAt(f, ops, seen + [result], i) { assert SawAt(f, ops, seen, i); }
  }

  /** Over any run of reads, writes and syncs, with buffers reused as need be, a read that succeeds sees
    * exactly what the plain array of blocks holds at that point, and no buffer gains or loses a holder. The run stops
    * early only if the kernel would spin. */
  method Run(c: Cache, ops: seq<Op>) returns (seen: seq<Seen>)
    requires c.Valid() && forall op :: op in ops ==> op.SyncOp? || op.dev != 0
    modifies c, c.heads
    ensures c.Valid() && |seen| <= |ops| && c.flat == After(old(c.flat), ops[..|seen|])
    ensures forall i :: SawAt(old(c.flat), ops, seen, i)
    ensures forall b :: 0 <= b < c.heads.Length ==> c.heads[b].count == old(c.heads[b].count)
    ensures |seen| < |ops| ==> var op := ops[|seen|]; !op.SyncOp? && forall b :: 0 <= b < c.heads.Length ==>
              !c.heads[b].Is(op.dev, op.block) && (c.heads[b].count > 0 || b in op.after)
  {
    seen := [];
    while |seen| < |ops|
      invariant c.Valid() && |seen| <= |ops| && c.flat == After(old(c.flat), ops[..|seen|])
      invariant forall i :: SawAt(old(c.flat), ops, seen, i)
      invariant forall b :: 0 <= b < c.heads.Length ==> c.heads[b].count == old(c.heads[b].count)
    {
      assert ops[..|seen| + 1][..|seen|] == ops[..|seen|];
      var ok, result := Step(c, ops[|seen|]);
      if !ok { return; }
      SawMore(old(c.flat), ops, seen, result);
      seen := seen + [result];
    }
  }
}
