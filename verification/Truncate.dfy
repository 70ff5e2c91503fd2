/** Truncation of a Minix V1 file (fs/minix/truncate.c), run by one task: no other task holds a
  * buffer or changes the inode, so no retry is ever asked for. */
module Truncate {
  import opened Blocks
  import opened BlockTree
  import opened BlockStore

  /** DIRECT_BLOCK: the first file block past the end, ceil(size / 1024), in 32-bit arithmetic. */
  function DirectBlock(size: nat): nat { (size + 1023) % 0x1_0000_0000 / 1024 }

  /** The low half of it, which is what fits an int; as an int it is negative from 0x8000 on. */
  function Low(size: nat): nat { U16(DirectBlock(size)) }

  /** How V1_trunc_direct ends: it comes to the end of the direct zones, it reads in front of i_zone, or it jumps
    * back to its start for ever. */
  datatype Scan = Scanned | Strays | Repeats

  /** Some direct zone from lo on is in use. */
  predicate ZoneFrom(zones: seq<nat>, lo: nat) { exists i :: lo <= i < IND && i < |zones| && zones[i] != 0 }

  function ScanOf(node: Inode): Scan {
    if Low(node.size) >= 0x8000 then Strays
    else if DirectBlock(node.size) >= 0x1_0000 && ZoneFrom(node.zones, Low(node.size)) then Repeats
    else Scanned
  }

  function AtLeast0(x: int): nat { if x < 0 then 0 else x }

  /** INDIRECT_BLOCK(offset) in 16-bit arithmetic, where the scan of an index block starts. */
  function IndStart(d: nat, offset: int): nat { AtLeast0(Int16(Int16(d) - offset)) }

  /** DINDIRECT_BLOCK(7 + 512), with the arithmetic right shift the compiler emits. */
  function DindStart(d: nat): nat { AtLeast0(Int16(Int16(d) - IND_END) / PER_BLOCK) }

  /** The offset handed down for word k of the double-indirect block. */
  function DindOffset(k: nat): int { Int16(IND_END + Int16(k * PER_BLOCK)) }

  /** Shrinking the tree of one file: what stays owned keeps its place, and kept data its bytes. */
  ghost predicate Shrunk(fs: Fs, own: Own, fs': Fs, own': Own, ino: nat) {
    && fs'.firstData == fs.firstData && fs'.nzones == fs.nzones
    && |fs'.inodes| == |fs.inodes|
    && (forall i :: 0 <= i < |fs.inodes| ==> fs'.inodes[i] == fs.inodes[i].(zones := fs'.inodes[i].zones))
    && (forall i :: 0 <= i < |fs.inodes| && i != ino ==> fs'.inodes[i] == fs.inodes[i])
    && (forall b :: b in own' ==> b in own && own'[b] == own[b])
    && (forall b :: b in own && b !in own' ==> own[b].ino == ino)
    && (forall b :: b in own' && own'[b].level == 0 && b in fs.disk ==> b in fs'.disk && fs'.disk[b] == fs.disk[b])
  }

  lemma ShrunkTwice(fs: Fs, own: Own, fs1: Fs, own1: Own, fs2: Fs, own2: Own, ino: nat)
    requires Shrunk(fs, own, fs1, own1, ino) && Shrunk(fs1, own1, fs2, own2, ino)
    ensures Shrunk(fs, own, fs2, own2, ino)
  {
  }

  predicate IsChild(own: Own, b: nat, c: nat) {
    c in own && own[c].ptr.Entry? && own[c].ptr.blk == b
  }

  /** The owners left once words lo..hi of index block b are cleared. */
  ghost function Pruned(own: Own, b: nat, lo: nat, hi: nat): Own {
    map c | c in own && !(IsChild(own, b, c) && lo <= own[c].ptr.idx < hi) :: own[c]
  }

  /** No child of b hangs below word lo. */
  ghost predicate Barren(own: Own, b: nat, lo: nat) {
    forall c :: IsChild(own, b, c) ==> lo <= own[c].ptr.idx
  }

  /** V1_trunc_indirect on index block b: its words from lo on go, and b goes if nothing is left. */
  ghost function AfterIndirect(own: Own, b: nat, lo: nat): Own {
    if Barren(own, b, lo) then Pruned(own, b, lo, PER_BLOCK) - {b} else Pruned(own, b, lo, PER_BLOCK)
  }

  /** A word of an owned index block is non-zero exactly when some owned block hangs on it. */
  lemma WordIsChild(fs: Fs, own: Own, b: nat, i: nat)
    requires Good(fs, own, {}) && b in own && own[b].level > 0 && i < PER_BLOCK
    ensures var w := fs.Load(Entry(b, i)); w != 0 ==> w in own && own[w].ptr == Entry(b, i)
    ensures forall c :: c in own && own[c].ptr == Entry(b, i) ==> c == fs.Load(Entry(b, i)) != 0
  {
    assert NamesOwned(fs, own, Entry(b, i));
    forall c | c in own && own[c].ptr == Entry(b, i) ensures c == fs.Load(Entry(b, i)) != 0 {
      assert OwnsRight(fs, own, c) && BitRight(fs, own, {}, c);
    }
  }

  lemma Ready(fs: Fs, own: Own, p: Ptr)
    requires Good(fs, own, {}) && Live(fs, own, p) && fs.Load(p) != 0
    requires forall c :: !IsChild(own, fs.Load(p), c)
    ensures fs.Load(p) in own && fs.InRange(fs.Load(p)) && own[fs.Load(p)] == OwnerAt(own, p)
    ensures own[fs.Load(p)].level > 0 ==> forall i :: 0 <= i < PER_BLOCK ==> fs.Load(Entry(fs.Load(p), i)) == 0
    ensures p.Entry? ==> p.blk in fs.disk
  {
    Hop(fs, own, p);
    var b := fs.Load(p);
    assert BitRight(fs, own, {}, b);
    if own[b].level > 0 {
      forall i | 0 <= i < PER_BLOCK ensures fs.Load(Entry(b, i)) == 0 {
        WordIsChild(fs, own, b, i);
        assert !IsChild(own, b, fs.Load(Entry(b, i)));
      }
    }
    if p.Entry? { assert BitRight(fs, own, {}, p.blk); }
  }

  /** `*p = 0` followed by minix_free_block of what p named. */
  method Drop(v: Volume, p: Ptr, ghost ino: nat)
    requires v.Valid() && Live(v.View(), v.own, p) && v.View().Load(p) != 0
    requires v.HasFile(ino) && OwnerAt(v.own, p).ino == ino
    requires forall c :: !IsChild(v.own, v.View().Load(p), c)
    modifies v
    ensures v.Valid() && v.own == old(v.own) - {old(v.View().Load(p))}
    ensures Shrunk(old(v.View()), old(v.own), v.View(), v.own, ino)
  {
    ghost var fs, own := v.View(), v.own;
    Ready(fs, own, p);
    var b := v.View().Load(p);
    Detach(fs, own, p);
    match p {
      case Zone(i, k) => v.inodes := v.inodes[i := v.inodes[i].(zones := v.inodes[i].zones[k := 0])];
      case Entry(c, i) => v.disk := v.disk[c := SetWord(v.disk[c], i, 0)];
    }
    ghost var mid := v.View();
    assert mid == fs.Store(p, 0);
    v.FreeBlock(b);
    v.own := v.own - {b};
    Release(mid, v.own, b, v.View());
  }

  /** The owners left once zone slots lo..hi of a file are cleared. */
  ghost function ZonesCut(own: Own, ino: nat, lo: nat, hi: nat): Own {
    map c | c in own && !(own[c].ptr.Zone? && own[c].ptr.ino == ino && lo <= own[c].ptr.k < hi) :: own[c]
  }

  lemma ZonesCutStep(fs: Fs, own0: Own, own: Own, ino: nat, lo: nat, i: nat)
    requires Good(fs, own, {}) && own == ZonesCut(own0, ino, lo, i) && lo <= i < IND
    requires ino < |fs.inodes| && fs.inodes[ino].Mapped()
    ensures var z := fs.Load(Zone(ino, i)); ZonesCut(own0, ino, lo, i + 1) == if z == 0 then own else own - {z}
    ensures var z := fs.Load(Zone(ino, i)); z != 0 ==> z in own && own[z].level == 0
  {
    var p := Zone(ino, i);
    assert Live(fs, own, p);
    assert NamesOwned(fs, own, p);
    if fs.Load(p) != 0 { Hop(fs, own, p); }
    forall c | c in own0 && own0[c].ptr == p ensures c in own && c == fs.Load(p) != 0 {
      assert OwnsRight(fs, own, c) && BitRight(fs, own, {}, c);
    }
    forall c | c in own0 && own0[c].ptr != p
      ensures c in ZonesCut(own0, ino, lo, i + 1) <==> c in own
    {
    }
  }

  lemma DataHasNoChild(fs: Fs, own: Own, b: nat)
    requires Good(fs, own, {}) && b in own && own[b].level == 0
    ensures forall c :: !IsChild(own, b, c)
  {
    forall c ensures !IsChild(own, b, c) { assert OwnsRight(fs, own, c); }
  }

  /** One round of V1_trunc_direct: zone slot i is cleared and its block freed. */
  method ClearZone(v: Volume, ino: nat, i: nat, ghost lo: nat, ghost fs0: Fs, ghost own0: Own)
    requires v.Valid() && v.HasFile(ino) && lo <= i < IND
    requires Shrunk(fs0, own0, v.View(), v.own, ino) && v.own == ZonesCut(own0, ino, lo, i)
    modifies v
    ensures v.Valid() && v.HasFile(ino)
    ensures Shrunk(fs0, own0, v.View(), v.own, ino) && v.own == ZonesCut(own0, ino, lo, i + 1)
  {
    ghost var fs, own := v.View(), v.own;
    ZonesCutStep(fs, own0, own, ino, lo, i);
    var tmp := v.inodes[ino].zones[i];
    if tmp == 0 { return; }
    DataHasNoChild(fs, own, tmp);
    Drop(v, Zone(ino, i), ino);
    ShrunkTwice(fs0, own0, fs, own, v.View(), v.own, ino);
  }

  /** One turn of the loop of V1_trunc_direct. True means `goto repeat`, with nothing changed. */
  method ScanZone(v: Volume, ino: nat, i: nat, d: nat, ghost lo: nat, ghost fs0: Fs,
      ghost own0: Own) returns (again: bool)
    requires v.Valid() && v.HasFile(ino) && lo <= i < IND
    requires Shrunk(fs0, own0, v.View(), v.own, ino) && v.own == ZonesCut(own0, ino, lo, i)
    modifies v
    ensures v.Valid() && v.HasFile(ino)
    ensures again <==> old(v.inodes[ino].zones[i]) != 0 && i < d
    ensures again || i < d ==> v.View() == old(v.View()) && v.own == old(v.own)
    ensures !again ==> Shrunk(fs0, own0, v.View(), v.own, ino) && v.own == ZonesCut(own0, ino, lo, i + 1)
  {
    if v.inodes[ino].zones[i] == 0 {
      ZonesCutStep(v.View(), own0, v.own, ino, lo, i);
      return false;
    }
    if i < d { return true; }
    ClearZone(v, ino, i, lo, fs0, own0);
    return false;
  }

  /** V1_trunc_direct. A start of 32768 blocks or more is a negative index. From 65536 blocks on the index is short
    * of DIRECT_BLOCK at the first zone in use, the scan starts over, and with nothing changed it does so again. */
  method TruncDirect(v: Volume, ino: nat) returns (r: Scan)
    requires v.Valid() && v.HasFile(ino)
    modifies v
    ensures v.Valid() && v.HasFile(ino) && r == ScanOf(old(v.inodes[ino]))
    ensures !r.Scanned? ==> v.View() == old(v.View()) && v.own == old(v.own)
    ensures r.Scanned? ==> Shrunk(old(v.View()), old(v.own), v.View(), v.own, ino)
    ensures r.Scanned? ==> v.own == ZonesCut(old(v.own), ino, Low(old(v.inodes[ino].size)), IND)
  {
    var d := DirectBlock(v.inodes[ino].size);
    var i := Int16(d);
    if i < 0 { return Strays; }
    ghost var lo, fs0, own0 := i, v.View(), v.own;
    while i < IND
      invariant lo <= i && (IND <= lo ==> i == lo) && (lo < IND ==> i <= IND)
      invariant v.Valid() && v.HasFile(ino)
      invariant Shrunk(fs0, own0, v.View(), v.own, ino) && v.own == ZonesCut(own0, ino, lo, i)
      invariant d >= 0x1_0000 ==> v.View() == fs0 && v.own == own0
      invariant d >= 0x1_0000 ==> forall k :: lo <= k < i ==> v.inodes[ino].zones[k] == 0
    {
      var again := ScanZone(v, ino, i, d, lo, fs0, own0);
      if again { return Repeats; }
      i := i + 1;
    }
    r := Scanned;
  }

  lemma PrunedStep(fs: Fs, own0: Own, own: Own, b: nat, lo: nat, i: nat)
    requires Good(fs, own, {}) && own == Pruned(own0, b, lo, i) && lo <= i < PER_BLOCK
    requires b in own && own[b].level == 1
    ensures var z := fs.Load(Entry(b, i)); Pruned(own0, b, lo, i + 1) == if z == 0 then own else own - {z}
    ensures var z := fs.Load(Entry(b, i)); z != 0 ==> z in own && own[z].level == 0
  {
    WordIsChild(fs, own, b, i);
    if fs.Load(Entry(b, i)) != 0 { Hop(fs, own, Entry(b, i)); }
    forall c | c in own0 && own0[c].ptr == Entry(b, i) ensures c in own && c == fs.Load(Entry(b, i)) {
    }
    forall c | c in own0 && own0[c].ptr != Entry(b, i)
      ensures c in Pruned(own0, b, lo, i + 1) <==> c in own
    {
    }
  }

  /** The loop that looks for a word still in use. */
  method AllZero(v: Volume, b: nat) returns (empty: bool)
    requires v.Valid() && b in v.own && v.own[b].level > 0
    ensures empty <==> forall c :: !IsChild(v.own, b, c)
  {
    assert BitRight(v.View(), v.own, {}, b);
    var i := 0;
    while i < PER_BLOCK
      invariant 0 <= i <= PER_BLOCK
      invariant forall k :: 0 <= k < i ==> v.View().Load(Entry(b, k)) == 0
    {
      if Word(v.disk[b], i) != 0 {
        WordIsChild(v.View(), v.own, b, i);
        assert IsChild(v.own, b, Word(v.disk[b], i));
        return false;
      }
      i := i + 1;
    }
    forall c ensures !IsChild(v.own, b, c) {
      assert OwnsRight(v.View(), v.own, c) && BitRight(v.View(), v.own, {}, c);
    }
    return true;
  }

  /** One round of V1_trunc_indirect: word i is cleared and its block freed. */
  method ClearWord(v: Volume, ino: nat, b: nat, i: nat, ghost lo: nat, ghost fs0: Fs, ghost own0: Own)
    requires v.Valid() && v.HasFile(ino) && b in v.own && v.own[b].level == 1 && v.own[b].ino == ino
    requires lo <= i < PER_BLOCK
    requires Shrunk(fs0, own0, v.View(), v.own, ino) && v.own == Pruned(own0, b, lo, i)
    modifies v
    ensures v.Valid() && v.HasFile(ino) && b in v.own && v.own[b] == old(v.own[b])
    ensures Shrunk(fs0, own0, v.View(), v.own, ino) && v.own == Pruned(own0, b, lo, i + 1)
  {
    ghost var fs, own := v.View(), v.own;
    PrunedStep(fs, own0, own, b, lo, i);
    var tmp := v.View().Load(Entry(b, i));
    if tmp == 0 { return; }
    DataHasNoChild(fs, own, tmp);
    Drop(v, Entry(b, i), ino);
    ShrunkTwice(fs0, own0, fs, own, v.View(), v.own, ino);
  }

  /** V1_trunc_indirect on the index block named by p, whose first file block is at `offset`. */
  method TruncIndirect(v: Volume, ino: nat, offset: int, p: Ptr)
    requires v.Valid() && v.HasFile(ino) && Live(v.View(), v.own, p)
    requires OwnerAt(v.own, p).level == 1 && OwnerAt(v.own, p).ino == ino
    modifies v
    ensures v.Valid() && v.HasFile(ino) && Shrunk(old(v.View()), old(v.own), v.View(), v.own, ino)
    ensures var b := old(v.View().Load(p));
            v.own == if b == 0 then old(v.own)
                     else AfterIndirect(old(v.own), b, IndStart(Low(old(v.inodes[ino].size)), offset))
  {
    var b := v.View().Load(p);
    if b == 0 { return; }
    Hop(v.View(), v.own, p);
    var lo := IndStart(Low(v.inodes[ino].size), offset);
    PruneWords(v, ino, b, lo);
    PrunedBarren(old(v.View()), old(v.own), b, lo);
    Above(v.View(), v.own, b);
    var empty := AllZero(v, b);
    if empty {
      ghost var fs, own := v.View(), v.own;
      Drop(v, p, ino);
      ShrunkTwice(old(v.View()), old(v.own), fs, own, v.View(), v.own, ino);
    }
  }

  /** The clearing loop of V1_trunc_indirect. */
  method PruneWords(v: Volume, ino: nat, b: nat, lo: nat)
    requires v.Valid() && v.HasFile(ino) && b in v.own && v.own[b].level == 1 && v.own[b].ino == ino
    modifies v
    ensures v.Valid() && v.HasFile(ino) && b in v.own
    ensures Shrunk(old(v.View()), old(v.own), v.View(), v.own, ino)
    ensures v.own == Pruned(old(v.own), b, lo, PER_BLOCK)
  {
    var i := lo;
    while i < PER_BLOCK
      invariant lo <= i && (PER_BLOCK <= lo ==> i == lo) && (lo < PER_BLOCK ==> i <= PER_BLOCK)
      invariant v.Valid() && v.HasFile(ino) && b in v.own && v.own[b] == old(v.own[b])
      invariant Shrunk(old(v.View()), old(v.own), v.View(), v.own, ino)
      invariant v.own == Pruned(old(v.own), b, lo, i)
    {
      ClearWord(v, ino, b, i, lo, old(v.View()), old(v.own));
      i := i + 1;
    }
  }

  lemma PrunedBarren(fs: Fs, own: Own, b: nat, lo: nat)
    requires Good(fs, own, {})
    ensures Barren(own, b, lo) <==> forall c :: !IsChild(Pruned(own, b, lo, PER_BLOCK), b, c)
  {
    var own' := Pruned(own, b, lo, PER_BLOCK);
    forall c ensures IsChild(own', b, c) <==> IsChild(own, b, c) && own[c].ptr.idx < lo {
      assert OwnsRight(fs, own, c);
    }
  }

  /** The word of the double-indirect block db that c hangs under, at either height; -1 for none. */
  ghost function MidSlot(own: Own, db: nat, c: nat): int
    requires c in own
  {
    match own[c].ptr
    case Zone(_, _) => -1
    case Entry(x, i) => if x == db then i else if IsChild(own, db, x) then own[x].ptr.idx else -1
  }

  /** What V1_trunc_indirect takes under one word: the data blocks at or past the word's start, and
    * the index block itself when nothing hangs below that start. */
  ghost predicate Doomed(own: Own, db: nat, d: nat, c: nat)
    requires c in own && MidSlot(own, db, c) >= 0
  {
    var s := IndStart(d, DindOffset(MidSlot(own, db, c)));
    if own[c].ptr.blk == db then Barren(own, c, s) else s <= own[c].ptr.idx < PER_BLOCK
  }

  ghost predicate GoneUnder(own: Own, db: nat, d: nat, lo: nat, hi: nat, c: nat)
    requires c in own
  {
    lo <= MidSlot(own, db, c) < hi && Doomed(own, db, d, c)
  }

  ghost function MidsCut(own: Own, db: nat, d: nat, lo: nat, hi: nat): Own {
    map c | c in own && !GoneUnder(own, db, d, lo, hi, c) :: own[c]
  }

  /** V1_trunc_dindirect on block db. */
  ghost function AfterDindirect(own: Own, db: nat, d: nat): Own {
    var mids := MidsCut(own, db, d, DindStart(d), PER_BLOCK);
    if forall c :: !IsChild(mids, db, c) then mids - {db} else mids
  }

  /** The block named by word i when the first i words have been visited, and its children, are
    * those it had at the start. */
  lemma UnvisitedIntact(fs0: Fs, own0: Own, fs: Fs, own: Own, db: nat, d: nat, lo: nat, i: nat)
    requires Good(fs0, own0, {}) && db in own0 && own0[db].level == 2
    requires Good(fs, own, {}) && db in own && own[db].level == 2
    requires own == MidsCut(own0, db, d, lo, i) && lo <= i < PER_BLOCK
    ensures var b := fs.Load(Entry(db, i));
            && (forall c :: c in own0 && own0[c].ptr == Entry(db, i) <==> b != 0 && c == b)
            && (b != 0 ==> b in own && own[b].level == 1 && MidSlot(own0, db, b) == i)
            && (b != 0 ==> forall c :: IsChild(own0, b, c) <==> IsChild(own, b, c))
  {
    WordIsChild(fs, own, db, i);
    Above(fs0, own0, db);
    var b := fs.Load(Entry(db, i));
    forall c | c in own0 && own0[c].ptr == Entry(db, i) ensures c in own {
      assert MidSlot(own0, db, c) == i;
    }
    if b != 0 {
      Hop(fs, own, Entry(db, i));
      forall c | IsChild(own0, b, c) ensures IsChild(own, b, c) {
        assert MidSlot(own0, db, c) == i;
      }
    }
  }

  lemma MidsCutStep(fs0: Fs, own0: Own, fs: Fs, own: Own, db: nat, d: nat, lo: nat, i: nat)
    requires Good(fs0, own0, {}) && db in own0 && own0[db].level == 2
    requires Good(fs, own, {}) && db in own && own[db].level == 2
    requires own == MidsCut(own0, db, d, lo, i) && lo <= i < PER_BLOCK
    ensures var b := fs.Load(Entry(db, i));
            MidsCut(own0, db, d, lo, i + 1) == if b == 0 then own else AfterIndirect(own, b, IndStart(d, DindOffset(i)))
  {
    var b, s := fs.Load(Entry(db, i)), IndStart(d, DindOffset(i));
    UnvisitedIntact(fs0, own0, fs, own, db, d, lo, i);
    assert b != 0 ==> (Barren(own0, b, s) <==> Barren(own, b, s));
    var result := if b == 0 then own else AfterIndirect(own, b, s);
    forall c | c in own0 ensures c in MidsCut(own0, db, d, lo, i + 1) <==> c in result {
      MidsCutAt(fs0, own0, own, db, d, lo, i, b, c);
    }
  }

  lemma MidsCutAt(fs0: Fs, own0: Own, own: Own, db: nat, d: nat, lo: nat, i: nat, b: nat, c: nat)
    requires Good(fs0, own0, {}) && db in own0 && c in own0
    requires own == MidsCut(own0, db, d, lo, i) && lo <= i < PER_BLOCK
    requires forall x :: x in own0 && own0[x].ptr == Entry(db, i) <==> b != 0 && x == b
    requires b != 0 ==> b in own && MidSlot(own0, db, b) == i && b != db && own0[b].ptr == Entry(db, i)
    requires b != 0 ==> (Barren(own0, b, IndStart(d, DindOffset(i))) <==> Barren(own, b, IndStart(d, DindOffset(i))))
    ensures c in MidsCut(own0, db, d, lo, i + 1) <==>
            c in (if b == 0 then own else AfterIndirect(own, b, IndStart(d, DindOffset(i))))
  {
    assert OwnsRight(fs0, own0, c);
    if MidSlot(own0, db, c) == i {
      assert c == b || IsChild(own0, b, c);
    }
  }

  /** One round of V1_trunc_dindirect. */
  method ClearMid(v: Volume, ino: nat, db: nat, i: nat, ghost lo: nat, ghost fs0: Fs, ghost own0: Own)
    requires v.Valid() && v.HasFile(ino) && db in v.own && v.own[db].level == 2 && v.own[db].ino == ino
    requires Good(fs0, own0, {}) && lo <= i < PER_BLOCK
    requires Shrunk(fs0, own0, v.View(), v.own, ino)
    requires v.own == MidsCut(own0, db, Low(v.inodes[ino].size), lo, i)
    modifies v
    ensures v.Valid() && v.HasFile(ino) && db in v.own && v.own[db] == old(v.own[db])
    ensures Shrunk(fs0, own0, v.View(), v.own, ino)
    ensures v.own == MidsCut(own0, db, Low(old(v.inodes[ino].size)), lo, i + 1)
  {
    ghost var fs, own := v.View(), v.own;
    MidsCutStep(fs0, own0, fs, own, db, Low(v.inodes[ino].size), lo, i);
    TruncIndirect(v, ino, DindOffset(i), Entry(db, i));
    ShrunkTwice(fs0, own0, fs, own, v.View(), v.own, ino);
    assert fs.Load(Entry(db, i)) != 0 ==> own[fs.Load(Entry(db, i))].level == 1 by {
      if fs.Load(Entry(db, i)) != 0 { Hop(fs, own, Entry(db, i)); }
    }
    Above(fs, own, db);
  }

  /** V1_trunc_dindirect on the block named by i_zone[8]. */
  method TruncDindirect(v: Volume, ino: nat)
    requires v.Valid() && v.HasFile(ino) && Low(v.inodes[ino].size) < 0x8000
    modifies v
    ensures v.Valid() && v.HasFile(ino) && Shrunk(old(v.View()), old(v.own), v.View(), v.own, ino)
    ensures var db := old(v.View().Load(Zone(ino, DIND)));
            v.own == if db == 0 then old(v.own) else AfterDindirect(old(v.own), db, Low(old(v.inodes[ino].size)))
  {
    ghost var fs0, own0 := v.View(), v.own;
    var p := Zone(ino, DIND);
    var db := v.View().Load(p);
    if db == 0 { return; }
    Hop(v.View(), v.own, p);
    ghost var d := Low(v.inodes[ino].size);
    var lo := DindStart(Low(v.inodes[ino].size));
    var i := lo;
    assert MidsCut(own0, db, d, lo, lo) == own0;
    while i < PER_BLOCK
      invariant lo <= i <= PER_BLOCK
      invariant v.Valid() && v.HasFile(ino) && db in v.own && v.own[db] == own0[db]
      invariant Shrunk(fs0, own0, v.View(), v.own, ino)
      invariant v.own == MidsCut(own0, db, d, lo, i)
    {
      ClearMid(v, ino, db, i, lo, fs0, own0);
      i := i + 1;
    }
    Above(v.View(), v.own, db);
    var empty := AllZero(v, db);
    if empty {
      ghost var fs, own := v.View(), v.own;
      Drop(v, p, ino);
      ShrunkTwice(fs0, own0, fs, own, v.View(), v.own, ino);
    }
  }

  // ---------------------------------------------------------------- the three scans together

  /** The file blocks minix_truncate takes for a size of d blocks, as its 16-bit arithmetic has it. */
  predicate Erased(d: nat, n: nat) {
    if n < DIRECT then d <= n
    else if n < IND_END then IndStart(d, DIRECT) <= n - DIRECT
    else
      var k := (n - IND_END) / PER_BLOCK;
      DindStart(d) <= k && IndStart(d, DindOffset(k)) <= (n - IND_END) % PER_BLOCK
  }

  /** The index blocks minix_truncate looks at: all but those wholly below the double-indirect start. */
  predicate Visited(d: nat, o: Owner) {
    o.level == 1 && o.base >= IND_END ==> DindStart(d) <= (o.base - IND_END) / PER_BLOCK
  }

  lemma DirectFate(fs: Fs, own: Own, ino: nat, d: nat, c: nat)
    requires Good(fs, own, {}) && c in own && own[c].level == 0
    ensures c in ZonesCut(own, ino, d, IND) <==> !(own[c].ino == ino && d <= own[c].base < DIRECT)
  {
    OwnedBmap(fs, own, c);
    Above(fs, own, c);
    if own[c].base < DIRECT { Hop(fs, own, Zone(own[c].ino, own[c].base)); }
  }

  ghost function IndirectStage(fs: Fs, own: Own, ino: nat, d: nat): Own {
    var t := fs.Load(Zone(ino, IND));
    if t == 0 then own else AfterIndirect(own, t, IndStart(d, DIRECT))
  }

  lemma IndirectFate(fs: Fs, own: Own, ino: nat, d: nat, c: nat)
    requires Good(fs, own, {}) && Live(fs, own, Zone(ino, IND)) && c in own && own[c].level == 0
    ensures c in IndirectStage(fs, own, ino, d) <==>
            !(own[c].ino == ino && DIRECT <= own[c].base < IND_END && IndStart(d, DIRECT) <= own[c].base - DIRECT)
  {
    var t := fs.Load(Zone(ino, IND));
    if t != 0 { Hop(fs, own, Zone(ino, IND)); }
    OwnedBmap(fs, own, c);
    Above(fs, own, c);
    if own[c].ino == ino && DIRECT <= own[c].base < IND_END {
      WordIsChild(fs, own, t, own[c].base - DIRECT);
    }
  }

  ghost function DindirectStage(fs: Fs, own: Own, ino: nat, d: nat): Own {
    var u := fs.Load(Zone(ino, DIND));
    if u == 0 then own else AfterDindirect(own, u, d)
  }

  lemma DindirectFate(fs: Fs, own: Own, ino: nat, d: nat, c: nat)
    requires Good(fs, own, {}) && Live(fs, own, Zone(ino, DIND)) && c in own && own[c].level == 0
    ensures c in DindirectStage(fs, own, ino, d) <==>
              !(own[c].ino == ino && IND_END <= own[c].base && Erased(d, own[c].base))
  {
    if own[c].ino == ino && IND_END <= own[c].base {
      UnderDindFate(fs, own, ino, d, c);
    } else {
      ElsewhereFate(fs, own, ino, d, c);
    }
  }

  lemma UnderDindFate(fs: Fs, own: Own, ino: nat, d: nat, c: nat)
    requires Good(fs, own, {}) && Live(fs, own, Zone(ino, DIND)) && c in own && own[c].level == 0
    requires own[c].ino == ino && IND_END <= own[c].base
    ensures c in DindirectStage(fs, own, ino, d) <==> !Erased(d, own[c].base)
  {
    var u := fs.Load(Zone(ino, DIND));
    if u != 0 { Hop(fs, own, Zone(ino, DIND)); }
    OwnedBmap(fs, own, c);
    Above(fs, own, c);
    var k, i := (own[c].base - IND_END) / PER_BLOCK, (own[c].base - IND_END) % PER_BLOCK;
    var m := Mid(fs, ino, k);
    Hop(fs, own, Entry(u, k));
    WordIsChild(fs, own, m, i);
    assert MidSlot(own, u, c) == k && own[c].ptr.idx == i;
  }

  lemma ElsewhereFate(fs: Fs, own: Own, ino: nat, d: nat, c: nat)
    requires Good(fs, own, {}) && Live(fs, own, Zone(ino, DIND)) && c in own && own[c].level == 0
    requires own[c].ino != ino || own[c].base < IND_END
    ensures c in DindirectStage(fs, own, ino, d)
  {
    var u := fs.Load(Zone(ino, DIND));
    if u != 0 { Hop(fs, own, Zone(ino, DIND)); }
    Above(fs, own, c);
    if u != 0 && MidSlot(own, u, c) >= 0 { Above(fs, own, own[c].ptr.blk); }
  }

  /** An index block falls with the scan that reaches it: exactly when it is looked at and every block
    * hanging on it has fallen. */
  ghost predicate FallsWhenEmpty(own: Own, own': Own, ino: nat, d: nat, b: nat) {
    b in own && own[b].ino == ino && own[b].level > 0 ==>
      (b !in own' <==> Visited(d, own[b]) && forall c :: IsChild(own, b, c) ==> c !in own')
  }

  /** A block and all that hangs on it come through a scan. */
  ghost predicate Untouched(own: Own, own': Own, b: nat) {
    b in own && b in own' && forall c :: IsChild(own, b, c) ==> c in own'
  }

  lemma IndirectIndex(fs: Fs, own: Own, ino: nat, d: nat, b: nat)
    requires Good(fs, own, {}) && Live(fs, own, Zone(ino, IND)) && b in own && own[b].ino == ino && own[b].level > 0
    ensures own[b].ptr == Zone(ino, IND) ==> FallsWhenEmpty(own, IndirectStage(fs, own, ino, d), ino, d, b)
    ensures own[b].ptr != Zone(ino, IND) ==> Untouched(own, IndirectStage(fs, own, ino, d), b)
  {
    var t := fs.Load(Zone(ino, IND));
    if t != 0 { Hop(fs, own, Zone(ino, IND)); }
    Above(fs, own, b);
    forall c | IsChild(own, b, c) ensures own[c].ptr.idx < PER_BLOCK { Above(fs, own, c); }
    var own' := IndirectStage(fs, own, ino, d);
    if b != t {
      forall c | IsChild(own, b, c) ensures c in own' { }
    }
  }

  lemma DindirectIndex(fs: Fs, own: Own, ino: nat, d: nat, b: nat)
    requires Good(fs, own, {}) && Live(fs, own, Zone(ino, DIND)) && b in own && own[b].ino == ino && own[b].level > 0
    ensures own[b].ptr == Zone(ino, IND) ==> Untouched(own, DindirectStage(fs, own, ino, d), b)
    ensures own[b].ptr != Zone(ino, IND) ==> FallsWhenEmpty(own, DindirectStage(fs, own, ino, d), ino, d, b)
  {
    var u := fs.Load(Zone(ino, DIND));
    if u != 0 { Hop(fs, own, Zone(ino, DIND)); }
    Above(fs, own, b);
    if own[b].level == 2 {
      TopFate(fs, own, ino, d, b);
    } else if own[b].ptr.Entry? {
      Above(fs, own, own[b].ptr.blk);
      MidFate(fs, own, u, ino, d, b);
    }
  }

  lemma TopFate(fs: Fs, own: Own, ino: nat, d: nat, u: nat)
    requires Good(fs, own, {}) && u == fs.Load(Zone(ino, DIND)) != 0
    requires u in own && own[u].ptr == Zone(ino, DIND) && own[u].level == 2
    ensures FallsWhenEmpty(own, DindirectStage(fs, own, ino, d), ino, d, u)
  {
    var mids := MidsCut(own, u, d, DindStart(d), PER_BLOCK);
    assert u in mids;
    forall c ensures IsChild(mids, u, c) <==> IsChild(own, u, c) && c in mids { }
  }

  lemma MidFate(fs: Fs, own: Own, u: nat, ino: nat, d: nat, b: nat)
    requires Good(fs, own, {}) && u == fs.Load(Zone(ino, DIND)) != 0
    requires u in own && own[u].ptr == Zone(ino, DIND) && own[u].level == 2 && own[u].base == IND_END
    requires b in own && own[b].ino == ino && own[b].level == 1 && own[b].ptr.Entry? && own[b].ptr.blk == u
    ensures FallsWhenEmpty(own, DindirectStage(fs, own, ino, d), ino, d, b)
  {
    Above(fs, own, b);
    var k := own[b].ptr.idx;
    Split(k, 0);
    var own' := DindirectStage(fs, own, ino, d);
    assert b in own' <==> !(DindStart(d) <= k && Barren(own, b, IndStart(d, DindOffset(k))));
    forall c | IsChild(own, b, c)
      ensures c in own' <==> !(DindStart(d) <= k && IndStart(d, DindOffset(k)) <= own[c].ptr.idx)
    {
      Above(fs, own, c);
      assert MidSlot(own, u, c) == k;
    }
  }

  lemma IndexFate(fs0: Fs, own0: Own, fs1: Fs, own1: Own, fs2: Fs, own2: Own, ino: nat, d: nat, b: nat)
    requires Good(fs0, own0, {}) && Good(fs1, own1, {}) && Good(fs2, own2, {})
    requires Live(fs1, own1, Zone(ino, IND)) && Live(fs2, own2, Zone(ino, DIND))
    requires own1 == ZonesCut(own0, ino, d, IND) && own2 == IndirectStage(fs1, own1, ino, d)
    requires b in own0 && own0[b].ino == ino && own0[b].level > 0
    ensures FallsWhenEmpty(own0, DindirectStage(fs2, own2, ino, d), ino, d, b)
  {
    Above(fs0, own0, b);
    assert forall c :: IsChild(own0, b, c) <==> IsChild(own1, b, c);
    IndirectIndex(fs1, own1, ino, d, b);
    if b in own2 { DindirectIndex(fs2, own2, ino, d, b); }
  }

  /** What minix_truncate does to a file when its scans start at block d. */
  ghost predicate Cut(fs: Fs, own: Own, fs': Fs, own': Own, ino: nat, d: nat) {
    && Shrunk(fs, own, fs', own', ino)
    && (forall c :: c in own && own[c].ino == ino && own[c].level == 0 ==> (c in own' <==> !Erased(d, own[c].base)))
    && (forall b :: FallsWhenEmpty(own, own', ino, d, b))
  }

  /** What minix_truncate leaves. A scan that strays or repeats is not followed any further. */
  ghost predicate Truncated(fs: Fs, own: Own, fs': Fs, own': Own, ino: nat, r: Scan) {
    && ino < |fs.inodes| && r == ScanOf(fs.inodes[ino])
    && if r.Scanned? then Cut(fs, own, fs', own', ino, Low(fs.inodes[ino].size)) else fs' == fs && own' == own
  }

  /** minix_truncate: the three scans. Inodes that are not files, directories or links are left alone. */
  method Truncate(v: Volume, ino: nat) returns (r: Scan)
    requires v.Valid() && ino < |v.inodes|
    modifies v
    ensures v.Valid()
    ensures !old(v.HasFile(ino)) ==> r.Scanned? && v.View() == old(v.View())
    ensures old(v.HasFile(ino)) ==>
              v.HasFile(ino) && Truncated(old(v.View()), old(v.own), v.View(), v.own, ino, r)
  {
    if !v.inodes[ino].Mapped() { return Scanned; }
    ghost var d, fs0, own0 := Low(v.inodes[ino].size), v.View(), v.own;
    r := TruncDirect(v, ino);
    if r != Scanned { return; }
    ghost var fs1, own1 := v.View(), v.own;
    TruncIndirect(v, ino, DIRECT, Zone(ino, IND));
    ghost var fs2, own2 := v.View(), v.own;
    ShrunkTwice(fs0, own0, fs1, own1, fs2, own2, ino);
    TruncDindirect(v, ino);
    ShrunkTwice(fs0, own0, fs2, own2, v.View(), v.own, ino);
    CutStages(fs0, own0, fs1, own1, fs2, own2, v.View(), v.own, ino, d);
  }

  lemma DataFate(fs0: Fs, own0: Own, fs1: Fs, own1: Own, fs2: Fs, own2: Own, ino: nat, d: nat, c: nat)
    requires Good(fs0, own0, {}) && Good(fs1, own1, {}) && Good(fs2, own2, {})
    requires Live(fs1, own1, Zone(ino, IND)) && Live(fs2, own2, Zone(ino, DIND))
    requires own1 == ZonesCut(own0, ino, d, IND) && own2 == IndirectStage(fs1, own1, ino, d)
    requires c in own0 && own0[c].ino == ino && own0[c].level == 0
    ensures c in DindirectStage(fs2, own2, ino, d) <==> !Erased(d, own0[c].base)
  {
    OwnedBmap(fs0, own0, c);
    DirectFate(fs0, own0, ino, d, c);
    if c in own1 { IndirectFate(fs1, own1, ino, d, c); }
    if c in own2 { DindirectFate(fs2, own2, ino, d, c); }
  }

  lemma CutStages(fs0: Fs, own0: Own, fs1: Fs, own1: Own, fs2: Fs, own2: Own, fs3: Fs, own3: Own, ino: nat, d: nat)
    requires Good(fs0, own0, {}) && Good(fs1, own1, {}) && Good(fs2, own2, {})
    requires Live(fs1, own1, Zone(ino, IND)) && Live(fs2, own2, Zone(ino, DIND))
    requires own1 == ZonesCut(own0, ino, d, IND) && own2 == IndirectStage(fs1, own1, ino, d)
    requires own3 == DindirectStage(fs2, own2, ino, d) && Shrunk(fs0, own0, fs3, own3, ino)
    ensures Cut(fs0, own0, fs3, own3, ino, d)
  {
    forall c | c in own0 && own0[c].ino == ino && own0[c].level == 0
      ensures c in own3 <==> !Erased(d, own0[c].base)
    {
      DataFate(fs0, own0, fs1, own1, fs2, own2, ino, d, c);
    }
    forall b ensures FallsWhenEmpty(own0, own3, ino, d, b) {
      if b in own0 && own0[b].ino == ino && own0[b].level > 0 {
        IndexFate(fs0, own0, fs1, own1, fs2, own2, ino, d, b);
      }
    }
  }

  /** The file map after truncation: what is not erased is where it was, with the same bytes. */
  lemma CutMap(fs: Fs, own: Own, fs': Fs, own': Own, ino: nat, d: nat, n: nat)
    requires Good(fs, own, {}) && Good(fs', own', {}) && Cut(fs, own, fs', own', ino, d)
    requires ino < |fs.inodes| && fs.inodes[ino].Mapped() && n < FILE_END
    ensures fs'.Bmap(ino, n) == if Erased(d, n) then 0 else fs.Bmap(ino, n)
    ensures fs'.Bmap(ino, n) != 0 ==>
              var z := fs.Bmap(ino, n); z in fs.disk && z in fs'.disk && fs'.disk[z] == fs.disk[z]
  {
    if fs'.Bmap(ino, n) != 0 {
      BmapOwned(fs', own', ino, n);
      OwnedBmap(fs, own, fs'.Bmap(ino, n));
      assert BitRight(fs, own, {}, fs'.Bmap(ino, n));
    } else if fs.Bmap(ino, n) != 0 {
      BmapOwned(fs, own, ino, n);
      if !Erased(d, n) { OwnedBmap(fs', own', fs.Bmap(ino, n)); }
    }
  }

  /** Every other file keeps its map and its bytes. */
  lemma CutSparesOthers(fs: Fs, own: Own, fs': Fs, own': Own, ino: nat, jno: nat, n: nat)
    requires Good(fs, own, {}) && Good(fs', own', {}) && Shrunk(fs, own, fs', own', ino)
    requires jno != ino && jno < |fs.inodes| && fs.inodes[jno].Mapped() && n < FILE_END
    ensures fs'.Bmap(jno, n) == fs.Bmap(jno, n)
    ensures var z := fs.Bmap(jno, n); z != 0 ==> z in fs.disk && z in fs'.disk && fs'.disk[z] == fs.disk[z]
  {
    SameOwnersSameMap(fs, own, fs', own', jno, n);
    if fs.Bmap(jno, n) != 0 {
      BmapOwned(fs, own, jno, n);
      assert BitRight(fs, own, {}, fs.Bmap(jno, n));
    }
  }

  // ---------------------------------------------------------------- what 16-bit arithmetic costs

  /** The first file block of the index block that covers file block n. */
  function CoverStart(n: nat): nat
    requires n >= IND_END
  {
    IND_END + (n - IND_END) / PER_BLOCK * PER_BLOCK
  }

  /** A block at or past the new end that lies in an index block starting more than 32768 blocks
    * further on: the subtraction in INDIRECT_BLOCK wraps and skips it. */
  predicate OutOfReach(d: nat, n: nat) {
    d <= n && n >= IND_END && CoverStart(n) - d > 0x8000
  }

  lemma ErasedExactly(d: nat, n: nat)
    requires d < 0x8000 && n < 0x1_0000
    ensures Erased(d, n) <==> d <= n && !OutOfReach(d, n)
  {
    if n >= IND_END {
      var k, i := (n - IND_END) / PER_BLOCK, (n - IND_END) % PER_BLOCK;
      assert n == IND_END + k * PER_BLOCK + i && CoverStart(n) == IND_END + k * PER_BLOCK;
      StartOf(d, k);
    }
  }

  lemma StartOf(d: nat, k: nat)
    requires d < 0x8000 && k < 127
    ensures var off := IND_END + k * PER_BLOCK;
            IndStart(d, DindOffset(k)) == if off - d <= 0x8000 then AtLeast0(d - off) else d - off + 0x1_0000
    ensures DindStart(d) <= k <==> d < IND_END + (k + 1) * PER_BLOCK
  {
    var off := IND_END + k * PER_BLOCK;
    var o := DindOffset(k);
    assert o == off || o == off - 0x1_0000;
    assert d - o == d - off || d - o == d - off + 0x1_0000;
    assert DindStart(d) == AtLeast0((d - IND_END) / PER_BLOCK);
    FloorBelow(d - IND_END, k);
  }

  lemma FloorBelow(x: int, k: nat)
    ensures x / PER_BLOCK <= k <==> x < (k + 1) * PER_BLOCK
  {
  }

  /** What a size asks for: every block with a byte below it stays mapped as it was, every other is unmapped. */
  ghost predicate CutAt(fs: Fs, fs': Fs, ino: nat, size: nat) {
    forall n :: 0 <= n < 0x1_0000 ==> fs'.Bmap(ino, n) == if BLOCK_SIZE * n < size then fs.Bmap(ino, n) else 0
  }

  /** What the scans start at and what they should start at agree on the blocks the file has. */
  ghost predicate InReach(fs: Fs, ino: nat, size: nat) {
    && Low(size) < 0x8000
    && forall n :: 0 <= n < 0x1_0000 && fs.Bmap(ino, n) != 0 ==>
         (size <= BLOCK_SIZE * n <==> Low(size) <= n && !OutOfReach(Low(size), n))
  }

  /** DIRECT_BLOCK rounds up, until the sum wraps. */
  lemma RoundsUp(size: nat, n: nat)
    requires size < 0x1_0000_0000
    ensures size <= 0xffff_fc00 ==> (DirectBlock(size) <= n <==> size <= BLOCK_SIZE * n)
    ensures size > 0xffff_fc00 ==> DirectBlock(size) == 0
  {}

  /** For every size, minix_truncate ends and cuts the file at that size exactly when the low half of the
    * block count is not negative and selects, of the blocks the file has, those that lie past the size. */
  lemma TruncateCorrectIff(fs: Fs, own: Own, fs': Fs, own': Own, ino: nat, r: Scan)
    requires Good(fs, own, {}) && Good(fs', own', {}) && Truncated(fs, own, fs', own', ino, r)
    requires ino < |fs.inodes| && fs.inodes[ino].Mapped() && fs.inodes[ino].size < 0x1_0000_0000
    ensures r.Scanned? && CutAt(fs, fs', ino, fs.inodes[ino].size) <==> InReach(fs, ino, fs.inodes[ino].size)
  {
    var size := fs.inodes[ino].size;
    var d := Low(size);
    match r {
      case Strays =>
      case Repeats =>
        var i :| d <= i < IND && i < |fs.inodes[ino].zones| && fs.inodes[ino].zones[i] != 0;
        assert fs.Bmap(ino, i) != 0;
      case Scanned =>
        forall n | 0 <= n < 0x1_0000
          ensures fs'.Bmap(ino, n) == (if BLOCK_SIZE * n < size then fs.Bmap(ino, n) else 0) <==>
                  fs.Bmap(ino, n) == 0 || (size <= BLOCK_SIZE * n <==> d <= n && !OutOfReach(d, n))
        {
          CutMap(fs, own, fs', own', ino, d, n);
          ErasedExactly(d, n);
        }
    }
  }

  /** By size: up to 32768 blocks less one, exactly when no mapped block is out of reach; below 65536 blocks, never;
    * from there on, exactly when the low half is not negative and every mapped block is below it or out of its reach;
    * and within 1023 bytes of 4 GB, where the sum wraps to 0, exactly when every mapped block is out of reach of 0. */
  lemma InReachBySize(fs: Fs, ino: nat, size: nat)
    requires size < 0x1_0000_0000
    ensures size <= 0x7fff * BLOCK_SIZE ==>
              (InReach(fs, ino, size)
               <==> forall n :: 0 <= n < 0x1_0000 && fs.Bmap(ino, n) != 0 ==> !OutOfReach(DirectBlock(size), n))
    ensures 0x7fff * BLOCK_SIZE < size <= 0xffff * BLOCK_SIZE ==> !InReach(fs, ino, size)
    ensures 0xffff * BLOCK_SIZE < size ==>
              (InReach(fs, ino, size) <==>
               Low(size) < 0x8000 && forall n :: 0 <= n < 0x1_0000 && fs.Bmap(ino, n) != 0 ==>
                 n < Low(size) || OutOfReach(Low(size), n))
    ensures 0xffff_fc00 < size ==> Low(size) == 0
  {
    forall n: nat ensures size <= 0xffff_fc00 ==> (DirectBlock(size) <= n <==> size <= BLOCK_SIZE * n) {
      RoundsUp(size, n);
    }
  }

  /** A file confined to its first 32767 blocks is always cut exactly. */
  lemma TruncateWithinBound(fs: Fs, own: Own, fs': Fs, own': Own, ino: nat, d: nat)
    requires Good(fs, own, {}) && Good(fs', own', {}) && Cut(fs, own, fs', own', ino, d) && d < 0x8000
    requires ino < |fs.inodes| && fs.inodes[ino].Mapped()
    requires forall n :: 0x7fff <= n < FILE_END ==> fs.Bmap(ino, n) == 0
    ensures forall n :: 0 <= n < FILE_END ==> fs'.Bmap(ino, n) == if n < d then fs.Bmap(ino, n) else 0
  {
    forall n | 0 <= n < FILE_END ensures fs'.Bmap(ino, n) == if n < d then fs.Bmap(ino, n) else 0 {
      CutMap(fs, own, fs', own', ino, d, n);
      if n < 0x7fff { ErasedExactly(d, n); }
    }
  }

  /** The bound is needed: cutting to nothing, block 32775, the first one under word 63 of the
    * double-indirect block, is out of reach, and no earlier block is. */
  lemma FirstOutOfReach()
    ensures OutOfReach(0, 32775)
    ensures forall n :: 0 <= n < 32775 ==> !OutOfReach(0, n)
  {
    assert CoverStart(32775) == IND_END + 63 * PER_BLOCK;
    forall n | IND_END <= n < 32775 ensures CoverStart(n) <= 0x8000 { assert (n - IND_END) / PER_BLOCK < 63; }
  }

  /** No block hangs on an index block any more: all 512 of its words are zero. */
  ghost predicate Childless(own: Own, own': Own, b: nat) {
    forall c :: IsChild(own, b, c) ==> c !in own'
  }

  /** A block under the double-indirect block whose 512 file blocks all lie below the cut. */
  predicate WhollyBelow(d: nat, o: Owner) { o.level == 1 && o.base >= IND_END && o.base + PER_BLOCK <= d }

  /** An index block is freed exactly when its words are all zero afterwards - except one that had none in use
    * before and lies wholly below the cut: no scan looks at that, and it stays allocated. */
  lemma IndexFreedIff(fs: Fs, own: Own, fs': Fs, own': Own, ino: nat, d: nat, b: nat)
    requires Good(fs, own, {}) && Cut(fs, own, fs', own', ino, d) && d < 0x8000
    requires b in own && own[b].ino == ino && own[b].level > 0
    ensures (b !in own' <==> Childless(own, own', b)) <==>
              !((forall c :: !IsChild(own, b, c)) && WhollyBelow(d, own[b]))
  {
    assert FallsWhenEmpty(own, own', ino, d, b);
    Above(fs, own, b);
    if own[b].level == 1 && own[b].base >= IND_END {
      var k := (own[b].base - IND_END) / PER_BLOCK;
      assert own[b].base == IND_END + PER_BLOCK * k by { MidBase(fs, own, b); }
    }
    if WhollyBelow(d, own[b]) {
      forall c | IsChild(own, b, c) ensures c in own' { BelowStays(fs, own, fs', own', ino, d, b, c); }
    }
  }

  /** What hangs on a block wholly below the cut stays. */
  lemma BelowStays(fs: Fs, own: Own, fs': Fs, own': Own, ino: nat, d: nat, b: nat, c: nat)
    requires Good(fs, own, {}) && Cut(fs, own, fs', own', ino, d) && d < 0x8000
    requires b in own && own[b].ino == ino && WhollyBelow(d, own[b]) && IsChild(own, b, c)
    ensures c in own'
  {
    assert OwnsRight(fs, own, c);
    assert own[c] == OwnerAt(own, own[c].ptr) && own[c].base == own[b].base + own[c].ptr.idx * Span(0);
    ErasedExactly(d, own[c].base);
  }

  lemma MidBase(fs: Fs, own: Own, b: nat)
    requires Good(fs, own, {}) && b in own && own[b].level == 1 && own[b].base >= IND_END
    ensures (own[b].base - IND_END) % PER_BLOCK == 0
  {
    assert OwnsRight(fs, own, b);
    Above(fs, own, b);
    var p := own[b].ptr;
    assert p.Entry?;
    Above(fs, own, p.blk);
    assert own[p.blk].level == 2 && own[p.blk].base == IND_END;
    assert own[b].base == IND_END + p.idx * Span(1) == IND_END + p.idx * PER_BLOCK;
  }

  // ---------------------------------------------------------------- runs

  datatype Op = Lookup(ino: nat, n: nat, create: bool) | Resize(ino: nat, size: nat)

  predicate Applies(inodes: nat, op: Op) {
    op.ino < inodes && match op
                       case Lookup(_, n, _) => n < 0x1_0000
                       case Resize(_, size) => size < 0x1_0000_0000
  }

  /** A volume and the owners of its blocks at one time. */
  datatype Vol = Vol(fs: Fs, own: Own)

  ghost predicate HasFile(fs: Fs, ino: nat) { ino < |fs.inodes| && fs.inodes[ino].Mapped() }

  ghost function Sized(fs: Fs, ino: nat, size: nat): Fs
    requires ino < |fs.inodes|
  {
    fs.(inodes := fs.inodes[ino := fs.inodes[ino].(size := size)])
  }

  /** No data zone is free. */
  ghost predicate Full(fs: Fs) {
    fs.nzones - fs.firstData < |fs.zmap| && forall b :: fs.InRange(b) ==> fs.Bit(b)
  }

  /** What an operation does: a lookup grows the file towards its block, and has the block afterwards if it was to
    * create it and the volume is not full; a truncation cuts the file of the new size. */
  ghost predicate Did(a: Vol, op: Op, z: Vol) {
    match op
    case Lookup(ino, n, create) =>
      && (!create || !HasFile(a.fs, ino) ==> z == a)
      && (HasFile(a.fs, ino) ==> Grown(a.fs, a.own, z.fs, z.own, ino, n))
      && (HasFile(a.fs, ino) && create ==> z.fs.Bmap(ino, n) != 0 || Full(z.fs))
    case Resize(ino, size) =>
      && ino < |a.fs.inodes|
      && (if HasFile(a.fs, ino) then Cut(Sized(a.fs, ino, size), a.own, z.fs, z.own, ino, Low(size))
          else z.fs == Sized(a.fs, ino, size))
  }

  /** The volumes are those before and after each of the operations. */
  ghost predicate Trace(vols: seq<Vol>, ops: seq<Op>) {
    |vols| == |ops| + 1 && forall i :: 0 <= i < |ops| ==> Did(vols[i], ops[i], vols[i + 1])
  }

  /** Any run of block lookups, creating or not, and truncations has the effects of its operations and keeps bitmap
    * and trees in agreement: a data zone's bit is set exactly when some inode reaches it, and then by one path. A
    * truncation whose scan strays or repeats ends the run where it stands. */
  method Run(v: Volume, ops: seq<Op>) returns (done: nat, ghost vols: seq<Vol>)
    requires v.Valid()
    requires forall op :: op in ops ==> Applies(|v.inodes|, op)
    modifies v
    ensures v.Valid() && |v.inodes| == old(|v.inodes|) && done <= |ops|
    ensures done < |ops| ==> ops[done].Resize? && DirectBlock(ops[done].size) >= 0x8000
    ensures Trace(vols, ops[..done]) && vols[0] == old(Vol(v.View(), v.own))
    ensures done == |ops| ==> vols[done] == Vol(v.View(), v.own)
    ensures forall b :: v.View().InRange(b) ==>
              (v.View().Bit(b) <==> exists path :: InTree(v.View(), path) && AtPath(v.View(), path) == b)
    ensures var fs := v.View();
            forall p, q :: InTree(fs, p) && InTree(fs, q) && AtPath(fs, p) == AtPath(fs, q) != 0 ==> p == q
  {
    done, vols := 0, [Vol(v.View(), v.own)];
    while done < |ops|
      invariant done <= |ops| && v.Valid() && |v.inodes| == old(|v.inodes|)
      invariant Trace(vols, ops[..done]) && vols[0] == old(Vol(v.View(), v.own)) && vols[done] == Vol(v.View(), v.own)
    {
      assert ops[done] in ops;
      var r := Step(v, ops[done]);
      if r != Scanned { break; }
      assert ops[..done + 1][..done] == ops[..done];
      vols := vols + [Vol(v.View(), v.own)];
      done := done + 1;
    }
    BitmapIsReachability(v.View(), v.own);
  }

  /** One operation of a run. Resize stores the new size and then truncates to it. */
  method Step(v: Volume, op: Op) returns (r: Scan)
    requires v.Valid() && Applies(|v.inodes|, op)
    modifies v
    ensures v.Valid() && |v.inodes| == old(|v.inodes|)
    ensures !r.Scanned? ==> op.Resize? && DirectBlock(op.size) >= 0x8000
    ensures r.Scanned? ==> Did(old(Vol(v.View(), v.own)), op, Vol(v.View(), v.own))
  {
    r := Scanned;
    match op {
      case Lookup(ino, n, create) =>
        if v.inodes[ino].Mapped() { var _ := v.Bmap(ino, n, create); }
      case Resize(ino, size) =>
        ResizeGood(v.View(), v.own, ino, size);
        v.inodes := v.inodes[ino := v.inodes[ino].(size := size)];
        assert v.View() == Sized(old(v.View()), ino, size);
        r := Truncate(v, ino);
    }
  }

  /** The size field is not part of the tree. */
  lemma ResizeGood(fs: Fs, own: Own, ino: nat, size: nat)
    requires Good(fs, own, {}) && ino < |fs.inodes|
    ensures Good(fs.(inodes := fs.inodes[ino := fs.inodes[ino].(size := size)]), own, {})
  {
    var fs' := fs.(inodes := fs.inodes[ino := fs.inodes[ino].(size := size)]);
    forall p: Ptr ensures fs'.Load(p) == fs.Load(p) && (Live(fs', own, p) <==> Live(fs, own, p)) { }
    forall b ensures BitRight(fs', own, {}, b) { assert BitRight(fs, own, {}, b); }
    forall b ensures OwnsRight(fs', own, b) { assert OwnsRight(fs, own, b); }
    forall p ensures NamesOwned(fs', own, p) { assert NamesOwned(fs, own, p); }
  }
}
