/** Volumes on which minix_truncate does less than its size asks for: the cases that Truncate.TruncateCorrectIff and
  * Truncate.IndexFreedIff set apart. */
module TruncateLimits {
  import opened Blocks
  import opened BlockTree
  import opened BlockStore
  import opened Truncate

  /** What map_izone and map_iblock do when the cell is empty and zone z is free. */
  function Hung(fs: Fs, p: Ptr, z: nat): Fs
    requires fs.firstData <= z < 0x1_0000 && z - fs.firstData + 1 < |fs.zmap|
  {
    fs.(zmap := fs.zmap[z - fs.firstData + 1 := true], disk := fs.disk[z := ZeroBlock()]).Store(p, z)
  }

  lemma HungGood(fs: Fs, own: Own, p: Ptr, z: nat)
    requires Good(fs, own, {}) && fs.InRange(z) && !fs.Bit(z) && Live(fs, own, p) && fs.Load(p) == 0
    ensures Good(Hung(fs, p, z), own[z := OwnerAt(own, p)], {}) && Hung(fs, p, z).Load(p) == z
    ensures forall q :: q != p && (q.Entry? ==> q.blk != z) ==> Hung(fs, p, z).Load(q) == fs.Load(q)
    ensures forall i: nat :: i < PER_BLOCK ==> Hung(fs, p, z).Load(Entry(z, i)) == 0
  {
    var bit := z - fs.firstData + 1;
    var taken := fs.(zmap := fs.zmap[bit := true], disk := fs.disk[z := ZeroBlock()]);
    assert BitRight(fs, own, {}, z);
    assert p.Entry? ==> BitRight(fs, own, {}, p.blk);
    TakeBit(fs, own, bit, z);
    Attach(taken, own, z, p);
    StoreHit(taken, own, p, z);
    forall q | q != p && (q.Entry? ==> q.blk != z) ensures Hung(fs, p, z).Load(q) == fs.Load(q) {
      StoreFrame(taken, p, z, q);
    }
    forall i: nat | i < PER_BLOCK ensures Hung(fs, p, z).Load(Entry(z, i)) == 0 {
      StoreFrame(taken, p, z, Entry(z, i));
    }
  }

  function FourBlocks(): map<nat, Block> { map[0 := ZeroBlock(), 1 := ZeroBlock(), 2 := ZeroBlock(), 3 := ZeroBlock()] }

  /** A volume of four blocks, one before the data, with one empty file. */
  function Small(): Fs { Empty(1, 4, 8192, FourBlocks(), [Regular]) }

  /** Zones 1 and 2 as the top and one middle index block of the file's double-indirect tree, nothing below them:
    * what a create that then finds the volume full leaves. */
  lemma Branch(k: nat) returns (fs: Fs, own: Own)
    requires k < PER_BLOCK
    ensures Good(fs, own, {}) && fs.firstData == 1 && fs.nzones == 4 && !fs.Bit(3)
    ensures |fs.inodes| == 1 && fs.inodes[0].Mapped()
    ensures fs.Load(Zone(0, DIND)) == 1 && fs.Load(Entry(1, k)) == 2
    ensures forall i: nat :: i < PER_BLOCK ==> fs.Load(Entry(2, i)) == 0
    ensures own == map[1 := Owner(Zone(0, DIND), 2, 0, IND_END), 2 := Owner(Entry(1, k), 1, 0, IND_END + k * PER_BLOCK)]
  {
    EmptyGood(1, 4, 8192, FourBlocks(), [Regular]);
    var fs0, own0: Own := Small(), map[];
    HungGood(fs0, own0, Zone(0, DIND), 1);
    var fs1, own1 := Hung(fs0, Zone(0, DIND), 1), own0[1 := OwnerAt(own0, Zone(0, DIND))];
    HungGood(fs1, own1, Entry(1, k), 2);
    fs, own := Hung(fs1, Entry(1, k), 2), own1[2 := OwnerAt(own1, Entry(1, k))];
  }

  /** A size is a field of the inode alone. */
  lemma Resized(fs: Fs, own: Own, size: nat) returns (fs': Fs)
    requires Good(fs, own, {}) && |fs.inodes| > 0
    ensures Good(fs', own, {}) && fs' == fs.(inodes := fs.inodes[0 := fs.inodes[0].(size := size)])
    ensures forall n :: fs'.Bmap(0, n) == fs.Bmap(0, n)
    ensures fs'.inodes[0].size == size && (fs'.inodes[0].Mapped() <==> fs.inodes[0].Mapped())
  {
    ResizeGood(fs, own, 0, size);
    fs' := fs.(inodes := fs.inodes[0 := fs.inodes[0].(size := size)]);
    forall p: Ptr ensures fs'.Load(p) == fs.Load(p) {}
  }

  /** One data block, the first that word k of the top index block leads to. */
  lemma OneBlock(k: nat, n: nat) returns (fs: Fs, own: Own)
    requires k < PER_BLOCK && n == IND_END + k * PER_BLOCK
    ensures Good(fs, own, {}) && |fs.inodes| == 1 && fs.inodes[0].Mapped() && fs.Bmap(0, n) == 3
  {
    var fs0, own0 := Branch(k);
    HungGood(fs0, own0, Entry(2, 0), 3);
    fs, own := Hung(fs0, Entry(2, 0), 3), own0[3 := OwnerAt(own0, Entry(2, 0))];
    Split(k, 0);
    assert fs.Load(Zone(0, DIND)) == 1 && fs.Load(Entry(1, k)) == 2 && fs.Load(Entry(2, 0)) == 3;
  }

  lemma SmallSizeCuts(fs: Fs, own: Own, fs': Fs, own': Own, ino: nat, r: Scan)
    requires Truncated(fs, own, fs', own', ino, r) && DirectBlock(fs.inodes[ino].size) < 0x8000
    ensures r.Scanned? && Cut(fs, own, fs', own', ino, DirectBlock(fs.inodes[ino].size))
  {}

  /** A mapped block out of reach of the cut survives it, wherever the cut is. */
  lemma FarStays(fs: Fs, own: Own, fs': Fs, own': Own, ino: nat, r: Scan, n: nat)
    requires Good(fs, own, {}) && Good(fs', own', {}) && Truncated(fs, own, fs', own', ino, r)
    requires fs.inodes[ino].Mapped() && DirectBlock(fs.inodes[ino].size) < 0x8000
    requires n < 0x1_0000 && OutOfReach(DirectBlock(fs.inodes[ino].size), n)
    ensures r.Scanned? && fs'.Bmap(ino, n) == fs.Bmap(ino, n)
  {
    SmallSizeCuts(fs, own, fs', own', ino, r);
    CutMap(fs, own, fs', own', ino, DirectBlock(fs.inodes[ino].size), n);
    ErasedExactly(DirectBlock(fs.inodes[ino].size), n);
  }

  /** Any truncation of file 0 of fs ends and leaves block n where it is. */
  ghost predicate Leaves(fs: Fs, own: Own, n: nat) {
    forall fs', own', r :: Good(fs', own', {}) && Truncated(fs, own, fs', own', 0, r) ==>
      r.Scanned? && fs'.Bmap(0, n) == fs.Bmap(0, n)
  }

  lemma FarLeft(fs: Fs, own: Own, n: nat)
    requires Good(fs, own, {}) && |fs.inodes| == 1 && fs.inodes[0].Mapped() && fs.inodes[0].size == 0
    requires n < 0x1_0000 && OutOfReach(0, n)
    ensures Leaves(fs, own, n)
  {
    forall fs', own', r | Good(fs', own', {}) && Truncated(fs, own, fs', own', 0, r)
      ensures r.Scanned? && fs'.Bmap(0, n) == fs.Bmap(0, n)
    {
      FarStays(fs, own, fs', own', 0, r, n);
    }
  }

  /** Truncating to nothing a file whose one block is 32775 leaves that block where it is. */
  lemma BlockLeftBehind() returns (fs: Fs, own: Own, n: nat)
    ensures Good(fs, own, {}) && |fs.inodes| == 1 && fs.inodes[0].size == 0
    ensures n == 32775 && fs.Bmap(0, n) == 3 && Leaves(fs, own, n)
  {
    n := 32775;
    var fs0;
    fs0, own := OneBlock(63, n);
    fs := Resized(fs0, own, 0);
    FirstOutOfReach();
    FarLeft(fs, own, n);
  }

  lemma EmptyStays(fs: Fs, own: Own, fs': Fs, own': Own, d: nat, b: nat)
    requires Good(fs, own, {}) && Cut(fs, own, fs', own', 0, d) && d < 0x8000
    requires b in own && own[b].ino == 0 && WhollyBelow(d, own[b]) && forall c :: !IsChild(own, b, c)
    ensures b in own'
  {
    IndexFreedIff(fs, own, fs', own', 0, d, b);
  }

  /** A file whose double-indirect tree has a middle block with nothing below it, cut at the end of what that block
    * covers: the block has no word in use, and stays. */
  lemma EmptyIndexKept() returns (fs: Fs, own: Own)
    ensures Good(fs, own, {}) && |fs.inodes| == 1 && DirectBlock(fs.inodes[0].size) == 1031
    ensures 2 in own && own[2].level == 1 && forall c :: !IsChild(own, 2, c)
    ensures forall fs', own', r :: Good(fs', own', {}) && Truncated(fs, own, fs', own', 0, r) ==> 2 in own'
  {
    var fs0;
    fs0, own := Branch(0);
    fs := Resized(fs0, own, 1031 * 1024);
    forall fs', own', r | Good(fs', own', {}) && Truncated(fs, own, fs', own', 0, r) ensures 2 in own' {
      SmallSizeCuts(fs, own, fs', own', 0, r);
      EmptyStays(fs, own, fs', own', 1031, 2);
    }
  }

  /** Lengthening an empty file to 32 MB strays, and one with a block at its start to 64 MB repeats. */
  lemma LargeSizes(fs: Fs, own: Own, fs': Fs, own': Own, r: Scan)
    requires Good(fs, own, {}) && Good(fs', own', {}) && |fs.inodes| > 0 && fs.inodes[0].Mapped()
    requires Truncated(fs, own, fs', own', 0, r)
    ensures fs.inodes[0].size == 0x200_0000 ==> r.Strays?
    ensures fs.inodes[0].size == 0x400_0000 && fs.Bmap(0, 0) != 0 ==> r.Repeats?
  {
    assert |fs.inodes[0].zones| == 9;
  }
}
