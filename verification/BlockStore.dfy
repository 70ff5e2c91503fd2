/** The block allocator and the block map of a mounted Minix V1 volume (fs/minix/bitmap.c and
  * fs/minix/inode.c), with the buffer cache seen through: a block is its current 1024 bytes. */
module BlockStore {
  import opened Blocks
  import opened BlockTree

  /** Growing the tree of one file: nothing already owned moves or changes, other files keep their
    * zones, and every new data block is zeroed and belongs to file block n. */
  ghost predicate Grown(fs: Fs, own: Own, fs': Fs, own': Own, ino: nat, n: nat) {
    && fs'.firstData == fs.firstData && fs'.nzones == fs.nzones
    && |fs'.inodes| == |fs.inodes|
    && (forall i :: 0 <= i < |fs.inodes| ==> fs'.inodes[i] == fs.inodes[i].(zones := fs'.inodes[i].zones))
    && (forall i :: 0 <= i < |fs.inodes| && i != ino ==> fs'.inodes[i] == fs.inodes[i])
    && (forall b :: b in own ==> b in own' && own'[b] == own[b])
    && (forall b :: b in own' && b !in own ==> own'[b].ino == ino)
    && (forall b :: b in own' && b !in own && own'[b].level == 0 ==>
          own'[b].base == n && b in fs'.disk && fs'.disk[b] == ZeroBlock())
    && (forall b :: b in own && own[b].level == 0 && b in fs.disk ==> b in fs'.disk && fs'.disk[b] == fs.disk[b])
  }

  /** Filling one empty cell p with the fresh block z. */
  ghost predicate Filled(fs: Fs, own: Own, fs': Fs, own': Own, p: Ptr, z: nat) {
    && Live(fs, own, p) && fs.Load(p) == 0
    && 0 < z < 0x1_0000 && z !in own
    && own' == own[z := OwnerAt(own, p)]
    && fs' == fs.(disk := fs.disk[z := ZeroBlock()]).Store(p, z).(zmap := fs'.zmap)
  }

  lemma FilledGrows(fs: Fs, own: Own, fs': Fs, own': Own, p: Ptr, z: nat, ino: nat, n: nat)
    requires Good(fs, own, {}) && Good(fs', own', {}) && Filled(fs, own, fs', own', p, z)
    requires OwnerAt(own, p).ino == ino && (OwnerAt(own, p).level == 0 ==> OwnerAt(own, p).base == n)
    ensures Grown(fs, own, fs', own', ino, n)
  {
    assert BitRight(fs', own', {}, z);
  }

  lemma GrownTwice(fs: Fs, own: Own, fs1: Fs, own1: Own, fs2: Fs, own2: Own, ino: nat, n: nat)
    requires Grown(fs, own, fs1, own1, ino, n) && Grown(fs1, own1, fs2, own2, ino, n)
    ensures Grown(fs, own, fs2, own2, ino, n)
  {
  }

  /** A grown file maps every other block, of every file, as before. */
  lemma GrownMap(fs: Fs, own: Own, fs': Fs, own': Own, ino: nat, n: nat, jno: nat, m: nat)
    requires Good(fs, own, {}) && Good(fs', own', {}) && Grown(fs, own, fs', own', ino, n)
    requires jno < |fs.inodes| && fs.inodes[jno].Mapped() && m < FILE_END
    requires (jno, m) != (ino, n) || fs'.Bmap(jno, m) == 0 || fs.Bmap(jno, m) != 0
    ensures fs'.Bmap(jno, m) == fs.Bmap(jno, m)
  {
    if fs.Bmap(jno, m) != 0 {
      BmapOwned(fs, own, jno, m);
      OwnedBmap(fs', own', fs.Bmap(jno, m));
    } else if fs'.Bmap(jno, m) != 0 {
      BmapOwned(fs', own', jno, m);
      var z := fs'.Bmap(jno, m);
      assert z in own ==> own[z].level == 0 && own[z].ino == jno && own[z].base == m;
      if z in own { OwnedBmap(fs, own, z); }
    }
  }

  /** Setting a bitmap bit that belongs to no data zone. */
  lemma PadBit(fs: Fs, own: Own, bit: nat)
    requires Good(fs, own, {}) && bit < |fs.zmap| && !fs.InRange(bit + fs.firstData - 1)
    ensures Good(fs.(zmap := fs.zmap[bit := true]), own, {})
  {
    var fs' := fs.(zmap := fs.zmap[bit := true]);
    forall b ensures BitRight(fs', own, {}, b) { assert BitRight(fs, own, {}, b); }
    forall b ensures OwnsRight(fs', own, b) { assert OwnsRight(fs, own, b); }
    forall p ensures NamesOwned(fs', own, p) { assert NamesOwned(fs, own, p); }
  }

  /** Setting the bit of a free data zone and zeroing its block. */
  lemma TakeBit(fs: Fs, own: Own, bit: nat, z: nat)
    requires Good(fs, own, {}) && bit < |fs.zmap| && !fs.zmap[bit]
    requires fs.InRange(z) && bit == z - fs.firstData + 1
    ensures Good(fs.(zmap := fs.zmap[bit := true], disk := fs.disk[z := ZeroBlock()]), own, {z})
  {
    var fs' := fs.(zmap := fs.zmap[bit := true], disk := fs.disk[z := ZeroBlock()]);
    assert BitRight(fs, own, {}, z);
    forall b ensures BitRight(fs', own, {z}, b) { assert BitRight(fs, own, {}, b); }
    forall b ensures OwnsRight(fs', own, b) { assert OwnsRight(fs, own, b); }
    forall p ensures NamesOwned(fs', own, p) { assert NamesOwned(fs, own, p); }
  }

  class Volume {
    const firstData: nat
    const nzones: nat
    var zmap: seq<bool>
    var disk: map<nat, Block>
    var inodes: seq<Inode>
    ghost var own: Own

    function View(): Fs
      reads this
    {
      Fs(firstData, nzones, zmap, disk, inodes)
    }

    ghost predicate Valid()
      reads this
    {
      Good(View(), own, {})
    }

    /** A new volume with maps bitmap blocks. */
    constructor (first: nat, zones: nat, maps: nat, blocks: map<nat, Block>, kinds: seq<Kind>)
      requires forall b :: first <= b < zones ==> b in blocks
      requires 0 < first <= zones < 0x1_0000 && 0 < maps <= 8 && zones - first < 8192 * maps
      ensures Valid() && View() == Empty(first, zones, 8192 * maps, blocks, kinds)
    {
      EmptyGood(first, zones, 8192 * maps, blocks, kinds);
      var fs := Empty(first, zones, 8192 * maps, blocks, kinds);
      firstData, nzones := first, zones;
      zmap, disk, inodes, own := fs.zmap, fs.disk, fs.inodes, map[];
    }

    predicate HasFile(ino: nat)
      reads this
    {
      ino < |inodes| && inodes[ino].Mapped()
    }

    /** find_first_zero_bit over the 8192 bits of one bitmap block. */
    method FindFirstZeroBit(base: nat) returns (j: nat)
      requires base + 8192 <= |zmap|
      ensures j <= 8192
      ensures forall k :: base <= k < base + j ==> zmap[k]
      ensures j < 8192 ==> !zmap[base + j]
    {
      j := 0;
      while j < 8192
        invariant j <= 8192
        invariant forall k :: base <= k < base + j ==> zmap[k]
      {
        if !zmap[base + j] { break; }
        j := j + 1;
      }
    }

    /** The scan of minix_new_block: the first bitmap block with a zero bit, and the bit. */
    method FindFreeBit() returns (i: nat, j: nat)
      requires |zmap| % 8192 == 0 && |zmap| <= 0x1_0000
      ensures j < 8192 ==> i < 8 && i * 8192 + j < |zmap| && !zmap[i * 8192 + j]
      ensures j < 8192 ==> forall k :: 0 <= k < i * 8192 + j ==> zmap[k]
      ensures j >= 8192 ==> forall k :: 0 <= k < |zmap| ==> zmap[k]
    {
      i, j := 0, 8192;
      while i < 8
        invariant 0 <= i <= 8
        invariant j == 8192
        invariant forall k :: 0 <= k < i * 8192 && k < |zmap| ==> zmap[k]
      {
        if i * 8192 < |zmap| {
          j := FindFirstZeroBit(i * 8192);
          if j < 8192 { break; }
        }
        i := i + 1;
      }
    }

    /** minix_new_block: the lowest free zone, zeroed; 0 exactly when every data zone is taken. */
    method NewBlock() returns (z: nat)
      requires Valid()
      modifies this`zmap, this`disk
      ensures z == 0 ==> Good(View(), own, {}) && disk == old(disk)
      ensures z == 0 <==> forall b :: View().InRange(b) ==> old(View().Bit(b))
      ensures View().Shaped() && (z == 0 ==> forall b :: View().InRange(b) ==> View().Bit(b))
      ensures z != 0 ==> View().InRange(z) && Good(View(), own, {z}) && disk == old(disk)[z := ZeroBlock()]
      ensures z != 0 ==> forall b: nat :: b < z && View().InRange(b) ==> old(View().Bit(b))
    {
      var i, j := FindFreeBit();
      if j >= 8192 {
        return 0;
      }
      ghost var fs, bit := View(), i * 8192 + j;
      zmap := zmap[i * 8192 + j := true];
      z := U16(j + i * 8192 + firstData - 1);
      assert bit + firstData - 1 < 0x1_0000 ==> z == bit + firstData - 1;
      assert bit + firstData - 1 >= 0x1_0000 ==> z < firstData;
      if z < firstData || z >= nzones {
        PadBit(fs, own, bit);
        assert forall b: nat :: fs.InRange(b) ==> b - firstData + 1 < bit;
        return 0;
      }
      disk := disk[z := ZeroBlock()];
      TakeBit(fs, own, bit, z);
      assert fs.InRange(z) && !fs.Bit(z);
    }

    /** minix_free_block: clears the bit. The block's dirty flag is dropped, so its bytes are
      * unspecified from here on. A block outside the data zones is refused. */
    method FreeBlock(b: nat)
      requires View().Shaped()
      modifies this`zmap, this`disk
      ensures !View().InRange(b) ==> View() == old(View())
      ensures View().InRange(b) ==> zmap == old(zmap)[b - firstData + 1 := false]
      ensures disk.Keys == old(disk.Keys)
      ensures forall c :: c in old(disk) && c != b ==> disk[c] == old(disk[c])
    {
      if b < firstData || b >= nzones {
        return;
      }
      var junk: Block := *;
      disk := disk[b := junk];
      var zone := b - firstData + 1;
      var bit := zone % 8192;
      var mapBlock := zone / 8192;
      zmap := zmap[mapBlock * 8192 + bit := false];
    }

    /** map_izone: the block in a zone slot, allocated if asked for and missing. */
    method MapIzone(ino: nat, k: nat, create: bool, ghost n: nat) returns (z: nat)
      requires Valid() && HasFile(ino) && k < 9
      requires k < IND ==> n == k
      modifies this
      ensures Valid() && HasFile(ino) && z == View().Load(Zone(ino, k))
      ensures Grown(old(View()), old(own), View(), own, ino, n)
      ensures !create || old(View().Load(Zone(ino, k))) != 0 ==> View() == old(View()) && own == old(own)
      ensures z == 0 ==> own == old(own) && disk == old(disk) && inodes == old(inodes)
      ensures create && z == 0 ==> forall b :: View().InRange(b) ==> View().Bit(b)
    {
      ghost var p, fs, own0 := Zone(ino, k), View(), own;
      if create && inodes[ino].zones[k] == 0 {
        z := NewBlock();
        if z != 0 {
          Attach(View(), own, z, p);
          own := own[z := OwnerAt(own, p)];
        }
        assert inodes[ino].zones[k := 0] == inodes[ino].zones;
        assert inodes[ino := inodes[ino].(zones := inodes[ino].zones)] == inodes;
        inodes := inodes[ino := inodes[ino].(zones := inodes[ino].zones[k := z])];
      }
      z := inodes[ino].zones[k];
      GrowStep(fs, own0, View(), own, p, z, ino, n);
    }

    /** map_iblock: the block in word i of index block b, allocated if asked for and missing. */
    method MapIblock(b: nat, i: nat, create: bool, ghost n: nat) returns (z: nat)
      requires Valid() && Live(View(), own, Entry(b, i))
      requires own[b].level == 1 ==> n == own[b].base + i
      modifies this
      ensures Valid() && b in own && own[b] == old(own[b]) && z == View().Load(Entry(b, i))
      ensures Grown(old(View()), old(own), View(), own, own[b].ino, n)
      ensures !create || old(View().Load(Entry(b, i))) != 0 ==> View() == old(View()) && own == old(own)
      ensures z == 0 ==> own == old(own) && disk == old(disk) && inodes == old(inodes)
      ensures create && z == 0 ==> forall c :: View().InRange(c) ==> View().Bit(c)
    {
      ghost var p, fs, own0 := Entry(b, i), View(), own;
      assert BitRight(View(), own, {}, b);
      z := Word(disk[b], i);
      if create && z == 0 {
        z := NewBlock();
        if z != 0 {
          assert BitRight(View(), own, {z}, b);
          Attach(View(), own, z, p);
          own := own[z := OwnerAt(own, p)];
          disk := disk[b := SetWord(disk[b], i, z)];
        }
      }
      GrowStep(fs, own0, View(), own, p, z, own[b].ino, n);
    }

    /** The common tail of _minix_bmap: the final index block names the data block. */
    method MapLeaf(ino: nat, n: nat, b: nat, i: nat, create: bool) returns (z: nat)
      requires Valid() && HasFile(ino) && n < FILE_END
      requires b in own && own[b].level == 1 && own[b].ino == ino && i < PER_BLOCK && n == own[b].base + i
      modifies this
      ensures Valid() && HasFile(ino) && z == View().Bmap(ino, n)
      ensures Grown(old(View()), old(own), View(), own, ino, n)
      ensures !create || old(View().Bmap(ino, n)) != 0 ==> View() == old(View()) && own == old(own)
      ensures create && z == 0 ==> forall c :: View().InRange(c) ==> View().Bit(c)
    {
      BmapVia(View(), own, b, i);
      z := MapIblock(b, i, create, n);
      BmapVia(View(), own, b, i);
    }

    /** _minix_bmap: file block n (16 bits) of an inode, through at most two index blocks, creating
      * whatever is missing on the way when asked to. */
    method Bmap(ino: nat, n: nat, create: bool) returns (z: nat)
      requires Valid() && HasFile(ino) && n < 0x1_0000
      modifies this
      ensures Valid() && HasFile(ino) && z == View().Bmap(ino, n)
      ensures Grown(old(View()), old(own), View(), own, ino, n)
      ensures !create || old(View().Bmap(ino, n)) != 0 ==> View() == old(View()) && own == old(own)
      ensures create && z == 0 ==> forall b :: View().InRange(b) ==> View().Bit(b)
    {
      if n < DIRECT {
        z := MapIzone(ino, n, create, n);
        return;
      }
      var block := n - DIRECT;
      if block < PER_BLOCK {
        z := MapIzone(ino, IND, create, n);
        if z != 0 { Hop(View(), own, Zone(ino, IND)); }
      } else {
        block := block - PER_BLOCK;
        z := MapDind(ino, n, block / PER_BLOCK, create);
      }
      if z != 0 {
        ghost var fs, own0 := View(), own;
        z := MapLeaf(ino, n, z, block % PER_BLOCK, create);
        GrownTwice(old(View()), old(own), fs, own0, View(), own, ino, n);
      }
    }

    /** Two layers down: the index block of index blocks, and its word k. */
    method MapDind(ino: nat, n: nat, k: nat, create: bool) returns (z: nat)
      requires Valid() && HasFile(ino) && k < PER_BLOCK
      modifies this
      ensures Valid() && HasFile(ino) && z == Mid(View(), ino, k)
      ensures Grown(old(View()), old(own), View(), own, ino, n)
      ensures z != 0 ==> z in own && own[z].level == 1 && own[z].ino == ino && own[z].base == IND_END + k * PER_BLOCK
      ensures !create || old(Mid(View(), ino, k)) != 0 ==> View() == old(View()) && own == old(own)
      ensures create && z == 0 ==> forall b :: View().InRange(b) ==> View().Bit(b)
    {
      z := MapIzone(ino, DIND, create, n);
      if z != 0 {
        Hop(View(), own, Zone(ino, DIND));
        ghost var top, p, fs, own0 := z, Entry(z, k), View(), own;
        z := MapIblock(z, k, create, n);
        GrownTwice(old(View()), old(own), fs, own0, View(), own, ino, n);
        Above(View(), own, top);
        if z != 0 { Hop(View(), own, p); }
      }
    }
  }

  /** Below an index block of height 1, the file map reads that block. */
  lemma BmapVia(fs: Fs, own: Own, b: nat, i: nat)
    requires Good(fs, own, {}) && b in own && own[b].level == 1 && i < PER_BLOCK
    ensures fs.Bmap(own[b].ino, own[b].base + i) == fs.Load(Entry(b, i))
  {
    Above(fs, own, b);
    match own[b].ptr {
      case Zone(_, _) =>
      case Entry(c, k) =>
        Above(fs, own, c);
        Split(k, i);
        var n := own[b].base + i;
        assert n - IND_END == k * PER_BLOCK + i;
        assert fs.Bmap(own[b].ino, n) == fs.Load(Entry(b, (n - IND_END) % PER_BLOCK));
    }
  }

  /** One map_izone or map_iblock call, seen from the whole tree. */
  lemma GrowStep(fs: Fs, own: Own, fs': Fs, own': Own, p: Ptr, z: nat, ino: nat, n: nat)
    requires Good(fs, own, {}) && Good(fs', own', {}) && Live(fs, own, p)
    requires OwnerAt(own, p).ino == ino && (OwnerAt(own, p).level == 0 ==> OwnerAt(own, p).base == n)
    requires z == 0 || fs.Load(p) != 0 ==> own' == own && fs' == fs.(zmap := fs'.zmap)
    requires z != 0 && fs.Load(p) == 0 ==> Filled(fs, own, fs', own', p, z)
    ensures Grown(fs, own, fs', own', ino, n)
  {
    if z != 0 && fs.Load(p) == 0 {
      FilledGrows(fs, own, fs', own', p, z, ino, n);
    }
  }
}
