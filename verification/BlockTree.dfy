/** The block tree of a Minix V1 volume as a value: zone bitmap, blocks and inodes, and the
  * ownership relation that ties them together. */
module BlockTree {
  import opened Blocks

  const DIRECT := 7               // i_zone[0..6] name data blocks
  const IND := 7                  // i_zone[7] names an index block
  const DIND := 8                 // i_zone[8] names an index block of index blocks
  const IND_END := 519            // first file block under i_zone[8]
  const FILE_END := 262663        // 7 + 512 + 512 * 512

  datatype Kind = Regular | Directory | Symlink | Other

  /** An in-core inode: only the fields the block store reads or writes. */
  datatype Inode = Inode(kind: Kind, size: nat, zones: seq<nat>) {
    predicate Mapped() { kind != Other }
  }

  /** A cell that can hold a block number: an i_zone slot or a word of an index block. */
  datatype Ptr = Zone(ino: nat, k: nat) | Entry(blk: nat, idx: nat)

  /** Where a block hangs: the cell naming it, its height (0 = data), its file, and the
    * first file block it covers. */
  datatype Owner = Owner(ptr: Ptr, level: nat, ino: nat, base: nat)

  datatype Fs = Fs(firstData: nat, nzones: nat, zmap: seq<bool>, disk: map<nat, Block>, inodes: seq<Inode>) {
    predicate InRange(b: nat) { firstData <= b < nzones }

    /** The volume's fixed shape: the bitmap covers every data zone, every data zone is a block,
      * bit 0 is reserved, and every inode has nine 16-bit zone numbers. */
    ghost predicate Shaped() {
      && 0 < firstData <= nzones < 0x1_0000
      && |zmap| % 8192 == 0
      && |zmap| <= 0x1_0000
      && nzones - firstData < |zmap|
      && zmap[0]
      && (forall b :: InRange(b) ==> b in disk)
      && (forall i :: 0 <= i < |inodes| ==> |inodes[i].zones| == 9)
      && (forall i, k :: 0 <= i < |inodes| && 0 <= k < 9 ==> inodes[i].zones[k] < 0x1_0000)
    }

    predicate Bit(b: nat)
      requires InRange(b) && nzones - firstData < |zmap|
    {
      zmap[b - firstData + 1]
    }

    function Load(p: Ptr): nat {
      match p
      case Zone(ino, k) => if ino < |inodes| && k < |inodes[ino].zones| then inodes[ino].zones[k] else 0
      case Entry(b, i) => if b in disk && i < PER_BLOCK then Word(disk[b], i) else 0
    }

    function Store(p: Ptr, v: nat): Fs
      requires v < 0x1_0000
    {
      match p
      case Zone(ino, k) =>
        if ino < |inodes| && k < |inodes[ino].zones| then
          this.(inodes := inodes[ino := inodes[ino].(zones := inodes[ino].zones[k := v])])
        else this
      case Entry(b, i) =>
        if b in disk && i < PER_BLOCK then this.(disk := disk[b := SetWord(disk[b], i, v)]) else this
    }

    /** File block n of inode ino, 0 for a hole: the lookup `_minix_bmap` makes without creating. */
    function Bmap(ino: nat, n: nat): nat {
      if n < DIRECT then Load(Zone(ino, n))
      else if n < IND_END then
        var top := Load(Zone(ino, IND));
        if top == 0 then 0 else Load(Entry(top, n - DIRECT))
      else
        var top := Load(Zone(ino, DIND));
        if top == 0 then 0 else
        var mid := Load(Entry(top, (n - IND_END) / PER_BLOCK));
        if mid == 0 then 0 else Load(Entry(mid, (n - IND_END) % PER_BLOCK))
    }
  }

  type Own = map<nat, Owner>

  predicate Live(fs: Fs, own: Own, p: Ptr) {
    match p
    case Zone(ino, k) => ino < |fs.inodes| && fs.inodes[ino].Mapped() && k < 9
    case Entry(b, i) => b in own && own[b].level > 0 && i < PER_BLOCK
  }

  function Span(level: nat): nat { if level == 0 then 1 else PER_BLOCK }

  /** What a block named by cell p must look like. */
  function OwnerAt(own: Own, p: Ptr): Owner
    requires p.Entry? ==> p.blk in own && own[p.blk].level > 0
  {
    match p
    case Zone(ino, k) =>
      if k < IND then Owner(p, 0, ino, k)
      else if k == IND then Owner(p, 1, ino, DIRECT)
      else Owner(p, 2, ino, IND_END)
    case Entry(b, i) =>
      var o := own[b];
      Owner(p, o.level - 1, o.ino, o.base + i * Span(o.level - 1))
  }

  /** An owned block is named by the cell its owner records, and the record fits that cell. */
  ghost predicate OwnsRight(fs: Fs, own: Own, b: nat) {
    b in own ==>
      var o := own[b];
      && o.level <= 2
      && Live(fs, own, o.ptr)
      && fs.Load(o.ptr) == b
      && o == OwnerAt(own, o.ptr)
  }

  /** A live non-zero cell names a block that is owned through it. */
  ghost predicate NamesOwned(fs: Fs, own: Own, p: Ptr) {
    Live(fs, own, p) && fs.Load(p) != 0 ==> fs.Load(p) in own && own[fs.Load(p)].ptr == p
  }

  /** Among the data zones, the bits set are the owned blocks and the loose ones. */
  ghost predicate BitRight(fs: Fs, own: Own, loose: set<nat>, b: nat)
    requires fs.Shaped()
  {
    && (b in own || b in loose ==> fs.InRange(b))
    && !(b in own && b in loose)
    && (fs.InRange(b) ==> (fs.Bit(b) <==> b in own || b in loose))
  }

  /** The bitmap, the index blocks and the inodes describe the same tree. `loose` holds a block whose
    * bit is set but which no cell names: one just allocated, or just about to be freed. */
  ghost predicate Good(fs: Fs, own: Own, loose: set<nat>) {
    && fs.Shaped()
    && (forall b :: BitRight(fs, own, loose, b))
    && (forall b :: OwnsRight(fs, own, b))
    && (forall p :: NamesOwned(fs, own, p))
  }

  /** A new volume: every data zone free, every file empty. */
  function Empty(firstData: nat, nzones: nat, bits: nat, disk: map<nat, Block>, kinds: seq<Kind>): Fs
    requires bits > 0
  {
    Fs(firstData, nzones, [true] + seq(bits - 1, _ => false), disk,
       seq(|kinds|, i requires 0 <= i < |kinds| => Inode(kinds[i], 0, seq(9, _ => 0))))
  }

  lemma EmptyGood(firstData: nat, nzones: nat, bits: nat, disk: map<nat, Block>, kinds: seq<Kind>)
    requires forall b :: firstData <= b < nzones ==> b in disk
    requires 0 < firstData <= nzones < 0x1_0000 && 0 < bits <= 0x1_0000 && bits % 8192 == 0 && nzones - firstData < bits
    ensures Good(Empty(firstData, nzones, bits, disk, kinds), map[], {})
  {
    var fs := Empty(firstData, nzones, bits, disk, kinds);
    forall b: nat ensures BitRight(fs, map[], {}, b) {}
    forall p: Ptr ensures NamesOwned(fs, map[], p) {}
  }

  // ---------------------------------------------------------------- cells

  lemma StoreFrame(fs: Fs, p: Ptr, v: nat, q: Ptr)
    requires v < 0x1_0000 && q != p
    ensures fs.Store(p, v).Load(q) == fs.Load(q)
  {
  }

  lemma StoreHit(fs: Fs, own: Own, p: Ptr, v: nat)
    requires fs.Shaped() && v < 0x1_0000 && Live(fs, own, p)
    requires p.Entry? ==> fs.InRange(p.blk)
    ensures fs.Store(p, v).Load(p) == v
    ensures fs.Store(p, v).Shaped()
    ensures fs.Store(p, v).zmap == fs.zmap
    ensures forall q :: Live(fs.Store(p, v), own, q) <==> Live(fs, own, q)
  {
  }

  /** Hanging a fresh zeroed block on an empty live cell. */
  lemma Attach(fs: Fs, own: Own, j: nat, p: Ptr)
    requires Good(fs, own, {j}) && j != 0
    requires fs.InRange(j) && fs.disk[j] == ZeroBlock()
    requires Live(fs, own, p) && fs.Load(p) == 0
    ensures j !in own
    ensures Good(fs.Store(p, j), own[j := OwnerAt(own, p)], {})
  {
    var fs' := fs.Store(p, j);
    var own' := own[j := OwnerAt(own, p)];
    assert BitRight(fs, own, {j}, j);
    assert p.Entry? ==> BitRight(fs, own, {j}, p.blk) && OwnsRight(fs, own, p.blk);
    StoreHit(fs, own, p, j);
    forall b ensures BitRight(fs', own', {}, b) {
      assert BitRight(fs, own, {j}, b);
    }
    forall b ensures OwnsRight(fs', own', b) {
      assert OwnsRight(fs, own, b) && BitRight(fs, own, {j}, b);
      AttachOwns(fs, own, j, p, b);
    }
    forall q ensures NamesOwned(fs', own', q) {
      assert NamesOwned(fs, own, q);
      AttachNames(fs, own, j, p, q);
    }
  }

  lemma AttachOwns(fs: Fs, own: Own, j: nat, p: Ptr, b: nat)
    requires fs.Shaped() && j < 0x1_0000 && j !in own
    requires Live(fs, own, p) && fs.Load(p) == 0 && j != 0
    requires p.Entry? ==> fs.InRange(p.blk) && own[p.blk].level <= 2
    requires OwnsRight(fs, own, b) && (b in own ==> b != 0)
    ensures OwnsRight(fs.Store(p, j), own[j := OwnerAt(own, p)], b)
  {
    StoreHit(fs, own, p, j);
    if b != j && b in own && own[b].ptr != p {
      StoreFrame(fs, p, j, own[b].ptr);
    }
  }

  lemma AttachNames(fs: Fs, own: Own, j: nat, p: Ptr, q: Ptr)
    requires fs.Shaped() && j < 0x1_0000 && j !in own && fs.InRange(j) && fs.disk[j] == ZeroBlock()
    requires Live(fs, own, p)
    requires p.Entry? ==> fs.InRange(p.blk)
    requires NamesOwned(fs, own, q)
    ensures NamesOwned(fs.Store(p, j), own[j := OwnerAt(own, p)], q)
  {
    StoreHit(fs, own, p, j);
    if q != p {
      StoreFrame(fs, p, j, q);
    }
  }

  /** Clearing a live cell whose block has no children left. */
  lemma Detach(fs: Fs, own: Own, p: Ptr)
    requires Good(fs, own, {})
    requires Live(fs, own, p) && fs.Load(p) in own
    requires own[fs.Load(p)].level > 0 ==> forall i :: 0 <= i < PER_BLOCK ==> fs.Load(Entry(fs.Load(p), i)) == 0
    ensures Good(fs.Store(p, 0), own - {fs.Load(p)}, {fs.Load(p)})
  {
    var b := fs.Load(p);
    var fs', own' := fs.Store(p, 0), own - {b};
    assert BitRight(fs, own, {}, b);
    assert NamesOwned(fs, own, p);
    assert p.Entry? ==> BitRight(fs, own, {}, p.blk);
    StoreHit(fs, own, p, 0);
    forall c ensures BitRight(fs', own', {b}, c) {
      assert BitRight(fs, own, {}, c);
    }
    forall c ensures OwnsRight(fs', own', c) {
      assert OwnsRight(fs, own, c) && BitRight(fs, own, {}, c);
      DetachOwns(fs, own, p, c);
    }
    forall q ensures NamesOwned(fs', own', q) {
      assert NamesOwned(fs, own, q);
      DetachNames(fs, own, p, q);
    }
  }

  lemma DetachOwns(fs: Fs, own: Own, p: Ptr, c: nat)
    requires fs.Shaped() && Live(fs, own, p) && fs.Load(p) in own && own[fs.Load(p)].ptr == p
    requires p.Entry? ==> fs.InRange(p.blk)
    requires own[fs.Load(p)].level > 0 ==> forall i :: 0 <= i < PER_BLOCK ==> fs.Load(Entry(fs.Load(p), i)) == 0
    requires OwnsRight(fs, own, c) && (c in own ==> c != 0)
    ensures OwnsRight(fs.Store(p, 0), own - {fs.Load(p)}, c)
  {
    var b := fs.Load(p);
    StoreHit(fs, own, p, 0);
    if c in own && c != b {
      var q := own[c].ptr;
      StoreFrame(fs, p, 0, q);
      assert forall i: nat :: q == Entry(b, i) && i < PER_BLOCK ==> fs.Load(q) == 0;
    }
  }

  lemma DetachNames(fs: Fs, own: Own, p: Ptr, q: Ptr)
    requires fs.Shaped() && Live(fs, own, p) && fs.Load(p) in own && own[fs.Load(p)].ptr == p
    requires p.Entry? ==> fs.InRange(p.blk)
    requires NamesOwned(fs, own, q)
    ensures NamesOwned(fs.Store(p, 0), own - {fs.Load(p)}, q)
  {
    StoreHit(fs, own, p, 0);
    if q != p { StoreFrame(fs, p, 0, q); }
  }

  /** Clearing the bit of a loose block, whatever becomes of its bytes. */
  lemma Release(fs: Fs, own: Own, b: nat, fs': Fs)
    requires Good(fs, own, {b}) && fs.InRange(b)
    requires fs' == fs.(zmap := fs.zmap[b - fs.firstData + 1 := false], disk := fs'.disk)
    requires fs'.disk.Keys == fs.disk.Keys
    requires forall c :: c in fs.disk && c != b ==> fs'.disk[c] == fs.disk[c]
    ensures Good(fs', own, {})
  {
    assert BitRight(fs, own, {b}, b);
    forall q: Ptr | q.Entry? ==> q.blk != b ensures fs'.Load(q) == fs.Load(q) {
    }
    forall c ensures BitRight(fs', own, {}, c) {
      assert BitRight(fs, own, {b}, c);
    }
    forall c ensures OwnsRight(fs', own, c) {
      assert OwnsRight(fs, own, c);
    }
    forall q ensures NamesOwned(fs', own, q) {
      assert NamesOwned(fs, own, q);
    }
  }

  // ---------------------------------------------------------------- the block map is the ownership relation

  /** One hop: what a live non-zero cell names fits that cell. */
  lemma Hop(fs: Fs, own: Own, p: Ptr)
    requires Good(fs, own, {}) && Live(fs, own, p) && fs.Load(p) != 0
    ensures fs.Load(p) in own && own[fs.Load(p)] == OwnerAt(own, p)
  {
    assert NamesOwned(fs, own, p);
    assert OwnsRight(fs, own, fs.Load(p));
  }

  lemma BmapOwned(fs: Fs, own: Own, ino: nat, n: nat)
    requires Good(fs, own, {}) && ino < |fs.inodes| && fs.inodes[ino].Mapped() && n < FILE_END
    requires fs.Bmap(ino, n) != 0
    ensures fs.Bmap(ino, n) in own
    ensures var o := own[fs.Bmap(ino, n)]; o.level == 0 && o.ino == ino && o.base == n
  {
    if n < DIRECT {
      Hop(fs, own, Zone(ino, n));
    } else if n < IND_END {
      Hop(fs, own, Zone(ino, IND));
      Hop(fs, own, Entry(fs.Load(Zone(ino, IND)), n - DIRECT));
    } else {
      var top := fs.Load(Zone(ino, DIND));
      Hop(fs, own, Zone(ino, DIND));
      Hop(fs, own, Entry(top, (n - IND_END) / PER_BLOCK));
      Hop(fs, own, Entry(fs.Load(Entry(top, (n - IND_END) / PER_BLOCK)), (n - IND_END) % PER_BLOCK));
    }
  }

  /** The chain of cells above an owned block, read off its level. */
  lemma Above(fs: Fs, own: Own, b: nat)
    requires Good(fs, own, {}) && b in own
    ensures own[b].level <= 2
    ensures fs.Load(own[b].ptr) == b != 0 && Live(fs, own, own[b].ptr) && own[b] == OwnerAt(own, own[b].ptr)
    ensures own[b].level == 2 ==> own[b].ptr == Zone(own[b].ino, DIND)
    ensures own[b].level == 1 ==>
              own[b].ptr == Zone(own[b].ino, IND) || (own[b].ptr.Entry? && own[own[b].ptr.blk].level == 2)
  {
    assert OwnsRight(fs, own, b) && BitRight(fs, own, {}, b);
    var p := own[b].ptr;
    assert p.Entry? ==> OwnsRight(fs, own, p.blk);
  }

  lemma Split(k: nat, i: nat)
    requires i < PER_BLOCK
    ensures (k * PER_BLOCK + i) / PER_BLOCK == k && (k * PER_BLOCK + i) % PER_BLOCK == i
  {
  }

  lemma OwnedBmap(fs: Fs, own: Own, z: nat)
    requires Good(fs, own, {}) && z in own && own[z].level == 0
    ensures own[z].ino < |fs.inodes| && fs.inodes[own[z].ino].Mapped() && own[z].base < FILE_END
    ensures fs.Bmap(own[z].ino, own[z].base) == z
  {
    Above(fs, own, z);
    match own[z].ptr {
      case Zone(_, _) =>
      case Entry(b, i) =>
        Above(fs, own, b);
        match own[b].ptr {
          case Zone(_, _) =>
          case Entry(c, k) =>
            Above(fs, own, c);
            Split(k, i);
            assert own[z].base - IND_END == k * PER_BLOCK + i;
        }
    }
  }

  /** Two states with the same data-block ownership of an inode map its file identically. */
  lemma SameOwnersSameMap(fs: Fs, own: Own, fs': Fs, own': Own, ino: nat, n: nat)
    requires Good(fs, own, {}) && Good(fs', own', {})
    requires ino < |fs.inodes| == |fs'.inodes| && fs.inodes[ino].Mapped() && fs'.inodes[ino].Mapped()
    requires n < FILE_END
    requires forall z :: z in own && own[z].level == 0 && own[z].ino == ino && own[z].base == n ==>
               z in own' && own'[z] == own[z]
    requires forall z :: z in own' && own'[z].level == 0 && own'[z].ino == ino && own'[z].base == n ==>
               z in own && own[z] == own'[z]
    ensures fs'.Bmap(ino, n) == fs.Bmap(ino, n)
  {
    if fs.Bmap(ino, n) != 0 {
      BmapOwned(fs, own, ino, n);
      OwnedBmap(fs', own', fs.Bmap(ino, n));
    } else if fs'.Bmap(ino, n) != 0 {
      BmapOwned(fs', own', ino, n);
      OwnedBmap(fs, own, fs'.Bmap(ino, n));
    }
  }

  // ---------------------------------------------------------------- one path per block

  /** A way down from an inode: a zone slot, an entry of the indirect block, an entry of the
    * double-indirect block, or an entry of one of the index blocks that one names. */
  datatype Path =
    | ZonePath(ino: nat, k: nat)
    | IndPath(ino: nat, i: nat)
    | MidPath(ino: nat, k: nat)
    | LeafPath(ino: nat, k: nat, i: nat)

  predicate InTree(fs: Fs, path: Path) {
    && path.ino < |fs.inodes| && fs.inodes[path.ino].Mapped()
    && match path
       case ZonePath(_, k) => k < 9
       case IndPath(_, i) => i < PER_BLOCK
       case MidPath(_, k) => k < PER_BLOCK
       case LeafPath(_, k, i) => k < PER_BLOCK && i < PER_BLOCK
  }

  function Mid(fs: Fs, ino: nat, k: nat): nat {
    var t := fs.Load(Zone(ino, DIND)); if t == 0 then 0 else fs.Load(Entry(t, k))
  }

  /** The block at the end of a path, 0 if some step is missing. */
  function AtPath(fs: Fs, path: Path): nat {
    match path
    case ZonePath(ino, k) => fs.Load(Zone(ino, k))
    case IndPath(ino, i) => var t := fs.Load(Zone(ino, IND)); if t == 0 then 0 else fs.Load(Entry(t, i))
    case MidPath(ino, k) => Mid(fs, ino, k)
    case LeafPath(ino, k, i) => var m := Mid(fs, ino, k); if m == 0 then 0 else fs.Load(Entry(m, i))
  }

  /** The path an ownership record spells out. */
  function PathOf(own: Own, b: nat): Path
    requires b in own
  {
    match own[b].ptr
    case Zone(ino, k) => ZonePath(ino, k)
    case Entry(c, i) =>
      if c !in own || own[c].ptr == Zone(own[b].ino, IND) then IndPath(own[b].ino, i)
      else match own[c].ptr
           case Zone(_, _) => MidPath(own[b].ino, i)
           case Entry(_, k) => LeafPath(own[b].ino, k, i)
  }

  lemma OwnedHasPath(fs: Fs, own: Own, b: nat)
    requires Good(fs, own, {}) && b in own
    ensures InTree(fs, PathOf(own, b)) && AtPath(fs, PathOf(own, b)) == b != 0
  {
    Above(fs, own, b);
    match own[b].ptr {
      case Zone(_, _) =>
      case Entry(c, i) =>
        Above(fs, own, c);
        match own[c].ptr {
          case Zone(_, _) =>
          case Entry(d, k) => Above(fs, own, d);
        }
    }
  }

  lemma PathIsOwned(fs: Fs, own: Own, path: Path)
    requires Good(fs, own, {}) && InTree(fs, path) && AtPath(fs, path) != 0
    ensures AtPath(fs, path) in own && PathOf(own, AtPath(fs, path)) == path
  {
    match path {
      case ZonePath(ino, k) => Hop(fs, own, Zone(ino, k));
      case IndPath(ino, i) =>
        Hop(fs, own, Zone(ino, IND));
        Hop(fs, own, Entry(fs.Load(Zone(ino, IND)), i));
      case MidPath(ino, k) =>
        Hop(fs, own, Zone(ino, DIND));
        Hop(fs, own, Entry(fs.Load(Zone(ino, DIND)), k));
      case LeafPath(ino, k, i) =>
        Hop(fs, own, Zone(ino, DIND));
        Hop(fs, own, Entry(fs.Load(Zone(ino, DIND)), k));
        Hop(fs, own, Entry(Mid(fs, ino, k), i));
    }
  }

  /** The zone bitmap is exactly the set of blocks reachable from the inodes, and each is reachable
    * by exactly one path. */
  lemma BitmapIsReachability(fs: Fs, own: Own)
    requires Good(fs, own, {})
    ensures forall b :: fs.InRange(b) ==> (fs.Bit(b) <==> exists path :: InTree(fs, path) && AtPath(fs, path) == b)
    ensures forall path :: InTree(fs, path) && AtPath(fs, path) != 0 ==> fs.InRange(AtPath(fs, path))
    ensures forall p, q :: InTree(fs, p) && InTree(fs, q) && AtPath(fs, p) == AtPath(fs, q) != 0 ==> p == q
  {
    forall b | fs.InRange(b) ensures fs.Bit(b) <==> exists path :: InTree(fs, path) && AtPath(fs, path) == b {
      assert BitRight(fs, own, {}, b);
      if b in own { OwnedHasPath(fs, own, b); }
      forall path | InTree(fs, path) && AtPath(fs, path) == b ensures b in own { PathIsOwned(fs, own, path); }
    }
    forall path | InTree(fs, path) && AtPath(fs, path) != 0
      ensures fs.InRange(AtPath(fs, path)) && AtPath(fs, path) in own && PathOf(own, AtPath(fs, path)) == path
    {
      PathIsOwned(fs, own, path);
      assert BitRight(fs, own, {}, AtPath(fs, path));
    }
  }
}
