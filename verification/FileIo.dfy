/** Reading and writing Minix files (fs/minix/file.c) against a plain array of bytes. */
module FileIo {
  import opened Blocks
  import opened BlockTree
  import opened BlockStore
  import Truncate

  const EINVAL := 22
  const ENOSPC := 28
  const ADDRESSABLE := 0x400_0000      // 65536 blocks: (unsigned short) (pos >> 10) is exact below this
  const LIMIT := 0x7fff * 1024         // 32767 blocks: the files minix_truncate cuts exactly

  /** Byte x of a file's block map, holes reading as zero. */
  function FileByte(fs: Fs, ino: nat, x: nat): Byte {
    var z := fs.Bmap(ino, x / BLOCK_SIZE);
    if z == 0 || z !in fs.disk then 0 else fs.disk[z][x % BLOCK_SIZE]
  }

  /** The abstract file. */
  function Contents(fs: Fs, ino: nat): seq<Byte>
    requires ino < |fs.inodes|
  {
    seq(fs.inodes[ino].size, x requires 0 <= x => FileByte(fs, ino, x))
  }

  /** The file lies within 16-bit block numbers, with nothing but zeros past its end. */
  ghost predicate TailZero(fs: Fs, ino: nat) {
    ino < |fs.inodes| && fs.inodes[ino].size <= ADDRESSABLE
        && forall x :: fs.inodes[ino].size <= x < ADDRESSABLE ==> FileByte(fs, ino, x) == 0
  }

  /** s with d laid over it at position p, the gap filled with zeros. */
  function Overlay(s: seq<Byte>, p: nat, d: seq<Byte>): seq<Byte> {
    var n := if p + |d| > |s| then p + |d| else |s|;
    seq(n, x requires 0 <= x < n => if p <= x < p + |d| then d[x - p] else if x < |s| then s[x] else 0)
  }

  // ---------------------------------------------------------------- bytes under tree changes

  /** Growing the tree changes no byte of any file. */
  lemma GrowKeepsBytes(fs: Fs, own: Own, fs': Fs, own': Own, ino: nat, n: nat, jno: nat, x: nat)
    requires Good(fs, own, {}) && Good(fs', own', {}) && Grown(fs, own, fs', own', ino, n)
    requires jno < |fs.inodes| && fs.inodes[jno].Mapped() && x < ADDRESSABLE
    ensures FileByte(fs', jno, x) == FileByte(fs, jno, x)
  {
    var m := x / BLOCK_SIZE;
    if fs.Bmap(jno, m) != 0 {
      BmapOwned(fs, own, jno, m);
      assert BitRight(fs, own, {}, fs.Bmap(jno, m));
      GrownMap(fs, own, fs', own', ino, n, jno, m);
    } else if fs'.Bmap(jno, m) != 0 {
      BmapOwned(fs', own', jno, m);
      var z := fs'.Bmap(jno, m);
      if z in own { OwnedBmap(fs, own, z); }
      assert fs'.disk[z] == ZeroBlock();
    }
  }

  /** Rewriting a data block keeps the tree. */
  lemma DataWriteGood(fs: Fs, own: Own, z: nat, b: Block)
    requires Good(fs, own, {}) && z in own && own[z].level == 0
    ensures Good(fs.(disk := fs.disk[z := b]), own, {})
  {
    var fs' := fs.(disk := fs.disk[z := b]);
    forall c ensures BitRight(fs', own, {}, c) { assert BitRight(fs, own, {}, c); }
    forall c ensures OwnsRight(fs', own, c) { assert OwnsRight(fs, own, c); }
    forall p ensures NamesOwned(fs', own, p) { assert NamesOwned(fs, own, p); }
  }

  /** Rewriting file block n of ino changes the bytes of that block and no others. */
  lemma DataWriteBytes(fs: Fs, own: Own, ino: nat, n: nat, b: Block, jno: nat, x: nat)
    requires Good(fs, own, {}) && ino < |fs.inodes| && fs.inodes[ino].Mapped() && n < FILE_END && fs.Bmap(ino, n) != 0
    requires jno < |fs.inodes| && fs.inodes[jno].Mapped() && x < ADDRESSABLE
    ensures FileByte(fs.(disk := fs.disk[fs.Bmap(ino, n) := b]), jno, x) ==
            if jno == ino && x / BLOCK_SIZE == n then b[x % BLOCK_SIZE] else FileByte(fs, jno, x)
  {
    var z, m := fs.Bmap(ino, n), x / BLOCK_SIZE;
    var fs' := fs.(disk := fs.disk[z := b]);
    BmapOwned(fs, own, ino, n);
    DataWriteGood(fs, own, z, b);
    SameOwnersSameMap(fs, own, fs', own, jno, m);
    if fs.Bmap(jno, m) != 0 { BmapOwned(fs, own, jno, m); }
  }

  // ---------------------------------------------------------------- write

  /** No file block at or past byte `end` is mapped anew. */
  ghost predicate TailMapKept(fs: Fs, fs': Fs, ino: nat, end: nat) {
    forall n :: 0 <= n < FILE_END && n * BLOCK_SIZE >= end ==> fs'.Bmap(ino, n) == fs.Bmap(ino, n)
  }

  lemma TailGrown(fs: Fs, own: Own, fs1: Fs, own1: Own, ino: nat, pos: nat, end: nat)
    requires Good(fs, own, {}) && Good(fs1, own1, {}) && Grown(fs, own, fs1, own1, ino, pos / BLOCK_SIZE) && pos < end
    requires ino < |fs.inodes| && fs.inodes[ino].Mapped()
    ensures TailMapKept(fs, fs1, ino, end)
  {
    forall n | 0 <= n < FILE_END && n * BLOCK_SIZE >= end ensures fs1.Bmap(ino, n) == fs.Bmap(ino, n) {
      GrownMap(fs, own, fs1, own1, ino, pos / BLOCK_SIZE, ino, n);
    }
  }

  lemma TailRewritten(fs: Fs, own: Own, z: nat, b: Block, ino: nat, end: nat)
    requires Good(fs, own, {}) && z in own && own[z].level == 0
    requires ino < |fs.inodes| && fs.inodes[ino].Mapped()
    ensures TailMapKept(fs, fs.(disk := fs.disk[z := b]), ino, end)
  {
    var fs' := fs.(disk := fs.disk[z := b]);
    DataWriteGood(fs, own, z, b);
    forall n | 0 <= n < FILE_END && n * BLOCK_SIZE >= end ensures fs'.Bmap(ino, n) == fs.Bmap(ino, n) {
      SameOwnersSameMap(fs, own, fs', own, ino, n);
    }
  }

  /** Every other file keeps its size and its bytes. */
  ghost predicate OthersKept(fs: Fs, fs': Fs, ino: nat) {
    && |fs'.inodes| == |fs.inodes|
    && forall j :: 0 <= j < |fs.inodes| && j != ino && fs.inodes[j].Mapped() ==>
         && fs'.inodes[j].Mapped() && fs'.inodes[j].size == fs.inodes[j].size
         && forall x :: 0 <= x < ADDRESSABLE ==> FileByte(fs', j, x) == FileByte(fs, j, x)
  }

  /** The state after the first bytes of a write have gone in at `start`. */
  ghost predicate Written(fs0: Fs, fs: Fs, ino: nat, start: nat, d: seq<Byte>) {
    && |fs.inodes| == |fs0.inodes| && ino < |fs.inodes|
    && (forall j :: 0 <= j < |fs.inodes| ==> fs.inodes[j] == fs0.inodes[j].(zones := fs.inodes[j].zones))
    && (forall x :: 0 <= x < ADDRESSABLE ==>
          FileByte(fs, ino, x) == if start <= x < start + |d| then d[x - start] else FileByte(fs0, ino, x))
    && (forall j, x :: 0 <= j < |fs.inodes| && j != ino && fs.inodes[j].Mapped() && 0 <= x < ADDRESSABLE ==>
          FileByte(fs, j, x) == FileByte(fs0, j, x))
  }

  /** A block lookup, creating or not, leaves the bytes written so far in place. */
  lemma WrittenGrown(fs0: Fs, fs1: Fs, own1: Own, fs2: Fs, own2: Own, ino: nat, start: nat, d: seq<Byte>, n: nat)
    requires Good(fs1, own1, {}) && Good(fs2, own2, {}) && Grown(fs1, own1, fs2, own2, ino, n)
    requires Written(fs0, fs1, ino, start, d) && fs1.inodes[ino].Mapped()
    ensures Written(fs0, fs2, ino, start, d)
  {
    forall j, x | 0 <= j < |fs1.inodes| && fs1.inodes[j].Mapped() && 0 <= x < ADDRESSABLE
      ensures FileByte(fs2, j, x) == FileByte(fs1, j, x)
    {
      GrowKeepsBytes(fs1, own1, fs2, own2, ino, n, j, x);
    }
  }

  lemma SameBlock(pos: nat, x: nat)
    ensures x / BLOCK_SIZE == pos / BLOCK_SIZE ==> x - pos == x % BLOCK_SIZE - pos % BLOCK_SIZE
    ensures x / BLOCK_SIZE < pos / BLOCK_SIZE ==> x < pos
    ensures x / BLOCK_SIZE > pos / BLOCK_SIZE ==> x >= pos + (BLOCK_SIZE - pos % BLOCK_SIZE)
  {
  }

  /** Copying c bytes into the block at the write position extends what is written by c bytes. */
  lemma WrittenCopied(fs0: Fs, fs: Fs, own: Own, ino: nat, start: nat, done: seq<Byte>, d: seq<Byte>, b: Block)
    requires Good(fs, own, {}) && Written(fs0, fs, ino, start, done) && fs.inodes[ino].Mapped()
    requires d != [] && start + |done| + |d| <= ADDRESSABLE
    requires (start + |done|) % BLOCK_SIZE + |d| <= BLOCK_SIZE
    requires var z := fs.Bmap(ino, (start + |done|) / BLOCK_SIZE);
             z != 0 && z in fs.disk && b == Splice(fs.disk[z], (start + |done|) % BLOCK_SIZE, d)
    ensures Written(fs0, fs.(disk := fs.disk[fs.Bmap(ino, (start + |done|) / BLOCK_SIZE) := b]), ino, start, done + d)
  {
    var pos := start + |done|;
    var n := pos / BLOCK_SIZE;
    var fs' := fs.(disk := fs.disk[fs.Bmap(ino, n) := b]);
    forall x | 0 <= x < ADDRESSABLE
      ensures FileByte(fs', ino, x) == if start <= x < pos + |d| then (done + d)[x - start] else FileByte(fs0, ino, x)
    {
      DataWriteBytes(fs, own, ino, n, b, ino, x);
      SameBlock(pos, x);
      if x / BLOCK_SIZE == n && pos <= x < pos + |d| {
        assert b[x % BLOCK_SIZE] == d[x - pos] == (done + d)[x - start];
      } else {
        assert FileByte(fs', ino, x) == FileByte(fs, ino, x);
      }
    }
    forall j, x | 0 <= j < |fs.inodes| && j != ino && fs.inodes[j].Mapped() && 0 <= x < ADDRESSABLE
      ensures FileByte(fs', j, x) == FileByte(fs0, j, x)
    {
      DataWriteBytes(fs, own, ino, n, b, j, x);
    }
  }

  /** One block of minix_file_write: find or create it and copy into it. c == 0 when the volume is full. */
  method WriteBlock(v: Volume, ino: nat, pos: nat, d: seq<Byte>, ghost fs0: Fs, ghost start: nat, ghost done: seq<Byte>)
      returns (c: nat)
    requires v.Valid() && v.HasFile(ino) && d != [] && pos + |d| <= ADDRESSABLE
    requires pos == start + |done| && Written(fs0, v.View(), ino, start, done)
    modifies v
    ensures v.Valid() && v.HasFile(ino) && c <= |d|
    ensures Written(fs0, v.View(), ino, start, done + d[..c])
    ensures TailMapKept(old(v.View()), v.View(), ino, pos + |d|)
    ensures c == 0 ==> forall b :: v.View().InRange(b) ==> v.View().Bit(b)
  {
    ghost var fs1, own1 := v.View(), v.own;
    var n := pos / BLOCK_SIZE;
    var z := v.Bmap(ino, n, true);
    WrittenGrown(fs0, fs1, own1, v.View(), v.own, ino, start, done, n);
    TailGrown(fs1, own1, v.View(), v.own, ino, pos, pos + |d|);
    if z == 0 {
      assert done + d[..0] == done;
      return 0;
    }
    c := BLOCK_SIZE - pos % BLOCK_SIZE;
    if c > |d| { c := |d|; }
    BmapOwned(v.View(), v.own, ino, n);
    assert BitRight(v.View(), v.own, {}, z);
    var b := Splice(v.disk[z], pos % BLOCK_SIZE, d[..c]);
    WrittenCopied(fs0, v.View(), v.own, ino, start, done, d[..c], b);
    DataWriteGood(v.View(), v.own, z, b);
    TailRewritten(v.View(), v.own, z, b, ino, pos + |d|);
    v.disk := v.disk[z := b];
  }

  /** What a finished write is, once the size field is brought up to the final position. */
  lemma WriteDone(fs0: Fs, fs: Fs, ino: nat, start: nat, d: seq<Byte>, size: nat, fs': Fs)
    requires Written(fs0, fs, ino, start, d) && TailZero(fs0, ino) && start + |d| <= ADDRESSABLE
    requires ino < |fs0.inodes| && size == fs0.inodes[ino].size
    requires var size' := if start + |d| > size then start + |d| else size;
             fs' == fs.(inodes := fs.inodes[ino := fs.inodes[ino].(size := size')])
    ensures Contents(fs', ino) == Overlay(Contents(fs0, ino), start, d)
    ensures TailZero(fs', ino)
    ensures OthersKept(fs0, fs', ino)
    ensures forall n: nat :: fs'.Bmap(ino, n) == fs.Bmap(ino, n)
  {
    forall j, n: nat ensures fs'.Bmap(j, n) == fs.Bmap(j, n) {
      ResizeMap(fs, ino, fs'.inodes[ino].size, j, n);
    }
    forall j, x: nat ensures FileByte(fs', j, x) == FileByte(fs, j, x) { }
  }

  lemma ResizeMap(fs: Fs, ino: nat, size: nat, j: nat, n: nat)
    requires ino < |fs.inodes|
    ensures fs.(inodes := fs.inodes[ino := fs.inodes[ino].(size := size)]).Bmap(j, n) == fs.Bmap(j, n)
  {
  }

  /** The copy loop of minix_file_write. It stops short only when the volume is full. */
  method WriteLoop(v: Volume, ino: nat, start: nat, data: seq<Byte>) returns (written: nat)
    requires v.Valid() && v.HasFile(ino) && start + |data| <= ADDRESSABLE
    modifies v
    ensures v.Valid() && v.HasFile(ino) && written <= |data|
    ensures Written(old(v.View()), v.View(), ino, start, data[..written])
    ensures TailMapKept(old(v.View()), v.View(), ino, start + |data|)
    ensures written < |data| ==> Truncate.Full(v.View())
  {
    written := 0;
    while written < |data|
      invariant v.Valid() && v.HasFile(ino) && written <= |data|
      invariant Written(old(v.View()), v.View(), ino, start, data[..written])
      invariant TailMapKept(old(v.View()), v.View(), ino, start + |data|)
    {
      assert data[..written] + data[written..] == data;
      var c := WriteBlock(v, ino, start + written, data[written..], old(v.View()), start, data[..written]);
      assert data[..written] + data[written..][..c] == data[..written + c];
      written := written + c;
      if c == 0 { break; }
    }
  }

  /** minix_file_write. `written` is a 16-bit size_t returned as an int, and -ENOSPC only when not even
    * one byte went in; the file is extended to the final position even then. */
  method Write(v: Volume, ino: nat, pos0: nat, append: bool, data: seq<Byte>)
      returns (res: int, pos: nat, w: nat)
    requires v.Valid() && ino < |v.inodes|
    requires |data| < 0x1_0000 && (if append then v.inodes[ino].size else pos0) + |data| <= ADDRESSABLE
    requires TailZero(v.View(), ino)
    modifies v
    ensures v.Valid() && |v.inodes| == old(|v.inodes|) && w <= |data|
    ensures TailMapKept(old(v.View()), v.View(), ino, (if append then old(v.inodes[ino].size) else pos0) + |data|)
    ensures old(v.inodes[ino].kind) != Regular ==> res == -EINVAL && pos == pos0 && v.View() == old(v.View())
    ensures old(v.inodes[ino].kind) == Regular ==>
              var start := if append then old(v.inodes[ino].size) else pos0;
              && v.inodes[ino].kind == Regular
              && pos == start + w
              && res == (if w == 0 && data != [] then -ENOSPC else Int16(w))
              && (w < |data| ==> Truncate.Full(v.View()))
              && Contents(v.View(), ino) == Overlay(old(Contents(v.View(), ino)), start, data[..w])
              && TailZero(v.View(), ino)
    ensures OthersKept(old(v.View()), v.View(), ino)
  {
    w := 0;
    if v.inodes[ino].kind != Regular {
      return -EINVAL, pos0, 0;
    }
    ghost var fs0 := v.View();
    var start := if append then v.inodes[ino].size else pos0;
    var written := WriteLoop(v, ino, start, data);
    w := written;
    res := if written == 0 && data != [] then -ENOSPC else Int16(written);
    pos := start + written;
    ghost var fs1 := v.View();
    if pos > v.inodes[ino].size {
      Truncate.ResizeGood(fs1, v.own, ino, pos);
      v.inodes := v.inodes[ino := v.inodes[ino].(size := pos)];
    }
    assert fs1.inodes[ino := fs1.inodes[ino].(size := fs1.inodes[ino].size)] == fs1.inodes;
    WriteDone(fs0, fs1, ino, start, data[..written], fs0.inodes[ino].size, v.View());
    if w < |data| {
      forall b | v.View().InRange(b) ensures v.View().Bit(b) { assert fs1.InRange(b) && fs1.Bit(b); }
    }
  }

  // ---------------------------------------------------------------- read

  /** Bytes lo..hi of the file's block map. */
  function Bytes(fs: Fs, ino: nat, lo: nat, hi: nat): seq<Byte>
    requires lo <= hi
  {
    seq<Byte>(hi - lo, (x: nat) => FileByte(fs, ino, lo + x))
  }

  /** One block of minix_file_read: a mapped block's bytes from `offset`, or zeros for a hole. */
  method ReadBlock(v: Volume, ino: nat, block: nat, offset: nat, chars: nat) returns (bytes: seq<Byte>)
    requires v.Valid() && v.HasFile(ino) && block < 0x1_0000 && offset + chars <= BLOCK_SIZE
    modifies v
    ensures v.View() == old(v.View()) && v.own == old(v.own)
    ensures bytes == Bytes(v.View(), ino, block * BLOCK_SIZE + offset, block * BLOCK_SIZE + offset + chars)
  {
    var z := v.Bmap(ino, block, false);
    if z != 0 {
      BmapOwned(v.View(), v.own, ino, block);
      assert BitRight(v.View(), v.own, {}, z);
      bytes := v.disk[z][offset..offset + chars];
    } else {
      bytes := seq(chars, _ => 0);
    }
    forall x | 0 <= x < chars ensures bytes[x] == FileByte(v.View(), ino, block * BLOCK_SIZE + offset + x) {
      InBlock(block, offset + x);
    }
  }

  lemma InBlock(block: nat, y: nat)
    requires y < BLOCK_SIZE
    ensures (block * BLOCK_SIZE + y) / BLOCK_SIZE == block && (block * BLOCK_SIZE + y) % BLOCK_SIZE == y
  {
  }

  /** minix_file_read. */
  method Read(v: Volume, ino: nat, pos0: nat, count: nat) returns (res: int, out: seq<Byte>, pos: nat)
    requires v.Valid() && ino < |v.inodes| && count < 0x1_0000
    requires v.inodes[ino].size <= ADDRESSABLE
    modifies v
    ensures v.View() == old(v.View()) && v.own == old(v.own)
    ensures v.inodes[ino].kind == Regular ==>
              |out| <= count && (|out| < count ==> pos0 + |out| >= v.inodes[ino].size)
              && (out != [] ==>
                    pos0 + |out| <= v.inodes[ino].size && out == Contents(v.View(), ino)[pos0..pos0 + |out|])
    ensures v.inodes[ino].kind != Regular ==> out == []
    ensures pos == pos0 + |out|
    ensures res == if v.inodes[ino].kind != Regular && count > 0 && pos0 < v.inodes[ino].size then -EINVAL
                   else Int16(|out|)
  {
    var left: nat := if pos0 > v.inodes[ino].size then 0 else v.inodes[ino].size - pos0;
    if left > count { left := count; }
    out, pos := [], pos0;
    if left == 0 { return 0, [], pos0; }
    if v.inodes[ino].kind != Regular { return -EINVAL, [], pos0; }
    var n := left;
    var block: nat, offset: nat := pos0 / BLOCK_SIZE, pos0 % BLOCK_SIZE;
    var blocks: nat := (offset + left + BLOCK_SIZE - 1) / BLOCK_SIZE;
    while blocks > 0
      invariant v.View() == old(v.View()) && v.own == old(v.own) && v.HasFile(ino)
      invariant left <= n && pos == pos0 + (n - left) && pos0 + n <= v.inodes[ino].size
      invariant left > 0 ==> offset < BLOCK_SIZE && pos == block * BLOCK_SIZE + offset
      invariant blocks == if left == 0 then 0 else (offset + left + BLOCK_SIZE - 1) / BLOCK_SIZE
      invariant out == Bytes(v.View(), ino, pos0, pos)
    {
      var chars: nat := if left < BLOCK_SIZE - offset then left else BLOCK_SIZE - offset;
      var bytes := ReadBlock(v, ino, block, offset, chars);
      assert Bytes(v.View(), ino, pos0, pos) + bytes == Bytes(v.View(), ino, pos0, pos + chars);
      block, pos, left, out := block + 1, pos + chars, left - chars, out + bytes;
      offset, blocks := 0, blocks - 1;
    }
    res := Int16(n);
    assert Bytes(v.View(), ino, pos0, pos0 + n) == Contents(v.View(), ino)[pos0..pos0 + n];
  }

  // ---------------------------------------------------------------- runs against the byte array

  /** No block at or past 32767 is mapped. */
  ghost predicate Bounded(fs: Fs, ino: nat) {
    forall n :: 0x7fff <= n < FILE_END ==> fs.Bmap(ino, n) == 0
  }

  /** minix_truncate of a file whose size is 0 never strays or repeats. */
  method CutToNothing(v: Volume, ino: nat)
    requires v.Valid() && v.HasFile(ino) && v.inodes[ino].size == 0
    modifies v
    ensures v.Valid() && v.HasFile(ino) && Truncate.Cut(old(v.View()), old(v.own), v.View(), v.own, ino, 0)
  {
    var r := Truncate.Truncate(v, ino);
    assert Truncate.DirectBlock(0) == 0 && Truncate.Low(0) == 0;
  }

  /** What a cut to nothing leaves of the map: the blocks out of its reach. */
  lemma NothingLeft(fs: Fs, own: Own, fs': Fs, own': Own, ino: nat)
    requires Good(fs, own, {}) && Good(fs', own', {}) && Truncate.Cut(fs, own, fs', own', ino, 0)
    requires ino < |fs.inodes| && fs.inodes[ino].Mapped()
    ensures forall n :: 0 <= n < 0x1_0000 ==>
              fs'.Bmap(ino, n) == if Truncate.OutOfReach(0, n) then fs.Bmap(ino, n) else 0
  {
    forall n | 0 <= n < 0x1_0000
      ensures fs'.Bmap(ino, n) == if Truncate.OutOfReach(0, n) then fs.Bmap(ino, n) else 0
    {
      Truncate.CutMap(fs, own, fs', own', ino, 0, n);
      Truncate.ErasedExactly(0, n);
    }
  }

  lemma OthersUncut(fs: Fs, own: Own, fs': Fs, own': Own, ino: nat)
    requires Good(fs, own, {}) && Good(fs', own', {}) && Truncate.Shrunk(fs, own, fs', own', ino)
    ensures OthersKept(fs, fs', ino)
  {
    forall j, x | 0 <= j < |fs.inodes| && j != ino && fs.inodes[j].Mapped() && 0 <= x < ADDRESSABLE
      ensures FileByte(fs', j, x) == FileByte(fs, j, x)
    {
      Truncate.CutSparesOthers(fs, own, fs', own', ino, j, x / BLOCK_SIZE);
    }
  }

  /** Truncation to zero, as open with O_TRUNC does it: size 0, then minix_truncate. */
  method Clear(v: Volume, ino: nat)
    requires v.Valid() && v.HasFile(ino)
    modifies v
    ensures v.Valid() && v.HasFile(ino) && v.inodes[ino].kind == old(v.inodes[ino].kind)
    ensures v.inodes[ino].size == 0 && Contents(v.View(), ino) == []
    ensures forall n :: 0 <= n < 0x1_0000 ==>
              v.View().Bmap(ino, n) == if Truncate.OutOfReach(0, n) then old(v.View().Bmap(ino, n)) else 0
    ensures old(Bounded(v.View(), ino)) ==>
              TailZero(v.View(), ino) && forall n :: 0 <= n < FILE_END ==> v.View().Bmap(ino, n) == 0
    ensures OthersKept(old(v.View()), v.View(), ino)
  {
    ghost var fs0, own0 := v.View(), v.own;
    Truncate.ResizeGood(fs0, own0, ino, 0);
    v.inodes := v.inodes[ino := v.inodes[ino].(size := 0)];
    ghost var fs1 := v.View();
    forall j, n ensures fs1.Bmap(j, n) == fs0.Bmap(j, n) { ResizeMap(fs0, ino, 0, j, n); }
    CutToNothing(v, ino);
    NothingLeft(fs1, own0, v.View(), v.own, ino);
    OthersUncut(fs1, own0, v.View(), v.own, ino);
    assert OthersKept(fs0, v.View(), ino);
    if Bounded(fs0, ino) { Truncate.TruncateWithinBound(fs1, own0, v.View(), v.own, ino, 0); }
  }

  /** The array cut or filled up with zeros to a size. */
  function Refitted(s: seq<Byte>, size: nat): (r: seq<Byte>)
    ensures |r| == size && forall x :: 0 <= x < size ==> r[x] == if x < |s| then s[x] else 0
  {
    seq(size, x requires 0 <= x => if x < |s| then s[x] else 0)
  }

  /** Only zeros from size to the end of its block. */
  ghost predicate GapZero(s: seq<Byte>, size: nat) {
    forall x :: size <= x < |s| && x / BLOCK_SIZE * BLOCK_SIZE < size ==> s[x] == 0
  }

  /** What is left of the bytes when every block with a byte below size is kept and no other. */
  lemma CutBytes(fs: Fs, own: Own, fs': Fs, own': Own, ino: nat, size: nat, d: nat, x: nat)
    requires Good(fs, own, {}) && Good(fs', own', {}) && Truncate.Cut(fs, own, fs', own', ino, d) && d <= 0x7fff
    requires ino < |fs.inodes| && fs.inodes[ino].Mapped() && Bounded(fs, ino) && x < ADDRESSABLE
    requires forall n :: 0 <= n < FILE_END ==> fs'.Bmap(ino, n) == if n < d then fs.Bmap(ino, n) else 0
    requires forall n: nat :: n < d <==> BLOCK_SIZE * n < size
    ensures FileByte(fs', ino, x) == if x / BLOCK_SIZE < d then FileByte(fs, ino, x) else 0
  {
    Truncate.CutMap(fs, own, fs', own', ino, d, x / BLOCK_SIZE);
  }

  /** do_truncate: the new size, then minix_truncate. Bytes between the size and the end of its block are not cleared:
    * there are only zeros past the end afterwards exactly if there were only zeros there before. */
  method Resize(v: Volume, ino: nat, size: nat)
    requires v.Valid() && v.HasFile(ino) && Bounded(v.View(), ino) && size <= LIMIT
    modifies v
    ensures v.Valid() && v.HasFile(ino) && v.inodes[ino].kind == old(v.inodes[ino].kind) && Bounded(v.View(), ino)
    ensures v.inodes[ino].size == size
    ensures forall x :: 0 <= x < ADDRESSABLE ==>
              FileByte(v.View(), ino, x)
              == if x / BLOCK_SIZE * BLOCK_SIZE < size then old(FileByte(v.View(), ino, x)) else 0
    ensures old(TailZero(v.View(), ino)) ==>
              && Contents(v.View(), ino) == Refitted(old(Contents(v.View(), ino)), size)
              && (TailZero(v.View(), ino) <==> GapZero(old(Contents(v.View(), ino)), size))
    ensures OthersKept(old(v.View()), v.View(), ino)
  {
    ghost var fs0, own0 := v.View(), v.own;
    Truncate.ResizeGood(fs0, own0, ino, size);
    v.inodes := v.inodes[ino := v.inodes[ino].(size := size)];
    ghost var fs1 := v.View();
    forall j, n ensures fs1.Bmap(j, n) == fs0.Bmap(j, n) { ResizeMap(fs0, ino, size, j, n); }
    var r := Truncate.Truncate(v, ino);
    ghost var d := Truncate.DirectBlock(size);
    forall n: nat ensures n < d <==> BLOCK_SIZE * n < size { Truncate.RoundsUp(size, n); }
    Truncate.TruncateWithinBound(fs1, own0, v.View(), v.own, ino, d);
    OthersUncut(fs1, own0, v.View(), v.own, ino);
    ResizedBytes(fs0, fs1, own0, v.View(), v.own, ino, size, d);
  }

  lemma ResizedBytes(fs0: Fs, fs: Fs, own: Own, fs': Fs, own': Own, ino: nat, size: nat, d: nat)
    requires Good(fs, own, {}) && Good(fs', own', {}) && Truncate.Cut(fs, own, fs', own', ino, d) && d <= 0x7fff
    requires ino < |fs.inodes| == |fs0.inodes| && fs.inodes[ino].Mapped() && Bounded(fs, ino)
    requires ino < |fs'.inodes| && fs'.inodes[ino].size == size <= LIMIT
    requires fs.disk == fs0.disk && forall n :: fs.Bmap(ino, n) == fs0.Bmap(ino, n)
    requires forall n :: 0 <= n < FILE_END ==> fs'.Bmap(ino, n) == if n < d then fs.Bmap(ino, n) else 0
    requires forall n: nat :: n < d <==> BLOCK_SIZE * n < size
    ensures forall x :: 0 <= x < ADDRESSABLE ==>
              FileByte(fs', ino, x) == if x / BLOCK_SIZE * BLOCK_SIZE < size then FileByte(fs0, ino, x) else 0
    ensures TailZero(fs0, ino) ==>
              && Contents(fs', ino) == Refitted(Contents(fs0, ino), size)
              && (TailZero(fs', ino) <==> GapZero(Contents(fs0, ino), size))
  {
    forall x: nat | x < ADDRESSABLE
      ensures FileByte(fs', ino, x) == if x / BLOCK_SIZE * BLOCK_SIZE < size then FileByte(fs0, ino, x) else 0
    {
      CutBytes(fs, own, fs', own', ino, size, d, x);
      assert x / BLOCK_SIZE < d <==> BLOCK_SIZE * (x / BLOCK_SIZE) < size;
    }
    if TailZero(fs0, ino) { ResizedArray(fs0, fs', ino, size); }
  }

  lemma ResizedArray(fs0: Fs, fs': Fs, ino: nat, size: nat)
    requires ino < |fs0.inodes| && ino < |fs'.inodes| && fs'.inodes[ino].size == size <= LIMIT && TailZero(fs0, ino)
    requires forall x :: 0 <= x < ADDRESSABLE ==>
               FileByte(fs', ino, x) == if x / BLOCK_SIZE * BLOCK_SIZE < size then FileByte(fs0, ino, x) else 0
    ensures Contents(fs', ino) == Refitted(Contents(fs0, ino), size)
    ensures TailZero(fs', ino) <==> GapZero(Contents(fs0, ino), size)
  {
    var c := Contents(fs0, ino);
    if TailZero(fs', ino) {
      forall x | size <= x < |c| && x / BLOCK_SIZE * BLOCK_SIZE < size ensures c[x] == 0 {
        assert FileByte(fs', ino, x) == FileByte(fs0, ino, x) == c[x];
      }
    }
    if GapZero(c, size) {
      forall x | size <= x < ADDRESSABLE ensures FileByte(fs', ino, x) == 0 {
        if x / BLOCK_SIZE * BLOCK_SIZE < size && x < |c| { assert FileByte(fs0, ino, x) == c[x]; }
      }
    }
  }

  datatype FileOp = WriteAt(pos: nat, data: seq<Byte>) | Append(data: seq<Byte>) | ReadAt(pos: nat, count: nat) | Empty

  /** Every count fits 16 bits and every write ends within the first 32767 blocks. */
  predicate Fits(size: nat, ops: seq<FileOp>)
    decreases ops
  {
    ops == [] ||
    match ops[0]
    case WriteAt(p, d) => |d| < 0x1_0000 && p + |d| <= LIMIT && Fits(Max(size, p + |d|), ops[1..])
    case Append(d) => |d| < 0x1_0000 && size + |d| <= LIMIT && Fits(size + |d|, ops[1..])
    case ReadAt(_, count) => count < 0x1_0000 && Fits(size, ops[1..])
    case Empty => Fits(0, ops[1..])
  }

  function Max(a: nat, b: nat): nat { if a < b then b else a }

  function Min(a: nat, b: nat): nat { if a < b then a else b }

  lemma FitsSmaller(s: nat, s': nat, ops: seq<FileOp>)
    requires Fits(s, ops) && s' <= s
    ensures Fits(s', ops)
    decreases ops
  {
    if ops != [] {
      match ops[0] {
        case WriteAt(p, d) => FitsSmaller(Max(s, p + |d|), Max(s', p + |d|), ops[1..]);
        case Append(d) => FitsSmaller(s + |d|, s' + |d|, ops[1..]);
        case ReadAt(_, _) => FitsSmaller(s, s', ops[1..]);
        case Empty =>
      }
    }
  }

  /** The plain byte array: what one operation leaves and delivers, w bytes having been accepted. */
  function ArrayAfter(s: seq<Byte>, op: FileOp, w: nat): (r: seq<Byte>)
    ensures op.WriteAt? && w <= |op.data| ==> Laid(s, op.pos, op.data[..w], r)
    ensures op.Append? && w <= |op.data| ==> r == s + op.data[..w]
    ensures op.ReadAt? ==> r == s
    ensures op.Empty? ==> r == []
  {
    match op
    case WriteAt(p, d) => if w <= |d| then Overlay(s, p, d[..w]) else s
    case Append(d) => if w <= |d| then Overlay(s, |s|, d[..w]) else s
    case ReadAt(_, _) => s
    case Empty => []
  }

  /** r holds d at position p, s elsewhere, and zeros in between. */
  ghost predicate Laid(s: seq<Byte>, p: nat, d: seq<Byte>, r: seq<Byte>) {
    && |r| == Max(|s|, p + |d|) && r[p..p + |d|] == d
    && forall x :: 0 <= x < |r| && !(p <= x < p + |d|) ==> r[x] == if x < |s| then s[x] else 0
  }

  /** What a read delivers: the longest stretch of the array from the position on that is asked for. */
  function ArrayRead(s: seq<Byte>, op: FileOp): (out: seq<Byte>)
    ensures op.ReadAt? ==> |out| <= op.count && (|out| < op.count ==> op.pos + |out| >= |s|)
    ensures op.ReadAt? && out != [] ==> op.pos + |out| <= |s| && out == s[op.pos..op.pos + |out|]
    ensures !op.ReadAt? ==> out == []
  {
    match op
    case ReadAt(p, count) => s[Min(p, |s|)..Min(p + count, |s|)]
    case _ => []
  }

  function ArrayRun(s: seq<Byte>, ops: seq<FileOp>, ws: seq<nat>): seq<Byte>
    requires |ws| == |ops|
  {
    if ops == [] then s else ArrayAfter(ArrayRun(s, ops[..|ops| - 1], ws[..|ops| - 1]), ops[|ops| - 1], ws[|ops| - 1])
  }

  /** A write that ends within the bound. */
  method BoundedWrite(v: Volume, ino: nat, p: nat, append: bool, d: seq<Byte>) returns (w: nat)
    requires v.Valid() && ino < |v.inodes| && v.inodes[ino].kind == Regular
    requires TailZero(v.View(), ino) && Bounded(v.View(), ino)
    requires |d| < 0x1_0000 && (if append then v.inodes[ino].size else p) + |d| <= LIMIT
    modifies v
    ensures v.Valid() && ino < |v.inodes| && v.inodes[ino].kind == Regular && w <= |d|
    ensures TailZero(v.View(), ino) && Bounded(v.View(), ino)
    ensures var start := if append then old(v.inodes[ino].size) else p;
            && Contents(v.View(), ino) == Overlay(old(Contents(v.View(), ino)), start, d[..w])
            && v.inodes[ino].size == Max(old(v.inodes[ino].size), start + w)
    ensures w < |d| ==> Truncate.Full(v.View())
    ensures OthersKept(old(v.View()), v.View(), ino)
  {
    ghost var s := Contents(v.View(), ino);
    var _, _, n := Write(v, ino, p, append, d);
    w := n;
    assert |Contents(v.View(), ino)| == v.inodes[ino].size && |s| == old(v.inodes[ino].size);
  }

  /** One operation on a regular file, and the same operation on the byte array. */
  method FileStep(v: Volume, ino: nat, op: FileOp) returns (out: seq<Byte>, w: nat)
    requires v.Valid() && ino < |v.inodes| && v.inodes[ino].kind == Regular
    requires TailZero(v.View(), ino) && Bounded(v.View(), ino) && v.inodes[ino].size <= LIMIT
    requires Fits(v.inodes[ino].size, [op])
    modifies v
    ensures v.Valid() && ino < |v.inodes| && v.inodes[ino].kind == Regular
    ensures TailZero(v.View(), ino) && Bounded(v.View(), ino)
    ensures Contents(v.View(), ino) == ArrayAfter(old(Contents(v.View(), ino)), op, w)
    ensures out == ArrayRead(old(Contents(v.View(), ino)), op)
    ensures v.inodes[ino].size <= match op
                                  case WriteAt(p, d) => Max(old(v.inodes[ino].size), p + |d|)
                                  case Append(d) => old(v.inodes[ino].size) + |d|
                                  case ReadAt(_, _) => old(v.inodes[ino].size)
                                  case Empty => 0
    ensures op.WriteAt? || op.Append? ==> w <= |op.data| && (w < |op.data| ==> Truncate.Full(v.View()))
    ensures OthersKept(old(v.View()), v.View(), ino)
  {
    out, w := [], 0;
    match op {
      case WriteAt(p, d) => w := BoundedWrite(v, ino, p, false, d);
      case Append(d) => w := BoundedWrite(v, ino, 0, true, d);
      case ReadAt(p, count) => var _, bytes, _ := Read(v, ino, p, count); out := bytes;
      case Empty => Clear(v, ino);
    }
  }

  /** What a run has delivered and accepted so far agrees with the byte array, which holds c now. */
  ghost predicate Agrees(s: seq<Byte>, ops: seq<FileOp>, outs: seq<seq<Byte>>, ws: seq<nat>, c: seq<Byte>) {
    && |outs| == |ws| == |ops|
    && (forall i :: 0 <= i < |ops| ==> outs[i] == ArrayRead(ArrayRun(s, ops[..i], ws[..i]), ops[i]))
    && c == ArrayRun(s, ops, ws)
  }

  lemma AgreesStep(s: seq<Byte>, ops: seq<FileOp>, outs: seq<seq<Byte>>, ws: seq<nat>, c: seq<Byte>,
                   op: FileOp, w: nat, c': seq<Byte>)
    requires Agrees(s, ops, outs, ws, c) && c' == ArrayAfter(c, op, w)
    ensures Agrees(s, ops + [op], outs + [ArrayRead(c, op)], ws + [w], c')
  {
    var ops', ws' := ops + [op], ws + [w];
    assert ops'[..|ops|] == ops && ws'[..|ops|] == ws;
    forall i | 0 <= i < |ops| ensures ops'[..i] == ops[..i] && ws'[..i] == ws[..i] { }
  }

  /** After each operation the file was the byte array, and the volume was full if a write had not gone in whole. */
  ghost predicate Seen(s: seq<Byte>, ops: seq<FileOp>, ws: seq<nat>, views: seq<Fs>, ino: nat) {
    && |views| == |ws| == |ops|
    && forall i :: 0 <= i < |ops| ==> SeenAt(s, ops, ws, views[i], ino, i)
  }

  ghost predicate SeenAt(s: seq<Byte>, ops: seq<FileOp>, ws: seq<nat>, view: Fs, ino: nat, i: nat)
    requires i < |ops| == |ws|
  {
    && ino < |view.inodes| && Contents(view, ino) == ArrayRun(s, ops[..i + 1], ws[..i + 1])
    && (ops[i].WriteAt? || ops[i].Append? ==>
          ws[i] <= |ops[i].data|
          && (ws[i] < |ops[i].data| ==> Truncate.Full(view)))
  }

  lemma SeenNow(s: seq<Byte>, ops: seq<FileOp>, ws: seq<nat>, op: FileOp, w: nat, view: Fs, ino: nat)
    requires |ws| == |ops| && ino < |view.inodes| && Contents(view, ino) == ArrayRun(s, ops + [op], ws + [w])
    requires op.WriteAt? || op.Append? ==>
               w <= |op.data| && (w < |op.data| ==> Truncate.Full(view))
    ensures SeenAt(s, ops + [op], ws + [w], view, ino, |ops|)
  {
    assert (ops + [op])[..|ops| + 1] == ops + [op] && (ws + [w])[..|ws| + 1] == ws + [w];
  }

  lemma SeenStep(s: seq<Byte>, ops: seq<FileOp>, ws: seq<nat>, views: seq<Fs>, ino: nat, op: FileOp, w: nat, view: Fs)
    requires Seen(s, ops, ws, views, ino) && SeenAt(s, ops + [op], ws + [w], view, ino, |ops|)
    ensures Seen(s, ops + [op], ws + [w], views + [view], ino)
  {
    forall i | 0 <= i < |ops| ensures SeenAt(s, ops + [op], ws + [w], (views + [view])[i], ino, i) {
      assert SeenAt(s, ops, ws, views[i], ino, i);
      assert (ops + [op])[..i + 1] == ops[..i + 1] && (ws + [w])[..i + 1] == ws[..i + 1];
    }
  }

  ghost predicate Tracked(s: seq<Byte>, ops: seq<FileOp>, outs: seq<seq<Byte>>, ws: seq<nat>, views: seq<Fs>,
                          c: seq<Byte>, ino: nat)
  {
    Agrees(s, ops, outs, ws, c) && Seen(s, ops, ws, views, ino)
  }

  lemma TrackedStep(s: seq<Byte>, ops: seq<FileOp>, outs: seq<seq<Byte>>, ws: seq<nat>, views: seq<Fs>,
                    c: seq<Byte>, op: FileOp, w: nat, view: Fs, ino: nat)
    requires Tracked(s, ops, outs, ws, views, c, ino)
    requires ino < |view.inodes| && Contents(view, ino) == ArrayAfter(c, op, w)
    requires op.WriteAt? || op.Append? ==>
               w <= |op.data| && (w < |op.data| ==> Truncate.Full(view))
    ensures Tracked(s, ops + [op], outs + [ArrayRead(c, op)], ws + [w], views + [view], Contents(view, ino), ino)
  {
    AgreesStep(s, ops, outs, ws, c, op, w, Contents(view, ino));
    SeenNow(s, ops, ws, op, w, view, ino);
    SeenStep(s, ops, ws, views, ino, op, w, view);
  }

  /** Any run of writes, appends, reads and truncations to zero: every read delivers what the byte array
    * holds, and the file ends as the byte array does. ws[i] is what operation i accepted, all of its data unless the
    * volume was full then. */
  method FileRun(v: Volume, ino: nat, ops: seq<FileOp>)
      returns (outs: seq<seq<Byte>>, ws: seq<nat>, ghost views: seq<Fs>)
    requires v.Valid() && ino < |v.inodes| && v.inodes[ino].kind == Regular
    requires TailZero(v.View(), ino) && Bounded(v.View(), ino) && v.inodes[ino].size <= LIMIT
    requires Fits(v.inodes[ino].size, ops)
    modifies v
    ensures v.Valid() && ino < |v.inodes|
    ensures Agrees(old(Contents(v.View(), ino)), ops, outs, ws, Contents(v.View(), ino))
    ensures Seen(old(Contents(v.View(), ino)), ops, ws, views, ino)
  {
    outs, ws, views := [], [], [];
    ghost var s := Contents(v.View(), ino);
    var i := 0;
    while i < |ops|
      invariant 0 <= i <= |ops|
      invariant v.Valid() && ino < |v.inodes| && v.inodes[ino].kind == Regular
      invariant TailZero(v.View(), ino) && Bounded(v.View(), ino) && v.inodes[ino].size <= LIMIT
      invariant Fits(v.inodes[ino].size, ops[i..])
      invariant Tracked(s, ops[..i], outs, ws, views, Contents(v.View(), ino), ino)
    {
      ghost var size, c := v.inodes[ino].size, Contents(v.View(), ino);
      FitsHead(size, ops[i..]);
      var out, w := FileStep(v, ino, ops[i]);
      FitsTail(size, ops[i..], v.inodes[ino].size);
      TrackedStep(s, ops[..i], outs, ws, views, c, ops[i], w, v.View(), ino);
      assert ops[i..][1..] == ops[i + 1..] && ops[..i] + [ops[i]] == ops[..i + 1];
      views := views + [v.View()];
      outs, ws, i := outs + [out], ws + [w], i + 1;
    }
    assert ops[..i] == ops;
  }

  lemma FitsHead(size: nat, ops: seq<FileOp>)
    requires ops != [] && Fits(size, ops)
    ensures Fits(size, [ops[0]])
  {
  }

  lemma FitsTail(size: nat, ops: seq<FileOp>, size': nat)
    requires ops != [] && Fits(size, ops) && size <= LIMIT
    requires size' <= match ops[0]
                      case WriteAt(p, d) => Max(size, p + |d|)
                      case Append(d) => size + |d|
                      case ReadAt(_, _) => size
                      case Empty => 0
    ensures Fits(size', ops[1..]) && size' <= LIMIT
  {
    match ops[0] {
      case WriteAt(p, d) => FitsSmaller(Max(size, p + |d|), size', ops[1..]);
      case Append(d) => FitsSmaller(size + |d|, size', ops[1..]);
      case ReadAt(_, _) => FitsSmaller(size, size', ops[1..]);
      case Empty =>
    }
  }
}
