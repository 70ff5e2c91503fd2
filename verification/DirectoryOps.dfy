/** fs/minix/namei.c at work: scanning and editing directories block by block. */
module DirectoryOps {
  import opened Directory
  import opened LinkCounts

  const ENTRY := 16
  const BLOCK := 1024

  /** The name a lookup looks for: cut to 14 bytes, and "." for the empty name. */
  function Key(name: string): string { if name == "" then "." else Cut(name) }

  /** minix_match on a name of at most 14 bytes. */
  predicate Match(name: string, d: Dirent) {
    d.ino != 0 && ((name == "" && d.name[0] == '.' && d.name[1] == '\0') || Compare(name, d.name))
  }

  lemma MatchIsKey(e: seq<Dirent>, i: nat, name: string)
    requires Formed(e) && i < |e| && '\0' !in name
    ensures Match(Cut(name), e[i]) <==> Live(e, i) && Text(e[i].name) == Key(name)
  {
    var n := Cut(name);
    assert '\0' !in n;
    CompareIsEqual(n, e[i].name);
    CompareIsEqual(".", e[i].name);
    assert Compare(".", e[i].name) <==> e[i].name[0] == '.' && e[i].name[1] == '\0' by {
      assert e[i].name[..1] == [e[i].name[0]];
    }
  }

  /** Where minix_add_entry stops: at the first entry that is free or has the name, or at the end. */
  function StopAt(e: seq<Dirent>, name: string, i: nat): (k: nat)
    requires i <= |e|
    ensures i <= k <= |e| && (k < |e| && Live(e, k) ==> Text(e[k].name) == name)
    ensures forall j :: i <= j < k ==> Live(e, j) && Text(e[j].name) != name
    decreases |e| - i
  {
    if i == |e| || !Live(e, i) || Text(e[i].name) == name then i else StopAt(e, name, i + 1)
  }

  /** An entry of that name comes before any free one. */
  ghost predicate Met(e: seq<Dirent>, name: string, k: nat) {
    k < |e| && Text(e[k].name) == name && forall j :: 0 <= j <= k ==> Live(e, j)
  }

  /** Every entry is taken by another name. */
  ghost predicate AllOthers(e: seq<Dirent>, name: string) {
    forall j :: 0 <= j < |e| ==> Live(e, j) && Text(e[j].name) != name
  }

  /** A new block is needed when the entry is the first of one. */
  function AddCode(e: seq<Dirent>, name: string, space: bool): (r: Code)
    ensures r == ENOENT <==> name == ""
    ensures r == EEXIST <==> name != "" && exists k :: Met(e, name, k)
    ensures r == ENOSPC <==> name != "" && AllOthers(e, name) && |e| % PER_BLOCK == 0 && !space
    ensures r in {ENOENT, EEXIST, ENOSPC, Code.Ok}
  {
    var k := StopAt(e, name, 0);
    assert Met(e, name, k) <==> k < |e| && Live(e, k);
    assert forall m :: Met(e, name, m) ==> k <= m && Live(e, k);
    if name == "" then ENOENT
    else if Live(e, k) then EEXIST
    else if k == |e| && k % PER_BLOCK == 0 && !space then ENOSPC
    else Code.Ok
  }

  /** After a miss the entry found is free. */
  lemma {:induction false} StopFree(e: seq<Dirent>, name: string, i: nat)
    requires i <= |e| && forall j :: i <= j < |e| ==> !(Live(e, j) && Text(e[j].name) == name)
    ensures !Live(e, StopAt(e, name, i))
    decreases |e| - i
  {
    if i < |e| && Live(e, i) { StopFree(e, name, i + 1); }
  }

  /** Entry k of a directory is at this offset of this block. */
  predicate At(block: nat, offset: nat, k: nat) {
    offset < BLOCK && offset % ENTRY == 0 && block * BLOCK + offset == ENTRY * k
  }

  ghost function Slot(fs: Fs, d: nat, name: string): (k: nat)
    requires d < |fs|
    ensures k <= |fs[d].entries|
  {
    StopAt(fs[d].entries, Cut(name), 0)
  }

  /** The directory has a live entry of that name. */
  predicate Has(fs: Fs, d: nat, name: string)
    requires d < |fs|
  {
    Where(fs[d].entries, Key(name), 0) < |fs[d].entries|
  }

  /** The inode that a name stands for. */
  ghost function Target(fs: Fs, d: nat, name: string): (c: nat)
    requires Good(fs) && d < |fs| && fs[d].dir && Has(fs, d, name)
    ensures c == Ino(fs[d].entries, Key(name)) && 0 < c < |fs|
  {
    assert ShapeAt(fs, d);
    Ino(fs[d].entries, Key(name))
  }

  lemma AddAfterMiss(fs: Fs, d: nat, name: string, c: nat)
    requires Shape(fs) && d < |fs| && fs[d].dir && 0 < c < |fs| && '\0' !in name
    requires !Has(fs, d, name)
    ensures CanAdd(fs, d, Slot(fs, d, name), Cut(name), c)
  {
    assert ShapeAt(fs, d);
    assert '\0' !in Cut(name);
    assert Text(fs[d].entries[0].name) == ".";
    StopFree(fs[d].entries, Cut(name), 0);
  }

  /** Directory d gets the name for inode c, and keeps every other name as it was. */
  ghost predicate Gains(was: Fs, now: Fs, d: nat, name: string, c: nat) {
    && |was| == |now| && d < |was|
    && forall s :: Ino(now[d].entries, s) == if s == Cut(name) then c else Ino(was[d].entries, s)
  }

  /** Directory d loses the name, and keeps every other name as it was. */
  ghost predicate Loses(was: Fs, now: Fs, d: nat, name: string) {
    && |was| == |now| && d < |was|
    && forall s :: Ino(now[d].entries, s) == if s == Key(name) then 0 else Ino(was[d].entries, s)
  }

  lemma LinkedGains(fs: Fs, d: nat, name: string, c: nat)
    requires d < |fs| && Storable(fs[d].entries, Slot(fs, d, name), Cut(name), c)
    ensures Gains(fs, Linked(fs, d, Slot(fs, d, name), Cut(name), c), d, name, c)
  {
    forall s
      ensures Ino(Linked(fs, d, Slot(fs, d, name), Cut(name), c)[d].entries, s)
              == if s == Cut(name) then c else Ino(fs[d].entries, s)
    {
      StoredInserts(fs[d].entries, Slot(fs, d, name), Cut(name), c, s);
    }
  }

  lemma UnlinkedLoses(fs: Fs, d: nat, name: string)
    requires Shape(fs) && d < |fs| && fs[d].dir && Has(fs, d, name)
    ensures Loses(fs, Unlinked(fs, d, Where(fs[d].entries, Key(name), 0)), d, name)
  {
    assert ShapeAt(fs, d);
    var k := Where(fs[d].entries, Key(name), 0);
    forall s ensures Ino(Unlinked(fs, d, k)[d].entries, s) == if s == Key(name) then 0 else Ino(fs[d].entries, s) {
      ErasedDeletes(fs[d].entries, k, s);
    }
  }

  class MinixFs {
    var fs: Fs

    constructor (f: Fs)
      requires Good(f)
      ensures fs == f
    {
      fs := f;
    }

    /** minix_find_entry: the entry of that name, or the end of the directory. */
    method FindEntry(d: nat, name: string) returns (k: nat)
      requires d < |fs| && Formed(fs[d].entries) && '\0' !in name
      ensures k == Where(fs[d].entries, Key(name), 0)
    {
      var e := fs[d].entries;
      var n := Cut(name);
      var block: nat, offset: nat := 0, 0;
      k := 0;
      while block * BLOCK + offset < ENTRY * |e|
        invariant At(block, offset, k) && k <= |e| && Where(e, Key(name), k) == Where(e, Key(name), 0)
        decreases |e| - k
      {
        MatchIsKey(e, k, name);
        if Match(n, e[k]) { return; }
        block, offset, k := Advance(block, offset, k);
      }
    }

    /** The scan of minix_add_entry. */
    method FindFree(e: seq<Dirent>, n: string, space: bool) returns (r: Code, k: nat)
      requires Formed(e) && '\0' !in n && 0 < |n| <= NAME_LEN
      ensures r == AddCode(e, n, space) && (r.Ok? ==> k == StopAt(e, n, 0))
    {
      var block: nat, offset: nat := 0, 0;
      k := 0;
      while true
        invariant At(block, offset, k) && k <= |e| && StopAt(e, n, k) == StopAt(e, n, 0)
        decreases |e| - k
      {
        if offset == 0 && k == |e| && !space { return ENOSPC, k; }
        // past the end the file grows by a free entry
        if block * BLOCK + offset + ENTRY > ENTRY * |e| { return Code.Ok, k; }
        if e[k].ino == 0 { return Code.Ok, k; }
        CompareIsEqual(n, e[k].name);
        if Compare(n, e[k].name) { return EEXIST, k; }
        block, offset, k := Advance(block, offset, k);
      }
    }

    /** On to the next entry, in the next block at the end of one. */
    method Advance(block: nat, offset: nat, k: nat) returns (b: nat, o: nat, n: nat)
      requires At(block, offset, k)
      ensures At(b, o, n) && n == k + 1
    {
      b, o, n := block, offset + ENTRY, k + 1;
      if o < BLOCK { return; }
      o := 0;
      b := b + 1;
    }

    /** minix_add_entry: the entry gets its name; its inode number stays 0 for the caller to fill in. */
    method AddEntry(d: nat, name: string, space: bool) returns (r: Code, k: nat)
      requires d < |fs| && Formed(fs[d].entries) && '\0' !in name
      modifies this
      ensures r == AddCode(old(fs[d].entries), Cut(name), space)
      ensures !r.Ok? ==> fs == old(fs)
      ensures r.Ok? ==> k == StopAt(old(fs[d].entries), Cut(name), 0) && fs == Linked(old(fs), d, k, Cut(name), 0)
    {
      var n := Cut(name);
      if n == "" { return ENOENT, 0; }
      var e := fs[d].entries;
      assert '\0' !in n;
      r, k := FindFree(e, n, space);
      if r != Code.Ok { return; }
      fs := fs[d := fs[d].(entries := if k == |e| then e + [Dirent(0, Pad(n))] else e[k := Dirent(0, Pad(n))])];
    }

    /** minix_add_entry, and the caller filling in the inode number. */
    method Insert(d: nat, name: string, c: nat, space: bool) returns (r: Code)
      requires d < |fs| && Formed(fs[d].entries) && '\0' !in name
      modifies this
      ensures r == AddCode(old(fs[d].entries), Cut(name), space)
      ensures fs == if r.Ok? then Linked(old(fs), d, Slot(old(fs), d, name), Cut(name), c) else old(fs)
    {
      var k: nat;
      r, k := AddEntry(d, name, space);
      if r == Code.Ok {
        fs := fs[d := fs[d].(entries := fs[d].entries[k := fs[d].entries[k].(ino := c)])];
        assert fs[d].entries == Stored(old(fs[d].entries), k, Cut(name), c);
      }
    }

    /** A lookup of a name is the map's value. */
    method Lookup(d: nat, name: string) returns (c: nat)
      requires Good(fs) && d < |fs| && fs[d].dir && '\0' !in name
      ensures c == Ino(fs[d].entries, Key(name))
    {
      assert ShapeAt(fs, d);
      var k := FindEntry(d, name);
      c := if k < |fs[d].entries| then fs[d].entries[k].ino else 0;
    }

    /** minix_mknod. vacant is the number that minix_new_inode gives, 0 if it gives none. */
    method Mknod(d: nat, name: string, vacant: nat, space: bool) returns (r: Code)
      requires Good(fs) && d < |fs| && fs[d].dir && '\0' !in name && vacant < |fs| && !fs[vacant].alive
      modifies this
      ensures Good(fs) && (!r.Ok? ==> fs == old(fs))
      ensures r.Ok? ==> vacant != d && fs == NewFile(old(fs), d, Slot(old(fs), d, name), Cut(name), vacant)
      ensures r.Ok? ==> Gains(old(fs), fs, d, name, vacant)
      ensures r == if Has(old(fs), d, name) then EEXIST else if vacant == 0 then ENOSPC
                else AddCode(old(fs[d].entries), Cut(name), space)
    {
      assert ShapeAt(fs, d) && ShapeAt(fs, vacant) && fs[vacant] == DEAD;
      var k := FindEntry(d, name);
      if k < |fs[d].entries| { return EEXIST; }
      if vacant == 0 { return ENOSPC; }
      AddAfterMiss(fs, d, name, vacant);
      NewFileGood(fs, d, Slot(fs, d, name), Cut(name), vacant);
      fs := fs[vacant := MInode(true, false, 1, [])];
      LinkedGains(fs, d, name, vacant);
      r := Insert(d, name, vacant, space);
      // on failure the link count goes to 0 and the last iput frees the inode
      if r != Code.Ok {
        fs := fs[vacant := DEAD];
        assert fs == old(fs);
      }
    }

    /** minix_link. */
    method Link(o: nat, d: nat, name: string, space: bool) returns (r: Code)
      requires Good(fs) && d < |fs| && fs[d].dir && '\0' !in name && 0 < o < |fs| && fs[o].alive
      modifies this
      ensures Good(fs) && (!r.Ok? ==> fs == old(fs))
      ensures r.Ok? ==>
                fs == MoreLinks(old(fs), d, Slot(old(fs), d, name), Cut(name), o) && Gains(old(fs), fs, d, name, o)
      ensures r == if old(fs[o].dir) then EPERM else if old(fs[o].nlink) >= LINK_MAX then EMLINK
                   else if Has(old(fs), d, name) then EEXIST else AddCode(old(fs[d].entries), Cut(name), space)
    {
      if fs[o].dir { return EPERM; }
      if fs[o].nlink >= LINK_MAX { return EMLINK; }
      assert ShapeAt(fs, d);
      var k := FindEntry(d, name);
      if k < |fs[d].entries| { return EEXIST; }
      AddAfterMiss(fs, d, name, o);
      MoreLinksGood(fs, d, Slot(fs, d, name), Cut(name), o);
      LinkedGains(fs, d, name, o);
      r := Insert(d, name, o, space);
      if r == Code.Ok { fs := fs[o := fs[o].(nlink := fs[o].nlink + 1)]; }
    }

    /** minix_unlink. denied says that the sticky bit forbids it. */
    method Unlink(d: nat, name: string, denied: bool) returns (r: Code)
      requires Good(fs) && d < |fs| && fs[d].dir && '\0' !in name
      modifies this
      ensures Good(fs) && (!r.Ok? ==> fs == old(fs))
      ensures r == if !Has(old(fs), d, name) then ENOENT
                   else if old(fs)[Target(old(fs), d, name)].dir || denied then EPERM else Code.Ok
      ensures r.Ok? ==> Has(old(fs), d, name) && Ino(old(fs[d].entries), Key(name)) < |old(fs)|
                        && fs == FewerLinks(old(fs), d, Where(old(fs[d].entries), Key(name), 0))
                            && Loses(old(fs), fs, d, name)
    {
      assert ShapeAt(fs, d);
      var k := FindEntry(d, name);
      if k == |fs[d].entries| { return ENOENT; }
      var o := fs[d].entries[k].ino;
      if fs[o].dir { return EPERM; }
      if denied { return EPERM; }
      UnlinkedLoses(fs, d, name);
      FewerLinksGood(fs, d, k);
      // a link count of 0, which the original repairs here, does not occur
      fs := fs[d := fs[d].(entries := Erased(fs[d].entries, k))];
      fs := fs[o := fs[o].(nlink := fs[o].nlink - 1)];
      assert fs == FewerLinks(old(fs), d, k);
      r := Code.Ok;
    }

    /** minix_mkdir. block says that the new directory's block can be had. */
    method Mkdir(d: nat, name: string, vacant: nat, block: bool, space: bool) returns (r: Code)
      requires Good(fs) && d < |fs| && fs[d].dir && '\0' !in name && vacant < |fs| && !fs[vacant].alive
      modifies this
      ensures Good(fs) && (!r.Ok? ==> fs == old(fs))
      ensures r.Ok? ==> vacant != d && fs == NewDirectory(old(fs), d, Slot(old(fs), d, name), Cut(name), vacant)
      ensures r.Ok? ==> Gains(old(fs), fs, d, name, vacant)
      ensures r == if Has(old(fs), d, name) then EEXIST else if old(fs[d].nlink) >= LINK_MAX then EMLINK
                   else if vacant == 0 || !block then ENOSPC else AddCode(old(fs[d].entries), Cut(name), space)
    {
      assert ShapeAt(fs, d) && ShapeAt(fs, vacant) && fs[vacant] == DEAD && d > 0;
      var k := FindEntry(d, name);
      if k < |fs[d].entries| { return EEXIST; }
      if fs[d].nlink >= LINK_MAX { return EMLINK; }
      if vacant == 0 || !block { return ENOSPC; }
      r := AddDirectory(d, name, vacant, space);
    }

    /** minix_mkdir once it has an inode and a block. */
    method AddDirectory(d: nat, name: string, vacant: nat, space: bool) returns (r: Code)
      requires Good(fs) && 0 < d < |fs| && fs[d].dir && '\0' !in name && 0 < vacant < |fs| && fs[vacant] == DEAD
      requires !Has(fs, d, name)
      modifies this
      ensures Good(fs) && (!r.Ok? ==> fs == old(fs))
      ensures r.Ok? ==> vacant != d && fs == NewDirectory(old(fs), d, Slot(old(fs), d, name), Cut(name), vacant)
      ensures r.Ok? ==> Gains(old(fs), fs, d, name, vacant)
      ensures r == AddCode(old(fs[d].entries), Cut(name), space)
    {
      assert Formed(fs[d].entries) by { assert ShapeAt(fs, d); }
      AddAfterMiss(fs, d, name, vacant);
      NewDirectoryGood(fs, d, Slot(fs, d, name), Cut(name), vacant);
      fs := fs[vacant := MInode(true, true, 2, [Dirent(vacant, Pad("."))] + [Dirent(d, Pad(".."))])];
      LinkedGains(fs, d, name, vacant);
      r := Insert(d, name, vacant, space);
      if r == Code.Ok {
        fs := fs[d := fs[d].(nlink := fs[d].nlink + 1)];
      } else {
        // the link count goes to 0 and the last iput frees the inode and its block
        fs := fs[vacant := DEAD];
        assert fs == old(fs);
      }
    }

    /** empty_dir of a directory that begins with "." and "..". */
    method EmptyDir(c: nat) returns (r: bool)
      requires c < |fs| && |fs[c].entries| > 1
      ensures r <==> Empty(fs[c].entries)
    {
      var e := fs[c].entries;
      var block: nat, offset: nat, k: nat := 0, 2 * ENTRY, 2;
      while block * BLOCK + offset < ENTRY * |e|
        invariant At(block, offset, k) && 2 <= k <= |e| && forall j :: 2 <= j < k ==> !Live(e, j)
        decreases |e| - k
      {
        if e[k].ino != 0 {
          assert Live(e, k);
          return false;
        }
        block, offset, k := Advance(block, offset, k);
      }
      r := true;
    }

    /** minix_rmdir. denied says that the sticky bit forbids it, busy that others hold the directory. */
    method Rmdir(d: nat, name: string, denied: bool, busy: bool) returns (r: Code)
      requires Good(fs) && d < |fs| && fs[d].dir && '\0' !in name
      modifies this
      ensures Good(fs) && (!r.Ok? ==> fs == old(fs))
      ensures r.Ok? ==> Has(old(fs), d, name) && CanRemove(old(fs), d, Where(old(fs[d].entries), Key(name), 0))
                        && fs == Removed(old(fs), d, Where(old(fs[d].entries), Key(name), 0))
                            && Loses(old(fs), fs, d, name)
      ensures r == if !Has(old(fs), d, name) then ENOENT
                   else var c := Target(old(fs), d, name);
                        if denied || c == d then EPERM
                        else if !old(fs)[c].dir then ENOTDIR
                        else if exists k :: 2 <= k < |old(fs)[c].entries| && Live(old(fs)[c].entries, k) then ENOTEMPTY
                        else if busy then EBUSY
                        else Code.Ok
    {
      assert ShapeAt(fs, d);
      var k := FindEntry(d, name);
      if k == |fs[d].entries| { return ENOENT; }
      var c := fs[d].entries[k].ino;
      if denied || c == d { return EPERM; }
      if !fs[c].dir { return ENOTDIR; }
      DotsAreDirs(fs, c);
      var empty := EmptyDir(c);
      if !empty { return ENOTEMPTY; }
      if busy { return EBUSY; }
      UnlinkedLoses(fs, d, name);
      DotCounts(fs, d);
      RemovedGood(fs, d, k);
      fs := fs[d := fs[d].(entries := Erased(fs[d].entries, k))];
      fs := fs[d := fs[d].(nlink := fs[d].nlink - 1)];
      fs := fs[c := DEAD];
      assert fs == Removed(old(fs), d, k);
      r := Code.Ok;
    }
  }
}
