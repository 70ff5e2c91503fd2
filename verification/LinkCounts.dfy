/** The operations on Minix directories (fs/minix/namei.c), and the link counts of the inodes they name. */
module LinkCounts {
  import opened Directory

  /** An inode as these operations see it; only a directory has entries. */
  datatype MInode = MInode(alive: bool, dir: bool, nlink: nat, entries: seq<Dirent>)

  /** All inodes by number. Number 0 is none. */
  type Fs = seq<MInode>

  const DEAD := MInode(false, false, 0, [])

  datatype Code = Ok | ENOENT | EEXIST | EPERM | ENOTDIR | ENOTEMPTY | ENOSPC | EMLINK | EBUSY

  // ---------------------------------------------------------------- counting entries

  function One(b: bool): nat { if b then 1 else 0 }

  /** The live entries of a directory that name inode x. */
  function CountIn(e: seq<Dirent>, x: nat): nat {
    if e == [] then 0 else One(e[0].ino != 0 && e[0].ino == x) + CountIn(e[1..], x)
  }

  function Named(d: Dirent, x: nat): nat { One(d.ino != 0 && d.ino == x) }

  lemma {:induction false} CountUpdate(e: seq<Dirent>, i: nat, d: Dirent, x: nat)
    requires i < |e|
    ensures CountIn(e[i := d], x) == CountIn(e, x) - Named(e[i], x) + Named(d, x)
    decreases i
  {
    if i == 0 {
      assert e[i := d][1..] == e[1..];
    } else {
      assert e[i := d][1..] == e[1..][i - 1 := d];
      CountUpdate(e[1..], i - 1, d, x);
    }
  }

  lemma {:induction false} CountPush(e: seq<Dirent>, d: Dirent, x: nat)
    ensures CountIn(e + [d], x) == CountIn(e, x) + Named(d, x)
  {
    if e == [] {
      assert e + [d] == [d] && [d][1..] == [];
    } else {
      assert (e + [d])[1..] == e[1..] + [d];
      CountPush(e[1..], d, x);
    }
  }

  lemma CountStored(e: seq<Dirent>, i: nat, name: string, ino: nat, x: nat)
    requires i <= |e| && !Live(e, i) && |name| <= NAME_LEN
    ensures CountIn(Stored(e, i, name, ino), x) == CountIn(e, x) + One(ino != 0 && ino == x)
  {
    var d := Dirent(ino, Pad(name));
    if i == |e| { CountPush(e, d, x); } else { CountUpdate(e, i, d, x); }
  }

  lemma CountErased(e: seq<Dirent>, i: nat, x: nat)
    requires Live(e, i)
    ensures CountIn(Erased(e, i), x) == CountIn(e, x) - One(e[i].ino == x)
  {
    CountUpdate(e, i, e[i].(ino := 0), x);
  }

  /** The live entries of all directories that name inode x. */
  function Refs(fs: Fs, x: nat): nat {
    if fs == [] then 0 else CountIn(fs[0].entries, x) + Refs(fs[1..], x)
  }

  lemma {:induction false} RefsUpdate(fs: Fs, k: nat, m: MInode, x: nat)
    requires k < |fs|
    ensures Refs(fs[k := m], x) == Refs(fs, x) - CountIn(fs[k].entries, x) + CountIn(m.entries, x)
    decreases k
  {
    if k == 0 {
      assert fs[k := m][1..] == fs[1..];
    } else {
      assert fs[k := m][1..] == fs[1..][k - 1 := m];
      RefsUpdate(fs[1..], k - 1, m, x);
    }
  }

  // ---------------------------------------------------------------- well-formed file systems

  /** A directory: distinct names, "." naming itself first, ".." second. */
  ghost predicate DirAt(fs: Fs, x: nat)
    requires x < |fs|
  {
    var e := fs[x].entries;
    && Formed(e) && Live(e, 0) && Live(e, 1) && Text(e[0].name) == "." && Text(e[1].name) == ".." && e[0].ino == x
    && forall i :: Live(e, i) ==> e[i].ino < |fs|
  }

  ghost predicate ShapeAt(fs: Fs, x: nat) {
    x < |fs| ==>
      && (fs[x].dir ==> fs[x].alive && DirAt(fs, x))
      && (!fs[x].dir ==> fs[x].entries == [])
      && (!fs[x].alive ==> fs[x].nlink == 0)
  }

  /** An entry past "." and ".." that names x. */
  ghost predicate Lists(e: seq<Dirent>, x: nat) { exists i :: 2 <= i && Live(e, i) && e[i].ino == x }

  /** The directory that ".." names has an entry for this one; the root is its own. */
  ghost predicate HomeAt(fs: Fs, x: nat) {
    x < |fs| && fs[x].dir && |fs[x].entries| > 1 && fs[x].entries[1].ino != x ==>
      fs[x].entries[1].ino < |fs| && Lists(fs[fs[x].entries[1].ino].entries, x)
  }

  /** A directory is listed only there, and only once. */
  ghost predicate OnceAt(fs: Fs, y: nat, i: nat) {
    y < |fs| && 2 <= i && Live(fs[y].entries, i) && fs[y].entries[i].ino < |fs| && fs[fs[y].entries[i].ino].dir
    && |fs[fs[y].entries[i].ino].entries| > 1 ==>
      && fs[fs[y].entries[i].ino].entries[1].ino == y
      && forall j :: 2 <= j && Live(fs[y].entries, j) && fs[y].entries[j].ino == fs[y].entries[i].ino ==> j == i
  }

  ghost predicate Shape(fs: Fs) {
    && |fs| > 0 && !fs[0].alive
    && (forall x :: ShapeAt(fs, x)) && (forall x :: HomeAt(fs, x)) && (forall y, i :: OnceAt(fs, y, i))
  }

  /** i_nlink is the number of live entries naming the inode. */
  ghost predicate LinkAt(fs: Fs, x: nat) { 0 < x < |fs| ==> fs[x].nlink == Refs(fs, x) }

  ghost predicate LinksRight(fs: Fs) { forall x :: LinkAt(fs, x) }

  /** Directory d gets an entry for inode c, whose link count becomes n. */
  function Linked(fs: Fs, d: nat, i: nat, name: string, c: nat): Fs
    requires d < |fs| && i <= |fs[d].entries| && |name| <= NAME_LEN
  {
    fs[d := fs[d].(entries := Stored(fs[d].entries, i, name, c))]
  }

  function Unlinked(fs: Fs, d: nat, i: nat): Fs
    requires d < |fs| && i < |fs[d].entries|
  {
    fs[d := fs[d].(entries := Erased(fs[d].entries, i))]
  }

  function Counted(fs: Fs, x: nat, n: nat): Fs
    requires x < |fs|
  {
    fs[x := fs[x].(nlink := n)]
  }

  lemma LinkedRefs(fs: Fs, d: nat, i: nat, name: string, c: nat, x: nat)
    requires d < |fs| && i <= |fs[d].entries| && !Live(fs[d].entries, i) && |name| <= NAME_LEN && c > 0
    ensures Refs(Linked(fs, d, i, name, c), x) == Refs(fs, x) + One(c == x)
  {
    RefsUpdate(fs, d, Linked(fs, d, i, name, c)[d], x);
    CountStored(fs[d].entries, i, name, c, x);
  }

  lemma UnlinkedRefs(fs: Fs, d: nat, i: nat, x: nat)
    requires d < |fs| && Live(fs[d].entries, i)
    ensures Refs(Unlinked(fs, d, i), x) == Refs(fs, x) - One(fs[d].entries[i].ino == x)
  {
    RefsUpdate(fs, d, Unlinked(fs, d, i)[d], x);
    CountErased(fs[d].entries, i, x);
  }

  lemma ListsStored(e: seq<Dirent>, i: nat, name: string, ino: nat, x: nat)
    requires i <= |e| && !Live(e, i) && |name| <= NAME_LEN && Lists(e, x)
    ensures Lists(Stored(e, i, name, ino), x)
  {
    var k :| 2 <= k && Live(e, k) && e[k].ino == x;
    assert Live(Stored(e, i, name, ino), k) && Stored(e, i, name, ino)[k] == e[k];
  }

  lemma ListsErased(e: seq<Dirent>, i: nat, x: nat)
    requires i < |e| && Lists(e, x) && e[i].ino != x
    ensures Lists(Erased(e, i), x)
  {
    var k :| 2 <= k && Live(e, k) && e[k].ino == x;
    assert Live(Erased(e, i), k) && Erased(e, i)[k] == e[k];
  }

  lemma StoredKeepsDots(e: seq<Dirent>, i: nat, name: string, ino: nat)
    requires Storable(e, i, name, ino) && Live(e, 0) && Live(e, 1)
    ensures i >= 2 && Stored(e, i, name, ino)[0] == e[0] && Stored(e, i, name, ino)[1] == e[1]
  {}

  /** Linking a file, or a directory that is not listed yet into the one its ".." names. */
  lemma LinkedShape(fs: Fs, d: nat, i: nat, name: string, c: nat)
    requires |fs| > 0 && !fs[0].alive && (forall x :: ShapeAt(fs, x)) && (forall x :: x != c ==> HomeAt(fs, x))
        && (forall y, j :: OnceAt(fs, y, j))
    requires d < |fs| && fs[d].dir && 0 < c < |fs| && Storable(fs[d].entries, i, name, c)
    requires fs[c].dir ==> |fs[c].entries| > 1 && fs[c].entries[1].ino == d && d != c && !Lists(fs[d].entries, c)
    ensures Shape(Linked(fs, d, i, name, c))
  {
    var t := Linked(fs, d, i, name, c);
    var e := fs[d].entries;
    assert ShapeAt(fs, d);
    StoredFormed(e, i, name, c);
    StoredKeepsDots(e, i, name, c);
    forall x: nat ensures ShapeAt(t, x) {
      assert ShapeAt(fs, x);
      assert x == d ==> forall j :: Live(t[d].entries, j) ==> t[d].entries[j].ino < |fs|;
    }
    forall x: nat ensures HomeAt(t, x) { LinkedHome(fs, d, i, name, c, x); }
    forall y: nat, j: nat ensures OnceAt(t, y, j) { LinkedOnce(fs, d, i, name, c, y, j); }
  }

  lemma LinkedHome(fs: Fs, d: nat, i: nat, name: string, c: nat, x: nat)
    requires d < |fs| && 0 < c < |fs| && Storable(fs[d].entries, i, name, c) && i >= 2 && Live(fs[d].entries, 1)
    requires x != c ==> HomeAt(fs, x)
    requires x == c && fs[c].dir ==> |fs[c].entries| > 1 && fs[c].entries[1].ino == d && d != c
    ensures HomeAt(Linked(fs, d, i, name, c), x)
  {
    var t := Linked(fs, d, i, name, c);
    var e := fs[d].entries;
    if x == c {
      assert Live(t[d].entries, i) && t[d].entries[i].ino == c;
      assert Lists(t[d].entries, c);
    } else if x < |fs| && fs[x].dir && |fs[x].entries| > 1 && fs[x].entries[1].ino == d && d != x {
      ListsStored(e, i, name, c, x);
    }
  }

  lemma LinkedOnce(fs: Fs, d: nat, i: nat, name: string, c: nat, y: nat, j: nat)
    requires d < |fs| && 0 < c < |fs| && Storable(fs[d].entries, i, name, c) && i >= 2 && Live(fs[d].entries, 1)
    requires forall y, k :: OnceAt(fs, y, k)
    requires fs[c].dir ==> |fs[c].entries| > 1 && fs[c].entries[1].ino == d && !Lists(fs[d].entries, c)
    ensures OnceAt(Linked(fs, d, i, name, c), y, j)
  {
    var t := Linked(fs, d, i, name, c);
    assert OnceAt(fs, y, j);
    if y == d && Live(t[d].entries, j) && fs[c].dir {
      forall k | 2 <= k && Live(t[d].entries, k) && k != i ensures t[d].entries[k].ino != c {
        assert t[d].entries[k] == fs[d].entries[k];
      }
    }
    assert forall k :: 0 <= k < |fs[d].entries| && k != i ==> t[d].entries[k] == fs[d].entries[k];
  }

  // ---------------------------------------------------------------- what each operation leaves

  lemma ReplaceFile(fs: Fs, c: nat, m: MInode)
    requires Shape(fs) && 0 < c < |fs| && !fs[c].dir && !m.dir && m.entries == [] && (m.alive || m.nlink == 0)
    ensures Shape(fs[c := m]) && forall x :: Refs(fs[c := m], x) == Refs(fs, x)
  {
    var t := fs[c := m];
    assert ShapeAt(fs, c);
    forall x: nat ensures Refs(t, x) == Refs(fs, x) { RefsUpdate(fs, c, m, x); }
    forall x: nat ensures ShapeAt(t, x) { assert ShapeAt(fs, x); }
    forall x: nat ensures HomeAt(t, x) { assert HomeAt(fs, x); }
    forall y: nat, i: nat ensures OnceAt(t, y, i) { assert OnceAt(fs, y, i); }
  }

  function NewFile(fs: Fs, d: nat, i: nat, name: string, c: nat): Fs
    requires d < |fs| && c < |fs| && c != d && i <= |fs[d].entries| && |name| <= NAME_LEN
  {
    Linked(fs[c := MInode(true, false, 1, [])], d, i, name, c)
  }

  ghost predicate Good(fs: Fs) { Shape(fs) && LinksRight(fs) }

  /** An entry can be added here for an inode that is not in use. */
  ghost predicate CanAdd(fs: Fs, d: nat, i: nat, name: string, c: nat) {
    d < |fs| && fs[d].dir && 0 < c < |fs| && Storable(fs[d].entries, i, name, c)
  }

  lemma NewFileGood(fs: Fs, d: nat, i: nat, name: string, c: nat)
    requires Good(fs) && CanAdd(fs, d, i, name, c) && !fs[c].alive
    ensures c != d && Good(NewFile(fs, d, i, name, c))
  {
    assert ShapeAt(fs, c) && LinkAt(fs, c) && ShapeAt(fs, d);
    var m := MInode(true, false, 1, []);
    ReplaceFile(fs, c, m);
    LinkedShape(fs[c := m], d, i, name, c);
    forall x: nat ensures LinkAt(NewFile(fs, d, i, name, c), x) {
      assert LinkAt(fs, x);
      LinkedRefs(fs[c := m], d, i, name, c, x);
    }
  }

  function MoreLinks(fs: Fs, d: nat, i: nat, name: string, o: nat): Fs
    requires d < |fs| && o < |fs| && i <= |fs[d].entries| && |name| <= NAME_LEN
  {
    Counted(Linked(fs, d, i, name, o), o, fs[o].nlink + 1)
  }

  lemma MoreLinksGood(fs: Fs, d: nat, i: nat, name: string, o: nat)
    requires Good(fs) && CanAdd(fs, d, i, name, o) && fs[o].alive && !fs[o].dir
    ensures Good(MoreLinks(fs, d, i, name, o))
  {
    var t := Linked(fs, d, i, name, o);
    LinkedShape(fs, d, i, name, o);
    assert ShapeAt(t, o);
    ReplaceFile(t, o, t[o].(nlink := fs[o].nlink + 1));
    forall x: nat ensures LinkAt(MoreLinks(fs, d, i, name, o), x) {
      assert LinkAt(fs, x);
      LinkedRefs(fs, d, i, name, o, x);
    }
  }

  /** What "." and ".." name are directories. */
  lemma DotsAreDirs(fs: Fs, d: nat)
    requires Shape(fs) && d < |fs| && fs[d].dir
    ensures |fs[d].entries| > 1 && fs[d].entries[0].ino == d && fs[d].entries[1].ino < |fs|
              && fs[fs[d].entries[1].ino].dir
  {
    assert ShapeAt(fs, d) && HomeAt(fs, d);
    var p := fs[d].entries[1].ino;
    assert ShapeAt(fs, p);
  }

  lemma UnlinkedShape(fs: Fs, d: nat, i: nat)
    requires Shape(fs) && d < |fs| && fs[d].dir && Live(fs[d].entries, i) && i >= 2
    requires forall x: nat :: x < |fs| && fs[x].dir && x != d && |fs[x].entries| > 1 && fs[x].entries[1].ino == d ==>
               fs[d].entries[i].ino != x
    ensures Shape(Unlinked(fs, d, i))
  {
    var t := Unlinked(fs, d, i);
    var e := fs[d].entries;
    assert ShapeAt(fs, d);
    ErasedFormed(e, i);
    assert forall j :: Live(t[d].entries, j) ==> Live(e, j) && t[d].entries[j] == e[j];
    forall x: nat ensures ShapeAt(t, x) { assert ShapeAt(fs, x); }
    forall x: nat ensures HomeAt(t, x) {
      assert HomeAt(fs, x) && ShapeAt(fs, x);
      if x < |fs| && fs[x].dir && fs[x].entries[1].ino == d && d != x { ListsErased(e, i, x); }
    }
    forall y: nat, j: nat ensures OnceAt(t, y, j) { assert OnceAt(fs, y, j); }
  }

  function FewerLinks(fs: Fs, d: nat, i: nat): Fs
    requires d < |fs| && i < |fs[d].entries| && fs[d].entries[i].ino < |fs|
  {
    var o := fs[d].entries[i].ino;
    Counted(Unlinked(fs, d, i), o, if fs[o].nlink == 0 then 0 else fs[o].nlink - 1)
  }

  lemma FewerLinksGood(fs: Fs, d: nat, i: nat)
    requires Good(fs) && d < |fs| && fs[d].dir && Live(fs[d].entries, i)
    requires fs[d].entries[i].ino < |fs| && !fs[fs[d].entries[i].ino].dir
    ensures i >= 2 && fs[fs[d].entries[i].ino].nlink > 0 && Good(FewerLinks(fs, d, i))
  {
    var o := fs[d].entries[i].ino;
    var t := Unlinked(fs, d, i);
    DotsAreDirs(fs, d);
    UnlinkedShape(fs, d, i);
    UnlinkedRefs(fs, d, i, o);
    assert LinkAt(fs, o) && ShapeAt(fs, o);
    ReplaceFile(t, o, t[o].(nlink := fs[o].nlink - 1));
    forall x: nat ensures LinkAt(FewerLinks(fs, d, i), x) {
      assert LinkAt(fs, x);
      UnlinkedRefs(fs, d, i, x);
    }
  }

  lemma RefsAtLeast(fs: Fs, k: nat, x: nat)
    requires k < |fs|
    ensures Refs(fs, x) >= CountIn(fs[k].entries, x)
  {
    RefsUpdate(fs, k, DEAD, x);
  }

  lemma {:induction false} CountNone(e: seq<Dirent>, x: nat, i: nat)
    requires CountIn(e, x) == 0 && x > 0
    ensures Live(e, i) ==> e[i].ino != x
    decreases |e|
  {
    if Live(e, i) && i > 0 {
      CountNone(e[1..], x, i - 1);
      assert e[1..][i - 1] == e[i];
    }
  }

  /** An inode without links is in no directory. */
  lemma Unnamed(fs: Fs, c: nat, y: nat, i: nat)
    requires LinkAt(fs, c) && 0 < c < |fs| && fs[c].nlink == 0 && y < |fs| && Live(fs[y].entries, i)
    ensures fs[y].entries[i].ino != c
  {
    RefsAtLeast(fs, y, c);
    CountNone(fs[y].entries, c, i);
  }

  function NewEntries(c: nat, d: nat): seq<Dirent> { [Dirent(c, Pad("."))] + [Dirent(d, Pad(".."))] }

  lemma NewEntriesFormed(c: nat, d: nat)
    requires c > 0 && d > 0
    ensures var e := NewEntries(c, d); Formed(e) && Text(e[0].name) == "." && Text(e[1].name) == ".."
    ensures forall x :: CountIn(NewEntries(c, d), x) == One(c == x) + One(d == x)
  {
    PadText(".");
    PadText("..");
    forall x: nat ensures CountIn(NewEntries(c, d), x) == One(c == x) + One(d == x) {
      CountPush([Dirent(c, Pad("."))], Dirent(d, Pad("..")), x);
      assert [Dirent(c, Pad("."))][1..] == [];
    }
  }

  /** The inode of a new directory before it is listed. */
  function Prepared(fs: Fs, d: nat, c: nat): Fs
    requires c < |fs|
  {
    fs[c := MInode(true, true, 2, NewEntries(c, d))]
  }

  lemma PreparedShape(fs: Fs, d: nat, c: nat)
    requires Good(fs) && 0 < c < |fs| && 0 < d < |fs| && fs[d].dir && !fs[c].alive
    ensures var t := Prepared(fs, d, c);
            && |t| > 0 && !t[0].alive && (forall x :: ShapeAt(t, x)) && (forall x :: x != c ==> HomeAt(t, x))
            && (forall y, j :: OnceAt(t, y, j)) && !Lists(t[d].entries, c)
  {
    var t := Prepared(fs, d, c);
    NewEntriesFormed(c, d);
    assert ShapeAt(fs, c) && ShapeAt(fs, d) && LinkAt(fs, c);
    forall x: nat ensures ShapeAt(t, x) { assert ShapeAt(fs, x); }
    forall x: nat | x != c ensures HomeAt(t, x) { assert HomeAt(fs, x); }
    forall y: nat, j: nat ensures OnceAt(t, y, j) {
      assert OnceAt(fs, y, j);
      if y < |fs| && Live(fs[y].entries, j) { Unnamed(fs, c, y, j); }
    }
    if Lists(t[d].entries, c) {
      var j :| 2 <= j && Live(fs[d].entries, j) && fs[d].entries[j].ino == c;
      Unnamed(fs, c, d, j);
    }
  }

  /** minix_mkdir: the new directory has two links, its parent one more. */
  function NewDirectory(fs: Fs, d: nat, i: nat, name: string, c: nat): Fs
    requires d < |fs| && c < |fs| && c != d && i <= |fs[d].entries| && |name| <= NAME_LEN
  {
    Counted(Linked(Prepared(fs, d, c), d, i, name, c), d, fs[d].nlink + 1)
  }

  lemma RecountShape(fs: Fs, d: nat, n: nat)
    requires Shape(fs) && d < |fs| && fs[d].alive
    ensures Shape(Counted(fs, d, n)) && forall x :: Refs(Counted(fs, d, n), x) == Refs(fs, x)
  {
    var t := Counted(fs, d, n);
    forall x: nat ensures Refs(t, x) == Refs(fs, x) { RefsUpdate(fs, d, t[d], x); }
    forall x: nat ensures ShapeAt(t, x) { assert ShapeAt(fs, x); }
    forall x: nat ensures HomeAt(t, x) { assert HomeAt(fs, x); }
    forall y: nat, i: nat ensures OnceAt(t, y, i) { assert OnceAt(fs, y, i); }
  }

  lemma NewDirectoryGood(fs: Fs, d: nat, i: nat, name: string, c: nat)
    requires Good(fs) && CanAdd(fs, d, i, name, c) && d > 0 && !fs[c].alive
    ensures c != d && Good(NewDirectory(fs, d, i, name, c))
  {
    assert ShapeAt(fs, c) && ShapeAt(fs, d);
    var p := Prepared(fs, d, c);
    var t := Linked(p, d, i, name, c);
    PreparedShape(fs, d, c);
    LinkedShape(p, d, i, name, c);
    RecountShape(t, d, fs[d].nlink + 1);
    forall x: nat ensures LinkAt(NewDirectory(fs, d, i, name, c), x) {
      assert LinkAt(fs, x);
      PreparedRefs(fs, d, i, name, c, x);
    }
  }

  lemma PreparedRefs(fs: Fs, d: nat, i: nat, name: string, c: nat, x: nat)
    requires d < |fs| && 0 < c < |fs| && c != d && d > 0 && fs[c].entries == []
    requires i <= |fs[d].entries| && !Live(fs[d].entries, i) && |name| <= NAME_LEN
    ensures Refs(Linked(Prepared(fs, d, c), d, i, name, c), x) == Refs(fs, x) + 2 * One(c == x) + One(d == x)
  {
    var p := Prepared(fs, d, c);
    RefsUpdate(fs, c, p[c], x);
    NewEntriesFormed(c, d);
    LinkedRefs(p, d, i, name, c, x);
  }

  /** empty_dir: no live entry past "." and "..". */
  ghost predicate Empty(e: seq<Dirent>) { forall i :: 2 <= i < |e| ==> !Live(e, i) }

  lemma {:induction false} CountDead(e: seq<Dirent>, x: nat)
    requires (forall i :: 0 <= i < |e| ==> e[i].ino == 0)
    ensures CountIn(e, x) == 0
  {
    if e != [] { CountDead(e[1..], x); }
  }

  lemma CountEmpty(e: seq<Dirent>, x: nat)
    requires |e| > 1 && Empty(e) && Live(e, 0) && Live(e, 1)
    ensures CountIn(e, x) == One(e[0].ino == x) + One(e[1].ino == x)
  {
    forall i | 0 <= i < |e[2..]| ensures e[2..][i].ino == 0 { assert !Live(e, i + 2); }
    assert e[1..][1..] == e[2..] && e[1..][0] == e[1];
    CountDead(e[2..], x);
    assert CountIn(e[1..], x) == One(e[1].ino == x) + CountIn(e[2..], x);
  }

  /** minix_rmdir: the entry is cleared, the parent loses a link, and the directory is freed by its last iput. */
  function Removed(fs: Fs, d: nat, i: nat): Fs
    requires d < |fs| && i < |fs[d].entries| && fs[d].entries[i].ino < |fs|
  {
    Counted(Unlinked(fs, d, i), d, if fs[d].nlink == 0 then 0 else fs[d].nlink - 1)[fs[d].entries[i].ino := DEAD]
  }

  ghost predicate CanRemove(fs: Fs, d: nat, i: nat) {
    && d < |fs| && fs[d].dir && Live(fs[d].entries, i) && fs[d].entries[i].ino < |fs|
    && fs[d].entries[i].ino != d && fs[fs[d].entries[i].ino].dir && Empty(fs[fs[d].entries[i].ino].entries)
  }

  lemma EmptyListsNone(e: seq<Dirent>, x: nat)
    requires Empty(e)
    ensures !Lists(e, x)
  {}

  /** An empty directory other than d that d names is not d's parent, lies past "..", and has d for its parent. */
  lemma RemovedIsChild(fs: Fs, d: nat, i: nat)
    requires Shape(fs) && CanRemove(fs, d, i)
    ensures i >= 2 && |fs[fs[d].entries[i].ino].entries| > 1 && fs[fs[d].entries[i].ino].entries[1].ino == d
    ensures fs[d].entries[1].ino != fs[d].entries[i].ino
  {
    var c := fs[d].entries[i].ino;
    DotsAreDirs(fs, d);
    DotsAreDirs(fs, c);
    assert HomeAt(fs, d);
    EmptyListsNone(fs[c].entries, d);
    assert OnceAt(fs, d, i);
  }

  lemma {:induction false} AllUnnamed(fs: Fs, x: nat)
    requires forall y, i :: 0 <= y < |fs| && Live(fs[y].entries, i) ==> fs[y].entries[i].ino != x
    ensures Refs(fs, x) == 0
  {
    if fs != [] {
      NoneCounts(fs[0].entries, x);
      assert forall y, i :: 0 <= y < |fs[1..]| && Live(fs[1..][y].entries, i) ==> fs[1..][y] == fs[y + 1];
      AllUnnamed(fs[1..], x);
    }
  }

  lemma {:induction false} NoneCounts(e: seq<Dirent>, x: nat)
    requires forall i :: Live(e, i) ==> e[i].ino != x
    ensures CountIn(e, x) == 0
  {
    if e != [] {
      assert Live(e, 0) <==> e[0].ino != 0;
      forall i | Live(e[1..], i) ensures e[1..][i].ino != x { assert Live(e, i + 1) && e[1..][i] == e[i + 1]; }
      NoneCounts(e[1..], x);
    }
  }

  /** After the removal nothing names the directory. */
  lemma RemovedUnnamed(fs: Fs, d: nat, i: nat, y: nat, j: nat)
    requires Shape(fs) && CanRemove(fs, d, i) && y < |fs| && Live(Removed(fs, d, i)[y].entries, j)
    ensures Removed(fs, d, i)[y].entries[j].ino != fs[d].entries[i].ino
  {
    var c := fs[d].entries[i].ino;
    RemovedIsChild(fs, d, i);
    EmptyListsNone(fs[c].entries, y);
    assert ShapeAt(fs, y) && HomeAt(fs, y) && OnceAt(fs, y, j) && OnceAt(fs, d, i);
    assert y == d ==> j != i;
  }

  lemma RemovedRefs(fs: Fs, d: nat, i: nat, x: nat)
    requires Shape(fs) && CanRemove(fs, d, i) && x != fs[d].entries[i].ino
    ensures Refs(Removed(fs, d, i), x) == Refs(fs, x) - One(x == d)
  {
    var c := fs[d].entries[i].ino;
    var t := Unlinked(fs, d, i);
    var u := Counted(t, d, if fs[d].nlink == 0 then 0 else fs[d].nlink - 1);
    RemovedIsChild(fs, d, i);
    DotsAreDirs(fs, c);
    assert ShapeAt(fs, c);
    UnlinkedRefs(fs, d, i, x);
    RefsUpdate(t, d, u[d], x);
    RefsUpdate(u, c, DEAD, x);
    CountEmpty(fs[c].entries, x);
  }

  lemma RemovedDirs(fs: Fs, d: nat, i: nat, x: nat)
    requires Shape(fs) && CanRemove(fs, d, i) && i >= 2
    ensures ShapeAt(Removed(fs, d, i), x)
  {
    var t := Removed(fs, d, i);
    var e := fs[d].entries;
    assert ShapeAt(fs, d) && ShapeAt(fs, x);
    ErasedFormed(e, i);
    assert t[d].entries == Erased(e, i);
    assert forall j :: Live(Erased(e, i), j) ==> Live(e, j) && Erased(e, i)[j] == e[j];
  }

  lemma RemovedHome(fs: Fs, d: nat, i: nat, x: nat)
    requires Shape(fs) && CanRemove(fs, d, i)
    ensures HomeAt(Removed(fs, d, i), x)
  {
    var c := fs[d].entries[i].ino;
    assert HomeAt(fs, x) && ShapeAt(fs, x);
    EmptyListsNone(fs[c].entries, x);
    if x < |fs| && fs[x].dir && x != c && fs[x].entries[1].ino == d && d != x { ListsErased(fs[d].entries, i, x); }
  }

  lemma RemovedOnce(fs: Fs, d: nat, i: nat, y: nat, j: nat)
    requires Shape(fs) && CanRemove(fs, d, i)
    ensures OnceAt(Removed(fs, d, i), y, j)
  {
    var e := fs[d].entries;
    assert OnceAt(fs, y, j);
    assert forall j :: Live(Erased(e, i), j) ==> Live(e, j) && Erased(e, i)[j] == e[j];
  }

  lemma RemovedShape(fs: Fs, d: nat, i: nat)
    requires Shape(fs) && CanRemove(fs, d, i)
    ensures Shape(Removed(fs, d, i))
  {
    RemovedIsChild(fs, d, i);
    forall x: nat ensures ShapeAt(Removed(fs, d, i), x) { RemovedDirs(fs, d, i, x); }
    forall x: nat ensures HomeAt(Removed(fs, d, i), x) { RemovedHome(fs, d, i, x); }
    forall y: nat, j: nat ensures OnceAt(Removed(fs, d, i), y, j) { RemovedOnce(fs, d, i, y, j); }
  }

  lemma DotCounts(fs: Fs, d: nat)
    requires Good(fs) && 0 < d < |fs| && fs[d].dir
    ensures fs[d].nlink > 0
  {
    assert ShapeAt(fs, d) && LinkAt(fs, d);
    RefsAtLeast(fs, d, d);
    CountUpdate(fs[d].entries, 0, fs[d].entries[0].(ino := 0), d);
  }

  lemma RemovedGood(fs: Fs, d: nat, i: nat)
    requires Good(fs) && CanRemove(fs, d, i) && d > 0
    ensures Good(Removed(fs, d, i))
  {
    var c := fs[d].entries[i].ino;
    var t := Removed(fs, d, i);
    RemovedShape(fs, d, i);
    DotCounts(fs, d);
    forall x: nat ensures LinkAt(t, x) {
      assert LinkAt(fs, x);
      if x == c {
        forall y, j | 0 <= y < |t| && Live(t[y].entries, j) ensures t[y].entries[j].ino != c {
          RemovedUnnamed(fs, d, i, y, j);
        }
        AllUnnamed(t, c);
      } else {
        RemovedRefs(fs, d, i, x);
      }
    }
  }

  /** The last iput of a file without links frees its inode. */
  lemma ReapedGood(fs: Fs, c: nat)
    requires Good(fs) && 0 < c < |fs| && !fs[c].dir && fs[c].nlink == 0
    ensures Good(fs[c := DEAD])
  {
    assert ShapeAt(fs, c);
    ReplaceFile(fs, c, DEAD);
    var t := fs[c := DEAD];
    forall x: nat ensures LinkAt(t, x) { assert LinkAt(fs, x); }
  }

  /** A new file system: inode 1 is the root directory, its own parent, with two links. */
  lemma NewFsGood(n: nat)
    ensures Good([DEAD, MInode(true, true, 2, NewEntries(1, 1))] + seq(n, _ => DEAD))
  {
    var fs := [DEAD, MInode(true, true, 2, NewEntries(1, 1))] + seq(n, _ => DEAD);
    NewEntriesFormed(1, 1);
    forall x: nat ensures ShapeAt(fs, x) {}
    forall x: nat ensures HomeAt(fs, x) {}
    forall y: nat, i: nat ensures OnceAt(fs, y, i) {}
    forall x: nat ensures LinkAt(fs, x) {
      if x > 0 {
        RefsUpdate(fs, 1, DEAD, x);
        AllUnnamed(fs[1 := DEAD], x);
      }
    }
  }
}
