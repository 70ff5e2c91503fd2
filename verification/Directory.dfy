/** Minix directories (fs/minix/namei.c): files of 16-byte entries, each an inode number and a name of at most 14
  * bytes. */
module Directory {
  const NAME_LEN := 14
  const PER_BLOCK := 64
  const LINK_MAX := 250

  type Field = s: seq<char> | |s| == NAME_LEN witness seq(NAME_LEN, _ => '\0')

  /** struct minix_dir_entry; inode number 0 means that the entry is free. */
  datatype Dirent = Dirent(ino: nat, name: Field)

  // ---------------------------------------------------------------- names

  function Until(s: seq<char>, i: nat): (k: nat)
    requires i <= |s|
    ensures i <= k <= |s| && (k < |s| ==> s[k] == '\0') && forall j :: i <= j < k ==> s[j] != '\0'
    decreases |s| - i
  {
    if i == |s| || s[i] == '\0' then i else Until(s, i + 1)
  }

  /** The name an entry holds: up to the first NUL. */
  function Text(f: Field): (r: string)
    ensures |r| <= NAME_LEN && '\0' !in r
  {
    f[..Until(f, 0)]
  }

  function Cut(name: string): (r: string)
    ensures |r| <= NAME_LEN
  {
    if |name| > NAME_LEN then name[..NAME_LEN] else name
  }

  function Pad(name: string): Field
    requires |name| <= NAME_LEN
  {
    name + seq(NAME_LEN - |name|, _ => '\0')
  }

  /** namecompare. */
  predicate Compare(name: string, f: Field) {
    |name| <= NAME_LEN && (|name| < NAME_LEN ==> f[|name|] == '\0') && f[..|name|] == name
  }

  /** Comparing with the 14-byte field is comparing names. */
  lemma CompareIsEqual(name: string, f: Field)
    requires '\0' !in name
    ensures Compare(name, f) <==> name == Text(f)
  {
    var k := Until(f, 0);
    if Compare(name, f) {
      forall j | 0 <= j < |name| ensures f[j] != '\0' { assert f[j] == name[j] && name[j] in name; }
      assert k == |name|;
    }
  }

  lemma PadText(name: string)
    requires |name| <= NAME_LEN && '\0' !in name
    ensures Text(Pad(name)) == name
  {
    CompareIsEqual(name, Pad(name));
  }

  // ---------------------------------------------------------------- a directory as a map

  predicate Live(e: seq<Dirent>, i: int) { 0 <= i < |e| && e[i].ino != 0 }

  /** The live names are distinct and not empty. */
  ghost predicate Formed(e: seq<Dirent>) {
    && (forall i, j :: Live(e, i) && Live(e, j) && Text(e[i].name) == Text(e[j].name) ==> i == j)
    && (forall i :: Live(e, i) ==> Text(e[i].name) != "")
  }

  /** The live entry of that name, or the length. */
  function Where(e: seq<Dirent>, name: string, i: nat): (k: nat)
    requires i <= |e|
    ensures i <= k <= |e| && (k < |e| ==> Live(e, k) && Text(e[k].name) == name)
    ensures forall j :: i <= j < k ==> !(Live(e, j) && Text(e[j].name) == name)
    decreases |e| - i
  {
    if i == |e| || (Live(e, i) && Text(e[i].name) == name) then i else Where(e, name, i + 1)
  }

  /** The finite map that a directory is: the inode number of a name, 0 for a name it does not have. */
  function Ino(e: seq<Dirent>, name: string): nat {
    var k := Where(e, name, 0);
    if k < |e| then e[k].ino else 0
  }

  lemma InoAt(e: seq<Dirent>, i: nat)
    requires Formed(e) && Live(e, i)
    ensures Where(e, Text(e[i].name), 0) == i && Ino(e, Text(e[i].name)) == e[i].ino
  {}

  /** Entry i, free or past the end, gets a name and an inode number. */
  function Stored(e: seq<Dirent>, i: nat, name: string, ino: nat): seq<Dirent>
    requires i <= |e| && |name| <= NAME_LEN
  {
    if i == |e| then e + [Dirent(ino, Pad(name))] else e[i := Dirent(ino, Pad(name))]
  }

  ghost predicate Storable(e: seq<Dirent>, i: nat, name: string, ino: nat) {
    Formed(e) && i <= |e| && !Live(e, i) && ino != 0 && 0 < |name| <= NAME_LEN && '\0' !in name && Ino(e, name) == 0
  }

  lemma StoredFormed(e: seq<Dirent>, i: nat, name: string, ino: nat)
    requires Storable(e, i, name, ino)
    ensures Formed(Stored(e, i, name, ino))
  {
    PadText(name);
    var e' := Stored(e, i, name, ino);
    assert forall j :: 0 <= j < |e| && j != i ==> e'[j] == e[j];
  }

  /** Adding an entry is inserting into the map; no other name is disturbed. */
  lemma StoredInserts(e: seq<Dirent>, i: nat, name: string, ino: nat, s: string)
    requires Storable(e, i, name, ino)
    ensures Ino(Stored(e, i, name, ino), s) == if s == name then ino else Ino(e, s)
  {
    var e' := Stored(e, i, name, ino);
    StoredFormed(e, i, name, ino);
    PadText(name);
    if s == name {
      InoAt(e', i);
    } else {
      var k, k' := Where(e, s, 0), Where(e', s, 0);
      if k < |e| {
        assert k != i && e'[k] == e[k];
        InoAt(e', k);
      }
      if k' < |e'| {
        assert k' != i && e'[k'] == e[k'];
        InoAt(e, k');
      }
    }
  }

  function Erased(e: seq<Dirent>, i: nat): seq<Dirent>
    requires i < |e|
  {
    e[i := e[i].(ino := 0)]
  }

  lemma ErasedFormed(e: seq<Dirent>, i: nat)
    requires Formed(e) && i < |e|
    ensures Formed(Erased(e, i))
  {
    assert forall j :: Live(Erased(e, i), j) ==> Live(e, j) && Erased(e, i)[j] == e[j];
  }

  /** Clearing an entry's inode number is deleting its name from the map. */
  lemma ErasedDeletes(e: seq<Dirent>, i: nat, s: string)
    requires Formed(e) && Live(e, i)
    ensures Ino(Erased(e, i), s) == if s == Text(e[i].name) then 0 else Ino(e, s)
  {
    var e' := Erased(e, i);
    ErasedFormed(e, i);
    var k, k' := Where(e, s, 0), Where(e', s, 0);
    if k < |e| && k != i {
      assert e'[k] == e[k];
      InoAt(e', k);
    }
    if k' < |e'| {
      assert k' != i && e'[k'] == e[k'];
      InoAt(e, k');
    }
  }
}
