/** What a path name means (fs/namei.c, fs/minix/symlink.c): a name resolves component by component through
  * directories, mounts and symbolic links, without regard to reference counts. */
module Names {
  import Dir = Directory

  datatype Maybe<T> = None | Some(value: T)

  datatype Errno = ENOENT | ENOTDIR | EISDIR | EACCES | EEXIST | ELOOP | EIO | ENOSPC | EROFS

  datatype Kind = Directory | Regular | Link | Special

  /** mounted is the root mounted here; top says that the inode is itself the root of a mounted file system, which
    * covers the inode covered. A directory's operations have lookup and create, a link's have follow_link. */
  datatype Inode = Inode(kind: Kind, target: string, mounted: Maybe<nat>, top: bool, covered: Maybe<nat>)

  /** The inodes, and what the live directory entries name. */
  datatype World = World(inodes: seq<Inode>, entries: map<(nat, string), nat>)

  /** What is decided elsewhere: permission, reading a link's block, adding an entry, device access. */
  datatype Env = Env(perm: (nat, nat) -> Maybe<Errno>, unreadable: nat -> bool, full: (nat, string) -> Maybe<Errno>,
      nodev: nat -> bool)

  datatype Flag = Flag(access: nat, write: bool, creat: bool, excl: bool)

  /** A panic halts the kernel. */
  datatype Outcome = Panic | Err(e: Errno) | Found(i: nat)

  const MAY_EXEC := 1
  const MAY_WRITE_EXEC := 3
  const MAX_LINKS := 6
  const PLAIN := Flag(0, false, false, false)

  predicate In(w: World, i: nat) { i < |w.inodes| }

  predicate InMaybe(w: World, i: Maybe<nat>) { i.Some? ==> In(w, i.value) }

  ghost predicate Closed(w: World) {
    && (forall k :: k in w.entries ==> In(w, w.entries[k]))
    && (forall i :: 0 <= i < |w.inodes| ==> InMaybe(w, w.inodes[i].mounted) && InMaybe(w, w.inodes[i].covered))
  }

  /** Where the search goes on from for "..": out of a mounted file system to what it covers. */
  function Above(w: World, root: nat, dir: nat, name: string): (d: Maybe<nat>)
    requires In(w, dir) && Closed(w)
    ensures InMaybe(w, d)
  {
    if name == ".." && w.inodes[dir].top then w.inodes[dir].covered else Some(dir)
  }

  /** __iget of an inode number crosses a mount point. */
  function Cross(w: World, i: nat): (j: nat)
    requires In(w, i) && Closed(w)
    ensures In(w, j)
  {
    if w.inodes[i].mounted.Some? then w.inodes[i].mounted.value else i
  }

  /** minix_lookup. */
  function EntryOf(w: World, dir: nat, name: string): (r: Outcome)
    requires In(w, dir) && Closed(w)
    ensures r.Found? ==> In(w, r.i)
  {
    if w.inodes[dir].kind.Directory? && (dir, Dir.Cut(name)) in w.entries
        then Found(Cross(w, w.entries[(dir, Dir.Cut(name))]))
    else Err(ENOENT)
  }

  function LookupOf(env: Env, w: World, root: nat, dir: nat, name: string): (r: Outcome)
    requires In(w, dir) && Closed(w)
    ensures r.Found? ==> In(w, r.i)
  {
    if name == ".." && dir == root then Found(dir)
    else match Above(w, root, dir, name)
      case None => Err(ENOENT)
      case Some(d) =>
        if !w.inodes[d].kind.Directory? then Panic
        else if env.perm(dir, MAY_EXEC).Some? then Err(env.perm(dir, MAY_EXEC).value)
        else if name == "" then Found(d)
        else EntryOf(w, d, name)
  }

  /** A new file of that name. */
  function Created(w: World, dir: nat, name: string): World {
    World(w.inodes + [Inode(Regular, "", None, false, None)], w.entries[(dir, Dir.Cut(name)) := |w.inodes|])
  }

  /** w' is w with some more inodes. */
  ghost predicate Grew(w: World, w': World) {
    Closed(w') && |w.inodes| <= |w'.inodes|
  }

  /** The first '/' from i on, or the end. */
  function Slash(path: string, i: nat): (k: nat)
    requires i <= |path|
    ensures i <= k <= |path| && (k < |path| ==> path[k] == '/') && forall j :: i <= j < k ==> path[j] != '/'
    decreases |path| - i
  {
    if i == |path| || path[i] == '/' then i else Slash(path, i + 1)
  }

  /** A link is followed by opening its target from the directory it is in; depth is how many more are allowed. */
  function FollowOf(env: Env, w: World, root: nat, dir: nat, i: nat, flag: Flag, depth: nat): (r: (Outcome, World))
    requires In(w, dir) && In(w, i) && In(w, root) && Closed(w)
    ensures Grew(w, r.1) && (r.0.Found? ==> In(r.1, r.0.i))
    decreases depth, 0, 0
  {
    if !w.inodes[i].kind.Link? then (Found(i), w)
    else if depth == 0 then (Err(ELOOP), w)
    else if env.unreadable(i) then (Err(EIO), w)
    else OpenOf(env, w, root, dir, w.inodes[i].target, flag, depth - 1)
  }

  /** One component on the way: looked up, and followed if it is a link. */
  function StepOf(env: Env, w: World, root: nat, base: nat, name: string, depth: nat): (r: (Outcome, World))
    requires In(w, base) && In(w, root) && Closed(w)
    ensures Grew(w, r.1) && (r.0.Found? ==> In(r.1, r.0.i))
    decreases depth, 1, 0
  {
    match LookupOf(env, w, root, base, name)
    case Found(i) => FollowOf(env, w, root, base, i, PLAIN, depth)
    case e => (e, w)
  }

  /** dir_namei from a directory on: the directory of the last component, and that component. */
  function WalkOf(env: Env, w: World, root: nat, base: nat, path: string, depth: nat): (r: (Outcome, string, World))
    requires In(w, base) && In(w, root) && Closed(w)
    ensures Grew(w, r.2) && (r.0.Found? ==> In(r.2, r.0.i))
    decreases depth, 2, |path|
  {
    var k := Slash(path, 0);
    if k == |path| then if w.inodes[base].kind.Directory? then (Found(base), path, w) else (Err(ENOTDIR), "", w)
    else match StepOf(env, w, root, base, path[..k], depth)
      case (Found(b), w1) => WalkOf(env, w1, root, b, path[k + 1..], depth)
      case (e, w1) => (e, "", w1)
  }

  function DirOf(env: Env, w: World, root: nat, base: nat, path: string, depth: nat): (r: (Outcome, string, World))
    requires In(w, base) && In(w, root) && Closed(w)
    ensures Grew(w, r.2) && (r.0.Found? ==> In(r.2, r.0.i))
    decreases depth, 3, 0
  {
    if path != "" && path[0] == '/' then WalkOf(env, w, root, root, path[1..], depth)
    else WalkOf(env, w, root, base, path, depth)
  }

  /** The last component, when it exists: followed if a link, then checked. */
  function FinishOf(env: Env, w: World, root: nat, dir: nat, i: nat, flag: Flag, depth: nat): (r: (Outcome, World))
    requires In(w, dir) && In(w, i) && In(w, root) && Closed(w)
    ensures Grew(w, r.1) && (r.0.Found? ==> In(r.1, r.0.i))
    decreases depth, 1, 0
  {
    match FollowOf(env, w, root, dir, i, flag, depth)
    case (Found(j), w1) => (Checked(env, w1, j, flag), w1)
    case (e, w1) => (e, w1)
  }

  function Checked(env: Env, w: World, j: nat, flag: Flag): Outcome
    requires In(w, j)
  {
    if w.inodes[j].kind.Directory? && flag.write then Err(EISDIR)
    else if env.perm(j, flag.access).Some? then Err(env.perm(j, flag.access).value)
    else if w.inodes[j].kind.Special? && env.nodev(j) then Err(EACCES)
    else Found(j)
  }

  /** The last component, when it is missing and O_CREAT is given. */
  function CreateOf(env: Env, w: World, dir: nat, name: string): (r: (Outcome, World))
    requires In(w, dir) && Closed(w)
    ensures Grew(w, r.1) && (r.0.Found? ==> In(r.1, r.0.i))
  {
    if env.perm(dir, MAY_WRITE_EXEC).Some? then (Err(env.perm(dir, MAY_WRITE_EXEC).value), w)
    else if !w.inodes[dir].kind.Directory? then (Err(EACCES), w)
    else if env.full(dir, name).Some? then (Err(env.full(dir, name).value), w)
    else (Found(|w.inodes|), Created(w, dir, name))
  }

  /** The last component of an open. */
  function LastOf(env: Env, w: World, root: nat, d: nat, name: string, flag: Flag, depth: nat): (r: (Outcome, World))
    requires In(w, d) && In(w, root) && Closed(w)
    ensures Grew(w, r.1) && (r.0.Found? ==> In(r.1, r.0.i))
    decreases depth, 2, 0
  {
    match LookupOf(env, w, root, d, name)
    case Panic => (Panic, w)
    case Found(i) => if flag.creat && flag.excl then (Err(EEXIST), w) else FinishOf(env, w, root, d, i, flag, depth)
    case Err(e) => if flag.creat then CreateOf(env, w, d, name) else (Err(e), w)
  }

  function OpenOf(env: Env, w: World, root: nat, base: nat, path: string, flag: Flag, depth: nat): (r: (Outcome, World))
    requires In(w, base) && In(w, root) && Closed(w)
    ensures Grew(w, r.1) && (r.0.Found? ==> In(r.1, r.0.i))
    decreases depth, 4, 0
  {
    match DirOf(env, w, root, base, path, depth)
    case (Found(d), name, w1) =>
      if name != "" then LastOf(env, w1, root, d, name, flag, depth)
      else if flag.write then (Err(EISDIR), w1)
      else if env.perm(d, flag.access).Some? then (Err(env.perm(d, flag.access).value), w1)
      else (Found(d), w1)
    case (e, _, w1) => (e, w1)
  }

  /** _namei. */
  function NameOf(env: Env, w: World, root: nat, base: nat, path: string, follow: bool,
      depth: nat): (r: (Outcome, World))
    requires In(w, base) && In(w, root) && Closed(w)
    ensures Grew(w, r.1) && (r.0.Found? ==> In(r.1, r.0.i))
  {
    match DirOf(env, w, root, base, path, depth)
    case (Found(d), name, w1) =>
      if follow then StepOf(env, w1, root, d, name, depth) else (LookupOf(env, w1, root, d, name), w1)
    case (e, _, w1) => (e, w1)
  }

  /** What the caller of namei wants: any inode, a directory, or anything else. */
  datatype Want = Any | IsDir | NotDir

  // ---------------------------------------------------------------- what resolution guarantees

  /** Without O_CREAT nothing changes. */
  lemma {:induction false} FollowReads(env: Env, w: World, root: nat, dir: nat, i: nat, flag: Flag, depth: nat)
    requires In(w, dir) && In(w, i) && In(w, root) && Closed(w) && !flag.creat
    ensures FollowOf(env, w, root, dir, i, flag, depth).1 == w
    decreases depth, 0, 0
  {
    if w.inodes[i].kind.Link? && depth > 0 && !env.unreadable(i) {
      OpenReads(env, w, root, dir, w.inodes[i].target, flag, depth - 1);
    }
  }

  lemma {:induction false} StepReads(env: Env, w: World, root: nat, base: nat, name: string, depth: nat)
    requires In(w, base) && In(w, root) && Closed(w)
    ensures StepOf(env, w, root, base, name, depth).1 == w
    decreases depth, 1, 0
  {
    var r := LookupOf(env, w, root, base, name);
    if r.Found? { FollowReads(env, w, root, base, r.i, PLAIN, depth); }
  }

  lemma {:induction false} WalkReads(env: Env, w: World, root: nat, base: nat, path: string, depth: nat)
    requires In(w, base) && In(w, root) && Closed(w)
    ensures WalkOf(env, w, root, base, path, depth).2 == w
    decreases depth, 2, |path|
  {
    var k := Slash(path, 0);
    if k < |path| {
      StepReads(env, w, root, base, path[..k], depth);
      var b := StepOf(env, w, root, base, path[..k], depth).0;
      if b.Found? { WalkReads(env, w, root, b.i, path[k + 1..], depth); }
    }
  }

  lemma {:induction false} OpenReads(env: Env, w: World, root: nat, base: nat, path: string, flag: Flag, depth: nat)
    requires In(w, base) && In(w, root) && Closed(w) && !flag.creat
    ensures OpenOf(env, w, root, base, path, flag, depth).1 == w
    decreases depth, 4, 0
  {
    DirReads(env, w, root, base, path, depth);
    var (d, name, _) := DirOf(env, w, root, base, path, depth);
    if d.Found? && name != "" && LookupOf(env, w, root, d.i, name).Found? {
      FollowReads(env, w, root, d.i, LookupOf(env, w, root, d.i, name).i, flag, depth);
      assert FinishOf(env, w, root, d.i, LookupOf(env, w, root, d.i, name).i, flag, depth).1 == w;
    }
  }

  lemma {:induction false} DirReads(env: Env, w: World, root: nat, base: nat, path: string, depth: nat)
    requires In(w, base) && In(w, root) && Closed(w)
    ensures DirOf(env, w, root, base, path, depth).2 == w
    decreases depth, 3, 0
  {
    if path != "" && path[0] == '/' { WalkReads(env, w, root, root, path[1..], depth); }
    else { WalkReads(env, w, root, base, path, depth); }
  }

  lemma {:induction false} SlashJoin(p: string, q: string, i: nat)
    requires i <= |p|
    ensures Slash(p + ['/'] + q, i) == Slash(p, i)
    decreases |p| - i
  {
    if i < |p| && p[i] != '/' { SlashJoin(p, q, i + 1); }
  }

  /** Paths compose: walking p/q is walking p, taking its last component too, and walking q from there. */
  lemma {:induction false} WalkJoin(env: Env, w: World, root: nat, base: nat, p: string, q: string, d: nat,
      name: string, depth: nat)
    requires In(w, base) && In(w, root) && In(w, d) && Closed(w)
        && WalkOf(env, w, root, base, p, depth) == (Found(d), name, w)
    ensures StepOf(env, w, root, d, name, depth).1 == w
    ensures var b := StepOf(env, w, root, d, name, depth).0;
            WalkOf(env, w, root, base, p + ['/'] + q, depth)
            == if b.Found? then WalkOf(env, w, root, b.i, q, depth) else (b, "", w)
    decreases |p|
  {
    var path := p + ['/'] + q;
    var k := Slash(p, 0);
    SlashJoin(p, q, 0);
    StepReads(env, w, root, d, name, depth);
    if k == |p| {
      assert path[..k] == p && path[k + 1..] == q;
    } else {
      assert path[..k] == p[..k] && path[k + 1..] == p[k + 1..] + ['/'] + q;
      StepReads(env, w, root, base, p[..k], depth);
      WalkJoin(env, w, root, StepOf(env, w, root, base, p[..k], depth).0.i, p[k + 1..], q, d, name, depth);
    }
  }

  /** A walk that succeeds ends in a directory. */
  lemma {:induction false} WalkEnds(env: Env, w: World, root: nat, base: nat, path: string, depth: nat)
    requires In(w, base) && In(w, root) && Closed(w)
    ensures var (d, _, w1) := WalkOf(env, w, root, base, path, depth); d.Found? ==> w1.inodes[d.i].kind.Directory?
    decreases |path|
  {
    var k := Slash(path, 0);
    if k < |path| {
      var (b, w1) := StepOf(env, w, root, base, path[..k], depth);
      if b.Found? { WalkEnds(env, w1, root, b.i, path[k + 1..], depth); }
    }
  }

  lemma DirEnds(env: Env, w: World, root: nat, base: nat, path: string, depth: nat)
    requires In(w, base) && In(w, root) && Closed(w)
    ensures var (d, _, w1) := DirOf(env, w, root, base, path, depth);
            w1 == w && (d.Found? ==> In(w, d.i) && w.inodes[d.i].kind.Directory?)
  {
    DirReads(env, w, root, base, path, depth);
    if path != "" && path[0] == '/' { WalkEnds(env, w, root, root, path[1..], depth); }
    else { WalkEnds(env, w, root, base, path, depth); }
  }

  /** A name that is one component. */
  predicate Simple(name: string) { name != "" && name != ".." && Slash(name, 0) == |name| }

  lemma WalkSimple(env: Env, w: World, root: nat, base: nat, name: string, depth: nat)
    requires In(w, base) && In(w, root) && Closed(w) && Simple(name) && w.inodes[base].kind.Directory?
    ensures DirOf(env, w, root, base, name, depth) == (Found(base), name, w)
  {
    assert name[0] != '/';
  }

  /** A link to itself is given up with ELOOP, however many links may be followed. */
  lemma {:induction false} SelfLink(env: Env, w: World, root: nat, dir: nat, name: string, i: nat, flag: Flag,
      depth: nat)
    requires In(w, dir) && In(w, root) && In(w, i) && Closed(w) && Simple(name)
    requires w.inodes[dir].kind.Directory? && w.inodes[i].kind.Link? && w.inodes[i].target == name
    requires !env.unreadable(i) && !(flag.creat && flag.excl)
    requires LookupOf(env, w, root, dir, name) == Found(i)
    ensures FollowOf(env, w, root, dir, i, flag, depth) == (Err(ELOOP), w)
    decreases depth
  {
    if depth > 0 {
      WalkSimple(env, w, root, dir, name, depth - 1);
      SelfLink(env, w, root, dir, name, i, flag, depth - 1);
      assert FinishOf(env, w, root, dir, i, flag, depth - 1) == (Err(ELOOP), w);
      assert OpenOf(env, w, root, dir, name, flag, depth - 1) == FinishOf(env, w, root, dir, i, flag, depth - 1);
    }
  }

  /** open for writing never yields a directory. */
  lemma WriteNoDirectory(env: Env, w: World, root: nat, base: nat, path: string, flag: Flag, depth: nat)
    requires In(w, base) && In(w, root) && Closed(w) && flag.write
    ensures var (r, w1) := OpenOf(env, w, root, base, path, flag, depth); r.Found? ==> !w1.inodes[r.i].kind.Directory?
  {
    var (d, name, w1) := DirOf(env, w, root, base, path, depth);
    if d.Found? && name != "" && LookupOf(env, w1, root, d.i, name).Found? {
      var (r, w2) := FinishOf(env, w1, root, d.i, LookupOf(env, w1, root, d.i, name).i, flag, depth);
      assert r.Found? ==> !w2.inodes[r.i].kind.Directory?;
    }
  }

  /** Whether nothing comes after the last '/' of a path. */
  predicate EndsInSlash(path: string) { path == "" || path[|path| - 1] == '/' }

  lemma {:induction false} WalkLast(env: Env, w: World, root: nat, base: nat, path: string, depth: nat)
    requires In(w, base) && In(w, root) && Closed(w)
    ensures var (d, name, _) := WalkOf(env, w, root, base, path, depth); d.Found? ==>
              (name == "" <==> EndsInSlash(path))
    decreases |path|
  {
    var k := Slash(path, 0);
    if k < |path| {
      var (b, w1) := StepOf(env, w, root, base, path[..k], depth);
      if b.Found? { WalkLast(env, w1, root, b.i, path[k + 1..], depth); }
    }
  }

  /** With O_CREAT and O_EXCL a successful open made a new file if and only if the path does not end in '/'. */
  lemma ExclusiveIsNew(env: Env, w: World, root: nat, base: nat, path: string, flag: Flag, depth: nat)
    requires In(w, base) && In(w, root) && Closed(w) && flag.creat && flag.excl
    requires OpenOf(env, w, root, base, path, flag, depth).0.Found?
    ensures OpenOf(env, w, root, base, path, flag, depth).0.i >= |w.inodes| <==> !EndsInSlash(path)
  {
    DirReads(env, w, root, base, path, depth);
    if path != "" && path[0] == '/' { WalkLast(env, w, root, root, path[1..], depth); }
    else { WalkLast(env, w, root, base, path, depth); }
  }

  /** A root directory, a directory d in it and a file f. */
  function Tiny(): World {
    World([Inode(Directory, "", None, false, None), Inode(Directory, "", None, false, None),
           Inode(Regular, "", None, false, None)],
          map[(0, "d") := 1, (0, "f") := 2])
  }

  function Lenient(): Env { Env((_, _) => None, _ => false, (_, _) => None, _ => false) }

  /** An exclusive create of "d/" returns the directory there is. */
  lemma ExclusiveDirectory()
    ensures Closed(Tiny()) && OpenOf(Lenient(), Tiny(), 0, 0, "d/", Flag(0, false, true, true), MAX_LINKS)
              == (Found(1), Tiny())
  {
    var path := "d/";
    assert Slash(path, 0) == 1 && path[..1] == "d" && path[2..] == "" && Slash("", 0) == 0;
    assert Dir.Cut("d") == "d";
    assert EntryOf(Tiny(), 0, "d") == Found(1);
    assert StepOf(Lenient(), Tiny(), 0, 0, "d", MAX_LINKS) == (Found(1), Tiny());
  }
}
