/** What a successful path resolution vouches for (fs/namei.c): permissions, device access, and that an inode with a
  * file system mounted on it is never what a name leads to. */
module NameRights {
  import opened Names
  import opened NamePanics
  import Dir = Directory

  /** The inode may be opened this way. */
  predicate MayOpen(env: Env, w: World, i: nat, flag: Flag)
    requires In(w, i)
  {
    && env.perm(i, flag.access).None?
    && !(w.inodes[i].kind.Special? && env.nodev(i))
    && !(w.inodes[i].kind.Directory? && flag.write)
  }

  /** w' is w with one new file, under a name that was missing, in a directory that may be searched and written. */
  ghost predicate Made(env: Env, w: World, w': World, d: nat, name: string) {
    && In(w, d) && w.inodes[d].kind.Directory? && env.perm(d, MAY_WRITE_EXEC).None? && env.full(d, name).None?
    && (env.perm(d, MAY_EXEC).None? && name != ".." ==> (d, Dir.Cut(name)) !in w.entries)
    && w'.inodes == w.inodes + [Inode(Regular, "", None, false, None)]
    && w'.entries == w.entries[(d, Dir.Cut(name)) := |w.inodes|]
  }

  /** What an open has found or made. */
  ghost predicate Granted(env: Env, w: World, r: Outcome, w': World, flag: Flag) {
    r.Found? ==>
      if w' == w then In(w, r.i) && MayOpen(env, w, r.i, flag)
      else flag.creat && r.i == |w.inodes| && exists d, name :: Made(env, w, w', d, name)
  }

  lemma {:induction false} FollowGranted(env: Env, w: World, root: nat, dir: nat, i: nat, flag: Flag, depth: nat)
    requires In(w, dir) && In(w, i) && In(w, root) && Closed(w) && w.inodes[i].kind.Link?
    ensures var (r, w') := FollowOf(env, w, root, dir, i, flag, depth); Granted(env, w, r, w', flag)
    decreases depth, 0
  {
    if depth > 0 && !env.unreadable(i) { OpenGranted(env, w, root, dir, w.inodes[i].target, flag, depth - 1); }
  }

  /** What is checked after a link has been followed may be opened. */
  lemma FinishGranted(env: Env, w: World, root: nat, dir: nat, i: nat, flag: Flag, depth: nat)
    requires In(w, dir) && In(w, i) && In(w, root) && Closed(w)
    requires w.inodes[i].kind.Link? ==>
               var (r, w') := FollowOf(env, w, root, dir, i, flag, depth); Granted(env, w, r, w', flag)
    ensures var (r, w') := FinishOf(env, w, root, dir, i, flag, depth); Granted(env, w, r, w', flag)
  {}

  lemma {:induction false} LastGranted(env: Env, w: World, root: nat, d: nat, name: string, flag: Flag, depth: nat)
    requires In(w, d) && In(w, root) && Closed(w)
    ensures var (r, w') := LastOf(env, w, root, d, name, flag, depth); Granted(env, w, r, w', flag)
    decreases depth, 1
  {
    var l := LookupOf(env, w, root, d, name);
    if l.Found? {
      if w.inodes[l.i].kind.Link? { FollowGranted(env, w, root, d, l.i, flag, depth); }
      FinishGranted(env, w, root, d, l.i, flag, depth);
      assert LastOf(env, w, root, d, name, flag, depth)
             == if flag.creat && flag.excl then (Err(EEXIST), w) else FinishOf(env, w, root, d, l.i, flag, depth);
    } else if l.Err? && flag.creat {
      var (r, w') := CreateOf(env, w, d, name);
      if r.Found? { assert Made(env, w, w', d, name); }
    }
  }

  /** A successful open found an inode that may be opened, with the device there if it is one and no directory if it is
    * for writing; or, with O_CREAT, made one file where there was none, in a directory that may be written. */
  lemma {:induction false} OpenGranted(env: Env, w: World, root: nat, base: nat, path: string, flag: Flag, depth: nat)
    requires In(w, base) && In(w, root) && Closed(w)
    ensures var (r, w') := OpenOf(env, w, root, base, path, flag, depth); Granted(env, w, r, w', flag)
    decreases depth, 2
  {
    DirEnds(env, w, root, base, path, depth);
    var (d, name, _) := DirOf(env, w, root, base, path, depth);
    if d.Found? && name != "" { LastGranted(env, w, root, d.i, name, flag, depth); }
  }

  /** Opening an inode that is there, is no link and may be opened finds it; otherwise the error is that of the first
    * check that fails. */
  lemma OpenFinds(env: Env, w: World, root: nat, base: nat, path: string, flag: Flag, depth: nat, d: nat,
                  name: string, i: nat)
    requires In(w, base) && In(w, root) && In(w, d) && In(w, i) && Closed(w) && !w.inodes[i].kind.Link?
    requires DirOf(env, w, root, base, path, depth) == (Found(d), name, w) && name != ""
    requires LookupOf(env, w, root, d, name) == Found(i)
    ensures OpenOf(env, w, root, base, path, flag, depth) == (
              if flag.creat && flag.excl then Err(EEXIST)
              else if MayOpen(env, w, i, flag) then Found(i)
              else if w.inodes[i].kind.Directory? && flag.write then Err(EISDIR)
              else Err(if env.perm(i, flag.access).Some? then env.perm(i, flag.access).value else EACCES), w)
  {
    assert OpenOf(env, w, root, base, path, flag, depth) == LastOf(env, w, root, d, name, flag, depth);
    assert FollowOf(env, w, root, d, i, flag, depth) == (Found(i), w);
    assert FinishOf(env, w, root, d, i, flag, depth) == (Checked(env, w, i, flag), w);
  }

  /** A missing last component is ENOENT, or with O_CREAT made if the directory allows it. */
  lemma OpenMakes(env: Env, w: World, root: nat, base: nat, path: string, flag: Flag, depth: nat, d: nat, name: string)
    requires In(w, base) && In(w, root) && In(w, d) && Closed(w)
    requires DirOf(env, w, root, base, path, depth) == (Found(d), name, w) && name != "" && name != ".."
    requires (d, Dir.Cut(name)) !in w.entries && env.perm(d, MAY_EXEC).None?
    ensures var (r, w') := OpenOf(env, w, root, base, path, flag, depth);
            if !flag.creat then (r, w') == (Err(ENOENT), w)
            else if env.perm(d, MAY_WRITE_EXEC).Some? then (r, w') == (Err(env.perm(d, MAY_WRITE_EXEC).value), w)
            else if env.full(d, name).Some? then (r, w') == (Err(env.full(d, name).value), w)
            else r == Found(|w.inodes|) && Made(env, w, w', d, name)
  {
    DirEnds(env, w, root, base, path, depth);
  }

  // ---------------------------------------------------------------- searching directories

  /** Directory d may be searched, or is the root and the name leads nowhere else. */
  predicate Searched(env: Env, root: nat, d: nat, name: string) {
    env.perm(d, MAY_EXEC).None? || (name == ".." && d == root)
  }

  /** One component: where it leads, in a directory that may be searched, is told by its entries and mounts. */
  lemma LookupFinds(env: Env, w: World, root: nat, dir: nat, name: string)
    requires In(w, dir) && Closed(w) && w.inodes[dir].kind.Directory? && name != "" && name != ".."
    ensures var r := LookupOf(env, w, root, dir, name);
            && (r.Found? <==> Searched(env, root, dir, name) && (dir, Dir.Cut(name)) in w.entries)
            && (r.Found? ==> var e := w.inodes[w.entries[(dir, Dir.Cut(name))]];
                             if e.mounted.Some? then r.i == e.mounted.value else r.i == w.entries[(dir, Dir.Cut(name))])
            && (!r.Found? ==> r == Err(if env.perm(dir, MAY_EXEC).Some? then env.perm(dir, MAY_EXEC).value else ENOENT))
  {}

  /** ".." stays at the root, goes from the root of a mounted file system to the parent of what it covers, and is an
    * entry like any other elsewhere. */
  lemma LookupUp(env: Env, w: World, root: nat, dir: nat)
    requires Housed(w, root) && In(w, dir) && w.inodes[dir].kind.Directory?
    requires dir != root && env.perm(dir, MAY_EXEC).None?
    requires w.inodes[dir].top && w.inodes[dir].covered.Some?
    ensures var c := w.inodes[dir].covered.value;
            !w.inodes[c].top && c != root && env.perm(c, MAY_EXEC).None? ==>
              LookupOf(env, w, root, dir, "..") == LookupOf(env, w, root, c, "..")
    ensures LookupOf(env, w, root, root, "..") == Found(root)
  {}

  /** A walk that succeeds has found its first component, in a directory that may be searched. */
  lemma WalkPasses(env: Env, w: World, root: nat, base: nat, path: string, depth: nat)
    requires Housed(w, root) && In(w, base) && w.inodes[base].kind.Directory? && Slash(path, 0) < |path|
    requires WalkOf(env, w, root, base, path, depth).0.Found?
    ensures var f := Slash(path, 0); var (b, w1) := StepOf(env, w, root, base, path[..f], depth);
            && w1 == w && b.Found? && Searched(env, root, base, path[..f])
            && WalkOf(env, w, root, b.i, path[f + 1..], depth).0.Found?
            && ('/' in path[f + 1..] ==> w.inodes[b.i].kind.Directory?)
  {
    var f := Slash(path, 0);
    StepReads(env, w, root, base, path[..f], depth);
    var b := StepOf(env, w, root, base, path[..f], depth).0;
    if b.Found? && !w.inodes[b.i].kind.Directory? { FileOnTheWay(env, w, root, b.i, path[f + 1..], depth); }
  }

  /** The walk of the first k characters stands in a directory that may be searched. */
  ghost predicate SearchedAt(env: Env, w: World, root: nat, base: nat, path: string, k: nat, depth: nat)
    requires In(w, base) && In(w, root) && Closed(w) && k <= |path|
  {
    var (d, name, w1) := WalkOf(env, w, root, base, path[..k], depth);
    w1 == w && d.Found? && Searched(env, root, d.i, name)
  }

  lemma SearchedBeyond(env: Env, w: World, root: nat, base: nat, path: string, k: nat, b: nat, depth: nat)
    requires In(w, root) && Closed(w) && In(w, base) && In(w, b) && w.inodes[base].kind.Directory?
    requires Slash(path, 0) < k < |path| && StepOf(env, w, root, base, path[..Slash(path, 0)], depth) == (Found(b), w)
    requires var f := Slash(path, 0); SearchedAt(env, w, root, b, path[f + 1..], k - f - 1, depth)
    ensures SearchedAt(env, w, root, base, path, k, depth)
  {
    WalkBeyond(env, w, root, base, path, k, depth);
  }

  lemma SearchedFirst(env: Env, w: World, root: nat, base: nat, path: string, depth: nat)
    requires Housed(w, root) && In(w, base) && w.inodes[base].kind.Directory? && Slash(path, 0) < |path|
    requires Searched(env, root, base, path[..Slash(path, 0)])
    ensures SearchedAt(env, w, root, base, path, Slash(path, 0), depth)
  {
    FirstAlone(path);
  }

  /** The first component leads to a directory from which the rest is walked. */
  lemma PassedOn(env: Env, w: World, root: nat, base: nat, path: string, k: nat, depth: nat) returns (b: nat)
    requires Housed(w, root) && In(w, base) && w.inodes[base].kind.Directory?
    requires Slash(path, 0) < k < |path| && path[k] == '/' && WalkOf(env, w, root, base, path, depth).0.Found?
    ensures var f := Slash(path, 0);
            && In(w, b) && w.inodes[b].kind.Directory? && path[f + 1..][k - f - 1] == '/'
            && StepOf(env, w, root, base, path[..f], depth) == (Found(b), w)
            && WalkOf(env, w, root, b, path[f + 1..], depth).0.Found?
  {
    var f := Slash(path, 0);
    WalkPasses(env, w, root, base, path, depth);
    PrefixJoin(path, f, k);
    b := StepOf(env, w, root, base, path[..f], depth).0.i;
  }

  /** Every directory that a walk has passed may be searched. */
  lemma {:induction false} WalkSearched(env: Env, w: World, root: nat, base: nat, path: string, k: nat, depth: nat)
    requires Housed(w, root) && In(w, base) && w.inodes[base].kind.Directory? && k < |path| && path[k] == '/'
    requires WalkOf(env, w, root, base, path, depth).0.Found?
    ensures SearchedAt(env, w, root, base, path, k, depth)
    decreases |path|
  {
    var f := Slash(path, 0);
    if k == f {
      WalkPasses(env, w, root, base, path, depth);
      SearchedFirst(env, w, root, base, path, depth);
    } else {
      var b := PassedOn(env, w, root, base, path, k, depth);
      WalkSearched(env, w, root, b, path[f + 1..], k - f - 1, depth);
      SearchedBeyond(env, w, root, base, path, k, b, depth);
    }
  }

  // ---------------------------------------------------------------- mount points

  /** No root of a mounted file system, nor the root, has another one mounted on it. */
  ghost predicate Flat(w: World, root: nat) {
    && In(w, root) && Closed(w) && w.inodes[root].mounted.None?
    && forall i :: 0 <= i < |w.inodes| && w.inodes[i].mounted.Some? ==>
         w.inodes[w.inodes[i].mounted.value].mounted.None?
  }

  predicate Free(w: World, r: Outcome) { r.Found? ==> In(w, r.i) && w.inodes[r.i].mounted.None? }

  lemma LookupFree(env: Env, w: World, root: nat, dir: nat, name: string)
    requires Flat(w, root) && In(w, dir) && w.inodes[dir].mounted.None?
    ensures Free(w, LookupOf(env, w, root, dir, name))
  {}

  lemma {:induction false} FollowFree(env: Env, w: World, root: nat, dir: nat, i: nat, flag: Flag, depth: nat)
    requires Flat(w, root) && In(w, dir) && In(w, i) && w.inodes[dir].mounted.None? && w.inodes[i].mounted.None?
    ensures var (r, w1) := FollowOf(env, w, root, dir, i, flag, depth); Free(w1, r)
    decreases depth, 0, 0
  {
    if w.inodes[i].kind.Link? && depth > 0 && !env.unreadable(i) {
      OpenFree(env, w, root, dir, w.inodes[i].target, flag, depth - 1);
    }
  }

  lemma {:induction false} StepFree(env: Env, w: World, root: nat, base: nat, name: string, depth: nat)
    requires Flat(w, root) && In(w, base) && w.inodes[base].mounted.None?
    ensures var (r, w1) := StepOf(env, w, root, base, name, depth); w1 == w && Free(w1, r)
    decreases depth, 1, 0
  {
    StepReads(env, w, root, base, name, depth);
    LookupFree(env, w, root, base, name);
    var r := LookupOf(env, w, root, base, name);
    if r.Found? { FollowFree(env, w, root, base, r.i, PLAIN, depth); }
  }

  lemma {:induction false} WalkFree(env: Env, w: World, root: nat, base: nat, path: string, depth: nat)
    requires Flat(w, root) && In(w, base) && w.inodes[base].mounted.None?
    ensures Free(w, WalkOf(env, w, root, base, path, depth).0)
    decreases depth, 2, |path|
  {
    var k := Slash(path, 0);
    if k < |path| {
      StepFree(env, w, root, base, path[..k], depth);
      var b := StepOf(env, w, root, base, path[..k], depth).0;
      if b.Found? { WalkFree(env, w, root, b.i, path[k + 1..], depth); }
    }
  }

  lemma {:induction false} DirFree(env: Env, w: World, root: nat, base: nat, path: string, depth: nat)
    requires Flat(w, root) && In(w, base) && w.inodes[base].mounted.None?
    ensures Free(w, DirOf(env, w, root, base, path, depth).0)
    decreases depth, 3, 0
  {
    if path != "" && path[0] == '/' { WalkFree(env, w, root, root, path[1..], depth); }
    else { WalkFree(env, w, root, base, path, depth); }
  }

  lemma {:induction false} LastFree(env: Env, w: World, root: nat, d: nat, name: string, flag: Flag, depth: nat)
    requires Flat(w, root) && In(w, d) && w.inodes[d].mounted.None?
    ensures var (r, w1) := LastOf(env, w, root, d, name, flag, depth); Free(w1, r)
    decreases depth, 2, 0
  {
    LookupFree(env, w, root, d, name);
    var l := LookupOf(env, w, root, d, name);
    if l.Found? {
      FollowFree(env, w, root, d, l.i, flag, depth);
      var (r, w1) := FinishOf(env, w, root, d, l.i, flag, depth);
      assert Free(w1, r);
    }
  }

  /** Whatever is mounted where, an open never yields an inode that something is mounted on. */
  lemma {:induction false} OpenFree(env: Env, w: World, root: nat, base: nat, path: string, flag: Flag, depth: nat)
    requires Flat(w, root) && In(w, base) && w.inodes[base].mounted.None?
    ensures var (r, w1) := OpenOf(env, w, root, base, path, flag, depth); Free(w1, r)
    decreases depth, 4, 0
  {
    DirFree(env, w, root, base, path, depth);
    DirReads(env, w, root, base, path, depth);
    var (d, name, _) := DirOf(env, w, root, base, path, depth);
    if d.Found? && name != "" { LastFree(env, w, root, d.i, name, flag, depth); }
  }

  /** Nor does namei. */
  lemma NameFree(env: Env, w: World, root: nat, base: nat, path: string, follow: bool, depth: nat)
    requires Flat(w, root) && In(w, base) && w.inodes[base].mounted.None?
    ensures var (r, w1) := NameOf(env, w, root, base, path, follow, depth); Free(w1, r)
  {
    DirFree(env, w, root, base, path, depth);
    DirReads(env, w, root, base, path, depth);
    var (d, name, _) := DirOf(env, w, root, base, path, depth);
    if d.Found? {
      StepFree(env, w, root, d.i, name, depth);
      LookupFree(env, w, root, d.i, name);
    }
  }
}
