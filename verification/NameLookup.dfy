/** The path routines of fs/namei.c and fs/minix/symlink.c as they run: they move references from inode to
  * inode, and symbolic links make them call each other. */
module NameLookup {
  import opened Names
  import Dir = Directory

  function At(i: nat, j: nat): nat { if i == j then 1 else 0 }

  function AtMaybe(i: Maybe<nat>, j: nat): nat { if i.Some? then At(i.value, j) else 0 }

  function Got(r: Outcome): Maybe<nat> { if r.Found? then Some(r.i) else None }

  /** i_count of an inode, 0 before it exists. */
  function Cnt(c: seq<nat>, i: nat): nat { if i < |c| then c[i] else 0 }

  /** From a to b the references a, b go away and one to more comes in; all other counts stay. */
  ghost predicate Net(a: seq<nat>, b: seq<nat>, one: Maybe<nat>, two: Maybe<nat>, more: Maybe<nat>) {
    forall i: nat :: Cnt(b, i) == Cnt(a, i) - AtMaybe(one, i) - AtMaybe(two, i) + AtMaybe(more, i)
  }

  class PathNames {
    const env: Env
    const root: nat
    const pwd: nat
    var w: World
    var count: seq<nat>
    var linkCount: nat

    constructor (e: Env, r: nat, p: nat, world: World, counts: seq<nat>)
      requires Closed(world) && In(world, r) && In(world, p) && |counts| == |world.inodes|
      ensures Valid() && env == e && root == r && pwd == p && w == world && count == counts && linkCount == 0
    {
      env, root, pwd, w, count, linkCount := e, r, p, world, counts, 0;
    }

    ghost predicate Valid()
      reads this
    {
      Closed(w) && In(w, root) && In(w, pwd) && |count| == |w.inodes| && linkCount <= MAX_LINKS
    }

    /** At least n references to an inode. */
    ghost predicate Held(i: nat, n: nat)
      reads this
    {
      Cnt(count, i) >= n
    }

    ghost predicate HeldBoth(i: nat, j: nat)
      reads this
    {
      Held(i, 1 + At(i, j)) && Held(j, 1 + At(i, j))
    }

    /** How many more links may be followed: minix_follow_link refuses when link_count > 5. */
    ghost function Depth(): nat
      reads this
      requires linkCount <= MAX_LINKS
    {
      MAX_LINKS - linkCount
    }

    /** i_count++. */
    method Hold(i: nat)
      requires Valid() && In(w, i)
      modifies this`count
      ensures Valid() && Net(old(count), count, None, None, Some(i))
    {
      count := count[i := count[i] + 1];
    }

    /** iput of an inode that is referenced: never "trying to free free inode". */
    method Iput(i: nat)
      requires Valid() && In(w, i) && Held(i, 1)
      modifies this`count
      ensures Valid() && Net(old(count), count, Some(i), None, None)
    {
      count := count[i := count[i] - 1];
    }

    /** __iget: a reference to the inode, or to the root mounted on it. */
    method Iget(i: nat) returns (j: nat)
      requires Valid() && In(w, i)
      modifies this`count
      ensures Valid() && j == Cross(w, i) && Net(old(count), count, None, None, Some(j))
    {
      Hold(i);
      j := i;
      if w.inodes[i].mounted.Some? {
        j := w.inodes[i].mounted.value;
        Hold(j);
        Iput(i);
      }
    }

    /** minix_lookup: eats the directory. */
    method MinixLookup(dir: nat, name: string) returns (r: Outcome)
      requires Valid() && In(w, dir) && Held(dir, 1)
      modifies this`count
      ensures Valid() && r == EntryOf(w, dir, name) && !r.Panic? && Net(old(count), count, Some(dir), None, Got(r))
      ensures !w.inodes[dir].kind.Directory? ==> r == Err(ENOENT)
    {
      r := Err(ENOENT);
      if w.inodes[dir].kind.Directory? {
        if (dir, Dir.Cut(name)) in w.entries {
          var j := Iget(w.entries[(dir, Dir.Cut(name))]);
          r := Found(j);
        }
      }
      Iput(dir);
    }

    /** lookup: eats the directory. */
    method Lookup(base: nat, name: string) returns (r: Outcome)
      requires Valid() && In(w, base) && Held(base, 1)
      modifies this`count
      ensures Valid() && r == LookupOf(env, w, root, base, name)
      ensures r.Panic? || Net(old(count), count, Some(base), None, Got(r))
    {
      var dir := base;
      var perm := env.perm(dir, MAY_EXEC);
      if name == ".." {
        if dir == root { return Found(dir); }
        if w.inodes[dir].top {
          var covered := w.inodes[dir].covered;
          Iput(dir);
          if covered.None? { return Err(ENOENT); }
          dir := covered.value;
          Hold(dir);
        }
      }
      if !w.inodes[dir].kind.Directory? { return Panic; }
      if perm.Some? {
        Iput(dir);
        return Err(perm.value);
      }
      if name == "" { return Found(dir); }
      r := MinixLookup(dir, name);
    }

    /** follow_link: eats both inodes. */
    method FollowLink(dir: nat, i: nat, flag: Flag) returns (r: Outcome)
      requires Valid() && In(w, dir) && In(w, i) && HeldBoth(dir, i)
      modifies this
      ensures Valid() && linkCount == old(linkCount)
                && (r, w) == FollowOf(env, old(w), root, dir, i, flag, old(Depth()))
      ensures r.Panic? || Net(old(count), count, Some(dir), Some(i), Got(r))
      decreases Depth(), 1
    {
      if !w.inodes[i].kind.Link? {
        Iput(dir);
        return Found(i);
      }
      r := MinixFollowLink(dir, i, flag);
    }

    /** minix_follow_link on a link: opens its target from the directory, counting how deep it is. */
    method MinixFollowLink(dir: nat, i: nat, flag: Flag) returns (r: Outcome)
      requires Valid() && In(w, dir) && In(w, i) && HeldBoth(dir, i) && w.inodes[i].kind.Link?
      modifies this
      ensures Valid() && linkCount == old(linkCount)
                && (r, w) == FollowOf(env, old(w), root, dir, i, flag, old(Depth()))
      ensures r.Panic? || Net(old(count), count, Some(dir), Some(i), Got(r))
      decreases Depth(), 0
    {
      if linkCount > 5 {
        Iput(i);
        Iput(dir);
        return Err(ELOOP);
      }
      if env.unreadable(i) {
        Iput(i);
        Iput(dir);
        return Err(EIO);
      }
      Iput(i);
      linkCount := linkCount + 1;
      r := OpenNamei(w.inodes[i].target, flag, Some(dir));
      linkCount := linkCount - 1;
    }

    /** One turn of the loop in dir_namei: eats the directory it starts from. */
    method Component(base: nat, name: string) returns (r: Outcome)
      requires Valid() && In(w, base) && Held(base, 1)
      modifies this
      ensures Valid() && linkCount == old(linkCount) && (r, w) == StepOf(env, old(w), root, base, name, old(Depth()))
      ensures r.Panic? || Net(old(count), count, Some(base), None, Got(r))
      decreases Depth(), 2
    {
      Hold(base);
      r := Lookup(base, name);
      if r.Panic? { return; }
      if r.Err? {
        Iput(base);
        return;
      }
      r := FollowLink(base, r.i, PLAIN);
    }

    /** dir_namei: eats the directory it starts from, if it is given one. */
    method DirNamei(path: string, from: Maybe<nat>) returns (r: Outcome, name: string)
      requires Valid() && InMaybe(w, from) && (from.Some? ==> Held(from.value, 1))
      modifies this
      ensures Valid() && linkCount == old(linkCount)
      ensures (r, name, w) == DirOf(env, old(w), root, if from.Some? then from.value else pwd, path, old(Depth()))
      ensures r.Panic? || Net(old(count), count, from, None, Got(r))
      decreases Depth(), 4
    {
      var base, rest := Begin(path, from);
      r, name := Components(base, rest);
    }

    /** The loop of dir_namei: eats the directory it starts from. */
    method Components(start: nat, path: string) returns (r: Outcome, name: string)
      requires Valid() && In(w, start) && Held(start, 1)
      modifies this
      ensures Valid() && linkCount == old(linkCount)
      ensures (r, name, w) == WalkOf(env, old(w), root, start, path, old(Depth()))
      ensures r.Panic? || Net(old(count), count, Some(start), None, Got(r))
      decreases Depth(), 3
    {
      var base, rest := start, path;
      ghost var want := WalkOf(env, w, root, base, rest, Depth());
      while true
        invariant Valid() && linkCount == old(linkCount) && In(w, base)
        invariant WalkOf(env, w, root, base, rest, old(Depth())) == want
        invariant Net(old(count), count, Some(start), None, Some(base))
        decreases |rest|
      {
        var len := Scan(rest);
        if len == |rest| { break; }
        r := Component(base, rest[..len]);
        if !r.Found? { return r, ""; }
        base := r.i;
        rest := rest[len + 1..];
      }
      if !w.inodes[base].kind.Directory? {
        Iput(base);
        return Err(ENOTDIR), "";
      }
      return Found(base), rest;
    }

    /** Where dir_namei starts: the given or the working directory, or the root if the path begins with '/'. */
    method Begin(path: string, from: Maybe<nat>) returns (base: nat, rest: string)
      requires Valid() && InMaybe(w, from) && (from.Some? ==> Held(from.value, 1))
      modifies this`count
      ensures Valid() && In(w, base) && Net(old(count), count, from, None, Some(base))
      ensures forall depth: nat :: DirOf(env, w, root, if from.Some? then from.value else pwd, path, depth)
                                   == WalkOf(env, w, root, base, rest, depth)
    {
      if from.Some? {
        base := from.value;
      } else {
        base := pwd;
        Hold(base);
      }
      rest := path;
      if path != "" && path[0] == '/' {
        Iput(base);
        base := root;
        rest := path[1..];
        Hold(base);
      }
    }

    /** The inner loop of dir_namei. */
    method Scan(rest: string) returns (len: nat)
      ensures len == Slash(rest, 0)
    {
      len := 0;
      while len < |rest| && rest[len] != '/'
        invariant len <= |rest| && Slash(rest, len) == Slash(rest, 0)
      {
        len := len + 1;
      }
    }

    /** _namei. */
    method Namei(path: string, from: Maybe<nat>, follow: bool) returns (r: Outcome)
      requires Valid() && InMaybe(w, from) && (from.Some? ==> Held(from.value, 1))
      modifies this
      ensures Valid() && linkCount == old(linkCount)
      ensures (r, w) == NameOf(env, old(w), root, if from.Some? then from.value else pwd, path, follow, old(Depth()))
      ensures r.Panic? || Net(old(count), count, from, None, Got(r))
    {
      var d, name := DirNamei(path, from);
      if !d.Found? { return d; }
      if follow {
        r := Component(d.i, name);
      } else {
        Hold(d.i);
        r := Lookup(d.i, name);
        if !r.Panic? { Iput(d.i); }
      }
    }

    /** namei: links are followed, from the working directory. */
    method NameiFor(path: string, want: Want, mask: nat) returns (r: Outcome)
      requires Valid()
      modifies this
      ensures Valid() && linkCount == old(linkCount)
      ensures var (named, now) := NameOf(env, old(w), root, pwd, path, true, old(Depth()));
              && w == now
              && (r.Found? <==> named.Found? && (want.NotDir? ==> !now.inodes[named.i].kind.Directory?)
                                && (want.IsDir? ==> now.inodes[named.i].kind.Directory?)
                                && (mask != 0 ==> env.perm(named.i, mask).None?))
              && (r.Found? || !named.Found? ==> r == named) && (named.Found? ==> !r.Panic?)
              && (named.Found? && want.NotDir? && now.inodes[named.i].kind.Directory? ==> r == Err(EISDIR))
              && (named.Found? && want.IsDir? && !now.inodes[named.i].kind.Directory? ==> r == Err(ENOTDIR))
              && (named.Found? && want.Any? && r.Err? ==> env.perm(named.i, mask) == Some(r.e))
      ensures r.Panic? || Net(old(count), count, None, None, Got(r))
    {
      r := Namei(path, None, true);
      if !r.Found? { return; }
      var i := r.i;
      if want == NotDir && w.inodes[i].kind == Directory {
        r := Err(EISDIR);
      } else if want == IsDir && w.inodes[i].kind != Directory {
        r := Err(ENOTDIR);
      } else if mask != 0 && env.perm(i, mask).Some? {
        r := Err(env.perm(i, mask).value);
      }
      if r.Err? { Iput(i); }
    }

    /** The last component of an open, when it exists: eats the directory and the inode. */
    method Finish(dir: nat, i: nat, flag: Flag) returns (r: Outcome)
      requires Valid() && In(w, dir) && In(w, i) && HeldBoth(dir, i)
      modifies this
      ensures Valid() && linkCount == old(linkCount)
                && (r, w) == FinishOf(env, old(w), root, dir, i, flag, old(Depth()))
      ensures r.Panic? || Net(old(count), count, Some(dir), Some(i), Got(r))
      decreases Depth(), 2
    {
      r := FollowLink(dir, i, flag);
      if !r.Found? { return; }
      var j := r.i;
      if w.inodes[j].kind.Directory? && flag.write {
        r := Err(EISDIR);
      } else if env.perm(j, flag.access).Some? {
        r := Err(env.perm(j, flag.access).value);
      } else if w.inodes[j].kind.Special? && env.nodev(j) {
        r := Err(EACCES);
      }
      if r.Err? { Iput(j); }
    }

    /** minix_create: eats the directory; the new inode starts with one reference. */
    method Create(dir: nat, name: string) returns (r: Outcome)
      requires Valid() && In(w, dir) && Held(dir, 1)
      modifies this`w, this`count
      ensures Valid()
      ensures (r, w) == if env.full(dir, name).Some? then (Err(env.full(dir, name).value), old(w))
                        else (Found(|old(w).inodes|), Created(old(w), dir, name))
      ensures !r.Panic? && Net(old(count), count, Some(dir), None, Got(r))
    {
      if env.full(dir, name).Some? {
        Iput(dir);
        return Err(env.full(dir, name).value);
      }
      r := Found(|count|);
      w := Created(w, dir, name);
      count := count + [1];
      Iput(dir);
    }

    /** The last component of an open, when it is missing: eats the directory. */
    method CreateMissing(dir: nat, name: string) returns (r: Outcome)
      requires Valid() && In(w, dir) && Held(dir, 1)
      modifies this`w, this`count
      ensures Valid() && (r, w) == CreateOf(env, old(w), dir, name)
      ensures !r.Panic? && Net(old(count), count, Some(dir), None, Got(r))
    {
      if env.perm(dir, MAY_WRITE_EXEC).Some? {
        r := Err(env.perm(dir, MAY_WRITE_EXEC).value);
      } else if !w.inodes[dir].kind.Directory? {
        r := Err(EACCES);
      } else {
        Hold(dir);
        r := Create(dir, name);
        Iput(dir);
        return;
      }
      Iput(dir);
    }

    /** open_namei: eats the directory it starts from, if it is given one. */
    method OpenNamei(path: string, flag: Flag, from: Maybe<nat>) returns (r: Outcome)
      requires Valid() && InMaybe(w, from) && (from.Some? ==> Held(from.value, 1))
      modifies this
      ensures Valid() && linkCount == old(linkCount)
      ensures (r, w) == OpenOf(env, old(w), root, if from.Some? then from.value else pwd, path, flag, old(Depth()))
      ensures r.Panic? || Net(old(count), count, from, None, Got(r))
      decreases Depth(), 5
    {
      var d, name := DirNamei(path, from);
      if !d.Found? { return d; }
      if name == "" {
        if flag.write {
          Iput(d.i);
          return Err(EISDIR);
        }
        if env.perm(d.i, flag.access).Some? {
          Iput(d.i);
          return Err(env.perm(d.i, flag.access).value);
        }
        return d;
      }
      r := OpenLast(d.i, name, flag);
    }

    /** The rest of open_namei, for a last component that is not empty: eats the directory. */
    method OpenLast(dir: nat, name: string, flag: Flag) returns (r: Outcome)
      requires Valid() && In(w, dir) && Held(dir, 1)
      modifies this
      ensures Valid() && linkCount == old(linkCount)
                && (r, w) == LastOf(env, old(w), root, dir, name, flag, old(Depth()))
      ensures r.Panic? || Net(old(count), count, Some(dir), None, Got(r))
      decreases Depth(), 3
    {
      Hold(dir);
      r := Lookup(dir, name);
      if r.Panic? { return; }
      if r.Found? {
        if flag.creat && flag.excl {
          Iput(r.i);
          Iput(dir);
          return Err(EEXIST);
        }
        r := Finish(dir, r.i, flag);
      } else if flag.creat {
        r := CreateMissing(dir, name);
      } else {
        Iput(dir);
      }
    }
  }
}
