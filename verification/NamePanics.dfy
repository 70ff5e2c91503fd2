/** When path resolution panics: lookup (fs/namei.c) halts the kernel if it is asked for a component of an inode that
  * is no directory. */
module NamePanics {
  import opened Names
  import Dir = Directory

  /** The root is a directory, and so is every root of a mounted file system and what it covers. */
  ghost predicate Housed(w: World, root: nat) {
    && In(w, root) && Closed(w) && w.inodes[root].kind.Directory?
    && forall i :: 0 <= i < |w.inodes| && w.inodes[i].top ==>
         w.inodes[i].kind.Directory?
         && (w.inodes[i].covered.Some? ==> w.inodes[w.inodes[i].covered.value].kind.Directory?)
  }

  /** Following i panics: it is a link, may be followed, and opening its target panics. */
  ghost predicate FollowTraps(env: Env, w: World, root: nat, dir: nat, i: nat, flag: Flag, depth: nat)
    requires In(w, dir) && In(w, i) && In(w, root) && Closed(w)
    decreases depth, 0
  {
    w.inodes[i].kind.Link? && depth > 0 && !env.unreadable(i)
    && OpenTraps(env, w, root, dir, w.inodes[i].target, flag, depth - 1)
  }

  /** With rest to come, the component name of d is no directory although rest has two or more components, or is a
    * link that panics. */
  ghost predicate Bites(env: Env, w: World, root: nat, d: nat, name: string, rest: string, depth: nat)
    requires In(w, d) && In(w, root) && Closed(w)
    decreases depth, 1, 0
  {
    var r := LookupOf(env, w, root, d, name);
    r.Found? && (FollowTraps(env, w, root, d, r.i, PLAIN, depth)
                 || var (s, w1) := FollowOf(env, w, root, d, r.i, PLAIN, depth);
                    s.Found? && !w1.inodes[s.i].kind.Directory? && '/' in rest)
  }

  /** The first k characters of the path name something that is no directory although two or more components are to
    * come, or lead to a link that panics. */
  ghost predicate TrapAt(env: Env, w: World, root: nat, base: nat, path: string, k: nat, depth: nat)
    requires In(w, base) && In(w, root) && Closed(w) && k < |path|
    decreases depth, 1, 1
  {
    var (d, name, w1) := WalkOf(env, w, root, base, path[..k], depth);
    d.Found? && Bites(env, w1, root, d.i, name, path[k + 1..], depth)
  }

  ghost predicate WalkTraps(env: Env, w: World, root: nat, base: nat, path: string, depth: nat)
    requires In(w, base) && In(w, root) && Closed(w)
    decreases depth, 2
  {
    exists k :: 0 <= k < |path| && path[k] == '/' && TrapAt(env, w, root, base, path, k, depth)
  }

  ghost predicate DirTraps(env: Env, w: World, root: nat, base: nat, path: string, depth: nat)
    requires In(w, base) && In(w, root) && Closed(w)
    decreases depth, 3
  {
    if path != "" && path[0] == '/' then WalkTraps(env, w, root, root, path[1..], depth)
    else WalkTraps(env, w, root, base, path, depth)
  }

  /** The last component is a link that panics. */
  ghost predicate LastTraps(env: Env, w: World, root: nat, base: nat, path: string, flag: Flag, depth: nat)
    requires In(w, base) && In(w, root) && Closed(w)
    decreases depth, 3
  {
    var (d, name, w1) := DirOf(env, w, root, base, path, depth);
    d.Found? && var r := LookupOf(env, w1, root, d.i, name);
                r.Found? && FollowTraps(env, w1, root, d.i, r.i, flag, depth)
  }

  ghost predicate OpenTraps(env: Env, w: World, root: nat, base: nat, path: string, flag: Flag, depth: nat)
    requires In(w, base) && In(w, root) && Closed(w)
    decreases depth, 4
  {
    DirTraps(env, w, root, base, path, depth)
    || (DirOf(env, w, root, base, path, depth).1 != "" && !(flag.creat && flag.excl)
        && LastTraps(env, w, root, base, path, flag, depth))
  }

  lemma LookupPanicsIff(env: Env, w: World, root: nat, dir: nat, name: string)
    requires Housed(w, root) && In(w, dir)
    ensures LookupOf(env, w, root, dir, name).Panic? <==> !w.inodes[dir].kind.Directory?
  {}

  lemma {:induction false} SlashIn(path: string)
    ensures Slash(path, 0) < |path| <==> '/' in path
  {
    var k := Slash(path, 0);
    assert k < |path| ==> path[k] in path;
  }

  /** A file on the way: with nothing after it but the last component the path is refused with ENOTDIR, with more it
    * makes lookup panic. */
  lemma FileOnTheWay(env: Env, w: World, root: nat, base: nat, path: string, depth: nat)
    requires Housed(w, root) && In(w, base) && !w.inodes[base].kind.Directory?
    ensures WalkOf(env, w, root, base, path, depth).0 == if '/' in path then Panic else Err(ENOTDIR)
  {
    SlashIn(path);
  }

  lemma {:induction false} FirstAlone(path: string)
    ensures var c := path[..Slash(path, 0)]; Slash(c, 0) == |c|
  {
    var c := path[..Slash(path, 0)];
    assert forall j :: 0 <= j < |c| ==> c[j] == path[j];
  }

  /** A path of one component and q goes on with q from where the component leads. */
  lemma WalkFrom(env: Env, w: World, root: nat, base: nat, c: string, q: string, depth: nat)
    requires In(w, root) && Closed(w) && In(w, base) && w.inodes[base].kind.Directory? && Slash(c, 0) == |c|
    ensures var (b, w1) := StepOf(env, w, root, base, c, depth);
            w1 == w && WalkOf(env, w, root, base, c + ['/'] + q, depth)
                       == if b.Found? then WalkOf(env, w, root, b.i, q, depth) else (b, "", w)
  {
    assert WalkOf(env, w, root, base, c, depth) == (Found(base), c, w);
    WalkJoin(env, w, root, base, c, q, base, c, depth);
  }

  lemma PrefixJoin(path: string, f: nat, k: nat)
    requires f < k < |path| && path[f] == '/'
    ensures path[..k] == path[..f] + ['/'] + path[f + 1..][..k - f - 1]
    ensures path[k + 1..] == path[f + 1..][k - f - 1 + 1..] && path[f + 1..][k - f - 1] == path[k]
  {}

  /** What follows the first component of a path is walked from where that leads. */
  lemma WalkBeyond(env: Env, w: World, root: nat, base: nat, path: string, k: nat, depth: nat)
    requires In(w, root) && Closed(w) && In(w, base) && w.inodes[base].kind.Directory?
    requires Slash(path, 0) < k < |path|
    ensures var f := Slash(path, 0); var (b, w1) := StepOf(env, w, root, base, path[..f], depth);
            w1 == w && WalkOf(env, w, root, base, path[..k], depth)
                       == if b.Found? then WalkOf(env, w, root, b.i, path[f + 1..][..k - f - 1], depth) else (b, "", w)
  {
    var f := Slash(path, 0);
    FirstAlone(path);
    PrefixJoin(path, f, k);
    WalkFrom(env, w, root, base, path[..f], path[f + 1..][..k - f - 1], depth);
  }

  lemma TrapBeyond(env: Env, w: World, root: nat, base: nat, path: string, k: nat, depth: nat)
    requires Housed(w, root) && In(w, base) && w.inodes[base].kind.Directory?
    requires Slash(path, 0) < k < |path|
    ensures var f := Slash(path, 0); var b := StepOf(env, w, root, base, path[..f], depth).0;
            TrapAt(env, w, root, base, path, k, depth)
            <==> b.Found? && In(w, b.i) && TrapAt(env, w, root, b.i, path[f + 1..], k - f - 1, depth)
  {
    var f := Slash(path, 0);
    WalkBeyond(env, w, root, base, path, k, depth);
    PrefixJoin(path, f, k);
  }

  lemma TrapFirst(env: Env, w: World, root: nat, base: nat, path: string, depth: nat)
    requires Housed(w, root) && In(w, base) && w.inodes[base].kind.Directory? && Slash(path, 0) < |path|
    requires var r := LookupOf(env, w, root, base, path[..Slash(path, 0)]);
             r.Found? ==> (FollowOf(env, w, root, base, r.i, PLAIN, depth).0.Panic?
                           <==> FollowTraps(env, w, root, base, r.i, PLAIN, depth))
    ensures var f := Slash(path, 0); var (b, w1) := StepOf(env, w, root, base, path[..f], depth);
            TrapAt(env, w, root, base, path, f, depth)
            <==> b.Panic? || (b.Found? && !w1.inodes[b.i].kind.Directory? && '/' in path[f + 1..])
  {
    var f := Slash(path, 0);
    FirstAlone(path);
    LookupPanicsIff(env, w, root, base, path[..f]);
    assert WalkOf(env, w, root, base, path[..f], depth) == (Found(base), path[..f], w);
  }

  /** A trap further on is one beyond the first component. */
  lemma TrapsFurther(env: Env, w: World, root: nat, base: nat, path: string, k: nat, depth: nat)
    requires Housed(w, root) && In(w, base) && w.inodes[base].kind.Directory?
    requires Slash(path, 0) < k < |path| && path[k] == '/' && TrapAt(env, w, root, base, path, k, depth)
    ensures var f := Slash(path, 0); var b := StepOf(env, w, root, base, path[..f], depth).0;
            b.Found? && In(w, b.i) && WalkTraps(env, w, root, b.i, path[f + 1..], depth)
  {
    TrapBeyond(env, w, root, base, path, k, depth);
    PrefixJoin(path, Slash(path, 0), k);
  }

  lemma TrapsNearer(env: Env, w: World, root: nat, base: nat, path: string, b: nat, depth: nat)
    requires Housed(w, root) && In(w, base) && w.inodes[base].kind.Directory? && Slash(path, 0) < |path| && In(w, b)
    requires StepOf(env, w, root, base, path[..Slash(path, 0)], depth).0 == Found(b)
    requires WalkTraps(env, w, root, b, path[Slash(path, 0) + 1..], depth)
    ensures WalkTraps(env, w, root, base, path, depth)
  {
    var f := Slash(path, 0);
    var rest := path[f + 1..];
    var k :| 0 <= k < |rest| && rest[k] == '/' && TrapAt(env, w, root, b, rest, k, depth);
    PrefixJoin(path, f, k + f + 1);
    TrapBeyond(env, w, root, base, path, k + f + 1, depth);
  }

  /** The walk goes on from b, or ends: the traps are those beyond the first component. */
  lemma TrapsBeyond(env: Env, w: World, root: nat, base: nat, path: string, depth: nat)
    requires Housed(w, root) && In(w, base) && w.inodes[base].kind.Directory? && Slash(path, 0) < |path|
    requires !TrapAt(env, w, root, base, path, Slash(path, 0), depth)
    ensures var f := Slash(path, 0); var b := StepOf(env, w, root, base, path[..f], depth).0;
            WalkTraps(env, w, root, base, path, depth)
            <==> b.Found? && In(w, b.i) && WalkTraps(env, w, root, b.i, path[f + 1..], depth)
  {
    var f := Slash(path, 0);
    var b := StepOf(env, w, root, base, path[..f], depth).0;
    if WalkTraps(env, w, root, base, path, depth) {
      var k :| 0 <= k < |path| && path[k] == '/' && TrapAt(env, w, root, base, path, k, depth);
      TrapsFurther(env, w, root, base, path, k, depth);
    } else if b.Found? && In(w, b.i) && WalkTraps(env, w, root, b.i, path[f + 1..], depth) {
      TrapsNearer(env, w, root, base, path, b.i, depth);
    }
  }

  /** With one slash only there is one place to look at. */
  lemma OneTrap(env: Env, w: World, root: nat, base: nat, path: string, depth: nat)
    requires In(w, base) && In(w, root) && Closed(w) && Slash(path, 0) < |path|
    ensures '/' !in path[Slash(path, 0) + 1..] ==>
              (WalkTraps(env, w, root, base, path, depth)
               <==> TrapAt(env, w, root, base, path, Slash(path, 0), depth))
  {
    var f := Slash(path, 0);
    forall k | 0 <= k < |path| && path[k] == '/' ensures k == f || '/' in path[f + 1..] {
      if k > f { assert path[f + 1..][k - f - 1] == '/'; }
    }
  }

  /** The case of a first component that is no directory, or panics. */
  lemma WalkStops(env: Env, w: World, root: nat, base: nat, path: string, depth: nat)
    requires Housed(w, root) && In(w, base) && w.inodes[base].kind.Directory? && Slash(path, 0) < |path|
    requires var f := Slash(path, 0); var (b, w1) := StepOf(env, w, root, base, path[..f], depth);
             && w1 == w && (b.Panic? || (b.Found? && !w.inodes[b.i].kind.Directory?))
             && (TrapAt(env, w, root, base, path, f, depth) <==> b.Panic? || '/' in path[f + 1..])
    ensures WalkOf(env, w, root, base, path, depth).0.Panic? <==> WalkTraps(env, w, root, base, path, depth)
  {
    var f := Slash(path, 0);
    var b := StepOf(env, w, root, base, path[..f], depth).0;
    OneTrap(env, w, root, base, path, depth);
    if b.Found? { FileOnTheWay(env, w, root, b.i, path[f + 1..], depth); }
  }

  /** The case of one that leads on, or to an error. */
  lemma WalkGoesOn(env: Env, w: World, root: nat, base: nat, path: string, depth: nat)
    requires Housed(w, root) && In(w, base) && w.inodes[base].kind.Directory? && Slash(path, 0) < |path|
    requires var f := Slash(path, 0); var (b, w1) := StepOf(env, w, root, base, path[..f], depth);
             && w1 == w && !b.Panic? && !TrapAt(env, w, root, base, path, f, depth)
             && (b.Found? ==> (WalkOf(env, w, root, b.i, path[f + 1..], depth).0.Panic?
                               <==> WalkTraps(env, w, root, b.i, path[f + 1..], depth)))
    ensures WalkOf(env, w, root, base, path, depth).0.Panic? <==> WalkTraps(env, w, root, base, path, depth)
  {
    TrapsBeyond(env, w, root, base, path, depth);
  }

  lemma {:induction false} FollowPanicsIff(env: Env, w: World, root: nat, dir: nat, i: nat, flag: Flag, depth: nat)
    requires Housed(w, root) && In(w, dir) && In(w, i) && w.inodes[dir].kind.Directory?
    ensures FollowOf(env, w, root, dir, i, flag, depth).0.Panic? <==> FollowTraps(env, w, root, dir, i, flag, depth)
    decreases depth, 0, 0
  {
    if w.inodes[i].kind.Link? && depth > 0 && !env.unreadable(i) {
      OpenPanicsIff(env, w, root, dir, w.inodes[i].target, flag, depth - 1);
    }
  }

  lemma {:induction false} WalkPanicsIff(env: Env, w: World, root: nat, base: nat, path: string, depth: nat)
    requires Housed(w, root) && In(w, base) && w.inodes[base].kind.Directory?
    ensures WalkOf(env, w, root, base, path, depth).0.Panic? <==> WalkTraps(env, w, root, base, path, depth)
    decreases depth, 2, |path|
  {
    var f := Slash(path, 0);
    if f < |path| {
      var r := LookupOf(env, w, root, base, path[..f]);
      if r.Found? { FollowPanicsIff(env, w, root, base, r.i, PLAIN, depth); }
      TrapFirst(env, w, root, base, path, depth);
      StepReads(env, w, root, base, path[..f], depth);
      var b := StepOf(env, w, root, base, path[..f], depth).0;
      if b.Panic? || (b.Found? && !w.inodes[b.i].kind.Directory?) {
        WalkStops(env, w, root, base, path, depth);
      } else {
        if b.Found? { WalkPanicsIff(env, w, root, b.i, path[f + 1..], depth); }
        WalkGoesOn(env, w, root, base, path, depth);
      }
    }
  }

  /** dir_namei panics if and only if some prefix of the path names what is no directory although two or more
    * components are to come, or a link met on the way panics when it is followed. */
  lemma {:induction false} DirPanicsIff(env: Env, w: World, root: nat, base: nat, path: string, depth: nat)
    requires Housed(w, root) && In(w, base) && w.inodes[base].kind.Directory?
    ensures DirOf(env, w, root, base, path, depth).0.Panic? <==> DirTraps(env, w, root, base, path, depth)
    ensures var (d, _, w1) := DirOf(env, w, root, base, path, depth);
            w1 == w && (d.Found? ==> In(w, d.i) && w.inodes[d.i].kind.Directory?)
    decreases depth, 3, 0
  {
    DirReads(env, w, root, base, path, depth);
    if path != "" && path[0] == '/' {
      WalkPanicsIff(env, w, root, root, path[1..], depth);
      WalkEnds(env, w, root, root, path[1..], depth);
    } else {
      WalkPanicsIff(env, w, root, base, path, depth);
      WalkEnds(env, w, root, base, path, depth);
    }
  }

  /** open_namei panics if and only if dir_namei does, or the last component is a link that does. */
  lemma {:induction false} OpenPanicsIff(env: Env, w: World, root: nat, base: nat, path: string, flag: Flag, depth: nat)
    requires Housed(w, root) && In(w, base) && w.inodes[base].kind.Directory?
    ensures OpenOf(env, w, root, base, path, flag, depth).0.Panic? <==> OpenTraps(env, w, root, base, path, flag, depth)
    decreases depth, 4, 0
  {
    DirPanicsIff(env, w, root, base, path, depth);
    var (d, name, _) := DirOf(env, w, root, base, path, depth);
    if d.Found? {
      LookupPanicsIff(env, w, root, d.i, name);
      var r := LookupOf(env, w, root, d.i, name);
      if r.Found? {
        FollowPanicsIff(env, w, root, d.i, r.i, flag, depth);
        FinishPanics(env, w, root, d.i, r.i, flag, depth);
      }
    }
  }

  lemma FinishPanics(env: Env, w: World, root: nat, dir: nat, i: nat, flag: Flag, depth: nat)
    requires In(w, dir) && In(w, i) && In(w, root) && Closed(w)
    ensures FinishOf(env, w, root, dir, i, flag, depth).0.Panic? <==>
              FollowOf(env, w, root, dir, i, flag, depth).0.Panic?
  {}

  /** So does _namei, when it is to follow links. */
  lemma NamePanicsIff(env: Env, w: World, root: nat, base: nat, path: string, follow: bool, depth: nat)
    requires Housed(w, root) && In(w, base) && w.inodes[base].kind.Directory?
    ensures NameOf(env, w, root, base, path, follow, depth).0.Panic?
            <==> (DirTraps(env, w, root, base, path, depth)
                  || (follow && LastTraps(env, w, root, base, path, PLAIN, depth)))
  {
    DirPanicsIff(env, w, root, base, path, depth);
    var (d, name, _) := DirOf(env, w, root, base, path, depth);
    if d.Found? {
      LookupPanicsIff(env, w, root, d.i, name);
      var r := LookupOf(env, w, root, d.i, name);
      if r.Found? { FollowPanicsIff(env, w, root, d.i, r.i, PLAIN, depth); }
    }
  }

  /** A path that goes on with q after p has named a file: ENOTDIR if q is one component, a panic if it is more. */
  lemma BeyondFile(env: Env, w: World, root: nat, base: nat, p: string, q: string, depth: nat)
    requires Housed(w, root) && In(w, base)
    requires var (r, w1) := NameOf(env, w, root, base, p, true, depth); r.Found? && !w1.inodes[r.i].kind.Directory?
    ensures DirOf(env, w, root, base, p + ['/'] + q, depth).0 == if '/' in q then Panic else Err(ENOTDIR)
  {
    var (d, name, _) := DirOf(env, w, root, base, p, depth);
    DirReads(env, w, root, base, p, depth);
    StepReads(env, w, root, d.i, name, depth);
    var b := StepOf(env, w, root, d.i, name, depth).0.i;
    FileOnTheWay(env, w, root, b, q, depth);
    if p != "" && p[0] == '/' {
      assert (p + ['/'] + q)[1..] == p[1..] + ['/'] + q;
      WalkJoin(env, w, root, root, p[1..], q, d.i, name, depth);
    } else {
      WalkJoin(env, w, root, base, p, q, d.i, name, depth);
    }
  }

  /** Looking up "f/x/y" panics. */
  lemma FilePanics()
    ensures Closed(Tiny()) && OpenOf(Lenient(), Tiny(), 0, 0, "f/x/y", PLAIN, MAX_LINKS).0.Panic?
  {
    var path := "f/x/y";
    assert Slash(path, 0) == 1 && path[..1] == "f" && path[2..] == "x/y";
    assert Dir.Cut("f") == "f";
    assert EntryOf(Tiny(), 0, "f") == Found(2);
    assert StepOf(Lenient(), Tiny(), 0, 0, "f", MAX_LINKS) == (Found(2), Tiny());
    FileOnTheWay(Lenient(), Tiny(), 0, 2, "x/y", MAX_LINKS);
  }
}
