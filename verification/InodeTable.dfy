/** The cached inodes of fs/inode.c when tasks sleep inside __iget, get_empty_inode and iput. The kernel is not
  * preempted: a step is code between two points where a task may sleep. Where one such stretch is cut into two
  * steps the model only allows more interleavings than the code does. */
module InodeTable {
  datatype Maybe = None | Some(slot: nat)

  datatype Slot = Slot(dev: nat, ino: nat, count: nat, locked: bool, dirty: bool, nlink: nat) {
    predicate Is(d: nat, n: nat) { dev == d && ino == n }
    predicate Spare() { count == 0 && !locked && !dirty }
  }

  /** What is left to do after an iput: nothing, another search by __iget, or handing a slot to the caller. */
  datatype Then = Done | Retry(dev: nat, ino: nat, empty: Maybe) | Give(slot: nat, dev: nat, ino: nat, empty: Maybe)

  /** Where a task stands. An inode it looks for is named by dev and ino; empty is the slot that
    * get_empty_inode has given it. */
  datatype Pc =
    | Idle
    | Searching(dev: nat, ino: nat, empty: Maybe)            // __iget at repeat
    | Starved(dev: nat, ino: nat)                            // get_empty_inode asleep on inode_wait
    | Waiting(b: nat, dev: nat, ino: nat, empty: Maybe)      // __iget at found_it, in wait_on_inode
    | Assigned(b: nat, dev: nat, ino: nat)                   // read_inode, about to lock
    | Reading(b: nat, dev: nat, ino: nat)                    // read_inode, locked
    | Holding(b: nat, dev: nat, ino: nat)
    | Putting(b: nat, next: Then)                            // iput, in wait_on_inode
    | Flushing(b: nat, next: Then)                           // iput, in write_inode's wait_on_inode
    | Writing(b: nat, next: Then)                            // iput, in write_inode, locked
    | Truncating(b: nat, next: Then)                         // put_inode, asleep before minix_free_inode
    | Clearing(b: nat, next: Then)                           // minix_free_inode, asleep before clear_inode
    | Syncing(b: nat)                                        // sync_inodes, in write_inode, locked

  /** pins[b] counts references outside these tasks' calls: mounts, working directories, open files handed
    * on. mounts[b] is the root mounted on b. free is nr_free_inodes. */
  datatype State = State(slots: seq<Slot>, agents: seq<Pc>, pins: seq<nat>, mounts: seq<Maybe>, free: int)

  datatype Step =
    | Iget(i: nat, dev: nat, ino: nat)
    | Search(i: nat, pick: nat)
    | Woken(i: nat, pick: nat)
    | Waited(i: nat)
    | Lock(i: nat)
    | Read(i: nat)
    | Iput(i: nat)
    | Put(i: nat, sleeps: bool)
    | Flush(i: nat, sleeps: bool)
    | Written(i: nat, dirty: bool, sleeps: bool)
    | Truncated(i: nat)
    | Clear(i: nat)
    | Sync(i: nat, b: nat)
    | Synced(i: nat, dirty: bool)
    | Change(b: nat, dirty: bool, nlink: nat)
    | Dup(b: nat)                                            // i_count++ by someone who holds the inode
    | Keep(i: nat)                                           // the caller stores its reference
    | Close(i: nat, b: nat)                                  // iput of a stored reference

  ghost predicate Cached(s: State, d: nat, n: nat) {
    exists b :: 0 <= b < |s.slots| && s.slots[b].Is(d, n)
  }

  ghost predicate NoSpare(s: State) {
    forall b :: 0 <= b < |s.slots| ==> !s.slots[b].Spare()
  }

  predicate OpenAt(s: State, b: nat) { b < |s.slots| && !s.slots[b].locked }

  /** A slot that a mount needs: the root, or what it covers. */
  ghost predicate Mounted(s: State, b: nat) {
    (b < |s.mounts| && s.mounts[b].Some?) || exists c :: 0 <= c < |s.mounts| && s.mounts[c] == Some(b)
  }

  ghost predicate Enabled(s: State, step: Step) {
    match step
    case Iget(i, d, n) => i < |s.agents| && s.agents[i].Idle? && d != 0
    case Search(i, pick) =>
      && i < |s.agents| && s.agents[i].Searching?
      && var a := s.agents[i];
         if Cached(s, a.dev, a.ino) then pick < |s.slots| && s.slots[pick].Is(a.dev, a.ino)
         else if a.empty.Some? then a.empty.slot < |s.slots|
         else NoSpare(s) || (pick < |s.slots| && s.slots[pick].Spare())
    case Woken(i, pick) => i < |s.agents| && s.agents[i].Starved? && pick < |s.slots| && s.slots[pick].Spare()
    case Waited(i) =>
      && i < |s.agents| && s.agents[i].Waiting? && OpenAt(s, s.agents[i].b) && s.agents[i].b < |s.mounts|
      && (s.mounts[s.agents[i].b].Some? ==> s.mounts[s.agents[i].b].slot < |s.slots|)
    case Lock(i) => i < |s.agents| && s.agents[i].Assigned? && OpenAt(s, s.agents[i].b)
    case Read(i) => i < |s.agents| && s.agents[i].Reading? && s.agents[i].b < |s.slots|
    case Iput(i) => i < |s.agents| && s.agents[i].Holding?
    case Put(i, _) => i < |s.agents| && s.agents[i].Putting? && OpenAt(s, s.agents[i].b)
    case Flush(i, _) => i < |s.agents| && s.agents[i].Flushing? && OpenAt(s, s.agents[i].b)
    case Written(i, _, _) => i < |s.agents| && s.agents[i].Writing? && s.agents[i].b < |s.slots|
    case Truncated(i) => i < |s.agents| && s.agents[i].Truncating? && s.agents[i].b < |s.slots|
    case Clear(i) => i < |s.agents| && s.agents[i].Clearing? && OpenAt(s, s.agents[i].b)
    case Sync(i, b) => i < |s.agents| && s.agents[i].Idle? && OpenAt(s, b) && s.slots[b].dirty
    case Synced(i, _) => i < |s.agents| && s.agents[i].Syncing? && s.agents[i].b < |s.slots|
    case Change(b, _, _) => b < |s.slots| && s.slots[b].count > 0 && s.slots[b].dev != 0
    case Dup(b) => b < |s.slots| && b < |s.pins| && s.slots[b].count > 0 && s.slots[b].dev != 0
    case Keep(i) => i < |s.agents| && s.agents[i].Holding? && s.agents[i].b < |s.pins|
    case Close(i, b) =>
      i < |s.agents| && s.agents[i].Idle? && b < |s.slots| && b < |s.pins| && s.pins[b] > 0
          && (s.pins[b] == 1 ==> !Mounted(s, b))
  }

  function Next(k: Then): Pc {
    match k
    case Done => Idle
    case Retry(d, n, e) => Searching(d, n, e)
    case Give(b, d, n, Some(e)) => Putting(e, Give(b, d, n, None))
    case Give(b, d, n, None) => Holding(b, d, n)
  }

  /** Slot b becomes x, nr_free_inodes changes by df, and task i goes on at pc. */
  function Set(s: State, b: nat, x: Slot, df: int, i: nat, pc: Pc): State
    requires b < |s.slots| && i < |s.agents|
  {
    s.(slots := s.slots[b := x], free := s.free + df, agents := s.agents[i := pc])
  }

  const EMPTY := Slot(0, 0, 0, false, false, 0)

  function Positive(n: nat): int { if n > 0 then 1 else 0 }

  /** An unsigned short going down. */
  function Less(n: nat): nat { if n == 0 then 65535 else n - 1 }

  /** get_empty_inode with slot pick: clear_inode, then one reference. */
  function Taken(s: State, pick: nat, i: nat, d: nat, n: nat): State
    requires pick < |s.slots| && i < |s.agents|
  {
    Set(s, pick, EMPTY.(count := 1, nlink := 1), -1, i, Searching(d, n, Some(pick)))
  }

  /** iput after put_inode has kept the inode: write it first if need be. */
  function Drop(s: State, b: nat, x: Slot, i: nat, k: Then): State
    requires b < |s.slots| && i < |s.agents|
  {
    if x.dirty then Set(s, b, x.(locked := true), 0, i, Writing(b, k))
    else Set(s, b, x.(count := Less(x.count)), 1, i, Next(k))
  }

  /** iput at repeat, the slot being x. */
  function Dropped(s: State, b: nat, x: Slot, i: nat, k: Then, sleeps: bool): State
    requires b < |s.slots| && i < |s.agents|
  {
    if x.count > 1 then Set(s, b, x.(count := x.count - 1), 0, i, Next(k))
    else if x.nlink == 0 then
      if sleeps then Set(s, b, x, 0, i, Truncating(b, k)) else Set(s, b, EMPTY, Positive(x.count), i, Next(k))
    else Drop(s, b, x, i, k)
  }

  ghost function Apply(s: State, step: Step): State
    requires Enabled(s, step)
  {
    match step
    case Iget(i, d, n) => s.(agents := s.agents[i := Searching(d, n, None)])
    case Search(i, pick) =>
      var a := s.agents[i];
      if Cached(s, a.dev, a.ino) then
        Set(s, pick, s.slots[pick].(count := s.slots[pick].count + 1), Positive(s.slots[pick].count) - 1, i,
            Waiting(pick, a.dev, a.ino, a.empty))
      else if a.empty.Some? then
        Set(s, a.empty.slot, s.slots[a.empty.slot].(dev := a.dev, ino := a.ino), 0, i,
            Assigned(a.empty.slot, a.dev, a.ino))
      else if NoSpare(s) then s.(agents := s.agents[i := Starved(a.dev, a.ino)])
      else Taken(s, pick, i, a.dev, a.ino)
    case Woken(i, pick) => Taken(s, pick, i, s.agents[i].dev, s.agents[i].ino)
    case Waited(i) =>
      var a := s.agents[i];
      if !s.slots[a.b].Is(a.dev, a.ino) then s.(agents := s.agents[i := Putting(a.b, Retry(a.dev, a.ino, a.empty))])
      else if s.mounts[a.b].Some? then
        var m := s.mounts[a.b].slot;
        var x := s.slots[m];
        Set(s, m, x.(count := x.count + 1), 0, i, Putting(a.b, Give(m, x.dev, x.ino, a.empty)))
      else s.(agents := s.agents[i := Next(Give(a.b, a.dev, a.ino, a.empty))])
    case Lock(i) =>
      var a := s.agents[i];
      Set(s, a.b, s.slots[a.b].(locked := true), 0, i, Reading(a.b, a.dev, a.ino))
    case Read(i) =>
      var a := s.agents[i];
      Set(s, a.b, s.slots[a.b].(locked := false), 0, i, Holding(a.b, a.dev, a.ino))
    case Iput(i) => s.(agents := s.agents[i := Putting(s.agents[i].b, Done)])
    case Put(i, sleeps) =>
      var a := s.agents[i];
      if s.slots[a.b].count == 0 then s.(agents := s.agents[i := Next(a.next)])
      else Dropped(s, a.b, s.slots[a.b], i, a.next, sleeps)
    case Flush(i, sleeps) =>
      var a := s.agents[i];
      if s.slots[a.b].dirty then Set(s, a.b, s.slots[a.b].(locked := true), 0, i, Writing(a.b, a.next))
      else Dropped(s, a.b, s.slots[a.b], i, a.next, sleeps)
    case Written(i, dirty, sleeps) =>
      var a := s.agents[i];
      Dropped(s, a.b, s.slots[a.b].(locked := false, dirty := dirty), i, a.next, sleeps)
    case Truncated(i) =>
      var a := s.agents[i];
      var x := s.slots[a.b];
      if x.dev != 0 && x.count == 1 && x.nlink == 0 then s.(agents := s.agents[i := Clearing(a.b, a.next)])
      else if x.nlink == 0 then s.(agents := s.agents[i := Next(a.next)])
      else if x.dirty && x.locked then s.(agents := s.agents[i := Flushing(a.b, a.next)])
      else Drop(s, a.b, x, i, a.next)
    case Clear(i) =>
      var a := s.agents[i];
      Set(s, a.b, EMPTY, Positive(s.slots[a.b].count), i, Next(a.next))
    case Sync(i, b) => Set(s, b, s.slots[b].(locked := true), 0, i, Syncing(b))
    case Synced(i, dirty) => Set(s, s.agents[i].b, s.slots[s.agents[i].b].(locked := false, dirty := dirty), 0, i, Idle)
    case Change(b, dirty, nlink) => s.(slots := s.slots[b := s.slots[b].(dirty := dirty, nlink := nlink)])
    case Dup(b) => s.(slots := s.slots[b := s.slots[b].(count := s.slots[b].count + 1)],
        pins := s.pins[b := s.pins[b] + 1])
    case Keep(i) => s.(pins := s.pins[s.agents[i].b := s.pins[s.agents[i].b] + 1], agents := s.agents[i := Idle])
    case Close(i, b) => s.(pins := s.pins[b := s.pins[b] - 1], agents := s.agents[i := Putting(b, Done)])
  }

  // ---------------------------------------------------------------- at most one slot per inode

  ghost predicate UniqueAt(s: State, b: nat, c: nat) {
    && b < |s.slots| && c < |s.slots| && s.slots[b].dev != 0
    && s.slots[b].dev == s.slots[c].dev && s.slots[b].ino == s.slots[c].ino
    ==> b == c
  }

  ghost predicate Unique(s: State) {
    forall b, c :: UniqueAt(s, b, c)
  }

  /** A step gives a slot a new identity only when no slot had it, or takes its identity away. */
  lemma IdentityChange(s: State, step: Step, b: nat)
    requires Enabled(s, step) && b < |s.slots|
    ensures |Apply(s, step).slots| == |s.slots|
    ensures var x := Apply(s, step).slots[b];
            x.Is(s.slots[b].dev, s.slots[b].ino) || x.dev == 0
            || (step.Search? && s.agents[step.i].empty == Some(b) && !Cached(s, x.dev, x.ino)
                && x.Is(s.agents[step.i].dev, s.agents[step.i].ino))
  {}

  lemma StepUniqueAt(s: State, step: Step, b: nat, c: nat)
    requires Unique(s) && Enabled(s, step)
    ensures UniqueAt(Apply(s, step), b, c)
  {
    if b < |s.slots| && c < |s.slots| {
      IdentityChange(s, step, b);
      IdentityChange(s, step, c);
      assert UniqueAt(s, b, c);
    }
  }

  ghost predicate Reaches(s: State, steps: seq<Step>, s': State)
    decreases |steps|
  {
    if steps == [] then s' == s
    else Enabled(s, steps[0]) && Reaches(Apply(s, steps[0]), steps[1..], s')
  }

  /** Under any interleaving, put_inode asleep or not, an inode of a real device has at most one slot. */
  lemma {:induction false} UniqueAlways(s: State, steps: seq<Step>, s': State)
    requires Unique(s) && Reaches(s, steps, s')
    ensures Unique(s')
    decreases |steps|
  {
    if steps != [] {
      forall b: nat, c: nat ensures UniqueAt(Apply(s, steps[0]), b, c) { StepUniqueAt(s, steps[0], b, c); }
      UniqueAlways(Apply(s, steps[0]), steps[1..], s');
    }
  }

  // ---------------------------------------------------------------- exact counts

  function At(b: nat, c: nat): nat { if b == c then 1 else 0 }

  function AtMaybe(e: Maybe, c: nat): nat { if e == Some(c) then 1 else 0 }

  function Owed(k: Then, c: nat): nat {
    match k
    case Done => 0
    case Retry(_, _, e) => AtMaybe(e, c)
    case Give(b, _, _, e) => At(b, c) + AtMaybe(e, c)
  }

  /** The references to slot c that a task holds. */
  function Weight(pc: Pc, c: nat): nat {
    match pc
    case Idle => 0
    case Starved(_, _) => 0
    case Syncing(_) => 0
    case Searching(_, _, e) => AtMaybe(e, c)
    case Waiting(b, _, _, e) => At(b, c) + AtMaybe(e, c)
    case Assigned(b, _, _) => At(b, c)
    case Reading(b, _, _) => At(b, c)
    case Holding(b, _, _) => At(b, c)
    case Putting(b, k) => At(b, c) + Owed(k, c)
    case Flushing(b, k) => At(b, c) + Owed(k, c)
    case Writing(b, k) => At(b, c) + Owed(k, c)
    case Truncating(b, k) => At(b, c) + Owed(k, c)
    case Clearing(b, k) => At(b, c) + Owed(k, c)
  }

  function Weights(agents: seq<Pc>, c: nat): nat {
    if agents == [] then 0 else Weight(agents[0], c) + Weights(agents[1..], c)
  }

  lemma {:induction false} WeightsUpdate(agents: seq<Pc>, i: nat, pc: Pc, c: nat)
    requires i < |agents|
    ensures Weights(agents[i := pc], c) == Weights(agents, c) - Weight(agents[i], c) + Weight(pc, c)
    decreases i
  {
    if i == 0 {
      assert agents[i := pc][1..] == agents[1..];
    } else {
      assert agents[i := pc][1..] == agents[1..][i - 1 := pc];
      WeightsUpdate(agents[1..], i - 1, pc, c);
    }
  }

  lemma TwoWeights(agents: seq<Pc>, i: nat, j: nat, c: nat)
    requires i < |agents| && j < |agents| && i != j
    ensures Weight(agents[i], c) + Weight(agents[j], c) <= Weights(agents, c)
  {
    WeightsUpdate(agents, i, Idle, c);
    WeightsUpdate(agents[i := Idle], j, Idle, c);
  }

  lemma OneWeight(agents: seq<Pc>, i: nat, c: nat)
    requires i < |agents|
    ensures Weight(agents[i], c) <= Weights(agents, c)
  {
    WeightsUpdate(agents, i, Idle, c);
  }

  function Zero(x: Slot): nat { if x.count == 0 then 1 else 0 }

  function Zeros(slots: seq<Slot>): nat {
    if slots == [] then 0 else Zero(slots[0]) + Zeros(slots[1..])
  }

  lemma {:induction false} ZerosUpdate(slots: seq<Slot>, b: nat, x: Slot)
    requires b < |slots|
    ensures Zeros(slots[b := x]) == Zeros(slots) - Zero(slots[b]) + Zero(x)
    decreases b
  {
    if b == 0 {
      assert slots[b := x][1..] == slots[1..];
    } else {
      assert slots[b := x][1..] == slots[1..][b - 1 := x];
      ZerosUpdate(slots[1..], b - 1, x);
    }
  }

  /** i_count is the references there are. */
  ghost predicate CountAt(s: State, c: nat) {
    c < |s.slots| == |s.pins| ==> s.slots[c].count == Weights(s.agents, c) + s.pins[c]
  }

  /** A slot from get_empty_inode stays the task's own until it is given an identity. */
  ghost predicate EmptyOk(s: State, e: Maybe) {
    e.Some? ==> e.slot < |s.slots| && s.slots[e.slot].dev == 0 && s.slots[e.slot].count == 1
  }

  ghost predicate HasOk(s: State, b: nat, d: nat, n: nat) { b < |s.slots| && s.slots[b].Is(d, n) && d != 0 }

  ghost predicate ThenOk(s: State, k: Then) {
    match k
    case Done => true
    case Retry(d, _, e) => d != 0 && EmptyOk(s, e)
    case Give(b, d, n, e) => HasOk(s, b, d, n) && EmptyOk(s, e)
  }

  /** What a task knows of the slots it refers to. */
  ghost predicate PcOk(s: State, pc: Pc) {
    match pc
    case Idle => true
    case Starved(d, _) => d != 0
    case Syncing(_) => true
    case Searching(d, _, e) => d != 0 && EmptyOk(s, e)
    case Waiting(b, d, n, e) => HasOk(s, b, d, n) && EmptyOk(s, e)
    case Assigned(b, d, n) => HasOk(s, b, d, n)
    case Reading(b, d, n) => HasOk(s, b, d, n)
    case Holding(b, d, n) => HasOk(s, b, d, n)
    case Putting(b, k) => b < |s.slots| && ThenOk(s, k)
    case Flushing(b, k) => b < |s.slots| && ThenOk(s, k)
    case Writing(b, k) => b < |s.slots| && ThenOk(s, k)
    case Truncating(b, k) => b < |s.slots| && s.slots[b].dev != 0 && ThenOk(s, k)
    case Clearing(b, k) => b < |s.slots| && s.slots[b].dev != 0 && ThenOk(s, k)
  }

  ghost predicate KnowsAt(s: State, i: nat) { i < |s.agents| ==> PcOk(s, s.agents[i]) }

  /** A mount keeps a reference to the root and to what the root covers. */
  ghost predicate MountAt(s: State, b: nat) {
    b < |s.mounts| && s.mounts[b].Some? ==>
      && b < |s.pins| && s.pins[b] > 0 && s.mounts[b].slot < |s.pins| && s.pins[s.mounts[b].slot] > 0
      && s.mounts[b].slot < |s.slots| && s.slots[s.mounts[b].slot].dev != 0
  }

  /** Every i_count is the references there are, and nr_free_inodes the number of slots without one. */
  ghost predicate Exact(s: State) {
    s.free == Zeros(s.slots) && forall c :: CountAt(s, c)
  }

  /** A slot from get_empty_inode has a link count of one until it is given an identity. */
  ghost predicate LinkedAt(s: State, c: nat) {
    c < |s.slots| && s.slots[c].dev == 0 && s.slots[c].count > 0 ==> s.slots[c].nlink > 0
  }

  ghost predicate Inv(s: State) {
    && |s.slots| == |s.pins| == |s.mounts|
    && Exact(s)
    && (forall i :: KnowsAt(s, i)) && (forall b :: MountAt(s, b)) && (forall c :: LinkedAt(s, c))
  }

  /** What a caller of iput could check when put_inode wakes up: after the blocks are freed, that nobody else has
    * taken the inode, or that it has been linked again and is dirty; before it is cleared, that nobody else has
    * taken it. */
  ghost predicate Harmless(s: State, step: Step)
    requires Enabled(s, step)
  {
    match step
    case Truncated(i) =>
      var x := s.slots[s.agents[i].b];
      x.count == 1 || (x.nlink > 0 && x.dirty)
    case Clear(i) => s.slots[s.agents[i].b].count == 1
    case _ => true
  }

  predicate InIput(pc: Pc) { pc.Putting? || pc.Flushing? || pc.Writing? || pc.Truncating? || pc.Clearing? }

  /** The slot a step changes, none if it is past the table. */
  ghost function Touched(s: State, step: Step): nat
    requires Enabled(s, step)
  {
    match step
    case Search(i, pick) =>
      var a := s.agents[i];
      if Cached(s, a.dev, a.ino) then pick
      else if a.empty.Some? then a.empty.slot
      else if NoSpare(s) then |s.slots| else pick
    case Woken(i, pick) => pick
    case Waited(i) =>
      var a := s.agents[i];
      if s.slots[a.b].Is(a.dev, a.ino) && s.mounts[a.b].Some? then s.mounts[a.b].slot else |s.slots|
    case Lock(i) => s.agents[i].b
    case Read(i) => s.agents[i].b
    case Put(i, _) => s.agents[i].b
    case Flush(i, _) => s.agents[i].b
    case Written(i, _, _) => s.agents[i].b
    case Truncated(i) => s.agents[i].b
    case Clear(i) => s.agents[i].b
    case Sync(i, b) => b
    case Synced(i, _) => s.agents[i].b
    case Change(b, _, _) => b
    case Dup(b) => b
    case _ => |s.slots|
  }

  lemma OneSlot(s: State, step: Step)
    requires Enabled(s, step)
    ensures var b := Touched(s, step);
            |Apply(s, step).slots| == |s.slots|
            && Apply(s, step).slots == if b < |s.slots| then s.slots[b := Apply(s, step).slots[b]] else s.slots
  {}

  /** A task in iput has its reference, so the count is not zero. */
  lemma PutterCounts(s: State, i: nat)
    requires Inv(s) && i < |s.agents| && InIput(s.agents[i])
    ensures s.agents[i].b < |s.slots| && s.slots[s.agents[i].b].count > 0
  {
    assert KnowsAt(s, i);
    assert CountAt(s, s.agents[i].b);
    OneWeight(s.agents, i, s.agents[i].b);
  }

  /** iput from repeat on: one reference less, or none if it goes to write, and the slot counted free at zero. */
  lemma DroppedExact(s: State, b: nat, x: Slot, i: nat, k: Then, sleeps: bool, c: nat)
    requires b < |s.slots| && i < |s.agents| && x.count > 0
    ensures var t := Dropped(s, b, x, i, k, sleeps);
            && |t.slots| == |s.slots| && t.slots == s.slots[b := t.slots[b]] && |t.agents| == |s.agents|
            && t.free - s.free == Zero(t.slots[b])
            && t.slots[b].count * At(b, c) - x.count * At(b, c) == Weight(t.agents[i], c) - At(b, c) - Owed(k, c)
  {
    assert Weight(Next(k), c) == Owed(k, c);
  }

  lemma StepFree(s: State, step: Step)
    requires Inv(s) && Enabled(s, step) && Harmless(s, step)
    ensures Apply(s, step).free == Zeros(Apply(s, step).slots)
  {
    var b := Touched(s, step);
    OneSlot(s, step);
    if b < |s.slots| { ZerosUpdate(s.slots, b, Apply(s, step).slots[b]); }
    match step {
      case Put(i, _) =>
        PutterCounts(s, i);
        DroppedExact(s, b, s.slots[b], i, s.agents[i].next, step.sleeps, 0);
      case Flush(i, _) =>
        PutterCounts(s, i);
        DroppedExact(s, b, s.slots[b], i, s.agents[i].next, step.sleeps, 0);
      case Written(i, dirty, _) =>
        PutterCounts(s, i);
        DroppedExact(s, b, s.slots[b].(locked := false, dirty := dirty), i, s.agents[i].next, step.sleeps, 0);
      case Truncated(i) => PutterCounts(s, i);
      case Clear(i) => PutterCounts(s, i);
      case Waited(i) => assert KnowsAt(s, i) && MountAt(s, s.agents[i].b) && CountAt(s, b);
      case _ =>
    }
  }

  /** The task a step runs, none if it is past the list. */
  function Runner(s: State, step: Step): nat {
    match step
    case Iget(i, _, _) => i
    case Search(i, _) => i
    case Woken(i, _) => i
    case Waited(i) => i
    case Lock(i) => i
    case Read(i) => i
    case Iput(i) => i
    case Put(i, _) => i
    case Flush(i, _) => i
    case Written(i, _, _) => i
    case Truncated(i) => i
    case Clear(i) => i
    case Sync(i, _) => i
    case Synced(i, _) => i
    case Keep(i) => i
    case Close(i, _) => i
    case _ => |s.agents|
  }

  lemma OneTask(s: State, step: Step)
    requires Enabled(s, step)
    ensures var i := Runner(s, step);
            |Apply(s, step).agents| == |s.agents|
            && Apply(s, step).agents == if i < |s.agents| then s.agents[i := Apply(s, step).agents[i]] else s.agents
  {}

  lemma CountDropped(s: State, step: Step, c: nat)
    requires Inv(s) && Enabled(s, step) && Harmless(s, step) && c < |s.slots|
    requires step.Put? || step.Flush? || step.Written?
    ensures var t := Apply(s, step);
            && t.pins == s.pins && t.mounts == s.mounts
            && t.slots[c].count - s.slots[c].count == Weight(t.agents[step.i], c) - Weight(s.agents[step.i], c)
  {
    PutterCounts(s, step.i);
    var a := s.agents[step.i];
    var x := if step.Written? then s.slots[a.b].(locked := false, dirty := step.dirty) else s.slots[a.b];
    DroppedExact(s, a.b, x, step.i, a.next, step.sleeps, c);
  }

  /** Each slot's count changes by as many references as the task and the outside gain. */
  lemma CountChange(s: State, step: Step, c: nat)
    requires Inv(s) && Enabled(s, step) && Harmless(s, step) && c < |s.slots|
    ensures |Apply(s, step).pins| == |s.pins| && Apply(s, step).mounts == s.mounts
    ensures var i := Runner(s, step); var t := Apply(s, step);
            t.slots[c].count - s.slots[c].count
            == t.pins[c] - s.pins[c]
               + (if i < |s.agents| then Weight(t.agents[i], c) - Weight(s.agents[i], c) else 0)
  {
    match step {
      case Put(_, _) => CountDropped(s, step, c);
      case Flush(_, _) => CountDropped(s, step, c);
      case Written(_, _, _) => CountDropped(s, step, c);
      case Search(_, _) => CountSearch(s, step, c);
      case Woken(_, _) => CountSearch(s, step, c);
      case Waited(_) => CountSearch(s, step, c);
      case Truncated(_) => CountAsleep(s, step, c);
      case Clear(_) => CountAsleep(s, step, c);
      case _ => CountPlain(s, step, c);
    }
  }

  lemma CountAsleep(s: State, step: Step, c: nat)
    requires Inv(s) && Enabled(s, step) && Harmless(s, step) && c < |s.slots| && (step.Truncated? || step.Clear?)
    ensures var t := Apply(s, step);
            && t.pins == s.pins && t.mounts == s.mounts
            && t.slots[c].count - s.slots[c].count == Weight(t.agents[step.i], c) - Weight(s.agents[step.i], c)
  {
    PutterCounts(s, step.i);
    assert KnowsAt(s, step.i);
    assert Weight(Next(s.agents[step.i].next), c) == Owed(s.agents[step.i].next, c);
  }

  lemma CountSearch(s: State, step: Step, c: nat)
    requires Inv(s) && Enabled(s, step) && c < |s.slots| && (step.Search? || step.Woken? || step.Waited?)
    ensures var t := Apply(s, step);
            && t.pins == s.pins && t.mounts == s.mounts
            && t.slots[c].count - s.slots[c].count == Weight(t.agents[step.i], c) - Weight(s.agents[step.i], c)
  {
    assert KnowsAt(s, step.i);
  }

  lemma CountPlain(s: State, step: Step, c: nat)
    requires Inv(s) && Enabled(s, step) && c < |s.slots|
    requires !step.Put? && !step.Flush? && !step.Written? && !step.Truncated? && !step.Clear?
    requires !step.Search? && !step.Woken? && !step.Waited?
    ensures |Apply(s, step).pins| == |s.pins| && Apply(s, step).mounts == s.mounts
    ensures var i := Runner(s, step); var t := Apply(s, step);
            t.slots[c].count - s.slots[c].count
            == t.pins[c] - s.pins[c]
               + (if i < |s.agents| then Weight(t.agents[i], c) - Weight(s.agents[i], c) else 0)
  {
    OneSlot(s, step);
  }

  lemma StepCount(s: State, step: Step, c: nat)
    requires Inv(s) && Enabled(s, step) && Harmless(s, step)
    ensures CountAt(Apply(s, step), c)
  {
    var i := Runner(s, step);
    OneSlot(s, step);
    OneTask(s, step);
    if c < |s.slots| {
      CountChange(s, step, c);
      assert CountAt(s, c);
      if i < |s.agents| { WeightsUpdate(s.agents, i, Apply(s, step).agents[i], c); }
    }
  }

  /** A slot someone else refers to keeps its identity, and stays a fresh one if it is that. */
  lemma OthersSlot(s: State, step: Step, j: nat, c: nat)
    requires Inv(s) && Enabled(s, step) && Harmless(s, step) && j < |s.agents| && j != Runner(s, step)
    requires c < |s.slots| && Weight(s.agents[j], c) > 0
    ensures var t := Apply(s, step);
            c < |t.slots| && t.slots[c].Is(s.slots[c].dev, s.slots[c].ino)
            && (s.slots[c].dev == 0 && s.slots[c].count == 1 ==> t.slots[c].count == 1)
  {
    var i := Runner(s, step);
    OneSlot(s, step);
    assert CountAt(s, c);
    OneWeight(s.agents, j, c);
    if i < |s.agents| {
      TwoWeights(s.agents, i, j, c);
      assert KnowsAt(s, i);
      if step.Waited? { assert MountAt(s, s.agents[i].b); }
    }
  }

  lemma OthersEmpty(s: State, step: Step, j: nat, e: Maybe)
    requires Inv(s) && Enabled(s, step) && Harmless(s, step) && j < |s.agents| && j != Runner(s, step)
    requires e.Some? ==> Weight(s.agents[j], e.slot) > 0
    requires EmptyOk(s, e)
    ensures EmptyOk(Apply(s, step), e)
  {
    if e.Some? { OthersSlot(s, step, j, e.slot); }
  }

  lemma OthersHas(s: State, step: Step, j: nat, b: nat, d: nat, n: nat)
    requires Inv(s) && Enabled(s, step) && Harmless(s, step) && j < |s.agents| && j != Runner(s, step)
    requires Weight(s.agents[j], b) > 0 && HasOk(s, b, d, n)
    ensures HasOk(Apply(s, step), b, d, n)
  {
    OthersSlot(s, step, j, b);
  }

  lemma OthersThen(s: State, step: Step, j: nat, k: Then)
    requires Inv(s) && Enabled(s, step) && Harmless(s, step) && j < |s.agents| && j != Runner(s, step)
    requires InIput(s.agents[j]) && k == s.agents[j].next && ThenOk(s, k)
    ensures ThenOk(Apply(s, step), k)
  {
    match k
    case Done =>
    case Retry(_, _, e) => OthersEmpty(s, step, j, e);
    case Give(b, d, n, e) => OthersHas(s, step, j, b, d, n); OthersEmpty(s, step, j, e);
  }

  lemma OthersKnow(s: State, step: Step, j: nat)
    requires Inv(s) && Enabled(s, step) && Harmless(s, step) && j < |s.agents| && j != Runner(s, step)
    ensures PcOk(Apply(s, step), s.agents[j])
  {
    assert KnowsAt(s, j);
    OneSlot(s, step);
    match s.agents[j]
    case Searching(_, _, e) => OthersEmpty(s, step, j, e);
    case Waiting(b, d, n, e) => OthersHas(s, step, j, b, d, n); OthersEmpty(s, step, j, e);
    case Assigned(b, d, n) => OthersHas(s, step, j, b, d, n);
    case Reading(b, d, n) => OthersHas(s, step, j, b, d, n);
    case Holding(b, d, n) => OthersHas(s, step, j, b, d, n);
    case Putting(_, k) => OthersThen(s, step, j, k);
    case Flushing(_, k) => OthersThen(s, step, j, k);
    case Writing(_, k) => OthersThen(s, step, j, k);
    case Truncating(b, k) => OthersSlot(s, step, j, b); OthersThen(s, step, j, k);
    case Clearing(b, k) => OthersSlot(s, step, j, b); OthersThen(s, step, j, k);
    case _ =>
  }

  lemma NextOk(s: State, k: Then)
    requires ThenOk(s, k)
    ensures PcOk(s, Next(k))
  {}

  /** What a task in iput still has to do does not depend on the slot it lets go of. */
  lemma DroppedThen(s: State, b: nat, x: Slot, i: nat, k: Then, sleeps: bool)
    requires Inv(s) && i < |s.agents| && s.agents[i] in {Putting(b, k), Flushing(b, k), Writing(b, k)} && b < |s.slots|
    requires x.Is(s.slots[b].dev, s.slots[b].ino) && x.count == s.slots[b].count && x.nlink == s.slots[b].nlink
    ensures PcOk(Dropped(s, b, x, i, k, sleeps), Dropped(s, b, x, i, k, sleeps).agents[i])
  {
    var t := Dropped(s, b, x, i, k, sleeps);
    assert KnowsAt(s, i) && CountAt(s, b) && LinkedAt(s, b);
    OneWeight(s.agents, i, b);
    assert ThenOk(t, k);
    NextOk(t, k);
  }

  lemma AsleepThen(s: State, step: Step)
    requires Inv(s) && Enabled(s, step) && Harmless(s, step) && (step.Truncated? || step.Clear?)
    ensures PcOk(Apply(s, step), Apply(s, step).agents[step.i])
  {
    var t := Apply(s, step);
    var b, k := s.agents[step.i].b, s.agents[step.i].next;
    assert KnowsAt(s, step.i) && CountAt(s, b);
    OneWeight(s.agents, step.i, b);
    assert ThenOk(t, k);
    NextOk(t, k);
  }

  lemma RunnerKnows(s: State, step: Step)
    requires Inv(s) && Enabled(s, step) && Harmless(s, step) && Runner(s, step) < |s.agents|
    ensures PcOk(Apply(s, step), Apply(s, step).agents[Runner(s, step)])
  {
    var i := Runner(s, step);
    assert KnowsAt(s, i);
    match step {
      case Put(_, _) =>
        PutterCounts(s, i);
        DroppedThen(s, s.agents[i].b, s.slots[s.agents[i].b], i, s.agents[i].next, step.sleeps);
      case Flush(_, _) =>
        DroppedThen(s, s.agents[i].b, s.slots[s.agents[i].b], i, s.agents[i].next, step.sleeps);
      case Written(_, dirty, _) =>
        DroppedThen(s, s.agents[i].b, s.slots[s.agents[i].b].(locked := false, dirty := dirty), i, s.agents[i].next,
                    step.sleeps);
      case Truncated(_) => AsleepThen(s, step);
      case Clear(_) => AsleepThen(s, step);
      case Waited(_) =>
        assert MountAt(s, s.agents[i].b);
      case _ =>
    }
  }

  lemma StepKnows(s: State, step: Step, j: nat)
    requires Inv(s) && Enabled(s, step) && Harmless(s, step)
    ensures KnowsAt(Apply(s, step), j)
  {
    OneTask(s, step);
    if j < |s.agents| {
      if j == Runner(s, step) { RunnerKnows(s, step); } else { OthersKnow(s, step, j); }
    }
  }

  lemma PinsStay(s: State, step: Step, c: nat)
    requires Inv(s) && Enabled(s, step) && c < |s.pins| && s.pins[c] > 0 && Mounted(s, c)
    ensures |Apply(s, step).pins| == |s.pins| && Apply(s, step).mounts == s.mounts && Apply(s, step).pins[c] > 0
  {}

  lemma RootStays(s: State, step: Step, m: nat)
    requires Inv(s) && Enabled(s, step) && Harmless(s, step) && m < |s.slots| && s.pins[m] > 0 && s.slots[m].dev != 0
    ensures Apply(s, step).slots[m].dev != 0
  {
    var i := Runner(s, step);
    assert CountAt(s, m);
    OneSlot(s, step);
    if i < |s.agents| {
      OneWeight(s.agents, i, m);
      assert KnowsAt(s, i);
    }
  }

  lemma StepMount(s: State, step: Step, b: nat)
    requires Inv(s) && Enabled(s, step) && Harmless(s, step)
    ensures |Apply(s, step).pins| == |s.pins| && Apply(s, step).mounts == s.mounts && MountAt(Apply(s, step), b)
  {
    assert MountAt(s, b);
    OneSlot(s, step);
    if b < |s.mounts| && s.mounts[b].Some? {
      var m := s.mounts[b].slot;
      assert s.mounts[b] == Some(m);
      PinsStay(s, step, b);
      PinsStay(s, step, m);
      RootStays(s, step, m);
    }
  }

  lemma StepLinked(s: State, step: Step, c: nat)
    requires Inv(s) && Enabled(s, step)
    ensures LinkedAt(Apply(s, step), c)
  {
    assert LinkedAt(s, c);
    OneSlot(s, step);
    if Runner(s, step) < |s.agents| { assert KnowsAt(s, Runner(s, step)); }
    if step.Waited? { assert MountAt(s, s.agents[step.i].b); }
  }

  lemma StepInv(s: State, step: Step)
    requires Inv(s) && Enabled(s, step) && Harmless(s, step)
    ensures Inv(Apply(s, step))
  {
    StepFree(s, step);
    OneSlot(s, step);
    StepMount(s, step, 0);
    forall c: nat ensures LinkedAt(Apply(s, step), c) { StepLinked(s, step, c); }
    forall c: nat ensures CountAt(Apply(s, step), c) { StepCount(s, step, c); }
    forall j: nat ensures KnowsAt(Apply(s, step), j) { StepKnows(s, step, j); }
    forall b: nat ensures MountAt(Apply(s, step), b) { StepMount(s, step, b); }
  }

  /** The putter's reference is lost, or slots are counted free that are not, or a slot is freed under its holders. */
  lemma HarmIsInexact(s: State, step: Step)
    requires Inv(s) && Enabled(s, step) && !Harmless(s, step)
    ensures !Exact(Apply(s, step))
  {
    var t, i := Apply(s, step), step.i;
    var b := s.agents[i].b;
    PutterCounts(s, i);
    assert CountAt(s, b);
    WeightsUpdate(s.agents, i, t.agents[i], b);
    assert Weight(Next(s.agents[i].next), b) == Owed(s.agents[i].next, b);
    ZerosUpdate(s.slots, b, t.slots[b]);
    OneSlot(s, step);
    if t.free == Zeros(t.slots) { assert !CountAt(t, b); }
  }

  /** Any step keeps the counts exact, and all that tasks know, if and only if a put_inode that wakes up in it
    * finds the inode as it must be. */
  lemma StepExactIff(s: State, step: Step)
    requires Inv(s) && Enabled(s, step)
    ensures Harmless(s, step) <==> Exact(Apply(s, step))
    ensures Harmless(s, step) <==> Inv(Apply(s, step))
  {
    if Harmless(s, step) { StepInv(s, step); } else { HarmIsInexact(s, step); }
  }

  ghost predicate Orderly(s: State, steps: seq<Step>)
    decreases |steps|
  {
    steps == [] || (Enabled(s, steps[0]) && Harmless(s, steps[0]) && Orderly(Apply(s, steps[0]), steps[1..]))
  }

  ghost predicate Throughout(s: State, steps: seq<Step>)
    decreases |steps|
  {
    Exact(s) && (steps == [] || (Enabled(s, steps[0]) && Throughout(Apply(s, steps[0]), steps[1..])))
  }

  lemma ThroughoutStart(s: State, steps: seq<Step>)
    requires Throughout(s, steps)
    ensures Exact(s)
  {}

  /** Over any run every count is exact and nr_free_inodes is the number of slots with no reference, in all its
    * states, if and only if every put_inode that slept woke up to the inode as it must be; and then every task
    * that holds or waits for an inode has the one it asked for. */
  lemma {:induction false} ExactAlways(s: State, steps: seq<Step>, s': State)
    requires Inv(s) && Reaches(s, steps, s')
    ensures Throughout(s, steps) <==> Orderly(s, steps)
    ensures Orderly(s, steps) ==> Inv(s')
    decreases |steps|
  {
    if steps != [] {
      var t := Apply(s, steps[0]);
      StepExactIff(s, steps[0]);
      if Harmless(s, steps[0]) {
        ExactAlways(t, steps[1..], s');
      } else if Throughout(t, steps[1..]) {
        ThroughoutStart(t, steps[1..]);
      }
    }
  }

  /** The second look in __iget always finds the inode as it was, and no iput finds a count of zero. */
  lemma LooksAgree(s: State, i: nat)
    requires Inv(s) && i < |s.agents|
    ensures s.agents[i].Waiting? ==> HasOk(s, s.agents[i].b, s.agents[i].dev, s.agents[i].ino)
    ensures s.agents[i].Putting? ==> s.agents[i].b < |s.slots| && s.slots[s.agents[i].b].count > 0
  {
    assert KnowsAt(s, i);
    if s.agents[i].Putting? { PutterCounts(s, i); }
  }

  // ---------------------------------------------------------------- locks

  function Locker(pc: Pc, b: nat): nat { if (pc.Reading? || pc.Writing? || pc.Syncing?) && pc.b == b then 1 else 0 }

  /** How many tasks have slot b locked. */
  function Lockers(agents: seq<Pc>, b: nat): nat {
    if agents == [] then 0 else Locker(agents[0], b) + Lockers(agents[1..], b)
  }

  lemma {:induction false} LockersUpdate(agents: seq<Pc>, i: nat, pc: Pc, b: nat)
    requires i < |agents|
    ensures Lockers(agents[i := pc], b) == Lockers(agents, b) - Locker(agents[i], b) + Locker(pc, b)
    decreases i
  {
    if i == 0 {
      assert agents[i := pc][1..] == agents[1..];
    } else {
      assert agents[i := pc][1..] == agents[1..][i - 1 := pc];
      LockersUpdate(agents[1..], i - 1, pc, b);
    }
  }

  lemma LockersAtLeast(agents: seq<Pc>, i: nat, b: nat)
    requires i < |agents|
    ensures Locker(agents[i], b) <= Lockers(agents, b)
  {
    LockersUpdate(agents, i, Idle, b);
  }

  /** i_lock says that one task has the slot locked, and no more than one ever has. */
  ghost predicate LockAt(s: State, b: nat) {
    b < |s.slots| ==> Lockers(s.agents, b) == if s.slots[b].locked then 1 else 0
  }

  ghost predicate Locks(s: State) {
    forall b :: LockAt(s, b)
  }

  function Bit(x: Slot): nat { if x.locked then 1 else 0 }

  lemma DroppedLock(s: State, b: nat, x: Slot, i: nat, k: Then, sleeps: bool, c: nat)
    requires b < |s.slots| && i < |s.agents| && !x.locked
    ensures var t := Dropped(s, b, x, i, k, sleeps);
            t.slots == s.slots[b := t.slots[b]] && Locker(t.agents[i], c) == if b == c then Bit(t.slots[b]) else 0
  {}

  /** A task that locks or unlocks a slot is the one that gains or loses it. */
  lemma LockChange(s: State, step: Step, b: nat)
    requires Enabled(s, step) && b < |s.slots| && |Apply(s, step).slots| == |s.slots|
    requires Runner(s, step) < |s.agents| == |Apply(s, step).agents|
    requires Locker(s.agents[Runner(s, step)], b) <= Bit(s.slots[b])
    ensures var t := Apply(s, step); var i := Runner(s, step);
            Locker(t.agents[i], b) - Locker(s.agents[i], b) == Bit(t.slots[b]) - Bit(s.slots[b])
  {
    match step {
      case Put(i, sleeps) =>
        var a := s.agents[i];
        if s.slots[a.b].count > 0 { DroppedLock(s, a.b, s.slots[a.b], i, a.next, sleeps, b); }
      case Flush(i, sleeps) =>
        var a := s.agents[i];
        if !s.slots[a.b].dirty { DroppedLock(s, a.b, s.slots[a.b], i, a.next, sleeps, b); }
      case Written(i, dirty, sleeps) =>
        var a := s.agents[i];
        DroppedLock(s, a.b, s.slots[a.b].(locked := false, dirty := dirty), i, a.next, sleeps, b);
      case _ =>
    }
  }

  lemma StepLock(s: State, step: Step, b: nat)
    requires Locks(s) && Enabled(s, step)
    ensures LockAt(Apply(s, step), b)
  {
    assert LockAt(s, b);
    var i, t := Runner(s, step), Apply(s, step);
    OneTask(s, step);
    OneSlot(s, step);
    if b < |s.slots| && i < |s.agents| {
      LockersUpdate(s.agents, i, t.agents[i], b);
      LockersAtLeast(s.agents, i, b);
      LockChange(s, step, b);
    }
  }

  /** Under any interleaving the lock of an inode is exclusive. */
  lemma {:induction false} LockAlways(s: State, steps: seq<Step>, s': State)
    requires Locks(s) && Reaches(s, steps, s')
    ensures Locks(s')
    decreases |steps|
  {
    if steps != [] {
      forall b: nat ensures LockAt(Apply(s, steps[0]), b) { StepLock(s, steps[0], b); }
      LockAlways(Apply(s, steps[0]), steps[1..], s');
    }
  }

  /** So two tasks are never reading or writing one inode. */
  lemma OneTransfer(s: State, i: nat, j: nat)
    requires Locks(s) && i < |s.agents| && j < |s.agents| && i != j
    requires s.agents[i].Reading? || s.agents[i].Writing? || s.agents[i].Syncing?
    requires s.agents[j].Reading? || s.agents[j].Writing? || s.agents[j].Syncing?
    ensures s.agents[i].b < |s.slots| ==> s.agents[i].b != s.agents[j].b && s.slots[s.agents[i].b].locked
  {
    var b := s.agents[i].b;
    assert LockAt(s, b);
    LockersAtLeast(s.agents, i, b);
    LockersUpdate(s.agents, i, Idle, b);
    LockersAtLeast(s.agents[i := Idle], j, b);
  }

  // ---------------------------------------------------------------- what the steps hand out and take away

  /** What the search of __iget does: it waits for a slot of that device and number if there is one, else uses
    * the slot that get_empty_inode gave it, else sleeps exactly if every slot is referenced, locked or dirty, and
    * else gets a slot that is none of these. */
  lemma SearchEnds(s: State, i: nat, pick: nat)
    requires Enabled(s, Search(i, pick))
    ensures var a := s.agents[i]; var t := Apply(s, Search(i, pick)); var now := t.agents[i];
            && (now == Waiting(pick, a.dev, a.ino, a.empty) <==>
                  exists b :: 0 <= b < |s.slots| && s.slots[b].dev == a.dev && s.slots[b].ino == a.ino)
            && (now.Waiting? ==> pick < |s.slots| && s.slots[pick].dev == a.dev && s.slots[pick].ino == a.ino)
            && (now.Assigned? <==> !now.Waiting? && a.empty.Some?)
            && (now.Assigned? ==> now == Assigned(a.empty.slot, a.dev, a.ino))
            && (now == Starved(a.dev, a.ino) <==> !now.Waiting? && a.empty.None? && forall b :: 0 <= b < |s.slots| ==>
                  s.slots[b].count > 0 || s.slots[b].locked || s.slots[b].dirty)
            && (!now.Waiting? && !now.Assigned? && !now.Starved? ==>
                  && now == Searching(a.dev, a.ino, Some(pick)) && pick < |s.slots|
                  && s.slots[pick].count == 0 && !s.slots[pick].locked && !s.slots[pick].dirty)
  {
    var a := s.agents[i];
    if Cached(s, a.dev, a.ino) {
      assert s.slots[pick].dev == a.dev && s.slots[pick].ino == a.ino;
    } else {
      forall b | 0 <= b < |s.slots| ensures s.slots[b].dev != a.dev || s.slots[b].ino != a.ino {
        assert !s.slots[b].Is(a.dev, a.ino);
      }
      if a.empty.None? && NoSpare(s) {
        forall b | 0 <= b < |s.slots| ensures s.slots[b].count > 0 || s.slots[b].locked || s.slots[b].dirty {
          assert !s.slots[b].Spare();
        }
      }
    }
  }

  /** After the wait __iget hands out the inode, or the root that is mounted on it, and lets go of the other
    * slots it has a reference to. */
  lemma WaitedGives(s: State, i: nat)
    requires Inv(s) && Enabled(s, Waited(i))
    ensures var a := s.agents[i]; var t := Apply(s, Waited(i)); var now := t.agents[i];
            match (s.mounts[a.b], a.empty)
            case (None, None) => now == Holding(a.b, a.dev, a.ino)
            case (None, Some(e)) => now.Putting? && now.b == e && now.next == Give(a.b, a.dev, a.ino, None)
            case (Some(m), e) => (now.Putting? && now.b == a.b && now.next.Give? && now.next.slot == m
                                  && now.next.empty == e && t.slots[m].count == s.slots[m].count + 1)
  {
    assert KnowsAt(s, i) && MountAt(s, s.agents[i].b);
  }

  /** A task gets the inode it asked for or, by an iput on the way, the root that WaitedGives promised it. */
  lemma GotInode(s: State, step: Step, i: nat)
    requires Inv(s) && Enabled(s, step) && i < |s.agents| == |Apply(s, step).agents|
    requires !s.agents[i].Holding? && Apply(s, step).agents[i].Holding?
    ensures var was := s.agents[i]; var a := Apply(s, step).agents[i];
            || was == Reading(a.b, a.dev, a.ino)
            || was == Waiting(a.b, a.dev, a.ino, None)
            || (InIput(was) && was.next == Give(a.b, a.dev, a.ino, None))
  {
    assert KnowsAt(s, i);
  }

  /** And as long as it has it, its slot is that inode's. */
  lemma HasInode(s: State, i: nat)
    requires Inv(s) && i < |s.agents| && s.agents[i].Holding?
    ensures var a := s.agents[i];
            && a.b < |s.slots| && s.slots[a.b].dev == a.dev && s.slots[a.b].ino == a.ino && s.slots[a.b].count > 0
  {
    assert KnowsAt(s, i) && CountAt(s, s.agents[i].b);
    OneWeight(s.agents, i, s.agents[i].b);
  }

  /** What iput does at repeat, in terms of the slot: more than one reference loses one; the last reference to
    * an unlinked inode goes to put_inode, and if that does not sleep the slot is empty; a dirty inode is locked
    * for writing; any other stays cached with no reference. */
  lemma PutEnds(s: State, i: nat, sleeps: bool)
    requires Inv(s) && Enabled(s, Put(i, sleeps))
    ensures var b := s.agents[i].b; var x := s.slots[b]; var t := Apply(s, Put(i, sleeps)); var y := t.slots[b];
            && (t.agents[i] == Truncating(b, s.agents[i].next) <==> x.count == 1 && x.nlink == 0 && sleeps)
            && (t.agents[i] == Writing(b, s.agents[i].next) <==> x.count == 1 && x.nlink > 0 && x.dirty)
            && (y == EMPTY <==> x.count == 1 && x.nlink == 0 && !sleeps)
            && (y.locked <==> t.agents[i] == Writing(b, s.agents[i].next))
            && (y != EMPTY ==> y.dev == x.dev && y.ino == x.ino && y.nlink == x.nlink && y.dirty == x.dirty)
            && (y.count == x.count <==> x.count == 1 && ((x.nlink == 0 && sleeps) || (x.nlink > 0 && x.dirty)))
            && (y.count == x.count || y.count == x.count - 1)
  {
    PutterCounts(s, i);
    assert LinkedAt(s, s.agents[i].b);
  }

  /** An inode in the table loses its slot only while that is unreferenced, clean and unlocked, or at the end of
    * an iput that is the last and finds no links. */
  lemma LosesSlot(s: State, step: Step, b: nat)
    requires Inv(s) && Enabled(s, step) && Harmless(s, step) && b < |s.slots| && s.slots[b].dev != 0
    requires Apply(s, step).slots[b].dev != s.slots[b].dev || Apply(s, step).slots[b].ino != s.slots[b].ino
    ensures var x := s.slots[b];
            && !Apply(s, step).slots[b].locked
            && (x.count == 0 ==> !x.dirty && !x.locked)
            && (x.count > 0 ==> var i := Runner(s, step);
                && i < |s.agents| && InIput(s.agents[i]) && s.agents[i].b == b && x.count == 1
                && (s.agents[i].Clearing? || x.nlink == 0))
  {
    var i := Runner(s, step);
    OneSlot(s, step);
    if i < |s.agents| {
      assert KnowsAt(s, i);
      if InIput(s.agents[i]) { PutterCounts(s, i); }
    }
  }

  /** minix_free_inode gets as far as clearing exactly when the inode has one reference and no links. */
  lemma TruncatedEnds(s: State, i: nat)
    requires Inv(s) && Enabled(s, Truncated(i))
    ensures var b := s.agents[i].b; var x := s.slots[b]; var t := Apply(s, Truncated(i)); var k := s.agents[i].next;
            && (t.agents[i] == Clearing(b, k) <==> x.count == 1 && x.nlink == 0)
            && (t.agents[i] == Writing(b, k) <==> x.nlink > 0 && x.dirty && !x.locked)
            && (t.agents[i] == Flushing(b, k) <==> x.nlink > 0 && x.dirty && x.locked)
            && (t.slots[b].count != x.count <==> x.nlink > 0 && !x.dirty)
            && t.slots[b].dev == x.dev && t.slots[b].ino == x.ino
  {
    PutterCounts(s, i);
    assert KnowsAt(s, i);
  }

  /** inode_init: all slots are spare. */
  lemma {:induction false} FreshTable(n: nat, tasks: nat)
    ensures Inv(Boot(n, tasks)) && Unique(Boot(n, tasks)) && Locks(Boot(n, tasks)) && Boot(n, tasks).free == n
  {
    var s := Boot(n, tasks);
    ZerosFresh(n);
    forall c: nat ensures CountAt(s, c) { IdleWeights(tasks, c); }
    forall b: nat ensures LockAt(s, b) { IdleLockers(tasks, b); }
    forall j: nat ensures KnowsAt(s, j) {}
    forall b: nat ensures MountAt(s, b) {}
  }

  lemma {:induction false} IdleLockers(n: nat, b: nat)
    ensures Lockers(seq(n, _ => Idle), b) == 0
  {
    if n > 0 {
      assert seq(n, _ => Idle)[1..] == seq(n - 1, _ => Idle);
      IdleLockers(n - 1, b);
    }
  }

  function Boot(n: nat, tasks: nat): State {
    State(seq(n, _ => EMPTY), seq(tasks, _ => Idle), seq(n, _ => 0), seq(n, _ => None), n)
  }

  lemma {:induction false} ZerosFresh(n: nat)
    ensures Zeros(seq(n, _ => EMPTY)) == n
  {
    if n > 0 {
      assert seq(n, _ => EMPTY)[1..] == seq(n - 1, _ => EMPTY);
      ZerosFresh(n - 1);
    }
  }

  lemma {:induction false} IdleWeights(n: nat, c: nat)
    ensures Weights(seq(n, _ => Idle), c) == 0
  {
    if n > 0 {
      assert seq(n, _ => Idle)[1..] == seq(n - 1, _ => Idle);
      IdleWeights(n - 1, c);
    }
  }

  lemma First(s: State, step: Step, m: State, rest: seq<Step>, t: State)
    requires Enabled(s, step) && m == Apply(s, step) && Reaches(m, rest, t)
    ensures Reaches(s, [step] + rest, t)
  {
    assert ([step] + rest)[1..] == rest;
  }

  function One(count: nat, a: Pc, b: Pc): State { State([Slot(1, 5, count, false, false, 0)], [a, b], [0], [None], 0) }

  function Lost(): State { State([EMPTY], [Idle, Holding(0, 1, 5)], [0], [None], 1) }

  lemma Unlinked()
    ensures Inv(One(1, Holding(0, 1, 5), Idle))
  {
    var s := One(1, Holding(0, 1, 5), Idle);
    forall c: nat ensures CountAt(s, c) {
      assert Weights(s.agents, c) == At(0, c) + Weights(s.agents[1..], c) == At(0, c) + Weights(s.agents[1..][1..], c);
    }
    forall j: nat ensures KnowsAt(s, j) {}
    forall b: nat ensures MountAt(s, b) {}
    assert Zeros(s.slots) == Zeros(s.slots[1..]) == 0;
  }

  /** While task 0 is asleep in a, task 1 gets the inode. */
  function Meanwhile(r: seq<Step>): seq<Step> { [Iget(1, 1, 5)] + ([Search(1, 0)] + ([Waited(1)] + r)) }

  lemma SearchGets(a: Pc)
    ensures var s := One(1, a, Searching(1, 5, None));
            Enabled(s, Search(1, 0)) && Apply(s, Search(1, 0)) == One(2, a, Waiting(0, 1, 5, None))
  {
    assert One(1, a, Searching(1, 5, None)).slots[0].Is(1, 5);
  }

  lemma TakenMeanwhile(a: Pc, r: seq<Step>, t: State)
    requires Reaches(One(2, a, Holding(0, 1, 5)), r, t)
    ensures Reaches(One(1, a, Idle), Meanwhile(r), t)
  {
    First(One(2, a, Waiting(0, 1, 5, None)), Waited(1), One(2, a, Holding(0, 1, 5)), r, t);
    SearchGets(a);
    First(One(1, a, Searching(1, 5, None)), Search(1, 0), One(2, a, Waiting(0, 1, 5, None)), [Waited(1)] + r, t);
    First(One(1, a, Idle), Iget(1, 1, 5), One(1, a, Searching(1, 5, None)), [Search(1, 0)] + ([Waited(1)] + r), t);
  }

  /** Task 0 lets go of the unlinked inode and sleeps in put_inode. */
  function Asleep(r: seq<Step>): seq<Step> { [Iput(0)] + ([Put(0, true)] + r) }

  lemma FallsAsleep(r: seq<Step>, t: State)
    requires Reaches(One(1, Truncating(0, Done), Idle), r, t)
    ensures Reaches(One(1, Holding(0, 1, 5), Idle), Asleep(r), t)
  {
    First(One(1, Putting(0, Done), Idle), Put(0, true), One(1, Truncating(0, Done), Idle), r, t);
    First(One(1, Holding(0, 1, 5), Idle), Iput(0), One(1, Putting(0, Done), Idle), [Put(0, true)] + r, t);
  }

  /** A put_inode that sleeps breaks the exactness: while task 0 waits to clear an unlinked inode, task 1 gets
    * it, and then holds a slot that has been cleared. */
  lemma ClearedUnderHolder()
    ensures Inv(One(1, Holding(0, 1, 5), Idle)) && !Exact(Lost()) && !KnowsAt(Lost(), 1)
    ensures Reaches(One(1, Holding(0, 1, 5), Idle), Asleep([Truncated(0)] + Meanwhile([Clear(0)] + [])), Lost())
  {
    Unlinked();
    assert Weights(Lost().agents, 0) == At(0, 0) + Weights(Lost().agents[1..][1..], 0);
    assert !CountAt(Lost(), 0);
    First(One(2, Clearing(0, Done), Holding(0, 1, 5)), Clear(0), Lost(), [], Lost());
    TakenMeanwhile(Clearing(0, Done), [Clear(0)] + [], Lost());
    First(One(1, Truncating(0, Done), Idle), Truncated(0), One(1, Clearing(0, Done), Idle),
        Meanwhile([Clear(0)] + []), Lost());
    FallsAsleep([Truncated(0)] + Meanwhile([Clear(0)] + []), Lost());
  }

  /** The same while task 0 frees the blocks: it returns without having dropped its reference, which nobody owns. */
  lemma LeakedReference()
    ensures var t := One(2, Idle, Holding(0, 1, 5));
            && Reaches(One(1, Holding(0, 1, 5), Idle), Asleep(Meanwhile([Truncated(0)] + [])), t)
            && t.slots[0].count == 2 && Weights(t.agents, 0) + t.pins[0] == 1
  {
    var t := One(2, Idle, Holding(0, 1, 5));
    assert Weights(t.agents, 0) == At(0, 0) + Weights(t.agents[1..][1..], 0);
    First(One(2, Truncating(0, Done), Holding(0, 1, 5)), Truncated(0), t, [], t);
    TakenMeanwhile(Truncating(0, Done), [Truncated(0)] + [], t);
    FallsAsleep(Meanwhile([Truncated(0)] + []), t);
  }
}
