/** Who owns which buffer when tasks sleep inside fs/buffer.c. The kernel is not preempted, so the code
  * between two sleeps is one step; interrupts only end I/O. One agent is one reference, from its getblk to
  * its brelse. */
module BufferProtocol {
  datatype Buf = Buf(dev: nat, block: nat, count: nat, locked: bool, dirty: bool) {
    predicate Is(d: nat, n: nat) { dev == d && block == n }
    predicate Reclaimable() { count == 0 && !dirty && !locked }
  }

  /** Where an agent stands: not started, asleep in get_hash_table on a locked buffer, holding a buffer,
    * asleep in __brelse, or asleep in the sync_buffers that get_free_buffer falls through to. */
  datatype Pc = Idle
              | Waiting(b: nat, dev: nat, block: nat)
              | Holding(b: nat, dev: nat, block: nat)
              | Releasing(b: nat, dev: nat, block: nat)
              | Syncing(dev: nat, block: nat)

  /** pins[b] counts the references of kernel code outside these agents, such as a sync in progress. */
  datatype State = State(bufs: seq<Buf>, agents: seq<Pc>, pins: seq<nat>)

  datatype Step =
    | Get(i: nat, dev: nat, block: nat, pick: nat)    // getblk up to its first sleep or its end
    | Wake(i: nat)                                    // get_hash_table after wait_on_buffer
    | SyncWake(i: nat, pick: nat)                     // get_free_buffer after sync_buffers
    | Release(i: nat)                                 // __brelse up to its first sleep or its end
    | ReleaseWake(i: nat)                             // __brelse after wait_on_buffer
    | Io(b: nat, locked: bool, dirty: bool)           // a driver locks, unlocks or cleans; a holder dirties
    | Pin(b: nat)
    | Unpin(b: nat)

  ghost predicate Cached(s: State, d: nat, n: nat) {
    exists b :: 0 <= b < |s.bufs| && s.bufs[b].Is(d, n)
  }

  ghost predicate NoneFree(s: State) {
    forall b :: 0 <= b < |s.bufs| ==> !s.bufs[b].Reclaimable()
  }

  ghost predicate Enabled(s: State, step: Step) {
    match step
    case Get(i, d, n, pick) =>
      && i < |s.agents| && s.agents[i].Idle? && d != 0
      && (Cached(s, d, n) ==> pick < |s.bufs| && s.bufs[pick].Is(d, n))
      && (!Cached(s, d, n) && !NoneFree(s) ==> pick < |s.bufs| && s.bufs[pick].Reclaimable())
    case Wake(i) => i < |s.agents| && s.agents[i].Waiting? && s.agents[i].b < |s.bufs| && !s.bufs[s.agents[i].b].locked
    case SyncWake(i, pick) => i < |s.agents| && s.agents[i].Syncing? && pick < |s.bufs| && s.bufs[pick].Reclaimable()
    case Release(i) => i < |s.agents| && s.agents[i].Holding? && s.agents[i].b < |s.bufs|
    case ReleaseWake(i) => i < |s.agents| && s.agents[i].Releasing? && s.agents[i].b < |s.bufs|
        && !s.bufs[s.agents[i].b].locked
    case Io(b, _, _) => b < |s.bufs|
    case Pin(b) => b < |s.bufs| && b < |s.pins|
    case Unpin(b) => b < |s.bufs| && b < |s.pins| && s.pins[b] > 0
  }

  function Counted(s: State, b: nat, delta: int, i: nat, pc: Pc): State
    requires b < |s.bufs| && i < |s.agents|
  {
    var n := s.bufs[b].count + delta;
    s.(bufs := s.bufs[b := s.bufs[b].(count := if n < 0 then 0 else n)], agents := s.agents[i := pc])
  }

  /** getblk's tail: the reused buffer takes the new identity and one reference. */
  function Taken(s: State, pick: nat, i: nat, d: nat, n: nat): State
    requires pick < |s.bufs| && i < |s.agents|
  {
    s.(bufs := s.bufs[pick := Buf(d, n, 1, false, false)], agents := s.agents[i := Holding(pick, d, n)])
  }

  ghost function Apply(s: State, step: Step): State
    requires Enabled(s, step)
  {
    match step
    case Get(i, d, n, pick) =>
      if Cached(s, d, n) then
        // b_count++, and wait_on_buffer adds one of its own while it sleeps
        if s.bufs[pick].locked then Counted(s, pick, 2, i, Waiting(pick, d, n))
        else Counted(s, pick, 1, i, Holding(pick, d, n))
      else if NoneFree(s) then s.(agents := s.agents[i := Syncing(d, n)])
      else Taken(s, pick, i, d, n)
    case Wake(i) =>
      var a := s.agents[i];
      if s.bufs[a.b].Is(a.dev, a.block) then Counted(s, a.b, -1, i, Holding(a.b, a.dev, a.block))
      else Counted(s, a.b, -2, i, Idle)
    case SyncWake(i, pick) => Taken(s, pick, i, s.agents[i].dev, s.agents[i].block)
    case Release(i) =>
      var a := s.agents[i];
      if s.bufs[a.b].locked then Counted(s, a.b, 1, i, Releasing(a.b, a.dev, a.block))
      else Counted(s, a.b, -1, i, Idle)
    case ReleaseWake(i) => Counted(s, s.agents[i].b, -2, i, Idle)
    case Io(b, locked, dirty) => s.(bufs := s.bufs[b := s.bufs[b].(locked := locked, dirty := dirty)])
    case Pin(b) => s.(bufs := s.bufs[b := s.bufs[b].(count := s.bufs[b].count + 1)], pins := s.pins[b := s.pins[b] + 1])
    case Unpin(b) =>
      var n := s.bufs[b].count - 1;
      s.(bufs := s.bufs[b := s.bufs[b].(count := if n < 0 then 0 else n)], pins := s.pins[b := s.pins[b] - 1])
  }

  // ---------------------------------------------------------------- the invariant

  function Weight(pc: Pc, b: nat): nat {
    match pc
    case Waiting(x, _, _) => if x == b then 2 else 0
    case Holding(x, _, _) => if x == b then 1 else 0
    case Releasing(x, _, _) => if x == b then 2 else 0
    case _ => 0
  }

  function Weights(agents: seq<Pc>, b: nat): nat {
    if agents == [] then 0 else Weight(agents[0], b) + Weights(agents[1..], b)
  }

  lemma {:induction false} WeightsUpdate(agents: seq<Pc>, i: nat, pc: Pc, b: nat)
    requires i < |agents|
    ensures Weights(agents[i := pc], b) == Weights(agents, b) - Weight(agents[i], b) + Weight(pc, b)
    decreases i
  {
    if i == 0 {
      assert agents[i := pc][1..] == agents[1..];
    } else {
      assert agents[i := pc][1..] == agents[1..][i - 1 := pc];
      WeightsUpdate(agents[1..], i - 1, pc, b);
    }
  }

  lemma WeightAtMost(agents: seq<Pc>, i: nat, b: nat)
    requires i < |agents|
    ensures Weight(agents[i], b) <= Weights(agents, b)
  {
    WeightsUpdate(agents, i, Idle, b);
  }

  /** b_count is the references there are. */
  ghost predicate CountAt(s: State, b: nat) {
    b < |s.bufs| == |s.pins| ==> s.bufs[b].count == Weights(s.agents, b) + s.pins[b]
  }

  /** The buffer an agent has or waits for is the one it asked for. */
  ghost predicate KnowsAt(s: State, i: nat) {
    i < |s.agents| && (s.agents[i].Waiting? || s.agents[i].Holding? || s.agents[i].Releasing?) ==>
      s.agents[i].b < |s.bufs| && s.bufs[s.agents[i].b].Is(s.agents[i].dev, s.agents[i].block)
  }

  ghost predicate Inv(s: State) {
    |s.pins| == |s.bufs| && (forall b :: CountAt(s, b)) && (forall i :: KnowsAt(s, i))
  }

  lemma StepCount(s: State, step: Step, b: nat)
    requires Inv(s) && Enabled(s, step)
    ensures |Apply(s, step).pins| == |Apply(s, step).bufs| == |s.bufs|
    ensures CountAt(Apply(s, step), b)
  {
    var s' := Apply(s, step);
    assert CountAt(s, b);
    match step {
      case Get(i, _, _, _) => WeightsUpdate(s.agents, i, s'.agents[i], b);
      case Wake(i) => WeightsUpdate(s.agents, i, s'.agents[i], b); WeightAtMost(s.agents, i, b);
      case SyncWake(i, pick) => WeightsUpdate(s.agents, i, s'.agents[i], b);
      case Release(i) => WeightsUpdate(s.agents, i, s'.agents[i], b); WeightAtMost(s.agents, i, b);
      case ReleaseWake(i) => WeightsUpdate(s.agents, i, s'.agents[i], b); WeightAtMost(s.agents, i, b);
      case _ =>
    }
  }

  /** No step changes the identity of a buffer that is held. */
  lemma HeldKeepsIdentity(s: State, step: Step, b: nat)
    requires Inv(s) && Enabled(s, step) && b < |s.bufs| && s.bufs[b].count > 0
    ensures b < |Apply(s, step).bufs| && Apply(s, step).bufs[b].Is(s.bufs[b].dev, s.bufs[b].block)
  {
  }

  lemma StepKnows(s: State, step: Step, j: nat)
    requires Inv(s) && Enabled(s, step)
    ensures KnowsAt(Apply(s, step), j)
  {
    var s' := Apply(s, step);
    assert KnowsAt(s, j);
    if j < |s.agents| && (s.agents[j].Waiting? || s.agents[j].Holding? || s.agents[j].Releasing?) {
      assert CountAt(s, s.agents[j].b);
      WeightAtMost(s.agents, j, s.agents[j].b);
      HeldKeepsIdentity(s, step, s.agents[j].b);
    }
  }

  lemma StepInv(s: State, step: Step)
    requires Inv(s) && Enabled(s, step)
    ensures Inv(Apply(s, step))
  {
    StepCount(s, step, 0);
    forall b: nat ensures CountAt(Apply(s, step), b) { StepCount(s, step, b); }
    forall j: nat ensures KnowsAt(Apply(s, step), j) { StepKnows(s, step, j); }
  }

  // ---------------------------------------------------------------- what the steps hand out

  /** A buffer that an agent gets is unlocked, has the block asked for and is held. */
  lemma GotBuffer(s: State, step: Step, i: nat)
    requires Inv(s) && Enabled(s, step) && i < |s.agents|
    requires !s.agents[i].Holding? && Apply(s, step).agents[i].Holding?
    ensures var s' := Apply(s, step); var a := s'.agents[i];
            && a.b < |s'.bufs| && s'.bufs[a.b].Is(a.dev, a.block) && !s'.bufs[a.b].locked && s'.bufs[a.b].count > 0
            && (step.Get? ==> a.dev == step.dev && a.block == step.block)
            && (!step.Get? ==> s.agents[i] in {Waiting(a.b, a.dev, a.block), Syncing(a.dev, a.block)})
  {
    StepInv(s, step);
    var a := Apply(s, step).agents[i];
    assert KnowsAt(s, i) && KnowsAt(Apply(s, step), i) && CountAt(Apply(s, step), a.b);
    WeightAtMost(Apply(s, step).agents, i, a.b);
  }

  /** A block loses its buffer only while nobody holds it, its contents are on the device and no transfer
    * is under way. */
  lemma LostWhileIdle(s: State, step: Step, b: nat)
    requires Enabled(s, step) && b < |s.bufs| && !Apply(s, step).bufs[b].Is(s.bufs[b].dev, s.bufs[b].block)
    ensures s.bufs[b].count == 0 && !s.bufs[b].dirty && !s.bufs[b].locked
  {
  }

  /** How getblk's first stretch ends: asleep for the block's buffer exactly if that is locked, asleep in
    * sync_buffers exactly if the block has no buffer and every one is held, dirty or locked, and with a
    * buffer otherwise. */
  lemma GetEnds(s: State, i: nat, d: nat, n: nat, pick: nat)
    requires Enabled(s, Get(i, d, n, pick))
    ensures var a := Apply(s, Get(i, d, n, pick)).agents[i];
            && (a.Waiting? <==> pick < |s.bufs| && s.bufs[pick].Is(d, n) && s.bufs[pick].locked)
            && (a.Syncing? <==> forall b :: 0 <= b < |s.bufs| ==>
                  !s.bufs[b].Is(d, n) && (s.bufs[b].count > 0 || s.bufs[b].dirty || s.bufs[b].locked))
            && (a.Waiting? || a.Syncing? || a.Holding?)
  {
    var a := Apply(s, Get(i, d, n, pick)).agents[i];
    if Cached(s, d, n) {
      assert s.bufs[pick].Is(d, n) && !a.Syncing?;
    } else if !NoneFree(s) {
      assert s.bufs[pick].Reclaimable() && !s.bufs[pick].Is(d, n);
    } else {
      forall b | 0 <= b < |s.bufs| ensures !s.bufs[b].Is(d, n) && !s.bufs[b].Reclaimable() { }
    }
  }

  /** Because a held buffer keeps its block, the search of get_hash_table succeeds after every sleep: the
    * agent has the buffer it slept for, and gave back the reference wait_on_buffer took. */
  lemma WaitedHolds(s: State, i: nat)
    requires Inv(s) && Enabled(s, Wake(i))
    ensures var a := s.agents[i]; var s' := Apply(s, Wake(i));
            && s'.agents[i] == Holding(a.b, a.dev, a.block) && s'.bufs[a.b].count == s.bufs[a.b].count - 1
  {
    assert KnowsAt(s, i) && CountAt(s, s.agents[i].b);
    WeightAtMost(s.agents, i, s.agents[i].b);
  }

  /** __brelse ends with the reference dropped, at once exactly if the buffer is unlocked and otherwise
    * after one sleep. */
  lemma ReleaseEnds(s: State, i: nat)
    requires Inv(s) && i < |s.agents| && (s.agents[i].Holding? || s.agents[i].Releasing?)
    requires s.agents[i].b < |s.bufs|
    ensures var b := s.agents[i].b; var locked := s.bufs[b].locked;
            && (s.agents[i].Holding? ==>
                  var s' := Apply(s, Release(i));
                  && (s'.agents[i].Idle? <==> !locked) && (s'.agents[i].Releasing? <==> locked)
                  && (!locked ==> s'.bufs[b].count == s.bufs[b].count - 1))
            && (s.agents[i].Releasing? && !locked ==>
                  var s' := Apply(s, ReleaseWake(i));
                  s'.agents[i].Idle? && s'.bufs[b].count == s.bufs[b].count - 2)
  {
    assert CountAt(s, s.agents[i].b);
    WeightAtMost(s.agents, i, s.agents[i].b);
  }

  // ---------------------------------------------------------------- runs

  /** s' is reached from s by the steps, each enabled where it is taken. */
  ghost predicate Reaches(s: State, steps: seq<Step>, s': State)
    decreases |steps|
  {
    if steps == [] then s' == s
    else Enabled(s, steps[0]) && Reaches(Apply(s, steps[0]), steps[1..], s')
  }

  /** In every reachable state every count is exact, and an agent that has waited for a buffer has, or is
    * still waiting for, the block it asked for. */
  lemma {:induction false} HeldAlways(s: State, steps: seq<Step>, s': State)
    requires Inv(s) && Reaches(s, steps, s')
    ensures Inv(s')
    decreases |steps|
  {
    if steps != [] {
      StepInv(s, steps[0]);
      HeldAlways(Apply(s, steps[0]), steps[1..], s');
    }
  }

  /** In a run during which an agent keeps its buffer, that buffer keeps its block. */
  lemma {:induction false} HeldThroughout(s: State, steps: seq<Step>, s': State, b: nat)
    requires Inv(s) && Reaches(s, steps, s') && b < |s.bufs| && StaysHeld(s, steps, b)
    ensures b < |s'.bufs| && s'.bufs[b].Is(s.bufs[b].dev, s.bufs[b].block)
    decreases |steps|
  {
    if steps != [] {
      StepInv(s, steps[0]);
      HeldKeepsIdentity(s, steps[0], b);
      HeldThroughout(Apply(s, steps[0]), steps[1..], s', b);
    }
  }

  ghost predicate StaysHeld(s: State, steps: seq<Step>, b: nat)
    decreases |steps|
  {
    steps != [] ==>
      b < |s.bufs| && s.bufs[b].count > 0 && (Enabled(s, steps[0]) ==> StaysHeld(Apply(s, steps[0]), steps[1..], b))
  }

  /** At most one buffer per block of a real device. */
  ghost predicate UniqueAt(s: State, b: nat, c: nat) {
    b < |s.bufs| && c < |s.bufs| && s.bufs[b].dev != 0 && s.bufs[b].Is(s.bufs[c].dev, s.bufs[c].block) ==> b == c
  }

  ghost predicate Unique(s: State) {
    forall b, c :: UniqueAt(s, b, c)
  }

  /** Every step but a return from sync_buffers keeps buffers unique; that one does exactly when the block
    * has not got a buffer in the meantime. */
  lemma StepUniqueIff(s: State, step: Step)
    requires Unique(s) && Enabled(s, step)
    requires step.SyncWake? ==> s.agents[step.i].dev != 0
    ensures Unique(Apply(s, step)) <==>
            (step.SyncWake? ==> forall b ::
                0 <= b < |s.bufs| && s.bufs[b].Is(s.agents[step.i].dev, s.agents[step.i].block) ==> b == step.pick)
  {
    var s' := Apply(s, step);
    if step.SyncWake? && exists b ::
         0 <= b < |s.bufs| && s.bufs[b].Is(s.agents[step.i].dev, s.agents[step.i].block) && b != step.pick
    {
      var b :| 0 <= b < |s.bufs| && s.bufs[b].Is(s.agents[step.i].dev, s.agents[step.i].block) && b != step.pick;
      assert !UniqueAt(s', b, step.pick);
    } else {
      forall b: nat, c: nat ensures UniqueAt(s', b, c) { assert UniqueAt(s, b, c); }
    }
  }

  /** Over any run in which get_free_buffer never falls through to sync_buffers, every block has at most
    * one buffer. */
  lemma {:induction false} UniqueWithoutSync(s: State, steps: seq<Step>, s': State)
    requires Unique(s) && Reaches(s, steps, s') && forall step :: step in steps ==> !step.SyncWake?
    ensures Unique(s')
    decreases |steps|
  {
    if steps != [] {
      StepUniqueIff(s, steps[0]);
      UniqueWithoutSync(Apply(s, steps[0]), steps[1..], s');
    }
  }

  /** And with it they may not be. Two tasks ask for block 9 while both buffers are dirty, both fall
    * through to sync_buffers, both buffers get written, and each task takes one. */
  lemma DuplicateAfterSync()
    ensures Inv(TwoDirty()) && Unique(TwoDirty())
    ensures Reaches(TwoDirty(), [Get(0, 1, 9, 0), Get(1, 1, 9, 0)] + [Io(0, false, false), Io(1, false, false)]
                                + [SyncWake(0, 0), SyncWake(1, 1)], TwoNines())
    ensures !Unique(TwoNines())
  {
    var s := TwoDirty();
    forall b: nat ensures CountAt(s, b) {
      assert Weights(s.agents, b) == Weights(s.agents[1..], b) == Weights(s.agents[1..][1..], b) == 0;
    }
    forall i: nat ensures KnowsAt(s, i) { }
    forall b: nat, c: nat ensures UniqueAt(s, b, c) { }
    BothFallThrough();
    BothWritten();
    BothTake();
    ReachesAppend(s, [Get(0, 1, 9, 0), Get(1, 1, 9, 0)], BothAsleep(true), [Io(0, false, false), Io(1, false, false)],
        BothAsleep(false));
    ReachesAppend(s, [Get(0, 1, 9, 0), Get(1, 1, 9, 0)] + [Io(0, false, false), Io(1, false, false)],
        BothAsleep(false), [SyncWake(0, 0), SyncWake(1, 1)], TwoNines());
    assert !UniqueAt(TwoNines(), 0, 1);
  }

  function TwoDirty(): State { State([Buf(1, 7, 0, false, true), Buf(1, 8, 0, false, true)], [Idle, Idle], [0, 0]) }

  function BothAsleep(dirty: bool): State {
    State([Buf(1, 7, 0, false, dirty), Buf(1, 8, 0, false, dirty)], [Syncing(1, 9), Syncing(1, 9)], [0, 0])
  }

  function TwoNines(): State {
    State([Buf(1, 9, 1, false, false), Buf(1, 9, 1, false, false)], [Holding(0, 1, 9), Holding(1, 1, 9)], [0, 0])
  }

  lemma Two(s: State, p: Step, m: State, q: Step, s': State)
    requires Enabled(s, p) && m == Apply(s, p) && Enabled(m, q) && s' == Apply(m, q)
    ensures Reaches(s, [p, q], s')
  {
    assert [p, q][1..] == [q] && [q][1..] == [];
    assert Reaches(s', [], s') && Reaches(m, [q], s');
  }

  lemma BothFallThrough()
    ensures Reaches(TwoDirty(), [Get(0, 1, 9, 0), Get(1, 1, 9, 0)], BothAsleep(true))
  {
    var m := TwoDirty().(agents := [Syncing(1, 9), Idle]);
    assert NoneFree(TwoDirty()) && !Cached(TwoDirty(), 1, 9) && NoneFree(m) && !Cached(m, 1, 9);
    Two(TwoDirty(), Get(0, 1, 9, 0), m, Get(1, 1, 9, 0), BothAsleep(true));
  }

  lemma BothWritten()
    ensures Reaches(BothAsleep(true), [Io(0, false, false), Io(1, false, false)], BothAsleep(false))
  {
    var s := BothAsleep(true);
    Two(s, Io(0, false, false), s.(bufs := [Buf(1, 7, 0, false, false), Buf(1, 8, 0, false, true)]),
        Io(1, false, false), BothAsleep(false));
  }

  lemma BothTake()
    ensures Reaches(BothAsleep(false), [SyncWake(0, 0), SyncWake(1, 1)], TwoNines())
  {
    var m := State([Buf(1, 9, 1, false, false), Buf(1, 8, 0, false, false)], [Holding(0, 1, 9), Syncing(1, 9)], [0, 0]);
    Two(BothAsleep(false), SyncWake(0, 0), m, SyncWake(1, 1), TwoNines());
  }

  lemma {:induction false} ReachesAppend(s: State, p: seq<Step>, m: State, q: seq<Step>, s': State)
    requires Reaches(s, p, m) && Reaches(m, q, s')
    ensures Reaches(s, p + q, s')
    decreases |p|
  {
    if p == [] {
      assert p + q == q;
    } else {
      assert (p + q)[1..] == p[1..] + q;
      ReachesAppend(Apply(s, p[0]), p[1..], m, q, s');
    }
  }
}
