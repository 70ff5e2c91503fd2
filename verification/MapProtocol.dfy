/** map_buffer and unmap_buffer of fs/buffer.c under any interleaving of tasks that sleep in map_buffer. */
module MapProtocol {
  import opened Blocks
  import opened BufferMap

  /** A task with the buffers it has mapped, one entry for each time; asleep, it waits in map_buffer with buffer b. */
  datatype Task = Awake(held: seq<nat>) | Asleep(b: nat, held: seq<nat>)

  datatype State = State(t: Table, last: nat, tasks: seq<Task>)

  /** Task i calls map_buffer on b; it wakes up in map_buffer; it calls unmap_buffer on its k-th buffer. */
  datatype Step = Enter(i: nat, b: nat) | Wake(i: nat) | Leave(i: nat, k: nat)

  ghost predicate Enabled(s: State, step: Step) {
    && s.t.Sized() && s.last < NR_MAPBUFS && step.i < |s.tasks|
    && match step
       case Enter(i, b) => s.tasks[i].Awake? && b < NR_BUFFERS
       case Wake(i) => s.tasks[i].Asleep? && s.tasks[i].b < NR_BUFFERS
       case Leave(i, k) => s.tasks[i].Awake? && k < |s.tasks[i].held| && s.tasks[i].held[k] < NR_BUFFERS
  }

  /** A pass for b has ended: the task has its slot, or sleeps. */
  function Ended(s: State, i: nat, b: nat, r: (Table, nat, bool)): State
    requires i < |s.tasks|
  {
    var held := s.tasks[i].held;
    State(r.0, r.1, s.tasks[i := if r.2 then Awake(held + [b]) else Asleep(b, held)])
  }

  ghost function Apply(s: State, step: Step): State
    requires Enabled(s, step)
  {
    match step
    case Enter(i, b) => Ended(s, i, b, EnterOf(s.t, s.last, b))
    case Wake(i) => Ended(s, i, s.tasks[i].b, AttemptOf(s.t, s.last, s.tasks[i].b))
    case Leave(i, k) =>
      var held := s.tasks[i].held;
      State(Unmapped(s.t, held[k]), s.last, s.tasks[i := Awake(held[..k] + held[k + 1..])])
  }

  // ---------------------------------------------------------------- counts

  function Times(held: seq<nat>, b: nat): nat {
    if held == [] then 0 else (if held[0] == b then 1 else 0) + Times(held[1..], b)
  }

  function Total(tasks: seq<Task>, b: nat): nat {
    if tasks == [] then 0 else Times(tasks[0].held, b) + Total(tasks[1..], b)
  }

  lemma {:induction false} TimesJoin(p: seq<nat>, q: seq<nat>, b: nat)
    ensures Times(p + q, b) == Times(p, b) + Times(q, b)
  {
    if p == [] {
      assert p + q == q;
    } else {
      assert (p + q)[1..] == p[1..] + q;
      TimesJoin(p[1..], q, b);
    }
  }

  lemma TimesCut(held: seq<nat>, k: nat, b: nat)
    requires k < |held|
    ensures Times(held[..k] + held[k + 1..], b) == Times(held, b) - (if held[k] == b then 1 else 0)
  {
    assert held == held[..k] + ([held[k]] + held[k + 1..]);
    TimesJoin(held[..k], [held[k]] + held[k + 1..], b);
    TimesJoin(held[..k], held[k + 1..], b);
    assert ([held[k]] + held[k + 1..])[1..] == held[k + 1..];
  }

  lemma {:induction false} TotalUpdate(tasks: seq<Task>, i: nat, x: Task, b: nat)
    requires i < |tasks|
    ensures Total(tasks[i := x], b) == Total(tasks, b) - Times(tasks[i].held, b) + Times(x.held, b)
    decreases i
  {
    if i == 0 {
      assert tasks[i := x][1..] == tasks[1..];
    } else {
      assert tasks[i := x][1..] == tasks[1..][i - 1 := x];
      TotalUpdate(tasks[1..], i - 1, x, b);
    }
  }

  lemma {:induction false} TotalAtLeast(tasks: seq<Task>, i: nat, b: nat)
    requires i < |tasks|
    ensures Times(tasks[i].held, b) <= Total(tasks, b)
  {
    TotalUpdate(tasks, i, Awake([]), b);
  }

  ghost predicate CountAt(s: State, b: nat)
    requires s.t.Sized()
  {
    b < NR_BUFFERS ==> s.t.heads[b].mapcount == Total(s.tasks, b)
  }

  ghost predicate TaskRight(s: State, i: nat) {
    i < |s.tasks| ==> (s.tasks[i].Asleep? ==> s.tasks[i].b < NR_BUFFERS)
                      && forall k :: 0 <= k < |s.tasks[i].held| ==> s.tasks[i].held[k] < NR_BUFFERS
  }

  /** The slot table is sound, and every b_mapcount is the number of times tasks have the buffer mapped. */
  ghost predicate Inv(s: State) {
    s.t.Inverse() && s.last < NR_MAPBUFS && (forall b :: CountAt(s, b)) && forall i :: TaskRight(s, i)
  }

  // ---------------------------------------------------------------- soundness of runs

  /** A task that wakes up finds its buffer unmapped, or sent back to make room for it, or finds no room. */
  ghost predicate Harmless(s: State, step: Step)
    requires Enabled(s, step)
  {
    step.Wake? ==> !Spoils(s.t, s.last, s.tasks[step.i].b)
  }

  lemma LeaveInverse(t: Table, b: nat)
    requires t.Inverse() && b < NR_BUFFERS
    ensures Unmapped(t, b).Inverse()
  {
    var t' := Unmapped(t, b);
    forall i: nat ensures t'.SlotRight(i) { assert t.SlotRight(i); }
    forall c: nat ensures t'.HeadRight(c) { assert t.HeadRight(c); }
  }

  lemma CountedInverse(t: Table, b: nat)
    requires t.Inverse() && b < NR_BUFFERS && t.heads[b].data != -1
    ensures t.(heads := t.heads[b := t.heads[b].(mapcount := t.heads[b].mapcount + 1)]).Inverse()
  {
    var t' := t.(heads := t.heads[b := t.heads[b].(mapcount := t.heads[b].mapcount + 1)]);
    forall i: nat ensures t'.SlotRight(i) { assert t.SlotRight(i); }
    forall c: nat ensures t'.HeadRight(c) { assert t.HeadRight(c); }
  }

  /** A pass counts one more holder of b when it succeeds, and nothing else. */
  lemma PassCounts(t: Table, last: nat, b: nat, c: nat)
    requires t.Inverse() && last < NR_MAPBUFS && b < NR_BUFFERS && c < NR_BUFFERS
    ensures var (t', _, ok) := AttemptOf(t, last, b);
            t'.Sized() && t'.heads[c].mapcount == t.heads[c].mapcount + (if ok && c == b then 1 else 0)
  {
    assert t.SlotRight(Victim(t, last));
  }

  lemma StepInverseIff(s: State, step: Step)
    requires Inv(s) && Enabled(s, step)
    ensures Apply(s, step).t.Inverse() <==> Harmless(s, step)
    ensures Apply(s, step).last < NR_MAPBUFS
  {
    match step {
      case Enter(i, b) =>
        if s.t.heads[b].data != -1 { CountedInverse(s.t, b); } else { AttemptSoundIff(s.t, s.last, b); }
      case Wake(i) => AttemptSoundIff(s.t, s.last, s.tasks[i].b);
      case Leave(i, k) => LeaveInverse(s.t, s.tasks[i].held[k]);
    }
  }

  lemma StepCount(s: State, step: Step, c: nat)
    requires Inv(s) && Enabled(s, step) && Apply(s, step).t.Sized()
    ensures CountAt(Apply(s, step), c)
  {
    if c < NR_BUFFERS {
      var i := step.i;
      assert CountAt(s, c);
      TotalUpdate(s.tasks, i, Apply(s, step).tasks[i], c);
      match step {
        case Enter(_, b) => PassCounts(s.t, s.last, b, c); TimesJoin(s.tasks[i].held, [b], c);
        case Wake(_) => PassCounts(s.t, s.last, s.tasks[i].b, c); TimesJoin(s.tasks[i].held, [s.tasks[i].b], c);
        case Leave(_, k) => TimesCut(s.tasks[i].held, k, c); TotalAtLeast(s.tasks, i, c);
      }
    }
  }

  lemma StepTask(s: State, step: Step, j: nat)
    requires Inv(s) && Enabled(s, step)
    ensures TaskRight(Apply(s, step), j)
  {
    assert TaskRight(s, j);
  }

  /** A step keeps the slot table sound, with exact counts, if and only if it is not a wake-up to a buffer that has
    * been mapped meanwhile and is not sent back in the same pass. */
  lemma StepSoundIff(s: State, step: Step)
    requires Inv(s) && Enabled(s, step)
    ensures Harmless(s, step) <==> Apply(s, step).t.Inverse()
    ensures Harmless(s, step) <==> Inv(Apply(s, step))
  {
    StepInverseIff(s, step);
    if Harmless(s, step) {
      forall c: nat ensures CountAt(Apply(s, step), c) { StepCount(s, step, c); }
      forall j: nat ensures TaskRight(Apply(s, step), j) { StepTask(s, step, j); }
    }
  }

  ghost predicate Reaches(s: State, steps: seq<Step>, s': State)
    decreases |steps|
  {
    if steps == [] then s' == s
    else Enabled(s, steps[0]) && Reaches(Apply(s, steps[0]), steps[1..], s')
  }

  ghost predicate Orderly(s: State, steps: seq<Step>)
    decreases |steps|
  {
    steps == [] || (Enabled(s, steps[0]) && Harmless(s, steps[0]) && Orderly(Apply(s, steps[0]), steps[1..]))
  }

  ghost predicate Throughout(s: State, steps: seq<Step>)
    decreases |steps|
  {
    s.t.Inverse() && (steps == [] || (Enabled(s, steps[0]) && Throughout(Apply(s, steps[0]), steps[1..])))
  }

  /** Over any run of any tasks the slot table is sound in all states if and only if every wake-up is harmless. */
  lemma {:induction false} RunSoundIff(s: State, steps: seq<Step>, s': State)
    requires Inv(s) && Reaches(s, steps, s')
    ensures Throughout(s, steps) <==> Orderly(s, steps)
    ensures Orderly(s, steps) ==> Inv(s')
    decreases |steps|
  {
    if steps != [] {
      StepSoundIff(s, steps[0]);
      if Harmless(s, steps[0]) {
        RunSoundIff(Apply(s, steps[0]), steps[1..], s');
      } else {
        assert !Apply(s, steps[0]).t.Inverse();
      }
    }
  }

  /** While a buffer stays mapped by somebody, harmless steps leave it in its slot. */
  lemma HeldKeepsSlot(s: State, step: Step, c: nat)
    requires Inv(s) && Enabled(s, step) && Harmless(s, step) && c < NR_BUFFERS && s.t.heads[c].mapcount > 0
    ensures Apply(s, step).t.Sized() && Apply(s, step).t.heads[c].data == s.t.heads[c].data
  {
    assert s.t.HeadRight(c);
    if step.Enter? && s.t.heads[step.b].data == -1 { AttemptSoundIff(s.t, s.last, step.b); }
    if step.Wake? {
      AttemptSoundIff(s.t, s.last, s.tasks[step.i].b);
      assert s.t.SlotRight(Victim(s.t, s.last));
    }
  }

  // ---------------------------------------------------------------- contents

  datatype Op = Move(step: Step) | StoreOp(i: nat, k: nat, block: Block)

  /** Task i executes a step on the real tables. */
  method Take(m: Buffers, tasks: seq<Task>, step: Step) returns (tasks': seq<Task>)
    requires m.Valid() && Inv(State(m.View(), m.lastumap, tasks)) && Enabled(State(m.View(), m.lastumap, tasks), step)
    requires Harmless(State(m.View(), m.lastumap, tasks), step)
    modifies m, m.slots, m.heads, m.l1, m.l2
    ensures m.Valid() && m.Image() == old(m.Image())
    ensures State(m.View(), m.lastumap, tasks') == Apply(old(State(m.View(), m.lastumap, tasks)), step)
  {
    var i := step.i;
    match step {
      case Enter(_, b) =>
        var ok := m.MapBuffer(b);
        tasks' := tasks[i := if ok then Awake(tasks[i].held + [b]) else Asleep(b, tasks[i].held)];
      case Wake(_) =>
        var b := tasks[i].b;
        var ok := m.Attempt(b);
        tasks' := tasks[i := if ok then Awake(tasks[i].held + [b]) else Asleep(b, tasks[i].held)];
      case Leave(_, k) =>
        m.UnmapBuffer(tasks[i].held[k]);
        tasks' := tasks[i := Awake(tasks[i].held[..k] + tasks[i].held[k + 1..])];
    }
  }

  /** Whether a step can be taken. */
  predicate Ready(tasks: seq<Task>, step: Step) {
    step.i < |tasks| && match step
                        case Enter(i, b) => tasks[i].Awake? && b < NR_BUFFERS
                        case Wake(i) => tasks[i].Asleep?
                        case Leave(i, k) => tasks[i].Awake? && k < |tasks[i].held|
  }

  lemma ReadyIffEnabled(s: State, step: Step)
    requires Inv(s)
    ensures Ready(s.tasks, step) <==> Enabled(s, step)
  {
    assert TaskRight(s, step.i);
  }

  /** The state and the stores that the operations lead to. One that cannot be done where it comes is passed over. */
  ghost function Played(s: State, ops: seq<Op>): (State, seq<(nat, Block)>)
    decreases |ops|
  {
    if ops == [] then (s, [])
    else
      var (t, w) := Played(s, ops[..|ops| - 1]);
      match ops[|ops| - 1]
      case Move(step) => (if Enabled(t, step) then Apply(t, step) else t, w)
      case StoreOp(i, k, block) =>
        var fits := i < |t.tasks| && t.tasks[i].Awake? && k < |t.tasks[i].held|;
        (t, if fits then w + [(t.tasks[i].held[k], block)] else w)
  }

  lemma {:induction false} TimesOfHeld(held: seq<nat>, k: nat)
    requires k < |held|
    ensures Times(held, held[k]) > 0
  {
    TimesCut(held, k, held[k]);
  }

  /** A buffer that a task has mapped has a holder. */
  lemma HeldCounts(s: State, i: nat, k: nat)
    requires Inv(s) && i < |s.tasks| && k < |s.tasks[i].held|
    ensures s.tasks[i].held[k] < NR_BUFFERS && s.t.heads[s.tasks[i].held[k]].mapcount > 0
  {
    assert TaskRight(s, i) && CountAt(s, s.tasks[i].held[k]);
    TimesOfHeld(s.tasks[i].held, k);
    TotalAtLeast(s.tasks, i, s.tasks[i].held[k]);
  }

  /** Any number of tasks map, unmap and store through buffers they have mapped, sleeping in between: up to the first
    * wake-up that is not harmless the tables are those of the steps, sound and with exact counts, and every buffer
    * holds the last block stored in it. */
  method Run(m: Buffers, tasks0: seq<Task>, ops: seq<Op>) returns (tasks: seq<Task>, stores: seq<(nat, Block)>,
      done: nat)
    requires m.Valid() && Inv(State(m.View(), m.lastumap, tasks0))
    modifies m, m.slots, m.heads, m.l1, m.l2
    ensures m.Valid() && Inv(State(m.View(), m.lastumap, tasks)) && m.Image() == Replay(old(m.Image()), stores)
    ensures done <= |ops|
    ensures Played(old(State(m.View(), m.lastumap, tasks0)), ops[..done])
            == (State(m.View(), m.lastumap, tasks), stores)
    ensures done < |ops| ==> var s := State(m.View(), m.lastumap, tasks);
                             ops[done].Move? && Enabled(s, ops[done].step) && !Harmless(s, ops[done].step)
  {
    tasks, stores, done := tasks0, [], 0;
    ghost var s0 := State(m.View(), m.lastumap, tasks0);
    while done < |ops|
      invariant done <= |ops| && m.Valid() && Inv(State(m.View(), m.lastumap, tasks))
      invariant m.Image() == Replay(old(m.Image()), stores)
      invariant Played(s0, ops[..done]) == (State(m.View(), m.lastumap, tasks), stores)
    {
      ghost var s := State(m.View(), m.lastumap, tasks);
      assert ops[..done + 1][..done] == ops[..done];
      match ops[done] {
        case Move(step) =>
          ReadyIffEnabled(s, step);
          if Ready(tasks, step) {
            if step.Wake? && Spoils(Table(m.slots[..], m.heads[..]), m.lastumap, tasks[step.i].b) { break; }
            StepSoundIff(s, step);
            tasks := Take(m, tasks, step);
          }
        case StoreOp(i, k, block) =>
          if i < |tasks| && tasks[i].Awake? && k < |tasks[i].held| {
            HeldCounts(s, i, k);
            var b := tasks[i].held[k];
            m.Store(b, block);
            assert (stores + [(b, block)])[..|stores|] == stores;
            stores := stores + [(b, block)];
          }
      }
      done := done + 1;
    }
  }

  // ---------------------------------------------------------------- a buffer mapped twice

  /** Task 1 has mapped buffers 0 to k - 1, each into the slot of its number; task 0 has none. */
  function Filled(k: nat): State
    requires k <= NR_MAPBUFS
  {
    State(Table(seq(NR_MAPBUFS, i => if i < k then i else -1),
                seq(NR_BUFFERS, b => if b < k then Head(b, 1) else Head(-1, 0))),
          0, [Awake([]), Awake(Upto(k))])
  }

  function Upto(k: nat): (r: seq<nat>)
    ensures |r| == k && forall i :: 0 <= i < k ==> r[i] == i
  {
    seq(k, i requires 0 <= i => i)
  }

  lemma FillStep(k: nat)
    requires k < NR_MAPBUFS
    ensures Enabled(Filled(k), Enter(1, k)) && Apply(Filled(k), Enter(1, k)) == Filled(k + 1)
  {
    var s := Filled(k);
    assert s.t.slots[k] == -1;
    assert FirstFree(s.t.slots, 0) == k;
    assert s.t.slots[k := k] == Filled(k + 1).t.slots;
    assert s.t.heads[k := Head(k, 1)] == Filled(k + 1).t.heads;
    assert Upto(k) + [k] == Upto(k + 1);
    assert s.tasks[1 := Awake(Upto(k + 1))] == Filled(k + 1).tasks;
  }

  function Fills(k: nat, rest: seq<Step>): seq<Step>
    requires k <= NR_MAPBUFS
    decreases NR_MAPBUFS - k
  {
    if k == NR_MAPBUFS then rest else [Enter(1, k)] + Fills(k + 1, rest)
  }

  lemma First(s: State, step: Step, m: State, rest: seq<Step>, t: State)
    requires Enabled(s, step) && m == Apply(s, step) && Reaches(m, rest, t)
    ensures Reaches(s, [step] + rest, t)
  {
    assert ([step] + rest)[1..] == rest;
  }

  lemma {:induction false} FillsReach(k: nat, rest: seq<Step>, t: State)
    requires k <= NR_MAPBUFS && Reaches(Filled(NR_MAPBUFS), rest, t)
    ensures Reaches(Filled(k), Fills(k, rest), t)
    decreases NR_MAPBUFS - k
  {
    if k < NR_MAPBUFS {
      FillStep(k);
      FillsReach(k + 1, rest, t);
      First(Filled(k), Enter(1, k), Filled(k + 1), Fills(k + 1, rest), t);
    }
  }

  lemma BootInv()
    ensures Inv(Filled(0))
  {
    var s := Filled(0);
    forall i: nat ensures s.t.SlotRight(i) {}
    forall b: nat ensures s.t.HeadRight(b) {}
    forall b: nat ensures CountAt(s, b) {
      assert Total(s.tasks, b) == Times([], b) + Total(s.tasks[1..], b)
          == Times(Upto(0), b) + Total(s.tasks[1..][1..], b);
    }
    forall i: nat ensures TaskRight(s, i) {}
  }

  /** Every slot taken, slot v the first after last whose buffer nobody holds, and b in no slot: b gets slot v. */
  lemma NextVictim(s: State, i: nat, b: nat)
    requires s.t.Sized() && s.last < NR_MAPBUFS && i < |s.tasks| && b < NR_BUFFERS
    requires (forall j :: 0 <= j < NR_MAPBUFS ==> s.t.slots[j] != -1) && Unheld(s.t, NextSlot(s.last))
    ensures var v := NextSlot(s.last);
            AttemptOf(s.t, s.last, b) == (s.t.Evict(v).Map(b, v), v, true)
    ensures s.t.heads[b].data != -1 && s.t.slots[NextSlot(s.last)] != b ==> Spoils(s.t, s.last, b)
  {
    assert FirstFree(s.t.slots, 0) == NR_MAPBUFS;
  }

  /** Task 0 finds all slots held and sleeps for buffer 8. */
  lemma FallsAsleep() returns (s: State)
    ensures Enabled(Filled(8), Enter(0, 8)) && s == Apply(Filled(8), Enter(0, 8))
    ensures s.t == Filled(8).t && s.last == 0 && s.tasks == [Asleep(8, []), Awake(Upto(8))]
  {
    var r := Filled(8);
    s := Apply(r, Enter(0, 8));
    assert FirstFree(r.t.slots, 0) == NR_MAPBUFS;
    assert forall i :: 0 <= i < NR_MAPBUFS ==> !Unheld(r.t, i);
    assert Victim(r.t, 0) == 0;
  }

  /** Task 1 lets go of buffer 1 and maps buffer 8 in its place. */
  lemma MapsFirst(s0: State) returns (s: State)
    requires s0 == State(Filled(8).t, 0, [Asleep(8, []), Awake(Upto(8))])
    ensures Enabled(s0, Leave(1, 1)) && Enabled(Apply(s0, Leave(1, 1)), Enter(1, 8))
    ensures s == Apply(Apply(s0, Leave(1, 1)), Enter(1, 8)) && s.t.Sized() && s.last == 1
    ensures s.t.slots == Filled(8).t.slots[1 := 8] && s.t.heads[8] == Head(1, 1) && s.t.heads[2] == Head(2, 1)
    ensures |s.tasks| == 2 && s.tasks[0] == Asleep(8, []) && s.tasks[1].Awake? && |s.tasks[1].held| == 8
              && s.tasks[1].held[1] == 2
  {
    var m := Apply(s0, Leave(1, 1));
    NextVictim(m, 1, 8);
    s := Apply(m, Enter(1, 8));
  }

  /** It lets go of buffer 2, and task 0 wakes up and maps buffer 8 in that one's place. */
  lemma MapsAgain(s0: State) returns (s: State)
    requires s0.t.Sized() && s0.last == 1 && s0.t.slots == Filled(8).t.slots[1 := 8]
    requires s0.t.heads[8] == Head(1, 1) && s0.t.heads[2] == Head(2, 1)
    requires |s0.tasks| == 2 && s0.tasks[0] == Asleep(8, []) && s0.tasks[1].Awake?
    requires |s0.tasks[1].held| == 8 && s0.tasks[1].held[1] == 2
    ensures Enabled(s0, Leave(1, 1)) && Enabled(Apply(s0, Leave(1, 1)), Wake(0))
    ensures s == Apply(Apply(s0, Leave(1, 1)), Wake(0)) && s.t.Sized() && s.t.slots[1] == 8 && s.t.slots[2] == 8
  {
    var m := Apply(s0, Leave(1, 1));
    NextVictim(m, 0, 8);
    s := Apply(m, Wake(0));
  }

  lemma TwoSteps(s: State, a: Step, b: Step, rest: seq<Step>, t: State)
    requires Enabled(s, a) && Enabled(Apply(s, a), b) && Reaches(Apply(Apply(s, a), b), rest, t)
    ensures Reaches(s, [a] + ([b] + rest), t)
  {
    First(Apply(s, a), b, Apply(Apply(s, a), b), rest, t);
    First(s, a, Apply(s, a), [b] + rest, t);
  }

  function Twice(): seq<Step> { [Leave(1, 1)] + ([Enter(1, 8)] + ([Leave(1, 1)] + ([Wake(0)] + []))) }

  /** One task waits for a slot for buffer 8 while another maps it: the buffer ends up in two slots. */
  lemma MappedTwice() returns (s: State)
    ensures Inv(Filled(0)) && Reaches(Filled(0), Fills(0, [Enter(0, 8)] + Twice()), s)
    ensures s.t.Sized() && s.t.slots[1] == 8 && s.t.slots[2] == 8
  {
    BootInv();
    var s0 := FallsAsleep();
    var s2 := MapsFirst(s0);
    s := MapsAgain(s2);
    assert Reaches(s, [], s);
    TwoSteps(s2, Leave(1, 1), Wake(0), [], s);
    TwoSteps(s0, Leave(1, 1), Enter(1, 8), [Leave(1, 1)] + ([Wake(0)] + []), s);
    First(Filled(8), Enter(0, 8), s0, Twice(), s);
    FillsReach(0, [Enter(0, 8)] + Twice(), s);
  }
}
