/** Semaphores (kernel/sleepwake.c) used by any number of tasks in any order. down sleeps in sleep_on while the
  * count is negative; up wakes every sleeper when the count comes back to zero. The kernel is not preempted, so
  * a step is code up to the next sleep. */
module Semaphore {
  import opened RunQueue

  /** Whether a task is outside, asleep or woken inside down, or has the semaphore. */
  datatype Pc = Out | InDown | Holding

  /** sem is the count; states and waits are the tasks' state and waitpt. */
  datatype State = State(sem: int, states: seq<TaskState>, waits: seq<int>, pcs: seq<Pc>)

  /** The address of the semaphore, which is also its wait queue. */
  const ADDR := 1

  datatype Step =
    | Down(i: nat)
    | Resume(i: nat)                                 // down, back from sleep_on
    | Up(i: nat, polled: seq<bool>)
    | Rouse(i: nat)                                  // wake_up_process from elsewhere
    | Else(i: nat, state: TaskState, waits: int)     // a task outside down does anything else

  predicate Sized(s: State) { |s.states| == |s.waits| == |s.pcs| }

  predicate Enabled(s: State, step: Step) {
    Sized(s) &&
    match step
    case Down(i) => i < |s.pcs| && s.pcs[i].Out? && s.states[i].Running?
    case Resume(i) => i < |s.pcs| && s.pcs[i].InDown? && s.states[i].Running?
    case Up(i, polled) => i < |s.pcs| && s.pcs[i].Holding? && |polled| == |s.pcs|
    case Rouse(i) => i < |s.pcs|
    case Else(i, _, _) => i < |s.pcs| && !s.pcs[i].InDown?
  }

  /** The loop of down, up to taking the semaphore or sleeping. */
  function Try(s: State, i: nat): State
    requires Sized(s) && i < |s.pcs|
  {
    if s.sem < 0 then
      s.(states := s.states[i := Uninterruptible], waits := s.waits[i := ADDR], pcs := s.pcs[i := InDown])
    else s.(sem := s.sem - 1, states := s.states[i := Running], waits := s.waits[i := 0], pcs := s.pcs[i := Holding])
  }

  function Apply(s: State, step: Step): State
    requires Enabled(s, step)
  {
    match step
    case Down(i) => Try(s, i)
    case Resume(i) => Try(s.(waits := s.waits[i := 0]), i)
    case Up(i, polled) =>
      var t := s.(sem := s.sem + 1, pcs := s.pcs[i := Out]);
      if t.sem == 0 then t.(states := Awake(s.states, s.waits, ADDR, polled, true, |s.states|)) else t
    case Rouse(i) => s.(states := s.states[i := Running])
    case Else(i, state, waits) => s.(states := s.states[i := state], waits := s.waits[i := waits])
  }

  function Holders(pcs: seq<Pc>): nat {
    if pcs == [] then 0 else (if pcs[0].Holding? then 1 else 0) + Holders(pcs[1..])
  }

  lemma {:induction false} HoldersUpdate(pcs: seq<Pc>, i: nat, pc: Pc)
    requires i < |pcs|
    ensures Holders(pcs[i := pc]) == Holders(pcs) - (if pcs[i].Holding? then 1 else 0) + (if pc.Holding? then 1 else 0)
    decreases i
  {
    if i == 0 {
      assert pcs[i := pc][1..] == pcs[1..];
    } else {
      assert pcs[i := pc][1..] == pcs[1..][i - 1 := pc];
      HoldersUpdate(pcs[1..], i - 1, pc);
    }
  }

  /** A task inside down waits for the semaphore, and sleeps only while somebody has it. */
  ghost predicate WaiterAt(s: State, i: nat)
    requires Sized(s)
  {
    i < |s.pcs| && s.pcs[i].InDown? ==>
      s.waits[i] == ADDR && (s.states[i].Running? || (s.states[i].Uninterruptible? && s.sem < 0))
  }

  /** One holder when the count is -1, none when it is 0, and never another value. */
  ghost predicate Inv(s: State) {
    Sized(s) && (s.sem == 0 || s.sem == -1) && Holders(s.pcs) == -s.sem && forall i :: WaiterAt(s, i)
  }

  lemma StepInv(s: State, step: Step)
    requires Inv(s) && Enabled(s, step)
    ensures Inv(Apply(s, step))
  {
    var t := Apply(s, step);
    match step {
      case Down(i) => HoldersUpdate(s.pcs, i, t.pcs[i]);
      case Resume(i) => HoldersUpdate(s.pcs, i, t.pcs[i]);
      case Up(i, _) =>
        HoldersUpdate(s.pcs, i, Out);
        HolderCounts(s.pcs, i);
      case _ =>
    }
    forall j: nat ensures WaiterAt(t, j) { assert WaiterAt(s, j); }
  }

  lemma HolderCounts(pcs: seq<Pc>, i: nat)
    requires i < |pcs| && pcs[i].Holding?
    ensures Holders(pcs) >= 1
  {
    HoldersUpdate(pcs, i, Out);
  }

  /** A task that looks gets the semaphore exactly if nobody has it, and else sleeps; the last up leaves nobody
    * asleep in down. */
  lemma StepEnds(s: State, step: Step)
    requires Inv(s) && Enabled(s, step)
    ensures step.Down? || step.Resume? ==> var pc := Apply(s, step).pcs[step.i];
              && (pc.Holding? <==> forall k :: 0 <= k < |s.pcs| ==> !s.pcs[k].Holding?)
              && (pc.InDown? <==> !pc.Holding?)
    ensures step.Up? ==> var t := Apply(s, step);
              t.sem == 0 && t.pcs[step.i].Out?
              && forall k :: 0 <= k < |s.pcs| && s.pcs[k].InDown? ==> t.states[k].Running?
  {
    match step {
      case Up(i, _) =>
        HolderCounts(s.pcs, i);
        StepInv(s, step);
        forall k | 0 <= k < |s.pcs| && s.pcs[k].InDown? ensures Apply(s, step).states[k].Running? {
          assert WaiterAt(Apply(s, step), k);
        }
      case Else(_, _, _) =>
      case Rouse(_) =>
      case _ =>
        if s.sem < 0 { SomeHolder(s.pcs); }
        forall k | 0 <= k < |s.pcs| && s.pcs[k].Holding? ensures s.sem < 0 { HolderCounts(s.pcs, k); }
    }
  }

  ghost predicate Reaches(s: State, steps: seq<Step>, t: State)
    decreases |steps|
  {
    if steps == [] then t == s
    else Enabled(s, steps[0]) && Reaches(Apply(s, steps[0]), steps[1..], t)
  }

  function Fresh(n: nat): State {
    State(0, seq(n, _ => TaskState.Running), seq(n, _ => 0), seq(n, _ => Out))
  }

  lemma {:induction false} NoHolders(n: nat)
    ensures Holders(seq(n, _ => Out)) == 0
  {
    if n > 0 {
      assert seq(n, _ => Out)[1..] == seq(n - 1, _ => Out);
      NoHolders(n - 1);
    }
  }

  lemma {:induction false} RunInv(s: State, steps: seq<Step>, t: State)
    requires Inv(s) && Reaches(s, steps, t)
    ensures Inv(t)
    decreases |steps|
  {
    if steps != [] {
      StepInv(s, steps[0]);
      RunInv(Apply(s, steps[0]), steps[1..], t);
    }
  }

  /** From the initial value 0, however tasks call down and up: the count is 0 or -1, nobody has the semaphore
    * when it is 0, somebody has it when it is -1, no two tasks ever have it, and while it is 0 no task in down
    * is asleep. */
  lemma MutualExclusion(n: nat, steps: seq<Step>, t: State, i: nat, j: nat)
    requires Reaches(Fresh(n), steps, t) && i < |t.pcs| && j < |t.pcs|
    ensures Sized(t) && (t.sem == 0 || t.sem == -1)
    ensures t.sem == 0 <==> forall k :: 0 <= k < |t.pcs| ==> !t.pcs[k].Holding?
    ensures t.pcs[i].Holding? && t.pcs[j].Holding? ==> i == j
    ensures t.sem == 0 && t.pcs[i].InDown? ==> t.states[i].Running?
  {
    NoHolders(n);
    RunInv(Fresh(n), steps, t);
    assert WaiterAt(t, i);
    if t.sem == 0 {
      forall k | 0 <= k < |t.pcs| ensures !t.pcs[k].Holding? {
        if t.pcs[k].Holding? { HolderCounts(t.pcs, k); }
      }
    } else {
      SomeHolder(t.pcs);
    }
    if t.pcs[i].Holding? && t.pcs[j].Holding? && i != j {
      HoldersUpdate(t.pcs, i, Out);
      HolderCounts(t.pcs[i := Out], j);
    }
  }

  lemma {:induction false} SomeHolder(pcs: seq<Pc>)
    requires Holders(pcs) > 0
    ensures exists k :: 0 <= k < |pcs| && pcs[k].Holding?
  {
    if !pcs[0].Holding? {
      SomeHolder(pcs[1..]);
      var k :| 0 <= k < |pcs[1..]| && pcs[1..][k].Holding?;
      assert pcs[k + 1].Holding?;
    }
  }
}
