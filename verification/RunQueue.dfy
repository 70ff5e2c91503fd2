/** The run queue (kernel/sched.c) and waking (kernel/sleepwake.c): a ring of tasks through the idle task 0,
  * linked in the task table itself. */
module RunQueue {
  const MAX_TASKS := 15
  const NONE := -1

  datatype TaskState =
    | Running | Interruptible | Uninterruptible | Zombie | Stopped | Swapping | Unused | Waiting | Exiting

  type Links = s: seq<int> | |s| == MAX_TASKS witness seq(MAX_TASKS, _ => 0)

  /** The tasks on the ring other than task 0, in order after it. */
  ghost predicate Queue(q: seq<nat>) {
    (forall i :: 0 <= i < |q| ==> 0 < q[i] < MAX_TASKS) && (forall i, j :: 0 <= i < j < |q| ==> q[i] != q[j])
  }

  /** The i-th task on the way round the ring, from task 0 back to task 0. */
  function Round(q: seq<nat>, i: nat): nat { if 0 < i <= |q| then q[i - 1] else 0 }

  ghost predicate LinkAt(n: Links, p: Links, q: seq<nat>, i: nat)
    requires Queue(q)
  {
    i <= |q| ==> n[Round(q, i)] == Round(q, i + 1) && p[Round(q, i + 1)] == Round(q, i)
  }

  /** next_run and prev_run form the ring of q, and are null exactly off it. */
  ghost predicate Ring(n: Links, p: Links, q: seq<nat>) {
    && Queue(q)
    && (forall i :: LinkAt(n, p, q, i))
    && (forall t :: 0 < t < MAX_TASKS && t !in q ==> n[t] == NONE && p[t] == NONE)
  }

  /** No task is met twice on the way. */
  lemma Once(q: seq<nat>, i: nat, j: nat)
    requires Queue(q) && i < j <= |q|
    ensures Round(q, i) != Round(q, j) && Round(q, i) < MAX_TASKS && 0 < Round(q, j) < MAX_TASKS
  {}

  lemma OnRingIff(n: Links, p: Links, q: seq<nat>, t: nat)
    requires Ring(n, p, q) && t < MAX_TASKS
    ensures n[t] != NONE <==> t == 0 || t in q
  {
    if t == 0 {
      assert LinkAt(n, p, q, 0);
    } else if t in q {
      var i :| 0 <= i < |q| && q[i] == t;
      assert LinkAt(n, p, q, i + 1);
    }
  }

  /** The links after add_to_runqueue. */
  function AddedNext(n: Links, p: Links, t: nat): Links
    requires t < MAX_TASKS && 0 <= p[0] < MAX_TASKS
  {
    n[p[0] := t][t := 0]
  }

  function AddedPrev(p: Links, t: nat): Links
    requires t < MAX_TASKS
  {
    p[t := p[0]][0 := t]
  }

  lemma TailOf(n: Links, p: Links, q: seq<nat>)
    requires Ring(n, p, q)
    ensures 0 <= p[0] < MAX_TASKS && p[0] == Round(q, |q|)
  {
    assert LinkAt(n, p, q, |q|);
  }

  lemma AddLink(n: Links, p: Links, q: seq<nat>, t: nat, i: nat)
    requires Ring(n, p, q) && 0 < t < MAX_TASKS && t !in q && i <= |q| + 1
    requires Queue(q + [t]) && 0 <= p[0] < MAX_TASKS && p[0] == Round(q, |q|)
    ensures LinkAt(AddedNext(n, p, t), AddedPrev(p, t), q + [t], i)
  {
    var q' := q + [t];
    if i < |q| {
      assert LinkAt(n, p, q, i);
      Once(q, i, |q|);
      assert Round(q', i) == Round(q, i) && Round(q', i + 1) == Round(q, i + 1) == q[i];
      assert q[i] != t && Round(q, i) != t;
    } else if i == |q| {
      assert Round(q', i) == Round(q, i) == p[0] && Round(q', i + 1) == t;
    } else {
      assert Round(q', i) == t && Round(q', i + 1) == 0;
    }
  }

  lemma AddKeepsRing(n: Links, p: Links, q: seq<nat>, t: nat)
    requires Ring(n, p, q) && 0 < t < MAX_TASKS && t !in q
    ensures 0 <= p[0] < MAX_TASKS && Ring(AddedNext(n, p, t), AddedPrev(p, t), q + [t])
  {
    TailOf(n, p, q);
    assert Queue(q + [t]);
    forall i: nat ensures LinkAt(AddedNext(n, p, t), AddedPrev(p, t), q + [t], i) {
      if i <= |q| + 1 { AddLink(n, p, q, t, i); }
    }
    forall u | 0 < u < MAX_TASKS && u !in q + [t]
      ensures AddedNext(n, p, t)[u] == NONE && AddedPrev(p, t)[u] == NONE
    {
      assert u !in q && u != t;
      assert Round(q, |q|) == 0 || Round(q, |q|) in q;
    }
  }

  /** The links after del_from_runqueue. */
  function DeletedNext(n: Links, p: Links, t: nat): Links
    requires t < MAX_TASKS && 0 <= p[t] < MAX_TASKS
  {
    n[p[t] := n[t]][t := NONE]
  }

  function DeletedPrev(n: Links, p: Links, t: nat): Links
    requires t < MAX_TASKS && 0 <= n[t] < MAX_TASKS
  {
    p[n[t] := p[t]][t := NONE]
  }

  function Without(q: seq<nat>, t: nat): (r: seq<nat>) {
    if q == [] then [] else if q[0] == t then q[1..] else [q[0]] + Without(q[1..], t)
  }

  lemma CutParts(q: seq<nat>, i: nat)
    requires 0 < i < |q|
    ensures [q[0]] + (q[1..][..i - 1] + q[1..][i..]) == q[..i] + q[i + 1..]
  {}

  lemma {:induction false} WithoutAt(q: seq<nat>, i: nat)
    requires i < |q| && (forall a, b :: 0 <= a < b < |q| ==> q[a] != q[b])
    ensures Without(q, q[i]) == q[..i] + q[i + 1..]
    decreases i
  {
    if i > 0 {
      assert q[1..][i - 1] == q[i];
      WithoutAt(q[1..], i - 1);
      CutParts(q, i);
    } else {
      assert q[..0] == [];
    }
  }

  lemma Neighbours(n: Links, p: Links, q: seq<nat>, i: nat)
    requires Ring(n, p, q) && i < |q|
    ensures n[q[i]] == Round(q, i + 2) && p[q[i]] == Round(q, i)
    ensures 0 <= n[q[i]] < MAX_TASKS && 0 <= p[q[i]] < MAX_TASKS
  {
    assert LinkAt(n, p, q, i) && LinkAt(n, p, q, i + 1);
    assert Round(q, i + 1) == q[i];
  }

  lemma CutQueue(q: seq<nat>, i: nat, j: nat)
    requires Queue(q) && i < |q|
    ensures Queue(q[..i] + q[i + 1..])
    ensures Round(q[..i] + q[i + 1..], j) == if j <= i then Round(q, j) else Round(q, j + 1)
  {}

  lemma DeleteLink(n: Links, p: Links, q: seq<nat>, i: nat, j: nat)
    requires Ring(n, p, q) && i < |q| && j < |q| && Queue(q[..i] + q[i + 1..])
    requires n[q[i]] == Round(q, i + 2) && p[q[i]] == Round(q, i)
    requires 0 <= n[q[i]] < MAX_TASKS && 0 <= p[q[i]] < MAX_TASKS
    ensures LinkAt(DeletedNext(n, p, q[i]), DeletedPrev(n, p, q[i]), q[..i] + q[i + 1..], j)
  {
    CutQueue(q, i, j);
    CutQueue(q, i, j + 1);
    var k := if j < i then j else j + 1;
    assert LinkAt(n, p, q, k);
    assert q[i] == Round(q, i + 1);
    if j != i {
      Elsewhere(q, i, k);
    } else {
      assert Round(q, i) != q[i] && Round(q, i + 2) != q[i] by { Apart(q, i, i + 1); Apart(q, i + 2, i + 1); }
    }
  }

  /** Two neighbours, neither of them the i-th task, are not on the same sides of it. */
  lemma Elsewhere(q: seq<nat>, i: nat, k: nat)
    requires Queue(q) && i < |q| && k <= |q| && k != i && k != i + 1
    ensures Round(q, k) != q[i] && Round(q, k + 1) != q[i]
    ensures Round(q, k) != Round(q, i) && Round(q, k + 1) != Round(q, i + 2)
  {
    Apart(q, k, i + 1);
    Apart(q, k + 1, i + 1);
    Apart(q, k, i);
    Apart(q, k + 1, i + 2);
  }

  lemma Apart(q: seq<nat>, i: nat, j: nat)
    requires Queue(q) && i <= |q| + 1 && j <= |q| + 1 && i != j && !(i == 0 && j == |q| + 1)
        && !(j == 0 && i == |q| + 1)
    ensures Round(q, i) != Round(q, j)
  {}

  lemma DeleteKeepsRing(n: Links, p: Links, q: seq<nat>, i: nat)
    requires Ring(n, p, q) && i < |q|
    ensures 0 <= n[q[i]] < MAX_TASKS && 0 <= p[q[i]] < MAX_TASKS
    ensures Ring(DeletedNext(n, p, q[i]), DeletedPrev(n, p, q[i]), q[..i] + q[i + 1..])
  {
    Neighbours(n, p, q, i);
    CutQueue(q, i, 0);
    var q' := q[..i] + q[i + 1..];
    forall j: nat ensures LinkAt(DeletedNext(n, p, q[i]), DeletedPrev(n, p, q[i]), q', j) {
      if j < |q| { DeleteLink(n, p, q, i, j); }
    }
    forall t | 0 < t < MAX_TASKS && t !in q'
      ensures DeletedNext(n, p, q[i])[t] == NONE && DeletedPrev(n, p, q[i])[t] == NONE
    {
      if t != q[i] { StaysOff(n, p, q, i, t); }
    }
  }

  lemma StaysOff(n: Links, p: Links, q: seq<nat>, i: nat, t: nat)
    requires Ring(n, p, q) && i < |q| && 0 < t < MAX_TASKS && t != q[i] && t !in q[..i] + q[i + 1..]
    ensures t !in q && n[q[i]] != t && p[q[i]] != t
  {
    Neighbours(n, p, q, i);
    assert q == q[..i] + [q[i]] + q[i + 1..];
    assert Round(q, i) == 0 || Round(q, i) in q;
    assert Round(q, i + 2) == 0 || Round(q, i + 2) in q;
  }

  // ---------------------------------------------------------------- which task comes next

  /** The place of a task on the way round the ring. */
  function Place(q: seq<nat>, t: nat): (i: nat)
    ensures i <= |q| + 1 && (t in q || t == 0 ==> i <= |q| && Round(q, i) == t)
    ensures t == 0 ==> i == 0
  {
    if t == 0 then 0 else 1 + IndexOf(q, t)
  }

  function IndexOf(q: seq<nat>, t: nat): (i: nat)
    ensures i <= |q| && (i < |q| ==> q[i] == t) && (t in q ==> i < |q|)
  {
    if q == [] || q[0] == t then 0 else 1 + IndexOf(q[1..], t)
  }

  lemma IndexIs(q: seq<nat>, i: nat)
    requires Queue(q) && i < |q|
    ensures IndexOf(q, q[i]) == i && Place(q, q[i]) == i + 1
  {
    assert IndexOf(q, q[i]) < |q|;
  }

  /** schedule's choice: the task that followed prev when it was called, passing over the idle task if any other
    * is on the ring after is. */
  function Chosen(q: seq<nat>, after: seq<nat>, prev: nat): nat {
    var next := Round(q, Place(q, prev) + 1);
    if next == 0 then Round(after, 1) else next
  }

  /** The queue once a caller that goes to sleep has left it. */
  function Left(q: seq<nat>, prev: nat, sleeps: bool): seq<nat> { if sleeps && prev != 0 then Without(q, prev) else q }

  /** The queue and the current task after a call of schedule in which nothing is enqueued. */
  function Go(q: seq<nat>, prev: nat, sleeps: bool): (seq<nat>, nat) {
    (Left(q, prev, sleeps), Chosen(q, Left(q, prev, sleeps), prev))
  }

  ghost predicate Sane(q: seq<nat>, prev: nat) { Queue(q) && (prev == 0 || prev in q) }

  /** How many tasks come up before the one at index j. */
  function Distance(q: seq<nat>, prev: nat, j: nat): int {
    Gap(|q|, Place(q, prev), j)
  }

  lemma GoStay(q: seq<nat>, prev: nat, j: nat)
    requires Sane(q, prev) && j < |q|
    ensures var (q', c) := Go(q, prev, false);
            && q' == q && Sane(q', c) && 0 <= Distance(q, prev, j) < |q|
            && (if Distance(q, prev, j) == 0 then c == q[j] else Distance(q, c, j) == Distance(q, prev, j) - 1)
  {
    var i := Place(q, prev);
    var k := if i < |q| then i else 0;
    assert Go(q, prev, false).1 == q[k];
    IndexIs(q, k);
  }

  /** A caller that goes to sleep leaves the ring, and the task after it, or the first one, is next. */
  lemma SleepNext(q: seq<nat>, prev: nat)
    requires Sane(q, prev) && prev != 0
    ensures var i := Place(q, prev);
            && 1 <= i <= |q| && q[i - 1] == prev && Queue(q[..i - 1] + q[i..])
            && Go(q, prev, true).0 == q[..i - 1] + q[i..]
            && (|q| > 1 ==> var k := if i < |q| then i - 1 else 0;
                            Go(q, prev, true).1 == (q[..i - 1] + q[i..])[k]
                                && Place(Go(q, prev, true).0, Go(q, prev, true).1) == k + 1)
            && (|q| == 1 ==> Go(q, prev, true).1 == 0)
  {
    var i := Place(q, prev);
    WithoutAt(q, i - 1);
    var q' := q[..i - 1] + q[i..];
    CutQueue(q, i - 1, 0);
    if |q| > 1 {
      var k := if i < |q| then i - 1 else 0;
      assert Go(q, prev, true).1 == q'[k];
      IndexIs(q', k);
    }
  }

  lemma GoSleep(q: seq<nat>, prev: nat, j: nat)
    requires Sane(q, prev) && prev != 0 && j < |q| && q[j] != prev
    ensures var (q', c) := Go(q, prev, true);
            var j' := if j >= Place(q, prev) then j - 1 else j;
            && |q'| == |q| - 1 && Sane(q', c) && j' < |q'| && q'[j'] == q[j] && 0 <= Distance(q, prev, j) < |q|
            && (if Distance(q, prev, j) == 0 then c == q[j] else Distance(q', c, j') == Distance(q, prev, j) - 1)
  {
    SleepNext(q, prev);
    var i := Place(q, prev);
    CutAt(q, i, j);
    DistanceDown(|q|, i, j);
  }

  lemma CutAt(q: seq<nat>, i: nat, j: nat)
    requires 1 <= i <= |q| && j < |q| && j != i - 1
    ensures |q[..i - 1] + q[i..]| == |q| - 1 && (q[..i - 1] + q[i..])[if j >= i then j - 1 else j] == q[j]
  {}

  /** How far index j of n is from place i, going round. */
  function Gap(n: nat, i: nat, j: nat): int { if j >= i then j - i else j - i + n }

  lemma DistanceDown(n: nat, i: nat, j: nat)
    requires 1 <= i <= n && j < n && j != i - 1
    ensures var k := (if i < n then i - 1 else 0) + 1; var j' := if j >= i then j - 1 else j;
            0 <= Gap(n, i, j) < n && j' < n - 1
            && (if Gap(n, i, j) == 0 then j' == k - 1 else Gap(n - 1, k, j') == Gap(n, i, j) - 1)
  {}

  /** The current task after each call of a run of calls; calls[k] says whether the k-th caller goes to sleep. */
  function Calls(q: seq<nat>, prev: nat, calls: seq<bool>): (seq<nat>, nat)
    decreases |calls|
  {
    if calls == [] then (q, prev)
    else var (q', c) := Go(q, prev, calls[0]); Calls(q', c, calls[1..])
  }

  /** In the run, task t never is the one that goes to sleep. */
  ghost predicate StaysUp(q: seq<nat>, prev: nat, calls: seq<bool>, t: nat)
    decreases |calls|
  {
    calls == [] || (!(calls[0] && prev == t) && var (q', c) := Go(q, prev, calls[0]); StaysUp(q', c, calls[1..], t))
  }

  /** A task that stays runnable is selected by the call that its distance names. */
  lemma {:induction false} ComesUp(q: seq<nat>, prev: nat, calls: seq<bool>, j: nat)
    requires Sane(q, prev) && j < |q| && Distance(q, prev, j) == |calls| - 1 && StaysUp(q, prev, calls, q[j])
    ensures Calls(q, prev, calls).1 == q[j]
    decreases |calls|
  {
    var (q', c) := Go(q, prev, calls[0]);
    var moved := calls[0] && prev != 0;
    if moved { GoSleep(q, prev, j); } else { GoStay(q, prev, j); }
    if |calls| == 1 {
      assert calls[1..] == [];
    } else {
      ComesUp(q', c, calls[1..], if moved && j >= Place(q, prev) then j - 1 else j);
    }
  }

  /** With nothing enqueued meanwhile, a task that stays runnable is selected within as many calls as there are
    * tasks on the ring. */
  lemma SelectedSoon(q: seq<nat>, prev: nat, calls: seq<bool>, j: nat) returns (n: nat)
    requires Sane(q, prev) && j < |q| && |calls| == |q| && StaysUp(q, prev, calls, q[j])
    ensures 1 <= n <= |q| && Calls(q, prev, calls[..n]).1 == q[j]
  {
    GoStay(q, prev, j);
    n := Distance(q, prev, j) + 1;
    StaysUpPart(q, prev, calls, q[j], n);
    ComesUp(q, prev, calls[..n], j);
  }

  lemma {:induction false} StaysUpPart(q: seq<nat>, prev: nat, calls: seq<bool>, t: nat, n: nat)
    requires StaysUp(q, prev, calls, t) && n <= |calls|
    ensures StaysUp(q, prev, calls[..n], t)
    decreases n
  {
    if n > 0 {
      var (q', c) := Go(q, prev, calls[0]);
      assert calls[..n][1..] == calls[1..][..n - 1];
      StaysUpPart(q', c, calls[1..], t, n - 1);
    }
  }

  lemma CutHas(q: seq<nat>, i: nat, t: nat)
    requires Queue(q) && i < |q|
    ensures t in q[..i] + q[i + 1..] <==> t in q && t != q[i]
  {
    assert q == q[..i] + [q[i]] + q[i + 1..];
  }

  lemma LeftIs(q: seq<nat>, prev: nat, sleeps: bool)
    requires Sane(q, prev)
    ensures Queue(Left(q, prev, sleeps))
    ensures forall t :: t in Left(q, prev, sleeps) <==> t in q && !(sleeps && t == prev)
  {
    if sleeps && prev != 0 {
      var i := IndexOf(q, prev);
      WithoutAt(q, i);
      CutQueue(q, i, 0);
      forall t: nat ensures t in Left(q, prev, sleeps) <==> t in q && t != prev { CutHas(q, i, t); }
    }
  }

  /** Whatever has been put on the ring since the caller's successor was looked up, schedule takes the idle task only
    * when nothing else is on the ring, and otherwise a task that is. */
  lemma IdleIffAlone(q: seq<nat>, grown: seq<nat>, prev: nat, sleeps: bool)
    requires Sane(q, prev) && Queue(grown) && q <= grown
    ensures var after := Left(grown, prev, sleeps); var c := Chosen(q, after, prev);
            Sane(after, c) && (c == 0 <==> after == [])
  {
    var after := Left(grown, prev, sleeps);
    assert forall i :: 0 <= i < |q| ==> grown[i] == q[i];
    LeftIs(grown, prev, sleeps);
    var next := Round(q, Place(q, prev) + 1);
    if next != 0 {
      Once(q, Place(q, prev), Place(q, prev) + 1);
      assert next in grown && next in after;
    } else {
      assert after != [] ==> after[0] in after;
    }
  }

  // ---------------------------------------------------------------- the task table

  /** wake_up_process puts a task at the tail, unless it is on the ring. */
  function Joined(q: seq<nat>, t: nat): seq<nat> { if t == 0 || t in q then q else q + [t] }

  function JoinAll(q: seq<nat>, due: seq<nat>): seq<nat>
    decreases |due|
  {
    if due == [] then q else JoinAll(Joined(q, due[0]), due[1..])
  }

  /** Whether a wake-up of queue wq reaches a task: it waits for wq or, in select, for a queue of the same hash. */
  predicate Called(st: TaskState, waits: int, wq: int, polled: bool, all: bool) {
    (waits == wq || polled) && (st.Interruptible? || (all && st.Uninterruptible?))
  }

  /** The tasks below k that a wake-up reaches, in order. */
  function CalledTo(states: seq<TaskState>, waits: seq<int>, wq: int, polled: seq<bool>, all: bool,
      k: nat): (r: seq<nat>)
    requires k <= |states| == |waits| == |polled|
    ensures forall t :: t in r <==> 0 <= t < k && Called(states[t], waits[t], wq, polled[t], all)
  {
    if k == 0 then []
    else CalledTo(states, waits, wq, polled, all, k - 1)
         + if Called(states[k - 1], waits[k - 1], wq, polled[k - 1], all) then [k - 1] else []
  }

  /** The states after a wake-up has looked at the tasks below k. */
  function Awake(states: seq<TaskState>, waits: seq<int>, wq: int, polled: seq<bool>, all: bool,
      k: nat): (r: seq<TaskState>)
    requires k <= |states| == |waits| == |polled|
    ensures |r| == |states|
    ensures forall t :: 0 <= t < |states| ==>
              r[t] == if t < k && Called(states[t], waits[t], wq, polled[t], all) then Running else states[t]
  {
    seq(|states|, t requires 0 <= t < |states| =>
      if t < k && Called(states[t], waits[t], wq, polled[t], all) then Running else states[t])
  }

  lemma AwakeStep(states: seq<TaskState>, waits: seq<int>, wq: int, polled: seq<bool>, all: bool, k: nat)
    requires k < |states| == |waits| == |polled|
    ensures var r := Awake(states, waits, wq, polled, all, k);
            r[k] == states[k] && Awake(states, waits, wq, polled, all, k + 1)
            == if Called(states[k], waits[k], wq, polled[k], all) then r[k := Running] else r
  {}

  lemma {:induction false} JoinPush(q: seq<nat>, due: seq<nat>, t: nat)
    ensures JoinAll(q, due + [t]) == Joined(JoinAll(q, due), t)
    decreases |due|
  {
    if due == [] {
      assert [] + [t] == [t] && [t][1..] == [];
    } else {
      assert (due + [t])[1..] == due[1..] + [t];
      JoinPush(Joined(q, due[0]), due[1..], t);
    }
  }

  /** A wake-up has come to task k. */
  ghost predicate Woke(q0: seq<nat>, states: seq<TaskState>, waits: seq<int>, wq: int, polled: seq<bool>, all: bool,
      k: nat,
                       q: seq<nat>, now: seq<TaskState>)
    requires k <= |states| == |waits| == |polled|
  {
    now == Awake(states, waits, wq, polled, all, k) && q == JoinAll(q0, CalledTo(states, waits, wq, polled, all, k))
  }

  lemma WokeStep(q0: seq<nat>, states: seq<TaskState>, waits: seq<int>, wq: int, polled: seq<bool>, all: bool, k: nat,
                 q: seq<nat>, now: seq<TaskState>)
    requires k < |states| == |waits| == |polled| && Woke(q0, states, waits, wq, polled, all, k, q, now)
    ensures |now| == |states| &&
            if Called(now[k], waits[k], wq, polled[k], all)
            then Woke(q0, states, waits, wq, polled, all, k + 1, Joined(q, k), now[k := Running])
            else Woke(q0, states, waits, wq, polled, all, k + 1, q, now)
  {
    JoinStep(q0, states, waits, wq, polled, all, k);
    AwakeStep(states, waits, wq, polled, all, k);
  }

  lemma JoinStep(q: seq<nat>, states: seq<TaskState>, waits: seq<int>, wq: int, polled: seq<bool>, all: bool, k: nat)
    requires k < |states| == |waits| == |polled|
    ensures JoinAll(q, CalledTo(states, waits, wq, polled, all, k + 1))
            == if Called(states[k], waits[k], wq, polled[k], all)
                then Joined(JoinAll(q, CalledTo(states, waits, wq, polled, all, k)), k)
               else JoinAll(q, CalledTo(states, waits, wq, polled, all, k))
  {
    var r := CalledTo(states, waits, wq, polled, all, k);
    assert r + [] == r;
    JoinPush(q, r, k);
  }

  /** Waking tasks only appends to the queue: what was on it stays where it was, what was woken is on it. */
  lemma {:induction false} JoinAppends(q: seq<nat>, due: seq<nat>)
    requires Queue(q) && forall i :: 0 <= i < |due| ==> due[i] < MAX_TASKS
    ensures var r := JoinAll(q, due); Queue(r) && q <= r && forall t :: t in r <==> t in q || (t in due && t != 0)
    decreases |due|
  {
    if due != [] {
      var d := due[0];
      assert due == [d] + due[1..];
      JoinAppends(Joined(q, d), due[1..]);
      assert forall t :: t in Joined(q, d) <==> t in q || (t == d && t != 0);
    }
  }

  /** After wake_up no task is left asleep on the queue: those that were are runnable and on the ring. */
  lemma WakesAll(q: seq<nat>, states: seq<TaskState>, waits: seq<int>, wq: int, polled: seq<bool>, t: nat)
    requires |states| == |waits| == |polled| == MAX_TASKS && Queue(q) && t < MAX_TASKS && waits[t] == wq
    ensures var now := Awake(states, waits, wq, polled, true, MAX_TASKS)[t];
            && !now.Interruptible? && !now.Uninterruptible?
            && (now != states[t] ==> t == 0 || t in JoinAll(q, CalledTo(states, waits, wq, polled, true, MAX_TASKS)))
  {
    var due := CalledTo(states, waits, wq, polled, true, MAX_TASKS);
    assert forall i :: 0 <= i < |due| ==> due[i] in due;
    JoinAppends(q, due);
  }

  /** Every task but the idle task and one is on the ring if and only if it is runnable. */
  ghost predicate Tidy(q: seq<nat>, states: seq<TaskState>, except: nat) {
    forall t :: 0 < t < |states| && t != except ==> (t in q <==> states[t].Running?)
  }

  /** Who is woken, and who joins the ring. */
  lemma AwakeMeans(q: seq<nat>, states: seq<TaskState>, waits: seq<int>, wq: int, polled: seq<bool>, all: bool)
    requires |states| == |waits| == |polled| == MAX_TASKS && Queue(q)
    ensures var now := Awake(states, waits, wq, polled, all, MAX_TASKS);
            forall t :: 0 <= t < MAX_TASKS ==>
              now[t] == if (waits[t] == wq || polled[t])
                           && (states[t].Interruptible? || (all && states[t].Uninterruptible?))
                        then Running else states[t]
    ensures var now := Awake(states, waits, wq, polled, all, MAX_TASKS);
            var r := JoinAll(q, CalledTo(states, waits, wq, polled, all, MAX_TASKS));
            && Queue(r) && q <= r
            && (forall t :: 0 < t < MAX_TASKS ==> (t in r <==> t in q || now[t] != states[t]))
            && (forall c :: Tidy(q, states, c) ==> Tidy(r, now, c))
  {
    var due := CalledTo(states, waits, wq, polled, all, MAX_TASKS);
    assert forall i :: 0 <= i < |due| ==> due[i] in due;
    JoinAppends(q, due);
  }

  /** run_timer_list and the switch on the caller's state: who is runnable then, and who is on the ring. */
  lemma SettleMeans(q0: seq<nat>, was: seq<TaskState>, prev: nat, due: seq<nat>, rouse: bool,
                    mid: seq<TaskState>, q: seq<nat>, now: seq<TaskState>)
    requires Sane(q0, prev) && |was| == |mid| == MAX_TASKS && prev < MAX_TASKS
    requires forall i :: 0 <= i < |due| ==> due[i] < MAX_TASKS
    requires forall t :: 0 <= t < MAX_TASKS ==> mid[t] == if t in due then Running else was[t]
    requires now == if mid[prev].Interruptible? && rouse then mid[prev := Running] else mid
    requires var woken := JoinAll(q0, due);
             q == if Drops(was[prev], prev, due, rouse) then Without(woken, prev) else woken
    ensures now[prev] == if prev in due || (was[prev].Interruptible? && rouse) then Running else was[prev]
    ensures prev != 0 ==> (prev in q <==> now[prev].Running?)
    ensures forall t :: 0 <= t < MAX_TASKS && t != prev ==> now[t] == if t in due then Running else was[t]
    ensures forall t :: 0 < t < MAX_TASKS && t != prev ==> (t in q <==> t in q0 || t in due)
    ensures Tidy(q0, was, prev) ==> Tidy(q, now, 0)
  {
    JoinAppends(q0, due);
    LeftIs(JoinAll(q0, due), prev, Drops(was[prev], prev, due, rouse));
    if Tidy(q0, was, prev) { SettledTidy(q0, was, prev, due, q, now); }
  }

  lemma SettledTidy(q0: seq<nat>, was: seq<TaskState>, prev: nat, due: seq<nat>, q: seq<nat>, now: seq<TaskState>)
    requires Tidy(q0, was, prev) && |was| == |now| == MAX_TASKS && prev < MAX_TASKS
    requires prev != 0 ==> (prev in q <==> now[prev].Running?)
    requires forall t :: 0 <= t < MAX_TASKS && t != prev ==> now[t] == if t in due then Running else was[t]
    requires forall t :: 0 < t < MAX_TASKS && t != prev ==> (t in q <==> t in q0 || t in due)
    ensures Tidy(q, now, 0)
  {
    forall t | 0 < t < MAX_TASKS ensures t in q <==> now[t].Running? {
      if t != prev { assert t in q0 <==> was[t].Running?; }
    }
  }

  /** The first k timers have run out. */
  ghost predicate Timed(q0: seq<nat>, was: seq<TaskState>, due: seq<nat>, k: nat, q: seq<nat>, now: seq<TaskState>)
    requires k <= |due|
  {
    && |now| == |was| && JoinAll(q, due[k..]) == JoinAll(q0, due)
    && forall t :: 0 <= t < |was| ==> now[t] == if t in due[..k] then Running else was[t]
  }

  lemma TimedStep(q0: seq<nat>, was: seq<TaskState>, due: seq<nat>, k: nat, q: seq<nat>, now: seq<TaskState>)
    requires k < |due| && Timed(q0, was, due, k, q, now) && due[k] < |was|
    ensures Timed(q0, was, due, k + 1, Joined(q, due[k]), now[due[k] := Running])
  {
    assert due[k..][1..] == due[k + 1..] && due[..k + 1] == due[..k] + [due[k]];
  }

  lemma TimedAll(q0: seq<nat>, was: seq<TaskState>, due: seq<nat>, q: seq<nat>, now: seq<TaskState>)
    requires Timed(q0, was, due, |due|, q, now)
    ensures q == JoinAll(q0, due)
    ensures forall t :: 0 <= t < |was| ==> now[t] == if t in due then Running else was[t]
  {
    assert due[..|due|] == due && due[|due|..] == [];
  }

  /** Whether schedule takes its caller off the run queue. */
  predicate Drops(st: TaskState, t: nat, due: seq<nat>, rouse: bool) {
    t != 0 && t !in due && !st.Running? && !(st.Interruptible? && rouse)
  }

  /** The scheduling fields of the task table. */
  class Scheduler {
    const nextRun: array<int>
    const prevRun: array<int>
    const state: array<TaskState>
    const waitpt: array<int>
    var nrRunning: nat
    var current: nat
    ghost var q: seq<nat>

    /** The state at boot: only the idle task, linked to itself. */
    constructor ()
      ensures Valid() && Tidy(q, state[..], 0) && q == [] && current == 0
      ensures fresh(nextRun) && fresh(prevRun) && fresh(state) && fresh(waitpt)
    {
      nextRun := new int[MAX_TASKS](i => if i == 0 then 0 else NONE);
      prevRun := new int[MAX_TASKS](i => if i == 0 then 0 else NONE);
      state := new TaskState[MAX_TASKS](i => if i == 0 then Running else Unused);
      waitpt := new int[MAX_TASKS](_ => 0);
      nrRunning, current, q := 0, 0, [];
    }

    ghost predicate Shaped()
      reads this
    {
      nextRun.Length == prevRun.Length == state.Length == waitpt.Length == MAX_TASKS
      && nextRun != prevRun && waitpt != nextRun && waitpt != prevRun
    }

    ghost predicate Valid()
      reads this, nextRun, prevRun
    {
      Shaped() && Ring(nextRun[..], prevRun[..], q) && nrRunning == |q| && current < MAX_TASKS
    }

    /** add_to_runqueue. */
    method AddToRunqueue(t: nat)
      requires Valid() && 0 < t < MAX_TASKS && t !in q
      modifies nextRun, prevRun, this`nrRunning, this`q
      ensures Valid() && q == old(q) + [t]
    {
      AddKeepsRing(nextRun[..], prevRun[..], q, t);
      ghost var n, p := AddedNext(nextRun[..], prevRun[..], t), AddedPrev(prevRun[..], t);
      nrRunning := nrRunning + 1;
      var last := prevRun[0];
      prevRun[t] := last;
      nextRun[last] := t;
      nextRun[t] := 0;
      prevRun[0] := t;
      q := q + [t];
      assert nextRun[..] == n && prevRun[..] == p;
    }

    /** del_from_runqueue. The idle task stays. */
    method DelFromRunqueue(t: nat)
      requires Valid() && t < MAX_TASKS && (t == 0 || t in q)
      modifies nextRun, prevRun, this`nrRunning, this`q
      ensures Valid() && q == if t == 0 then old(q) else Without(old(q), t)
    {
      if t == 0 { return; }
      ghost var i := IndexOf(q, t);
      DeleteKeepsRing(nextRun[..], prevRun[..], q, i);
      WithoutAt(q, i);
      ghost var n, p := DeletedNext(nextRun[..], prevRun[..], t), DeletedPrev(nextRun[..], prevRun[..], t);
      nrRunning := nrRunning - 1;
      prevRun[nextRun[t]] := prevRun[t];
      nextRun[prevRun[t]] := nextRun[t];
      nextRun[t] := NONE;
      prevRun[t] := NONE;
      q := q[..i] + q[i + 1..];
      assert nextRun[..] == n && prevRun[..] == p;
    }

    /** wake_up_process. */
    method WakeUpProcess(t: nat)
      requires Valid() && t < MAX_TASKS
      modifies nextRun, prevRun, state, this`nrRunning, this`q
      ensures Valid() && q == Joined(old(q), t) && state[..] == old(state[..])[t := Running]
      ensures old(Tidy(q, state[..], current)) ==> Tidy(q, state[..], current)
    {
      OnRingIff(nextRun[..], prevRun[..], q, t);
      state[t] := Running;
      if nextRun[t] == NONE { AddToRunqueue(t); }
      assert state[..] == old(state[..])[t := Running];
      assert forall u :: u in q <==> u in old(q) || (u == t && t != 0);
    }

    /** _wake_up: every task that wq reaches is made runnable, in table order. */
    method WakeUp(wq: int, polled: seq<bool>, all: bool)
      requires Valid() && |polled| == MAX_TASKS
      modifies nextRun, prevRun, state, this`nrRunning, this`q
      ensures Valid()
      ensures var was, now := old(state[..]), state[..];
              && (forall t :: 0 <= t < MAX_TASKS ==>
                    now[t] == if (waitpt[t] == wq || polled[t])
                                 && (was[t].Interruptible? || (all && was[t].Uninterruptible?))
                              then Running else was[t])
              && old(q) <= q
              && (forall t :: 0 < t < MAX_TASKS ==> (t in q <==> t in old(q) || now[t] != was[t]))
      ensures q == JoinAll(old(q), CalledTo(old(state[..]), waitpt[..], wq, polled, all, MAX_TASKS))
      ensures old(Tidy(q, state[..], current)) ==> Tidy(q, state[..], current)
    {
      AwakeMeans(q, state[..], waitpt[..], wq, polled, all);
      WakeEach(wq, polled, all);
    }

    /** The loop of _wake_up. */
    method WakeEach(wq: int, polled: seq<bool>, all: bool)
      requires Valid() && |polled| == MAX_TASKS
      modifies nextRun, prevRun, state, this`nrRunning, this`q
      ensures Valid()
      ensures state[..] == Awake(old(state[..]), waitpt[..], wq, polled, all, MAX_TASKS)
      ensures q == JoinAll(old(q), CalledTo(old(state[..]), waitpt[..], wq, polled, all, MAX_TASKS))
    {
      ghost var states, waits, q0 := state[..], waitpt[..], q;
      assert Woke(q0, states, waits, wq, polled, all, 0, q, state[..]);
      var t := 0;
      while t < MAX_TASKS
        invariant 0 <= t <= MAX_TASKS && Valid() && waitpt[..] == waits
        invariant Woke(q0, states, waits, wq, polled, all, t, q, state[..])
      {
        WokeStep(q0, states, waits, wq, polled, all, t, q, state[..]);
        assert waitpt[t] == waits[t];
        WakeIf(t, wq, polled[t], all);
        t := t + 1;
      }
    }

    /** The body of the loop in _wake_up. */
    method WakeIf(t: nat, wq: int, polled: bool, all: bool)
      requires Valid() && t < MAX_TASKS
      modifies nextRun, prevRun, state, this`nrRunning, this`q
      ensures Valid()
      ensures var called := Called(old(state[t]), waitpt[t], wq, polled, all);
              q == (if called then Joined(old(q), t) else old(q))
              && state[..] == if called then old(state[..])[t := Running] else old(state[..])
    {
      if waitpt[t] == wq || polled {
        if state[t] == Interruptible || (all && state[t] == Uninterruptible) {
          WakeUpProcess(t);
        }
      }
    }

    /** schedule. due are the tasks whose timers run out in run_timer_list; rouse says that the caller has a
      * signal or an expired timeout; permitted says that a switch is allowed here. */
    method Schedule(due: seq<nat>, rouse: bool, permitted: bool)
      requires Valid() && (current == 0 || current in q) && forall i :: 0 <= i < |due| ==> due[i] < MAX_TASKS
      modifies nextRun, prevRun, state, this`nrRunning, this`q, this`current
      ensures Valid()
      ensures old(state[current]).Exiting? ==> q == old(q) && current == old(current)
      ensures !old(state[current]).Exiting? ==>
                var woken := JoinAll(old(q), due);
                q == (if Drops(old(state[current]), old(current), due, rouse) then Without(woken, old(current))
                    else woken)
                && current == if permitted then Chosen(old(q), q, old(current)) else old(current)
      ensures !old(state[current]).Exiting? ==>
                var was, now, prev := old(state[..]), state[..], old(current);
                && now[prev] == (if prev in due || (was[prev].Interruptible? && rouse) then Running else was[prev])
                && (prev != 0 ==> (prev in q <==> now[prev].Running?))
                && (forall t :: 0 <= t < MAX_TASKS && t != prev ==> now[t] == if t in due then Running else was[t])
                && (forall t :: 0 < t < MAX_TASKS && t != prev ==> (t in q <==> t in old(q) || t in due))
      ensures !old(state[current]).Exiting? && old(Tidy(q, state[..], current)) ==> Tidy(q, state[..], 0)
      ensures old(state[current]).Exiting? ==> state[..] == old(state[..])
      ensures !old(state[current]).Exiting? && permitted ==> Sane(q, current) && (current == 0 <==> q == [])
      ensures !old(state[current]).Exiting? && permitted && due == [] ==>
                (q, current) == Go(old(q), old(current), Drops(old(state[current]), old(current), due, rouse))
    {
      if state[current] == Exiting { return; }
      Reschedule(due, rouse, permitted);
    }

    /** schedule for a caller that is not exiting. */
    method Reschedule(due: seq<nat>, rouse: bool, permitted: bool)
      requires Valid() && (current == 0 || current in q) && forall i :: 0 <= i < |due| ==> due[i] < MAX_TASKS
      modifies nextRun, prevRun, state, this`nrRunning, this`q, this`current
      ensures Valid()
      ensures var woken := JoinAll(old(q), due);
              q == (if Drops(old(state[current]), old(current), due, rouse) then Without(woken, old(current)) else woken)
              && current == if permitted then Chosen(old(q), q, old(current)) else old(current)
      ensures var was, now, prev := old(state[..]), state[..], old(current);
              && now[prev] == (if prev in due || (was[prev].Interruptible? && rouse) then Running else was[prev])
              && (prev != 0 ==> (prev in q <==> now[prev].Running?))
              && (forall t :: 0 <= t < MAX_TASKS && t != prev ==> now[t] == if t in due then Running else was[t])
              && (forall t :: 0 < t < MAX_TASKS && t != prev ==> (t in q <==> t in old(q) || t in due))
      ensures old(Tidy(q, state[..], current)) ==> Tidy(q, state[..], 0)
      ensures permitted ==> Sane(q, current) && (current == 0 <==> q == [])
    {
      var prev := current;
      var next := Follower(prev);
      Settle(prev, due, rouse);
      JoinAppends(old(q), due);
      next := PassIdle(next);
      IdleIffAlone(old(q), JoinAll(old(q), due), prev, Drops(old(state[current]), prev, due, rouse));
      if next != current && permitted { current := next; }
    }

    /** prev->next_run. */
    method Follower(prev: nat) returns (next: nat)
      requires Valid() && prev < MAX_TASKS && (prev == 0 || prev in q)
      ensures next == Round(q, Place(q, prev) + 1) < MAX_TASKS
    {
      assert LinkAt(nextRun[..], prevRun[..], q, Place(q, prev));
      next := nextRun[prev];
    }

    /** schedule up to the end of the switch on the caller's state. */
    method Settle(prev: nat, due: seq<nat>, rouse: bool)
      requires Valid() && prev < MAX_TASKS && Sane(q, prev) && forall i :: 0 <= i < |due| ==> due[i] < MAX_TASKS
      modifies nextRun, prevRun, state, this`nrRunning, this`q
      ensures Valid()
      ensures var woken := JoinAll(old(q), due);
              q == if Drops(old(state[prev]), prev, due, rouse) then Without(woken, prev) else woken
      ensures var was, now := old(state[..]), state[..];
              && now[prev] == (if prev in due || (was[prev].Interruptible? && rouse) then Running else was[prev])
              && (prev != 0 ==> (prev in q <==> now[prev].Running?))
              && (forall t :: 0 <= t < MAX_TASKS && t != prev ==> now[t] == if t in due then Running else was[t])
              && (forall t :: 0 < t < MAX_TASKS && t != prev ==> (t in q <==> t in old(q) || t in due))
      ensures old(Tidy(q, state[..], prev)) ==> Tidy(q, state[..], 0)
    {
      ghost var q0, was := q, state[..];
      RunTimers(due);
      JoinAppends(q0, due);
      ghost var mid := state[..];
      LeaveIfAsleep(prev, rouse);
      SettleMeans(q0, was, prev, due, rouse, mid, q, state[..]);
    }

    /** The switch on the caller's state. */
    method LeaveIfAsleep(prev: nat, rouse: bool)
      requires Valid() && prev < MAX_TASKS && (prev == 0 || prev in q)
      modifies nextRun, prevRun, state, this`nrRunning, this`q
      ensures Valid() && q == if Drops(old(state[prev]), prev, [], rouse) then Without(old(q), prev) else old(q)
      ensures state[..] == if old(state[prev]).Interruptible? && rouse then old(state[..])[prev := Running]
                           else old(state[..])
    {
      if state[prev] == Interruptible && rouse {
        state[prev] := Running;
        assert state[..] == old(state[..])[prev := Running];
      } else if state[prev] != Running {
        DelFromRunqueue(prev);
      }
    }

    /** The loop that passes over the idle task. */
    method PassIdle(from: nat) returns (next: nat)
      requires Valid()
      ensures next == if from == 0 then Round(q, 1) else from
    {
      next := from;
      assert LinkAt(nextRun[..], prevRun[..], q, 0);
      while next == 0 && nrRunning > 0
        invariant next == from || (from == 0 && next == Round(q, 1))
        decreases next == 0
      {
        next := nextRun[next];
      }
    }

    /** run_timer_list, as far as waking goes. */
    method RunTimers(due: seq<nat>)
      requires Valid() && forall i :: 0 <= i < |due| ==> due[i] < MAX_TASKS
      modifies nextRun, prevRun, state, this`nrRunning, this`q
      ensures Valid() && q == JoinAll(old(q), due)
      ensures forall t :: 0 <= t < MAX_TASKS ==> state[t] == if t in due then Running else old(state[t])
    {
      ghost var q0, was := q, state[..];
      var k := 0;
      while k < |due|
        invariant 0 <= k <= |due| && Valid() && Timed(q0, was, due, k, q, state[..])
      {
        TimedStep(q0, was, due, k, q, state[..]);
        WakeUpProcess(due[k]);
        k := k + 1;
      }
      TimedAll(q0, was, due, q, state[..]);
      assert forall t :: 0 <= t < MAX_TASKS ==> state[t] == state[..][t];
    }
  }

  // ---------------------------------------------------------------- runs

  /** The current task goes to sleep on a queue, or a clock tick or a system call's end calls schedule; somebody wakes a
    * queue or one task. */
  datatype Event =
    | Doze(state: TaskState, wq: int, due: seq<nat>, rouse: bool)
    | Tick(due: seq<nat>, permitted: bool)
    | Wake(wq: int, polled: seq<bool>, all: bool)
    | WakeOne(t: nat)

  predicate Proper(e: Event) {
    match e
    case Doze(st, _, due, _) => !st.Exiting? && forall i :: 0 <= i < |due| ==> due[i] < MAX_TASKS
    case Tick(due, _) => forall i :: 0 <= i < |due| ==> due[i] < MAX_TASKS
    case Wake(_, polled, _) => |polled| == MAX_TASKS
    case WakeOne(t) => t < MAX_TASKS
  }

  /** The current task is the idle task or on the ring, and every other task is on the ring exactly if it is
    * runnable. */
  ghost predicate Settled(s: Scheduler)
    reads s, s.nextRun, s.prevRun, s.state
  {
    s.Valid() && Sane(s.q, s.current) && Tidy(s.q, s.state[..], 0) && s.state[0].Running?
  }

  /** What the scheduler knows at one time. */
  datatype View = View(states: seq<TaskState>, waits: seq<int>, q: seq<nat>, current: nat)

  ghost function Now(s: Scheduler): View
    reads s, s.state, s.waitpt
  {
    View(s.state[..], s.waitpt[..], s.q, s.current)
  }

  /** The choice of schedule, where it may switch. */
  ghost predicate Switched(a: View, permitted: bool, z: View) {
    z.current == (if permitted then Chosen(a.q, z.q, a.current) else a.current)
    && (permitted ==> (z.current == 0 <==> z.q == []))
  }

  /** What an event does to the states and the current task. Task 0 never sleeps: sleep_on panics. */
  ghost predicate Does(a: View, e: Event, z: View) {
    && |z.states| == |a.states| == |a.waits| && a.current < |a.waits|
    && match e
       case Doze(st, wq, due, rouse) =>
         if a.current == 0 then z == a
         else z.waits == a.waits[a.current := wq] && Switched(a, true, z)
              && forall t :: 0 <= t < |a.states| ==>
                   z.states[t] == if t in due || (t == a.current && st.Interruptible? && rouse) then Running
                                  else if t == a.current then st else a.states[t]
       case Tick(due, permitted) =>
         z.waits == a.waits && Switched(a, permitted, z)
         && forall t :: 0 <= t < |a.states| ==> z.states[t] == if t in due then Running else a.states[t]
       case Wake(wq, polled, all) =>
         z.waits == a.waits && z.current == a.current && a.q <= z.q && |polled| == |a.states|
         && forall t :: 0 <= t < |a.states| ==>
              z.states[t] == if (a.waits[t] == wq || polled[t])
                                && (a.states[t].Interruptible? || (all && a.states[t].Uninterruptible?))
                             then Running else a.states[t]
       case WakeOne(t) =>
         z.waits == a.waits && z.current == a.current && a.q <= z.q
         && t < |a.states| && z.states == a.states[t := Running]
  }

  method DozeStep(s: Scheduler, st: TaskState, wq: int, due: seq<nat>, rouse: bool)
    requires Settled(s) && Proper(Doze(st, wq, due, rouse)) && s.current != 0
    modifies s, s.nextRun, s.prevRun, s.state, s.waitpt
    ensures Settled(s) && Does(old(Now(s)), Doze(st, wq, due, rouse), Now(s))
  {
    ghost var was := s.state[..];
    s.state[s.current] := st;
    s.waitpt[s.current] := wq;
    assert s.state[..] == was[s.current := st] && s.waitpt[..] == old(s.waitpt[..])[s.current := wq];
    s.Schedule(due, rouse, true);
    assert s.state[..][0] == s.state[0];
  }

  method TickStep(s: Scheduler, due: seq<nat>, permitted: bool)
    requires Settled(s) && Proper(Tick(due, permitted))
    modifies s, s.nextRun, s.prevRun, s.state, s.waitpt
    ensures Settled(s) && Does(old(Now(s)), Tick(due, permitted), Now(s))
  {
    assert s.state[..][s.current] == s.state[s.current] && s.state[s.current].Running?;
    s.Schedule(due, false, permitted);
    assert s.state[..][0] == s.state[0];
  }

  method WakeStep(s: Scheduler, wq: int, polled: seq<bool>, all: bool)
    requires Settled(s) && Proper(Wake(wq, polled, all))
    modifies s, s.nextRun, s.prevRun, s.state, s.waitpt
    ensures Settled(s) && Does(old(Now(s)), Wake(wq, polled, all), Now(s))
  {
    assert forall c :: Tidy(s.q, s.state[..], 0) ==> Tidy(s.q, s.state[..], c);
    s.WakeUp(wq, polled, all);
    assert s.state[..][0] == s.state[0];
  }

  /** One event. */
  method Step(s: Scheduler, e: Event)
    requires Settled(s) && Proper(e)
    modifies s, s.nextRun, s.prevRun, s.state, s.waitpt
    ensures Settled(s) && Does(old(Now(s)), e, Now(s))
  {
    match e {
      case Doze(st, wq, due, rouse) => if s.current != 0 { DozeStep(s, st, wq, due, rouse); }
      case Tick(due, permitted) => TickStep(s, due, permitted);
      case Wake(wq, polled, all) => WakeStep(s, wq, polled, all);
      case WakeOne(t) => s.WakeUpProcess(t);
    }
  }

  /** The views are those before and after each of the events. */
  ghost predicate Trace(views: seq<View>, events: seq<Event>) {
    |views| == |events| + 1 && forall i :: 0 <= i < |events| ==> Does(views[i], events[i], views[i + 1])
  }

  /** Over any run of sleeping, waking and switching, each event has its effect and the tasks on the ring are exactly
    * the runnable ones. */
  method Run(s: Scheduler, events: seq<Event>) returns (ghost views: seq<View>)
    requires Settled(s) && forall e :: e in events ==> Proper(e)
    modifies s, s.nextRun, s.prevRun, s.state, s.waitpt
    ensures Settled(s) && forall t :: 0 < t < MAX_TASKS ==> (t in s.q <==> s.state[t].Running?)
    ensures Trace(views, events) && views[0] == old(Now(s)) && views[|events|] == Now(s)
  {
    views := [Now(s)];
    for i := 0 to |events|
      invariant Settled(s) && Trace(views, events[..i]) && views[0] == old(Now(s)) && views[i] == Now(s)
    {
      Step(s, events[i]);
      assert events[..i + 1][..i] == events[..i];
      views := views + [Now(s)];
    }
    assert events[..|events|] == events;
    assert forall t :: 0 < t < MAX_TASKS ==> s.state[t] == s.state[..][t];
  }
}
