/** Round-robin scheduling decisions, apart from registers and memory. */
module Sched {
  import opened Words

  const MAX_TASKS: nat := 16
  const SCHED_SLICE: nat := 2

  datatype TaskState = READY | RUNNING | BLOCKED | DEAD

  datatype Task = Task(id: nat, state: TaskState, stackBase: nat, rsp: nat)

  /** The tasks below s_count, the running one, and the 32-bit tick counter. */
  datatype Scheduler = Scheduler(tasks: seq<Task>, current: nat, ticks: nat)

  predicate IsReady(ts: seq<Task>, i: int) {
    0 <= i < |ts| && ts[i].state == READY
  }

  function SetState(ts: seq<Task>, i: nat, st: TaskState): seq<Task>
    requires i < |ts|
  {
    ts[i := ts[i].(state := st)]
  }

  /** A running task becomes ready at the end of its slice. */
  function Demote(ts: seq<Task>, cur: nat): seq<Task>
    requires cur < |ts|
  {
    if ts[cur].state == RUNNING then SetState(ts, cur, READY) else ts
  }

  /** The task d places after cur, cyclically: `(cur + d) % n`. */
  function After(cur: nat, d: nat, n: nat): (i: nat)
    requires cur < n && d <= n + 1
    ensures i < n
  {
    if cur + d < n then cur + d else if cur + d < 2 * n then cur + d - n else cur + d - 2 * n
  }

  lemma NextModulo(i: nat, n: nat)
    requires i < n
    ensures (i + 1) % n == if i + 1 < n then i + 1 else 0
  {
    if i + 1 < n {
      assert (i + 1) % n == i + 1;
    }
  }

  /** Distance from cur to the first ready task after it; n + 1 when the search has gone all the way round. */
  function ReadyDistance(ts: seq<Task>, cur: nat, d: nat): (r: nat)
    requires cur < |ts| && d <= |ts| + 1
    ensures d <= r <= |ts| + 1
    ensures r <= |ts| ==> IsReady(ts, After(cur, r, |ts|))
    ensures forall e :: d <= e < r ==> !IsReady(ts, After(cur, e, |ts|))
    decreases |ts| + 1 - d
  {
    if d > |ts| || IsReady(ts, After(cur, d, |ts|)) then d else ReadyDistance(ts, cur, d + 1)
  }

  /** The task the search settles on. */
  function Choice(ts: seq<Task>, cur: nat): nat
    requires cur < |ts|
  {
    After(cur, ReadyDistance(ts, cur, 1), |ts|)
  }

  predicate SliceEnds(s: Scheduler) {
    (s.ticks + 1) % TWO_32 % SCHED_SLICE == 0 && |s.tasks| > 1
  }

  /** The scheduler after one call of sched_tick. */
  function Tick(s: Scheduler): Scheduler
    requires s.current < |s.tasks|
  {
    var t := s.(ticks := (s.ticks + 1) % TWO_32);
    if !SliceEnds(s) then t
    else
      var demoted := Demote(s.tasks, s.current);
      var next := Choice(demoted, s.current);
      t.(tasks := SetState(demoted, next, RUNNING), current := next)
  }

  /** The scheduler after sched_create_task has got a stack for the new task. */
  function Create(s: Scheduler, stackBase: nat, rsp: nat): Scheduler {
    s.(tasks := s.tasks + [Task(|s.tasks|, READY, stackBase, rsp)])
  }

  /** Exactly one task is running, it is the current one, and the others are ready. */
  ghost predicate Sound(s: Scheduler) {
    && s.current < |s.tasks| <= MAX_TASKS && s.ticks < TWO_32
    && forall i :: 0 <= i < |s.tasks| ==>
         s.tasks[i].id == i && s.tasks[i].state == if i == s.current then RUNNING else READY
  }

  lemma Cyclic(n: nat, cur: nat, i: nat)
    requires cur < n && i < n
    ensures exists d :: 1 <= d <= n && After(cur, d, n) == i
  {
    var d := if i > cur then i - cur else i - cur + n;
    assert After(cur, d, n) == i;
  }

  /** The search finds a ready task, the cyclically first one after the current, if and only if there is one after
      the demotion. Otherwise it falls through to the task after the current one, which is not ready. */
  lemma ChoiceIsFirstReady(ts: seq<Task>, cur: nat)
    requires cur < |ts|
    ensures IsReady(ts, Choice(ts, cur)) <==> exists i :: IsReady(ts, i)
    ensures (exists i :: IsReady(ts, i)) ==>
              exists d :: 1 <= d <= |ts| && Choice(ts, cur) == After(cur, d, |ts|) &&
                          forall e :: 1 <= e < d ==> !IsReady(ts, After(cur, e, |ts|))
    ensures !(exists i :: IsReady(ts, i)) ==> Choice(ts, cur) == After(cur, 1, |ts|)
  {
    var r := ReadyDistance(ts, cur, 1);
    if i :| IsReady(ts, i) {
      Cyclic(|ts|, cur, i);
      var d :| 1 <= d <= |ts| && After(cur, d, |ts|) == i;
      assert r <= d;
    }
  }

  /** When all tasks are ready the next one in the ring is chosen. */
  lemma NextInRing(ts: seq<Task>, cur: nat)
    requires cur < |ts| && forall i :: 0 <= i < |ts| ==> ts[i].state == READY
    ensures Choice(ts, cur) == if cur + 1 < |ts| then cur + 1 else 0
  {
    var next := if cur + 1 < |ts| then cur + 1 else 0;
    assert After(cur, 1, |ts|) == next;
  }

  /** The 32-bit counter wraps, and its parity alternates also then. */
  lemma NextTick(ticks: nat)
    requires ticks < TWO_32
    ensures (ticks + 1) % TWO_32 == if ticks == 0xFFFF_FFFF then 0 else ticks + 1
    ensures (ticks + 1) % TWO_32 % 2 == 1 - ticks % 2
  {
  }

  /** One call of sched_tick: every second one passes the turn to the next task in the ring. */
  lemma TickSound(s: Scheduler)
    requires Sound(s)
    ensures Sound(Tick(s))
    ensures s.ticks % 2 == 0 ==> Tick(s).current == s.current && Tick(s).tasks == s.tasks
    ensures s.ticks % 2 == 1 ==> Tick(s).current == (s.current + 1) % |s.tasks|
    ensures Tick(s).ticks == (if s.ticks == 0xFFFF_FFFF then 0 else s.ticks + 1)
    ensures !SliceEnds(s) ==> Tick(s).current == s.current
    ensures SliceEnds(s) ==> Tick(s).current == if s.current + 1 < |s.tasks| then s.current + 1 else 0
    ensures |Tick(s).tasks| == |s.tasks|
    ensures forall i :: 0 <= i < |s.tasks| ==>
              Tick(s).tasks[i].stackBase == s.tasks[i].stackBase && Tick(s).tasks[i].rsp == s.tasks[i].rsp
  {
    NextModulo(s.current, |s.tasks|);
    NextTick(s.ticks);
    if SliceEnds(s) {
      var demoted := Demote(s.tasks, s.current);
      NextInRing(demoted, s.current);
    }
  }

  /** For any mix of states: the running task becomes ready unless it is chosen again, the chosen one runs, and every
      other task keeps its state, so a blocked or dead task is never chosen while some task is ready. */
  lemma TickStates(s: Scheduler, i: nat)
    requires s.current < |s.tasks| && i < |s.tasks| && SliceEnds(s)
    ensures var ts, t := s.tasks, Tick(s);
            && t.current < |t.tasks| == |ts|
            && t.tasks[i].state ==
                 (if i == t.current then RUNNING
                  else if i == s.current && ts[i].state == RUNNING then READY
                  else ts[i].state)
            && ((exists k :: 0 <= k < |ts| && (ts[k].state == READY || (k == s.current && ts[k].state == RUNNING))) ==>
                  ts[t.current].state == READY || (t.current == s.current && ts[t.current].state == RUNNING))
  {
    var demoted := Demote(s.tasks, s.current);
    ChoiceIsFirstReady(demoted, s.current);
    if k :| 0 <= k < |s.tasks| && (s.tasks[k].state == READY || (k == s.current && s.tasks[k].state == RUNNING)) {
      assert IsReady(demoted, k);
    }
  }

  lemma CreateSound(s: Scheduler, stackBase: nat, rsp: nat)
    requires Sound(s) && |s.tasks| < MAX_TASKS
    ensures var s', n := Create(s, stackBase, rsp), |s.tasks|;
            && Sound(s') && s'.current == s.current && |s'.tasks| == n + 1
            && s'.tasks == s.tasks + [Task(n, READY, stackBase, rsp)]
            && s'.tasks[n] == Task(n, READY, stackBase, rsp) && forall i :: 0 <= i < n ==> s'.tasks[i] == s.tasks[i]
  {
  }

  // Fairness.

  datatype Event = Ticked | Created(stackBase: nat, rsp: nat)

  function Step(s: Scheduler, e: Event): Scheduler
    requires s.current < |s.tasks|
  {
    match e
    case Ticked => Tick(s)
    case Created(base, rsp) => if |s.tasks| >= MAX_TASKS then s else Create(s, base, rsp)
  }

  lemma StepSound(s: Scheduler, e: Event)
    requires Sound(s)
    ensures Sound(Step(s, e)) && |s.tasks| <= |Step(s, e).tasks|
  {
    if e.Ticked? {
      TickSound(s);
    }
  }

  ghost function Run(s: Scheduler, es: seq<Event>): Scheduler
    requires Sound(s)
    ensures Sound(Run(s, es))
    decreases |es|
  {
    if es == [] then s else
      StepSound(s, es[0]);
      Run(Step(s, es[0]), es[1..])
  }

  function CountTicks(es: seq<Event>): nat {
    if es == [] then 0 else (if es[0].Ticked? then 1 else 0) + CountTicks(es[1..])
  }

  function Ticks(k: nat): (es: seq<Event>)
    ensures |es| == k
  {
    if k == 0 then [] else [Ticked] + Ticks(k - 1)
  }

  /** The cadence: after k ticks the turn has gone round the ring once for every two of them, starting from the parity
      of the tick counter, which survives its wrap at 2^32. */
  lemma {:induction false} Cadence(s: Scheduler, k: nat)
    requires Sound(s)
    ensures Run(s, Ticks(k)).current == (s.current + (s.ticks % 2 + k) / 2) % |s.tasks|
    decreases k
  {
    if k == 0 {
      Small(s.current, |s.tasks|);
    } else {
      RunTick(s, k);
      CadenceTick(s, k);
      hide Tick, Sound, Ticks, Run;
      Cadence(Tick(s), k - 1);
    }
  }

  lemma RunTick(s: Scheduler, k: nat)
    requires Sound(s) && k > 0
    ensures Sound(Tick(s)) && Run(s, Ticks(k)) == Run(Tick(s), Ticks(k - 1))
  {
    TickSound(s);
    assert Ticks(k)[0] == Ticked && Ticks(k)[1..] == Ticks(k - 1);
  }

  lemma CadenceTick(s: Scheduler, k: nat)
    requires Sound(s) && k > 0
    ensures var t, n := Tick(s), |s.tasks|;
            |t.tasks| == n && (t.current + (t.ticks % 2 + (k - 1)) / 2) % n == (s.current + (s.ticks % 2 + k) / 2) % n
  {
    TickSound(s);
    hide Tick, Sound;
    CadenceStep(s.current, s.ticks % 2, k, |s.tasks|);
  }

  lemma Small(cur: nat, n: nat)
    requires cur < n
    ensures cur % n == cur
  {
  }

  lemma CadenceStep(cur: nat, parity: nat, k: nat, n: nat)
    requires cur < n && parity <= 1 && k > 0
    ensures parity == 0 ==> (cur + (1 + (k - 1)) / 2) % n == (cur + (parity + k) / 2) % n
    ensures parity == 1 ==> ((cur + 1) % n + (k - 1) / 2) % n == (cur + (parity + k) / 2) % n
  {
    RingSum(cur, (k - 1) / 2, n);
    assert (1 + k) / 2 == (k - 1) / 2 + 1;
  }

  lemma RingSum(cur: nat, d: nat, n: nat)
    requires cur < n
    ensures ((cur + 1) % n + d) % n == (cur + (d + 1)) % n
  {
    NextModulo(cur, n);
    if cur + 1 == n {
      WholeTurn(d, n);
    }
  }

  lemma WholeTurn(d: nat, n: nat)
    requires n > 0
    ensures (n + d) % n == d % n
  {
    Distributes(d / n, 1, n);
    SameRemainder(d / n + 1, d % n, (n + d) / n, (n + d) % n, n);
  }

  lemma SameRemainder(q: nat, r: nat, p: nat, t: nat, n: nat)
    requires q * n + r == p * n + t && r < n && t < n
    ensures r == t
  {
    if q < p {
      Distributes(q, p - q, n);
      Multiple(p - q, n);
    } else if p < q {
      Distributes(p, q - p, n);
      Multiple(q - p, n);
    }
  }

  lemma Distributes(a: nat, b: nat, n: nat)
    ensures (a + b) * n == a * n + b * n
  {
  }

  lemma Multiple(d: nat, n: nat)
    requires d > 0
    ensures d * n >= n
  {
  }

  /** How many ticks can pass before task t runs: twice the cyclic distance among 16 places, less one when the
      current slice is half over. */
  function Waiting(s: Scheduler, t: nat): int {
    if t == s.current then 0
    else 2 * (if t > s.current then t - s.current else t - s.current + MAX_TASKS) - s.ticks % 2
  }

  /** Every tick brings a waiting task nearer, also when the tick counter wraps; creating tasks does not delay it. */
  lemma StepWaiting(s: Scheduler, e: Event, t: nat)
    requires Sound(s) && t < |s.tasks| && t != s.current
    ensures Waiting(Step(s, e), t) <= Waiting(s, t) - (if e.Ticked? then 1 else 0)
    ensures 0 < Waiting(s, t) <= 30
  {
    if e.Ticked? {
      TickSound(s);
      assert (s.ticks + 1) % TWO_32 % 2 == (s.ticks + 1) % 2;
    }
  }

  /** Bounded waiting: in every run of ticks and creations with at least 30 ticks, every task gets to run. */
  lemma {:induction false} BoundedWaiting(s: Scheduler, es: seq<Event>, t: nat)
    requires Sound(s) && t < |s.tasks| && CountTicks(es) >= Waiting(s, t)
    ensures exists k :: 0 <= k <= |es| && Run(s, es[..k]).current == t
    decreases |es|
  {
    if t == s.current {
      assert Run(s, es[..0]).current == t;
    } else {
      StepWaiting(s, es[0], t);
      StepSound(s, es[0]);
      BoundedWaiting(Step(s, es[0]), es[1..], t);
      var k :| 0 <= k <= |es| - 1 && Run(Step(s, es[0]), es[1..][..k]).current == t;
      assert es[..k + 1][0] == es[0] && es[..k + 1][1..] == es[1..][..k];
      assert Run(s, es[..k + 1]).current == t;
    }
  }

  /** In particular a ready task waits for at most 30 ticks, that is 15 slice ends, and then it is running. */
  lemma ReadyTaskRuns(s: Scheduler, es: seq<Event>, t: nat)
    requires Sound(s) && IsReady(s.tasks, t) && CountTicks(es) >= 30
    ensures exists k :: 0 <= k <= |es| && Run(s, es[..k]).current == t && t < |Run(s, es[..k]).tasks| &&
                        Run(s, es[..k]).tasks[t].state == RUNNING
  {
    StepWaiting(s, Ticked, t);
    BoundedWaiting(s, es, t);
  }
}
