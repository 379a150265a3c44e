/** The thread pool of thr_pool.c as a step system: one step is one critical section, from taking
    the pool's mutex to the next point where it is given up. What the scheduler and pthreads
    decide (who is signalled, whether a thread can be created, timeouts, spurious wakeups) is
    part of the event. */
module PoolSteps {
  import opened Types

  type Tid = nat
  type Job = nat

  /** What a worker is doing: just created; blocked on the work condition, with or without a
      timeout; awake again but without the mutex; running a job. */
  datatype Worker = Starting | Sleeping(timed: bool) | Waking(timedOut: bool) | Executing(job: Job)

  datatype Config = Config(minimum: nat, maximum: nat, linger: nat)

  /** The fields of `struct thr_pool`, then what the threads are doing, then the history.
      `waiters` are the callers of `thr_pool_wait`, true while blocked. */
  datatype State = State(
    config: Config, queue: seq<Job>, active: seq<Tid>, nthreads: int, idle: int, wait: bool,
    workers: map<Tid, Worker>, waiters: map<Tid, bool>,
    submitted: seq<Job>, started: seq<Job>)

  datatype Event =
    | Queue(job: Job, created: Option<Tid>, woken: Option<Tid>)
    | Wake(worker: Tid, timedOut: bool)
    | Resume(worker: Tid)
    | Finish(worker: Tid)
    | Exit(worker: Tid, created: Option<Tid>)
    | Wait(caller: Tid)
    | WakeWaiter(caller: Tid)

  function Initial(c: Config): State {
    State(c, [], [], 0, 0, false, map[], map[], [], [])
  }

  predicate Asleep(s: State, w: Tid) {
    w in s.workers && s.workers[w].Sleeping?
  }

  /** Can `create_worker` have this outcome? A new thread has a new identifier; creation is
      taken to succeed when there is no worker at all. */
  predicate Creates(s: State, nthreads: int, created: Option<Tid>) {
    match created
    case Some(w) => w !in s.workers
    case None => nthreads > 0
  }

  /** Which events can happen in a state. A signal reaches a blocked worker if there is one. */
  ghost predicate Possible(s: State, e: Event) {
    match e
    case Queue(_, created, woken) =>
      && Creates(s, s.nthreads, created)
      && (if woken.Some? then Asleep(s, woken.value) else forall w | w in s.workers :: !Asleep(s, w))
    case Wake(w, timedOut) => Asleep(s, w) && (timedOut ==> s.workers[w].timed)
    case Resume(w) => w in s.workers && (s.workers[w].Starting? || s.workers[w].Waking?)
    case Finish(w) => w in s.workers && s.workers[w].Executing?
    case Exit(w, created) => w in s.workers && s.workers[w].Executing? && Creates(s, s.nthreads - 1, created)
    case Wait(c) => c in s.waiters ==> !s.waiters[c]
    case WakeWaiter(c) => c in s.waiters && s.waiters[c]
  }

  predicate Busy(s: State) {
    s.queue != [] || s.active != []
  }

  /** The first job is taken off the queue, and the worker goes on the active list. */
  function Take(s: State, w: Tid): State
    requires s.queue != []
  {
    s.(queue := s.queue[1..], started := s.started + [s.queue[0]], active := [w] + s.active,
       workers := s.workers[w := Executing(s.queue[0])])
  }

  function Sleep(s: State, w: Tid, timed: bool): State {
    s.(idle := s.idle + 1, workers := s.workers[w := Sleeping(timed)])
  }

  function Leave(s: State, w: Tid): State {
    s.(nthreads := s.nthreads - 1, workers := s.workers - {w})
  }

  /** A worker holding the mutex, not counted as idle, decides what to do: the outcome of the
      loop in `worker_thread`. */
  function Decide(s: State, w: Tid, timedOut: bool): State {
    if s.queue != [] then Take(s, w)
    else if s.nthreads <= s.config.minimum then Sleep(s, w, false)
    else if timedOut || s.config.linger == 0 then Leave(s, w)
    else Sleep(s, w, true)
  }

  /** `job_cleanup`: the worker leaves the active list, and the last one wakes the waiters. */
  function Cleanup(s: State, w: Tid): State {
    var t := s.(active := Without(s.active, w));
    if t.wait && !Busy(t) then t.(wait := false, waiters := map c | c in t.waiters :: false) else t
  }

  /** The list without the first occurrence of a thread. */
  function Without(a: seq<Tid>, w: Tid): seq<Tid> {
    if a == [] then [] else if a[0] == w then a[1..] else [a[0]] + Without(a[1..], w)
  }

  function Added(s: State, created: Option<Tid>): State {
    if created == None then s
    else s.(nthreads := s.nthreads + 1, workers := s.workers[created.value := Starting])
  }

  function Apply(s: State, e: Event): State {
    match e
    case Queue(j, created, woken) =>
      var t := s.(queue := s.queue + [j], submitted := s.submitted + [j]);
      if s.idle > 0 then
        if woken.Some? then t.(workers := t.workers[woken.value := Waking(false)]) else t
      else if s.nthreads < s.config.maximum then Added(t, created)
      else t
    case Wake(w, timedOut) => s.(workers := s.workers[w := Waking(timedOut)])
    case Resume(w) =>
      if w in s.workers && s.workers[w].Waking? then Decide(s.(idle := s.idle - 1), w, s.workers[w].timedOut)
      else Decide(s, w, false)
    case Finish(w) => Decide(Cleanup(s, w), w, false)
    case Exit(w, created) =>
      var u := Leave(Cleanup(s, w), w);
      if u.queue != [] && u.nthreads < u.config.maximum then Added(u, created) else u
    case Wait(c) =>
      if Busy(s) then s.(wait := true, waiters := s.waiters[c := true]) else s.(waiters := s.waiters - {c})
    case WakeWaiter(c) => s.(waiters := s.waiters[c := false])
  }

  // ---------- the invariant ----------

  ghost function Sleepers(ws: map<Tid, Worker>): set<Tid> {
    set w | w in ws && ws[w].Sleeping?
  }

  ghost function Wakers(ws: map<Tid, Worker>): set<Tid> {
    set w | w in ws && ws[w].Waking?
  }

  /** The counters count: workers, and those of them between their two changes of `pool_idle`. */
  ghost predicate Counted(s: State) {
    && s.nthreads == |s.workers| <= s.config.maximum && 0 < s.config.maximum
    && s.idle == |Sleepers(s.workers)| + |Wakers(s.workers)|
  }

  /** The active list holds exactly the executing workers, once each. */
  ghost predicate ActiveFor(a: seq<Tid>, ws: map<Tid, Worker>) {
    && (forall i, j | 0 <= i < j < |a| :: a[i] != a[j])
    && (forall w | w in a :: w in ws && ws[w].Executing?)
    && (forall w | w in ws && ws[w].Executing? :: w in a)
  }

  ghost predicate ActiveExact(s: State) {
    ActiveFor(s.active, s.workers)
  }

  /** While a worker sleeps, every queued job has a woken worker of its own. */
  ghost predicate NoneWasted(s: State) {
    Sleepers(s.workers) != {} ==> |s.queue| <= |Wakers(s.workers)|
  }

  /** Jobs are started in the order in which they came, each once. */
  ghost predicate Fifo(s: State) {
    s.submitted == s.started + s.queue
  }

  /** A blocked waiter is announced by the flag, and the flag means that work remains. */
  ghost predicate WaitersServed(s: State) {
    && (s.wait ==> Busy(s))
    && (forall c | c in s.waiters && s.waiters[c] :: s.wait)
  }

  predicate Lively(x: Worker) {
    !x.Sleeping?
  }

  /** No lost wakeup: while a job is queued some worker is starting, awake or executing. */
  ghost predicate Attended(s: State) {
    s.queue != [] ==> exists w :: w in s.workers && Lively(s.workers[w])
  }

  ghost predicate Sound(s: State) {
    Counted(s) && ActiveExact(s) && NoneWasted(s) && Fifo(s) && WaitersServed(s)
  }

  ghost predicate Inv(s: State) {
    Sound(s) && Attended(s)
  }

  lemma InitialInv(c: Config)
    requires c.minimum <= c.maximum && 0 < c.maximum
    ensures Inv(Initial(c))
  {
  }

  // ---------- counting ----------

  function One(b: bool): nat {
    if b then 1 else 0
  }

  lemma PutMap(ws: map<Tid, Worker>, w: Tid, x: Worker)
    ensures |ws[w := x]| == |ws| + One(w !in ws)
  {
    assert ws[w := x].Keys == ws.Keys + {w};
    assert |ws[w := x]| == |ws.Keys + {w}|;
  }

  lemma PutSets(ws: map<Tid, Worker>, w: Tid, x: Worker)
    ensures Sleepers(ws[w := x]) == if x.Sleeping? then Sleepers(ws) + {w} else Sleepers(ws) - {w}
    ensures Wakers(ws[w := x]) == if x.Waking? then Wakers(ws) + {w} else Wakers(ws) - {w}
  {
  }

  lemma SetCounts(a: set<Tid>, w: Tid)
    ensures |a + {w}| == |a| + One(w !in a)
    ensures |a - {w}| == |a| - One(w in a)
  {
    if w in a {
      assert a + {w} == a;
    } else {
      assert a - {w} == a;
    }
  }

  /** Setting the state of one worker moves it from one set to another. */
  lemma PutCounted(ws: map<Tid, Worker>, w: Tid, x: Worker)
    ensures |ws[w := x]| == |ws| + One(w !in ws)
    ensures |Sleepers(ws[w := x])| == |Sleepers(ws)| + One(x.Sleeping?) - One(w in ws && ws[w].Sleeping?)
    ensures |Wakers(ws[w := x])| == |Wakers(ws)| + One(x.Waking?) - One(w in ws && ws[w].Waking?)
    ensures !x.Sleeping? ==> Sleepers(ws[w := x]) == Sleepers(ws) - {w}
  {
    PutMap(ws, w, x);
    PutSets(ws, w, x);
    SetCounts(Sleepers(ws), w);
    SetCounts(Wakers(ws), w);
    assert w in Sleepers(ws) <==> w in ws && ws[w].Sleeping?;
    assert w in Wakers(ws) <==> w in ws && ws[w].Waking?;
    hide Sleepers, Wakers;
  }

  lemma RemoveCounted(ws: map<Tid, Worker>, w: Tid)
    requires w in ws
    ensures |ws - {w}| == |ws| - 1
    ensures |Sleepers(ws - {w})| == |Sleepers(ws)| - One(ws[w].Sleeping?)
    ensures |Wakers(ws - {w})| == |Wakers(ws)| - One(ws[w].Waking?)
    ensures Sleepers(ws - {w}) == Sleepers(ws) - {w}
  {
    assert (ws - {w}).Keys == ws.Keys - {w};
    assert Sleepers(ws - {w}) == Sleepers(ws) - {w};
    assert Wakers(ws - {w}) == Wakers(ws) - {w};
  }

  // ---------- every event keeps the invariant ----------

  function Others(s: State, w: Tid): map<Tid, Worker> {
    s.workers - {w}
  }

  /** The invariant while w holds the mutex: it is counted as a thread, but neither as idle nor
      as active. */
  ghost predicate Running(s: State, w: Tid) {
    var o := Others(s, w);
    && s.nthreads == |o| + 1 <= s.config.maximum
    && s.idle == |Sleepers(o)| + |Wakers(o)|
    && (Sleepers(o) != {} ==> |s.queue| <= |Wakers(o)| + 1)
    && ActiveFor(s.active, o) && Fifo(s) && WaitersServed(s)
  }

  lemma PutOther(ws: map<Tid, Worker>, w: Tid, x: Worker)
    ensures ws[w := x] == (ws - {w})[w := x]
  {
  }

  lemma PutActive(a: seq<Tid>, o: map<Tid, Worker>, w: Tid, x: Worker)
    requires ActiveFor(a, o) && w !in o
    ensures ActiveFor(if x.Executing? then [w] + a else a, o[w := x])
  {
  }

  lemma TakeInv(s: State, w: Tid)
    requires Running(s, w) && s.queue != []
    ensures Inv(Take(s, w))
  {
    hide Sleepers, Wakers, ActiveFor;
    var x := Executing(s.queue[0]);
    PutOther(s.workers, w, x);
    PutCounted(Others(s, w), w, x);
    assert w in Take(s, w).workers && Lively(Take(s, w).workers[w]);
    PutActive(s.active, Others(s, w), w, x);
  }

  lemma SleepInv(s: State, w: Tid, timed: bool)
    requires Running(s, w) && s.queue == []
    ensures Inv(Sleep(s, w, timed))
  {
    hide Sleepers, Wakers, ActiveFor;
    PutOther(s.workers, w, Sleeping(timed));
    PutCounted(Others(s, w), w, Sleeping(timed));
    PutActive(s.active, Others(s, w), w, Sleeping(timed));
  }

  lemma DecideInv(s: State, w: Tid, timedOut: bool)
    requires Running(s, w)
    ensures Inv(Decide(s, w, timedOut))
  {
    hide Sleepers, Wakers, Sleep, Take;
    if s.queue != [] {
      TakeInv(s, w);
    } else {
      SleepInv(s, w, false);
      SleepInv(s, w, true);
    }
  }

  lemma ResumeRunning(s: State, w: Tid)
    requires Inv(s) && Possible(s, Resume(w))
    ensures Running(if s.workers[w].Waking? then s.(idle := s.idle - 1) else s, w)
  {
    RemoveCounted(s.workers, w);
    hide Sleepers, Wakers;
  }

  lemma {:induction false} WithoutOnce(a: seq<Tid>, w: Tid)
    requires forall i, j | 0 <= i < j < |a| :: a[i] != a[j]
    ensures forall x :: x in Without(a, w) <==> x in a && x != w
    ensures forall i, j | 0 <= i < j < |Without(a, w)| :: Without(a, w)[i] != Without(a, w)[j]
  {
    if a != [] {
      WithoutOnce(a[1..], w);
      assert forall x :: x in a <==> x == a[0] || x in a[1..];
      assert a[0] !in a[1..];
    }
  }

  lemma CleanupRunning(s: State, w: Tid)
    requires Inv(s) && w in s.workers && s.workers[w].Executing?
    ensures Running(Cleanup(s, w), w)
  {
    hide Sleepers, Wakers, Without, Attended, Busy;
    RemoveCounted(s.workers, w);
    OthersActive(s.active, s.workers, w);
    CleanupWaiters(s, w);
  }

  /** The worker leaves the active list, and nobody else does. */
  lemma OthersActive(a: seq<Tid>, ws: map<Tid, Worker>, w: Tid)
    requires ActiveFor(a, ws)
    ensures ActiveFor(Without(a, w), ws - {w})
  {
    hide Without;
    WithoutOnce(a, w);
  }

  lemma CleanupWaiters(s: State, w: Tid)
    requires WaitersServed(s)
    ensures WaitersServed(Cleanup(s, w))
  {
    hide Without;
  }

  /** Where nobody sleeps, or somebody is awake, somebody is lively. */
  lemma SomeoneLively(ws: map<Tid, Worker>) returns (w: Tid)
    requires |Wakers(ws)| > 0 || (ws != map[] && Sleepers(ws) == {})
    ensures w in ws && Lively(ws[w])
  {
    if |Wakers(ws)| > 0 {
      w :| w in Wakers(ws);
    } else {
      w :| w in ws;
      assert w !in Sleepers(ws);
    }
  }

  lemma AddedSound(s: State, created: Option<Tid>)
    requires Sound(s) && s.nthreads < s.config.maximum && (created.Some? ==> created.value !in s.workers)
    ensures Sound(Added(s, created))
  {
    hide Sleepers, Wakers, ActiveFor;
    if created.Some? {
      PutCounted(s.workers, created.value, Starting);
      PutActive(s.active, s.workers, created.value, Starting);
    }
  }

  lemma SignalSound(s: State, w: Tid, x: Worker)
    requires Counted(s) && ActiveExact(s) && Fifo(s) && WaitersServed(s) && Asleep(s, w) && x.Waking?
    requires |s.queue| <= |Wakers(s.workers)| + 1
    ensures Sound(s.(workers := s.workers[w := x]))
  {
    hide Sleepers, Wakers;
    PutCounted(s.workers, w, x);
  }

  lemma QueueInv(s: State, j: Job, created: Option<Tid>, woken: Option<Tid>)
    requires Inv(s) && Possible(s, Queue(j, created, woken))
    ensures Inv(Apply(s, Queue(j, created, woken)))
  {
    var t := s.(queue := s.queue + [j], submitted := s.submitted + [j]);
    var u := Apply(s, Queue(j, created, woken));
    if woken.Some? {
      assert woken.value in Sleepers(s.workers);
      assert |Sleepers(s.workers)| > 0;
      SignalSound(t, woken.value, Waking(false));
      assert Lively(u.workers[woken.value]);
    } else {
      assert Sleepers(s.workers) == {};
      if s.idle == 0 && s.nthreads < s.config.maximum {
        AddedSound(t, created);
      }
      assert Sleepers(u.workers) == {};
      assert u.workers != map[] by {
        assert |s.workers| == 0 ==> created.Some? && u.workers == map[created.value := Starting];
      }
      var w := SomeoneLively(u.workers);
    }
    hide Sleepers, Wakers, Lively;
  }

  lemma WakeInv(s: State, w: Tid, timedOut: bool)
    requires Inv(s) && Possible(s, Wake(w, timedOut))
    ensures Inv(Apply(s, Wake(w, timedOut)))
  {
    PutCounted(s.workers, w, Waking(timedOut));
    assert w in Sleepers(s.workers);
    assert Lively(Apply(s, Wake(w, timedOut)).workers[w]);
    hide Sleepers, Wakers;
  }

  lemma LeaveSound(s: State, w: Tid)
    requires Inv(s) && w in s.workers && s.workers[w].Executing?
    ensures Sound(Leave(Cleanup(s, w), w))
  {
    hide Sleepers, Wakers, Without, Attended, Busy;
    RemoveCounted(s.workers, w);
    OthersActive(s.active, s.workers, w);
    CleanupWaiters(s, w);
    WaitersAlone(Cleanup(s, w), w);
  }

  lemma WaitersAlone(s: State, w: Tid)
    requires WaitersServed(s)
    ensures WaitersServed(Leave(s, w))
  {
  }

  /** The worker is gone; a new one takes its place if jobs are waiting. */
  lemma ExitInv(s: State, w: Tid, created: Option<Tid>)
    requires Inv(s) && Possible(s, Exit(w, created))
    ensures Inv(Apply(s, Exit(w, created)))
  {
    LeaveSound(s, w);
    var u := Leave(Cleanup(s, w), w);
    var v := Apply(s, Exit(w, created));
    if u.queue != [] {
      AddedSound(u, created);
      if created.Some? {
        assert Lively(v.workers[created.value]);
      } else {
        assert |u.workers| > 0;
        assert Sleepers(u.workers) == {} || |Wakers(u.workers)| > 0;
        var x := SomeoneLively(v.workers);
      }
    }
    hide Sleepers, Wakers, Lively, Cleanup;
  }

  lemma WaitInv(s: State, c: Tid)
    requires Inv(s)
    ensures Possible(s, Wait(c)) ==> Inv(Apply(s, Wait(c)))
    ensures Possible(s, WakeWaiter(c)) ==> Inv(Apply(s, WakeWaiter(c)))
  {
    hide Sleepers, Wakers, Lively;
  }

  lemma StepInv(s: State, e: Event)
    requires Inv(s) && Possible(s, e)
    ensures Inv(Apply(s, e))
  {
    hide Inv, Running, Cleanup, Decide;
    match e {
      case Queue(j, created, woken) => QueueInv(s, j, created, woken);
      case Wake(w, timedOut) => WakeInv(s, w, timedOut);
      case Resume(w) =>
        ResumeRunning(s, w);
        if s.workers[w].Waking? {
          DecideInv(s.(idle := s.idle - 1), w, s.workers[w].timedOut);
        } else {
          DecideInv(s, w, false);
        }
      case Finish(w) =>
        CleanupRunning(s, w);
        DecideInv(Cleanup(s, w), w, false);
      case Exit(w, created) => ExitInv(s, w, created);
      case Wait(c) => WaitInv(s, c);
      case WakeWaiter(c) => WaitInv(s, c);
    }
  }

  // ---------- whole runs ----------

  ghost predicate PossibleRun(s: State, es: seq<Event>)
    decreases |es|
  {
    es == [] || (Possible(s, es[0]) && PossibleRun(Apply(s, es[0]), es[1..]))
  }

  ghost function Run(s: State, es: seq<Event>): State
    decreases |es|
  {
    if es == [] then s else Run(Apply(s, es[0]), es[1..])
  }

  /** Over every run the invariant holds. */
  lemma {:induction false} RunInv(s: State, es: seq<Event>)
    requires Inv(s) && PossibleRun(s, es)
    ensures Inv(Run(s, es))
    decreases |es|
  {
    hide Inv, Possible, Apply;
    if es != [] {
      StepInv(s, es[0]);
      RunInv(Apply(s, es[0]), es[1..]);
    }
  }

  // ---------- what the invariant is for ----------

  /** No lost job: while jobs wait, some worker does not sleep, and its very next critical
      section starts the first of them. */
  lemma NextJobStarts(s: State) returns (w: Tid, e: Event)
    requires Inv(s) && s.queue != []
    ensures w in s.workers && !s.workers[w].Sleeping?
    ensures Possible(s, e) && Apply(s, e).started == s.started + [s.queue[0]]
    ensures e == if s.workers[w].Executing? then Finish(w) else Resume(w)
  {
    w :| w in s.workers && Lively(s.workers[w]);
    e := if s.workers[w].Executing? then Finish(w) else Resume(w);
  }

  /** The only way to lose a thread besides a job that exits is an idle timeout, and that
      happens above the minimum only. */
  lemma TimeoutKeepsMinimum(s: State, e: Event)
    requires Inv(s) && Possible(s, e) && !e.Exit?
    ensures Apply(s, e).nthreads >= s.nthreads || Apply(s, e).nthreads >= s.config.minimum
  {
    hide Sleepers, Wakers, Lively;
  }

  /** A blocked caller of `thr_pool_wait` has the flag set and work to wait for; the event that
      ends the work wakes every caller. */
  lemma WaitersWoken(s: State, e: Event, c: Tid)
    requires Inv(s) && Possible(s, e) && c in s.waiters && s.waiters[c]
    ensures s.wait && Busy(s)
    ensures !Busy(Apply(s, e)) ==> c in Apply(s, e).waiters && !Apply(s, e).waiters[c]
  {
    StepInv(s, e);
    hide Sleepers, Wakers, Lively, Without;
  }

  /** A caller returns from `thr_pool_wait` only when nothing is queued and nothing executes. */
  lemma WaitReturns(s: State, c: Tid)
    requires Inv(s) && Possible(s, Wait(c))
    ensures c !in Apply(s, Wait(c)).waiters <==>
      s.queue == [] && forall w | w in s.workers :: !s.workers[w].Executing?
  {
    assert s.active != [] ==> s.active[0] in s.active;
    hide Sleepers, Wakers, Lively;
  }

  /** The events that start a job: a worker gets the mutex, awake or done with a job, while jobs wait. */
  predicate Serves(s: State, e: Event) {
    s.queue != [] && (e.Resume? || e.Finish?)
  }

  ghost function ServingSteps(s: State, es: seq<Event>): nat
    decreases |es|
  {
    if es == [] then 0 else One(Serves(s, es[0])) + ServingSteps(Apply(s, es[0]), es[1..])
  }

  /** Each of them starts the head of the queue, and no other event starts anything. */
  lemma StartsHead(s: State, e: Event)
    requires Possible(s, e)
    ensures Apply(s, e).started == s.started + if Serves(s, e) then [s.queue[0]] else []
    ensures s.submitted <= Apply(s, e).submitted
  {
    hide Cleanup;
    if e.Finish? || e.Exit? {
      CleanupKeeps(s, e.worker);
    }
    assert s.started + [] == s.started;
  }

  lemma CleanupKeeps(s: State, w: Tid)
    ensures Cleanup(s, w).queue == s.queue && Cleanup(s, w).started == s.started
    ensures Cleanup(s, w).submitted == s.submitted
  {
    hide Without;
  }

  /** Over every run exactly as many jobs are started as there were such events, in the order in
      which they came. */
  lemma {:induction false} RunStarts(s: State, es: seq<Event>)
    requires Inv(s) && PossibleRun(s, es)
    ensures |Run(s, es).started| == |s.started| + ServingSteps(s, es)
    ensures s.submitted <= Run(s, es).submitted && Run(s, es).started <= Run(s, es).submitted
    decreases |es|
  {
    hide Possible, Apply, Serves, Sleepers, Wakers, Attended, Counted, ActiveExact, NoneWasted, WaitersServed;
    if es != [] {
      StepInv(s, es[0]);
      StartsHead(s, es[0]);
      RunStarts(Apply(s, es[0]), es[1..]);
    }
  }

  /** The k-th of the jobs that wait is started once k + 1 such events have happened, and not before;
      as long as it waits, `NextJobStarts` gives the next one. */
  lemma QueuedJobStarts(s: State, es: seq<Event>, k: nat)
    requires Inv(s) && PossibleRun(s, es) && k < |s.queue|
    ensures |s.started| + k < |Run(s, es).started| <==> k < ServingSteps(s, es)
    ensures k < ServingSteps(s, es) ==> Run(s, es).started[|s.started| + k] == s.queue[k]
    ensures k >= ServingSteps(s, es) ==> Run(s, es).queue != []
  {
    hide Possible, Sleepers, Wakers, Attended, Counted, ActiveExact, NoneWasted, WaitersServed;
    RunInv(s, es);
    RunStarts(s, es);
    var r, i := Run(s, es), |s.started| + k;
    assert s.submitted[i] == s.queue[k] && r.submitted[i] == s.submitted[i];
  }

  /** A worker that gets the mutex while no job waits: up to the minimum it sleeps until it is signalled;
      above, it leaves if its time is over or there is none to wait, and otherwise sleeps for that time. */
  lemma IdleWorker(s: State, e: Event)
    requires Inv(s) && Possible(s, e) && s.queue == [] && (e.Resume? || e.Finish?)
    ensures var t, w := Apply(s, e), e.worker;
      var late := s.workers[w].Waking? && s.workers[w].timedOut;
      && (s.nthreads <= s.config.minimum ==> w in t.workers && t.workers[w] == Sleeping(false))
      && (s.nthreads > s.config.minimum && (late || s.config.linger == 0) ==>
            w !in t.workers && t.nthreads == s.nthreads - 1)
      && (s.nthreads > s.config.minimum && !late && s.config.linger > 0 ==>
            w in t.workers && t.workers[w] == Sleeping(true))
      && (w in t.workers ==> t.nthreads == s.nthreads)
      && (forall x | x in s.workers && x != w :: x in t.workers && t.workers[x] == s.workers[x])
  {
    hide Sleepers, Wakers, Without;
  }

  /** A worker that sleeps without a time limit does not time out, and one with a limit can. */
  lemma WhoTimesOut(s: State, w: Tid)
    ensures Possible(s, Wake(w, true)) <==> w in s.workers && s.workers[w] == Sleeping(true)
  {
  }

  // ---------- how the pool grows ----------

  /** A new worker is there, and nothing else has changed among the threads. */
  ghost predicate Grown(s: State, t: State, w: Tid) {
    w !in s.workers && t.workers == s.workers[w := Starting] && t.nthreads == s.nthreads + 1 && t.idle == s.idle
  }

  /** Nobody is idle, the pool is not full, and a thread can be created. */
  predicate Grows(s: State, created: Option<Tid>) {
    s.idle == 0 && s.nthreads < s.config.maximum && created.Some?
  }

  /** At most one sleeping worker has been woken. */
  ghost predicate Signalled(s: State, t: State, woken: Option<Tid>) {
    && t.nthreads == s.nthreads && t.idle == s.idle && t.workers.Keys == s.workers.Keys
    && forall w | w in s.workers :: t.workers[w] == if woken == Some(w) then Waking(false) else s.workers[w]
  }

  /** A job that comes while nobody is idle and the pool is not full gets a worker of its own, if one can
      be created. In no other case does a submission add one: it wakes a sleeping worker, if there is one,
      and leaves all other threads alone. */
  lemma SubmissionGrows(s: State, j: Job, created: Option<Tid>, woken: Option<Tid>)
    requires Inv(s) && Possible(s, Queue(j, created, woken))
    ensures var t := Apply(s, Queue(j, created, woken));
      && t.queue == s.queue + [j] && t.submitted == s.submitted + [j] && t.started == s.started
      && (Grows(s, created) ==> Grown(s, t, created.value)) && (!Grows(s, created) ==> Signalled(s, t, woken))
      && (s.idle == 0 || s.workers == map[] ==> woken == None)
  {
    hide Wakers;
    if woken.Some? {
      assert woken.value in Sleepers(s.workers);
      assert |Sleepers(s.workers)| > 0;
    }
  }

  /** A worker whose job ends the thread goes; it is replaced if jobs wait and a thread can be created. */
  lemma ExitReplaces(s: State, w: Tid, created: Option<Tid>)
    requires Inv(s) && Possible(s, Exit(w, created))
    ensures var t := Apply(s, Exit(w, created));
      && t.queue == s.queue && t.started == s.started && t.idle == s.idle
      && (if s.queue != [] && created.Some?
          then created.value != w && created.value !in s.workers && t.nthreads == s.nthreads
            && t.workers == (s.workers - {w})[created.value := Starting]
          else t.nthreads == s.nthreads - 1 && t.workers == s.workers - {w})
  {
    hide Sleepers, Wakers, Without;
  }

  /** No other event adds a worker, and a worker goes only with its job or after a timeout. */
  lemma OthersDoNotGrow(s: State, e: Event)
    requires Possible(s, e) && !e.Queue? && !e.Exit?
    ensures Apply(s, e).workers.Keys <= s.workers.Keys && Apply(s, e).nthreads <= s.nthreads
  {
    hide Decide, Cleanup;
    if e.Resume? {
      DecideThreads(s, e.worker, false);
      DecideThreads(s.(idle := s.idle - 1), e.worker, true);
      DecideThreads(s.(idle := s.idle - 1), e.worker, false);
    } else if e.Finish? {
      CleanupThreads(s, e.worker);
      DecideThreads(Cleanup(s, e.worker), e.worker, false);
    }
  }

  lemma DecideThreads(s: State, w: Tid, timedOut: bool)
    requires w in s.workers
    ensures Decide(s, w, timedOut).workers.Keys <= s.workers.Keys && Decide(s, w, timedOut).nthreads <= s.nthreads
    ensures Decide(s, w, timedOut).config == s.config
  {
  }

  lemma CleanupThreads(s: State, w: Tid)
    ensures Cleanup(s, w).workers == s.workers && Cleanup(s, w).nthreads == s.nthreads && Cleanup(s, w).idle == s.idle
    ensures Cleanup(s, w).config == s.config
  {
    hide Without;
  }

  /** Submissions, for each of which a thread could be created. */
  predicate Submissions(es: seq<Event>) {
    forall e | e in es :: e.Queue? && e.created.Some?
  }

  function Least(a: int, b: int): int {
    if a < b then a else b
  }

  /** n jobs that come while nobody is idle bring n new workers, up to the maximum. */
  lemma {:induction false} BurstGrows(s: State, es: seq<Event>)
    requires Inv(s) && PossibleRun(s, es) && Submissions(es) && s.idle == 0
    ensures Run(s, es).nthreads == Least(s.nthreads + |es|, s.config.maximum) && Run(s, es).idle == 0
    ensures |Run(s, es).queue| == |s.queue| + |es| && s.workers.Keys <= Run(s, es).workers.Keys
    decreases |es|
  {
    hide Possible, Apply, Sleepers, Wakers, Attended, ActiveExact, NoneWasted, WaitersServed;
    if es != [] {
      StepInv(s, es[0]);
      SubmissionGrows(s, es[0].job, es[0].created, es[0].woken);
      ConfigStays(s, es[0]);
      BurstGrows(Apply(s, es[0]), es[1..]);
    }
  }

  lemma ConfigStays(s: State, e: Event)
    ensures Apply(s, e).config == s.config
  {
    hide Without;
  }

  /** A worker takes a job, finishes it and sleeps. */
  lemma SleepsAgain() returns (s1: State, s2: State, s3: State)
    ensures var s0 := Initial(Config(1, 10, 0));
      && Possible(s0, Queue(5, Some(0), None)) && s1 == Apply(s0, Queue(5, Some(0), None))
      && Possible(s1, Resume(0)) && s2 == Apply(s1, Resume(0)) && Possible(s2, Finish(0)) && s3 == Apply(s2, Finish(0))
    ensures s3.workers == map[0 := Sleeping(false)] && s3.queue == [] && s3.nthreads == s3.idle == 1
    ensures s3.config.maximum == 10
  {
    s1 := Apply(Initial(Config(1, 10, 0)), Queue(5, Some(0), None));
    assert s1.workers == map[0 := Starting] && s1.queue == [5];
    s2 := Apply(s1, Resume(0));
    assert s2.workers == map[0 := Executing(5)] && s2.queue == [] && s2.active == [0];
    s3 := Apply(s2, Finish(0));
  }

  lemma IsWoken(s: State)
    requires s.workers == map[0 := Sleeping(false)] && s.queue == [] && s.nthreads == s.idle == 1
    ensures Possible(s, Queue(6, Some(1), Some(0)))
    ensures var t := Apply(s, Queue(6, Some(1), Some(0)));
      t.workers == map[0 := Waking(false)] && t.queue == [6] && t.nthreads == t.idle == 1 && t.config == s.config
  {
  }

  /** Then it is woken for the next one. */
  lemma FirstWorker() returns (s: State)
    ensures var es := [Queue(5, Some(0), None), Resume(0), Finish(0), Queue(6, Some(1), Some(0))];
      PossibleRun(Initial(Config(1, 10, 0)), es) && s == Run(Initial(Config(1, 10, 0)), es)
    ensures s.workers == map[0 := Waking(false)] && s.queue == [6] && s.nthreads == s.idle == 1
    ensures s.config.maximum == 10
  {
    hide PossibleRun, Run, Initial, Apply, Possible;
    var e0, e1, e2, e3 := Queue(5, Some(0), None), Resume(0), Finish(0), Queue(6, Some(1), Some(0));
    var s1, s2, s3 := SleepsAgain();
    s := Apply(s3, e3);
    IsWoken(s3);
    NoMore(s);
    OneMore(s3, e3, []);
    OneMore(s2, e2, [e3]);
    OneMore(s1, e1, [e2, e3]);
    OneMore(Initial(Config(1, 10, 0)), e0, [e1, e2, e3]);
    assert [e0] + [e1, e2, e3] == [e0, e1, e2, e3] && [e1] + [e2, e3] == [e1, e2, e3] && [e2] + [e3] == [e2, e3];
    assert [e3] + [] == [e3];
  }

  /** What the counter of idle workers does not see: a job that comes while a worker has been woken, but
      does not have the mutex yet, brings no worker, and waits although the pool is not full. */
  lemma WokenCountsAsIdle() returns (s: State, es: seq<Event>)
    ensures PossibleRun(Initial(Config(1, 10, 0)), es) && s == Run(Initial(Config(1, 10, 0)), es)
    ensures Possible(s, Queue(7, Some(1), None)) && s.nthreads == 1 && s.config.maximum == 10
    ensures var t := Apply(s, Queue(7, Some(1), None)); t.workers == s.workers && t.nthreads == 1 && t.queue == [6, 7]
  {
    hide PossibleRun, Run;
    es := [Queue(5, Some(0), None), Resume(0), Finish(0), Queue(6, Some(1), Some(0))];
    s := FirstWorker();
  }

  lemma OneMore(s: State, e: Event, es: seq<Event>)
    ensures PossibleRun(s, [e] + es) <==> Possible(s, e) && PossibleRun(Apply(s, e), es)
    ensures Run(s, [e] + es) == Run(Apply(s, e), es)
  {
    hide Apply, Possible;
    assert ([e] + es)[1..] == es;
  }

  lemma NoMore(s: State)
    ensures PossibleRun(s, []) && Run(s, []) == s
  {
  }
}
