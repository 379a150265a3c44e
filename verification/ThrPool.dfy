/** `struct thr_pool` and the code of thr_pool.c, one method for each critical section. Every
    method is proved to make the step of `PoolSteps` that describes it. */
module ThrPools {
  import opened Types
  import opened PoolSteps

  /** `struct job`. */
  class JobNode {
    const job: Job
    var next: JobNode?

    constructor (job: Job)
      ensures this.job == job && next == null
    {
      this.job, next := job, null;
    }
  }

  ghost function JobsOf(ns: seq<JobNode>): (r: seq<Job>)
    ensures |r| == |ns|
  {
    seq(|ns|, i requires 0 <= i < |ns| => ns[i].job)
  }

  lemma JobsAppend(ns: seq<JobNode>, n: JobNode)
    ensures JobsOf(ns + [n]) == JobsOf(ns) + [n.job]
  {
  }

  class Pool {
    const config: Config
    var head: JobNode?
    var tail: JobNode?
    var active: seq<Tid>
    var nthreads: int
    var idle: int
    var wait: bool
    /** The queue from head to tail. */
    ghost var jobs: seq<JobNode>
    /** What the threads outside are doing, and the history of the queue. */
    ghost var workers: map<Tid, Worker>
    ghost var waiters: map<Tid, bool>
    ghost var submitted: seq<Job>
    ghost var started: seq<Job>

    ghost function Now(): State
      reads this
    {
      State(config, JobsOf(jobs), active, nthreads, idle, wait, workers, waiters, submitted, started)
    }

    /** The job queue: linked from head to tail, each node once. */
    ghost predicate Linked()
      reads this`head, this`tail, this`jobs, jobs
    {
      && (forall i, j | 0 <= i < j < |jobs| :: jobs[i] != jobs[j])
      && (forall i | 1 <= i < |jobs| :: jobs[i - 1].next == jobs[i])
      && (if jobs == [] then head == null && tail == null
          else head == jobs[0] && tail == jobs[|jobs| - 1] && tail.next == null)
    }

    ghost predicate Valid()
      reads this, jobs
    {
      Linked() && Inv(Now())
    }

    /** `thr_pool_create`. */
    constructor (minimum: nat, maximum: nat, linger: nat)
      requires minimum <= maximum && 0 < maximum
      ensures Valid() && Now() == Initial(Config(minimum, maximum, linger))
    {
      config := Config(minimum, maximum, linger);
      head, tail, active, nthreads, idle, wait := null, null, [], 0, 0, false;
      jobs, workers, waiters, submitted, started := [], map[], map[], [], [];
      new;
      InitialInv(config);
    }

    lemma QueueEmpty()
      requires Linked()
      ensures JobsOf(jobs) == [] <==> head == null
    {
    }

    // ---------- the job queue ----------

    /** The new node goes behind the tail. */
    method Append(job: Job)
      requires Linked()
      modifies this`head, this`tail, this`jobs, this`submitted, jobs
      ensures Linked() && JobsOf(jobs) == JobsOf(old(jobs)) + [job] && submitted == old(submitted) + [job]
      ensures fresh(jobs[|jobs| - 1]) && jobs[..|jobs| - 1] == old(jobs)
    {
      hide JobsOf;
      var node := new JobNode(job);
      JobsAppend(jobs, node);
      if head == null {
        head := node;
      } else {
        tail.next := node;
      }
      tail := node;
      jobs := jobs + [node];
      submitted := submitted + [job];
    }

    /** The head comes off; with the last node the tail goes too. */
    method Pop() returns (job: JobNode)
      requires Linked() && head != null
      modifies this`head, this`tail, this`jobs
      ensures Linked() && old(jobs) != [] && job == old(jobs)[0] && jobs == old(jobs)[1..]
    {
      assert |jobs| > 1 ==> jobs[0].next == jobs[1] && jobs[0] != jobs[|jobs| - 1];
      job := head;
      head := job.next;
      if job == tail {
        tail := null;
      }
      jobs := jobs[1..];
      assert forall i | 0 <= i < |jobs| :: jobs[i] == old(jobs)[i + 1];
    }

    /** The head goes to the worker. */
    method TakeJob(w: Tid)
      requires Linked() && head != null
      modifies this`head, this`tail, this`active, this`jobs, this`workers, this`started
      ensures Linked() && JobsOf(old(jobs)) != [] && Now() == Take(old(Now()), w)
      ensures forall i | 0 <= i < |jobs| :: jobs[i] in old(jobs)
    {
      var job := Pop();
      active := [w] + active;
      started := started + [job.job];
      workers := workers[w := Executing(job.job)];
      assert JobsOf(jobs) == JobsOf(old(jobs))[1..];
    }

    // ---------- the worker ----------

    /** `notify_waiters`. */
    method NotifyWaiters()
      requires Linked()
      modifies this`wait, this`waiters
      ensures Now() == if Busy(old(Now())) then old(Now())
                       else old(Now()).(wait := false, waiters := map c | c in old(waiters) :: false)
    {
      if head == null && active == [] {
        wait := false;
        waiters := map c | c in waiters :: false;
      }
    }

    /** `job_cleanup`: looks for the thread's own entry on the active list. */
    method JobCleanup(w: Tid)
      requires Linked()
      modifies this`active, this`wait, this`waiters
      ensures Now() == Cleanup(old(Now()), w)
    {
      hide Without;
      var i := 0;
      while i < |active| && active[i] != w
        invariant 0 <= i <= |active| && forall j | 0 <= j < i :: active[j] != w
      {
        i := i + 1;
      }
      WithoutAt(active, w, i);
      if i < |active| {
        active := active[..i] + active[i + 1..];
      }
      if wait {
        NotifyWaiters();
      }
    }

    /** `worker_cleanup` of a pool in use: the thread is gone, another is created if jobs wait. */
    method WorkerCleanup(w: Tid, created: Option<Tid>)
      requires Linked()
      modifies this`nthreads, this`workers
      ensures var u := Leave(old(Now()), w);
        Now() == if u.queue != [] && u.nthreads < config.maximum then Added(u, created) else u
    {
      nthreads := nthreads - 1;
      workers := workers - {w};
      if head != null && nthreads < config.maximum && created.Some? {
        nthreads := nthreads + 1;
        workers := workers[created.value := Starting];
      }
    }

    /** The end of the loop of `worker_thread`: a job if there is one, or else the way out for a
        worker too many. */
    method Settle(w: Tid, timedout: bool) returns (again: bool)
      requires Linked()
      modifies this`head, this`tail, this`active, this`jobs, this`workers, this`started, this`nthreads
      ensures Linked()
      ensures again <==> old(Now()).queue == [] && !(timedout && old(nthreads) > config.minimum)
      ensures Now() == if old(Now()).queue != [] then Take(old(Now()), w)
                       else if again then old(Now()) else Leave(old(Now()), w)
      ensures forall i | 0 <= i < |jobs| :: jobs[i] in old(jobs)
    {
      hide Take;
      QueueEmpty();
      if head != null {
        TakeJob(w);
        return false;
      }
      if timedout && nthreads > config.minimum {
        WorkerCleanup(w, None);
        return false;
      }
      return true;
    }

    /** The inner loop of `worker_thread` up to a wait: without work the thread sleeps, for a time if it
        may be one too many, unless its time is over. */
    method Doze(w: Tid, timedout: bool) returns (asleep: bool, late: bool)
      requires Linked()
      modifies this`workers
      ensures Linked() && (asleep <==> old(Now()).queue == [] && !late)
      ensures late <==> timedout || (old(Now()).queue == [] && nthreads > config.minimum && config.linger == 0)
      ensures Now() == if asleep then old(Now()).(workers := old(workers)[w := Sleeping(nthreads > config.minimum)])
                       else old(Now())
    {
      QueueEmpty();
      asleep, late := false, timedout;
      if !timedout && head == null {
        if nthreads <= config.minimum {
          workers := workers[w := Sleeping(false)];
          asleep := true;
        } else if config.linger == 0 {
          late := true;
        } else {
          workers := workers[w := Sleeping(true)];
          asleep := true;
        }
      }
    }

    /** One round of the loop of `worker_thread`, `waiting` when the thread comes back from a wait of the
        inner loop. */
    method Round(w: Tid, waiting: bool, timedout: bool) returns (again: bool)
      requires Linked() && Running(if waiting then Now().(idle := idle - 1) else Now(), w)
      modifies this, jobs
      ensures Linked()
      ensures again <==> old(Now()).queue == [] && waiting && timedout && old(nthreads) <= config.minimum
      ensures var base := if waiting then old(Now()).(idle := old(idle) - 1) else old(Now());
        Now() == if again then base else Decide(base, w, waiting && timedout)
      ensures forall i | 0 <= i < |jobs| :: jobs[i] in old(jobs)
    {
      hide Running, Take, Leave, Linked;
      WaitMeansBusy(if waiting then Now().(idle := idle - 1) else Now(), w);
      var late := timedout;
      if !waiting {
        late := false;
        idle := idle + 1;
        if wait {
          NotifyWaiters();
        }
      }
      var asleep;
      asleep, late := Doze(w, late);
      if asleep {
        return false;
      }
      idle := idle - 1;
      again := Settle(w, late);
    }

    /** The loop of `worker_thread` from where the thread has got the mutex to where it gives it
        up: `inside` when it comes back from the inner loop's wait, `late` when that timed out. */
    method Loop(w: Tid, inside: bool, late: bool)
      requires Linked() && (late ==> inside)
      requires Running(if inside then Now().(idle := idle - 1) else Now(), w)
      modifies this, jobs
      ensures Linked()
      ensures Now() == Decide(if inside then old(Now()).(idle := old(idle) - 1) else old(Now()), w, late)
      ensures forall i | 0 <= i < |jobs| :: jobs[i] in old(jobs)
    {
      hide Running, Take, Leave, Linked;
      ghost var base := if inside then Now().(idle := idle - 1) else Now();
      var waiting, again := inside, true;
      while again
        invariant Linked() && (again ==> waiting == inside || (inside && late))
        invariant again ==> Now() == if waiting then base.(idle := base.idle + 1) else base
        invariant again && waiting != inside ==> base.queue == [] && base.nthreads <= config.minimum
        invariant !again ==> Now() == Decide(base, w, late)
        invariant forall i | 0 <= i < |jobs| :: jobs[i] in old(jobs)
        decreases again, waiting
      {
        again := Round(w, waiting, late);
        waiting := false;
      }
    }

    /** A worker gets the mutex for the first time, or back from a wait. */
    method Proceed(w: Tid, inside: bool, late: bool)
      requires Valid() && Possible(Now(), Event.Resume(w))
      requires workers[w] == if inside then Waking(late) else Starting
      requires late ==> inside
      modifies this, jobs
      ensures Valid() && Now() == Apply(old(Now()), Event.Resume(w))
      ensures forall i | 0 <= i < |jobs| :: jobs[i] in old(jobs)
    {
      hide Inv, Running, Decide;
      ghost var s := Now();
      ResumeRunning(s, w);
      StepInv(s, Event.Resume(w));
      Loop(w, inside, late);
    }

    /** A job has returned. */
    method Return(w: Tid)
      requires Valid() && Possible(Now(), Finish(w))
      modifies this, jobs
      ensures Valid() && Now() == Apply(old(Now()), Finish(w))
      ensures forall i | 0 <= i < |jobs| :: jobs[i] in old(jobs)
    {
      hide Inv, Running, Decide, Cleanup;
      CleanupRunning(Now(), w);
      StepInv(Now(), Finish(w));
      JobCleanup(w);
      Loop(w, false, false);
    }

    /** A job has called `pthread_exit`. */
    method ThreadExit(w: Tid, created: Option<Tid>)
      requires Valid() && Possible(Now(), Exit(w, created))
      modifies this, jobs
      ensures Valid() && Now() == Apply(old(Now()), Exit(w, created)) && jobs == old(jobs)
    {
      hide Inv, Without, Added;
      StepInv(Now(), Exit(w, created));
      JobCleanup(w);
      WorkerCleanup(w, created);
    }

    // ---------- the clients ----------

    /** `thr_pool_queue`. */
    method Enqueue(job: Job, created: Option<Tid>, ghost woken: Option<Tid>)
      requires Valid() && Possible(Now(), Queue(job, created, woken))
      modifies this, jobs
      ensures Valid() && Now() == Apply(old(Now()), Queue(job, created, woken))
      ensures forall i | 0 <= i < |jobs| :: jobs[i] in old(jobs) || fresh(jobs[i])
    {
      hide Inv;
      StepInv(Now(), Queue(job, created, woken));
      Append(job);
      if idle > 0 {
        if woken.Some? {
          workers := workers[woken.value := Waking(false)];
        }
      } else if nthreads < config.maximum && created.Some? {
        nthreads := nthreads + 1;
        workers := workers[created.value := Starting];
      }
    }

    /** A thread that waits on a condition variable is woken, or its time is up: no code of the pool. */
    ghost method Woken(e: Event)
      requires Valid() && Possible(Now(), e) && (e.Wake? || e.WakeWaiter?)
      modifies this`workers, this`waiters
      ensures Valid() && Now() == Apply(old(Now()), e)
    {
      hide Inv;
      StepInv(Now(), e);
      if e.Wake? {
        workers := workers[e.worker := Waking(e.timedOut)];
      } else {
        waiters := waiters[e.caller := false];
      }
    }

    /** `thr_pool_wait` from a lock of the mutex to the next wait, or to the end. */
    method AwaitAll(c: Tid) returns (done: bool)
      requires Valid() && Possible(Now(), Event.Wait(c))
      modifies this
      ensures Valid() && Now() == Apply(old(Now()), Event.Wait(c)) && jobs == old(jobs)
      ensures done <==> c !in waiters
      ensures done ==> Now().queue == [] && active == []
    {
      hide Inv;
      StepInv(Now(), Event.Wait(c));
      if head != null || active != [] {
        wait := true;
        waiters := waiters[c := true];
        done := false;
      } else {
        waiters := waiters - {c};
        done := true;
      }
    }
  }

  /** Where the search ends decides. */
  lemma {:induction false} WithoutAt(a: seq<Tid>, w: Tid, i: nat)
    requires i <= |a| && (forall j | 0 <= j < i :: a[j] != w) && (i < |a| ==> a[i] == w)
    ensures Without(a, w) == if i == |a| then a else a[..i] + a[i + 1..]
  {
    if i > 0 {
      WithoutAt(a[1..], w, i - 1);
      assert a == [a[0]] + a[1..];
      assert i < |a| ==> [a[0]] + (a[1..][..i - 1] + a[1..][i..]) == a[..i] + a[i + 1..];
    }
  }

  lemma WaitMeansBusy(s: State, w: Tid)
    requires Running(s, w)
    ensures s.wait ==> Busy(s)
  {
  }

  /** A turn of a thread, with what it knows: whether it comes back from a wait, and in time. */
  datatype Turn = Turn(event: Event, inside: bool, late: bool)

  /** The turns of a run: each event can happen, and each thread is where it thinks it is. */
  ghost predicate PossibleTurns(s: State, ts: seq<Turn>)
    decreases |ts|
  {
    ts == [] || (PossibleTurn(s, ts[0]) && PossibleTurns(Apply(s, ts[0].event), ts[1..]))
  }

  ghost predicate PossibleTurn(s: State, t: Turn) {
    Possible(s, t.event) && (t.event.Resume? ==>
      s.workers[t.event.worker] == (if t.inside then Waking(t.late) else Starting) && (t.late ==> t.inside))
  }

  function Events(ts: seq<Turn>): (es: seq<Event>)
    ensures |es| == |ts| && forall i | 0 <= i < |ts| :: es[i] == ts[i].event
  {
    seq(|ts|, i requires 0 <= i < |ts| => ts[i].event)
  }

  lemma EventsStep(ts: seq<Turn>)
    requires ts != []
    ensures Events(ts)[0] == ts[0].event && Events(ts)[1..] == Events(ts[1..])
  {
  }

  /** The code makes every possible run of the step system, in any interleaving of its threads. */
  method Execute(pool: Pool, ts: seq<Turn>)
    requires pool.Valid() && PossibleTurns(pool.Now(), ts)
    modifies pool, pool.jobs
    ensures pool.Valid() && pool.Now() == Run(old(pool.Now()), Events(ts))
  {
    hide Inv, Possible, Apply, PossibleTurn, Events;
    assert ts[0..] == ts;
    for i := 0 to |ts|
      invariant pool.Valid() && PossibleTurns(pool.Now(), ts[i..])
      invariant Run(pool.Now(), Events(ts[i..])) == Run(old(pool.Now()), Events(ts))
      invariant forall k | 0 <= k < |pool.jobs| :: pool.jobs[k] in old(pool.jobs) || fresh(pool.jobs[k])
    {
      assert ts[i..][0] == ts[i] && ts[i..][1..] == ts[i + 1..];
      EventsStep(ts[i..]);
      OneTurn(pool, ts[i]);
    }
    NoEvents(ts[|ts|..]);
  }

  lemma NoEvents(ts: seq<Turn>)
    requires ts == []
    ensures Events(ts) == []
  {
  }

  method OneTurn(pool: Pool, t: Turn)
    requires pool.Valid() && PossibleTurn(pool.Now(), t)
    modifies pool, pool.jobs
    ensures pool.Valid() && pool.Now() == Apply(old(pool.Now()), t.event)
    ensures forall k | 0 <= k < |pool.jobs| :: pool.jobs[k] in old(pool.jobs) || fresh(pool.jobs[k])
  {
    hide Inv, Possible, Apply;
    match t.event {
      case Queue(job, created, woken) => pool.Enqueue(job, created, woken);
      case Wake(_, _) => pool.Woken(t.event);
      case Resume(w) => pool.Proceed(w, t.inside, t.late);
      case Finish(w) => pool.Return(w);
      case Exit(w, created) => pool.ThreadExit(w, created);
      case Wait(c) => var done := pool.AwaitAll(c);
      case WakeWaiter(_) => pool.Woken(t.event);
    }
  }
}
