// A queue of tasks and the worker threads that take from it.  A step is what one thread does
// between taking the pool's lock and giving it up, be it to return or to sleep on a condition.
module ThreadPools {
  type Task = nat
  type Thread = nat

  datatype Control = Idle | Waiting(goal: nat, signalled: bool)

  // The pool, where its workers are, and what has gone through it.
  datatype Pool = Pool(
    tasks: seq<Task>, termReq: nat, threads: set<Thread>, terminated: set<Thread>,
    asleep: set<Thread>,    // in m_hCondition.wait, nobody has notified them yet
    signalled: set<Thread>, // notified, but they do not have the lock back yet
    control: Control,       // a setThreadCount sleeping on m_hCondTerminated
    enqueued: seq<Task>, taken: seq<Task>,
    asserted: bool          // no closing assertion of setThreadCount has failed
  ) {
    function ThreadCount(): int { |threads| - termReq }
  }

  const EMPTY := Pool([], 0, {}, {}, {}, {}, Idle, [], [], true)

  datatype Event =
    | Enqueue(task: Task, wake: Thread)
    | SetCount(goal: nat, wait: bool, wake: Thread, created: seq<Thread>)
    | ControllerWakes
    | Fetch(self: Thread)

  // notify_one: `wake` is the sleeper it picks, if there is one.
  function NotifyOne(p: Pool, wake: Thread): Pool {
    if wake in p.asleep then p.(asleep := p.asleep - {wake}, signalled := p.signalled + {wake}) else p
  }

  function NotifyAll(p: Pool): Pool { p.(asleep := {}, signalled := p.signalled + p.asleep) }

  // How many threads setThreadCount is to create.
  function Wanted(p: Pool, goal: nat): nat {
    if goal < p.ThreadCount() || goal - p.ThreadCount() <= p.termReq then 0 else goal - |p.threads|
  }

  // A setThreadCount that gets no more threads than it asks for, and all if the system has them.
  function Resizing(p: Pool, goal: nat, wait: bool, wake: Thread, system: seq<Thread>): Event {
    SetCount(goal, wait, wake, system[..Min(Wanted(p, goal), |system|)])
  }

  ghost predicate CanPick(p: Pool, wake: Thread) { p.asleep == {} || wake in p.asleep }

  ghost predicate Enabled(p: Pool, e: Event) {
    match e
    case Enqueue(_, wake) => CanPick(p, wake)
    case SetCount(goal, _, wake, created) =>
      && p.control.Idle? && CanPick(p, wake) && |created| <= Wanted(p, goal)
      && (forall i, j :: 0 <= i < j < |created| ==> created[i] != created[j])
      && (forall t :: t in created ==> t !in p.threads && t !in p.terminated)
    case ControllerWakes => p.control.Waiting?
    case Fetch(self) => self in p.threads
  }

  function Min(a: nat, b: nat): nat { if a < b then a else b }

  function SetOf(s: seq<Thread>): set<Thread> { set t | t in s }

  // The branches of setThreadCount before its wait loop.
  function Resized(p: Pool, goal: nat, wake: Thread, created: seq<Thread>): Pool {
    if goal == p.ThreadCount() - 1 then NotifyOne(p.(termReq := p.termReq + 1), wake)
    else if goal < p.ThreadCount() then NotifyAll(p.(termReq := p.termReq + (p.ThreadCount() - goal)))
    else if goal - p.ThreadCount() <= p.termReq then p.(termReq := p.termReq - (goal - p.ThreadCount()))
    else p.(termReq := 0, threads := p.threads + SetOf(created))
  }

  // The wait loop of setThreadCount and what follows it, up to the next sleep.
  function Settled(p: Pool, goal: nat, wait: bool): Pool {
    if wait && |p.threads| > goal then p.(control := Waiting(goal, false))
    else p.(control := Idle, terminated := {}, asserted := p.asserted && p.ThreadCount() == goal)
  }

  // getNextTask by a worker that has the lock, up to its return or its next sleep.
  function Fetched(p: Pool, self: Thread): Pool {
    var q := p.(asleep := p.asleep - {self}, signalled := p.signalled - {self});
    if q.termReq > 0 then
      q.(threads := q.threads - {self}, terminated := q.terminated + {self}, termReq := q.termReq - 1,
         control := if q.control.Waiting? then q.control.(signalled := true) else Idle)
    else if q.tasks == [] then q.(asleep := q.asleep + {self})
    else q.(tasks := q.tasks[1..], taken := q.taken + [q.tasks[0]])
  }

  function After(p: Pool, e: Event): Pool {
    match e
    case Enqueue(task, wake) =>
      NotifyOne(p.(tasks := p.tasks + [task], enqueued := p.enqueued + [task]), wake).(terminated := {})
    case SetCount(goal, wait, wake, created) => Settled(Resized(p, goal, wake, created), goal, wait)
    case ControllerWakes =>
      if p.control.Waiting? then Settled(p.(terminated := {}), p.control.goal, true) else p
    case Fetch(self) => Fetched(p, self)
  }

  function Run(p: Pool, es: seq<Event>): Pool
    decreases |es|
  {
    if es == [] then p else Run(After(p, es[0]), es[1..])
  }

  ghost predicate Runs(p: Pool, es: seq<Event>)
    decreases |es|
  {
    es == [] || (Enabled(p, es[0]) && Runs(After(p, es[0]), es[1..]))
  }

  // ---------------------------------------------------------------------------
  // What every step keeps

  ghost predicate Sound(p: Pool) {
    && p.asleep <= p.threads && p.signalled <= p.threads && p.asleep !! p.signalled
    && p.threads !! p.terminated
    && p.termReq <= |p.threads|
    && NoLostWakeup(p)
    && p.enqueued == p.taken + p.tasks
    && (p.control.Waiting? ==> p.ThreadCount() == p.control.goal)
    && (p.control.Waiting? && !p.control.signalled ==> |p.threads| > p.control.goal)
  }

  // As long as a worker sleeps unnoticed, every task and every request to terminate has another
  // worker already woken for it.
  ghost predicate NoLostWakeup(p: Pool) { p.asleep != {} ==> |p.tasks| + p.termReq <= |p.signalled| }

  lemma {:induction false} SizeWithout(s: set<Thread>, t: Thread)
    ensures |s - {t}| == if t in s then |s| - 1 else |s|
    ensures |s + {t}| == if t in s then |s| else |s| + 1
  {
    if t in s {
      assert s - {t} + {t} == s;
      assert s + {t} == s;
    } else {
      assert s - {t} == s;
    }
  }

  lemma {:induction false} SizeCreated(threads: set<Thread>, created: seq<Thread>)
    requires forall i, j :: 0 <= i < j < |created| ==> created[i] != created[j]
    requires forall t :: t in created ==> t !in threads
    ensures |threads + SetOf(created)| == |threads| + |created|
  {
    if created == [] {
      assert threads + SetOf(created) == threads;
    } else {
      var last, rest := created[|created| - 1], created[..|created| - 1];
      SizeCreated(threads, rest);
      assert last !in rest;
      SizeWithout(threads + SetOf(rest), last);
      assert threads + SetOf(created) == threads + SetOf(rest) + {last} by {
        assert created == rest + [last];
      }
    }
  }

  lemma {:induction false} LeavingIsSound(p: Pool, self: Thread)
    requires Sound(p) && self in p.threads && p.termReq > 0
    ensures Sound(Fetched(p, self)) && Fetched(p, self).ThreadCount() == p.ThreadCount()
  {
    SizeWithout(p.threads, self);
    SizeWithout(p.signalled, self);
  }

  lemma {:induction false} SleepingIsSound(p: Pool, self: Thread)
    requires Sound(p) && self in p.threads && p.termReq == 0 && p.tasks == []
    ensures Sound(Fetched(p, self)) && Fetched(p, self).ThreadCount() == p.ThreadCount()
  {
  }

  lemma {:induction false} TakingIsSound(p: Pool, self: Thread)
    requires Sound(p) && self in p.threads && p.termReq == 0 && p.tasks != []
    ensures Sound(Fetched(p, self)) && Fetched(p, self).ThreadCount() == p.ThreadCount()
  {
    SizeWithout(p.signalled, self);
    assert p.tasks == [p.tasks[0]] + p.tasks[1..];
  }

  // Workers never change the thread count: one that leaves serves one request to terminate.
  lemma {:induction false} FetchIsSound(p: Pool, self: Thread)
    requires Sound(p) && self in p.threads
    ensures Sound(Fetched(p, self)) && Fetched(p, self).ThreadCount() == p.ThreadCount()
  {
    hide Sound, Fetched;
    if p.termReq > 0 {
      LeavingIsSound(p, self);
    } else if p.tasks == [] {
      SleepingIsSound(p, self);
    } else {
      TakingIsSound(p, self);
    }
  }

  lemma {:induction false} AskingOneIsSound(p: Pool, wake: Thread)
    requires Sound(p) && p.control.Idle? && CanPick(p, wake) && p.ThreadCount() >= 1
    ensures Sound(NotifyOne(p.(termReq := p.termReq + 1), wake))
  {
    SizeWithout(p.signalled, wake);
  }

  lemma {:induction false} AskingManyIsSound(p: Pool, more: nat)
    requires Sound(p) && p.control.Idle? && more <= p.ThreadCount()
    ensures Sound(NotifyAll(p.(termReq := p.termReq + more)))
  {
  }

  lemma {:induction false} AskingLessIsSound(p: Pool, less: nat)
    requires Sound(p) && p.control.Idle? && less <= p.termReq
    ensures Sound(p.(termReq := p.termReq - less))
  {
  }

  lemma {:induction false} CreatingIsSound(p: Pool, created: seq<Thread>)
    requires Sound(p) && p.control.Idle?
    requires forall i, j :: 0 <= i < j < |created| ==> created[i] != created[j]
    requires forall t :: t in created ==> t !in p.threads && t !in p.terminated
    ensures Sound(p.(termReq := 0, threads := p.threads + SetOf(created)))
    ensures |p.threads + SetOf(created)| == |p.threads| + |created|
  {
    SizeCreated(p.threads, created);
  }

  lemma {:induction false} SetCountIsSound(p: Pool, goal: nat, wake: Thread, created: seq<Thread>)
    requires Sound(p) && Enabled(p, SetCount(goal, false, wake, created))
    ensures var q := Resized(p, goal, wake, created);
            && Sound(q) && q.control.Idle? && q.asserted == p.asserted
            && q.ThreadCount() == goal - (Wanted(p, goal) - |created|)
  {
    RequestsFit(p);
    hide Sound, SetOf;
    if goal == p.ThreadCount() - 1 {
      AskingOneIsSound(p, wake);
    } else if goal < p.ThreadCount() {
      AskingManyIsSound(p, p.ThreadCount() - goal);
    } else if goal - p.ThreadCount() <= p.termReq {
      AskingLessIsSound(p, goal - p.ThreadCount());
    } else {
      CreatingIsSound(p, created);
    }
  }

  lemma {:induction false} RequestsFit(p: Pool)
    requires Sound(p)
    ensures p.ThreadCount() >= 0
  {
  }

  lemma {:induction false} EnqueueIsSound(p: Pool, task: Task, wake: Thread)
    requires Sound(p) && CanPick(p, wake)
    ensures Sound(After(p, Enqueue(task, wake)))
  {
    SizeWithout(p.signalled, wake);
  }

  lemma {:induction false} SettlingIsSound(p: Pool, goal: nat, wait: bool)
    requires Sound(p) && (p.ThreadCount() == goal || |p.threads| <= goal)
    ensures Sound(Settled(p, goal, wait))
  {
  }

  lemma {:induction false} StepIsSound(p: Pool, e: Event)
    requires Sound(p) && Enabled(p, e)
    ensures Sound(After(p, e))
  {
    hide Settled, Resized, Fetched, NotifyOne;
    match e
    case Enqueue(task, wake) =>
      EnqueueIsSound(p, task, wake);
    case SetCount(goal, wait, wake, created) =>
      SetCountIsSound(p, goal, wake, created);
      FewerThanWanted(p, goal, wake, created);
      SettlingIsSound(Resized(p, goal, wake, created), goal, wait);
    case ControllerWakes =>
      SettlingIsSound(p.(terminated := {}), p.control.goal, true);
    case Fetch(self) =>
      FetchIsSound(p, self);
  }

  // If the system refuses a thread, there are too few threads and nothing to wait for.
  lemma {:induction false} FewerThanWanted(p: Pool, goal: nat, wake: Thread, created: seq<Thread>)
    requires Sound(p) && Enabled(p, SetCount(goal, false, wake, created))
    ensures |created| < Wanted(p, goal) ==> |Resized(p, goal, wake, created).threads| < goal
  {
    SizeCreated(p.threads, created);
  }

  // In every run of the pool no wakeup is lost, tasks leave in the order they came and once each,
  // and there are never more requests to terminate than threads.
  lemma {:induction false} RunIsSound(p: Pool, es: seq<Event>)
    requires Sound(p) && Runs(p, es)
    ensures Sound(Run(p, es))
    decreases |es|
  {
    if es != [] {
      StepIsSound(p, es[0]);
      RunIsSound(After(p, es[0]), es[1..]);
    }
  }

  // ---------------------------------------------------------------------------
  // The closing assertion of setThreadCount

  // Every thread that was to be created in the run was created.
  ghost predicate AllCreated(p: Pool, es: seq<Event>)
    decreases |es|
  {
    es == [] || (Created(p, es[0]) && AllCreated(After(p, es[0]), es[1..]))
  }

  ghost predicate Created(p: Pool, e: Event) { e.SetCount? ==> |e.created| == Wanted(p, e.goal) }

  lemma {:induction false} StepAsserts(p: Pool, e: Event)
    requires Sound(p) && Enabled(p, e)
    ensures After(p, e).asserted <==> p.asserted && Created(p, e)
    ensures !e.SetCount? ==> After(p, e).ThreadCount() == p.ThreadCount()
    ensures e.SetCount? && Created(p, e) ==> After(p, e).ThreadCount() == e.goal
  {
    match e
    case Enqueue(_, _) =>
    case SetCount(goal, wait, wake, created) =>
      SetCountIsSound(p, goal, wake, created);
      FewerThanWanted(p, goal, wake, created);
    case ControllerWakes =>
    case Fetch(self) =>
      FetchIsSound(p, self);
  }

  // Whoever joins leaves no thread behind that has ended, and to ask for one more thing to be done,
  // be it a task or an end, never wakes more than one worker.
  lemma {:induction false} StepJoins(p: Pool, e: Event)
    requires Sound(p) && Enabled(p, e)
    ensures e.Enqueue? || e.ControllerWakes? || (e.SetCount? && After(p, e).control.Idle?) ==>
              After(p, e).terminated == {}
    ensures e.Enqueue? || (e.SetCount? && e.goal == p.ThreadCount() - 1) ==>
              After(p, e).signalled <= p.signalled + {e.wake}
  {
  }

  // With one controller the closing assertions of a run all hold exactly if the system refused
  // no thread.
  lemma {:induction false} RunAsserts(p: Pool, es: seq<Event>)
    requires Sound(p) && Runs(p, es)
    ensures Run(p, es).asserted <==> p.asserted && AllCreated(p, es)
    decreases |es|
  {
    if es != [] {
      StepAsserts(p, es[0]);
      StepIsSound(p, es[0]);
      RunAsserts(After(p, es[0]), es[1..]);
    }
  }

  // ---------------------------------------------------------------------------
  // The wait of setThreadCount

  // A controller that does not wait never sleeps; one that waits sleeps exactly as long as there
  // are more threads than it wants, and whatever else happens leaves it asleep.
  lemma {:induction false} StepWaits(p: Pool, e: Event)
    requires Sound(p) && Enabled(p, e)
    ensures var q := After(p, e);
            match e
            case SetCount(goal, wait, _, _) =>
              && (q.control.Idle? <==> !wait || |q.threads| <= goal)
              && (q.control.Waiting? ==> q.control.goal == goal)
            case ControllerWakes =>
              && (q.control.Idle? <==> |q.threads| <= p.control.goal)
              && (q.control.Waiting? ==> q.control.goal == p.control.goal)
            case _ =>
              if p.control.Idle? then q.control.Idle? else q.control.Waiting? && q.control.goal == p.control.goal
  {
  }

  // In every run a waiting controller goes on only when there are no more threads than it wants.
  lemma {:induction false} WaitEndsWithEnoughGone(p: Pool, es: seq<Event>) returns (i: nat)
    requires Sound(p) && Runs(p, es) && p.control.Waiting? && Run(p, es).control.Idle?
    ensures 0 < i <= |es| && Run(p, es[..i]).control.Idle? && |Run(p, es[..i]).threads| <= p.control.goal
    ensures forall j :: 0 <= j < i ==>
              Run(p, es[..j]).control.Waiting? && Run(p, es[..j]).control.goal == p.control.goal
    decreases |es|
  {
    var q := After(p, es[0]);
    StepWaits(p, es[0]);
    StepIsSound(p, es[0]);
    forall j | 0 < j <= |es|
      ensures Run(p, es[..j]) == Run(q, es[1..][..j - 1])
    {
      assert es[..j][0] == es[0] && es[..j][1..] == es[1..][..j - 1];
    }
    if q.control.Idle? {
      i := 1;
      assert es[1..][..0] == [];
    } else {
      var k := WaitEndsWithEnoughGone(q, es[1..]);
      i := k + 1;
      assert es[..0] == [];
    }
  }

  // A request to terminate is served before any task, by the first worker that comes; without one
  // the worker takes the front task, and sleeps only if there is none.
  lemma {:induction false} RequestsComeFirst(p: Pool, self: Thread)
    requires Sound(p) && self in p.threads
    ensures var q := Fetched(p, self);
            && q.termReq + |q.terminated| == p.termReq + |p.terminated|
            && (q.termReq < p.termReq <==> p.termReq > 0)
            && (q.termReq < p.termReq <==> self !in q.threads)
            && (self in q.asleep <==> p.termReq == 0 && p.tasks == [])
            && q.taken == p.taken + (if p.termReq == 0 && p.tasks != [] then [p.tasks[0]] else [])
  {
    SizeWithout(p.terminated, self);
  }

  // ---------------------------------------------------------------------------
  // The queue

  function TasksOf(es: seq<Event>): seq<Task> {
    if es == [] then [] else (if es[0].Enqueue? then [es[0].task] else []) + TasksOf(es[1..])
  }

  lemma {:induction false} StepEnqueues(p: Pool, e: Event)
    ensures After(p, e).enqueued == p.enqueued + if e.Enqueue? then [e.task] else []
  {
  }

  lemma {:induction false} RunEnqueues(p: Pool, es: seq<Event>)
    ensures Run(p, es).enqueued == p.enqueued + TasksOf(es)
    decreases |es|
  {
    hide After;
    if es != [] {
      StepEnqueues(p, es[0]);
      RunEnqueues(After(p, es[0]), es[1..]);
    }
  }

  // After a run, what was taken followed by what is still queued is, in order, all that was enqueued.
  lemma {:induction false} FirstInFirstOut(p: Pool, es: seq<Event>)
    requires Sound(p) && Runs(p, es)
    ensures Run(p, es).taken + Run(p, es).tasks == p.enqueued + TasksOf(es)
  {
    RunIsSound(p, es);
    RunEnqueues(p, es);
  }

  // ---------------------------------------------------------------------------
  // Workers left to themselves

  // What there is left to do for workers that are awake.
  ghost function Work(p: Pool): nat
    requires Sound(p)
  {
    2 * (|p.tasks| + p.termReq) + |p.threads - p.asleep|
  }

  lemma {:induction false} FetchWorks(p: Pool, self: Thread)
    requires Sound(p) && self in p.threads - p.asleep
    ensures Sound(Fetched(p, self)) && Work(Fetched(p, self)) < Work(p)
  {
    hide Sound;
    FetchIsSound(p, self);
    var awake := p.threads - p.asleep;
    SizeWithout(awake, self);
    AwakeAfter(p, self);
  }

  lemma {:induction false} AwakeAfter(p: Pool, self: Thread)
    requires self in p.threads - p.asleep
    ensures var q := Fetched(p, self);
            && q.threads - q.asleep == (if p.termReq > 0 || p.tasks == [] then p.threads - p.asleep - {self}
                else p.threads - p.asleep)
            && |q.tasks| + q.termReq == |p.tasks| + p.termReq - if p.termReq > 0 || p.tasks != [] then 1 else 0
  {
  }

  // A run of awake workers fetching is at most as long as the work there was.
  lemma {:induction false} WorkersFinish(p: Pool, es: seq<Event>)
    requires Sound(p) && Runs(p, es) && FetchedAwake(p, es)
    ensures Sound(Run(p, es)) && |es| + Work(Run(p, es)) <= Work(p)
    decreases |es|
  {
    if es != [] {
      FetchWorks(p, es[0].self);
      WorkersFinish(After(p, es[0]), es[1..]);
    }
  }

  ghost predicate FetchedAwake(p: Pool, es: seq<Event>)
    decreases |es|
  {
    es == [] || (es[0].Fetch? && es[0].self !in p.asleep && FetchedAwake(After(p, es[0]), es[1..]))
  }

  // Once no worker is awake the queue is empty, every request to terminate is served and nobody
  // is left waiting for threads to go.
  lemma {:induction false} NobodyIsForgotten(p: Pool)
    requires Sound(p) && p.threads == p.asleep
    ensures p.threads != {} ==> p.tasks == []
    ensures p.termReq == 0
    ensures p.control.Waiting? ==> p.control.signalled
  {
    if p.threads != {} {
      assert p.signalled == {};
    }
  }

  // ---------------------------------------------------------------------------
  // The pool itself

  class ThreadPool {
    var tasks: seq<Task>
    var threads: set<Thread>
    var terminated: set<Thread>
    var termReq: nat
    ghost var asleep: set<Thread>
    ghost var signalled: set<Thread>
    ghost var control: Control
    ghost var enqueued: seq<Task>
    ghost var taken: seq<Task>
    ghost var asserted: bool

    ghost function Now(): Pool
      reads this
    {
      Pool(tasks, termReq, threads, terminated, asleep, signalled, control, enqueued, taken, asserted)
    }

    constructor (threadCount: nat, system: seq<Thread>)
      requires Enabled(EMPTY, Resizing(EMPTY, threadCount, false, 0, system))
      ensures Now() == After(EMPTY, Resizing(EMPTY, threadCount, false, 0, system)) && Sound(Now())
    {
      tasks, threads, terminated, termReq := [], {}, {}, 0;
      asleep, signalled, control, enqueued, taken, asserted := {}, {}, Idle, [], [], true;
      new;
      assert Sound(EMPTY);
      var _ := SetThreadCount(threadCount, false, system, 0);
    }

    method ThreadCount() returns (count: int)
      ensures count == Now().ThreadCount()
    {
      count := |threads| - termReq;
    }

    // m_hCondition.notify_one and notify_all
    ghost method WakeOne(wake: Thread)
      modifies this`asleep, this`signalled
      ensures Now() == NotifyOne(old(Now()), wake)
    {
      if wake in asleep {
        asleep, signalled := asleep - {wake}, signalled + {wake};
      }
    }

    ghost method WakeAll()
      modifies this`asleep, this`signalled
      ensures Now() == NotifyAll(old(Now()))
    {
      asleep, signalled := {}, signalled + asleep;
    }

    method JoinTerminated()
      modifies this`terminated
      ensures Now() == old(Now()).(terminated := {})
    {
      terminated := {};
    }

    method Enqueue(task: Task, ghost wake: Thread)
      requires Sound(Now()) && CanPick(Now(), wake)
      modifies this
      ensures Now() == After(old(Now()), Event.Enqueue(task, wake)) && Sound(Now())
    {
      hide Sound;
      StepIsSound(Now(), Event.Enqueue(task, wake));
      tasks := tasks + [task];
      enqueued := enqueued + [task];
      WakeOne(wake);
      JoinTerminated();
    }

    // Up to the return (`done`) or to the first sleep on m_hCondTerminated.  `system` are the threads
    // there are to be had, one for each attempt to create one until they run out.
    method SetThreadCount(goal: nat, wait: bool, system: seq<Thread>, ghost wake: Thread) returns (done: bool)
      requires Sound(Now()) && Enabled(Now(), Resizing(Now(), goal, wait, wake, system))
      modifies this
      ensures Now() == After(old(Now()), Resizing(old(Now()), goal, wait, wake, system)) && Sound(Now())
      ensures done <==> control.Idle?
      ensures done <==> !wait || |threads| <= goal
    {
      hide Sound, Settled, Resized, Enabled;
      StepIsSound(Now(), Resizing(Now(), goal, wait, wake, system));
      RequestsFit(Now());
      Resize(goal, system, wake);
      done := Settle(goal, wait);
    }

    // What comes before the wait loop.
    method Resize(goal: nat, system: seq<Thread>, ghost wake: Thread)
      requires termReq <= |threads|
      modifies this
      ensures Now() == Resized(old(Now()), goal, wake, system[..Min(Wanted(old(Now()), goal), |system|)])
    {
      hide Sound, Settled, NotifyOne, NotifyAll;
      var count := ThreadCount();
      if goal == count - 1 {
        termReq := termReq + 1;
        WakeOne(wake);
      } else if goal < count {
        termReq := termReq + (count - goal);
        WakeAll();
      } else {
        var toAdd := goal - count;
        if toAdd <= termReq {
          termReq := termReq - toAdd;
        } else {
          toAdd := toAdd - termReq;
          termReq := 0;
          CreateThreads(toAdd, system);
        }
      }
    }

    method CreateThreads(toAdd: nat, system: seq<Thread>)
      modifies this`threads
      ensures threads == old(threads) + SetOf(system[..Min(toAdd, |system|)])
    {
      for i := 0 to toAdd
        invariant threads == old(threads) + SetOf(system[..Min(i, |system|)])
      {
        if i >= |system| {
          break;
        }
        assert SetOf(system[..i + 1]) == SetOf(system[..i]) + {system[i]};
        threads := threads + {system[i]};
      }
    }

    // The test of the wait loop, and what follows the loop.
    method Settle(goal: nat, wait: bool) returns (done: bool)
      modifies this`control, this`terminated, this`asserted
      ensures Now() == Settled(old(Now()), goal, wait) && (done <==> control.Idle?)
      ensures done <==> !wait || |threads| <= goal
    {
      if wait && |threads| > goal {
        control := Waiting(goal, false);
        return false;
      }
      asserted := asserted && Now().ThreadCount() == goal;
      JoinTerminated();
      control := Idle;
      done := true;
    }

    // setThreadCount goes on after its sleep.
    method Resume(goal: nat) returns (done: bool)
      requires Sound(Now()) && control.Waiting? && goal == control.goal
      modifies this
      ensures Now() == After(old(Now()), ControllerWakes) && Sound(Now())
      ensures done <==> control.Idle?
      ensures done <==> |threads| <= goal
    {
      hide Sound;
      StepIsSound(Now(), ControllerWakes);
      JoinTerminated();
      done := Settle(goal, true);
    }

    // By a worker that has the lock: whether it got a task, is to exit, or (`sleeps`) is to call
    // this again when it is woken.
    method GetNextTask(self: Thread) returns (sleeps: bool, got: bool, task: Task)
      requires Sound(Now()) && self in threads
      modifies this
      ensures Now() == After(old(Now()), Fetch(self)) && Sound(Now())
      ensures sleeps <==> self in asleep
      ensures sleeps <==> old(termReq) == 0 && old(tasks) == []
      ensures got <==> old(termReq) == 0 && old(tasks) != []
      ensures got ==> task == old(tasks)[0] && taken == old(taken) + [task]
      ensures !sleeps && !got ==> self in terminated
    {
      hide Sound;
      StepIsSound(Now(), Fetch(self));
      FetchPlaces(Now(), self);
      asleep, signalled := asleep - {self}, signalled - {self};
      sleeps, got, task := false, false, 0;
      var terminate := termReq > 0;
      if !terminate && tasks == [] {
        asleep := asleep + {self};
        return true, false, 0;
      }
      if terminate {
        terminated := terminated + {self};
        threads := threads - {self};
        termReq := termReq - 1;
        if control.Waiting? {
          control := control.(signalled := true);
        }
        return;
      }
      task := tasks[0];
      tasks := tasks[1..];
      taken := taken + [task];
      got := true;
    }
  }

  lemma {:induction false} FetchPlaces(p: Pool, self: Thread)
    requires self in p.threads
    ensures self in Fetched(p, self).asleep <==> p.termReq == 0 && p.tasks == []
  {
  }
}
