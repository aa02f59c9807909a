/** The thread pool as a protocol: workers, callers of `enqueue` and the destructor take steps
    in any order; a mutex serialises what they do to the queue. */
module ThreadPool {

  /** Tasks are numbered in the order in which `enqueue` accepts them. */
  type Task = nat

  /** Where a worker is. `Ready` covers the start of its loop and the time after a wake-up: it
      needs the mutex. `Testing` and `Popped` hold it. */
  datatype Worker = Ready | Testing | Blocked | Popped(task: Task) | Running(task: Task) | Exited

  /** Who holds the mutex. A caller holds it before and after it has pushed its task. */
  datatype Holder = Nobody | ByWorker(i: nat) | ByCaller(pushed: bool) | ByDestructor

  datatype Destructor = NotCalled | Locked | Stopped | Joining(joined: nat)

  /** `notifying` counts the callers that have pushed a task and released the mutex, but not
      yet notified. `accepted` counts accepted tasks, `finished` lists those that have run. */
  datatype Pool = Pool(
    workers: seq<Worker>, holder: Holder, queue: seq<Task>, stop: bool,
    notifying: nat, destructor: Destructor, accepted: nat, finished: seq<Task>)

  predicate Starts(s: Pool) {
    |s.workers| > 0 && (forall i :: 0 <= i < |s.workers| ==> s.workers[i] == Ready)
    && s.holder == Nobody && s.queue == [] && !s.stop && s.notifying == 0
    && s.destructor == NotCalled && s.accepted == 0 && s.finished == []
  }

  datatype Action =
    | Acquire(i: nat)          // a worker takes the mutex
    | Test(i: nat)             // it tests the condition: it pops a task, leaves, or blocks
    | Release(i: nat)          // it releases the mutex with its task
    | Finish(i: nat)           // its task ends
    | Wake(i: nat)             // a blocked worker wakes without being notified
    | Enqueue                  // a caller takes the mutex
    | Push                     // it pushes its task, or throws if the pool is stopped
    | Unlock                   // it releases the mutex
    | NotifyOne(i: nat)        // it notifies: one blocked worker wakes up
    | NotifyNobody             // it notifies, but no worker is blocked
    | Destroy                  // the destructor takes the mutex
    | Stop                     // it sets the flag and releases the mutex
    | NotifyAll                // it wakes every blocked worker
    | Join                     // it joins the next worker

  function Set(s: Pool, i: nat, w: Worker): Pool
    requires i < |s.workers|
  {
    s.(workers := s.workers[i := w])
  }

  predicate Enabled(s: Pool, a: Action) {
    match a
    case Acquire(i) => i < |s.workers| && s.workers[i].Ready? && s.holder.Nobody?
    case Test(i) => i < |s.workers| && s.workers[i].Testing? && s.holder == ByWorker(i)
    case Release(i) => i < |s.workers| && s.workers[i].Popped? && s.holder == ByWorker(i)
    case Finish(i) => i < |s.workers| && s.workers[i].Running?
    case Wake(i) => i < |s.workers| && s.workers[i].Blocked?
    case Enqueue => s.holder.Nobody?
    case Push => s.holder == ByCaller(false)
    case Unlock => s.holder == ByCaller(true)
    case NotifyOne(i) => s.notifying > 0 && i < |s.workers| && s.workers[i].Blocked?
    case NotifyNobody => s.notifying > 0 && forall i :: 0 <= i < |s.workers| ==> !s.workers[i].Blocked?
    case Destroy => s.destructor.NotCalled? && s.holder.Nobody?
    case Stop => s.destructor.Locked? && s.holder.ByDestructor?
    case NotifyAll => s.destructor.Stopped?
    case Join => s.destructor.Joining? && s.destructor.joined < |s.workers| && s.workers[s.destructor.joined].Exited?
  }

  function Apply(s: Pool, a: Action): Pool
    requires Enabled(s, a)
  {
    match a
    case Acquire(i) => Set(s, i, Testing).(holder := ByWorker(i))
    case Test(i) =>
      if !s.stop && s.queue == [] then Set(s, i, Blocked).(holder := Nobody)
      else if s.queue == [] then Set(s, i, Exited).(holder := Nobody)
      else Set(s, i, Popped(s.queue[0])).(queue := s.queue[1..])
    case Release(i) => Set(s, i, Running(s.workers[i].task)).(holder := Nobody)
    case Finish(i) => Set(s, i, Ready).(finished := s.finished + [s.workers[i].task])
    case Wake(i) => Set(s, i, Ready)
    case Enqueue => s.(holder := ByCaller(false))
    case Push =>
      if s.stop then s.(holder := Nobody)
      else s.(holder := ByCaller(true), queue := s.queue + [s.accepted], accepted := s.accepted + 1)
    case Unlock => s.(holder := Nobody, notifying := s.notifying + 1)
    case NotifyOne(i) => Set(s, i, Ready).(notifying := s.notifying - 1)
    case NotifyNobody => s.(notifying := s.notifying - 1)
    case Destroy => s.(holder := ByDestructor, destructor := Locked)
    case Stop => s.(holder := Nobody, stop := true, destructor := Stopped)
    case NotifyAll => s.(workers := Woken(s.workers), destructor := Joining(0))
    case Join => s.(destructor := Joining(s.destructor.joined + 1))
  }

  function Woken(ws: seq<Worker>): seq<Worker> {
    seq(|ws|, i requires 0 <= i < |ws| => if ws[i].Blocked? then Ready else ws[i])
  }

  // ---------------------------------------------------------------- the invariant

  /** The worker has a task that it has taken from the queue and not finished. */
  predicate Has(w: Worker) {
    w.Popped? || w.Running?
  }

  /** The mutex and the places of those that hold it agree. */
  ghost predicate MutexOk(s: Pool) {
    (forall i :: 0 <= i < |s.workers| ==> (s.workers[i].Testing? || s.workers[i].Popped? <==> s.holder == ByWorker(i)))
    && (s.holder.ByWorker? ==> s.holder.i < |s.workers|)
    && (s.holder.ByDestructor? <==> s.destructor.Locked?)
    && (s.stop <==> s.destructor.Stopped? || s.destructor.Joining?)
  }

  /** The number of tasks taken from the queue. */
  function Taken(s: Pool): int {
    s.accepted - |s.queue|
  }

  /** First in, first out: the queue holds the tasks accepted last, in order. */
  ghost predicate Fifo(s: Pool) {
    |s.queue| <= s.accepted && forall k :: 0 <= k < |s.queue| ==> s.queue[k] == Taken(s) + k
  }

  ghost predicate HeldBy(ws: seq<Worker>, i: int, t: Task) {
    0 <= i < |ws| && Has(ws[i]) && ws[i].task == t
  }

  ghost predicate Held(ws: seq<Worker>, t: Task) {
    exists i :: HeldBy(ws, i, t)
  }

  /** A taken task has run once, or one worker has it and it will. */
  ghost predicate Once(s: Pool) {
    (forall j, k :: 0 <= j < k < |s.finished| ==> s.finished[j] != s.finished[k])
    && (forall k :: 0 <= k < |s.finished| ==> s.finished[k] < Taken(s))
    && (forall i :: 0 <= i < |s.workers| && Has(s.workers[i]) ==> s.workers[i].task < Taken(s) && s.workers[i].task !in s.finished)
    && (forall i, j :: 0 <= i < j < |s.workers| && Has(s.workers[i]) && Has(s.workers[j]) ==> s.workers[i].task != s.workers[j].task)
    && (forall t: Task :: t < Taken(s) ==> t in s.finished || Held(s.workers, t))
  }

  predicate IsAwake(w: Worker) {
    !w.Blocked? && !w.Exited?
  }

  /** No wake-up is lost: while tasks wait, a worker is awake or a notification is to come. */
  ghost predicate Awake(s: Pool) {
    s.queue != [] ==>
      s.notifying > 0 || s.holder == ByCaller(true) || s.destructor.Stopped?
      || exists i :: 0 <= i < |s.workers| && IsAwake(s.workers[i])
  }

  /** Workers leave only a stopped pool without tasks, and none stays blocked in it. */
  ghost predicate Leaving(s: Pool) {
    |s.workers| > 0
    && (forall i :: 0 <= i < |s.workers| && s.workers[i].Exited? ==> s.stop && s.queue == [])
    && (s.destructor.Joining? ==>
          s.destructor.joined <= |s.workers|
          && (forall i :: 0 <= i < |s.workers| ==> !s.workers[i].Blocked?)
          && (forall i :: 0 <= i < s.destructor.joined ==> s.workers[i].Exited?))
  }

  ghost predicate Inv(s: Pool) {
    MutexOk(s) && Fifo(s) && Once(s) && Awake(s) && Leaving(s)
  }

  lemma InvStarts(s: Pool)
    requires Starts(s)
    ensures Inv(s)
  {
  }

  lemma MutexStep(s: Pool, a: Action)
    requires Inv(s) && Enabled(s, a)
    ensures MutexOk(Apply(s, a))
  {
    hide Fifo, Once, Awake, Leaving;
  }

  lemma FifoStep(s: Pool, a: Action)
    requires Inv(s) && Enabled(s, a)
    ensures Fifo(Apply(s, a))
  {
    hide MutexOk, Once, Awake, Leaving;
  }

  predicate SameTask(w: Worker, w': Worker) {
    Has(w) == Has(w') && (Has(w) ==> w.task == w'.task)
  }

  /** A step that neither takes nor finishes a task. */
  lemma OnceSame(s: Pool, s': Pool)
    requires Once(s) && Taken(s') == Taken(s) && s'.finished == s.finished && |s'.workers| == |s.workers|
    requires forall i :: 0 <= i < |s.workers| ==> SameTask(s.workers[i], s'.workers[i])
    ensures Once(s')
  {
    forall t: Task | t < Taken(s') && t !in s'.finished ensures Held(s'.workers, t) {
      var i :| HeldBy(s.workers, i, t);
      assert HeldBy(s'.workers, i, t);
    }
  }

  lemma OncePop(s: Pool, s': Pool, i: nat)
    requires Fifo(s) && Once(s) && s.queue != [] && i < |s.workers| && s.workers[i].Testing?
    requires s' == Set(s, i, Popped(s.queue[0])).(queue := s.queue[1..])
    ensures Once(s')
  {
    var t0: Task := s.queue[0];
    assert t0 == Taken(s) && Taken(s') == t0 + 1;
    assert HeldBy(s'.workers, i, t0);
    forall t: Task | t < Taken(s') && t != t0 && t !in s'.finished ensures Held(s'.workers, t) {
      var j :| HeldBy(s.workers, j, t);
      assert HeldBy(s'.workers, j, t);
    }
  }

  lemma OnceFinish(s: Pool, s': Pool, i: nat)
    requires Once(s) && i < |s.workers| && s.workers[i].Running?
    requires s' == Set(s, i, Ready).(finished := s.finished + [s.workers[i].task])
    ensures Once(s')
  {
    var t0 := s.workers[i].task;
    assert s'.finished[|s.finished|] == t0;
    assert forall k :: 0 <= k < |s.finished| ==> s'.finished[k] == s.finished[k] && s.finished[k] in s.finished;
    forall t: Task | t < Taken(s') && t !in s'.finished ensures Held(s'.workers, t) {
      assert t in s.finished ==> t in s'.finished;
      var j :| HeldBy(s.workers, j, t);
      assert HeldBy(s'.workers, j, t);
    }
  }

  lemma OnceStep(s: Pool, a: Action)
    requires Inv(s) && Enabled(s, a)
    ensures Once(Apply(s, a))
  {
    hide MutexOk, Awake, Leaving, Once;
    var s' := Apply(s, a);
    if a.Test? && s.queue != [] {
      OncePop(s, s', a.i);
    } else if a.Finish? {
      OnceFinish(s, s', a.i);
    } else {
      OnceSame(s, s');
    }
  }

  /** A worker that is awake in a pool whose workers are not blocked. */
  lemma SomeAwake(s: Pool)
    requires |s.workers| > 0 && s.queue != [] && forall i :: 0 <= i < |s.workers| ==> !s.workers[i].Blocked?
    requires forall i :: 0 <= i < |s.workers| && s.workers[i].Exited? ==> s.queue == []
    ensures IsAwake(s.workers[0])
  {
  }

  lemma AwakeStep(s: Pool, a: Action)
    requires Inv(s) && Enabled(s, a)
    ensures Awake(Apply(s, a))
  {
    hide Fifo, Once;
    var s' := Apply(s, a);
    if s'.queue != [] {
      match a {
        case Acquire(i) => assert IsAwake(s'.workers[i]);
        case Test(i) => assert IsAwake(s'.workers[i]);
        case Release(i) => assert IsAwake(s'.workers[i]);
        case Finish(i) => assert IsAwake(s'.workers[i]);
        case Wake(i) => assert IsAwake(s'.workers[i]);
        case NotifyOne(i) => assert IsAwake(s'.workers[i]);
        case NotifyNobody => SomeAwake(s);
        case NotifyAll => SomeAwake(s');
        case Join => SomeAwake(s);
        case _ =>
      }
    }
  }

  lemma LeavingStep(s: Pool, a: Action)
    requires Inv(s) && Enabled(s, a)
    ensures Leaving(Apply(s, a))
  {
    hide Fifo, Once, Awake;
  }

  // ---------------------------------------------------------------- runs

  /** A run: each state follows from the one before by some step. */
  ghost predicate Run(ss: seq<Pool>, acts: seq<Action>) {
    |ss| == |acts| + 1 && Starts(ss[0])
    && forall k :: 0 <= k < |acts| ==> Follows(ss, acts, k)
  }

  ghost predicate Follows(ss: seq<Pool>, acts: seq<Action>, k: int)
    requires |ss| == |acts| + 1
  {
    0 <= k < |acts| && Enabled(ss[k], acts[k]) && ss[k + 1] == Apply(ss[k], acts[k])
  }

  lemma InvStep(s: Pool, a: Action)
    requires Inv(s) && Enabled(s, a)
    ensures Inv(Apply(s, a))
  {
    hide MutexOk, Fifo, Once, Awake, Leaving;
    MutexStep(s, a);
    FifoStep(s, a);
    OnceStep(s, a);
    AwakeStep(s, a);
    LeavingStep(s, a);
  }

  lemma {:induction false} InvAlways(ss: seq<Pool>, acts: seq<Action>, k: nat)
    requires Run(ss, acts) && k < |ss|
    ensures Inv(ss[k])
    decreases k
  {
    hide Inv, Starts, Enabled;
    if k == 0 {
      InvStarts(ss[0]);
    } else {
      InvAlways(ss, acts, k - 1);
      assert Follows(ss, acts, k - 1);
      InvStep(ss[k - 1], acts[k - 1]);
    }
  }

  /** In every state of every run: the queue is first in, first out; no task runs twice; a task
      that is neither queued nor finished is with exactly one worker; and while tasks wait, a
      worker is awake or a notification is to come. */
  lemma Safety(ss: seq<Pool>, acts: seq<Action>, k: nat)
    requires Run(ss, acts) && k < |ss|
    ensures Fifo(ss[k]) && Once(ss[k]) && Awake(ss[k])
  {
    InvAlways(ss, acts, k);
  }

  /** Tasks are taken in the order in which they were accepted. */
  lemma TakenInOrder(ss: seq<Pool>, acts: seq<Action>, k: nat)
    requires Run(ss, acts) && k < |acts|
    ensures Taken(ss[k + 1]) == Taken(ss[k]) || (Taken(ss[k + 1]) == Taken(ss[k]) + 1 && ss[k].queue != [] && ss[k].queue[0] == Taken(ss[k]))
  {
    InvAlways(ss, acts, k);
    assert Follows(ss, acts, k);
  }

  predicate Returned(s: Pool) {
    s.destructor == Joining(|s.workers|)
  }

  /** When the destructor returns, every accepted task has run, exactly once, and no worker is
      left. */
  lemma DestructorDrains(ss: seq<Pool>, acts: seq<Action>, k: nat)
    requires Run(ss, acts) && k < |ss| && Returned(ss[k])
    ensures var s := ss[k];
      s.queue == []
      && (forall t: Task :: t in s.finished <==> t < s.accepted)
      && (forall i, j :: 0 <= i < j < |s.finished| ==> s.finished[i] != s.finished[j])
      && (forall i :: 0 <= i < |s.workers| ==> s.workers[i].Exited?)
  {
    var s := ss[k];
    InvAlways(ss, acts, k);
    assert s.workers[0].Exited?;
    forall t: Task | t < s.accepted ensures t in s.finished {
      assert forall i :: 0 <= i < |s.workers| ==> !HeldBy(s.workers, i, t);
    }
  }

  /** Once the pool is stopped it stays so, and no task is accepted any more. */
  lemma {:induction false} NothingAfterStop(ss: seq<Pool>, acts: seq<Action>, j: nat, k: nat)
    requires Run(ss, acts) && j <= k < |ss| && ss[j].stop
    ensures ss[k].stop && ss[k].accepted == ss[j].accepted
    decreases k
  {
    if j < k {
      NothingAfterStop(ss, acts, j, k - 1);
      assert Follows(ss, acts, k - 1);
      InvAlways(ss, acts, k - 1);
    }
  }

  /** A caller that finds the pool running has its task accepted, behind all that wait; one that
      finds it stopped changes nothing but gives the mutex back. */
  lemma PushAccepts(ss: seq<Pool>, acts: seq<Action>, k: nat)
    requires Run(ss, acts) && k < |acts| && acts[k].Push?
    ensures var s, s' := ss[k], ss[k + 1];
      && (!s.stop <==> s'.accepted == s.accepted + 1)
      && (!s.stop ==> s'.queue == s.queue + [s.accepted] && s'.holder == ByCaller(true))
      && (s.stop <==> s'.accepted == s.accepted && s'.queue == s.queue && s'.holder.Nobody?)
      && s'.workers == s.workers && s'.stop == s.stop && s'.notifying == s.notifying && s'.destructor == s.destructor && s'.finished == s.finished
  {
    assert Follows(ss, acts, k);
  }

  /** What waits changes only by a caller that pushes and by a worker that tests; a worker that
      finds a task takes the first, and only that one. */
  lemma QueueSteps(ss: seq<Pool>, acts: seq<Action>, k: nat)
    requires Run(ss, acts) && k < |acts| && !acts[k].Push?
    ensures var s, s' := ss[k], ss[k + 1];
      && s'.accepted == s.accepted
      && if acts[k].Test? && s.queue != [] then s.queue == [s.queue[0]] + s'.queue && acts[k].i < |s'.workers| && s'.workers[acts[k].i] == Popped(s.queue[0])
         else s'.queue == s.queue
  {
    assert Follows(ss, acts, k);
  }

  /** A step of one worker, or one that wakes it, leaves the others as they are; only the last
      notification wakes more than one, and it wakes all that are blocked, and no others. */
  lemma OthersStay(ss: seq<Pool>, acts: seq<Action>, k: nat, j: nat)
    requires Run(ss, acts) && k < |acts| && j < |ss[k].workers|
    ensures |ss[k + 1].workers| == |ss[k].workers|
    ensures var w, w' := ss[k].workers[j], ss[k + 1].workers[j];
      match acts[k]
      case NotifyAll => w' == if w.Blocked? then Ready else w
      case Acquire(i) => j != i ==> w' == w
      case Test(i) => j != i ==> w' == w
      case Release(i) => j != i ==> w' == w
      case Finish(i) => w' == if j == i then Ready else w
      case Wake(i) => w' == if j == i then Ready else w
      case NotifyOne(i) => w' == if j == i then Ready else w
      case _ => w' == w
  {
    assert Follows(ss, acts, k);
  }

  /** The calls of `enqueue` among the first `k` steps that found the pool running. */
  function Accepted(ss: seq<Pool>, acts: seq<Action>, k: nat): nat
    requires k <= |acts| && k < |ss|
  {
    if k == 0 then 0 else Accepted(ss, acts, k - 1) + if acts[k - 1].Push? && !ss[k - 1].stop then 1 else 0
  }

  /** In every run as many tasks are accepted as there were such calls. */
  lemma {:induction false} AcceptedCount(ss: seq<Pool>, acts: seq<Action>, k: nat)
    requires Run(ss, acts) && k < |ss|
    ensures k <= |acts| && ss[k].accepted == Accepted(ss, acts, k)
  {
    hide Enabled;
    if k > 0 {
      AcceptedCount(ss, acts, k - 1);
      if acts[k - 1].Push? { PushAccepts(ss, acts, k - 1); } else { QueueSteps(ss, acts, k - 1); }
    }
  }

  // ---------------------------------------------------------------- the work left

  /** How far a worker is from waiting or leaving. */
  function Rank(w: Worker): nat {
    match w
    case Exited => 0
    case Testing => 1
    case Ready => 2
    case Running(_) => 3
    case Popped(_) => 4
    case Blocked => 0
  }

  function Ranks(ws: seq<Worker>): nat {
    if ws == [] then 0 else Rank(ws[0]) + Ranks(ws[1..])
  }

  lemma {:induction false} RanksUpdate(ws: seq<Worker>, i: nat, w: Worker)
    requires i < |ws|
    ensures Ranks(ws[i := w]) == Ranks(ws) - Rank(ws[i]) + Rank(w)
    decreases |ws|
  {
    if i > 0 {
      RanksUpdate(ws[1..], i - 1, w);
      assert ws[i := w][1..] == ws[1..][i - 1 := w];
    } else {
      assert ws[i := w][1..] == ws[1..];
    }
  }

  lemma {:induction false} RanksWoken(ws: seq<Worker>)
    ensures Ranks(Woken(ws)) <= Ranks(ws) + 2 * |ws|
    decreases |ws|
  {
    if ws != [] {
      assert Woken(ws)[1..] == Woken(ws[1..]);
      RanksWoken(ws[1..]);
    }
  }

  /** What the callers, the notifications to come and the destructor still have to do. */
  function HolderWork(h: Holder): nat {
    match h
    case ByCaller(pushed) => if pushed then 4 else 9
    case _ => 0
  }

  function DestructorWork(d: Destructor, n: nat): int {
    match d
    case NotCalled => 0
    case Locked => 3 * n + 3
    case Stopped => 3 * n + 2
    case Joining(joined) => n - joined
  }

  function Effort(s: Pool): int {
    4 * |s.queue| + Ranks(s.workers) + 3 * s.notifying + HolderWork(s.holder) + DestructorWork(s.destructor, |s.workers|)
  }

  /** The steps that come from outside: new callers, spurious wake-ups, the call of the
      destructor. */
  predicate FromOutside(a: Action) {
    a.Enqueue? || a.Wake? || a.Destroy?
  }

  /** Every other step brings the pool closer to rest. */
  lemma EffortShrinks(s: Pool, a: Action)
    requires Inv(s) && Enabled(s, a) && !FromOutside(a)
    ensures 0 <= Effort(Apply(s, a)) < Effort(s)
  {
    hide Fifo, Once, Awake, Ranks;
    if a.Acquire? || a.Test? || a.Release? || a.Finish? || a.NotifyOne? {
      RanksUpdate(s.workers, a.i, Apply(s, a).workers[a.i]);
    }
    if a.NotifyAll? { RanksWoken(s.workers); }
  }

  /** So between steps from outside a run is no longer than the effort left. */
  lemma {:induction false} Settles(ss: seq<Pool>, acts: seq<Action>, j: nat, k: nat)
    requires Run(ss, acts) && j <= k < |ss| && forall i :: j <= i < k ==> !FromOutside(acts[i])
    ensures k - j <= Effort(ss[j]) - Effort(ss[k])
    decreases k
  {
    hide Inv, Enabled, Starts, Effort;
    if j < k {
      Settles(ss, acts, j, k - 1);
      InvAlways(ss, acts, k - 1);
      assert Follows(ss, acts, k - 1);
      EffortShrinks(ss[k - 1], acts[k - 1]);
    }
  }

  /** As long as an accepted task has not run, there is a step that is not from outside:
      together with the measure, every accepted task runs. */
  lemma Progress(s: Pool, t: Task) returns (a: Action)
    requires Inv(s) && t < s.accepted && t !in s.finished
    ensures Enabled(s, a) && !FromOutside(a)
  {
    if !s.holder.Nobody? || s.queue != [] {
      a := NextStep(s);
    } else {
      var i :| HeldBy(s.workers, i, t);
      a := Finish(i);
    }
  }

  lemma NextStep(s: Pool) returns (a: Action)
    requires Inv(s) && (!s.holder.Nobody? || s.queue != [])
    ensures Enabled(s, a) && !FromOutside(a)
  {
    hide Fifo, Once;
    if s.holder.ByWorker? {
      a := if s.workers[s.holder.i].Testing? then Test(s.holder.i) else Release(s.holder.i);
    } else if s.holder.ByCaller? {
      a := if s.holder.pushed then Unlock else Push;
    } else if s.holder.ByDestructor? {
      a := Stop;
    } else if s.notifying > 0 {
      a := NotifyNobody;
      if i :| 0 <= i < |s.workers| && s.workers[i].Blocked? { a := NotifyOne(i); }
    } else if s.destructor.Stopped? {
      a := NotifyAll;
    } else {
      var i :| 0 <= i < |s.workers| && IsAwake(s.workers[i]);
      a := if s.workers[i].Ready? then Acquire(i) else Finish(i);
    }
  }

  /** A pool at rest, in which no step is possible except from outside, has run every accepted
      task. */
  lemma AtRest(ss: seq<Pool>, acts: seq<Action>, k: nat)
    requires Run(ss, acts) && k < |ss| && forall a :: Enabled(ss[k], a) ==> FromOutside(a)
    ensures forall t: Task :: t < ss[k].accepted ==> t in ss[k].finished
  {
    InvAlways(ss, acts, k);
    hide Run, Inv, Enabled;
    forall t: Task | t < ss[k].accepted ensures t in ss[k].finished {
      if t !in ss[k].finished { var a := Progress(ss[k], t); }
    }
  }

  // ---------------------------------------------------------------- shutting down

  /** The work left in a stopped pool. */
  function WorkLeft(s: Pool): int {
    4 * |s.queue| + Ranks(s.workers) + (if s.destructor.Joining? then |s.workers| - s.destructor.joined else 0)
  }

  predicate ByPool(a: Action) {
    a.Acquire? || a.Test? || a.Release? || a.Finish? || a.Join?
  }

  /** After the last notification every step of a worker or of the destructor brings the end
      closer, and a caller's step does not put it off. */
  lemma ShutdownShrinks(s: Pool, a: Action)
    requires Inv(s) && Enabled(s, a) && s.destructor.Joining?
    ensures WorkLeft(s) >= 0 && WorkLeft(Apply(s, a)) <= WorkLeft(s)
    ensures ByPool(a) ==> WorkLeft(Apply(s, a)) < WorkLeft(s)
  {
    hide Fifo, Once, Awake;
    if (a.Acquire? || a.Test? || a.Release? || a.Finish?) {
      RanksUpdate(s.workers, a.i, Apply(s, a).workers[a.i]);
    }
  }

  /** Until the destructor returns there is always such a step, or a caller to release the
      mutex: a stopped pool never gets stuck. */
  lemma ShutdownProgress(s: Pool) returns (a: Action)
    requires Inv(s) && s.destructor.Joining? && !Returned(s)
    ensures Enabled(s, a) && (ByPool(a) || a.Push? || a.Unlock?)
  {
    hide Fifo, Once, Awake;
    var i := s.destructor.joined;
    match s.holder {
      case ByWorker(j) => a := if s.workers[j].Testing? then Test(j) else Release(j);
      case ByCaller(pushed) => a := if pushed then Unlock else Push;
      case Nobody =>
        match s.workers[i] {
          case Ready => a := Acquire(i);
          case Running(_) => a := Finish(i);
          case Exited => a := Join;
        }
    }
  }
}
