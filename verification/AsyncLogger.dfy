/** The asynchronous logger of src/logger.cpp as a state machine: any number of logging threads, the worker thread and
    the destructor interleave; a step is one critical section of the queue's mutex or one access to an atomic. */
module AsyncLogger {
  const MAX_QUEUE_SIZE: nat := 10000

  datatype Message = Message(level: int, text: string)

  /** Where the worker thread is. */
  datatype Worker =
    | Top                                      // about to test the shutdown flag of the outer loop
    | Locking                                  // about to take the lock and evaluate the wait condition
    | AboutToBlock                             // found the condition false; still holds the lock
    | Blocked                                  // waits to be notified
    | Writing(message: Message, draining: bool) // took a message, not yet handed to the sinks
    | Inner                                    // about to take the lock again for the next message
    | Draining                                 // the same in the loop after shutdown
    | Exited

  datatype State = State(
    minLevel: int,
    queue: seq<Message>,
    messageCount: nat,
    droppedCount: nat,
    shutdown: bool,
    worker: Worker,
    counted: multiset<Message>,   // logged, counted, not yet at the queue
    notifications: nat,           // enqueued, not yet notified
    notifiedAll: bool,            // the destructor has notified
    accepted: seq<Message>,       // all messages ever enqueued, in order
    written: seq<Message>)        // all messages handed to the sinks, in order

  datatype Step =
    | SetMinLevel(level: int)
    | Log(message: Message)
    | Enqueue(message: Message)
    | Notify
    | Shutdown
    | NotifyAll
    | Spurious
    | Work

  function Initial(minLevel: int): State {
    State(minLevel, [], 0, 0, false, Top, multiset{}, 0, false, [], [])
  }

  predicate Enabled(s: State, step: Step) {
    match step
    case SetMinLevel(_) => true
    case Log(_) => true
    case Enqueue(m) => m in s.counted && s.worker != AboutToBlock
    case Notify => s.notifications > 0
    case Shutdown => !s.shutdown
    case NotifyAll => s.shutdown && !s.notifiedAll
    case Spurious => s.worker == Blocked
    case Work => s.worker != Blocked && s.worker != Exited
  }

  function Awake(w: Worker): Worker {
    if w == Blocked then Locking else w
  }

  /** Under the lock: take the front message, or do something else when there is none. */
  function Take(s: State, draining: bool, otherwise: Worker): State {
    if s.queue == [] then s.(worker := otherwise)
    else s.(worker := Writing(s.queue[0], draining), queue := s.queue[1..])
  }

  function WorkerStep(s: State): State {
    match s.worker
    case Top => s.(worker := if s.shutdown then Draining else Locking)
    case Locking => Take(s, false, if s.shutdown then Top else AboutToBlock)
    case AboutToBlock => s.(worker := Blocked)
    case Writing(m, draining) => s.(written := s.written + [m], worker := if draining then Draining else Inner)
    case Inner => Take(s, false, Top)
    case Draining => Take(s, true, Exited)
    case Blocked => s
    case Exited => s
  }

  function AfterEnqueue(s: State, m: Message): State {
    if |s.queue| >= MAX_QUEUE_SIZE then s.(droppedCount := s.droppedCount + 1)
    else s.(queue := s.queue + [m], accepted := s.accepted + [m], notifications := s.notifications + 1)
  }

  function Do(s: State, step: Step): State {
    match step
    case SetMinLevel(level) => s.(minLevel := level)
    case Log(m) =>
      if m.level < s.minLevel then s
      else s.(messageCount := s.messageCount + 1, counted := s.counted + multiset{m})
    case Enqueue(m) => AfterEnqueue(s.(counted := s.counted - multiset{m}), m)
    case Notify =>
      s.(notifications := if s.notifications > 0 then s.notifications - 1 else 0, worker := Awake(s.worker))
    case Shutdown => s.(shutdown := true)
    case NotifyAll => s.(notifiedAll := true, worker := Awake(s.worker))
    case Spurious => s.(worker := Awake(s.worker))
    case Work => WorkerStep(s)
  }

  /** The state after the first n steps. */
  function At(minLevel: int, steps: seq<Step>, n: nat): State
    requires n <= |steps|
  {
    if n == 0 then Initial(minLevel) else Do(At(minLevel, steps, n - 1), steps[n - 1])
  }

  ghost predicate IsRun(minLevel: int, steps: seq<Step>) {
    forall i: nat :: i < |steps| ==> StepEnabled(minLevel, steps, i)
  }

  predicate StepEnabled(minLevel: int, steps: seq<Step>, i: nat)
    requires i < |steps|
  {
    Enabled(At(minLevel, steps, i), steps[i])
  }

  /** The logger's fields and its critical sections; each method is one step of the state machine. */
  class Logger {
    var minLevel: int
    var queue: seq<Message>
    var messageCount: nat
    var droppedCount: nat
    var shutdown: bool
    var worker: Worker
    ghost var counted: multiset<Message>
    ghost var notifications: nat
    ghost var notifiedAll: bool
    ghost var accepted: seq<Message>
    ghost var written: seq<Message>

    ghost function Current(): State
      reads this
    {
      State(minLevel, queue, messageCount, droppedCount, shutdown, worker, counted, notifications, notifiedAll,
            accepted, written)
    }

    constructor (minLevel: int)
      ensures Current() == Initial(minLevel)
    {
      this.minLevel := minLevel;
      queue, messageCount, droppedCount, shutdown, worker := [], 0, 0, false, Top;
      counted, notifications, notifiedAll, accepted, written := multiset{}, 0, false, [], [];
    }

    /** The lock-free part of `log`: filter and count. */
    method CountMessage(m: Message) returns (passes: bool)
      modifies this
      ensures passes == (m.level >= old(minLevel)) && Current() == Do(old(Current()), Log(m))
    {
      if m.level < minLevel {
        return false;
      }
      messageCount := messageCount + 1;
      counted := counted + multiset{m};
      return true;
    }

    method PushOrDrop(m: Message) returns (queued: bool)
      modifies this
      ensures queued == (|old(queue)| < MAX_QUEUE_SIZE) && Current() == AfterEnqueue(old(Current()), m)
    {
      if |queue| >= MAX_QUEUE_SIZE {
        droppedCount := droppedCount + 1;
        return false;
      }
      queue := queue + [m];
      accepted, notifications := accepted + [m], notifications + 1;
      return true;
    }

    /** The locked part of `log`: drop the message or queue it. */
    method EnqueueMessage(m: Message) returns (queued: bool)
      requires Enabled(Current(), Enqueue(m))
      modifies this
      ensures queued == (|old(queue)| < MAX_QUEUE_SIZE) && Current() == Do(old(Current()), Enqueue(m))
    {
      counted := counted - multiset{m};
      queued := PushOrDrop(m);
    }

    /** A locked section of the worker: take the front message if there is one. */
    method TakeFront(draining: bool, otherwise: Worker)
      modifies this
      ensures Current() == Take(old(Current()), draining, otherwise)
    {
      if queue == [] {
        worker := otherwise;
      } else {
        worker := Writing(queue[0], draining);
        queue := queue[1..];
      }
    }

    /** The worker's next step, wherever it is. */
    method Advance()
      requires Enabled(Current(), Work)
      modifies this
      ensures Current() == Do(old(Current()), Work)
    {
      match worker {
        case Top => worker := if shutdown then Draining else Locking;
        case Locking => TakeFront(false, if shutdown then Top else AboutToBlock);
        case AboutToBlock => worker := Blocked;
        case Writing(m, draining) =>
          written := written + [m];
          worker := if draining then Draining else Inner;
        case Inner => TakeFront(false, Top);
        case Draining => TakeFront(true, Exited);
      }
    }

    /** The loop after shutdown, when nobody logs meanwhile: writes everything that is queued. */
    method DrainQueue()
      requires worker == Draining
      modifies this
      ensures worker == Exited && queue == [] && written == old(written) + old(queue)
    {
      hide WorkerStep, Rank, HasLeftLoop, InFlight;
      DrainStarts(Current());
      while worker != Exited
        invariant HasLeftLoop(worker) && (worker == Exited ==> queue == [])
        invariant written + InFlight(Current()) + queue == old(written) + old(queue)
        decreases Rank(Current())
      {
        DrainStep(Current());
        Advance();
      }
      DrainEnds(Current());
    }
  }

  lemma DrainStarts(s: State)
    requires s.worker == Draining
    ensures HasLeftLoop(s.worker) && s.written + InFlight(s) + s.queue == s.written + s.queue
  {
  }

  lemma DrainStep(s: State)
    requires HasLeftLoop(s.worker) && s.worker != Exited
    ensures Enabled(s, Work)
    ensures var t := Do(s, Work);
      && HasLeftLoop(t.worker) && (t.worker == Exited ==> t.queue == []) && Rank(t) < Rank(s)
      && t.written + InFlight(t) + t.queue == s.written + InFlight(s) + s.queue
  {
    hide Awake, AfterEnqueue;
    if s.worker == Draining {
      if s.queue != [] {
        TakenFromFront(s.written, s.queue);
      }
    } else {
      WrittenFromFlight(s.written, s.worker.message, s.queue);
    }
  }

  lemma TakenFromFront(written: seq<Message>, queue: seq<Message>)
    requires queue != []
    ensures written + [queue[0]] + queue[1..] == written + [] + queue
  {
  }

  lemma WrittenFromFlight(written: seq<Message>, m: Message, queue: seq<Message>)
    ensures written + [m] + [] + queue == written + [m] + queue
  {
  }

  lemma DrainEnds(s: State)
    requires s.worker == Exited && s.queue == []
    ensures s.written + InFlight(s) + s.queue == s.written
  {
  }

  // ---------------------------------------------------------------- nothing accepted is lost

  function InFlight(s: State): seq<Message> {
    if s.worker.Writing? then [s.worker.message] else []
  }

  predicate HasLeftLoop(w: Worker) {
    w == Draining || w == Exited || (w.Writing? && w.draining)
  }

  predicate Sound(s: State) {
    && s.accepted == s.written + InFlight(s) + s.queue
    && |s.queue| <= MAX_QUEUE_SIZE
    && s.messageCount == |s.accepted| + s.droppedCount + |s.counted|
    && (s.worker == AboutToBlock ==> s.queue == [])
    && (s.worker == Blocked && s.queue != [] ==> s.notifications > 0)
    && (HasLeftLoop(s.worker) || s.notifiedAll ==> s.shutdown)
  }

  lemma TakeIsSound(s: State, draining: bool, otherwise: Worker)
    requires Sound(s) && !s.worker.Writing? && !otherwise.Writing?
    requires otherwise != Blocked && (draining || HasLeftLoop(otherwise) ==> s.shutdown)
    ensures Sound(Take(s, draining, otherwise))
  {
    if s.queue != [] {
      assert s.queue == [s.queue[0]] + s.queue[1..];
    }
  }

  lemma WorkIsSound(s: State)
    requires Sound(s)
    ensures Sound(WorkerStep(s))
  {
    hide Take;
    match s.worker {
      case Locking => TakeIsSound(s, false, if s.shutdown then Top else AboutToBlock);
      case Inner => TakeIsSound(s, false, Top);
      case Draining => TakeIsSound(s, true, Exited);
      case _ =>
    }
  }

  lemma EnqueueIsSound(s: State, m: Message)
    requires Sound(s) && Enabled(s, Enqueue(m))
    ensures Sound(Do(s, Enqueue(m)))
  {
    assert s.written + InFlight(s) + s.queue + [m] == s.written + InFlight(s) + (s.queue + [m]);
  }

  lemma StepIsSound(s: State, step: Step)
    requires Sound(s) && Enabled(s, step)
    ensures Sound(Do(s, step))
  {
    hide WorkerStep;
    if step == Work {
      WorkIsSound(s);
    } else if step.Enqueue? {
      EnqueueIsSound(s, step.message);
    }
  }

  lemma StartIsSound(minLevel: int)
    ensures Sound(Initial(minLevel))
  {
  }

  /** In every reachable state: written, then the message in flight, then the queue are exactly the accepted messages
      in order; the queue is bounded; every counted message is accepted, dropped or on its way; and a blocked worker
      with messages to write has a notification on its way. */
  lemma {:induction false} LoggerIsSound(minLevel: int, steps: seq<Step>, n: nat)
    requires IsRun(minLevel, steps) && n <= |steps|
    ensures Sound(At(minLevel, steps, n))
    decreases n
  {
    hide Do, Enabled, Sound;
    if n == 0 {
      StartIsSound(minLevel);
    } else {
      LoggerIsSound(minLevel, steps, n - 1);
      assert StepEnabled(minLevel, steps, n - 1);
      StepIsSound(At(minLevel, steps, n - 1), steps[n - 1]);
    }
  }

  /** When `flush` sees the queue empty, all accepted messages are written but for at most one in flight. */
  lemma FlushSeesAlmostAll(minLevel: int, steps: seq<Step>, n: nat)
    requires IsRun(minLevel, steps) && n <= |steps| && At(minLevel, steps, n).queue == []
    ensures var s := At(minLevel, steps, n);
      s.accepted == s.written + InFlight(s) && |s.accepted| <= |s.written| + 1
  {
    hide At;
    LoggerIsSound(minLevel, steps, n);
  }

  lemma StepExtends(s: State, step: Step)
    ensures s.accepted <= Do(s, step).accepted && s.written <= Do(s, step).written
    ensures s.shutdown ==> Do(s, step).shutdown
  {
  }

  /** Accepting and writing only append: what was accepted or written once stays where it is. */
  lemma {:induction false} HistoryOnlyGrows(minLevel: int, steps: seq<Step>, m: nat, n: nat)
    requires m <= n <= |steps|
    ensures At(minLevel, steps, m).accepted <= At(minLevel, steps, n).accepted
    ensures At(minLevel, steps, m).written <= At(minLevel, steps, n).written
    ensures At(minLevel, steps, m).shutdown ==> At(minLevel, steps, n).shutdown
    decreases n
  {
    hide Do;
    if m < n {
      HistoryOnlyGrows(minLevel, steps, m, n - 1);
      StepExtends(At(minLevel, steps, n - 1), steps[n - 1]);
    }
  }

  /** Nothing is enqueued once shutdown has begun. */
  ghost predicate NoLateLogging(minLevel: int, steps: seq<Step>) {
    forall i: nat :: i < |steps| && steps[i].Enqueue? ==> !At(minLevel, steps, i).shutdown
  }

  lemma ExitingIsEmpty(s: State, step: Step)
    requires Sound(s) && Enabled(s, step) && Do(s, step).worker == Exited
    requires s.worker == Exited ==> s.queue == [] && !step.Enqueue?
    ensures Do(s, step).queue == []
  {
  }

  lemma {:induction false} ExitedIsEmpty(minLevel: int, steps: seq<Step>, n: nat)
    requires IsRun(minLevel, steps) && n <= |steps| && NoLateLogging(minLevel, steps)
    requires At(minLevel, steps, n).worker == Exited
    ensures At(minLevel, steps, n).queue == []
    decreases n
  {
    hide Sound, Do, Enabled;
    if n > 0 {
      var s := At(minLevel, steps, n - 1);
      LoggerIsSound(minLevel, steps, n - 1);
      assert StepEnabled(minLevel, steps, n - 1);
      if s.worker == Exited {
        ExitedIsEmpty(minLevel, steps, n - 1);
        ExitedIsDown(s);
      }
      ExitingIsEmpty(s, steps[n - 1]);
    }
  }

  lemma ExitedIsDown(s: State)
    requires Sound(s) && s.worker == Exited
    ensures s.shutdown
  {
  }

  /** Once the worker has exited every accepted message was written, in order, if nothing was logged too late. */
  lemma NothingIsLost(minLevel: int, steps: seq<Step>, n: nat)
    requires IsRun(minLevel, steps) && n <= |steps| && NoLateLogging(minLevel, steps)
    requires At(minLevel, steps, n).worker == Exited
    ensures At(minLevel, steps, n).written == At(minLevel, steps, n).accepted
  {
    hide At;
    ExitedIsEmpty(minLevel, steps, n);
    LoggerIsSound(minLevel, steps, n);
  }

  // ---------------------------------------------------------------- whether the destructor returns

  /** Steps the worker still has to take to exit, once shutdown has begun and it need not be woken. */
  function Rank(s: State): nat {
    match s.worker
    case Exited => 0
    case Draining => 2 * |s.queue| + 1
    case Writing(_, draining) => 2 * |s.queue| + if draining then 2 else 4
    case Top => 2 * |s.queue| + 2
    case _ => 2 * |s.queue| + 3
  }

  predicate Waits(w: Worker) {
    w == AboutToBlock || w == Blocked
  }

  /** After shutdown a worker that does not wait never waits again, and each of its steps brings it closer. */
  lemma WorkerComesCloser(s: State, step: Step)
    requires s.shutdown && !Waits(s.worker) && Enabled(s, step) && !step.Enqueue?
    ensures var t := Do(s, step);
      t.shutdown && !Waits(t.worker) && Rank(t) + (if step == Work then 1 else 0) <= Rank(s)
  {
  }

  function WorkSteps(steps: seq<Step>, m: nat, n: nat): nat
    requires m <= n <= |steps|
    decreases n
  {
    if m == n then 0 else WorkSteps(steps, m, n - 1) + if steps[n - 1] == Work then 1 else 0
  }

  lemma {:induction false} WorkerFinishes(minLevel: int, steps: seq<Step>, m: nat, n: nat)
    requires IsRun(minLevel, steps) && m <= n <= |steps|
    requires At(minLevel, steps, m).shutdown && !Waits(At(minLevel, steps, m).worker)
    requires forall i: nat :: m <= i < n ==> !steps[i].Enqueue?
    ensures At(minLevel, steps, n).shutdown && !Waits(At(minLevel, steps, n).worker)
    ensures Rank(At(minLevel, steps, n)) + WorkSteps(steps, m, n) <= Rank(At(minLevel, steps, m))
    decreases n
  {
    hide Do, Enabled, Rank, Waits;
    if m < n {
      WorkerFinishes(minLevel, steps, m, n - 1);
      assert StepEnabled(minLevel, steps, n - 1);
      WorkerComesCloser(At(minLevel, steps, n - 1), steps[n - 1]);
    }
  }

  /** The step wakes a blocked worker: a notification still owed to an earlier message, or a spurious wake-up. */
  predicate Wakes(s: State, step: Step) {
    s.worker == Blocked && (step == Notify || step == Spurious)
  }

  /** The destructor has notified, and the worker is blocked or about to be. */
  predicate Missed(s: State) {
    Waits(s.worker) && s.notifiedAll && s.shutdown
  }

  lemma MissedUnlessWoken(s: State, step: Step)
    requires Missed(s) && Enabled(s, step) && !step.Enqueue?
    ensures var t := Do(s, step);
      t.shutdown && if Wakes(s, step) then !Waits(t.worker) else Missed(t)
  {
  }

  predicate WakesAt(minLevel: int, steps: seq<Step>, i: nat)
    requires i < |steps|
  {
    Wakes(At(minLevel, steps, i), steps[i])
  }

  /** A worker that missed the destructor's notification waits until something else wakes it, and then never waits
      again. */
  lemma {:induction false} WaitsUntilWoken(minLevel: int, steps: seq<Step>, m: nat, n: nat)
    requires IsRun(minLevel, steps) && m <= n <= |steps| && Missed(At(minLevel, steps, m))
    requires forall i: nat :: m <= i < n ==> !steps[i].Enqueue?
    ensures At(minLevel, steps, n).shutdown
    ensures if exists i: nat :: m <= i < n && WakesAt(minLevel, steps, i) then !Waits(At(minLevel, steps, n).worker)
            else Missed(At(minLevel, steps, n))
    decreases n
  {
    hide Do, Enabled, Missed, Waits, Wakes;
    if m < n {
      WaitsUntilWoken(minLevel, steps, m, n - 1);
      assert StepEnabled(minLevel, steps, n - 1);
      if exists i: nat :: m <= i < n - 1 && WakesAt(minLevel, steps, i) {
        WorkerComesCloser(At(minLevel, steps, n - 1), steps[n - 1]);
      } else {
        MissedUnlessWoken(At(minLevel, steps, n - 1), steps[n - 1]);
        assert WakesAt(minLevel, steps, n - 1) == Wakes(At(minLevel, steps, n - 1), steps[n - 1]);
      }
    } else {
      MissedIsDown(At(minLevel, steps, m));
    }
  }

  lemma MissedIsDown(s: State)
    requires Missed(s)
    ensures s.shutdown
  {
  }

  lemma NotifyingAll(s: State)
    requires Enabled(s, NotifyAll)
    ensures var t := Do(s, NotifyAll);
      t.shutdown && (if s.worker == AboutToBlock then Missed(t) else !Waits(t.worker))
  {
  }

  lemma MissedWaits(s: State)
    requires Missed(s)
    ensures Waits(s.worker)
  {
  }

  /** The destructor sets the flag and notifies without holding the mutex. From then on, when nobody logs any more:
      the worker waits exactly as long as it had found nothing to do but was not yet blocked when notified, and neither
      a notification still owed nor a spurious wake-up has met it blocked since. */
  lemma WorkerWaitsExactly(minLevel: int, steps: seq<Step>, m: nat, n: nat)
    requires IsRun(minLevel, steps) && m < n <= |steps| && steps[m] == NotifyAll
    requires forall i: nat :: m <= i < n ==> !steps[i].Enqueue?
    ensures At(minLevel, steps, n).shutdown
    ensures Waits(At(minLevel, steps, n).worker) <==>
      At(minLevel, steps, m).worker == AboutToBlock && forall i: nat :: m < i < n ==> !WakesAt(minLevel, steps, i)
  {
    hide Do, Enabled, Waits, WakesAt, Missed, Rank;
    assert StepEnabled(minLevel, steps, m);
    assert At(minLevel, steps, m + 1) == Do(At(minLevel, steps, m), NotifyAll);
    NotifyingAll(At(minLevel, steps, m));
    if At(minLevel, steps, m).worker == AboutToBlock {
      WaitsUntilWoken(minLevel, steps, m + 1, n);
      if forall i: nat :: m < i < n ==> !WakesAt(minLevel, steps, i) {
        MissedWaits(At(minLevel, steps, n));
      }
    } else {
      WorkerFinishes(minLevel, steps, m + 1, n);
    }
  }

  /** A worker that does not wait at some point k after that exits after at most `Rank` more steps of its own. */
  lemma JoinReturnsUnlessMissed(minLevel: int, steps: seq<Step>, m: nat, k: nat, n: nat)
    requires IsRun(minLevel, steps) && m < k <= n <= |steps| && steps[m] == NotifyAll
    requires forall i: nat :: m <= i < n ==> !steps[i].Enqueue?
    requires At(minLevel, steps, m).worker != AboutToBlock || exists i: nat :: m < i < k && WakesAt(minLevel, steps, i)
    ensures WorkSteps(steps, k, n) >= Rank(At(minLevel, steps, k)) ==> At(minLevel, steps, n).worker == Exited
  {
    hide WorkSteps, At, Waits, WakesAt;
    WorkerWaitsExactly(minLevel, steps, m, k);
    WorkerFinishes(minLevel, steps, k, n);
  }

  /** Such a run exists: the worker finds the queue empty and the flag unset, the destructor sets the flag and
      notifies, and only then the worker blocks. */
  lemma NotificationCanBeMissed(minLevel: int) returns (steps: seq<Step>)
    ensures IsRun(minLevel, steps) && NoLateLogging(minLevel, steps)
    ensures var s := At(minLevel, steps, |steps|);
      s.worker == Blocked && s.shutdown && s.notifiedAll && s.notifications == 0 && s.counted == multiset{}
  {
    steps := [Work, Work, Shutdown, NotifyAll, Work];
    var s := Initial(minLevel);
    assert At(minLevel, steps, 0) == s;
    assert At(minLevel, steps, 1) == s.(worker := Locking);
    assert At(minLevel, steps, 2) == s.(worker := AboutToBlock);
    assert At(minLevel, steps, 3) == s.(worker := AboutToBlock, shutdown := true);
    assert At(minLevel, steps, 4) == s.(worker := AboutToBlock, shutdown := true, notifiedAll := true);
    assert At(minLevel, steps, 5) == s.(worker := Blocked, shutdown := true, notifiedAll := true);
  }
}
