/** What becomes of every message that is logged, and how soon the worker writes. */
module LoggerHistory {
  import opened AsyncLogger

  /** The level set last among the first n steps. */
  function LevelAfter(first: int, steps: seq<Step>, n: nat): int
    requires n <= |steps|
  {
    if n == 0 then first else if steps[n - 1].SetMinLevel? then steps[n - 1].level else LevelAfter(first, steps, n - 1)
  }

  /** Step i logs a message at or above the level set last. */
  predicate Passes(first: int, steps: seq<Step>, i: nat)
    requires i < |steps|
  {
    steps[i].Log? && steps[i].message.level >= LevelAfter(first, steps, i)
  }

  /** Step i finds 10000 messages queued and drops its own. */
  predicate Drops(first: int, steps: seq<Step>, i: nat)
    requires i < |steps|
  {
    steps[i].Enqueue? && |At(first, steps, i).queue| >= 10000
  }

  /** The messages logged and passed among the first n steps. */
  function Logged(first: int, steps: seq<Step>, n: nat): multiset<Message>
    requires n <= |steps|
  {
    if n == 0 then multiset{}
    else if Passes(first, steps, n - 1) then Logged(first, steps, n - 1) + multiset{steps[n - 1].message}
    else Logged(first, steps, n - 1)
  }

  function Dropped(first: int, steps: seq<Step>, n: nat): multiset<Message>
    requires n <= |steps|
  {
    if n == 0 then multiset{}
    else if Drops(first, steps, n - 1) then Dropped(first, steps, n - 1) + multiset{steps[n - 1].message}
    else Dropped(first, steps, n - 1)
  }

  /** The messages enqueued among the first n steps and not dropped, in order. */
  function Queued(first: int, steps: seq<Step>, n: nat): seq<Message>
    requires n <= |steps|
  {
    if n == 0 then []
    else
      Queued(first, steps, n - 1) +
      if steps[n - 1].Enqueue? && !Drops(first, steps, n - 1) then [steps[n - 1].message] else []
  }

  function Notifications(steps: seq<Step>, n: nat): nat
    requires n <= |steps|
  {
    if n == 0 then 0 else Notifications(steps, n - 1) + if steps[n - 1] == Notify then 1 else 0
  }

  lemma LevelOfStep(s: State, step: Step)
    ensures Do(s, step).minLevel == if step.SetMinLevel? then step.level else s.minLevel
  {
  }

  lemma {:induction false} LevelIsLastSet(first: int, steps: seq<Step>, n: nat)
    requires n <= |steps|
    ensures At(first, steps, n).minLevel == LevelAfter(first, steps, n)
    decreases n
  {
    hide Do;
    if n > 0 {
      LevelIsLastSet(first, steps, n - 1);
      LevelOfStep(At(first, steps, n - 1), steps[n - 1]);
    }
  }

  /** The counters and sequences of a state against what was logged, dropped, queued and notified. */
  predicate Accounted(s: State, logged: multiset<Message>, dropped: multiset<Message>, queued: seq<Message>,
                      notified: nat)
  {
    && s.accepted == queued
    && logged == multiset(queued) + dropped + s.counted
    && s.messageCount == |logged|
    && s.droppedCount == |dropped|
    && s.notifications == |queued| - notified
  }

  lemma LoggingAccounts(s: State, m: Message, logged: multiset<Message>, dropped: multiset<Message>,
                        queued: seq<Message>, notified: nat)
    requires Accounted(s, logged, dropped, queued, notified) && m.level >= s.minLevel
    ensures Accounted(Do(s, Log(m)), logged + multiset{m}, dropped, queued, notified)
  {
  }

  lemma QueueingAccounts(s: State, m: Message, logged: multiset<Message>, dropped: multiset<Message>,
                         queued: seq<Message>, notified: nat)
    requires Accounted(s, logged, dropped, queued, notified) && m in s.counted && |s.queue| < 10000
    ensures Accounted(Do(s, Enqueue(m)), logged, dropped, queued + [m], notified)
  {
    assert multiset(queued + [m]) == multiset(queued) + multiset{m};
    assert s.counted == s.counted - multiset{m} + multiset{m};
  }

  lemma DroppingAccounts(s: State, m: Message, logged: multiset<Message>, dropped: multiset<Message>,
                         queued: seq<Message>, notified: nat)
    requires Accounted(s, logged, dropped, queued, notified) && m in s.counted && |s.queue| >= 10000
    ensures Accounted(Do(s, Enqueue(m)), logged, dropped + multiset{m}, queued, notified)
  {
    assert s.counted == s.counted - multiset{m} + multiset{m};
  }

  lemma OtherStepAccounts(s: State, step: Step, logged: multiset<Message>, dropped: multiset<Message>,
                          queued: seq<Message>, notified: nat)
    requires Accounted(s, logged, dropped, queued, notified) && Enabled(s, step)
    requires !step.Enqueue? && (step.Log? ==> step.message.level < s.minLevel)
    ensures Accounted(Do(s, step), logged, dropped, queued, notified + if step == Notify then 1 else 0)
  {
    hide WorkerStep;
    if step == Work {
      WorkCountsNothing(s);
    }
  }

  lemma WorkCountsNothing(s: State)
    ensures var t := WorkerStep(s);
      && t.accepted == s.accepted && t.counted == s.counted && t.notifications == s.notifications
      && t.messageCount == s.messageCount && t.droppedCount == s.droppedCount
  {
  }

  lemma QueuedUnfolds(first: int, steps: seq<Step>, n: nat)
    requires 0 < n <= |steps|
    ensures Queued(first, steps, n) ==
      if steps[n - 1].Enqueue? && !Drops(first, steps, n - 1) then Queued(first, steps, n - 1) + [steps[n - 1].message]
      else Queued(first, steps, n - 1)
    ensures Logged(first, steps, n) ==
      if Passes(first, steps, n - 1) then Logged(first, steps, n - 1) + multiset{steps[n - 1].message}
      else Logged(first, steps, n - 1)
    ensures Dropped(first, steps, n) ==
      if Drops(first, steps, n - 1) then Dropped(first, steps, n - 1) + multiset{steps[n - 1].message}
      else Dropped(first, steps, n - 1)
  {
    hide Passes, Drops, At;
  }

  lemma {:induction false} AccountedAt(first: int, steps: seq<Step>, n: nat)
    requires IsRun(first, steps) && n <= |steps|
    ensures Accounted(At(first, steps, n), Logged(first, steps, n), Dropped(first, steps, n), Queued(first, steps, n),
                      Notifications(steps, n))
    decreases n
  {
    hide Do, Enabled, LevelAfter, Logged, Dropped, Queued, Accounted;
    if n == 0 {
      NothingLogged(first, steps);
    } else {
      AccountedAt(first, steps, n - 1);
      LevelIsLastSet(first, steps, n - 1);
      QueuedUnfolds(first, steps, n);
      assert StepEnabled(first, steps, n - 1);
      var (s, step) := (At(first, steps, n - 1), steps[n - 1]);
      var logged, dropped := Logged(first, steps, n - 1), Dropped(first, steps, n - 1);
      var queued, notified := Queued(first, steps, n - 1), Notifications(steps, n - 1);
      if step.Log? && Passes(first, steps, n - 1) {
        LoggingAccounts(s, step.message, logged, dropped, queued, notified);
      } else if step.Enqueue? {
        OnTheWay(s, step.message);
        if Drops(first, steps, n - 1) {
          DroppingAccounts(s, step.message, logged, dropped, queued, notified);
        } else {
          QueueingAccounts(s, step.message, logged, dropped, queued, notified);
        }
      } else {
        OtherStepAccounts(s, step, logged, dropped, queued, notified);
      }
    }
  }

  lemma OnTheWay(s: State, m: Message)
    requires Enabled(s, Enqueue(m))
    ensures m in s.counted
  {
  }

  /** Every message that passes the level is counted once and is, at every moment, accepted, dropped or on its way; a
      message is dropped exactly when it meets 10000 queued ones, and each drop is counted; the accepted messages are
      the others, in the order they were enqueued, each owing one notification. */
  lemma MessagesAreAccountedFor(first: int, steps: seq<Step>, n: nat)
    requires IsRun(first, steps) && n <= |steps|
    ensures var s := At(first, steps, n);
      && s.accepted == Queued(first, steps, n)
      && Logged(first, steps, n) == multiset(s.accepted) + Dropped(first, steps, n) + s.counted
      && s.messageCount == |Logged(first, steps, n)|
      && s.droppedCount == |Dropped(first, steps, n)|
      && s.notifications == |s.accepted| - Notifications(steps, n)
  {
    hide At, Logged, Dropped, Queued, Notifications;
    AccountedAt(first, steps, n);
  }

  lemma NothingLogged(first: int, steps: seq<Step>)
    ensures Accounted(At(first, steps, 0), Logged(first, steps, 0), Dropped(first, steps, 0), Queued(first, steps, 0),
                      Notifications(steps, 0))
  {
  }

  // ---------------------------------------------------------------- progress

  /** The state after the worker alone has taken k steps. */
  function Alone(s: State, k: nat): State
    decreases k
  {
    if k == 0 then s else Alone(WorkerStep(s), k - 1)
  }

  /** In every reachable state in which the worker is neither blocked nor gone: if any message is pending, the worker
      has handed the next one to the sinks within three steps of its own. */
  lemma PendingIsWritten(first: int, steps: seq<Step>, n: nat)
    requires IsRun(first, steps) && n <= |steps|
    requires At(first, steps, n).worker != Blocked && At(first, steps, n).worker != Exited
    requires At(first, steps, n).written != At(first, steps, n).accepted
    ensures var s := At(first, steps, n);
      |s.written| < |s.accepted| && s.accepted[..|s.written| + 1] <= Alone(s, 3).written
  {
    hide At, IsRun;
    LoggerIsSound(first, steps, n);
    PendingOfSound(At(first, steps, n));
  }

  lemma PendingOfSound(s: State)
    requires Sound(s) && s.worker != Blocked && s.worker != Exited && s.written != s.accepted
    ensures |s.written| < |s.accepted| && s.accepted[..|s.written| + 1] <= Alone(s, 3).written
  {
    hide Alone, WorkerStep;
    PendingIs(s);
    if s.worker.Writing? {
      ThreeStepsFromWriting(s);
    } else if s.worker == Top {
      ThreeStepsFromTop(s);
    } else {
      ThreeStepsFromLock(s);
    }
  }

  lemma PendingIs(s: State)
    requires Sound(s) && s.worker != Exited && s.written != s.accepted
    ensures |s.written| < |s.accepted|
    ensures s.worker.Writing? ==> s.accepted[..|s.written| + 1] == s.written + [s.worker.message]
    ensures !s.worker.Writing? ==> s.queue != [] && s.accepted[..|s.written| + 1] == s.written + [s.queue[0]]
    ensures s.worker != AboutToBlock
  {
    assert s.written + [] == s.written;
    assert s.queue != [] ==> s.queue == [s.queue[0]] + s.queue[1..];
  }

  lemma ThreeStepsFromWriting(s: State)
    requires s.worker.Writing?
    ensures s.written + [s.worker.message] <= Alone(s, 3).written
  {
    hide WorkerStep;
    OneStepWrites(s);
    WritingOnlyGrows(WorkerStep(s), 2);
  }

  lemma ThreeStepsFromTop(s: State)
    requires s.worker == Top && s.queue != []
    ensures s.written + [s.queue[0]] <= Alone(s, 3).written
  {
    hide WorkerStep;
    TopStep(s);
    TwoStepsWrite(WorkerStep(s));
  }

  lemma TopStep(s: State)
    requires s.worker == Top
    ensures var t := WorkerStep(s);
      t.worker in {Locking, Draining} && t.queue == s.queue && t.written == s.written
  {
  }

  lemma ThreeStepsFromLock(s: State)
    requires s.worker in {Locking, Inner, Draining} && s.queue != []
    ensures s.written + [s.queue[0]] <= Alone(s, 3).written
  {
    hide WorkerStep;
    TwoStepsWrite(s);
    var t := WorkerStep(WorkerStep(s));
    assert Alone(s, 3) == Alone(WorkerStep(s), 2) == Alone(t, 1);
    WritingOnlyGrows(t, 1);
  }

  lemma OneStepWrites(s: State)
    requires s.worker.Writing?
    ensures WorkerStep(s).written == s.written + [s.worker.message]
  {
  }

  lemma TwoStepsWrite(s: State)
    requires s.worker in {Locking, Inner, Draining} && s.queue != []
    ensures WorkerStep(WorkerStep(s)).written == s.written + [s.queue[0]]
    ensures Alone(s, 2) == WorkerStep(WorkerStep(s))
  {
    assert Alone(s, 2) == Alone(WorkerStep(s), 1);
  }

  lemma {:induction false} WritingOnlyGrows(s: State, k: nat)
    ensures s.written <= Alone(s, k).written
    decreases k
  {
    hide WorkerStep;
    if k > 0 {
      WritingOnlyGrows(WorkerStep(s), k - 1);
      WorkExtends(s);
    }
  }

  lemma WorkExtends(s: State)
    ensures s.written <= WorkerStep(s).written
  {
  }
}
