/**
 The hand-off of events in third-party/filewatch/FileWatch.hpp: the monitor thread appends to a
 queue under a lock and notifies, the callback thread waits on a condition variable, swaps the queue
 out under the same lock and calls back outside it, and destroy tells both to stop.
 */
module FileWatch {

  datatype Change = Added | Removed | Modified

  datatype Event = Event(file: string, change: Change)

  datatype Holder = Nobody | Monitor | Consumer

  // Where the monitor thread is: at the loop condition, in read, waiting for the lock with a batch,
  // appending it, about to notify.
  datatype MonitorAt =
    | AtLoop | InRead | Parsed(batch: seq<Event>) | Appending(batch: seq<Event>) | Notifying | MonitorDone

  // Where the callback thread is.
  datatype ConsumerAt =
    | Top                             // at the loop condition
    | Locking                         // inside the loop, before the lock
    | Testing                         // holding the lock, before the test of line 1221
    | Checking                        // in wait, holding the lock, before its condition
    | Blocking                        // the condition was false, the lock is still held
    | Blocked                         // in wait, without the lock, until notified
    | Waking                          // notified, but still without the lock
    | Ready                           // holding the lock, before the swap
    | HalfSwapped(local: seq<Event>)  // the queue copied out but not yet emptied
    | Swapped(local: seq<Event>)      // the swap done, the lock still held
    | Delivering(local: seq<Event>)   // calling back, without the lock
    | ConsumerDone

  // Where destroy is: not called, the flag set, the watch removed, all waiters notified.
  datatype Closing = Open | Flagged | Unwatched | Notified

  // appended and delivered are the logs of what went into the queue and what was called back.
  datatype State = State(queue: seq<Event>, lock: Holder, closing: Closing, monitor: MonitorAt, consumer: ConsumerAt,
                         appended: seq<Event>, delivered: seq<Event>)
  {
    // _destory
    predicate Destroyed() {
      closing != Open
    }
  }

  function Initial(): State {
    State([], Nobody, Open, AtLoop, Top, [], [])
  }

  datatype Step =
    | Poll | Read(batch: seq<Event>)          // lines 620-650
    | ReadRemoval                             // the removal of the watch ends a read without events
    | MonitorLocks | Append | MonitorUnlocks  // lines 651-655
    | Notify                                  // line 656
    | MonitorStops
    | Enter | ConsumerLocks                   // lines 1219-1220
    | Test                                    // line 1221
    | Check | Block | Wake                    // line 1222
    | Spurious                                // a wake-up without a notification
    | CopyOut | Empty                         // line 1225
    | ConsumerUnlocks
    | Call(event: Event)                      // line 1232
    | Again
    | Destroy | Unwatch | NotifyAll           // lines 364-377

  // What a step needs to be possible.
  predicate Enabled(s: State, step: Step) {
    match step
    case Poll => s.monitor == AtLoop && !s.Destroyed()
    case Read(_) => s.monitor == InRead
    case ReadRemoval => s.monitor == InRead && (s.closing == Unwatched || s.closing == Notified)
    case MonitorLocks => s.monitor.Parsed? && s.lock == Nobody
    case Append => s.monitor.Appending? && s.monitor.batch != []
    case MonitorUnlocks => s.monitor == Appending([])
    case Notify => s.monitor == Notifying
    case MonitorStops => s.monitor == AtLoop && s.Destroyed()
    case Enter => s.consumer == Top
    case ConsumerLocks => s.consumer == Locking && s.lock == Nobody
    case Test => s.consumer == Testing
    case Check => s.consumer == Checking
    case Block => s.consumer == Blocking
    case Wake => s.consumer == Waking && s.lock == Nobody
    case Spurious => s.consumer == Blocked
    case CopyOut => s.consumer == Ready
    case Empty => s.consumer.HalfSwapped?
    case ConsumerUnlocks => s.consumer.Swapped?
    case Call(e) => s.consumer.Delivering? && s.consumer.local != [] && e == s.consumer.local[0]
    case Again => s.consumer == Delivering([])
    case Destroy => s.closing == Open
    case Unwatch => s.closing == Flagged
    case NotifyAll => s.closing == Unwatched
  }

  // notify_all: it reaches only a thread that is blocked.
  function Woken(c: ConsumerAt): ConsumerAt {
    if c == Blocked then Waking else c
  }

  function Next(s: State, step: Step): State
    requires Enabled(s, step)
  {
    match step
    case Poll => s.(monitor := InRead)
    case Read(batch) => s.(monitor := Parsed(batch))
    case ReadRemoval => s.(monitor := Parsed([]))
    case MonitorLocks => s.(lock := Monitor, monitor := Appending(s.monitor.batch))
    case Append =>
      var e := s.monitor.batch[0];
      s.(queue := s.queue + [e], appended := s.appended + [e], monitor := Appending(s.monitor.batch[1..]))
    case MonitorUnlocks => s.(lock := Nobody, monitor := Notifying)
    case Notify => s.(consumer := Woken(s.consumer), monitor := AtLoop)
    case MonitorStops => s.(monitor := MonitorDone)
    case Enter => s.(consumer := if s.Destroyed() then ConsumerDone else Locking)
    case ConsumerLocks => s.(lock := Consumer, consumer := Testing)
    case Test => s.(consumer := if s.queue == [] && !s.Destroyed() then Checking else Ready)
    case Check => s.(consumer := if s.queue != [] || s.Destroyed() then Ready else Blocking)
    case Block => s.(lock := Nobody, consumer := Blocked)
    case Wake => s.(lock := Consumer, consumer := Checking)
    case Spurious => s.(consumer := Waking)
    case CopyOut => s.(consumer := HalfSwapped(s.queue))
    case Empty => s.(queue := [], consumer := Swapped(s.consumer.local))
    case ConsumerUnlocks => s.(lock := Nobody, consumer := Delivering(s.consumer.local))
    case Call(e) => s.(delivered := s.delivered + [e], consumer := Delivering(s.consumer.local[1..]))
    case Again => s.(consumer := Top)
    case Destroy => s.(closing := Flagged)
    case Unwatch => s.(closing := Unwatched)
    case NotifyAll => s.(closing := Notified, consumer := Woken(s.consumer))
  }

  // Taken out of the queue but not yet called back.
  function InHand(s: State): seq<Event> {
    if s.consumer.Swapped? || s.consumer.Delivering? then s.consumer.local else []
  }

  // The callback thread is inside its critical section.
  predicate Holding(c: ConsumerAt) {
    c.Testing? || c.Checking? || c.Blocking? || c.Ready? || c.HalfSwapped? || c.Swapped?
  }

  // The lock is held exactly by the thread inside its critical section, so never by both, and the
  // callback thread sleeps on events only if the monitor is still going to notify it.
  ghost predicate Locked(s: State) {
    && (s.monitor.Appending? <==> s.lock == Monitor)
    && (Holding(s.consumer) <==> s.lock == Consumer)
    && (s.consumer.HalfSwapped? ==> s.consumer.local == s.queue)
    && (s.consumer.ConsumerDone? || s.monitor.MonitorDone? ==> s.Destroyed())
    && (s.consumer.Ready? || s.consumer.HalfSwapped? ==> s.queue != [] || s.Destroyed())
    && (s.consumer.Blocking? ==> s.queue == [])
    && (s.consumer.Blocked? ==> s.queue == [] || s.monitor.Appending? || s.monitor.Notifying?)
  }

  // Nothing is lost, repeated or reordered between the logs, the hand and the queue.
  ghost predicate Inv(s: State) {
    Locked(s) && s.appended == s.delivered + InHand(s) + s.queue
  }

  lemma StepLocked(s: State, step: Step)
    requires Locked(s) && Enabled(s, step)
    ensures Locked(Next(s, step))
  {
  }

  lemma StepKeeps(s: State, step: Step)
    requires Inv(s) && Enabled(s, step)
    ensures Inv(Next(s, step)) && s.delivered <= Next(s, step).delivered && s.appended <= Next(s, step).appended
    ensures s.Destroyed() ==> Next(s, step).Destroyed()
  {
    assert s.consumer.HalfSwapped? ==> s.consumer.local == s.queue;
    hide Locked;
    StepLocked(s, step);
    match step
    case Append =>
      assert s.delivered + InHand(s) + (s.queue + [s.monitor.batch[0]]) ==
             s.delivered + InHand(s) + s.queue + [s.monitor.batch[0]];
    case Call(e) =>
      assert s.delivered + s.consumer.local == s.delivered + [e] + s.consumer.local[1..];
    case _ =>
  }

  ghost predicate Run(steps: seq<Step>, states: seq<State>) {
    && |states| == |steps| + 1 && states[0] == Initial()
    && forall i :: 0 <= i < |steps| ==> Enabled(states[i], steps[i]) && states[i + 1] == Next(states[i], steps[i])
  }

  lemma {:induction false} RunInv(steps: seq<Step>, states: seq<State>, i: nat)
    requires Run(steps, states) && i < |states|
    ensures Inv(states[i])
  {
    if 0 < i {
      RunInv(steps, states, i - 1);
      StepKeeps(states[i - 1], steps[i - 1]);
      assert states[i - 1 + 1] == Next(states[i - 1], steps[i - 1]);
    }
  }

  /** In every interleaving the events called back are a prefix of the events appended, in the same
      order and without repetition; what is missing is exactly what is in hand or in the queue;
      and once the callback thread has stopped, only what was still in the queue, which takes a
      destroy. */
  lemma DeliveredIsPrefix(steps: seq<Step>, states: seq<State>, i: nat)
    requires Run(steps, states) && i < |states|
    ensures
      var s := states[i];
      && s.delivered <= s.appended && s.appended[|s.delivered|..] == InHand(s) + s.queue
      && (s.consumer.ConsumerDone? ==> s.Destroyed() && s.appended == s.delivered + s.queue)
      && !(s.monitor.Appending? && s.consumer.HalfSwapped?)
  {
    RunInv(steps, states, i);
    var s := states[i];
    assert s.delivered + InHand(s) + s.queue == s.delivered + (InHand(s) + s.queue);
  }

  // --- What was read and what was called back -------------------------------------------------------

  // The events parsed by the steps, in the order they were read.
  function ReadBy(steps: seq<Step>): seq<Event> {
    if steps == [] then [] else
      var last := steps[|steps| - 1];
      ReadBy(steps[..|steps| - 1]) + if last.Read? then last.batch else []
  }

  // The events the steps called back for.
  function CalledBy(steps: seq<Step>): seq<Event> {
    if steps == [] then [] else
      var last := steps[|steps| - 1];
      CalledBy(steps[..|steps| - 1]) + if last.Call? then [last.event] else []
  }

  // What the monitor has read but not yet put into the queue.
  function Batch(s: State): seq<Event> {
    if s.monitor.Parsed? || s.monitor.Appending? then s.monitor.batch else []
  }

  // What one step does to the log of the events read and to that of the events called back.
  lemma StepLogs(s: State, step: Step)
    requires Enabled(s, step)
    ensures
      var t := Next(s, step);
      && t.appended + Batch(t) == s.appended + Batch(s) + (if step.Read? then step.batch else [])
      && t.delivered == s.delivered + (if step.Call? then [step.event] else [])
  {
    match step
    case Append =>
      assert s.appended + [s.monitor.batch[0]] + s.monitor.batch[1..] == s.appended + s.monitor.batch;
    case _ =>
  }

  lemma {:induction false} RunLogs(steps: seq<Step>, states: seq<State>, i: nat)
    requires Run(steps, states) && i < |states|
    ensures states[i].appended + Batch(states[i]) == ReadBy(steps[..i])
    ensures states[i].delivered == CalledBy(steps[..i])
  {
    hide Inv, Next, Enabled;
    if i == 0 {
      assert states[0] == Initial() && steps[..0] == [];
    } else {
      RunLogs(steps, states, i - 1);
      assert states[i - 1 + 1] == Next(states[i - 1], steps[i - 1]);
      StepLogs(states[i - 1], steps[i - 1]);
      assert steps[..i][..i - 1] == steps[..i - 1] && steps[..i][i - 1] == steps[i - 1];
    }
  }

  /** In every reachable state the events read so far are, in that order, those called back, those in
      hand, those in the queue and those the monitor still holds: no event is lost on the way, none
      is called back for twice and none overtakes another. */
  lemma NothingLost(steps: seq<Step>, states: seq<State>, i: nat)
    requires Run(steps, states) && i < |states|
    ensures
      var s := states[i];
      && ReadBy(steps[..i]) == s.appended + Batch(s)
      && ReadBy(steps[..i]) == CalledBy(steps[..i]) + InHand(s) + s.queue + Batch(s)
  {
    hide Run;
    RunLogs(steps, states, i);
    RunInv(steps, states, i);
  }

  // --- Progress ---------------------------------------------------------------------------------------

  // The steps lead from s to t.
  ghost predicate Leads(s: State, steps: seq<Step>, t: State)
    decreases steps
  {
    if steps == [] then s == t else Enabled(s, steps[0]) && Leads(Next(s, steps[0]), steps[1..], t)
  }

  // A step the threads take by themselves: no new events, no call of destroy, no wake-up by chance.
  predicate Inner(step: Step) {
    !step.Read? && !step.Destroy? && !step.Spurious?
  }

  ghost predicate AllInner(steps: seq<Step>) {
    forall i :: 0 <= i < |steps| ==> Inner(steps[i])
  }

  // A step that is possible unless the threads have come to rest.
  function Onward(s: State): Step {
    match s.monitor
    case AtLoop => if s.Destroyed() then MonitorStops else Poll
    case Notifying => Notify
    case Appending(batch) => if batch == [] then MonitorUnlocks else Append
    case _ =>
      match s.consumer
      case Top => Enter
      case Locking => ConsumerLocks
      case Testing => Test
      case Checking => Check
      case Blocking => Block
      case Waking => Wake
      case Ready => CopyOut
      case HalfSwapped(_) => Empty
      case Swapped(_) => ConsumerUnlocks
      case Delivering(local) => if local == [] then Again else Call(local[0])
      case _ =>
        if s.closing == Flagged then Unwatch else if s.closing == Unwatched then NotifyAll
        else if s.monitor.Parsed? then MonitorLocks else ReadRemoval
  }

  // The threads at rest: nothing to do until more is read or destroy called; both stopped; the
  // callback thread asleep with nobody left to wake it.
  predicate Idle(s: State) {
    s.closing == Open && s.monitor == InRead && s.consumer == Blocked && s.queue == []
  }

  predicate Stopped(s: State) {
    s.closing == Notified && s.monitor == MonitorDone && s.consumer == ConsumerDone
  }

  predicate Hung(s: State) {
    s.closing == Notified && s.monitor == MonitorDone && s.consumer == Blocked
  }

  predicate AtRest(s: State) {
    Idle(s) || Stopped(s) || Hung(s)
  }

  /** The threads never block each other: whenever they are not at rest, one of them has a step. */
  lemma AtRestIff(s: State)
    requires Inv(s)
    ensures AtRest(s) <==> forall step :: Inner(step) ==> !Enabled(s, step)
  {
    if !AtRest(s) {
      assert Inner(Onward(s)) && Enabled(s, Onward(s));
    }
  }

  // How far it is: an event weighs less the further it has come, and so does a thread; a
  // notification not yet made weighs more than the wake-up it can cause.
  function Ahead(s: State): nat {
    100 * |Batch(s)| + 50 * |s.queue| + |InHand(s)|
    + (match s.closing case Open => 0 case Flagged => 31 case Unwatched => 30 case Notified => 0)
    + (match s.monitor
       case InRead => if s.Destroyed() then 200 else 0
       case Parsed(_) => 150
       case Appending(_) => 140
       case Notifying => 100
       case AtLoop => 1
       case MonitorDone => 0)
    + (match s.consumer
       case Waking => if s.Destroyed() then 20 else 7
       case Locking => if s.Destroyed() then 19 else 8
       case Testing => if s.Destroyed() then 18 else 7
       case Checking => if s.Destroyed() then 17 else 6
       case Blocking => if s.Destroyed() then 16 else 5
       case Blocked => if s.Destroyed() then 15 else 4
       case Ready => if s.queue == [] then 13 else 2
       case HalfSwapped(_) => if s.queue == [] then 12 else 1
       case Swapped(_) => 11
       case Delivering(_) => 10
       case Top => 9
       case ConsumerDone => 0)
  }

  // A step of the callback thread.
  predicate OfCallback(step: Step) {
    match step
    case Enter | ConsumerLocks | Test | Check | Block | Wake | CopyOut | Empty | ConsumerUnlocks | Call(_) | Again =>
      true
    case _ => false
  }

  lemma CallbackDecreases(s: State, step: Step)
    requires Inv(s) && Enabled(s, step) && OfCallback(step)
    ensures Ahead(Next(s, step)) < Ahead(s)
  {
  }

  lemma OthersDecrease(s: State, step: Step)
    requires Inv(s) && Enabled(s, step) && Inner(step) && !OfCallback(step)
    ensures Ahead(Next(s, step)) < Ahead(s)
  {
  }

  lemma InnerDecreases(s: State, step: Step)
    requires Inv(s) && Enabled(s, step) && Inner(step)
    ensures Ahead(Next(s, step)) < Ahead(s)
  {
    hide Inv, Ahead;
    if OfCallback(step) {
      CallbackDecreases(s, step);
    } else {
      OthersDecrease(s, step);
    }
  }

  /** Left to themselves the threads come to rest: no run of theirs is longer than the measure, and
      the events it starts with are all it deals with. */
  lemma {:induction false} InnerRunEnds(s: State, steps: seq<Step>, t: State)
    requires Inv(s) && Leads(s, steps, t) && AllInner(steps)
    ensures |steps| + Ahead(t) <= Ahead(s)
    ensures Inv(t) && t.appended + Batch(t) == s.appended + Batch(s) && (s.Destroyed() <==> t.Destroyed())
    decreases |steps|
  {
    hide Inv, Enabled, Next, Ahead;
    if steps != [] {
      var step, s' := steps[0], Next(s, steps[0]);
      StepKeeps(s, step);
      StepLogs(s, step);
      InnerDecreases(s, step);
      StaysOpen(s, step);
      InnerRunEnds(s', steps[1..], t);
    }
  }

  lemma StaysOpen(s: State, step: Step)
    requires Enabled(s, step) && Inner(step)
    ensures s.Destroyed() <==> Next(s, step).Destroyed()
  {
  }

  /** No interleaving strands an event: before a destroy, wherever the threads come to rest, every event
      read so far has been called back, in the order they were read. */
  lemma Drains(steps: seq<Step>, states: seq<State>, i: nat, more: seq<Step>, t: State)
    requires Run(steps, states) && i < |states| && !states[i].Destroyed()
    requires Leads(states[i], more, t) && AllInner(more) && AtRest(t)
    ensures t.delivered == ReadBy(steps[..i]) && Idle(t)
  {
    hide Run, Leads, AllInner, ReadBy;
    RunInv(steps, states, i);
    RunLogs(steps, states, i);
    InnerRunEnds(states[i], more, t);
  }

  // --- The shutdown -----------------------------------------------------------------------------------

  // destroy sets the flag and notifies without the lock. The callback thread may have found the flag
  // clear and not be asleep yet, so that the notification is lost on it, and a monitor that is past
  // its next notification sends no other.
  predicate MayHang(s: State) {
    || (s.consumer == Blocking && (s.monitor == Notifying || s.monitor == AtLoop || s.monitor == MonitorDone))
    || (s.consumer == Blocked && s.closing == Notified && (s.monitor == AtLoop || s.monitor == MonitorDone))
  }

  lemma SafeStays(s: State, step: Step)
    requires Inv(s) && s.Destroyed() && !MayHang(s) && Enabled(s, step) && Inner(step)
    ensures !MayHang(Next(s, step))
  {
  }

  lemma {:induction false} SafeRun(s: State, steps: seq<Step>, t: State)
    requires Inv(s) && s.Destroyed() && !MayHang(s) && Leads(s, steps, t) && AllInner(steps)
    ensures !MayHang(t)
    decreases |steps|
  {
    hide Inv, Enabled, Next, MayHang;
    if steps != [] {
      StepKeeps(s, steps[0]);
      SafeStays(s, steps[0]);
      SafeRun(Next(s, steps[0]), steps[1..], t);
    }
  }

  // The rest of destroy and of the monitor, then the callback thread falls asleep.
  lemma {:induction false} HangingRun(s: State) returns (steps: seq<Step>, t: State)
    requires Inv(s) && s.Destroyed() && MayHang(s)
    ensures Leads(s, steps, t) && AllInner(steps) && Hung(t)
    decreases Ahead(s)
  {
    hide Inv, Ahead;
    if Hung(s) {
      steps, t := [], s;
    } else {
      var step :=
        if s.closing == Flagged then Unwatch else if s.closing == Unwatched then NotifyAll
        else if s.monitor == Notifying then Notify else if s.monitor == AtLoop then MonitorStops else Block;
      StepKeeps(s, step);
      InnerDecreases(s, step);
      var rest;
      rest, t := HangingRun(Next(s, step));
      steps := [step] + rest;
      assert steps[1..] == rest;
    }
  }

  /** After a destroy the threads, wherever they come to rest, have stopped, so that destroy's joins
      return, unless the callback thread had found nothing to do and no flag before it was set, and
      the monitor is past its last notification: exactly then they can hang. */
  lemma ShutdownIff(steps: seq<Step>, states: seq<State>, i: nat)
    requires Run(steps, states) && i < |states| && states[i].Destroyed()
    ensures (exists more, t :: Leads(states[i], more, t) && AllInner(more) && Hung(t)) <==> MayHang(states[i])
    ensures forall more, t :: Leads(states[i], more, t) && AllInner(more) && AtRest(t) ==> Stopped(t) || Hung(t)
  {
    hide Run, Leads, AllInner, Inv, MayHang;
    RunInv(steps, states, i);
    var s := states[i];
    if MayHang(s) {
      var more, t := HangingRun(s);
    }
    forall more, t | Leads(s, more, t) && AllInner(more)
      ensures Hung(t) ==> MayHang(s)
      ensures AtRest(t) ==> Stopped(t) || Hung(t)
    {
      InnerRunEnds(s, more, t);
      if Hung(t) && !MayHang(s) {
        SafeRun(s, more, t);
        HungMay(t);
      }
    }
  }

  lemma HungMay(t: State)
    requires Hung(t)
    ensures MayHang(t)
  {
  }

  // From a thread that hangs nothing leads on but a wake-up by chance.
  lemma HungForGood(t: State, more: seq<Step>, t': State)
    requires Hung(t) && Leads(t, more, t') && AllInner(more)
    ensures more == [] && t' == t
  {
    assert more != [] ==> Inner(more[0]);
  }

  lemma LeadsOn(s: State, step: Step, s': State, rest: seq<Step>, t: State)
    requires Enabled(s, step) && Next(s, step) == s' && Leads(s', rest, t)
    ensures Leads(s, [step] + rest, t)
  {
    assert ([step] + rest)[1..] == rest;
  }

  // The callback thread has found nothing to do and is about to fall asleep when the flag is set.
  const LATE: State := State([], Consumer, Flagged, AtLoop, Blocking, [], [])

  lemma LateHangs() returns (steps: seq<Step>, t: State)
    ensures Leads(LATE, steps, t) && Hung(t)
  {
    hide Leads;
    steps, t := HangingRun(LATE);
  }

  lemma LateLed() returns (steps: seq<Step>, t: State)
    ensures Leads(LATE.(closing := Open, consumer := Checking), steps, t) && Hung(t)
  {
    hide Leads, Hung;
    var s := LATE.(closing := Open);
    steps, t := LateHangs();
    LeadsOn(s, Destroy, LATE, steps, t);
    steps := [Destroy] + steps;
    LeadsOn(s.(consumer := Checking), Check, s, steps, t);
    steps := [Check] + steps;
  }

  /** A run that ends with both joins waiting for ever: the flag is set between the test of the
      condition at line 1222 and the wait. */
  lemma LostWakeUp() returns (steps: seq<Step>, t: State)
    ensures Leads(Initial(), steps, t) && Hung(t)
  {
    hide Leads, Hung;
    var s := LATE.(closing := Open);
    steps, t := LateLed();
    LeadsOn(s.(consumer := Testing), Test, s.(consumer := Checking), steps, t);
    steps := [Test] + steps;
    LeadsOn(s.(consumer := Locking, lock := Nobody), ConsumerLocks, s.(consumer := Testing), steps, t);
    steps := [ConsumerLocks] + steps;
    LeadsOn(Initial(), Enter, s.(consumer := Locking, lock := Nobody), steps, t);
    steps := [Enter] + steps;
  }
}
