/** The actor with its own thread (backend/utility/Active.cpp) as a state machine. A step of the worker is what Run
    does between two points where it takes or gives up the mutex; Send holds the mutex from start to end. */
module ActiveQueue {
  import opened Wrappers

  // Stop is the message that the destructor sends
  datatype Message = Stop | Job(id: nat)

  /** Where Run stands. It holds the mutex in Checking, where it looks at the condition it waits for, and in Inner. */
  datatype Point =
    | Outer            // before the test of m_done
    | Locking          // wants the mutex, to wait
    | Checking
    | Blocked          // in the condition variable
    | Woken            // wants the mutex back
    | Inner            // before the test of the inner loop
    | Running(message: Message)
    | Relocking
    | Exited

  datatype State = State(point: Point, queue: seq<Message>, done: bool, executed: seq<Message>) {
    predicate MutexFree() {
      !point.Checking? && !point.Inner?
    }

    function InFlight(): seq<Message> {
      if point.Running? then [point.message] else []
    }
  }

  const START: State := State(Outer, [], false, [])

  datatype Event = Work | Send(message: Message) | SpuriousWakeup

  // None: the step has to wait
  function WorkerStep(s: State): Option<State> {
    match s.point
    case Outer => Some(s.(point := if s.done then Exited else Locking))
    case Locking => Some(s.(point := Checking))
    case Checking => Some(s.(point := if s.queue == [] then Blocked else Inner))
    case Blocked => None
    case Woken => Some(s.(point := Checking))
    case Inner =>
      if s.queue == [] then Some(s.(point := Outer))
      else Some(s.(point := Running(s.queue[0]), queue := s.queue[1..]))
    case Running(m) => Some(s.(point := Relocking, executed := s.executed + [m], done := s.done || m.Stop?))
    case Relocking => Some(s.(point := Inner))
    case Exited => None
  }

  function Step(s: State, e: Event): Option<State> {
    match e
    case Work => WorkerStep(s)
    case Send(m) =>
      if s.MutexFree() then Some(s.(queue := s.queue + [m], point := if s.point.Blocked? then Woken else s.point))
      else None
    case SpuriousWakeup => if s.point.Blocked? then Some(s.(point := Woken)) else None
  }

  // The latest event comes last
  function Run(events: seq<Event>): Option<State> {
    if events == [] then Some(START)
    else
      var before := Run(events[..|events| - 1]);
      if before.None? then None else Step(before.value, events[|events| - 1])
  }

  function Sent(events: seq<Event>): seq<Message> {
    if events == [] then []
    else Sent(events[..|events| - 1])
         + if events[|events| - 1].Send? then [events[|events| - 1].message] else []
  }

  /** The worker has looked at the queue for the last time. */
  predicate Leaving(s: State) {
    s.point.Exited? || (s.point.Outer? && s.done)
  }

  // The messages sent after that
  function SentLate(events: seq<Event>): seq<Message> {
    if events == [] then []
    else
      var before, last := events[..|events| - 1], events[|events| - 1];
      SentLate(before)
      + if last.Send? && Run(before).Some? && Leaving(Run(before).value) then [last.message] else []
  }

  ghost predicate Consistent(s: State) {
    && (s.done <==> Stop in s.executed)
    && (s.point.Exited? ==> s.done)
    && (s.point in {Locking, Checking, Blocked, Woken} ==> !s.done)
    && (s.point.Blocked? ==> s.queue == [])
  }

  // All messages, from the first that was sent to the last
  function Messages(s: State): seq<Message> {
    s.executed + s.InFlight() + s.queue
  }

  lemma StepKeeps(s: State, e: Event)
    requires Consistent(s) && Step(s, e).Some?
    ensures var t := Step(s, e).value;
      Consistent(t) && Messages(t) == Messages(s) + if e.Send? then [e.message] else []
  {
    var t := Step(s, e).value;
    if e.Send? {
      assert Messages(t) == Messages(s) + [e.message];
    } else if e.Work? {
      WorkKeeps(s);
    }
  }

  // The worker moves messages on, one at a time
  lemma WorkKeeps(s: State)
    requires Consistent(s) && WorkerStep(s).Some?
    ensures Consistent(WorkerStep(s).value) && Messages(WorkerStep(s).value) == Messages(s)
  {
    var t := WorkerStep(s).value;
    if s.point.Inner? && s.queue != [] {
      assert s.queue == [s.queue[0]] + s.queue[1..];
    } else {
      assert t.executed + t.InFlight() == s.executed + s.InFlight();
    }
  }

  /** In every run, what was executed, what is being executed and what is queued make up what was sent, in that
      order; and the worker never sleeps while there is work. */
  lemma {:induction false} FirstInFirstOut(events: seq<Event>)
    requires Run(events).Some?
    ensures var s := Run(events).value;
      Messages(s) == Sent(events) && Consistent(s)
  {
    if events == [] {
    } else {
      var before, last := events[..|events| - 1], events[|events| - 1];
      FirstInFirstOut(before);
      StepKeeps(Run(before).value, last);
    }
  }

  /** Once the worker is leaving, exactly the messages sent since then remain: all others ran, once each, in the
      order of sending. */
  lemma {:induction false} OnlyLateMessagesRemain(events: seq<Event>)
    requires Run(events).Some?
    ensures var s := Run(events).value;
      if Leaving(s) then s.queue == SentLate(events) && s.executed + SentLate(events) == Sent(events)
      else SentLate(events) == []
  {
    FirstInFirstOut(events);
    if events != [] {
      OnlyLateMessagesRemain(events[..|events| - 1]);
      FirstInFirstOut(events[..|events| - 1]);
    }
  }

  /** A run in which the worker exits executes everything that was sent if and only if nothing was sent late. */
  lemma AllRunIffNoneLate(events: seq<Event>)
    requires Run(events).Some? && Run(events).value.point.Exited?
    ensures Run(events).value.executed == Sent(events) <==> SentLate(events) == []
  {
    OnlyLateMessagesRemain(events);
    assert |Sent(events)| == |Run(events).value.executed| + |SentLate(events)|;
  }

  /** What the destructor relies on: nothing that is sent before its own message is late, nor is what a running
      message sends after it. */
  lemma NotLate(events: seq<Event>, m: Message)
    requires Run(events).Some?
    requires Stop !in Sent(events) || Run(events).value.point.Running?
    ensures SentLate(events + [Send(m)]) == []
  {
    FirstInFirstOut(events);
    OnlyLateMessagesRemain(events);
    assert (events + [Send(m)])[..|events|] == events;
  }

  ghost function Measure(s: State): nat {
    10 * |s.queue| +
    match s.point
    case Outer => if s.done then 1 else 5
    case Locking => 4
    case Checking => 3
    case Blocked => 5
    case Woken => 4
    case Inner => 2
    case Running(_) => 4
    case Relocking => 3
    case Exited => 0
  }

  /** The join of the destructor returns: after its message was sent, in any state a run can reach, the worker can
      go on until it exits, and on its own it gets there in a bounded number of steps. */
  lemma {:induction false} JoinReturns(events: seq<Event>) returns (all: seq<Event>)
    requires Run(events).Some? && Stop in Sent(events)
    ensures events <= all && Run(all).Some? && Run(all).value.point.Exited?
    ensures Sent(all) == Sent(events) && |all| <= |events| + Measure(Run(events).value)
    decreases Measure(Run(events).value)
  {
    var s := Run(events).value;
    FirstInFirstOut(events);
    if s.point.Exited? {
      return events;
    }
    var more := events + [Work];
    assert more[..|events|] == events;
    assert Stop in s.executed || s.InFlight() == [Stop] || Stop in s.queue;
    all := JoinReturns(more);
  }

  /** A late message is lost: however the run goes on, nothing more is executed. */
  lemma {:induction false} NothingRunsAfterLeaving(events: seq<Event>, more: seq<Event>)
    requires Run(events).Some? && Leaving(Run(events).value) && Run(events + more).Some?
    ensures Leaving(Run(events + more).value)
    ensures Run(events + more).value.executed == Run(events).value.executed
  {
    if more == [] {
      assert events + more == events;
    } else {
      assert (events + more)[..|events + more| - 1] == events + more[..|more| - 1];
      NothingRunsAfterLeaving(events, more[..|more| - 1]);
    }
  }

  /** There is such a run. */
  lemma LateMessageIsLost(m: Message) returns (events: seq<Event>)
    ensures Run(events).Some? && Run(events).value.point.Exited? && SentLate(events) == [m]
  {
    var stop := [Send(Stop)];
    assert stop[..0] == [];
    var exited := JoinReturns(stop);
    OnlyLateMessagesRemain(exited);
    FirstInFirstOut(exited);
    events := exited + [Send(m)];
    assert events[..|exited|] == exited;
    assert Sent(stop) == [Stop];
    OnlyLateMessagesRemain(events);
  }
}
