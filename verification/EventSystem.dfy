/** Event dispatch with handlers that call back into the dispatcher (backend/events/EventSystem.cpp,
    backend/events/EventSystem.h). */
module EventSystem {
  import opened Wrappers

  // A handler is known by its address; None stands for nullptr
  type Handler = nat

  /** What a handler does while it handles an event: calls on the event system, in order. */
  datatype Calls =
    | Return
    | Add(added: Option<Handler>, next: Calls)
    | Remove(removed: Option<Handler>, next: Calls)
    | Dispatch(reactions: Reactions, next: Calls)

  /** How the handlers react to one event, in the order they are visited; after the last one given, handlers do
      nothing. A handler that throws has no state that counts. */
  datatype Reactions =
    | Silent
    | React(calls: Calls, state: PostEventState, throws: bool, others: Reactions)

  datatype PostEventState = PostEventState(handled: bool, shouldRemove: bool, consumeEvent: bool)

  // ---------- what a dispatch asks for ----------

  datatype Request = ToRemove(handler: Handler) | ToAdd(handler: Handler)

  ghost function Asked(h: Option<Handler>, removal: bool): seq<Request> {
    if h.None? then [] else if removal then [ToRemove(h.value)] else [ToAdd(h.value)]
  }

  /** The requests made by calls, and by a dispatch to `handlers`, while a dispatch is running. */
  ghost function CallsLog(calls: Calls, handlers: seq<Handler>): seq<Request>
    decreases calls, 0
  {
    match calls
    case Return => []
    case Add(h, next) => Asked(h, false) + CallsLog(next, handlers)
    case Remove(h, next) => Asked(h, true) + CallsLog(next, handlers)
    case Dispatch(reactions, next) => DispatchLog(reactions, handlers, 0) + CallsLog(next, handlers)
  }

  ghost function DispatchLog(reactions: Reactions, handlers: seq<Handler>, i: nat): seq<Request>
    decreases reactions, 1
  {
    if i >= |handlers| || reactions.Silent? then []
    else
      var React(calls, state, throws, others) := reactions;
      CallsLog(calls, handlers)
      + (if !throws && state.shouldRemove then [ToRemove(handlers[i])] else [])
      + if !throws && state.consumeEvent then [] else DispatchLog(others, handlers, i + 1)
  }

  // ---------- who is called ----------

  // The reactions from the one of handler `i` on
  ghost function Nth(reactions: Reactions, i: nat): Reactions
    decreases i
  {
    if i == 0 || reactions.Silent? then reactions else Nth(reactions.others, i - 1)
  }

  // Handler `i` ends the dispatch
  ghost predicate Consumes(reactions: Reactions, i: nat) {
    var r := Nth(reactions, i);
    r.React? && !r.throws && r.state.consumeEvent
  }

  ghost predicate NoneConsumes(reactions: Reactions, n: nat) {
    forall i :: 0 <= i < n ==> !Consumes(reactions, i)
  }

  /** Of `count` handlers the first `n` are called: those up to and including the first that consumes the event, or
      all of them if none does. */
  ghost predicate Visits(reactions: Reactions, count: nat, n: nat) {
    && n <= count && (n > 0 ==> NoneConsumes(reactions, n - 1))
    && (n < count ==> n > 0 && Consumes(reactions, n - 1))
  }

  // What handler `i` asks for: first by its calls, then by its answer
  ghost function OwnLog(reactions: Reactions, handlers: seq<Handler>, i: nat): seq<Request>
    requires i < |handlers|
  {
    var r := Nth(reactions, i);
    if r.Silent? then []
    else CallsLog(r.calls, handlers) + if !r.throws && r.state.shouldRemove then [ToRemove(handlers[i])] else []
  }

  // ... and handlers `i` to `n`
  ghost function LogBetween(reactions: Reactions, handlers: seq<Handler>, i: nat, n: nat): seq<Request>
    requires i <= n <= |handlers|
    decreases n - i
  {
    if i == n then [] else OwnLog(reactions, handlers, i) + LogBetween(reactions, handlers, i + 1, n)
  }

  lemma {:induction false} NthNext(reactions: Reactions, i: nat)
    ensures Nth(reactions, i + 1) == if Nth(reactions, i).Silent? then Silent else Nth(reactions, i).others
    decreases i
  {
    if i == 0 || reactions.Silent? {
    } else {
      NthNext(reactions.others, i - 1);
    }
  }

  // Handlers that do nothing do not consume the event
  lemma {:induction false} SilentConsumeNothing(reactions: Reactions, i: nat, n: nat)
    requires i <= n && (i < n ==> Nth(reactions, i).Silent?) && NoneConsumes(reactions, i)
    ensures NoneConsumes(reactions, n)
    decreases n - i
  {
    if i < n {
      NthNext(reactions, i);
      SilentConsumeNothing(reactions, i + 1, n);
    }
  }

  lemma {:induction false} SilentFrom(reactions: Reactions, handlers: seq<Handler>, i: nat, n: nat)
    requires i <= n <= |handlers| && Nth(reactions, i).Silent?
    ensures LogBetween(reactions, handlers, i, n) == []
    decreases n - i
  {
    if i < n {
      NthNext(reactions, i);
      SilentFrom(reactions, handlers, i + 1, n);
    }
  }

  // Handler `i` is called, and the dispatch goes on after it exactly if it does not consume the event
  ghost predicate Continues(reactions: Reactions, count: nat, i: nat, n: nat) {
    && (i < n && Consumes(reactions, i) ==> i == n - 1)
    && (i < n && !Consumes(reactions, i) && i + 1 == n ==> n == count)
  }

  lemma VisitsContinues(reactions: Reactions, count: nat, i: nat, n: nat)
    requires Visits(reactions, count, n)
    ensures Continues(reactions, count, i, n)
  {
  }

  lemma {:induction false} DispatchLogFrom(
    reactions: Reactions, handlers: seq<Handler>, i: nat, n: nat, rest: Reactions)
    requires n <= |handlers| && forall k: nat :: Continues(reactions, |handlers|, k, n)
    requires i <= n && (i == n ==> n == |handlers|) && rest == Nth(reactions, i)
    ensures DispatchLog(rest, handlers, i) == LogBetween(reactions, handlers, i, n)
    decreases n - i
  {
    if i == n {
    } else if rest.Silent? {
      SilentFrom(reactions, handlers, i, n);
    } else {
      NthNext(reactions, i);
      assert Continues(reactions, |handlers|, i, n);
      if !Consumes(reactions, i) {
        DispatchLogFrom(reactions, handlers, i + 1, n, rest.others);
      }
      DispatchLogStep(reactions, handlers, i, n, rest);
    }
  }

  lemma {:induction false} DispatchLogStep(
    reactions: Reactions, handlers: seq<Handler>, i: nat, n: nat, rest: Reactions)
    requires i < n <= |handlers| && rest.React? && rest == Nth(reactions, i)
    requires if Consumes(reactions, i) then i == n - 1
             else DispatchLog(rest.others, handlers, i + 1) == LogBetween(reactions, handlers, i + 1, n)
    ensures DispatchLog(rest, handlers, i) == LogBetween(reactions, handlers, i, n)
  {
    assert Consumes(reactions, i) ==> LogBetween(reactions, handlers, i + 1, n) == [];
    Associative(CallsLog(rest.calls, handlers),
                if !rest.throws && rest.state.shouldRemove then [ToRemove(handlers[i])] else [],
                LogBetween(reactions, handlers, i + 1, n));
  }

  /** The requests of a dispatch are those of the handlers that are called, in their order, and no others. */
  lemma DispatchLogIs(reactions: Reactions, handlers: seq<Handler>, n: nat)
    requires Visits(reactions, |handlers|, n)
    ensures DispatchLog(reactions, handlers, 0) == LogBetween(reactions, handlers, 0, n)
  {
    forall k: nat
      ensures Continues(reactions, |handlers|, k, n)
    {
      VisitsContinues(reactions, |handlers|, k, n);
    }
    DispatchLogFrom(reactions, handlers, 0, n, reactions);
  }

  // Handler `i` reacts in the same way
  ghost predicate SameReaction(a: Reactions, b: Reactions, i: nat) {
    var x, y := Nth(a, i), Nth(b, i);
    (x.Silent? && y.Silent?)
    || (x.React? && y.React? && x.calls == y.calls && x.state == y.state && x.throws == y.throws)
  }

  ghost predicate SameFirst(a: Reactions, b: Reactions, n: nat) {
    forall i :: 0 <= i < n ==> SameReaction(a, b, i)
  }

  /** How handlers after the first that consumes the event would react changes nothing. */
  lemma OnlyVisitedMatter(a: Reactions, b: Reactions, handlers: seq<Handler>, n: nat)
    requires Visits(a, |handlers|, n) && SameFirst(a, b, n)
    ensures Visits(b, |handlers|, n) && DispatchLog(a, handlers, 0) == DispatchLog(b, handlers, 0)
  {
    forall i | 0 <= i < n
      ensures Consumes(a, i) <==> Consumes(b, i)
    {
      assert SameReaction(a, b, i);
    }
    DispatchLogIs(a, handlers, n);
    DispatchLogIs(b, handlers, n);
    SameLog(a, b, handlers, 0, n);
  }

  lemma {:induction false} SameLog(a: Reactions, b: Reactions, handlers: seq<Handler>, i: nat, n: nat)
    requires SameFirst(a, b, n) && i <= n <= |handlers|
    ensures LogBetween(a, handlers, i, n) == LogBetween(b, handlers, i, n)
    decreases n - i
  {
    if i == n {
    } else {
      SameLog(a, b, handlers, i + 1, n);
      assert OwnLog(a, handlers, i) == OwnLog(b, handlers, i) by {
        assert SameReaction(a, b, i);
      }
    }
  }

  // One of the handlers `i` to `n` asks for it
  ghost predicate AskedBetween(reactions: Reactions, handlers: seq<Handler>, i: nat, n: nat, r: Request)
    requires n <= |handlers|
  {
    exists k :: i <= k < n && AsksFor(reactions, handlers, k, r)
  }

  lemma AskedNext(reactions: Reactions, handlers: seq<Handler>, i: nat, n: nat, r: Request)
    requires i < n <= |handlers|
    ensures AskedBetween(reactions, handlers, i, n, r)
      <==> (AsksFor(reactions, handlers, i, r) || AskedBetween(reactions, handlers, i + 1, n, r))
  {
  }

  lemma InEither<T>(a: seq<T>, b: seq<T>, x: T)
    ensures x in a + b <==> x in a || x in b
  {
  }

  /** Exactly this is asked for: what a handler that is called asks for, and the removal of each that is called and
      answers so. */
  lemma {:induction false} AskedExactly(reactions: Reactions, handlers: seq<Handler>, i: nat, n: nat, r: Request)
    requires i <= n <= |handlers|
    ensures r in LogBetween(reactions, handlers, i, n) <==> AskedBetween(reactions, handlers, i, n, r)
    decreases n - i
  {
    if i == n {
    } else {
      AskedExactly(reactions, handlers, i + 1, n, r);
      InEither(OwnLog(reactions, handlers, i), LogBetween(reactions, handlers, i + 1, n), r);
      OwnExactly(reactions, handlers, i, r);
      AskedNext(reactions, handlers, i, n, r);
    }
  }

  lemma {:induction false} OwnExactly(reactions: Reactions, handlers: seq<Handler>, i: nat, r: Request)
    requires i < |handlers|
    ensures r in OwnLog(reactions, handlers, i) <==> AsksFor(reactions, handlers, i, r)
  {
  }

  ghost predicate AsksFor(reactions: Reactions, handlers: seq<Handler>, k: nat, r: Request)
    requires k < |handlers|
  {
    var own := Nth(reactions, k);
    && own.React?
    && (r in CallsLog(own.calls, handlers) || (r == ToRemove(handlers[k]) && !own.throws && own.state.shouldRemove))
  }

  // Calls, one after the other
  ghost function Chain(a: Calls, b: Calls): Calls
    decreases a
  {
    match a
    case Return => b
    case Add(h, next) => Add(h, Chain(next, b))
    case Remove(h, next) => Remove(h, Chain(next, b))
    case Dispatch(reactions, next) => Dispatch(reactions, Chain(next, b))
  }

  /** The requests of calls: a null pointer asks for nothing, a nested dispatch for what its handlers ask for, and calls
      one after the other for theirs in order. */
  lemma {:induction false} CallsLaws(a: Calls, b: Calls, h: Handler, reactions: Reactions, handlers: seq<Handler>)
    ensures CallsLog(Chain(a, b), handlers) == CallsLog(a, handlers) + CallsLog(b, handlers)
    ensures CallsLog(Add(Some(h), Return), handlers) == [ToAdd(h)] && CallsLog(Add(None, Return), handlers) == []
    ensures CallsLog(Remove(Some(h), Return), handlers) == [ToRemove(h)]
    ensures CallsLog(Remove(None, Return), handlers) == []
    ensures CallsLog(Dispatch(reactions, Return), handlers) == DispatchLog(reactions, handlers, 0)
    decreases a
  {
    match a
    case Return =>
    case Add(x, next) =>
      CallsLaws(next, b, h, reactions, handlers);
      Associative(Asked(x, false), CallsLog(next, handlers), CallsLog(b, handlers));
    case Remove(x, next) =>
      CallsLaws(next, b, h, reactions, handlers);
      Associative(Asked(x, true), CallsLog(next, handlers), CallsLog(b, handlers));
    case Dispatch(inner, next) =>
      CallsLaws(next, b, h, reactions, handlers);
      Associative(DispatchLog(inner, handlers, 0), CallsLog(next, handlers), CallsLog(b, handlers));
  }

  // ---------- the deferred lists ----------

  ghost function Removal(r: Request): seq<Handler> {
    if r.ToRemove? then [r.handler] else []
  }

  ghost function Addition(r: Request): seq<Handler> {
    if r.ToAdd? then [r.handler] else []
  }

  ghost function Removals(log: seq<Request>): seq<Handler> {
    if log == [] then [] else Removal(log[0]) + Removals(log[1..])
  }

  ghost function Additions(log: seq<Request>): seq<Handler> {
    if log == [] then [] else Addition(log[0]) + Additions(log[1..])
  }

  lemma {:induction false} RemovalsSplit(a: seq<Request>, b: seq<Request>)
    ensures Removals(a + b) == Removals(a) + Removals(b)
  {
    if a == [] {
      assert a + b == b;
    } else {
      RemovalsSplit(a[1..], b);
      assert (a + b)[1..] == a[1..] + b;
      Associative(Removal(a[0]), Removals(a[1..]), Removals(b));
    }
  }

  lemma {:induction false} AdditionsSplit(a: seq<Request>, b: seq<Request>)
    ensures Additions(a + b) == Additions(a) + Additions(b)
  {
    if a == [] {
      assert a + b == b;
    } else {
      AdditionsSplit(a[1..], b);
      assert (a + b)[1..] == a[1..] + b;
      Associative(Addition(a[0]), Additions(a[1..]), Additions(b));
    }
  }

  lemma Associative<T>(a: seq<T>, b: seq<T>, c: seq<T>)
    ensures (a + b) + c == a + (b + c)
  {
  }

  // The two deferred lists, before and after the requests of `log` were deferred
  datatype Deferred = Deferred(remove: seq<Handler>, add: seq<Handler>)

  ghost predicate Grows(before: Deferred, log: seq<Request>, after: Deferred) {
    after.remove == before.remove + Removals(log) && after.add == before.add + Additions(log)
  }

  lemma GrowsTwice(a: Deferred, first: seq<Request>, b: Deferred, second: seq<Request>, c: Deferred)
    requires Grows(a, first, b) && Grows(b, second, c)
    ensures Grows(a, first + second, c)
  {
    RemovalsSplit(first, second);
    AdditionsSplit(first, second);
    Associative(a.remove, Removals(first), Removals(second));
    Associative(a.add, Additions(first), Additions(second));
  }

  lemma GrowsByOne(before: Deferred, r: Request)
    ensures Grows(before, [], before)
    ensures Grows(before, [r], Deferred(before.remove + Removal(r), before.add + Addition(r)))
  {
    assert [r][1..] == [];
  }

  // The list without the first occurrence of a handler, if there is one
  function RemoveFirst(handlers: seq<Handler>, h: Handler): seq<Handler> {
    if handlers == [] then []
    else if handlers[0] == h then handlers[1..]
    else [handlers[0]] + RemoveFirst(handlers[1..], h)
  }

  function RemoveEach(handlers: seq<Handler>, removed: seq<Handler>): seq<Handler>
    decreases removed
  {
    if removed == [] then handlers else RemoveEach(RemoveFirst(handlers, removed[0]), removed[1..])
  }

  // Handlers up to `it` were called and asked for `done`; `rest` is how the others react
  ghost predicate StillToDo(reactions: Reactions, handlers: seq<Handler>, it: nat, done: seq<Request>, rest: Reactions)
  {
    && rest == Nth(reactions, it) && NoneConsumes(reactions, it)
    && done + DispatchLog(rest, handlers, it) == DispatchLog(reactions, handlers, 0)
  }

  // The turn of handler `it`
  lemma OneTurn(reactions: Reactions, handlers: seq<Handler>, it: nat, done: seq<Request>, rest: Reactions,
                made: seq<Request>)
    requires rest.React? && it < |handlers| && StillToDo(reactions, handlers, it, done, rest)
    requires made == CallsLog(rest.calls, handlers)
                       + if !rest.throws && rest.state.shouldRemove then [ToRemove(handlers[it])] else []
    ensures
      if !rest.throws && rest.state.consumeEvent then
        done + made == DispatchLog(reactions, handlers, 0) && Visits(reactions, |handlers|, it + 1)
      else StillToDo(reactions, handlers, it + 1, done + made, rest.others)
  {
    NthNext(reactions, it);
    var later := if !rest.throws && rest.state.consumeEvent then [] else DispatchLog(rest.others, handlers, it + 1);
    Associative(done, made, later);
    assert made + [] == made && (done + made) + [] == done + made;
  }

  lemma LastTurn(reactions: Reactions, handlers: seq<Handler>, it: nat, done: seq<Request>, rest: Reactions)
    requires it <= |handlers| && StillToDo(reactions, handlers, it, done, rest) && (it < |handlers| ==> rest.Silent?)
    ensures done == DispatchLog(reactions, handlers, 0) && Visits(reactions, |handlers|, |handlers|)
  {
    assert done + [] == done;
    SilentConsumeNothing(reactions, it, |handlers|);
  }

  class EventSystem {
    var handlers: seq<Handler>
    var inLoop: bool
    var deferredRemove: seq<Handler>
    var deferredAdd: seq<Handler>

    constructor ()
      ensures Valid() && !inLoop && handlers == []
    {
      handlers, inLoop, deferredRemove, deferredAdd := [], false, [], [];
    }

    // Nothing is deferred between dispatches
    ghost predicate Valid()
      reads this
    {
      !inLoop ==> deferredRemove == [] && deferredAdd == []
    }

    function DeferredLists(): Deferred
      reads this
    {
      Deferred(deferredRemove, deferredAdd)
    }

    method AddHandler(handler: Option<Handler>)
      requires Valid()
      modifies this
      ensures Valid() && inLoop == old(inLoop)
      ensures
        if inLoop then handlers == old(handlers) && Grows(old(DeferredLists()), Asked(handler, false), DeferredLists())
        else handlers == old(handlers) + (if handler.Some? then [handler.value] else [])
    {
      if handler.Some? {
        GrowsByOne(DeferredLists(), ToAdd(handler.value));
      }
      if handler.Some? {
        if inLoop {
          deferredAdd := deferredAdd + [handler.value];
        } else {
          handlers := handlers + [handler.value];
        }
      }
    }

    // Index of the first occurrence, or the length
    method Find(handler: Handler) returns (pos: nat)
      ensures pos <= |handlers| && handler !in handlers[..pos] && (pos < |handlers| ==> handlers[pos] == handler)
      ensures RemoveFirst(handlers, handler)
           == if pos < |handlers| then handlers[..pos] + handlers[pos + 1..] else handlers
    {
      pos := 0;
      while pos < |handlers| && handlers[pos] != handler
        invariant pos <= |handlers| && handler !in handlers[..pos]
      {
        pos := pos + 1;
      }
      RemoveFirstAt(handlers, handler, pos);
    }

    method RemoveHandler(handler: Option<Handler>)
      requires Valid()
      modifies this
      ensures Valid() && inLoop == old(inLoop)
      ensures
        if inLoop then handlers == old(handlers) && Grows(old(DeferredLists()), Asked(handler, true), DeferredLists())
        else handlers == if handler.Some? then RemoveFirst(old(handlers), handler.value) else old(handlers)
    {
      if handler.Some? {
        GrowsByOne(DeferredLists(), ToRemove(handler.value));
        if inLoop {
          deferredRemove := deferredRemove + [handler.value];
        } else {
          var pos := Find(handler.value);
          if pos < |handlers| {
            handlers := handlers[..pos] + handlers[pos + 1..];
          }
        }
      }
    }

    /** The calls a handler makes during a dispatch: the list of handlers stays as it is. */
    method Perform(calls: Calls)
      requires Valid() && inLoop
      modifies this
      ensures Valid() && inLoop && handlers == old(handlers)
      ensures Grows(old(DeferredLists()), CallsLog(calls, handlers), DeferredLists())
      decreases calls, 0
    {
      ghost var start := DeferredLists();
      match calls
      case Return =>
      case Add(h, next) =>
        AddHandler(h);
        ghost var middle := DeferredLists();
        Perform(next);
        GrowsTwice(start, Asked(h, false), middle, CallsLog(next, handlers), DeferredLists());
      case Remove(h, next) =>
        RemoveHandler(h);
        ghost var middle := DeferredLists();
        Perform(next);
        GrowsTwice(start, Asked(h, true), middle, CallsLog(next, handlers), DeferredLists());
      case Dispatch(reactions, next) =>
        ghost var _ := HandleEvent(reactions);
        ghost var middle := DeferredLists();
        Perform(next);
        GrowsTwice(start, DispatchLog(reactions, handlers, 0), middle, CallsLog(next, handlers), DeferredLists());
    }

    /** HandleEvent. It calls the handlers up to the first that consumes the event. Nested in another dispatch it only
        defers; at the outermost level it ends with all requests carried out: one first occurrence taken out for each
        removal, then the additions in order. */
    method HandleEvent(reactions: Reactions) returns (ghost visited: nat)
      requires Valid()
      modifies this
      ensures Visits(reactions, |old(handlers)|, visited)
      ensures Valid() && inLoop == old(inLoop)
      ensures var log := DispatchLog(reactions, old(handlers), 0);
        if inLoop then
          handlers == old(handlers) && Grows(old(DeferredLists()), log, DeferredLists())
        else
          && handlers == RemoveEach(old(handlers), Removals(log)) + Additions(log)
          && deferredRemove == [] && deferredAdd == []
      decreases reactions, 2
    {
      var innerLoop := inLoop;
      inLoop := true;
      visited := RunHandlers(reactions);
      if !innerLoop {
        inLoop := false;
        assert deferredRemove == Removals(DispatchLog(reactions, handlers, 0));
        assert deferredAdd == Additions(DispatchLog(reactions, handlers, 0));
        CarryOut();
      }
    }

    // The loop over the handlers; `visited` of them are called
    method RunHandlers(reactions: Reactions) returns (ghost visited: nat)
      requires inLoop
      modifies this
      ensures Visits(reactions, |handlers|, visited)
      ensures inLoop && handlers == old(handlers)
      ensures Grows(old(DeferredLists()), DispatchLog(reactions, handlers, 0), DeferredLists())
      decreases reactions, 1
    {
      var rest := reactions;
      ghost var start, hs := DeferredLists(), handlers;
      ghost var done: seq<Request> := [];
      var it := 0;
      assert StillToDo(reactions, hs, 0, [], reactions);
      while it < |handlers| && rest.React?
        invariant inLoop && handlers == hs && it <= |hs|
        invariant rest == reactions || rest < reactions
        invariant Grows(start, done, DeferredLists())
        invariant StillToDo(reactions, hs, it, done, rest)
        decreases |hs| - it
      {
        var React(calls, state, throws, others) := rest;
        ghost var made := RunHandler(calls, state, throws, it, start, done);
        OneTurn(reactions, hs, it, done, rest, made);
        done := done + made;
        if !throws && state.consumeEvent {
          return it + 1;
        }
        rest := others;
        it := it + 1;
      }
      LastTurn(reactions, hs, it, done, rest);
      return |handlers|;
    }

    // One handler's turn, after `done` was deferred since `start`
    method RunHandler(calls: Calls, state: PostEventState, throws: bool, it: nat, ghost start: Deferred,
                      ghost done: seq<Request>) returns (ghost made: seq<Request>)
      requires inLoop && it < |handlers| && Grows(start, done, DeferredLists())
      modifies this
      ensures inLoop && handlers == old(handlers)
      ensures made == CallsLog(calls, handlers) + if !throws && state.shouldRemove then [ToRemove(handlers[it])] else []
      ensures Grows(start, done + made, DeferredLists())
      decreases calls, 1
    {
      ghost var before := DeferredLists();
      Perform(calls);
      ghost var middle, called := DeferredLists(), CallsLog(calls, handlers);
      GrowsTwice(start, done, before, called, middle);
      if !throws && state.shouldRemove {
        deferredRemove := deferredRemove + [handlers[it]];
        GrowsByOne(middle, ToRemove(handlers[it]));
        made := called + [ToRemove(handlers[it])];
        GrowsTwice(start, done + called, middle, [ToRemove(handlers[it])], DeferredLists());
        Associative(done, called, [ToRemove(handlers[it])]);
      } else {
        made := called;
        assert called + [] == called;
      }
    }

    // Deferred removals, then deferred additions
    method CarryOut()
      requires !inLoop
      modifies this
      ensures Valid() && !inLoop
      ensures handlers == RemoveEach(old(handlers), old(deferredRemove)) + old(deferredAdd)
      ensures deferredRemove == [] && deferredAdd == []
    {
      for i := 0 to |deferredRemove|
        invariant !inLoop && deferredRemove == old(deferredRemove) && deferredAdd == old(deferredAdd)
        invariant RemoveEach(handlers, deferredRemove[i..]) == RemoveEach(old(handlers), deferredRemove)
      {
        assert deferredRemove[i..][1..] == deferredRemove[i + 1..];
        var pos := Find(deferredRemove[i]);
        if pos < |handlers| {
          handlers := handlers[..pos] + handlers[pos + 1..];
        }
      }
      deferredRemove := [];
      ghost var kept := handlers;
      for i := 0 to |deferredAdd|
        invariant !inLoop && deferredRemove == [] && deferredAdd == old(deferredAdd)
        invariant handlers == kept + deferredAdd[..i]
      {
        handlers := handlers + [deferredAdd[i]];
      }
      deferredAdd := [];
    }
  }

  lemma {:induction false} RemoveFirstAt(handlers: seq<Handler>, h: Handler, pos: nat)
    requires pos <= |handlers| && h !in handlers[..pos] && (pos < |handlers| ==> handlers[pos] == h)
    ensures RemoveFirst(handlers, h) == if pos < |handlers| then handlers[..pos] + handlers[pos + 1..] else handlers
  {
    if handlers != [] && pos > 0 {
      var tail := handlers[1..];
      assert handlers[0] in handlers[..pos];
      assert tail[..pos - 1] == handlers[..pos][1..];
      RemoveFirstAt(tail, h, pos - 1);
      assert RemoveFirst(handlers, h) == [handlers[0]] + RemoveFirst(tail, h);
      if pos < |handlers| {
        assert tail[pos..] == handlers[pos + 1..];
        assert [handlers[0]] + tail[..pos - 1] == handlers[..pos];
      }
    }
  }

  // ---------- what the result means ----------

  lemma {:induction false} RemoveFirstCount(handlers: seq<Handler>, h: Handler)
    ensures multiset(RemoveFirst(handlers, h)) == multiset(handlers) - multiset{h}
  {
    if handlers == [] {
    } else {
      assert handlers == [handlers[0]] + handlers[1..];
      RemoveFirstCount(handlers[1..], h);
    }
  }

  /** Each handler stays registered as often as it was, less the number of its removals, as far as that goes. */
  lemma {:induction false} RemoveEachCount(handlers: seq<Handler>, removed: seq<Handler>)
    ensures multiset(RemoveEach(handlers, removed)) == multiset(handlers) - multiset(removed)
    decreases removed
  {
    if removed == [] {
    } else {
      assert removed == [removed[0]] + removed[1..];
      RemoveFirstCount(handlers, removed[0]);
      RemoveEachCount(RemoveFirst(handlers, removed[0]), removed[1..]);
    }
  }

  /** A handler that asked for its removal during a dispatch, and was registered once and not added again, is gone
      after it. */
  lemma AskedAndGone(handlers: seq<Handler>, reactions: Reactions, h: Handler)
    requires multiset(handlers)[h] <= 1
    requires h in Removals(DispatchLog(reactions, handlers, 0)) && h !in Additions(DispatchLog(reactions, handlers, 0))
    ensures var log := DispatchLog(reactions, handlers, 0);
      h !in RemoveEach(handlers, Removals(log)) + Additions(log)
  {
    var log := DispatchLog(reactions, handlers, 0);
    RemoveEachCount(handlers, Removals(log));
    assert multiset(Removals(log))[h] >= 1;
    assert h !in multiset(RemoveEach(handlers, Removals(log)));
  }

  // ---------- EventEmitter ----------

  /** The handlers left after one event, erased while iterating. */
  ghost function Left(handlers: seq<Handler>, states: Handler -> PostEventState): seq<Handler> {
    if handlers == [] then []
    else
      (if states(handlers[0]).shouldRemove then [] else [handlers[0]])
      + if states(handlers[0]).consumeEvent then handlers[1..] else Left(handlers[1..], states)
  }

  // One turn of the loop of EmitEvent
  lemma EmitStep(before: seq<Handler>, at: nat, after: seq<Handler>, it: nat, states: Handler -> PostEventState)
    requires at < |before|
    requires if states(before[at]).shouldRemove then after == before[..at] + before[at + 1..] && it == at
             else after == before && it == at + 1
    ensures it <= |after|
    ensures before[..at] + Left(before[at..], states)
         == after[..it] + if states(before[at]).consumeEvent then after[it..] else Left(after[it..], states)
  {
    var h, rest := before[at], before[at + 1..];
    var kept := if states(h).shouldRemove then [] else [h];
    var others := if states(h).consumeEvent then rest else Left(rest, states);
    assert before[at..][0] == h && before[at..][1..] == rest;
    assert Left(before[at..], states) == kept + others;
    Associative(before[..at], kept, others);
    assert after[it..] == rest && after[..it] == before[..at] + kept;
  }

  lemma Whole(handlers: seq<Handler>, it: nat)
    requires it <= |handlers|
    ensures handlers[..it] + handlers[it..] == handlers
    ensures it == 0 ==> handlers[..it] == [] && handlers[it..] == handlers
  {
  }

  // Of `handlers` the first `n` are called
  ghost predicate EmitsTo(handlers: seq<Handler>, states: Handler -> PostEventState, n: nat) {
    && n <= |handlers|
    && (forall i :: 0 <= i < n - 1 ==> !states(handlers[i]).consumeEvent)
    && (n < |handlers| ==> n > 0 && states(handlers[n - 1]).consumeEvent)
  }

  // Those that do not ask to be removed
  ghost function Staying(handlers: seq<Handler>, states: Handler -> PostEventState): seq<Handler> {
    if handlers == [] then []
    else
      var last := handlers[|handlers| - 1];
      Staying(handlers[..|handlers| - 1], states) + if states(last).shouldRemove then [] else [last]
  }

  lemma StayingSnoc(s: seq<Handler>, last: Handler, states: Handler -> PostEventState)
    ensures Staying(s + [last], states) == Staying(s, states) + if states(last).shouldRemove then [] else [last]
  {
    assert (s + [last])[..|s|] == s;
  }

  lemma {:induction false} StayingCons(h: Handler, rest: seq<Handler>, states: Handler -> PostEventState)
    ensures Staying([h] + rest, states) == (if states(h).shouldRemove then [] else [h]) + Staying(rest, states)
    decreases |rest|
  {
    if rest == [] {
      StayingSnoc([], h, states);
      assert [h] + rest == [] + [h];
    } else {
      var init, last := rest[..|rest| - 1], rest[|rest| - 1];
      StayingCons(h, init, states);
      assert [h] + rest == ([h] + init) + [last] && rest == init + [last];
      StayingSnoc([h] + init, last, states);
      StayingSnoc(init, last, states);
      Associative(if states(h).shouldRemove then [] else [h], Staying(init, states),
                  if states(last).shouldRemove then [] else [last]);
    }
  }

  /** What is left: of the handlers that are called, up to the first that consumes the event, those that do not ask to
      be removed, and all after it, in their order. */
  lemma {:induction false} LeftIs(handlers: seq<Handler>, states: Handler -> PostEventState, n: nat)
    requires EmitsTo(handlers, states, n)
    ensures Left(handlers, states) == Staying(handlers[..n], states) + handlers[n..]
    decreases handlers
  {
    if handlers == [] {
    } else {
      var h, tail := handlers[0], handlers[1..];
      if !states(h).consumeEvent {
        assert forall i :: 0 <= i < |tail| ==> tail[i] == handlers[i + 1];
        LeftIs(tail, states, n - 1);
      }
      LeftStep(h, tail, states, n - 1);
      assert [h] + tail == handlers;
    }
  }

  lemma LeftStep(h: Handler, tail: seq<Handler>, states: Handler -> PostEventState, n: nat)
    requires n <= |tail|
    requires if states(h).consumeEvent then n == 0 else Left(tail, states) == Staying(tail[..n], states) + tail[n..]
    ensures Left([h] + tail, states) == Staying(([h] + tail)[..n + 1], states) + ([h] + tail)[n + 1..]
  {
    var kept := if states(h).shouldRemove then [] else [h];
    assert ([h] + tail)[..n + 1] == [h] + tail[..n] && ([h] + tail)[n + 1..] == tail[n..] && ([h] + tail)[1..] == tail;
    StayingCons(h, tail[..n], states);
    assert n == 0 ==> tail[..n] == [] && tail[n..] == tail;
    Associative(kept, Staying(tail[..n], states), tail[n..]);
  }

  class EventEmitter {
    var handlers: seq<Handler>

    constructor ()
      ensures handlers == []
    {
      handlers := [];
    }

    method AddHandler(handler: Option<Handler>)
      modifies this
      ensures handlers == old(handlers) + if handler.Some? then [handler.value] else []
    {
      if handler.Some? {
        handlers := handlers + [handler.value];
      }
    }

    /** EmitEvent for handlers that do not call back: those that ask for it are erased, and after one that consumes
        the event the others stay without having been called. */
    method EmitEvent(states: Handler -> PostEventState)
      modifies this
      ensures handlers == Left(old(handlers), states)
    {
      var it := 0;
      Whole(handlers, 0);
      while it < |handlers|
        invariant it <= |handlers|
        invariant handlers[..it] + Left(handlers[it..], states) == Left(old(handlers), states)
        decreases |handlers| - it
      {
        var state := states(handlers[it]);
        ghost var before, at := handlers, it;
        if state.shouldRemove {
          handlers := handlers[..it] + handlers[it + 1..];
        } else {
          it := it + 1;
        }
        EmitStep(before, at, handlers, it, states);
        if state.consumeEvent {
          Whole(handlers, it);
          return;
        }
      }
    }
  }
}
