/** Executing actions that call other actions, themselves included (backend/api/Action.cpp,
    backend/api/SubActionImpls.cpp, backend/api/SubActionImpls.h). */
module ActionExecution {
  import opened Actions

  const MAX_RECURSION := 10
  const MINUTE := 60000

  type Store = map<nat, Action>

  // One effect: a device property set or toggled or a notification sent, `delay` milliseconds after the start
  datatype Effect = Effect(delay: nat, data: SubActionData)

  /** What an execution amounts to: its effects in program order, the number of sub actions executed, whether the
      recursion limit cut it short, whether an exception ended a thread of its own and with it the process, and
      whether an exception goes on to the caller. */
  datatype Trace = Trace(effects: seq<Effect>, executions: nat, cut: bool, crashed: bool, thrown: bool)

  const NOTHING := Trace([], 0, false, false, false)

  // The program order of two traces; an exception skips the second
  function Then(a: Trace, b: Trace): Trace {
    if a.thrown then a
    else Trace(a.effects + b.effects, a.executions + b.executions, a.cut || b.cut, a.crashed || b.crashed, b.thrown)
  }

  // A sub action waits for its timeout, but for no more than a minute
  function Clamp(timeout: nat): (wait: nat)
    ensures wait <= timeout && wait <= 60000 && (wait == timeout || wait == 60000)
  {
    if timeout < MINUTE then timeout else MINUTE
  }

  // One more sub action executed; a delayed one runs in a thread of its own
  function Counted(t: Trace, delayed: bool): Trace {
    if delayed then t.(executions := t.executions + 1, crashed := t.crashed || t.thrown, thrown := false)
    else t.(executions := t.executions + 1)
  }

  // ---------- with the recursion limit ----------

  /** BaseImpl::Execute and InternalExec. `fails` tells which effects throw: a device that does not exist or refuses
      the value. */
  function ExecuteSub(store: Store, fails: SubActionData -> bool, sub: SubAction, depth: nat, delay: nat): Trace
    requires depth <= MAX_RECURSION
    decreases MAX_RECURSION + 1 - depth, 0
  {
    var at := delay + Clamp(sub.timeout);
    var inner :=
      if sub.data.Recursive? then
        if sub.data.actionId !in store then NOTHING.(thrown := true)
        else ExecuteAction(store, fails, store[sub.data.actionId].subs, depth + 1, at)
      else if fails(sub.data) then NOTHING.(thrown := true)
      else NOTHING.(effects := [Effect(at, sub.data)]);
    Counted(inner, sub.timeout != 0)
  }

  // The loop of Action::Execute
  function ExecuteAll(
    store: Store, fails: SubActionData -> bool, subs: seq<SubAction>, depth: nat, delay: nat): Trace
    requires depth <= MAX_RECURSION
    decreases MAX_RECURSION + 1 - depth, 1, |subs|
  {
    if subs == [] then NOTHING
    else Then(ExecuteSub(store, fails, subs[0], depth, delay), ExecuteAll(store, fails, subs[1..], depth, delay))
  }

  // Action::Execute
  function ExecuteAction(
    store: Store, fails: SubActionData -> bool, subs: seq<SubAction>, depth: nat, delay: nat): Trace
    requires depth <= MAX_RECURSION + 1
    decreases MAX_RECURSION + 1 - depth, 2
  {
    if depth > MAX_RECURSION then NOTHING.(cut := subs != [])
    else ExecuteAll(store, fails, subs, depth, delay)
  }

  lemma ExecuteCons(
    store: Store, fails: SubActionData -> bool, subs: seq<SubAction>, depth: nat, delay: nat)
    requires subs != [] && depth <= MAX_RECURSION
    ensures ExecuteAction(store, fails, subs, depth, delay)
         == Then(ExecuteSub(store, fails, subs[0], depth, delay), ExecuteAction(store, fails, subs[1..], depth, delay))
  {
  }

  // ---------- bounds ----------

  // No action of the store has more than `b` sub actions
  ghost predicate AtMost(store: Store, b: nat) {
    forall id :: id in store ==> |store[id].subs| <= b
  }

  // b + b^2 + ... + b^n
  ghost function PowerSum(b: nat, n: nat): nat {
    if n == 0 then 0 else b * (1 + PowerSum(b, n - 1))
  }

  // At most so many executions, and no effect later than that
  ghost predicate Bounded(t: Trace, executions: nat, delay: nat) {
    t.executions <= executions && forall i :: 0 <= i < |t.effects| ==> t.effects[i].delay <= delay
  }

  lemma ThenBounded(a: Trace, b: Trace, first: nat, second: nat, delay: nat)
    requires Bounded(a, first, delay) && Bounded(b, second, delay)
    ensures Bounded(Then(a, b), first + second, delay)
  {
  }

  lemma OneMore(n: nat, each: nat)
    requires n > 0
    ensures n * each == each + (n - 1) * each
  {
  }

  lemma {:induction false} SubBounds(
    store: Store, fails: SubActionData -> bool, sub: SubAction, depth: nat, delay: nat, b: nat)
    requires AtMost(store, b) && depth <= MAX_RECURSION
    ensures Bounded(ExecuteSub(store, fails, sub, depth, delay), 1 + PowerSum(b, MAX_RECURSION - depth),
                    delay + (MAX_RECURSION + 1 - depth) * MINUTE)
    decreases MAX_RECURSION + 1 - depth, 0
  {
    if sub.data.Recursive? && sub.data.actionId in store {
      ActionBounds(store, fails, store[sub.data.actionId].subs, depth + 1, delay + Clamp(sub.timeout), b);
    }
  }

  lemma {:induction false} AllBounds(
    store: Store, fails: SubActionData -> bool, subs: seq<SubAction>, depth: nat, delay: nat, b: nat, each: nat)
    requires AtMost(store, b) && depth <= MAX_RECURSION && each == 1 + PowerSum(b, MAX_RECURSION - depth)
    ensures Bounded(ExecuteAll(store, fails, subs, depth, delay), |subs| * each,
                    delay + (MAX_RECURSION + 1 - depth) * MINUTE)
    decreases MAX_RECURSION + 1 - depth, 1, |subs|
  {
    if subs == [] {
    } else {
      SubBounds(store, fails, subs[0], depth, delay, b);
      AllBounds(store, fails, subs[1..], depth, delay, b, each);
      OneMore(|subs|, each);
      ThenBounded(ExecuteSub(store, fails, subs[0], depth, delay), ExecuteAll(store, fails, subs[1..], depth, delay),
                  each, |subs[1..]| * each, delay + (MAX_RECURSION + 1 - depth) * MINUTE);
    }
  }

  lemma {:induction false} ActionBounds(
    store: Store, fails: SubActionData -> bool, subs: seq<SubAction>, depth: nat, delay: nat, b: nat)
    requires AtMost(store, b) && |subs| <= b && depth <= MAX_RECURSION + 1
    ensures Bounded(ExecuteAction(store, fails, subs, depth, delay), PowerSum(b, MAX_RECURSION + 1 - depth),
                    delay + (MAX_RECURSION + 1 - depth) * MINUTE)
    decreases MAX_RECURSION + 1 - depth, 2
  {
    if depth <= MAX_RECURSION {
      var each := 1 + PowerSum(b, MAX_RECURSION - depth);
      AllBounds(store, fails, subs, depth, delay, b, each);
      MultiplyBound(|subs|, b, each);
    }
  }

  lemma MultiplyBound(a: nat, b: nat, c: nat)
    requires a <= b
    ensures a * c <= b * c
  {
  }

  /** Whatever the actions of the store call, cycles included: executing one ends after at most b + ... + b^11 sub
      action executions, b being the length of the longest action, and every effect comes within 11 minutes. */
  lemma ExecutionIsBounded(store: Store, fails: SubActionData -> bool, action: Action, b: nat)
    requires AtMost(store, b) && |action.subs| <= b
    ensures var t := ExecuteAction(store, fails, action.subs, 0, 0);
      && t.executions <= PowerSum(b, 11)
      && forall i :: 0 <= i < |t.effects| ==> t.effects[i].delay <= 11 * MINUTE
  {
    ActionBounds(store, fails, action.subs, 0, 0, b);
  }

  // ---------- without the limit ----------

  /** No chain of calls from `subs` on goes through more than `n` actions that do something. */
  ghost predicate ChainWithin(store: Store, subs: seq<SubAction>, n: nat)
    decreases n
  {
    subs != [] ==>
      && n > 0
      && forall i :: 0 <= i < |subs| && subs[i].data.Recursive? && subs[i].data.actionId in store ==>
           ChainWithin(store, store[subs[i].data.actionId].subs, n - 1)
  }

  // The same execution with no limit; `n` bounds the chain
  ghost function Unlimited(
    store: Store, fails: SubActionData -> bool, subs: seq<SubAction>, delay: nat, n: nat): Trace
    requires ChainWithin(store, subs, n)
    decreases n, |subs|
  {
    if subs == [] then NOTHING
    else
      var sub := subs[0];
      var at := delay + Clamp(sub.timeout);
      var inner :=
        if sub.data.Recursive? then
          if sub.data.actionId !in store then NOTHING.(thrown := true)
          else Unlimited(store, fails, store[sub.data.actionId].subs, at, n - 1)
        else if fails(sub.data) then NOTHING.(thrown := true)
        else NOTHING.(effects := [Effect(at, sub.data)]);
      TailWithin(store, subs, n);
      Then(Counted(inner, sub.timeout != 0), Unlimited(store, fails, subs[1..], delay, n))
  }

  lemma TailWithin(store: Store, subs: seq<SubAction>, n: nat)
    requires subs != [] && ChainWithin(store, subs, n)
    ensures ChainWithin(store, subs[1..], n)
  {
  }

  // One sub action and the rest, each the same with and without the limit
  lemma {:induction false} LimitStep(
    store: Store, fails: SubActionData -> bool, subs: seq<SubAction>, depth: nat, delay: nat, n: nat)
    requires subs != [] && depth <= MAX_RECURSION && n == MAX_RECURSION + 1 - depth
    requires ChainWithin(store, subs, n) && ChainWithin(store, subs[1..], n)
    requires subs[0].data.Recursive? && subs[0].data.actionId in store ==>
      var called, at := store[subs[0].data.actionId].subs, delay + Clamp(subs[0].timeout);
      && ExecuteAction(store, fails, called, depth + 1, at) == Unlimited(store, fails, called, at, n - 1)
      && !ExecuteAction(store, fails, called, depth + 1, at).cut
    requires ExecuteAction(store, fails, subs[1..], depth, delay) == Unlimited(store, fails, subs[1..], delay, n)
    requires !ExecuteAction(store, fails, subs[1..], depth, delay).cut
    ensures ExecuteAction(store, fails, subs, depth, delay) == Unlimited(store, fails, subs, delay, n)
    ensures !ExecuteAction(store, fails, subs, depth, delay).cut
  {
    ExecuteCons(store, fails, subs, depth, delay);
  }

  lemma {:induction false} LimitUnreached(
    store: Store, fails: SubActionData -> bool, subs: seq<SubAction>, depth: nat, delay: nat, n: nat)
    requires depth <= MAX_RECURSION + 1 && n == MAX_RECURSION + 1 - depth && ChainWithin(store, subs, n)
    ensures ExecuteAction(store, fails, subs, depth, delay) == Unlimited(store, fails, subs, delay, n)
    ensures !ExecuteAction(store, fails, subs, depth, delay).cut
    decreases n, |subs|
  {
    if subs == [] {
    } else {
      TailWithin(store, subs, n);
      if subs[0].data.Recursive? && subs[0].data.actionId in store {
        var called := store[subs[0].data.actionId].subs;
        LimitUnreached(store, fails, called, depth + 1, delay + Clamp(subs[0].timeout), n - 1);
      }
      LimitUnreached(store, fails, subs[1..], depth, delay, n);
      LimitStep(store, fails, subs, depth, delay, n);
    }
  }

  /** If no chain goes through more than 11 actions, the limit changes nothing: effects, their order and times, and
      exceptions are those of the execution without it. */
  lemma LimitIsInvisible(store: Store, fails: SubActionData -> bool, action: Action)
    requires ChainWithin(store, action.subs, 11)
    ensures ExecuteAction(store, fails, action.subs, 0, 0) == Unlimited(store, fails, action.subs, 0, 11)
    ensures !ExecuteAction(store, fails, action.subs, 0, 0).cut
  {
    LimitUnreached(store, fails, action.subs, 0, 0, 11);
  }

  // Every call finds its action
  ghost predicate Closed(store: Store, subs: seq<SubAction>) {
    && (forall i :: 0 <= i < |subs| && subs[i].data.Recursive? ==> subs[i].data.actionId in store)
    && forall id, i :: id in store && 0 <= i < |store[id].subs| && store[id].subs[i].data.Recursive? ==>
         store[id].subs[i].data.actionId in store
  }

  lemma {:induction false} CutExactly(
    store: Store, fails: SubActionData -> bool, subs: seq<SubAction>, depth: nat, delay: nat)
    requires Closed(store, subs) && (forall d :: !fails(d)) && depth <= MAX_RECURSION + 1
    ensures ExecuteAction(store, fails, subs, depth, delay).cut
      <==> !ChainWithin(store, subs, MAX_RECURSION + 1 - depth)
    ensures !ExecuteAction(store, fails, subs, depth, delay).thrown
    decreases MAX_RECURSION + 1 - depth, |subs|
  {
    if subs != [] && depth <= MAX_RECURSION {
      var sub := subs[0];
      var n := MAX_RECURSION + 1 - depth;
      if sub.data.Recursive? {
        var called := store[sub.data.actionId].subs;
        assert Closed(store, called);
        CutExactly(store, fails, called, depth + 1, delay + Clamp(sub.timeout));
      }
      CutExactly(store, fails, subs[1..], depth, delay);
      ChainOfCons(store, subs, n);
      ExecuteCons(store, fails, subs, depth, delay);
      assert MAX_RECURSION + 1 - (depth + 1) == n - 1;
    }
  }

  lemma ChainOfCons(store: Store, subs: seq<SubAction>, n: nat)
    requires subs != [] && n > 0
    ensures ChainWithin(store, subs, n) <==>
      && (subs[0].data.Recursive? && subs[0].data.actionId in store ==>
            ChainWithin(store, store[subs[0].data.actionId].subs, n - 1))
      && ChainWithin(store, subs[1..], n)
  {
  }

  /** When nothing throws, the limit cuts an execution short exactly when some chain goes through more than 11
      actions that do something. */
  lemma CutIffLongChain(store: Store, fails: SubActionData -> bool, action: Action)
    requires Closed(store, action.subs) && forall d :: !fails(d)
    ensures ExecuteAction(store, fails, action.subs, 0, 0).cut
      <==> !ChainWithin(store, action.subs, MAX_RECURSION + 1)
  {
    CutExactly(store, fails, action.subs, 0, 0);
  }

  // ---------- what is executed ----------

  /** One sub action that calls no other: it takes effect after its timeout, or after a minute if that is shorter. If it
      throws, nothing takes effect, and the exception ends the process unless the sub action has no timeout, in which
      case it goes to the caller. */
  lemma PlainSub(store: Store, fails: SubActionData -> bool, sub: SubAction, depth: nat, delay: nat)
    requires !sub.data.Recursive? && depth <= 10
    ensures var t := ExecuteAction(store, fails, [sub], depth, delay);
      && (fails(sub.data) ==> t.effects == [])
      && (!fails(sub.data) ==>
            |t.effects| == 1 && t.effects[0].data == sub.data
            && t.effects[0].delay == delay + if sub.timeout > 60000 then 60000 else sub.timeout)
      && t.executions == 1 && !t.cut
      && (t.thrown <==> fails(sub.data) && sub.timeout == 0)
      && (t.crashed <==> fails(sub.data) && sub.timeout != 0)
  {
    ExecuteCons(store, fails, [sub], depth, delay);
    assert [sub][1..] == [];
  }

  /** One sub action that calls another action: that action is executed as a whole, one level deeper, after the timeout
      or a minute. An action that does not exist counts as an exception. */
  lemma CallingSub(store: Store, fails: SubActionData -> bool, sub: SubAction, depth: nat, delay: nat)
    requires sub.data.Recursive? && depth <= 10
    ensures var t := ExecuteAction(store, fails, [sub], depth, delay);
      var called := if sub.data.actionId in store then store[sub.data.actionId].subs else [];
      var inner := ExecuteAction(store, fails, called, depth + 1,
                                 delay + if sub.timeout > 60000 then 60000 else sub.timeout);
      var failed := sub.data.actionId !in store || inner.thrown;
      && t.effects == inner.effects && t.executions == 1 + inner.executions && t.cut == inner.cut
      && (t.thrown <==> failed && sub.timeout == 0)
      && (t.crashed <==> inner.crashed || (failed && sub.timeout != 0))
  {
    ExecuteCons(store, fails, [sub], depth, delay);
    assert [sub][1..] == [];
  }

  /** Sub actions are executed in their order until one throws, with the same start time for all; below the last level
      none is. With the laws for one sub action this determines every execution. */
  lemma {:induction false} InOrder(
    store: Store, fails: SubActionData -> bool, a: seq<SubAction>, b: seq<SubAction>, depth: nat, delay: nat)
    requires depth <= 11
    ensures var first, second := ExecuteAction(store, fails, a, depth, delay),
                                 ExecuteAction(store, fails, b, depth, delay);
      var t := ExecuteAction(store, fails, a + b, depth, delay);
      && (first.thrown ==> t == first)
      && (!first.thrown ==>
            && t.effects == first.effects + second.effects
            && t.executions == first.executions + second.executions
            && (t.cut <==> first.cut || second.cut)
            && (t.crashed <==> first.crashed || second.crashed)
            && (t.thrown <==> second.thrown))
      && (depth == 11 ==> t.effects == [] && t.executions == 0 && !t.thrown && !t.crashed)
    decreases a
  {
    if a == [] {
      assert a + b == b;
    } else if depth <= 10 {
      InOrder(store, fails, a[1..], b, depth, delay);
      assert (a + b)[1..] == a[1..] + b && (a + b)[0] == a[0];
      ExecuteCons(store, fails, a, depth, delay);
      ExecuteCons(store, fails, a + b, depth, delay);
      ThenAssociative(ExecuteSub(store, fails, a[0], depth, delay), ExecuteAction(store, fails, a[1..], depth, delay),
                      ExecuteAction(store, fails, b, depth, delay));
    }
  }

  // ---------- paths of calls ----------

  /** A way from `subs` to something that takes effect: the position of a sub action in each action that is called,
      the last one of which calls no other. */
  ghost predicate IsPath(store: Store, subs: seq<SubAction>, path: seq<nat>)
    decreases path
  {
    && path != [] && path[0] < |subs|
    && (|path| == 1 <==> !subs[path[0]].data.Recursive?)
    && (|path| > 1 ==>
          && subs[path[0]].data.actionId in store
          && IsPath(store, store[subs[path[0]].data.actionId].subs, path[1..]))
  }

  // What takes effect there, after all the waiting on the way
  ghost function AtEnd(store: Store, subs: seq<SubAction>, path: seq<nat>, delay: nat): Effect
    requires IsPath(store, subs, path)
    decreases path
  {
    var sub := subs[path[0]];
    var at := delay + Clamp(sub.timeout);
    if |path| == 1 then Effect(at, sub.data) else AtEnd(store, store[sub.data.actionId].subs, path[1..], at)
  }

  // `path` leads to `e` without going through more actions than there are levels left
  ghost predicate LeadsTo(store: Store, subs: seq<SubAction>, path: seq<nat>, depth: nat, delay: nat, e: Effect) {
    IsPath(store, subs, path) && |path| + depth <= 11 && AtEnd(store, subs, path, delay) == e
  }

  lemma LeadsOn(store: Store, subs: seq<SubAction>, path: seq<nat>, depth: nat, delay: nat, e: Effect)
    requires subs != [] && path != [] && path[0] > 0
    ensures LeadsTo(store, subs, path, depth, delay, e)
       <==> LeadsTo(store, subs[1..], [path[0] - 1] + path[1..], depth, delay, e)
  {
    var shorter := [path[0] - 1] + path[1..];
    assert shorter[1..] == path[1..];
    assert path[0] < |subs| ==> subs[path[0]] == subs[1..][path[0] - 1];
  }

  lemma LeadsIn(store: Store, subs: seq<SubAction>, path: seq<nat>, depth: nat, delay: nat, e: Effect)
    requires subs != [] && subs[0].data.Recursive? && subs[0].data.actionId in store
    requires |path| > 0 && path[0] == 0
    ensures LeadsTo(store, subs, path, depth, delay, e)
       <==> LeadsTo(store, store[subs[0].data.actionId].subs, path[1..], depth + 1,
                    delay + Clamp(subs[0].timeout), e)
  {
  }

  /** Nothing else takes effect: every effect of an execution, whatever throws, lies at the end of a path of calls
      within the limit, and its delay is the sum of the timeouts on that path, each cut to a minute. */
  lemma {:induction false} EffectHasPath(
    store: Store, fails: SubActionData -> bool, subs: seq<SubAction>, depth: nat, delay: nat, e: Effect)
    returns (path: seq<nat>)
    requires depth <= 11 && e in ExecuteAction(store, fails, subs, depth, delay).effects
    ensures LeadsTo(store, subs, path, depth, delay, e) && !fails(e.data)
    decreases 11 - depth, |subs|
  {
    ExecuteCons(store, fails, subs, depth, delay);
    var sub := subs[0];
    if e in ExecuteSub(store, fails, sub, depth, delay).effects {
      if sub.data.Recursive? {
        var called := store[sub.data.actionId].subs;
        var rest := EffectHasPath(store, fails, called, depth + 1, delay + Clamp(sub.timeout), e);
        path := [0] + rest;
        assert path[1..] == rest;
        LeadsIn(store, subs, path, depth, delay, e);
      } else {
        path := [0];
      }
    } else {
      var rest := EffectHasPath(store, fails, subs[1..], depth, delay, e);
      path := [rest[0] + 1] + rest[1..];
      assert [path[0] - 1] + path[1..] == rest;
      LeadsOn(store, subs, path, depth, delay, e);
    }
  }

  /** When nothing throws, all of that does take effect. */
  lemma {:induction false} PathTakesEffect(
    store: Store, fails: SubActionData -> bool, subs: seq<SubAction>, depth: nat, delay: nat, path: seq<nat>,
    e: Effect)
    requires Closed(store, subs) && (forall d :: !fails(d)) && LeadsTo(store, subs, path, depth, delay, e)
    ensures e in ExecuteAction(store, fails, subs, depth, delay).effects
    decreases 11 - depth, |subs|
  {
    ExecuteCons(store, fails, subs, depth, delay);
    NothingThrown(store, fails, subs, depth, delay);
    var sub := subs[0];
    if path[0] > 0 {
      LeadsOn(store, subs, path, depth, delay, e);
      PathTakesEffect(store, fails, subs[1..], depth, delay, [path[0] - 1] + path[1..], e);
    } else if sub.data.Recursive? {
      LeadsIn(store, subs, path, depth, delay, e);
      var called := store[sub.data.actionId].subs;
      assert Closed(store, called);
      PathTakesEffect(store, fails, called, depth + 1, delay + Clamp(sub.timeout), path[1..], e);
    }
  }

  lemma NothingThrown(store: Store, fails: SubActionData -> bool, subs: seq<SubAction>, depth: nat, delay: nat)
    requires subs != [] && Closed(store, subs) && (forall d :: !fails(d)) && depth <= 10
    ensures !ExecuteSub(store, fails, subs[0], depth, delay).thrown
  {
    CutExactly(store, fails, [subs[0]], depth, delay);
    ExecuteCons(store, fails, [subs[0]], depth, delay);
    assert [subs[0]][1..] == [];
  }

  // ---------- as it runs ----------

  /** Action::Execute with its effects on the outside world. */
  class Runner {
    const store: Store
    const fails: SubActionData -> bool
    var effects: seq<Effect>
    var executions: nat
    var cut: bool
    var crashed: bool

    constructor (store: Store, fails: SubActionData -> bool)
      ensures this.store == store && this.fails == fails && Done(false) == NOTHING
    {
      this.store, this.fails := store, fails;
      effects, executions, cut, crashed := [], 0, false, false;
    }

    // What was done so far
    ghost function Done(thrown: bool): Trace
      reads this
    {
      Trace(effects, executions, cut, crashed, thrown)
    }

    method Execute(subs: seq<SubAction>, depth: nat, delay: nat) returns (thrown: bool)
      requires depth <= MAX_RECURSION + 1
      modifies this
      ensures Done(thrown) == Then(old(Done(false)), ExecuteAction(store, fails, subs, depth, delay))
      decreases MAX_RECURSION + 1 - depth, 1
    {
      ghost var start := Done(false);
      if depth > MAX_RECURSION {
        cut := cut || |subs| > 0;
        return false;
      }
      for i := 0 to |subs|
        invariant Then(Done(false), ExecuteAll(store, fails, subs[i..], depth, delay))
               == Then(start, ExecuteAll(store, fails, subs, depth, delay))
      {
        ghost var before := Done(false);
        var failed := ExecuteOne(subs[i], depth, delay);
        assert subs[i..][1..] == subs[i + 1..];
        ThenAssociative(before, ExecuteSub(store, fails, subs[i], depth, delay),
                        ExecuteAll(store, fails, subs[i + 1..], depth, delay));
        if failed {
          return true;
        }
      }
      return false;
    }

    method ExecuteOne(sub: SubAction, depth: nat, delay: nat) returns (thrown: bool)
      requires depth <= MAX_RECURSION
      modifies this
      ensures Done(thrown) == Then(old(Done(false)), ExecuteSub(store, fails, sub, depth, delay))
      decreases MAX_RECURSION + 1 - depth, 0
    {
      executions := executions + 1;
      thrown := Internal(sub.data, depth, delay + if sub.timeout < MINUTE then sub.timeout else MINUTE);
      if sub.timeout != 0 && thrown {
        crashed := true;
        thrown := false;
      }
    }

    // InternalExec of the four classes
    method Internal(data: SubActionData, depth: nat, delay: nat) returns (thrown: bool)
      requires depth <= MAX_RECURSION
      modifies this
      ensures Done(thrown) == Then(old(Done(false)),
        if data.Recursive? then
          if data.actionId !in store then NOTHING.(thrown := true)
          else ExecuteAction(store, fails, store[data.actionId].subs, depth + 1, delay)
        else if fails(data) then NOTHING.(thrown := true)
        else NOTHING.(effects := [Effect(delay, data)]))
      decreases MAX_RECURSION - depth, 2
    {
      if data.Recursive? {
        if data.actionId !in store {
          return true;
        }
        thrown := Execute(store[data.actionId].subs, depth + 1, delay);
      } else if fails(data) {
        return true;
      } else {
        effects := effects + [Effect(delay, data)];
        return false;
      }
    }
  }

  lemma ThenAssociative(a: Trace, b: Trace, c: Trace)
    ensures Then(Then(a, b), c) == Then(a, Then(b, c))
  {
    assert (a.effects + b.effects) + c.effects == a.effects + (b.effects + c.effects);
  }
}
