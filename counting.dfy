/** The call-counting bookkeeping of the CDI `@Counted` interceptor, as values:
    the entities an interception sees, and the effect of one counted call on
    the metric registry, stated as pure functions with lemmas about them.
    The class in interceptor.dfy performs the same steps in place and is
    proved against the functions defined here. */
module Counting {

  /** A Java class, known only by its name (reflection is not modelled). */
  datatype ClassId = ClassId(name: string)

  /** The intercepted member: a constructor or a method, with the class that declares it. */
  datatype Member =
    | Constructor(declaringClass: ClassId)
    | Method(declaringClass: ClassId, name: string)

  /** An object returned by the wrapped call, known only by its identity. */
  datatype Value = Value(id: nat)

  /** A throwable leaving a call: one raised by the wrapped code, or the
      `IllegalStateException` the interceptor raises for a missing counter. */
  datatype Error = Thrown(id: nat) | IllegalStateException

  /** How a call ends: it returns a value or it raises. */
  datatype Outcome = Returned(value: Value) | Raised(error: Error)

  /** What the metric resolver gives for the `@Counted` annotation of a member:
      the metric name and the annotation's `monotonic` flag. */
  datatype Resolved = Resolved(metricName: string, monotonic: bool)

  /** The three interception hooks the interceptor declares. */
  datatype Hook = AroundConstruct | AroundInvoke | AroundTimeout

  /** What `InvocationContext.proceed()` runs: either the target code, which
      ends with an outcome, or target code that re-enters a counted member
      through another interception and ends as that nested call ends. */
  datatype Body =
    | Finish(outcome: Outcome)
    | Reenter(hook: Hook, inner: Invocation)

  /** One in-flight call: `member` is what `getConstructor()` gives for a
      constructor interception and what `getMethod()` gives otherwise;
      `targetClass` is the class of `getTarget()`. */
  datatype Invocation = Invocation(member: Member, targetClass: ClassId, body: Body)

  /** The collaborators the interceptor consults: the metric resolver, a
      deterministic function of (class, member), and the JVM's
      `Class.getSuperclass()`. */
  datatype Env = Env(resolver: (ClassId, Member) -> Resolved, superclassOf: ClassId -> ClassId)

  /** The counters of the metric registry, by name. */
  type Registry = map<string, int>

  /** What a counted call does, in order: `Inc`/`Dec` of a named counter, and
      `TargetRan` when the wrapped target code starts, with the counter values
      it sees at that moment. */
  datatype Event = Inc(name: string) | Dec(name: string) | TargetRan(seen: Registry)

  /** The effect of a call: how it ends, the registry afterwards, and its events. */
  datatype Effect = Effect(outcome: Outcome, registry: Registry, trace: seq<Event>)

  /** The class the annotation is resolved against: the constructor's own
      declaring class for a constructor interception, the superclass of the
      target's (proxy) class for a method or timeout interception. */
  function TopClass(env: Env, hook: Hook, ctx: Invocation): (top: ClassId)
  {
    match hook
    case AroundConstruct => ctx.member.declaringClass
    case AroundInvoke => env.superclassOf(ctx.targetClass)
    case AroundTimeout => env.superclassOf(ctx.targetClass)
  }

  /** One interception through `hook`: resolve the top class, then count. */
  function Intercept(env: Env, reg: Registry, hook: Hook, ctx: Invocation): (e: Effect)
    ensures e.registry.Keys == reg.Keys
    decreases ctx, 1
  {
    Counted(env, reg, ctx, TopClass(env, hook, ctx), ctx.member)
  }

  /** The shared helper: resolve (name, monotonic); a missing counter raises
      `IllegalStateException` at once; otherwise increment, run the wrapped
      code, and on every exit decrement again unless monotonic.
      No call ever creates or removes a counter. */
  function Counted(env: Env, reg: Registry, ctx: Invocation, topClass: ClassId, element: Member): (e: Effect)
    ensures e.registry.Keys == reg.Keys
    decreases ctx, 0
  {
    var counted := env.resolver(topClass, element);
    var name := counted.metricName;
    if name !in reg then
      Effect(Raised(IllegalStateException), reg, [])
    else
      var inner := Run(env, reg[name := reg[name] + 1], ctx.body);
      var after := if counted.monotonic then inner.registry
                   else inner.registry[name := inner.registry[name] - 1];
      Effect(inner.outcome, after,
             [Inc(name)] + inner.trace + (if counted.monotonic then [] else [Dec(name)]))
  }

  /** `proceed()`: the target code runs on the registry as it finds it. */
  function Run(env: Env, reg: Registry, body: Body): (e: Effect)
    ensures e.registry.Keys == reg.Keys
    decreases body
  {
    match body
    case Finish(o) => Effect(o, reg, [TargetRan(reg)])
    case Reenter(hook, inner) => Intercept(env, reg, hook, inner)
  }

  // ---------------------------------------------------------------------
  // The events as a log of the registry: replaying them gives the registry.

  function Step(reg: Registry, ev: Event): (next: Registry)
  {
    match ev
    case Inc(n) => if n in reg then reg[n := reg[n] + 1] else reg
    case Dec(n) => if n in reg then reg[n := reg[n] - 1] else reg
    case TargetRan(_) => reg
  }

  /** The registry after applying every `Inc`/`Dec` of `trace` in order. */
  function Replay(reg: Registry, trace: seq<Event>): (final: Registry)
    decreases |trace|
  {
    if trace == [] then reg else Replay(Step(reg, trace[0]), trace[1..])
  }

  /** Every `TargetRan` in `trace` saw exactly the registry the events before it produce. */
  predicate Faithful(reg: Registry, trace: seq<Event>)
    decreases |trace|
  {
    trace == [] ||
    ((trace[0].TargetRan? ==> trace[0].seen == reg) && Faithful(Step(reg, trace[0]), trace[1..]))
  }

  predicate Mentions(ev: Event, n: string)
  {
    (ev.Inc? && ev.name == n) || (ev.Dec? && ev.name == n)
  }

  lemma {:induction false} ReplayAppend(reg: Registry, a: seq<Event>, b: seq<Event>)
    ensures Replay(reg, a + b) == Replay(Replay(reg, a), b)
    ensures Faithful(reg, a + b) <==> Faithful(reg, a) && Faithful(Replay(reg, a), b)
    decreases |a|
  {
    if a == [] {
      assert a + b == b;
    } else {
      assert (a + b)[0] == a[0];
      assert (a + b)[1..] == a[1..] + b;
      ReplayAppend(Step(reg, a[0]), a[1..], b);
    }
  }

  /** Replaying events that never name `n` leaves counter `n` as it was. */
  lemma {:induction false} ReplayUntouched(reg: Registry, trace: seq<Event>, n: string)
    requires forall i :: 0 <= i < |trace| ==> !Mentions(trace[i], n)
    ensures n in Replay(reg, trace) <==> n in reg
    ensures n in reg ==> Replay(reg, trace)[n] == reg[n]
    decreases |trace|
  {
    if trace != [] {
      assert !Mentions(trace[0], n);
      forall i | 0 <= i < |trace[1..]| ensures !Mentions(trace[1..][i], n) {
        assert trace[1..][i] == trace[i + 1];
      }
      ReplayUntouched(Step(reg, trace[0]), trace[1..], n);
    }
  }

  /** The registry after a counted call is the replay of its events, and the
      target code saw the registry those events had produced when it started. */
  lemma {:induction false} CountedIsLogged(env: Env, reg: Registry, ctx: Invocation, topClass: ClassId, element: Member)
    ensures var e := Counted(env, reg, ctx, topClass, element);
      e.registry == Replay(reg, e.trace) && Faithful(reg, e.trace)
    decreases ctx, 0
  {
    var counted := env.resolver(topClass, element);
    var name := counted.metricName;
    if name in reg {
      var up := reg[name := reg[name] + 1];
      var inner := Run(env, up, ctx.body);
      RunIsLogged(env, up, ctx.body);
      var tail := if counted.monotonic then [] else [Dec(name)];
      assert Replay(reg, [Inc(name)]) == up;
      assert Faithful(reg, [Inc(name)]);
      ReplayAppend(reg, [Inc(name)], inner.trace);
      ReplayAppend(reg, [Inc(name)] + inner.trace, tail);
      assert Replay(inner.registry, tail) == Counted(env, reg, ctx, topClass, element).registry;
      assert Faithful(inner.registry, tail);
    }
  }

  lemma {:induction false} RunIsLogged(env: Env, reg: Registry, body: Body)
    ensures var e := Run(env, reg, body);
      e.registry == Replay(reg, e.trace) && Faithful(reg, e.trace)
    decreases body
  {
    match body
    case Finish(o) =>
      assert Replay(reg, [TargetRan(reg)]) == reg;
    case Reenter(hook, inner) =>
      CountedIsLogged(env, reg, inner, TopClass(env, hook, inner), inner.member);
  }

  /** Only counters the call's own events name can change; all others,
      present or absent, are as they were. */
  lemma OthersUnchanged(env: Env, reg: Registry, ctx: Invocation, topClass: ClassId, element: Member, n: string)
    requires var e := Counted(env, reg, ctx, topClass, element);
      forall i :: 0 <= i < |e.trace| ==> !Mentions(e.trace[i], n)
    ensures var e := Counted(env, reg, ctx, topClass, element);
      (n in e.registry <==> n in reg) && (n in reg ==> e.registry[n] == reg[n])
  {
    var e := Counted(env, reg, ctx, topClass, element);
    CountedIsLogged(env, reg, ctx, topClass, element);
    ReplayUntouched(reg, e.trace, n);
  }

  // ---------------------------------------------------------------------
  // One counted call whose wrapped code is the target itself.

  /** A counter missing from the registry: the call raises
      `IllegalStateException`, the registry is unchanged, nothing is
      incremented and the wrapped code never runs. */
  lemma MissingCounterFails(env: Env, reg: Registry, ctx: Invocation, topClass: ClassId, element: Member)
    requires env.resolver(topClass, element).metricName !in reg
    ensures var e := Counted(env, reg, ctx, topClass, element);
      e.outcome == Raised(IllegalStateException) && e.registry == reg && e.trace == []
  {
  }

  /** With the counter present, the increment comes first and the target code
      runs seeing the counter one above its value before the call; the
      decrement, if any, comes last. */
  lemma IncrementBeforeProceed(env: Env, reg: Registry, ctx: Invocation, topClass: ClassId, element: Member)
    requires ctx.body.Finish?
    requires env.resolver(topClass, element).metricName in reg
    ensures var c := env.resolver(topClass, element);
      var n := c.metricName;
      var e := Counted(env, reg, ctx, topClass, element);
      e.trace == [Inc(n), TargetRan(reg[n := reg[n] + 1])] + (if c.monotonic then [] else [Dec(n)])
      && e.trace[1].seen[n] == reg[n] + 1
  {
  }

  /** A non-monotonic counter is back at its value before the call, and the
      outcome of the target is passed on, whether it returned or raised. */
  lemma NonMonotonicBalances(env: Env, reg: Registry, ctx: Invocation, topClass: ClassId, element: Member)
    requires ctx.body.Finish?
    requires env.resolver(topClass, element).metricName in reg
    requires !env.resolver(topClass, element).monotonic
    ensures var e := Counted(env, reg, ctx, topClass, element);
      e.registry == reg && e.outcome == ctx.body.outcome
  {
  }

  /** A monotonic counter ends exactly one higher, whatever the outcome,
      which is passed on; every other counter is as it was. */
  lemma MonotonicAddsOne(env: Env, reg: Registry, ctx: Invocation, topClass: ClassId, element: Member)
    requires ctx.body.Finish?
    requires env.resolver(topClass, element).metricName in reg
    requires env.resolver(topClass, element).monotonic
    ensures var n := env.resolver(topClass, element).metricName;
      var e := Counted(env, reg, ctx, topClass, element);
      e.registry == reg[n := reg[n] + 1] && e.outcome == ctx.body.outcome
  {
  }

  /** Whatever the wrapped code does, as long as it never touches the call's
      own counter (it may run counted calls on other counters), that counter
      ends back at its pre-call value, or exactly one higher if monotonic,
      and the wrapped code's outcome is passed on. */
  lemma OwnCounterBalances(env: Env, reg: Registry, ctx: Invocation, topClass: ClassId, element: Member)
    requires var n := env.resolver(topClass, element).metricName;
      n in reg &&
      var inner := Run(env, reg[n := reg[n] + 1], ctx.body);
      forall i :: 0 <= i < |inner.trace| ==> !Mentions(inner.trace[i], n)
    ensures var c := env.resolver(topClass, element);
      var n := c.metricName;
      var e := Counted(env, reg, ctx, topClass, element);
      n in e.registry
      && e.registry[n] == reg[n] + (if c.monotonic then 1 else 0)
      && e.outcome == Run(env, reg[n := reg[n] + 1], ctx.body).outcome
  {
    var n := env.resolver(topClass, element).metricName;
    var up := reg[n := reg[n] + 1];
    RunIsLogged(env, up, ctx.body);
    ReplayUntouched(up, Run(env, up, ctx.body).trace, n);
  }

  /** The method and timeout hooks resolve identically, so they count identically. */
  lemma InvokeAndTimeoutAgree(env: Env, reg: Registry, ctx: Invocation)
    ensures Intercept(env, reg, AroundInvoke, ctx) == Intercept(env, reg, AroundTimeout, ctx)
    ensures Intercept(env, reg, AroundInvoke, ctx)
         == Counted(env, reg, ctx, env.superclassOf(ctx.targetClass), ctx.member)
    ensures Intercept(env, reg, AroundConstruct, ctx)
         == Counted(env, reg, ctx, ctx.member.declaringClass, ctx.member)
  {
  }

  // ---------------------------------------------------------------------
  // Nested and repeated calls.

  /** `ctx`, entered through `hook`, is a chain of `depth` counted calls, each
      re-entering the next, all resolving to the same annotation `c`, the
      innermost one running the target. */
  predicate SameCounterChain(env: Env, hook: Hook, ctx: Invocation, c: Resolved, depth: nat)
    decreases ctx
  {
    env.resolver(TopClass(env, hook, ctx), ctx.member) == c &&
    match ctx.body
    case Finish(_) => depth == 1
    case Reenter(h, inner) => depth > 1 && SameCounterChain(env, h, inner, c, depth - 1)
  }

  /** The outcome of the innermost target code. */
  function Innermost(body: Body): (o: Outcome)
  {
    match body
    case Finish(o) => o
    case Reenter(_, inner) => Innermost(inner.body)
  }

  function Repeat(ev: Event, k: nat): (r: seq<Event>)
  {
    if k == 0 then [] else [ev] + Repeat(ev, k - 1)
  }

  lemma {:induction false} RepeatSnoc(ev: Event, k: nat)
    requires k > 0
    ensures Repeat(ev, k) == Repeat(ev, k - 1) + [ev]
  {
    if k > 1 {
      RepeatSnoc(ev, k - 1);
    }
  }

  /** Nested counted calls on one counter pair up last-in first-out: `depth`
      increments, the target seeing the counter raised by `depth`, then (unless
      monotonic) `depth` decrements; afterwards the counter is back where it
      was, or `depth` higher if monotonic; the innermost outcome is passed out. */
  lemma {:induction false} NestedCallsPairUp(env: Env, reg: Registry, hook: Hook, ctx: Invocation, c: Resolved, depth: nat)
    requires SameCounterChain(env, hook, ctx, c, depth)
    requires c.metricName in reg
    ensures var n := c.metricName;
      var e := Intercept(env, reg, hook, ctx);
      e.outcome == Innermost(ctx.body)
      && e.trace == Repeat(Inc(n), depth) + [TargetRan(reg[n := reg[n] + depth])]
                    + (if c.monotonic then [] else Repeat(Dec(n), depth))
      && e.registry == (if c.monotonic then reg[n := reg[n] + depth] else reg)
    decreases ctx
  {
    var n := c.metricName;
    var up := reg[n := reg[n] + 1];
    assert Intercept(env, reg, hook, ctx) == Counted(env, reg, ctx, TopClass(env, hook, ctx), ctx.member);
    match ctx.body
    case Finish(o) =>
      assert depth == 1;
      assert Run(env, up, ctx.body) == Effect(o, up, [TargetRan(up)]);
      assert Repeat(Inc(n), 1) == [Inc(n)];
      assert Repeat(Dec(n), 1) == [Dec(n)];
      assert up[n := up[n] - 1] == reg;
    case Reenter(h, inner) =>
      NestedCallsPairUp(env, up, h, inner, c, depth - 1);
      var e := Intercept(env, up, h, inner);
      assert Run(env, up, ctx.body) == e;
      var seen := TargetRan(reg[n := reg[n] + depth]);
      assert up[n := up[n] + (depth - 1)] == reg[n := reg[n] + depth];
      assert [Inc(n)] + Repeat(Inc(n), depth - 1) == Repeat(Inc(n), depth);
      if c.monotonic {
        assert e.trace == Repeat(Inc(n), depth - 1) + [seen];
        assert e.registry == reg[n := reg[n] + depth];
      } else {
        RepeatSnoc(Dec(n), depth);
        assert e.trace == Repeat(Inc(n), depth - 1) + [seen] + Repeat(Dec(n), depth - 1);
        assert e.registry == up;
        assert up[n := up[n] - 1] == reg;
      }
  }

  /** One call through a hook, as the framework delivers it. */
  datatype Call = Call(hook: Hook, ctx: Invocation)

  /** The registry after the calls, made one after the other. */
  function CallAll(env: Env, reg: Registry, calls: seq<Call>): (final: Registry)
    decreases |calls|
  {
    if calls == [] then reg
    else CallAll(env, Intercept(env, reg, calls[0].hook, calls[0].ctx).registry, calls[1..])
  }

  /** A call straight to target code whose annotation resolves to `c`. */
  predicate DirectCallTo(env: Env, call: Call, c: Resolved)
  {
    call.ctx.body.Finish? && env.resolver(TopClass(env, call.hook, call.ctx), call.ctx.member) == c
  }

  /** N calls to members counted by one monotonic counter raise it by N;
      N calls counted by one non-monotonic counter leave the registry as it was. */
  lemma {:induction false} RepeatedCalls(env: Env, reg: Registry, calls: seq<Call>, c: Resolved)
    requires forall i :: 0 <= i < |calls| ==> DirectCallTo(env, calls[i], c)
    requires c.metricName in reg
    ensures var n := c.metricName;
      CallAll(env, reg, calls) == (if c.monotonic then reg[n := reg[n] + |calls|] else reg)
    decreases |calls|
  {
    var n := c.metricName;
    if calls != [] {
      var first := calls[0];
      assert DirectCallTo(env, first, c);
      var top := TopClass(env, first.hook, first.ctx);
      var next := Intercept(env, reg, first.hook, first.ctx).registry;
      if c.monotonic {
        MonotonicAddsOne(env, reg, first.ctx, top, first.ctx.member);
        assert next == reg[n := reg[n] + 1];
      } else {
        NonMonotonicBalances(env, reg, first.ctx, top, first.ctx.member);
        assert next == reg;
      }
      forall i | 0 <= i < |calls[1..]| ensures DirectCallTo(env, calls[1..][i], c) {
        assert calls[1..][i] == calls[i + 1];
      }
      RepeatedCalls(env, next, calls[1..], c);
      if c.monotonic {
        assert next[n := next[n] + (|calls| - 1)] == reg[n := reg[n] + |calls|];
      }
    }
  }

  /** The wrapped code never names counter `n`, whatever registry it starts
      from; it may still make counted calls on other counters. */
  ghost predicate LeavesAlone(env: Env, body: Body, n: string)
  {
    forall r: Registry, i: int :: 0 <= i < |Run(env, r, body).trace| ==> !Mentions(Run(env, r, body).trace[i], n)
  }

  /** A call whose annotation resolves to `c` and whose wrapped code leaves
      counter `c.metricName` alone. */
  ghost predicate OwnCounterCall(env: Env, call: Call, c: Resolved)
  {
    env.resolver(TopClass(env, call.hook, call.ctx), call.ctx.member) == c
    && LeavesAlone(env, call.ctx.body, c.metricName)
  }

  /** N successive calls counted by one counter, whatever else their wrapped
      code does, raise it by exactly N if monotonic and leave it at its
      starting value otherwise. */
  lemma {:induction false} RepeatedCallsOwnCounter(env: Env, reg: Registry, calls: seq<Call>, c: Resolved)
    requires forall i :: 0 <= i < |calls| ==> OwnCounterCall(env, calls[i], c)
    requires c.metricName in reg
    ensures var n := c.metricName;
      n in CallAll(env, reg, calls)
      && CallAll(env, reg, calls)[n] == reg[n] + (if c.monotonic then |calls| else 0)
    decreases |calls|
  {
    var n := c.metricName;
    if calls != [] {
      var first := calls[0];
      assert OwnCounterCall(env, first, c);
      var top := TopClass(env, first.hook, first.ctx);
      var up := reg[n := reg[n] + 1];
      var inner := Run(env, up, first.ctx.body);
      forall i | 0 <= i < |inner.trace| ensures !Mentions(inner.trace[i], n) {
        assert 0 <= i < |Run(env, up, first.ctx.body).trace|;
      }
      OwnCounterBalances(env, reg, first.ctx, top, first.ctx.member);
      var next := Intercept(env, reg, first.hook, first.ctx).registry;
      assert next == Counted(env, reg, first.ctx, top, first.ctx.member).registry;
      forall i | 0 <= i < |calls[1..]| ensures OwnCounterCall(env, calls[1..][i], c) {
        assert calls[1..][i] == calls[i + 1];
      }
      RepeatedCallsOwnCounter(env, next, calls[1..], c);
    }
  }
}
