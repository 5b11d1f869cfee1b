/** The `@Counted` interceptor as an object: it holds the metric registry and
    the resolver, and each interception updates the registry's counters in
    place. Every method is proved to have exactly the effect that the
    functions of module Counting give. */
module Interceptor {
  import opened Counting

  class CountedInterceptor {
    /** The counters of the shared metric registry, by name. */
    var registry: Registry
    /** The metric resolver: (top class, member) to (metric name, monotonic). */
    const resolver: (ClassId, Member) -> Resolved
    /** Reflection's `Class.getSuperclass()`. */
    const superclassOf: ClassId -> ClassId
    /** Every increment, decrement and start of target code so far, in order,
        the last with the counter values it saw. */
    ghost var trace: seq<Event>

    function Environment(): (env: Env)
    {
      Env(resolver, superclassOf)
    }

    /** The injected constructor: keeps the registry and the resolver. */
    constructor (registry: Registry, resolver: (ClassId, Member) -> Resolved, superclassOf: ClassId -> ClassId)
      ensures this.registry == registry && this.resolver == resolver && this.superclassOf == superclassOf
      ensures trace == []
    {
      this.registry := registry;
      this.resolver := resolver;
      this.superclassOf := superclassOf;
      trace := [];
    }

    /** `@AroundConstruct`: resolves against the constructor's declaring class. */
    method CountedConstructor(context: Invocation) returns (r: Outcome)
      modifies this
      ensures old(trace) <= trace
      ensures Effect(r, registry, trace[|old(trace)|..])
           == Counted(Environment(), old(registry), context, context.member.declaringClass, context.member)
      decreases context, 1
    {
      r := CountedCallable(context, context.member.declaringClass, context.member);
    }

    /** `@AroundInvoke`: resolves against the superclass of the target's class. */
    method CountedMethod(context: Invocation) returns (r: Outcome)
      modifies this
      ensures old(trace) <= trace
      ensures Effect(r, registry, trace[|old(trace)|..])
           == Counted(Environment(), old(registry), context, superclassOf(context.targetClass), context.member)
      decreases context, 1
    {
      r := CountedCallable(context, superclassOf(context.targetClass), context.member);
    }

    /** `@AroundTimeout`: resolves as `CountedMethod` does. */
    method CountedTimeout(context: Invocation) returns (r: Outcome)
      modifies this
      ensures old(trace) <= trace
      ensures Effect(r, registry, trace[|old(trace)|..])
           == Counted(Environment(), old(registry), context, superclassOf(context.targetClass), context.member)
      decreases context, 1
    {
      r := CountedCallable(context, superclassOf(context.targetClass), context.member);
    }

    /** The shared helper: look the counter up, fail if it is missing,
        increment, proceed, and decrement on the way out unless monotonic. */
    method CountedCallable(context: Invocation, topClass: ClassId, element: Member) returns (r: Outcome)
      modifies this
      ensures old(trace) <= trace
      ensures Effect(r, registry, trace[|old(trace)|..])
           == Counted(Environment(), old(registry), context, topClass, element)
      decreases context, 0
    {
      var counted := resolver(topClass, element);
      var name := counted.metricName;
      if name !in registry {
        r := Raised(IllegalStateException);
        assert trace[|old(trace)|..] == [];
        return;
      }
      registry := registry[name := registry[name] + 1];
      trace := trace + [Inc(name)];
      ghost var before := trace;
      // run the wrapped code; the decrement below is the cleanup that runs on every outcome
      r := Proceed(context.body);
      ghost var inner := trace[|before|..];
      if !counted.monotonic {
        registry := registry[name := registry[name] - 1];
        trace := trace + [Dec(name)];
      }
      assert trace[|old(trace)|..]
          == [Inc(name)] + inner + (if counted.monotonic then [] else [Dec(name)]);
    }

    /** `InvocationContext.proceed()`: runs the target, or re-enters a counted
        member through this interceptor. */
    method Proceed(body: Body) returns (r: Outcome)
      modifies this
      ensures old(trace) <= trace
      ensures Effect(r, registry, trace[|old(trace)|..]) == Run(Environment(), old(registry), body)
      decreases body
    {
      match body
      case Finish(o) =>
        trace := trace + [TargetRan(registry)];
        r := o;
      case Reenter(hook, inner) =>
        match hook
        case AroundConstruct =>
          r := CountedConstructor(inner);
        case AroundInvoke =>
          r := CountedMethod(inner);
        case AroundTimeout =>
          r := CountedTimeout(inner);
    }
  }
}
