# Counted interceptor of metrics-cdi, in Dafny

metrics-cdi binds the Dropwizard Metrics `@Counted` annotation to CDI beans.
Its `CountedInterceptor` wraps every annotated constructor, method and timeout
callback. For each call it resolves the metric name and the annotation's
`monotonic` flag. It looks the counter up in the `MetricRegistry` and throws
`IllegalStateException` if there is none. Otherwise it increments the counter,
proceeds with the call and, in a `finally` block, decrements the counter again
unless the annotation is monotonic.

The project has two modules:

- `Counting` (counting.dfy) holds the entities as datatypes: classes, members,
  outcomes, the resolved annotation, the invocation context, and the registry
  as `map<string, int>`. It gives the effect of one interception as pure
  functions (`Intercept`, `Counted`, `Run`). Each function returns the outcome,
  the registry afterwards, and the ordered events: `Inc`, `Dec`, and
  `TargetRan`, which records the counter values the wrapped code saw when it
  started. The lemmas prove the interceptor's promises about these functions.
  Some lemmas cover a call whose wrapped code is the target itself. Others
  cover any wrapped code, including code that makes further counted calls. The
  rest cover nested calls on one counter and repeated calls.
- `Interceptor` (interceptor.dfy) holds the class `CountedInterceptor`. Its
  mutable `registry` field and its `resolver` mirror the Java fields. Its three
  entry points and `CountedCallable` update the registry in place, step by
  step. A ghost `trace` field logs the events. Every method is proved to
  produce exactly the effect that `Counting` specifies.

`InvocationContext.proceed()` runs the wrapped code. It is modelled as a
`Body`, which either ends with an outcome (a returned value or a raised
throwable) or re-enters another counted member through the same interceptor.
That lets the model state how nested counted calls pair up.

## Model

| member | source | states |
|---|---|---|
| `Counting.Counted` | impl/src/main/java/io/astefanutti/metrics/cdi/CountedInterceptor.java:62-75 | the shared helper: the registry keeps exactly the same counter names, so a call never creates or removes a counter |
| `Counting.Intercept` | impl/src/main/java/io/astefanutti/metrics/cdi/CountedInterceptor.java:47-60 | an interception through any hook counts against the class `TopClass` picks (the constructor's declaring class, or the superclass of the target's class), and leaves the set of counter names unchanged |
| `Counting.Run` | impl/src/main/java/io/astefanutti/metrics/cdi/CountedInterceptor.java:70 | proceeding, including through nested counted calls, leaves the set of counter names unchanged |
| `Counting.MissingCounterFails` | impl/src/main/java/io/astefanutti/metrics/cdi/CountedInterceptor.java:64-66 | with no counter under the resolved name, the call raises `IllegalStateException`; the registry is unchanged; nothing is incremented; the wrapped code never runs |
| `Counting.IncrementBeforeProceed` | impl/src/main/java/io/astefanutti/metrics/cdi/CountedInterceptor.java:68-70 | for a call whose wrapped code is the target itself: the events are increment, then the target, then the decrement (non-monotonic only); the target sees its counter at its pre-call value plus one |
| `Counting.NonMonotonicBalances` | impl/src/main/java/io/astefanutti/metrics/cdi/CountedInterceptor.java:69-74 | for a call whose wrapped code is the target itself and a non-monotonic counter: the whole registry is back to its pre-call state and the target's outcome is passed on unchanged, whether it returned or raised |
| `Counting.MonotonicAddsOne` | impl/src/main/java/io/astefanutti/metrics/cdi/CountedInterceptor.java:68-73 | for a call whose wrapped code is the target itself and a monotonic counter: that counter ends exactly one higher and every other counter is unchanged, whatever the outcome; the outcome is passed on |
| `Counting.CountedIsLogged` | impl/src/main/java/io/astefanutti/metrics/cdi/CountedInterceptor.java:63-74 | for any call, nested or not, the final registry is the replay of the call's own increments and decrements; every target code that ends with an outcome saw exactly the registry that the earlier events had produced |
| `Counting.OwnCounterBalances` | impl/src/main/java/io/astefanutti/metrics/cdi/CountedInterceptor.java:68-74 | for any wrapped code, including code that makes counted calls on other counters, as long as it never touches the call's own counter: that counter ends at its pre-call value if non-monotonic or exactly one higher if monotonic, and the wrapped code's outcome is passed on unchanged |
| `Counting.OthersUnchanged` | impl/src/main/java/io/astefanutti/metrics/cdi/CountedInterceptor.java:63-73 | a counter that none of the call's events names keeps its value, and it stays present or absent as before |
| `Counting.InvokeAndTimeoutAgree` | impl/src/main/java/io/astefanutti/metrics/cdi/CountedInterceptor.java:47-60 | the method and timeout hooks count identically against the target's superclass; the constructor hook counts against the constructor's declaring class; all three go through the one helper |
| `Counting.NestedCallsPairUp` | impl/src/main/java/io/astefanutti/metrics/cdi/CountedInterceptor.java:68-74 | `d` nested calls all resolving to the same annotation (same metric name and same `monotonic` flag) give `d` increments, then the target seeing the counter raised by `d`, then `d` decrements (last in, first out) unless monotonic; afterwards the registry is unchanged, or that counter is `d` higher if monotonic; the innermost outcome comes out unchanged |
| `Counting.RepeatedCalls` | impl/src/main/java/io/astefanutti/metrics/cdi/CountedInterceptor.java:68-73 | for calls straight to target code: `N` successive calls on one monotonic counter raise it by exactly `N`; on a non-monotonic counter they leave the whole registry unchanged |
| `Counting.RepeatedCallsOwnCounter` | impl/src/main/java/io/astefanutti/metrics/cdi/CountedInterceptor.java:68-74 | for any calls counted by one counter whose wrapped code never names that counter, including code that makes counted calls on other counters: `N` successive calls raise it by exactly `N` if monotonic and leave it at its starting value otherwise |
| `Interceptor.CountedInterceptor.constructor` | impl/src/main/java/io/astefanutti/metrics/cdi/CountedInterceptor.java:41-45 | the interceptor keeps the registry and resolver it is given, and no events have happened yet |
| `Interceptor.CountedInterceptor.CountedConstructor` | impl/src/main/java/io/astefanutti/metrics/cdi/CountedInterceptor.java:47-50 | the new registry, the new events and the outcome are exactly `Counted` of the constructor's declaring class and the constructor |
| `Interceptor.CountedInterceptor.CountedMethod` | impl/src/main/java/io/astefanutti/metrics/cdi/CountedInterceptor.java:52-55 | the effect is exactly `Counted` of the target class's superclass and the method |
| `Interceptor.CountedInterceptor.CountedTimeout` | impl/src/main/java/io/astefanutti/metrics/cdi/CountedInterceptor.java:57-60 | the effect is exactly `Counted` of the target class's superclass and the timeout method |
| `Interceptor.CountedInterceptor.CountedCallable` | impl/src/main/java/io/astefanutti/metrics/cdi/CountedInterceptor.java:62-75 | the lookup, increment, proceed and conditional decrement, performed in place, have exactly the effect `Counted` gives; the events only grow |
| `Interceptor.CountedInterceptor.Proceed` | impl/src/main/java/io/astefanutti/metrics/cdi/CountedInterceptor.java:70 | running the wrapped code, including a re-entered counted member, has exactly the effect `Run` gives |

## Left out

- CDI wiring is not modelled. This covers the `@Interceptor` and `@Priority` annotations, the binding of `@AroundConstruct`, `@AroundInvoke` and `@AroundTimeout`, and `@Inject`. The three entry points are methods that the model calls directly.
- Reflection is replaced by values. A member carries its declaring class. `getTarget().getClass().getSuperclass()` becomes the function `superclassOf`, applied to the target's class. It never yields `null`, while `getSuperclass()` does for `Object`.
- The metric resolver is an arbitrary deterministic function `(class, member) -> (name, monotonic)` held by the interceptor. Its internals, its caching, and any exception it may raise are not part of this model.
- The `MetricRegistry` and its `Counter` objects are a map from names to unbounded integers. The 64-bit `long` range of a Dropwizard counter and its overflow are not modelled. Neither is the thread safety of `inc` and `dec`, or any concurrency: calls run one at a time.
- The registry belongs to one interceptor object. Other interceptors or code sharing the same registry, and counters added or removed by others during a call, are not modelled. The Java code decrements the counter object it found before proceeding, even if the registry entry were replaced meanwhile.
- The `(Counter)` cast, and the `ClassCastException` it raises when the name maps to another kind of metric, are left out. So is the text of the `IllegalStateException` message. The model records only that this exception is raised.
- Wrapped code is simplified. It either ends with an outcome, or it re-enters one counted member and ends exactly as that nested call ends. Code that does more work around a nested call is not modelled. Neither is code that changes counters by other means.
- An `InvocationContext` has one `member` field. It stands for `getConstructor()` in a constructor interception and for `getMethod()` otherwise. The `null` these getters return for the other kind of interception is not modelled.
