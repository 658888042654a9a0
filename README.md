# OneShotEvent in Dafny

A model of `OneShotEvent<T>` (from the Kotlin snippet collection android-snippets).
The event holds one payload, which may be `null`. It hands the payload out to the first
caller of `fire()` only. Every later `fire()` returns `null`. `isFired()` tells whether
that single transition has happened.

The Kotlin class marks "fired" by overwriting its `data` field with a private sentinel
object. The model uses a tagged state instead: `Slot<T> = Unfired(pending) | Fired`.
`Option<T>` stands for Kotlin's `T?`, with `None` as `null`.

Each public method's whole body runs inside one `synchronized(lock)` block. So every call
is one atomic step, and any run of racing calls behaves like some sequential order of
them. The model has two layers:

- **Specification** (module `OneShot`). `FireStep` and `Apply` are one call as an atomic
  step. `Trace` runs a sequence of calls, `FireCall` or `IsFiredCall`, from a state. It
  returns the final state and one `Reply` per call. A Fire reply records whether the call
  claimed the payload (`Claimed(v)`) or found the event spent (`Spent`). This tells a
  claim of a `null` payload apart from a spent call, even though both return `null`.
  The lemmas state the promises of the class over any call sequence.
- **Object** (class `OneShot.OneShotEvent`). The mutable field `slot` plays the part of
  `data`. Ghost fields record the constructor's payload and every call made so far.
  `Valid()` says that `slot` and the recorded replies are exactly what `Trace` gives for
  that call history. `Fire` and `IsFired` keep `Valid()` and say what they return.

## Model

| member | source | states |
|---|---|---|
| `OneShot.FireStep` | OneShotEvent.kt:17-27 | a fire always leaves the event fired; it claims the payload exactly when the event was unfired, and then yields the stored value itself; a spent fire yields null (`Outcome.Returned`) |
| `OneShot.Apply` | OneShotEvent.kt:17-35 | one atomic call: isFired leaves the state as it is and reports whether it is fired; fire always leaves the event fired and claims the payload exactly when it was unfired |
| `OneShot.Trace` | OneShotEvent.kt:17-35 | a sequence of calls, each one atomic step, gives exactly one reply per call |
| `OneShot.TraceState` | OneShotEvent.kt:19-22 | after any call sequence the event is fired if the sequence contained a fire, and otherwise keeps its starting state, so isFired never changes it and nothing moves a fired event back |
| `OneShot.FireReplyAt` | OneShotEvent.kt:17-27 | a fire call claims the constructor's payload exactly when the event started unfired and no earlier call was a fire; every other fire is spent and returns null |
| `OneShot.IsFiredReplyAt` | OneShotEvent.kt:33-35 | an isFired call answers true exactly when the event started fired or some earlier call was a fire |
| `OneShot.IsFiredMonotone` | OneShotEvent.kt:33-34 | once isFired has answered true, every later isFired answers true |
| `OneShot.SingleWinner` | OneShotEvent.kt:17-26 | over any call sequence at most one call claims the payload, and exactly one does when the event starts unfired and some fire occurs |
| `OneShot.RaceOfFires` | OneShotEvent.kt:17-26 | of N racing fires on a fresh event holding v, the first in lock order receives v, all others receive null, and v is handed out exactly once |
| `OneShot.NullPayloadTransitions` | OneShotEvent.kt:19-23 | with a null payload the first fire returns null but is still the one claim, and the event ends fired |
| `OneShot.OneShotEvent.constructor` | OneShotEvent.kt:6-9 | a new event holds the given payload, is unfired and has no call history |
| `OneShot.OneShotEvent.Fire` | OneShotEvent.kt:17-27 | returns the constructor's payload if no fire happened before and null otherwise; the event is fired afterwards; the call history grows by this call |
| `OneShot.OneShotEvent.IsFired` | OneShotEvent.kt:33-35 | returns true exactly when some fire happened before; the event's state is unchanged |
| `OneShot.FireTwice` | OneShotEvent.kt:6-35 | a caller who builds an event with v sees isFired false, then v from the first fire, null from the second, and isFired true |

## Left out

- The `lock` object and the `synchronized` blocks (OneShotEvent.kt:9, 18, 33). Each call is one atomic step in the model. Thread-safety is taken as given from the lock: the model covers every sequential order of calls, not the lock's mutual exclusion itself.
- The sentinel's reference identity. Kotlin's `!=` and `==` on `data` call `equals`, so a payload whose `equals` answers true against any object would be taken for the sentinel. In that case `fire()` would return `null` without a transition and `isFired()` would be true from the start. The tagged `Slot` assumes that no payload is ever equal to the sentinel.
- The unchecked cast `data as? T` (OneShotEvent.kt:21). Under type erasure it returns the stored payload unchanged, so the model hands out the payload as it is.
- Release of the payload for garbage collection after the first fire. The model has no heap for the payload, though `Fired` holds no value.
