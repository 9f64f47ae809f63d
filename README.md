# Tracked values: a verified model of a dirty-flag wrapper

The library wraps a value together with a single freshness flag. The flag
says whether the value has been written since the last read that consumed
the flag. Callers use it to act on a value only when it has changed. The
library has two structurally identical wrappers:

- `Tracked<T>` (`src/value.rs`) is for `Copy` types. Every read returns a copy.
- `TrackedRef<T>` (`src/reference.rs`) hands out references. It also has
  `get_mut`, which grants write access and always marks the value fresh. It
  offers `set` through the `TrackedRefSet` trait and implements `Clone`.
  The class `TrackedRef` puts no bound on `T`. Only `Reference.Set`, a method
  outside the class, requires equality, as the trait does.

Project layout:

- `freshness.dfy` (module `Freshness`) holds the types both wrappers share.
  `Cell` is the pair of fields. `Op` lists the operations both wrappers
  offer. `Out` is an operation's result. `Step` and `Trace` record the outcome
  of one operation and of a sequence of operations.
- `value.dfy` (module `Value`) and `reference.dfy` (module `Reference`) each
  model one source file in three layers:
  1. The transitions as functions on `Cell`: `CompareAndSet`, `Consume`,
     `ConsumeIfFresh`, and in `Reference` also `MarkForWrite`. `Apply`
     dispatches one operation and `Run` applies a sequence of them.
  2. A description of the state after a trace that does not use the
     transition functions. `LastWrite` is the last value handed to `set` (or
     written through `get_mut`). `MarkedSinceLastRead` holds when a
     value-changing write (or a `get_mut` grant, or construction) has not
     been followed by a freshness-consuming read. The lemmas prove that `Run`
     matches this description, and what every observer then reports.
  3. A class (`Tracked`, `TrackedRef`) with the fields `isFresh` and `val`
     and methods that update them in place. Each mutating method is proved to
     follow its transition function, and its contract also states the new
     fields directly.
- `agreement.dfy` (module `Agreement`) proves that the two wrappers give the
  same results and the same final state on every sequence of shared operations.
- `scenarios.dfy` (module `Scenarios`) holds client methods that replay the
  inline unit tests of both files and a construct/get/set(5)/set(6)/get_if_fresh
  twice scenario. Their assertions follow from the method contracts.

The Rust field `fresh` is called `isFresh` here, because `fresh` is a
reserved word in Dafny. Dafny's field `val` is the Rust field `val`.

The transition functions in `Value` and `Reference` are written out twice on
purpose. The source duplicates the state machine in its two files, and
`Agreement.SameTraces` proves that the two copies behave the same.

## Model

| member | source | states |
|---|---|---|
| `Value.CompareAndSet` | src/value.rs:16-22 | afterwards the value is always `v`; an equal `v` leaves the state unchanged (a stale wrapper stays stale); an unequal `v` leaves it fresh |
| `Value.Consume` | src/value.rs:24-28 | `get` returns the current value, keeps it, and leaves the wrapper stale whatever the prior flag |
| `Value.ConsumeIfFresh` | src/value.rs:30-37 | when fresh, equals `Some` of `get` and leaves the wrapper stale; when stale, returns `None` and changes nothing; always stale afterwards with the value kept |
| `Value.Apply` | src/value.rs:8-47 | consuming reads always leave the wrapper stale; no other operation makes a fresh wrapper stale; `peek` and `is_fresh` change nothing; `get` and `peek` return the current value |
| `Value.Run` | src/value.rs:8-47 | a trace yields one result per operation |
| `Value.ValueIsLastWrite` | src/value.rs:16-22 | after any trace the stored value is the last one handed to `set`, even after an equal `set`, which writes nothing because that value is already stored |
| `Value.FreshIffMarkedSinceLastRead` | src/value.rs:8-37 | after any trace the flag is true exactly when construction or a value-changing `set` was followed by no `get`/`get_if_fresh` |
| `Value.ReadsReportState` | src/value.rs:24-46 | after any trace `get` and `peek` return the last value set, `is_fresh` reports "written since last consuming read", and `get_if_fresh` returns the value exactly in that case and `None` otherwise |
| `Value.SecondGetIfFreshIsNone` | src/value.rs:30-37 | two `get_if_fresh` calls in a row: the second always returns `None` |
| `Value.Tracked.constructor` | src/value.rs:9-14 | `new(v)` is fresh and holds `v` |
| `Value.Tracked.FromFields` | src/value.rs:137-154 | a wrapper with both fields given, as the tests' struct literals build |
| `Value.Tracked.Default` | src/value.rs:48-52 | `default()` is a new fresh wrapper holding the supplied default value, as `new(d)` |
| `Value.Tracked.Set` | src/value.rs:16-22 | follows `CompareAndSet`; unequal value: `val == v` and fresh; equal value: both fields unchanged |
| `Value.Tracked.Get` | src/value.rs:24-28 | follows `Consume`; returns the old value, value kept, flag false |
| `Value.Tracked.GetIfFresh` | src/value.rs:30-37 | follows `ConsumeIfFresh`; fresh: `Some(old val)` and now stale; stale: `None` and both fields unchanged |
| `Value.Tracked.Peek` | src/value.rs:39-42 | returns the stored value and modifies nothing |
| `Value.Tracked.IsFresh` | src/value.rs:44-46 | returns exactly the flag and modifies nothing |
| `Reference.CompareAndSet` | src/reference.rs:53-60 | afterwards the value is always `v`; an equal `v` leaves the state unchanged; an unequal `v` leaves it fresh |
| `Reference.Consume` | src/reference.rs:15-19 | `get` returns the current value, keeps it, and leaves the wrapper stale whatever the prior flag |
| `Reference.MarkForWrite` | src/reference.rs:21-25 | `get_mut` always leaves the wrapper fresh, even without a write; the caller sees the old value; the new value is the caller's write, or the old value when nothing is written |
| `Reference.ConsumeIfFresh` | src/reference.rs:27-34 | when fresh, equals `Some` of `get` and leaves the wrapper stale; when stale, returns `None` and changes nothing |
| `Reference.Apply` | src/reference.rs:7-60 | consuming reads always leave the wrapper stale; `get_mut` always leaves it fresh; no other operation makes a fresh wrapper stale; `peek` and `is_fresh` change nothing |
| `Reference.Run` | src/reference.rs:7-60 | a trace yields one result per operation |
| `Reference.ValueIsLastWrite` | src/reference.rs:21-25 | after any trace the stored value is the last one handed to `set` or written through `get_mut` |
| `Reference.FreshIffMarkedSinceLastRead` | src/reference.rs:7-60 | after any trace the flag is true exactly when construction, a value-changing `set` or a `get_mut` was followed by no consuming read |
| `Reference.ReadsReportState` | src/reference.rs:15-43 | after any trace `get` and `peek` return the last value stored, `is_fresh` reports the flag description, and `get_if_fresh` returns the value exactly when it holds |
| `Reference.GetMutWithoutWriteStillReported` | src/reference.rs:21-25 | a `get_mut` with no write still makes the next `get_if_fresh` report the unchanged value |
| `Reference.TrackedRef.constructor` | src/reference.rs:8-13 | `new(v)` is fresh and holds `v` |
| `Reference.TrackedRef.FromFields` | src/reference.rs:177-194 | a wrapper with both fields given, as the tests' struct literals build |
| `Reference.TrackedRef.Get` | src/reference.rs:15-19 | follows `Consume`; returns the old value, value kept, flag false |
| `Reference.TrackedRef.GetMut` | src/reference.rs:21-25 | follows `MarkForWrite`; flag true unconditionally; a write through the reference is what `peek` sees next |
| `Reference.TrackedRef.GetIfFresh` | src/reference.rs:27-34 | follows `ConsumeIfFresh`; fresh: `Some(old val)` and now stale; stale: `None` and both fields unchanged |
| `Reference.TrackedRef.Peek` | src/reference.rs:36-39 | returns the stored value and modifies nothing |
| `Reference.TrackedRef.IsFresh` | src/reference.rs:41-43 | returns exactly the flag and modifies nothing |
| `Reference.Set` | src/reference.rs:46-60 | follows `CompareAndSet`; unequal value: `val == v` and fresh; equal value: both fields unchanged |
| `Reference.TrackedRef.Clone` | src/reference.rs:62-69 | a new wrapper with the same value and the same flag; the original, and its flag, are left unchanged |
| `Agreement.SameTraces` | src/reference.rs:7-60 | on every sequence of shared operations `TrackedRef` gives the same results and final state as `Tracked` (src/value.rs:8-47) |
| `Agreement.SameDescriptions` | src/reference.rs:7-60 | the last-written value and the "marked since last read" description agree between the two wrappers on shared operations |

## Left out

- Borrowing and lifetimes: a `&T` or `&mut T` result is modelled as the value itself. `get_mut` together with how the caller uses the reference is one step: the wrapper is marked fresh, then the caller's write, if any, is applied. Aliasing through a retained reference is not modelled.
- `Tracked<T>` is `Copy` in Rust, so `let b = a;` makes an independent wrapper. `Value.Tracked` is a Dafny class, so `var b := a;` shares one object, and reading through `b` also makes `a` stale. Copying a wrapper is modelled only at the `Cell` level, where states are values.
- Equality is Dafny's mathematical equality. A `PartialEq` that is not reflexive, such as floating-point NaN, is not modelled. With such a type, an "equal" `set` could mark the value fresh.
- `T::default()` comes from the foreign `Default` trait. `Value.Tracked.Default` takes the default value as a parameter.
- `#[derive(Copy, Clone)]` on `Tracked` is a field-wise copy with no logic and is not modelled. `Clone` on `TrackedRef` copies the value with `T::clone`, which is modelled as an exact copy.
- Concurrency: the source has none.
