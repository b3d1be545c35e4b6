# Event dispatcher, modelled in Dafny

This project models `EventDispatcher` from package `events`. It is an
in-process registry that maps an event name to the handlers registered under
that name, kept in registration order. It has five operations:

- `Register` appends a handler. It refuses, with `ErrEventAlreadyRegistered`, a handler already under that name.
- `Has` tests whether a handler is under a name.
- `Remove` deletes the first matching handler and never fails.
- `Clear` drops every registration.
- `Dispatch` calls every handler under the event's name, in registration order.

The registry is an immutable value, `Dispatcher<H>`, holding a
`map<string, seq<H>>`. Each operation is a pure function. A mutating
operation returns the new registry together with the error the Go method
returns (`None` stands for `nil`). Handlers are opaque identity tokens of a
type parameter `H`, compared with `==` as Go compares its handler interface
values. `Dispatch` returns the calls it makes, each a `(handler, event)` pair,
in order.

Files:

- `options.dfy`: `Option`.
- `sequences.dfy`: the front-to-back scan for a handler that `Register`,
  `Has` and `Remove` each perform (`FirstIndex`), and the slice splice `append(s[:k], s[k+1:]...)`
  (`RemoveAt`). It also has the no-duplicates predicate and facts about it.
- `event_dispatcher.dfy`: module `Events`, the registry and its operations.
- `event_properties.dfy`: module `EventProperties`, lemmas that relate the
  operations to each other. It also proves the no-duplicates invariant for
  every registry built from `NewEventDispatcher` by any sequence of calls.
- `event_scenarios.dfy`: module `EventScenarios`, the package's test suite
  stated as concrete facts. Handlers are the numbers 1, 2 and 3.

`Remove` keeps a name mapped to an empty list when it removes the last handler
under it. It does not delete the key, and the model keeps it too.
`Events.Lookup` reads a registry the way Go's map index does: a missing key
reads as the empty list. Properties that hold only up to "missing key equals
empty list" are stated through `Lookup` or `Events.Equivalent`.

`Dispatch` follows the code: a plain loop that calls each handler
synchronously. The registry is sometimes described as a concurrent fan-out
that waits for every handler to finish. That description does not match the
code, which starts no goroutine and never calls `Wait` on its `WaitGroup`. The
model therefore calls the handlers one after another.

## Model

| member | source | states |
|---|---|---|
| Events.NewEventDispatcher | pkg/events/event_dispatcher.go:14-18 | a new registry has no keys, reads the empty list under every name, and satisfies the no-duplicates invariant |
| Events.Has | pkg/events/event_dispatcher.go:39-50 | true exactly when the name is present and its list contains the handler; equivalently, when the handler is in the list read with a missing key as empty |
| Events.Register | pkg/events/event_dispatcher.go:20-33 | a handler already under the name gives `ErrEventAlreadyRegistered` and the registry unchanged; otherwise no error, the name's list becomes the old list with the handler appended, the key is created if missing, every other name's entry is untouched, and the no-duplicates invariant is preserved |
| Events.Clear | pkg/events/event_dispatcher.go:35-37 | afterwards the map has no entries, whatever was registered, every name reads as empty, and the invariant holds |
| Events.Invoke | pkg/events/event_dispatcher.go:55-58 | the loop makes one call per handler of the list, and the i-th call goes to the i-th handler with the dispatched event |
| Events.Dispatch | pkg/events/event_dispatcher.go:52-61 | returns no error; the calls go to exactly the handlers under the event's name, in registration order, each with the event; an unknown name gives no call |
| Events.Remove | pkg/events/event_dispatcher.go:63-75 | never returns an error; the set of keys is unchanged, so an emptied name keeps its entry; other names are untouched; an absent handler or name leaves the registry unchanged; otherwise the first occurrence is deleted and the rest keep their order; the invariant is preserved |
| Sequences.FirstIndex | pkg/events/event_dispatcher.go:67-72 | the scan for a handler (also at lines 24-28 and 43-47) finds nothing exactly when the handler is absent; otherwise it stops at a position holding the handler with no earlier occurrence |
| Sequences.RemoveAt | pkg/events/event_dispatcher.go:69 | the splice is one shorter, keeps the elements before position k, shifts the ones after it down by one, and removes exactly one copy of the element at k |
| Sequences.RemoveAtNoDuplicates | pkg/events/event_dispatcher.go:69 | splicing one element out of a duplicate-free list leaves it duplicate-free and without that element |
| EventProperties.RegisterTwice | pkg/events/event_dispatcher.go:20-33 | registering a new pair succeeds and `Has` then sees it; registering it again fails and changes nothing; the handler then occurs exactly once under the name |
| EventProperties.RemoveThenHas | pkg/events/event_dispatcher.go:63-75 | on a valid registry, `Has` is false for the pair just removed |
| EventProperties.RemoveIdempotent | pkg/events/event_dispatcher.go:63-75 | on a valid registry, a second `Remove` of the same pair changes nothing |
| EventProperties.RemoveUndoesRegister | pkg/events/event_dispatcher.go:63-75 | `Remove` after a successful `Register` writes back the name's previous list and changes nothing else, so every name reads as before; when the name already had an entry, the registry is restored exactly, and otherwise the name is left with an empty entry |
| EventProperties.RemoveAppended | pkg/events/event_dispatcher.go:63-75 | removing a handler that was appended last and occurs nowhere earlier gives back the list it was appended to |
| EventProperties.ClearForgetsAll | pkg/events/event_dispatcher.go:35-37 | after `Clear`, `Has` is false for every pair, a dispatch calls nothing, and the registry equals a new one |
| EventProperties.DispatchCallsRegistered | pkg/events/event_dispatcher.go:52-61 | the handlers called, in call order, are exactly the list under the event's name, and every call carries the dispatched event |
| EventProperties.DispatchExactlyOnce | pkg/events/event_dispatcher.go:52-61 | on a valid registry, each handler under the event's name is called exactly once, and every other handler is not called |
| EventProperties.DispatchNameIsolation | pkg/events/event_dispatcher.go:53 | registering or removing under another name does not change what dispatching the event does |
| EventProperties.DispatchInRegistrationOrder | pkg/events/event_dispatcher.go:52-61 | two handlers registered one after the other are called in that order, after the handlers already there |
| EventProperties.Apply | pkg/events/event_dispatcher.go:20-75 | every operation keeps the no-duplicates invariant |
| EventProperties.RunPreservesValid | pkg/events/event_dispatcher.go:20-75 | any sequence of operations keeps the no-duplicates invariant |
| EventProperties.ReachableValid | pkg/events/event_dispatcher.go:14-18 | no registry built from a new one by any sequence of operations holds a handler twice under one name |
| EventScenarios.RegisterScenario | pkg/events/event_dispatcher_test.go:56-67 | handlers 1 then 2 under "test" both succeed and are kept as [1, 2] |
| EventScenarios.SetupScenario | pkg/events/event_dispatcher_test.go:70-83 | registering 1 and 2 under "test" and 3 under "test2" succeeds and gives exactly those two entries |
| EventScenarios.ClearScenario | pkg/events/event_dispatcher_test.go:85-86 | clearing that registry leaves no entry |
| EventScenarios.RegisterWhenAlreadyRegisteredScenario | pkg/events/event_dispatcher_test.go:89-97 | registering handler 1 twice under "test" fails the second time and keeps [1] |
| EventScenarios.HasScenario | pkg/events/event_dispatcher_test.go:99-113 | `Has` sees ("test", 1) but neither ("test2", 1) nor ("test", 2) |
| EventScenarios.RemoveFirstScenario | pkg/events/event_dispatcher_test.go:130-133 | removing handler 1 from "test" succeeds and leaves [2] there, with "test2" untouched |
| EventScenarios.RemoveLastScenario | pkg/events/event_dispatcher_test.go:135-141 | removing the last handler under "test" and then under "test2" succeeds each time, and both names keep empty entries |
| EventScenarios.DispatchScenario | pkg/events/event_dispatcher_test.go:154-162 | dispatching "test" calls the one registered handler once with the event; dispatching "test2" calls nothing |

## Left out

- `sync.WaitGroup` (`wg.Add`, `wg.Done`): `Wait` is never called, so the counter has no observable effect on the registry or on which handlers are called.
- Handler bodies: `Handle` is an external callback. Only which handlers are called, in what order and with which event is modelled.
- A handler that changes the registry while `Dispatch` is calling handlers is not modelled. The model's `Dispatch` reads the list once and cannot be re-entered.
- Concurrent use of one registry from several goroutines: the map is unguarded in Go, and the model is sequential.
- The event's timestamp (`GetDateTime` reads the wall clock) is left out. The payload is an opaque type parameter.
- The `EventInterface` and `EventHandlerInterface` declarations are not part of this model. The event is reduced to its name and payload, and the handler to an identity token.
- Go's panic when interface values of a non-comparable dynamic type are compared: handlers are assumed to compare by identity.
- Events.Dispatch: every `Handle` call is assumed to return normally. In Go a panicking handler, or a nil handler that `Register` accepted, stops the loop, so later handlers are not called and `Dispatch` does not return `nil`. The model records a call for every handler and returns no error.
- Events.Register: the registry is assumed to come from `NewEventDispatcher`. On a zero-value `EventDispatcher{}`, whose map is nil, the assignment in `Register` panics. The model has no nil map.
- Pointer receivers and in-place mutation: each operation returns a new registry value instead of changing a shared one.
