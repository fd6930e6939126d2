# Instagram business messenger: new-message monitor

This project models the one piece of `InstagramBusinessMessenger` that holds
logic of its own: the monitor that polls for new messages and hands them to
subscribed handlers. The rest of the class and of the repository is HTTP
plumbing. The model has two parts.

- **The handler registry.** `messageHandlers` is a JavaScript `Set` of
  handler functions. `onNewMessage` adds a handler and returns a closure that
  deletes it again.
  - The model keeps the set as a duplicate-free sequence of handler
    identities, in insertion order, which is the order a `Set` iterates in
    (module `Registry`, file `registry.dfy`).
  - The messenger and the unsubscribe closure are classes that update the
    sequence in place (`messenger.dfy`).
- **One poll cycle.** `checkMessages` is the closure that `startMonitoring`
  hands to the timer. One cycle does four things:
  - it takes the fetch outcome;
  - it keeps the messages strictly newer than the cursor `lastCheck`;
  - it builds an event per message, whose sender is `'self'` or `'client'`
    by comparing `String()` forms of the ids (module `Events`);
  - it calls every handler with every such event, and sets the cursor.

  The pure specification of a cycle is `Poll.Cycle`, together with the
  lemmas about it (`poll.dfy`). The imperative
  `Messenger.Monitor.CheckMessages` has the source's two nested loops over
  messages and handlers, and is proved equal to `Poll.Cycle`.

The environment enters as parameters:
- The network fetch (`getConversations`) becomes a `Fetch` value: rejected,
  or a payload whose `data` may be missing.
- The clock reading taken after the fetch becomes `now`.
- Whether a handler call throws becomes a function
  `throws: (nat, Delivery) -> bool`. It is keyed on the call's position
  among the cycle's calls as well as on the handler and the event, so a
  handler may behave differently on two calls with equal arguments, as a
  handler that keeps state of its own can.
- Times are integers, already-parsed milliseconds. A `created_time` that
  does not parse is `None`, and is never newer than the cursor, because an
  invalid `Date` compares false with everything.
- A handler function's identity is a natural number.

The code's cursor rule is modelled as the code has it. `lastCheck =
currentTime` sits inside the `try`, after the loop. So a rejected fetch, or
a handler that throws, leaves the cursor where it was: the cursor does not
advance on such a cycle. A message newer than the cursor stays newer,
so a later cycle that fetches it again and runs to its end delivers it
again; `Poll.AbortedCycleIsRedelivered` proves this for a later cycle on
the same payload and registry. `currentTime` is read after the fetch has
returned, not before it. A throwing handler call counts as made: it is the
last entry of `invoked`.

## Model

| member | source | states |
|---|---|---|
| Registry.Added | instagramMessenger.js:51 | `Set.add`: the result holds exactly the old handlers plus `h`; the old handlers keep their positions at the front; a handler already present changes nothing; duplicates never appear |
| Registry.Removed | instagramMessenger.js:52 | `Set.delete`: the result holds exactly the old handlers other than `h`; removing an absent handler changes nothing; a present one shortens the registry by one; duplicates never appear |
| Registry.RemovedAt | instagramMessenger.js:52 | removing a registered handler cuts out exactly its entry and leaves every other handler in its place and order |
| Registry.RemovedConcat | instagramMessenger.js:52 | deleting from a registry split in two deletes from each part |
| Registry.RemovedUndoesAdded | instagramMessenger.js:50-53 | subscribing a new handler and calling its unsubscribe function restores the registry exactly |
| Registry.RemovedIdempotent | instagramMessenger.js:52 | a second call of the unsubscribe function changes nothing |
| Registry.DistinctTail | instagramMessenger.js:9 | the tail of a duplicate-free registry is duplicate-free and lacks the head |
| Messenger.InstagramBusinessMessenger.constructor | instagramMessenger.js:4-10 | a new messenger keeps its token and account id and has an empty registry |
| Messenger.InstagramBusinessMessenger.OnNewMessage | instagramMessenger.js:50-53 | the registry becomes `Added(old registry, handler)`; the returned closure is fresh and bound to this messenger and this handler |
| Messenger.Unsubscriber.Call | instagramMessenger.js:52 | the registry becomes `Removed(old registry, handler)`; the result is true exactly when the handler was registered |
| Messenger.SubscribeThenUnsubscribeTwice | instagramMessenger.js:50-53 | subscribing a new handler and unsubscribing it twice leaves the registry as it was; the first call reports a removal, the second reports none |
| Messenger.Unsubscriber.constructor | instagramMessenger.js:52 | the closure returned by `onNewMessage` is bound to that messenger and that handler |
| Messenger.Monitor.constructor | instagramMessenger.js:57 | a new monitor belongs to its messenger and starts with the cursor at the given clock reading |
| Messenger.InstagramBusinessMessenger.StartMonitoring | instagramMessenger.js:56-57 | a fresh monitor whose cursor is the clock reading at the start |
| Messenger.Monitor.CheckMessages | instagramMessenger.js:59-86 | the handler calls made, and the new cursor, are exactly those of `Poll.Cycle` for the old cursor, the registry as it is once the fetch has returned, and the inputs |
| Messenger.DeliverAll | instagramMessenger.js:64-82 | the `for` loop over the payload: the calls made, and whether the loop ran to its end, are those of `Poll.Cycle` on that payload; the cursor it implies is the clock reading exactly when the loop ran to its end |
| Messenger.DeliverMessage | instagramMessenger.js:65-79 | one pass of the `for` loop: when the message's handlers all return, the calls so far are those for the payload up to and including this message, all of which returned; when one throws, the calls so far are the whole result of an aborted cycle with the cursor unchanged |
| Messenger.RowReturned | instagramMessenger.js:68-77 | a new message whose handlers all returned adds exactly its row of calls, and every call so far returned |
| Messenger.NotifyAll | instagramMessenger.js:70-77 | the `forEach` over handlers: when it finishes, it made one call per handler in registry order and all returned; otherwise (`StoppedAt`) the calls are a nonempty prefix of those, the last threw and the earlier ones returned |
| Messenger.StopsAtHandler | instagramMessenger.js:70-77 | when handler `j` throws, the calls made are the first `j + 1` calls of the `forEach`, the last of them threw and the earlier ones returned |
| Messenger.HandlerReturns | instagramMessenger.js:70-77 | when handler `j` returns, the calls made are the `forEach` over the first `j + 1` handlers, and all of them returned |
| Messenger.NotifyPrefix | instagramMessenger.js:70 | notifying the first `j` handlers gives the first `j` calls of notifying them all |
| Messenger.NotifyStep | instagramMessenger.js:70 | notifying one more handler appends exactly its call |
| Messenger.DeliveriesStep | instagramMessenger.js:65-79 | looking at one more message appends its calls to every handler when it is new, and nothing otherwise |
| Messenger.SplitAt | instagramMessenger.js:65-79 | the calls for a whole payload are the calls for the messages before a new message, then its calls, then the calls for the rest |
| Messenger.PrefixUpToThrow | instagramMessenger.js:70-77 | calls that run through a throw-free first part and stop at a throw inside the next part are a prefix of all the calls, and the throw is last |
| Messenger.NoThrowsConcat | instagramMessenger.js:65-77 | two runs of calls that each returned, numbered one after the other, make one run that returned |
| Messenger.StopsAtThrow | instagramMessenger.js:65-85 | the calls the loop has made when a handler throws are exactly the calls of an aborted cycle, and the cursor is unchanged |
| Events.JsString | instagramMessenger.js:72 | `String(v)`: a string is itself; a non-negative number is the canonical numeral denoting it; a negative one is a minus sign and the numeral denoting its magnitude; the missing values print as "undefined" and "null" |
| Events.Decimal | instagramMessenger.js:72 | `String(n)` of an integer starts with a minus sign exactly when `n` is negative, and the rest is the canonical numeral denoting the magnitude of `n` |
| Events.Classify | instagramMessenger.js:72 | the same id is always `'self'`; two string ids are `'self'` exactly when the strings are equal; a missing sender against a `null` account id is `'client'` |
| Events.TextOf | instagramMessenger.js:74 | `message.message || ''`: the text when present, `''` otherwise |
| Events.MakeEvent | instagramMessenger.js:71-76 | the object a handler receives: the classified sender, the message time, its text or `''`, and the whole record as `raw`; `Poll.NewEventAt` says each event is `MakeEvent` of its message, and `Poll.CycleDeliversOnlyNewMessages` states these fields of every delivered event |
| Events.DigitChar | instagramMessenger.js:72 | the digit character of a value below ten is a decimal digit that denotes that value |
| Events.Digits | instagramMessenger.js:72 | the decimal form of a natural number is a canonical numeral (nonempty, all digits, no leading zero) that denotes that number, and has a single digit exactly when the number is below ten |
| Events.DigitsOfValue | instagramMessenger.js:72 | every canonical numeral is the decimal form of the number it denotes, so `Digits` and `Value` are inverse on canonical numerals |
| Events.ValueOfLeadingNonzero | instagramMessenger.js:72 | a string of digits that does not start with zero denotes at least one, and at least ten when it has several digits |
| Events.DigitsInjective | instagramMessenger.js:72 | two natural numbers with the same decimal form are equal |
| Events.DecimalInjective | instagramMessenger.js:72 | `String(n)` of two integers is equal exactly when the integers are |
| Events.NumericIdsMatchIffEqual | instagramMessenger.js:72 | two numeric ids classify as `'self'` exactly when they are the same number |
| Events.NumericSenderMatchesStringAccount | instagramMessenger.js:72 | the numeric sender id 123 matches the account id "123", but not "0123" |
| Events.NumericSenderMatchesNumeral | instagramMessenger.js:72 | a numeric sender id matches a string account id exactly when that string is the canonical numeral of the number, after a minus sign when the number is negative |
| Events.NonNegativeDecimalIs | instagramMessenger.js:72 | `String(n)` of a natural number is the string `s` exactly when `s` is a canonical numeral denoting `n` |
| Events.NegativeDecimalIs | instagramMessenger.js:72 | `String(n)` of a negative number is the string `s` exactly when `s` is a minus sign followed by a canonical numeral denoting `-n` |
| Events.MinusNumeralIsDecimal | instagramMessenger.js:72 | a minus sign followed by the canonical numeral of `-n` is `String(n)` |
| Events.MissingSenderMatchesOnlyUndefined | instagramMessenger.js:72 | a message without `from` counts as `'self'` exactly when the account id is `undefined` or the string "undefined" |
| Poll.IsNew | instagramMessenger.js:66-68 | a message is new when its time parsed and is strictly after the cursor |
| Poll.NewMessages | instagramMessenger.js:65-68 | filtering the payload never yields more messages than it holds |
| Poll.NewMessagesMembers | instagramMessenger.js:65-68 | a message is kept exactly when it is in the payload, its time parsed, and its time is strictly after the cursor |
| Poll.NewEvents | instagramMessenger.js:65-76 | the events of a payload: one per new message, in payload order; its length, members and entries are stated by `Poll.NewEventsLength`, `Poll.NewEventMembers` and `Poll.NewEventAt` |
| Poll.NewEventsLength | instagramMessenger.js:65-76 | one event per new message |
| Poll.NewEventAt | instagramMessenger.js:71-76 | the `i`-th event is built from the `i`-th new message: its sender classification, its time, its text or `''`, and the message itself |
| Poll.NewEventMembers | instagramMessenger.js:65-76 | every event is built from a new message of the payload |
| Poll.NewEventsConcat | instagramMessenger.js:65 | the events of a split payload are the events of its parts, in order |
| Poll.Notify | instagramMessenger.js:70-77 | one call per registered handler, in registry order, each with the same event |
| Poll.Fanout | instagramMessenger.js:65-77 | every event handed to every handler, events in order and handlers in registry order within each; stated by `Poll.FanoutCount`, `Poll.FanoutAt` and `Poll.FanoutMembers` |
| Poll.Deliveries | instagramMessenger.js:64-79 | every call the loop over the payload makes when no handler throws; stated by `Poll.DeliveryCount`, `Poll.DeliveryAt` and `Poll.DeliveredAreNew` |
| Poll.FanoutConcat | instagramMessenger.js:65-77 | the calls for a split list of events are the calls for its parts, in order |
| Poll.DeliveriesConcat | instagramMessenger.js:65-79 | the calls for a split payload are the calls for its parts, in order |
| Poll.RowStartIsProduct | instagramMessenger.js:65-77 | `RowStart(i, n) == i * n`; with `Poll.FanoutAt` this places the first call of the `i`-th event at position `i` times the number of handlers |
| Poll.FanoutCount | instagramMessenger.js:65-77 | the number of calls for a list of events is `RowStart(|es|, |hs|)`, which with `Poll.RowStartIsProduct` is the number of events times the number of handlers |
| Poll.FanoutAt | instagramMessenger.js:65-77 | the call at position `RowStart(i, |hs|) + j`, which with `Poll.RowStartIsProduct` is `i * |hs| + j`, gives the `i`-th event to the `j`-th handler |
| Poll.FanoutMembers | instagramMessenger.js:65-77 | every call goes to a registered handler with one of the events |
| Poll.DeliveryCount | instagramMessenger.js:65-77 | the number of calls is the number of new messages times the number of handlers |
| Poll.DeliveryAt | instagramMessenger.js:65-77 | call `i * |hs| + j` gives handler `j` the event of the `i`-th new message: messages in payload order, handlers in registry order |
| Poll.DeliveredAreNew | instagramMessenger.js:64-77 | every call goes to a registered handler and carries the event built from a new message of the payload |
| Poll.FirstThrow | instagramMessenger.js:70-77 | the position found, at or after the start, is the first call that throws when asked by its position in the cycle, or the end when none does |
| Poll.AllReturn | instagramMessenger.js:70-77 | none of a run of calls, numbered from a given position, throws |
| Poll.Cycle | instagramMessenger.js:59-86 | the body of `checkMessages`: its calls and new cursor; stated by `Poll.CycleCursorRule`, `Poll.CompletedCycleDeliversAll`, `Poll.ThrowingHandlerAbortsCycle` and `Poll.CycleDeliversOnlyNewMessages` |
| Poll.Completes | instagramMessenger.js:60-82 | a cycle runs to the cursor assignment: the fetch succeeded and, when the payload has `data`, no call throws; `Poll.CycleCursorRule` ties it to the new cursor |
| Poll.CycleDeliversOnlyNewMessages | instagramMessenger.js:64-77 | every call of a cycle follows a successful fetch with `data`, goes to a registered handler, and carries a payload message strictly newer than the cursor, with its time, its text or `''`, its classified sender and the message itself |
| Poll.CompletedCycleDeliversAll | instagramMessenger.js:62-82 | when no handler throws, a cycle makes every call in order, their number is new messages times handlers, and the cursor becomes the clock reading taken after the fetch |
| Poll.ThrowingHandlerAbortsCycle | instagramMessenger.js:70-85 | when some call throws, the cursor is unchanged; the calls made are a nonempty prefix of all calls that ends no later than that call; the last of them throws and the earlier ones returned |
| Poll.AbortedCycleResult | instagramMessenger.js:70-85 | a prefix of the calls that ends in the first throw is exactly the result of the cycle, with the cursor unchanged |
| Poll.CycleCursorRule | instagramMessenger.js:59-86 | the cursor becomes the clock reading exactly when the fetch succeeds and no call throws, and otherwise stays; a rejected fetch makes no calls; a payload without `data` makes no calls and still moves the cursor |
| Poll.AbortedCycleIsRedelivered | instagramMessenger.js:68-85 | after a cycle aborted by a throwing handler, a later cycle on the same payload that runs to its end repeats every call the aborted one made, and then moves the cursor |
| Poll.HandlerThrowingOnSecondCall | instagramMessenger.js:65-85 | a handler that returns on its first call and throws on its second, given the same record twice, is called twice, and the cursor stays where it was |
| Poll.Cursors | instagramMessenger.js:57-88 | one cursor value per timer tick |
| Poll.CursorNeverDecreases | instagramMessenger.js:57-85 | with a clock that does not run backwards, the cursor never decreases, never falls below the start and never passes the latest clock reading |

## Left out

- `getConversations`, `sendMessage`, `verifyToken` and `checkTokenPermissions` (instagramMessenger.js:12-47, 92-126) are network calls. Only the outcome of the fetch enters the model, as a `Fetch` value. A payload carrying an `error` field is rejected by `getConversations`, so it is part of `Failed`. The rewording of error messages is not modelled.
- `setInterval`, `clearInterval` and the stop function that `startMonitoring` returns (instagramMessenger.js:88-89) are timer concerns. `Poll.Cursors` stands in for a run of timer ticks.
- Overlapping asynchronous cycles are left out: a cycle whose fetch takes longer than the interval can interleave with the next one. The model runs cycles one after another.
- Handlers are taken to be synchronous. A handler that returns a rejected promise does not abort the cycle in the source; the model has only synchronous throws.
- A handler that subscribes or unsubscribes during the `forEach` is left out. The model fans out to the registry as it is once the fetch has returned, held fixed for the rest of the cycle.
- Handlers are taken not to change the message record, its `from`, the `Date` they receive, or the payload. In the source the event object is built afresh for each handler call from the shared, mutable record, so a handler that changes `raw.message`, `raw.from` or `time`, or the payload array, would change what later handlers receive or what the loop visits. The model builds one immutable event per message, and every handler gets that same value.
- Parsing `created_time` with `new Date` is left out. Times are integer milliseconds, and an unparseable time is `None`.
- `console.error` logging (instagramMessenger.js:84) has no effect on the state and is not modelled.
- JavaScript numbers are doubles. A numeric id is modelled as an integer printed in plain decimal, without exponent notation or loss of precision.
- A `message` field that is truthy but not a string is left out. Text is either a string or absent; an empty string or an absent field gives `''`.
- In the source, a non-iterable `data` field or a `null` entry in it throws inside the `try`. The model's payload is always a list of message records.
- A message record keeps only `id`, `from.id`, `message` and `created_time`. Other fields of the payload records travel inside `raw` in the source but are not modelled.
- `accessToken` is stored by the constructor but is used only by the network calls.
- server.js is Express routing and configuration and is not part of this model.
