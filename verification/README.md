# Productivity timer store — a Dafny model

This project models the stand-in data layer of a Pomodoro "productivity" backend:
the `ProductivityService` in `backend/services/productivity.py`, which keeps
Pomodoro timer records in a module-level dictionary keyed by id, together with a
module-level counter that supplies the id of the next created timer. The record
itself (`PomodoroTimer` in `backend/models/pomodorotimer.py`) is a plain value
with five required fields.

Files:

- `pomodorotimer.dfy` — module `PomodoroTimerModel`: the `PomodoroTimer` record
  (`id`, `name`, `description`, `timerLength`, `breakLength`).
- `productivity.dfy` — module `ProductivityService`: the store as an immutable
  value `Store(timers: map<int, PomodoroTimer>, nextId: nat)`, the store
  invariant `Valid`, and the six operations `Reset`, `GetTimers`, `GetTimer`,
  `CreateTimer`, `UpdateTimer`, `DeleteTimer`. `Reset` returns the new store;
  the other mutating operations return a `Step(result, store)`: their reply and
  the store they leave behind.
- `productivity_laws.dfy` — module `ProductivityLaws`: runs of operations
  (`Op`, `Apply`, `Run`) and the properties that relate several calls.
- `insertion_order.dfy` — module `InsertionOrder`: the dictionary as Python
  keeps it, a sequence of key/value slots in insertion order (`d[k] = v`
  overwrites a present key's slot in place and appends a new key's slot;
  `del d[k]` drops the slot). Running the service on it yields the same store
  as the map model, and iterating its values yields `GetTimers`.

How the code's behaviour is rendered:

- The exception raised for a missing id becomes `Err(NotFound)`; an operation
  that fails returns the store it was given, since the code raises before it
  touches the dictionary. The message text is not modelled.
- `create_timer` cannot fail, so `CreateTimer` has no error case. It assigns the
  counter's value as the id, ignoring the id the caller passed, stores the
  record under it and advances the counter by one.
- `reset` empties the dictionary but leaves the counter where it is, so ids keep
  increasing across resets and do not restart at 1; the model follows the code
  (`ResetKeepsNumbering`).
- The test `test_add_timer_already_exists` expects a second create with an id
  already in use to raise. The code assigns ids itself and never raises from
  create, so that expectation does not hold of the code; `DuplicateCallerIdAccepted`
  proves the opposite (both creates succeed and both records are listed). No
  caller-supplied-id policy is modelled.
- `get_timers` returns the dictionary's values, which Python yields in
  insertion order. Every create inserts a key above every live key and every
  update overwrites an existing key in place, so in every reachable store the
  insertion order is ascending id order; `GetTimers` lists the records by
  ascending id. It is stated for valid stores: `ReachableIsValid` shows that
  every store reachable from the initial one is valid, and
  `InsertionOrderIsIdOrder` shows that, after any run of calls from the initial
  state, iterating the insertion-ordered dictionary gives exactly `GetTimers`.
- The store invariant `Valid` says: the counter is at least 1, every key lies in
  `[1, nextId)`, and every record is stored under its own id.

## Model

| member | source | states |
|---|---|---|
| `ProductivityService.Initial` | backend/services/productivity.py:14-16 | the freshly loaded store is empty, valid, and its first create assigns id 1 |
| `ProductivityService.Reset` | backend/services/productivity.py:20-22 | reset leaves no timers (every lookup is NotFound), does not change the id the next create assigns, and keeps the invariant |
| `ProductivityService.GetTimer` | backend/services/productivity.py:28-32 | the lookup succeeds iff the id is stored, returns the stored record (whose id is the one asked for in a valid store), and otherwise fails with NotFound |
| `ProductivityService.GetTimers` | backend/services/productivity.py:24-26 | the listing has one entry per stored timer, each entry is the record stored under its id, ids strictly increase, and every stored record occurs exactly once |
| `ProductivityService.CollectSound` | backend/services/productivity.py:24-26 | on a well-keyed map, every record the ascending enumeration below n lists is the record stored under its own id, and that id lies in [1, n) |
| `ProductivityService.CollectIncreasing` | backend/services/productivity.py:24-26 | on a well-keyed map, the ids along the enumeration strictly increase |
| `ProductivityService.CollectComplete` | backend/services/productivity.py:24-26 | the enumeration below n lists every record stored under an id in [1, n) |
| `ProductivityService.CollectLength` | backend/services/productivity.py:24-26 | the enumeration below n has exactly one entry per stored id in [1, n) |
| `ProductivityService.IncreasingHoldsOnce` | backend/services/productivity.py:24-26 | a listing with strictly increasing ids contains each of its records exactly once |
| `ProductivityService.CreateTimer` | backend/services/productivity.py:34-39 | create returns the caller's record with its id replaced by the counter's value, stores it under that id, adds exactly that key, advances the counter by one, leaves every other entry alone, keeps the invariant, and in a valid store the id is fresh so the store grows by exactly one |
| `ProductivityService.UpdateTimer` | backend/services/productivity.py:41-48 | update of an absent id fails with NotFound and leaves the store unchanged; of a present id it returns the record, overwrites that entry in full, and keeps the key set, size, counter, every other entry and the invariant |
| `ProductivityService.DeleteTimer` | backend/services/productivity.py:50-55 | delete of an absent id fails with NotFound and leaves the store unchanged; of a present id it removes exactly that key, the size drops by one, and the counter, every other entry and the invariant are kept |
| `ProductivityLaws.RunPreservesValid` | backend/services/productivity.py:14-55 | any sequence of service calls from a valid store ends in a valid store and never moves the counter back |
| `ProductivityLaws.ReachableIsValid` | backend/services/productivity.py:14-15 | every store reachable from the initial module state satisfies the invariant |
| `ProductivityLaws.RunNeverLowersCounter` | backend/services/productivity.py:20-55 | from any store, no sequence of service calls moves the id counter back (only create touches it, and only upwards) |
| `ProductivityLaws.IdsNeverReused` | backend/services/productivity.py:36-38 | once an id has been handed out, every later create, after any calls including deletes and resets, hands out a larger id |
| `ProductivityLaws.SuccessiveCreatesIncrease` | backend/services/productivity.py:36-38 | two successive creates return distinct ids, the second exactly one above the first |
| `ProductivityLaws.DuplicateCallerIdAccepted` | backend/test/services/productivity_test.py:32-41 | two creates carrying the same caller id both succeed with different ids and both records are listed, so the exception that test expects is never raised |
| `ProductivityLaws.ResetKeepsNumbering` | backend/services/productivity.py:20-22 | the first create after a reset gets the id the counter already held, which is not 1 once anything was created |
| `ProductivityLaws.ResetEmptiesListing` | backend/test/services/productivity_test.py:13-19 | after reset the listing is empty |
| `ProductivityLaws.CreateListedOnce` | backend/test/services/productivity_test.py:22-29 | after create the created record is listed exactly once and the listing grows by one |
| `ProductivityLaws.GetTimerAgreesWithListing` | backend/services/productivity.py:24-32 | looking up an id succeeds iff some listed record carries that id, and then returns that record |
| `ProductivityLaws.GetAfterCreate` | backend/services/productivity.py:34-39 | after create the new id reads back the created record and every other id reads as before |
| `ProductivityLaws.GetAfterUpdate` | backend/services/productivity.py:41-48 | after update the updated id reads back the new record if it was stored; every other id, and the id of a failed update, read as before |
| `ProductivityLaws.GetAfterDelete` | backend/services/productivity.py:50-55 | after delete the deleted id reads NotFound and every other id reads as before |
| `ProductivityLaws.MissingIdFailsWithoutEffect` | backend/services/productivity.py:41-55 | update and delete of ids that are not stored fail with NotFound and return the store unchanged |
| `ProductivityLaws.ScenarioAddTimer` | backend/test/services/productivity_test.py:22-29 | reset then one create gives a listing of length 1 |
| `ProductivityLaws.ScenarioUpdateTimer` | backend/test/services/productivity_test.py:44-56 | updating the created timer's break length to 10 succeeds, returns that id and break length, and leaves the listing length unchanged |
| `ProductivityLaws.ScenarioDeleteTimer` | backend/test/services/productivity_test.py:67-77 | deleting the created timer shortens the listing by one, and a second delete of it fails with NotFound |
| `ProductivityLaws.ScenarioUpdateMissing` | backend/test/services/productivity_test.py:59-64 | on a reset store, updating id 1 fails with NotFound |
| `ProductivityLaws.ScenarioDeleteMissing` | backend/test/services/productivity_test.py:80-82 | on a reset store, deleting id 1 fails with NotFound |
| `InsertionOrder.Assign` | backend/services/productivity.py:47 | `d[k] = v` (also the store step of create at line 37): a present key's slot is overwritten in place with every other slot where it was, a new key's slot is appended after the rest; with distinct keys the view then maps k to v and keys stay distinct, and keys stay increasing when k was present or lies above every key |
| `InsertionOrder.Remove` | backend/services/productivity.py:55 | `del d[k]`: a missing key leaves the dictionary as it is; a present key's slot is dropped, the slots before it staying where they were and those after it moving up one place; with distinct keys the view loses exactly k, and increasing keys stay increasing |
| `InsertionOrder.Values` | backend/services/productivity.py:26 | iterating the dictionary yields one value per slot, and with distinct keys the i-th value is what the dictionary maps the i-th inserted key to |
| `InsertionOrder.SlotValue` | backend/services/productivity.py:26 | with distinct keys, every slot's key is a key of the dictionary and maps to that slot's value |
| `InsertionOrder.DictApply` | backend/services/productivity.py:20-55 | each service call on the insertion-ordered dictionary: only create advances the counter, reset empties the dictionary, lookups and an update or delete of a missing id leave it as it is, and every call keeps the keys distinct |
| `InsertionOrder.AppendSlot` | backend/services/productivity.py:37 | storing under a key the dictionary lacks appends a slot: the view gains exactly that key with that value, keys stay distinct, and stay increasing when the new key is above the rest |
| `InsertionOrder.OverwriteSlot` | backend/services/productivity.py:47 | storing under a present key overwrites its slot in place: the view changes only that key's value |
| `InsertionOrder.DropSlot` | backend/services/productivity.py:55 | deleting a key drops its slot: the view loses exactly that key and nothing else |
| `InsertionOrder.ValuesInIdOrder` | backend/services/productivity.py:24-26 | a dictionary whose keys increase and lie in [1, n) yields its values in the order of the ascending-id enumeration of its view |
| `InsertionOrder.ValuesAreListing` | backend/services/productivity.py:24-26 | for an ordered dictionary with a valid view, iterating its values gives exactly `GetTimers` of the view |
| `InsertionOrder.CreateSimulates` | backend/services/productivity.py:34-39 | create on the insertion-ordered dictionary appends a slot and gives the same store as `CreateTimer`, keeping keys increasing |
| `InsertionOrder.UpdateSimulates` | backend/services/productivity.py:41-48 | update on the insertion-ordered dictionary overwrites in place and gives the same store as `UpdateTimer`, keeping keys increasing |
| `InsertionOrder.DeleteSimulates` | backend/services/productivity.py:50-55 | delete on the insertion-ordered dictionary drops the slot and gives the same store as `DeleteTimer`, keeping keys increasing |
| `InsertionOrder.DictApplySimulates` | backend/services/productivity.py:20-55 | each service call on the insertion-ordered dictionary keeps it ordered and gives the same store as the call on the map model |
| `InsertionOrder.DictRunSimulates` | backend/services/productivity.py:14-55 | any run of calls on the insertion-ordered dictionary gives the same store as that run on the map model, and keeps keys increasing |
| `InsertionOrder.InsertionOrderIsIdOrder` | backend/services/productivity.py:14-26 | after any run of calls from the initial module state, the values the dictionary yields are exactly the ascending-id listing `GetTimers` |

## Left out

- HTTP routing (`backend/api/productivity.py`): it only forwards each verb to the service.
- The Angular client (`frontend/src/app/productivity/`): HTTP calls and observable plumbing; its `PomodoroTimer` class is not part of this model.
- Field validation done by the record's schema library: the model only uses its field list; lengths are plain integers with no positivity check, as in the code.
- Reference aliasing: the code mutates and stores the caller's own object on create and returns a live view of the dictionary from `get_timers`. The model uses value semantics, so the caller's record is not changed by `CreateTimer` (the test's `timer.id == result.id` holds in the code only through that aliasing). Value semantics also hides one behaviour: in the code, passing an already-stored object to `create_timer` again rewrites that stored object's `id` (line 36) and stores it a second time, so `get_timers` then lists two entries with the same id and one of them sits under a key that is not its id. The invariant `Valid` (every record stored under its own id) and the strictly increasing ids of `GetTimers` therefore hold for records passed as values, not for such re-submitted objects.
- Process-wide global state and the absence of any locking: the model threads one explicit store value through sequential calls.
- Exception message text: failures are the closed error value `NotFound`.
- Hashing and the internal layout of Python's dictionary: only its observable behaviour (key lookup, insertion order of iteration, overwrite in place, deletion) is modelled.
