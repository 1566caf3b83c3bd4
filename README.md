# Todo list state of the todo-app Home screen

The app keeps all its todo state in the `Home` screen (`App.js`): a pending
list `todos`, a completed list `done` and an identifier counter `id` that
starts at 1. Four effect handlers change that state when the Add and Details
screens dispatch an intent:

- **add** appends a new record `{todo, description, created, done: false, id}`
  to the end of `todos`, taking the counter's value and incrementing it;
- **delete** filters the identifier out of `todos` if a pending record has it,
  and out of `done` otherwise;
- **complete** takes the pending record with the identifier, sets its flag,
  puts it at index 0 of `done` and filters it out of `todos`;
- **undo** does the mirror image, from `done` to index 0 of `todos`.

The model has four modules:

- `TodoRecords` (`todo_records.dfy`): the record, and the two array lookups the
  handlers use — `Find` (`find`, and `filter(...)[0]`) and `Without`
  (`filter(t => t.id != id)`) — with their properties.
- `TodoModel` (`todo_model.dfy`): the state as a value `Store`, the invariant
  `Inv`, the four handlers as functions (`Added`, `Deleted`, `Completed`,
  `Undone`) and the lemmas about them. `Inv` says three things. No identifier
  occurs twice, in one list or across both. The flag agrees with the list
  holding the record. Every identifier lies between 1 and the counter.
- `Home` (`todo_store.dfy`): the class `TodoStore`. It has the fields `todos`,
  `done` and `nextId`, and one method per handler. Each method keeps `Valid()`
  and states its new state through the matching `TodoModel` function.
- `TodoHistory` (`todo_history.dfy`): sequences of dispatched intents. It
  shows the invariant after any run and the identifiers that adds hand out.
  It also shows that a deleted identifier never comes back, whatever intents
  follow.

The source does not guard complete and undo. They read element 0 of a filter
result and write its `done` field, so an identifier that is not in the list
throws. The Details screen only sends `done` for a record whose flag is false
and `undo` for one whose flag is true. The methods `Complete` and `Undo`
therefore require the identifier to be present. In `TodoHistory.Step` the
same case is a failed step (`None`). A cleaner design would report the
missing identifier as an error, but the code crashes, and the model follows
the code.

## Model

| member | source | states |
|---|---|---|
| TodoRecords.Find | App.js:59 | the lookup succeeds exactly when some record carries the identifier, and what it returns is the first such record: no record before it carries the identifier; on failure no record carries it |
| TodoRecords.Without | App.js:60 | the filtered list is never longer than the input |
| TodoRecords.WithoutMembers | App.js:60 | the filter keeps exactly the records whose identifier differs, and no others |
| TodoRecords.IdsWithout | App.js:64 | the identifiers after filtering are those before, minus the filtered one |
| TodoRecords.FindUnique | App.js:74 | on a list without repeated identifiers, `filter(...)[0]` returns the one record carrying the identifier |
| TodoRecords.WithoutAbsent | App.js:64 | filtering an identifier no record carries leaves the list unchanged |
| TodoRecords.WithoutAt | App.js:79 | on a list without repeated identifiers, filtering the identifier of the record at index i yields the list minus that element, the others in their order |
| TodoRecords.RemoveOneLength | App.js:60 | filtering an identifier held once shortens the list by exactly one |
| TodoRecords.WithoutKeepsUnique | App.js:94 | filtering keeps the identifiers of a list distinct |
| TodoModel.Empty | App.js:33-36 | the initial state (empty lists, counter 1) satisfies the invariant and holds no record |
| TodoModel.AddedIdIsFresh | App.js:44 | in a valid state the counter's value is carried by no pending and no completed record |
| TodoModel.AddedKeepsInv | App.js:42-44 | add keeps the invariant: distinct identifiers, flags agreeing with lists, identifiers below the counter |
| TodoModel.DeletedKeepsInv | App.js:59-66 | delete keeps the invariant |
| TodoModel.DeletedRemovesOne | App.js:59-66 | delete of a pending identifier removes exactly that record from the pending list in order and leaves the completed list; delete of a completed one does the same on the completed list; delete of an unknown identifier changes nothing |
| TodoModel.DeletedIsGone | App.js:59-66 | after delete the identifier is in neither list; the count drops by one exactly when it was held; deleting again changes nothing |
| TodoModel.CompletedKeepsInv | App.js:74-82 | complete keeps the invariant |
| TodoModel.UndoneKeepsInv | App.js:89-97 | undo keeps the invariant |
| TodoModel.CompletedMovesToFront | App.js:74-82 | complete of the pending record at index i puts it, flagged done, in front of the old completed list, removes it from the pending list keeping the others' order, and keeps the total count and the counter |
| TodoModel.UndoneMovesToFront | App.js:89-97 | undo of the completed record at index i puts it, flagged not done, in front of the old pending list, removes it from the completed list keeping the others' order, and keeps the total count and the counter |
| TodoModel.CompleteThenUndo | App.js:71-99 | complete followed by undo of the same identifier leaves the record unchanged at the head of the pending list and the completed list as it was |
| TodoModel.CompletedKeepsPayloads | App.js:75 | complete rewrites only the done flag: the multiset of records with the flag cleared is the same before and after |
| TodoModel.UndoneKeepsPayloads | App.js:90 | undo rewrites only the done flag: the multiset of records with the flag cleared is the same before and after |
| TodoModel.AddedTwice | App.js:42-44 | two adds from a valid state append the two records in order, with consecutive identifiers, and keep the invariant |
| TodoModel.CompletedNewestFirst | App.js:76-77 | records A then B added and completed in that order end up as [B, A] in front of the completed list |
| TodoModel.CompleteTwoInOrder | App.js:76-79 | completing the last two pending records, older first, leaves them newest-first at the head of the completed list |
| TodoModel.UndoneGoesFirst | App.js:91-92 | a record added, completed and undone comes back ahead of every record that was pending before it |
| Home.TodoStore.constructor | App.js:33-36 | a new store has empty lists, counter 1, and is valid |
| Home.TodoStore.Add | App.js:38-52 | appends the new record, not done, with the old counter value, which it returns; increments the counter; keeps the completed list and validity |
| Home.TodoStore.Delete | App.js:54-69 | filters the pending list if it holds the identifier, the completed list otherwise; afterwards neither holds it; an unknown identifier changes nothing |
| Home.TodoStore.Complete | App.js:71-84 | requires the identifier pending; it heads the completed list flagged done, followed by the old completed list, and is gone from the pending list; the total count is kept |
| Home.TodoStore.Undo | App.js:86-99 | requires the identifier completed; it heads the pending list flagged not done, followed by the old pending list, and is gone from the completed list; the total count is kept |
| TodoHistory.StepKeepsInv | App.js:38-99 | every handler that does not fail keeps the invariant |
| TodoHistory.RunKeepsInv | App.js:38-99 | any run of intents from a valid state that does not fail ends in a valid state |
| TodoHistory.AssignedConsecutive | App.js:44 | the adds of a run hand out the counter's value, then the next, and so on, whatever other intents come between; the counter ends just past the last one |
| TodoHistory.IdsFromEmpty | App.js:36 | from a new screen the k-th add gets identifier k + 1, the identifiers handed out strictly increase, and every reached state is valid |
| TodoHistory.AssignedFresh | App.js:36-44 | no add hands out an identifier already carried by a record of the starting state, deletes included |
| TodoHistory.StepKeepsGone | App.js:38-99 | an identifier below the counter that no record carries stays out of both lists after any handler, and stays below the counter |
| TodoHistory.GoneStaysGone | App.js:36-44 | an identifier below the counter that no record carries is in neither list after any later run of intents, adds included |
| TodoHistory.DeleteIsFinal | App.js:59-66 | after delete, complete and undo of the identifier fail and a second delete changes nothing; if a record held the identifier, no later run of intents brings it back into either list |
| TodoHistory.SingleTodoLifecycle | App.js:38-84 | one todo added as identifier 1, completed, deleted; completing it again fails |

## Left out

- The React components (`Item`, `ItemDone`, `Details`, `Add`, `App`), rendering, `FlatList` and styles: UI with nothing to state about the lists.
- Navigation: `route.params`, `navigate`, `setParams`, `setOptions` and the effects' dependency arrays. Each intent is a direct call in the model. So the model does not capture that an effect does not fire again when the same parameter value is dispatched twice in a row.
- The truthiness guards on the route parameters: dispatch mechanics. They are why the counter starts at 1, and the model keeps that start.
- `new Date().toLocaleString('sv-SE')` in the Add screen: a locale- and clock-dependent call; `created` is a string argument of add.
- React state batching: each handler is one atomic update of both lists.
- The in-place write `doneItem.done = true` / `undoItem.done = false` on a record still shared with the old array: the model builds the record with the new flag, and the lists that result are the same.
- JavaScript number precision: identifiers are unbounded naturals, and the 2^53 limit of the counter is not modelled.
- Home.TodoStore.Complete: requires the identifier to be pending instead of modelling the source's crash; `TodoHistory.Step` returns `None` for that case.
- Home.TodoStore.Undo: requires the identifier to be completed, for the same reason.
- Home.TodoStore.Add: returns the identifier it assigned, which the source handler does not. The value is only the old counter, so the state change is the same.
