/** Sequences of intents dispatched to the Home screen, and what holds after
    any of them: the invariant, the identifiers the adds hand out, and the
    finality of delete. */
module TodoHistory {
  import opened TodoRecords
  import opened TodoModel

  /** What the Add and Details screens ask Home to do. */
  datatype Intent =
    | AddTodo(title: string, description: string, created: string)
    | DeleteTodo(id: nat)
    | CompleteTodo(id: nat)
    | UndoTodo(id: nat)

  /** One intent applied by its handler. `None` when the handler fails:
      complete of an identifier that is not pending, undo of one that is not
      completed. */
  function Step(st: Store, op: Intent): Option<Store>
  {
    match op
    case AddTodo(title, description, created) => Some(Added(st, title, description, created))
    case DeleteTodo(id) => Some(Deleted(st, id))
    case CompleteTodo(id) => if id in Ids(st.todos) then Some(Completed(st, id)) else None
    case UndoTodo(id) => if id in Ids(st.done) then Some(Undone(st, id)) else None
  }

  /** The intents applied in order; `None` once a handler fails. */
  function Run(st: Store, ops: seq<Intent>): Option<Store>
    decreases |ops|
  {
    if ops == [] then Some(st)
    else match Step(st, ops[0])
      case None => None
      case Some(next) => Run(next, ops[1..])
  }

  /** The identifiers the adds of a run hand out, in order, up to the first
      failing handler. */
  function Assigned(st: Store, ops: seq<Intent>): seq<nat>
    decreases |ops|
  {
    if ops == [] then []
    else match Step(st, ops[0])
      case None => []
      case Some(next) => (if ops[0].AddTodo? then [st.nextId] else []) + Assigned(next, ops[1..])
  }

  /** Every handler that does not fail keeps the invariant. */
  lemma StepKeepsInv(st: Store, op: Intent)
    requires Inv(st)
    ensures Step(st, op).Some? ==> Inv(Step(st, op).value)
  {
    match op
    case AddTodo(title, description, created) => AddedKeepsInv(st, title, description, created);
    case DeleteTodo(id) => DeletedKeepsInv(st, id);
    case CompleteTodo(id) => if id in Ids(st.todos) { CompletedKeepsInv(st, id); }
    case UndoTodo(id) => if id in Ids(st.done) { UndoneKeepsInv(st, id); }
  }

  /** Any run from a valid state ends in a valid state. */
  lemma {:induction false} RunKeepsInv(st: Store, ops: seq<Intent>)
    requires Inv(st)
    ensures Run(st, ops).Some? ==> Inv(Run(st, ops).value)
    decreases |ops|
  {
    if ops != [] {
      StepKeepsInv(st, ops[0]);
      if Step(st, ops[0]).Some? {
        RunKeepsInv(Step(st, ops[0]).value, ops[1..]);
      }
    }
  }

  /** The adds of a run hand out consecutive identifiers starting from the
      counter's value, whatever deletes, completes and undos come between
      them, and the counter ends just past the last one. */
  lemma {:induction false} AssignedConsecutive(st: Store, ops: seq<Intent>)
    ensures forall k :: 0 <= k < |Assigned(st, ops)| ==> Assigned(st, ops)[k] == st.nextId + k
    ensures Run(st, ops).Some? ==> Run(st, ops).value.nextId == st.nextId + |Assigned(st, ops)|
    decreases |ops|
  {
    if ops != [] && Step(st, ops[0]).Some? {
      var next := Step(st, ops[0]).value;
      AssignedConsecutive(next, ops[1..]);
      assert next.nextId == st.nextId + (if ops[0].AddTodo? then 1 else 0);
    }
  }

  /** From a freshly mounted screen, the k-th add of any run gets identifier
      k + 1; no identifier is handed out twice, and every state reached
      satisfies the invariant. */
  lemma IdsFromEmpty(ops: seq<Intent>)
    ensures forall k :: 0 <= k < |Assigned(Empty(), ops)| ==> Assigned(Empty(), ops)[k] == k + 1
    ensures forall j, k :: 0 <= j < k < |Assigned(Empty(), ops)| ==>
      Assigned(Empty(), ops)[j] < Assigned(Empty(), ops)[k]
    ensures Run(Empty(), ops).Some? ==> Inv(Run(Empty(), ops).value)
  {
    AssignedConsecutive(Empty(), ops);
    RunKeepsInv(Empty(), ops);
  }

  /** No add of a run hands out an identifier that a record of the starting
      state already carries. */
  lemma AssignedFresh(st: Store, ops: seq<Intent>)
    requires Inv(st)
    ensures forall k :: 0 <= k < |Assigned(st, ops)| ==>
      Assigned(st, ops)[k] !in Ids(st.todos) && Assigned(st, ops)[k] !in Ids(st.done)
  {
    AssignedConsecutive(st, ops);
    assert forall t :: t in st.todos + st.done ==> t.id < st.nextId;
  }

  /** A step keeps out of both lists an identifier that the counter has
      already passed and that no record carries: add hands out only the
      counter's value, and the other handlers only remove or move records. */
  lemma StepKeepsGone(st: Store, op: Intent, id: nat)
    requires Inv(st) && id < st.nextId && id !in Ids(st.todos) && id !in Ids(st.done)
    ensures Step(st, op).Some? ==>
      var r := Step(st, op).value;
      id < r.nextId && id !in Ids(r.todos) && id !in Ids(r.done)
  {
    match op
    case AddTodo(title, description, created) =>
      IdsAppend(st.todos, [NewTodo(title, description, created, st.nextId)]);
    case DeleteTodo(d) =>
      IdsWithout(st.todos, d);
      IdsWithout(st.done, d);
    case CompleteTodo(c) =>
      if c in Ids(st.todos) {
        var r := Completed(st, c);
        IdsWithout(st.todos, c);
        IdsAppend([r.done[0]], st.done);
      }
    case UndoTodo(u) =>
      if u in Ids(st.done) {
        var r := Undone(st, u);
        IdsWithout(st.done, u);
        IdsAppend([r.todos[0]], st.todos);
      }
  }

  /** An identifier that the counter has already passed and that no record
      carries never comes back, whatever intents follow. */
  lemma {:induction false} GoneStaysGone(st: Store, id: nat, ops: seq<Intent>)
    requires Inv(st) && id < st.nextId && id !in Ids(st.todos) && id !in Ids(st.done)
    ensures Run(st, ops).Some? ==>
      id !in Ids(Run(st, ops).value.todos) && id !in Ids(Run(st, ops).value.done)
    decreases |ops|
  {
    if ops != [] {
      StepKeepsGone(st, ops[0], id);
      StepKeepsInv(st, ops[0]);
      if Step(st, ops[0]).Some? {
        GoneStaysGone(Step(st, ops[0]).value, id, ops[1..]);
      }
    }
  }

  /** After a delete of a record, its identifier is gone for good: complete
      and undo of it fail, deleting it again changes nothing, and no later run
      of intents, adds included, brings it back into either list. */
  lemma DeleteIsFinal(st: Store, id: nat, ops: seq<Intent>)
    requires Inv(st)
    ensures var r := Deleted(st, id);
      && Step(r, CompleteTodo(id)).None?
      && Step(r, UndoTodo(id)).None?
      && Step(r, DeleteTodo(id)) == Some(r)
      && (id in Ids(st.todos) || id in Ids(st.done) ==>
            Run(r, ops).Some? ==>
              id !in Ids(Run(r, ops).value.todos) && id !in Ids(Run(r, ops).value.done))
  {
    var r := Deleted(st, id);
    DeletedIsGone(st, id);
    if id in Ids(st.todos) || id in Ids(st.done) {
      assert id < st.nextId by {
        assert forall t :: t in st.todos + st.done ==> t.id < st.nextId;
      }
      DeletedKeepsInv(st, id);
      GoneStaysGone(r, id, ops);
    }
  }

  /** The walk-through of a single todo: added as identifier 1, completed,
      deleted; completing it afterwards fails. */
  lemma SingleTodoLifecycle(created: string)
    ensures var add := AddTodo("Buy milk", "2%", created);
      && Assigned(Empty(), [add]) == [1]
      && Run(Empty(), [add]) == Some(Store([Todo("Buy milk", "2%", created, false, 1)], [], 2))
      && Run(Empty(), [add, CompleteTodo(1)])
         == Some(Store([], [Todo("Buy milk", "2%", created, true, 1)], 2))
      && Run(Empty(), [add, CompleteTodo(1), DeleteTodo(1)]) == Some(Store([], [], 2))
      && Run(Empty(), [add, CompleteTodo(1), DeleteTodo(1), CompleteTodo(1)]).None?
  {
    var t := Todo("Buy milk", "2%", created, false, 1);
    var s1 := Store([t], [], 2);
    assert [] + [t] == [t];
    assert Step(Empty(), AddTodo("Buy milk", "2%", created)) == Some(s1);
    AddedKeepsInv(Empty(), "Buy milk", "2%", created);
    CompletedMovesToFront(s1, 0);
    var s2 := Store([], [t.(done := true)], 2);
    assert s1.todos[0].id == 1 && 1 in Ids(s1.todos);
    assert Completed(s1, 1).done == [t.(done := true)] + [] == [t.(done := true)];
    assert Completed(s1, 1).todos == s1.todos[..0] + s1.todos[1..] == [];
    assert Step(s1, CompleteTodo(1)) == Some(s2);
    assert t.(done := true) == Todo("Buy milk", "2%", created, true, 1);
    assert Run(s1, [CompleteTodo(1)]) == Some(s2);
    assert Find(s2.todos, 1).None?;
    DeletedRemovesOne(s2, 1);
    var s3 := Store([], [], 2);
    assert Step(s2, DeleteTodo(1)) == Some(s3);
    assert Step(s3, CompleteTodo(1)).None?;
    assert Run(s2, [DeleteTodo(1)]) == Some(s3);
    assert [CompleteTodo(1), DeleteTodo(1)][1..] == [DeleteTodo(1)];
    assert Run(s1, [CompleteTodo(1), DeleteTodo(1)]) == Some(s3);
    assert Run(s3, [CompleteTodo(1)]).None?;
    assert [DeleteTodo(1), CompleteTodo(1)][1..] == [CompleteTodo(1)];
    assert Run(s2, [DeleteTodo(1), CompleteTodo(1)]).None?;
    assert [CompleteTodo(1), DeleteTodo(1), CompleteTodo(1)][1..] == [DeleteTodo(1), CompleteTodo(1)];
    assert Run(s1, [CompleteTodo(1), DeleteTodo(1), CompleteTodo(1)]).None?;
    var add := AddTodo("Buy milk", "2%", created);
    assert [add, CompleteTodo(1)][1..] == [CompleteTodo(1)];
    assert [add, CompleteTodo(1), DeleteTodo(1)][1..] == [CompleteTodo(1), DeleteTodo(1)];
    assert [add, CompleteTodo(1), DeleteTodo(1), CompleteTodo(1)][1..]
        == [CompleteTodo(1), DeleteTodo(1), CompleteTodo(1)];
  }
}
