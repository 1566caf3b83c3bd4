/** The state the Home screen keeps (its pending array, its completed array and
    the identifier counter) as a value, and the four transitions its effect
    handlers apply to it: add, delete, complete and undo. */
module TodoModel {
  import opened TodoRecords

  /** `todos` is the pending list, `done` the completed list, `nextId` the
      value the counter will hand out next. */
  datatype Store = Store(todos: seq<Todo>, done: seq<Todo>, nextId: nat)

  /** Every pending record is flagged not done, every completed one done. */
  predicate FlagsAgree(st: Store)
  {
    && (forall t :: t in st.todos ==> !t.done)
    && (forall t :: t in st.done ==> t.done)
  }

  /** No identifier occurs twice in a list, nor in both lists. */
  predicate IdsDistinct(st: Store)
  {
    UniqueIds(st.todos) && UniqueIds(st.done) && Ids(st.todos) !! Ids(st.done)
  }

  /** Every identifier in use was handed out by the counter: it lies between
      the counter's start, 1, and its next value. */
  predicate IdsIssued(st: Store)
  {
    && 1 <= st.nextId
    && (forall t :: t in st.todos ==> 1 <= t.id < st.nextId)
    && (forall t :: t in st.done ==> 1 <= t.id < st.nextId)
  }

  predicate Inv(st: Store)
  {
    FlagsAgree(st) && IdsDistinct(st) && IdsIssued(st)
  }

  /** The state of a freshly mounted Home screen: two empty lists and the
      counter at 1. */
  function Empty(): (st: Store)
    ensures Inv(st) && st.nextId == 1
    ensures Count(st) == 0
  {
    Store([], [], 1)
  }

  /** The number of records held in either list. */
  function Count(st: Store): nat
  {
    |st.todos| + |st.done|
  }

  /** The record the add handler builds from the form's fields. */
  function NewTodo(title: string, description: string, created: string, id: nat): Todo
  {
    Todo(title, description, created, false, id)
  }

  /** The add handler: the new record goes to the end of the pending list and
      takes the counter's value, which is then incremented. */
  function Added(st: Store, title: string, description: string, created: string): Store
  {
    Store(st.todos + [NewTodo(title, description, created, st.nextId)], st.done, st.nextId + 1)
  }

  /** The delete handler: when some pending record has the identifier, the
      pending list is filtered; otherwise the completed list is. */
  function Deleted(st: Store, id: nat): Store
  {
    if Find(st.todos, id).Some? then st.(todos := Without(st.todos, id))
    else st.(done := Without(st.done, id))
  }

  /** The complete handler: the first pending record with the identifier is
      flagged done and put in front of the completed list, and the pending
      list is filtered. The handler fails on an identifier that no pending
      record carries. */
  function Completed(st: Store, id: nat): Store
    requires id in Ids(st.todos)
  {
    var item := Find(st.todos, id).value.(done := true);
    Store(Without(st.todos, id), [item] + st.done, st.nextId)
  }

  /** The undo handler: the first completed record with the identifier is
      flagged not done and put in front of the pending list, and the
      completed list is filtered. The handler fails on an identifier that no
      completed record carries. */
  function Undone(st: Store, id: nat): Store
    requires id in Ids(st.done)
  {
    var item := Find(st.done, id).value.(done := false);
    Store([item] + st.todos, Without(st.done, id), st.nextId)
  }

  // ---------------------------------------------------------------------
  // Add

  /** The identifier add hands out is not held by any record. */
  lemma AddedIdIsFresh(st: Store)
    requires Inv(st)
    ensures st.nextId !in Ids(st.todos) && st.nextId !in Ids(st.done)
  {
    assert forall t :: t in st.todos + st.done ==> t.id != st.nextId;
  }

  /** Add keeps the invariant. */
  lemma AddedKeepsInv(st: Store, title: string, description: string, created: string)
    requires Inv(st)
    ensures Inv(Added(st, title, description, created))
  {
    var r := Added(st, title, description, created);
    var item := NewTodo(title, description, created, st.nextId);
    AddedIdIsFresh(st);
    IdsAppend(st.todos, [item]);
    assert Ids([item]) == {st.nextId};
    forall i, j | 0 <= i < j < |r.todos| ensures r.todos[i].id != r.todos[j].id {
      if j == |st.todos| {
        assert r.todos[i] in st.todos;
      } else {
        assert r.todos[i] == st.todos[i] && r.todos[j] == st.todos[j];
      }
    }
  }

  // ---------------------------------------------------------------------
  // Delete

  /** Delete keeps the invariant. */
  lemma DeletedKeepsInv(st: Store, id: nat)
    requires Inv(st)
    ensures Inv(Deleted(st, id))
  {
    IdsWithout(st.todos, id);
    IdsWithout(st.done, id);
    WithoutMembers(st.todos, id);
    WithoutMembers(st.done, id);
    WithoutKeepsUnique(st.todos, id);
    WithoutKeepsUnique(st.done, id);
  }

  /** Delete of a pending identifier removes that one record from the pending
      list, keeping the order of the others, and leaves the completed list
      alone; delete of a completed identifier does the same on the completed
      list; delete of an unknown identifier changes nothing. */
  lemma DeletedRemovesOne(st: Store, id: nat)
    requires Inv(st)
    ensures var r := Deleted(st, id);
      && r.nextId == st.nextId
      && (forall i :: 0 <= i < |st.todos| && st.todos[i].id == id ==>
            r.todos == st.todos[..i] + st.todos[i + 1..] && r.done == st.done)
      && (forall i :: 0 <= i < |st.done| && st.done[i].id == id ==>
            r.done == st.done[..i] + st.done[i + 1..] && r.todos == st.todos)
      && (id !in Ids(st.todos) && id !in Ids(st.done) ==> r == st)
  {
    forall i | 0 <= i < |st.todos| && st.todos[i].id == id
      ensures Deleted(st, id).todos == st.todos[..i] + st.todos[i + 1..]
    {
      WithoutAt(st.todos, i);
    }
    forall i | 0 <= i < |st.done| && st.done[i].id == id
      ensures Deleted(st, id).done == st.done[..i] + st.done[i + 1..]
    {
      assert st.done[i] in st.done;
      assert id !in Ids(st.todos);
      WithoutAt(st.done, i);
    }
    if id !in Ids(st.todos) && id !in Ids(st.done) {
      WithoutAbsent(st.done, id);
    }
  }

  /** Delete removes every trace of the identifier, counts one record less
      when the identifier was held, and a second delete changes nothing. */
  lemma DeletedIsGone(st: Store, id: nat)
    requires Inv(st)
    ensures var r := Deleted(st, id);
      && id !in Ids(r.todos) && id !in Ids(r.done)
      && Count(r) == (if id in Ids(st.todos) || id in Ids(st.done) then Count(st) - 1 else Count(st))
      && Deleted(r, id) == r
  {
    var r := Deleted(st, id);
    IdsWithout(st.todos, id);
    IdsWithout(st.done, id);
    if id in Ids(st.todos) {
      RemoveOneLength(st.todos, id);
    } else if id in Ids(st.done) {
      RemoveOneLength(st.done, id);
    } else {
      WithoutAbsent(st.done, id);
    }
    WithoutAbsent(r.done, id);
  }

  // ---------------------------------------------------------------------
  // Complete and undo

  /** Complete keeps the invariant. */
  lemma CompletedKeepsInv(st: Store, id: nat)
    requires Inv(st) && id in Ids(st.todos)
    ensures Inv(Completed(st, id))
  {
    var r := Completed(st, id);
    var item := r.done[0];
    assert item.id == id && item.done;
    IdsWithout(st.todos, id);
    WithoutMembers(st.todos, id);
    WithoutKeepsUnique(st.todos, id);
    IdsAppend([item], st.done);
    assert Ids([item]) == {id};
    assert id !in Ids(st.done);
    UniqueCons(item, st.done);
  }

  /** Undo keeps the invariant. */
  lemma UndoneKeepsInv(st: Store, id: nat)
    requires Inv(st) && id in Ids(st.done)
    ensures Inv(Undone(st, id))
  {
    var r := Undone(st, id);
    var item := r.todos[0];
    assert item.id == id && !item.done;
    IdsWithout(st.done, id);
    WithoutMembers(st.done, id);
    WithoutKeepsUnique(st.done, id);
    IdsAppend([item], st.todos);
    assert Ids([item]) == {id};
    assert id !in Ids(st.todos);
    UniqueCons(item, st.todos);
  }

  /** Complete of the pending record at index `i`: afterwards that record,
      flagged done and otherwise unchanged, heads the completed list, followed
      by the old completed list; the other pending records keep their order;
      the identifier is no longer pending; the total count is unchanged. */
  lemma CompletedMovesToFront(st: Store, i: nat)
    requires Inv(st) && i < |st.todos|
    ensures st.todos[i].id in Ids(st.todos)
    ensures var r := Completed(st, st.todos[i].id);
      && r.done == [st.todos[i].(done := true)] + st.done
      && r.todos == st.todos[..i] + st.todos[i + 1..]
      && st.todos[i].id !in Ids(r.todos)
      && r.nextId == st.nextId
      && Count(r) == Count(st)
  {
    assert st.todos[i] in st.todos;
    FindUnique(st.todos, i);
    WithoutAt(st.todos, i);
    IdsWithout(st.todos, st.todos[i].id);
  }

  /** Undo of the completed record at index `i`: afterwards that record,
      flagged not done and otherwise unchanged, heads the pending list,
      followed by the old pending list; the other completed records keep
      their order; the identifier is no longer completed; the total count is
      unchanged. */
  lemma UndoneMovesToFront(st: Store, i: nat)
    requires Inv(st) && i < |st.done|
    ensures st.done[i].id in Ids(st.done)
    ensures var r := Undone(st, st.done[i].id);
      && r.todos == [st.done[i].(done := false)] + st.todos
      && r.done == st.done[..i] + st.done[i + 1..]
      && st.done[i].id !in Ids(r.done)
      && r.nextId == st.nextId
      && Count(r) == Count(st)
  {
    assert st.done[i] in st.done;
    FindUnique(st.done, i);
    WithoutAt(st.done, i);
    IdsWithout(st.done, st.done[i].id);
  }

  /** Complete followed by undo of the same identifier puts the record back
      at the head of the pending list, flagged not done, and leaves the
      completed list as it was. */
  lemma CompleteThenUndo(st: Store, i: nat)
    requires Inv(st) && i < |st.todos|
    ensures st.todos[i].id in Ids(st.todos)
    ensures var c := Completed(st, st.todos[i].id);
      && st.todos[i].id in Ids(c.done)
      && Undone(c, st.todos[i].id)
         == Store([st.todos[i]] + st.todos[..i] + st.todos[i + 1..], st.done, st.nextId)
  {
    var id := st.todos[i].id;
    CompletedMovesToFront(st, i);
    CompletedKeepsInv(st, id);
    var c := Completed(st, id);
    assert c.done[0].id == id;
    UndoneMovesToFront(c, 0);
    assert c.done[1..] == st.done;
  }

  /** Complete and undo rewrite only the completion flag: the payloads of all
      records, taken together, are the same before and after. */
  lemma CompletedKeepsPayloads(st: Store, i: nat)
    requires Inv(st) && i < |st.todos|
    ensures st.todos[i].id in Ids(st.todos)
    ensures var r := Completed(st, st.todos[i].id);
      Payloads(r.todos) + Payloads(r.done) == Payloads(st.todos) + Payloads(st.done)
  {
    var t := st.todos[i];
    CompletedMovesToFront(st, i);
    assert st.todos == st.todos[..i] + [t] + st.todos[i + 1..];
    PayloadsAppend(st.todos[..i] + [t], st.todos[i + 1..]);
    PayloadsAppend(st.todos[..i], [t]);
    PayloadsAppend(st.todos[..i], st.todos[i + 1..]);
    PayloadsAppend([t.(done := true)], st.done);
  }

  lemma UndoneKeepsPayloads(st: Store, i: nat)
    requires Inv(st) && i < |st.done|
    ensures st.done[i].id in Ids(st.done)
    ensures var r := Undone(st, st.done[i].id);
      Payloads(r.todos) + Payloads(r.done) == Payloads(st.todos) + Payloads(st.done)
  {
    var t := st.done[i];
    UndoneMovesToFront(st, i);
    assert st.done == st.done[..i] + [t] + st.done[i + 1..];
    PayloadsAppend(st.done[..i] + [t], st.done[i + 1..]);
    PayloadsAppend(st.done[..i], [t]);
    PayloadsAppend(st.done[..i], st.done[i + 1..]);
    PayloadsAppend([t.(done := false)], st.todos);
  }

  // ---------------------------------------------------------------------
  // Ordering

  /** Two adds from a valid state append the two records, in order. */
  lemma AddedTwice(st: Store, a: Todo, b: Todo)
    requires Inv(st)
    ensures var s2 := Added(Added(st, a.todo, a.description, a.created), b.todo, b.description, b.created);
      && Inv(s2)
      && s2 == Store(st.todos + [NewTodo(a.todo, a.description, a.created, st.nextId),
                                 NewTodo(b.todo, b.description, b.created, st.nextId + 1)],
                     st.done, st.nextId + 2)
  {
    var s1 := Added(st, a.todo, a.description, a.created);
    AddedKeepsInv(st, a.todo, a.description, a.created);
    AddedKeepsInv(s1, b.todo, b.description, b.created);
  }

  /** Two records added and then completed in the order they were added end
      up in the completed list newest-first. */
  lemma CompletedNewestFirst(st: Store, a: Todo, b: Todo)
    requires Inv(st)
    ensures var s2 := Added(Added(st, a.todo, a.description, a.created), b.todo, b.description, b.created);
      var idA := st.nextId;
      var idB := st.nextId + 1;
      && idA in Ids(s2.todos)
      && idB in Ids(Completed(s2, idA).todos)
      && Completed(Completed(s2, idA), idB).done
         == [NewTodo(b.todo, b.description, b.created, idB).(done := true),
             NewTodo(a.todo, a.description, a.created, idA).(done := true)] + st.done
  {
    AddedTwice(st, a, b);
    var s2 := Added(Added(st, a.todo, a.description, a.created), b.todo, b.description, b.created);
    var n := |st.todos|;
    assert s2.todos[n].id == st.nextId && s2.todos[n + 1].id == st.nextId + 1;
    CompleteTwoInOrder(s2, n);
  }

  /** Completing the last two pending records, the older first, leaves them
      in the completed list newest-first. */
  lemma CompleteTwoInOrder(s: Store, n: nat)
    requires Inv(s) && |s.todos| == n + 2
    ensures s.todos[n].id in Ids(s.todos)
    ensures s.todos[n + 1].id in Ids(Completed(s, s.todos[n].id).todos)
    ensures Completed(Completed(s, s.todos[n].id), s.todos[n + 1].id).done
         == [s.todos[n + 1].(done := true), s.todos[n].(done := true)] + s.done
  {
    var x, y := s.todos[n], s.todos[n + 1];
    CompletedMovesToFront(s, n);
    CompletedKeepsInv(s, x.id);
    var c := Completed(s, x.id);
    assert c.todos[n] == y by {
      assert s.todos[n + 1..] == [y];
    }
    CompletedMovesToFront(c, n);
    assert [y.(done := true)] + ([x.(done := true)] + s.done)
        == [y.(done := true), x.(done := true)] + s.done;
  }

  /** A record that is added, completed and then undone returns ahead of
      every record that was pending before it was added. */
  lemma UndoneGoesFirst(st: Store, a: Todo, b: Todo)
    requires Inv(st)
    ensures var s1 := Added(st, a.todo, a.description, a.created);
      var s2 := Added(s1, b.todo, b.description, b.created);
      var idA := st.nextId;
      && idA in Ids(s2.todos)
      && idA in Ids(Completed(s2, idA).done)
      && Undone(Completed(s2, idA), idA).todos
         == [NewTodo(a.todo, a.description, a.created, idA)] + st.todos
            + [NewTodo(b.todo, b.description, b.created, idA + 1)]
  {
    var s1 := Added(st, a.todo, a.description, a.created);
    var s2 := Added(s1, b.todo, b.description, b.created);
    AddedKeepsInv(st, a.todo, a.description, a.created);
    AddedKeepsInv(s1, b.todo, b.description, b.created);
    var n := |st.todos|;
    assert s2.todos[n].id == st.nextId;
    CompleteThenUndo(s2, n);
    assert s2.todos[..n] + s2.todos[n + 1..]
        == st.todos + [NewTodo(b.todo, b.description, b.created, st.nextId + 1)];
  }
}
