/** The Home screen's todo state as an object: the pending and completed
    lists and the identifier counter are fields, and each of the screen's four
    effect handlers is a method that replaces them. */
module Home {
  import opened TodoRecords
  import opened TodoModel

  class TodoStore {
    var todos: seq<Todo>
    var done: seq<Todo>
    var nextId: nat

    /** The fields as a value, for stating what each handler does. */
    function State(): Store
      reads this
    {
      Store(todos, done, nextId)
    }

    ghost predicate Valid()
      reads this
    {
      Inv(State())
    }

    /** A freshly mounted screen: both lists empty, the counter at 1. */
    constructor ()
      ensures Valid()
      ensures todos == [] && done == [] && nextId == 1
    {
      todos := [];
      done := [];
      nextId := 1;
    }

    /** The add handler. The new record is appended to the pending list with
        the counter's value, which is returned, and the counter moves on. */
    method Add(title: string, description: string, created: string) returns (id: nat)
      requires Valid()
      modifies this
      ensures Valid()
      ensures id == old(nextId) && nextId == id + 1
      ensures todos == old(todos) + [Todo(title, description, created, false, id)]
      ensures done == old(done)
      ensures State() == Added(old(State()), title, description, created)
    {
      AddedKeepsInv(State(), title, description, created);
      id := nextId;
      todos := todos + [Todo(title, description, created, false, id)];
      nextId := nextId + 1;
    }

    /** The delete handler. When a pending record has the identifier the
        pending list is filtered, otherwise the completed list is; an unknown
        identifier leaves both lists as they were. */
    method Delete(id: nat)
      requires Valid()
      modifies this
      ensures Valid()
      ensures State() == Deleted(old(State()), id)
      ensures id !in Ids(todos) && id !in Ids(done)
      ensures id in Ids(old(todos)) ==> done == old(done)
      ensures id !in Ids(old(todos)) ==> todos == old(todos)
      ensures id !in Ids(old(todos)) && id !in Ids(old(done)) ==> todos == old(todos) && done == old(done)
    {
      DeletedKeepsInv(State(), id);
      DeletedIsGone(State(), id);
      DeletedRemovesOne(State(), id);
      if Find(todos, id).Some? {
        todos := Without(todos, id);
      } else {
        done := Without(done, id);
      }
    }

    /** The complete handler. The pending record with the identifier, flagged
        done, goes to the front of the completed list and leaves the pending
        list. The source dereferences the lookup result unguarded, so an
        identifier that is not pending is excluded here. */
    method Complete(id: nat)
      requires Valid() && id in Ids(todos)
      modifies this
      ensures Valid()
      ensures State() == Completed(old(State()), id)
      ensures |done| > 0 && done[0].id == id && done[0].done && done[1..] == old(done)
      ensures id !in Ids(todos) && |todos| + |done| == old(|todos| + |done|)
      ensures nextId == old(nextId)
    {
      var i := IndexOfId(todos, id);
      CompletedKeepsInv(State(), id);
      CompletedMovesToFront(State(), i);
      var item := Find(todos, id).value;
      item := item.(done := true);
      done := [item] + done;
      todos := Without(todos, id);
    }

    /** The undo handler. The completed record with the identifier, flagged
        not done, goes to the front of the pending list and leaves the
        completed list. As for complete, the identifier must be present. */
    method Undo(id: nat)
      requires Valid() && id in Ids(done)
      modifies this
      ensures Valid()
      ensures State() == Undone(old(State()), id)
      ensures |todos| > 0 && todos[0].id == id && !todos[0].done && todos[1..] == old(todos)
      ensures id !in Ids(done) && |todos| + |done| == old(|todos| + |done|)
      ensures nextId == old(nextId)
    {
      var i := IndexOfId(done, id);
      UndoneKeepsInv(State(), id);
      UndoneMovesToFront(State(), i);
      var item := Find(done, id).value;
      item := item.(done := false);
      todos := [item] + todos;
      done := Without(done, id);
    }
  }

  /** The position of a record that carries the identifier. */
  ghost method IndexOfId(s: seq<Todo>, id: nat) returns (i: nat)
    requires id in Ids(s)
    ensures i < |s| && s[i].id == id
  {
    var t :| t in s && t.id == id;
    i :| i < |s| && s[i] == t;
  }
}
