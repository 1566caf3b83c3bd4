/** The todo record built by the Home screen and the two lookups its handlers
    run over the pending and completed arrays: `find`/`filter(...)[0]` by
    identifier, and `filter` that drops every record carrying an identifier. */
module TodoRecords {

  datatype Option<T> = None | Some(value: T)

  /** One record as the add handler builds it: the title (`todo`), the free
      text description, the creation timestamp as the add form formatted it,
      the completion flag and the identifier handed out by the counter. */
  datatype Todo = Todo(todo: string, description: string, created: string, done: bool, id: nat)

  /** The identifiers that occur in a list. */
  function Ids(s: seq<Todo>): set<nat>
  {
    set t | t in s :: t.id
  }

  /** No identifier occurs twice in the list. */
  predicate UniqueIds(s: seq<Todo>)
  {
    forall i, j :: 0 <= i < j < |s| ==> s[i].id != s[j].id
  }

  lemma IdsAppend(a: seq<Todo>, b: seq<Todo>)
    ensures Ids(a + b) == Ids(a) + Ids(b)
  {
    forall x | x in Ids(a + b) ensures x in Ids(a) + Ids(b) {
      var t :| t in a + b && t.id == x;
    }
    forall x | x in Ids(a) + Ids(b) ensures x in Ids(a + b) {
      if x in Ids(a) {
        var t :| t in a && t.id == x;
        assert t in a + b;
      } else {
        var t :| t in b && t.id == x;
        assert t in a + b;
      }
    }
  }

  /** `s.find(t => t.id === id)`, which is also `s.filter(t => t.id === id)[0]`:
      the first record with the identifier, or nothing. */
  function Find(s: seq<Todo>, id: nat): (r: Option<Todo>)
    ensures r.Some? ==> r.value in s && r.value.id == id
    ensures r.None? ==> forall t :: t in s ==> t.id != id
    ensures r.Some? <==> id in Ids(s)
    ensures r.Some? ==> exists j :: 0 <= j < |s| && s[j] == r.value && forall k :: 0 <= k < j ==> s[k].id != id
  {
    if s == [] then None
    else if s[0].id == id then Some(s[0])
    else
      var r := Find(s[1..], id);
      assert r.Some? ==> exists j :: 0 <= j < |s| && s[j] == r.value && forall k :: 0 <= k < j ==> s[k].id != id by {
        if r.Some? {
          var j :| 0 <= j < |s[1..]| && s[1..][j] == r.value && forall k :: 0 <= k < j ==> s[1..][k].id != id;
          assert s[j + 1] == r.value;
          forall k | 0 <= k < j + 1 ensures s[k].id != id {
            if k > 0 { assert s[k] == s[1..][k - 1]; }
          }
        }
      }
      r
  }

  /** `s.filter(t => t.id != id)`: every other record, in the original order. */
  function Without(s: seq<Todo>, id: nat): (r: seq<Todo>)
    ensures |r| <= |s|
  {
    if s == [] then []
    else if s[0].id == id then Without(s[1..], id)
    else [s[0]] + Without(s[1..], id)
  }

  /** The filter keeps exactly the records whose identifier differs. */
  lemma {:induction false} WithoutMembers(s: seq<Todo>, id: nat)
    ensures forall t :: t in Without(s, id) <==> t in s && t.id != id
  {
    if s != [] {
      WithoutMembers(s[1..], id);
      assert s == [s[0]] + s[1..];
    }
  }

  /** Filtering removes exactly the identifier from the set of identifiers. */
  lemma IdsWithout(s: seq<Todo>, id: nat)
    ensures Ids(Without(s, id)) == Ids(s) - {id}
  {
    var r := Without(s, id);
    WithoutMembers(s, id);
    forall x | x in Ids(s) - {id} ensures x in Ids(r) {
      var t :| t in s && t.id == x;
      assert t in r;
    }
  }

  /** In a list without repeated identifiers, the lookup finds the one record
      that carries the identifier. */
  lemma {:induction false} FindUnique(s: seq<Todo>, i: nat)
    requires UniqueIds(s) && i < |s|
    ensures Find(s, s[i].id) == Some(s[i])
  {
    if i > 0 {
      UniqueTail(s);
      assert s[1..][i - 1] == s[i];
      FindUnique(s[1..], i - 1);
    }
  }

  /** Filtering out an identifier that does not occur changes nothing. */
  lemma {:induction false} WithoutAbsent(s: seq<Todo>, id: nat)
    requires id !in Ids(s)
    ensures Without(s, id) == s
  {
    if s != [] {
      assert s[0] in s;
      assert id !in Ids(s[1..]) by {
        forall t | t in s[1..] ensures t.id != id {
          assert t in s;
        }
      }
      WithoutAbsent(s[1..], id);
    }
  }

  /** Dropping the first record keeps the identifiers distinct, and the first
      identifier does not occur again. */
  lemma UniqueTail(s: seq<Todo>)
    requires UniqueIds(s) && s != []
    ensures UniqueIds(s[1..]) && s[0].id !in Ids(s[1..])
  {
    var tail := s[1..];
    forall a, b | 0 <= a < b < |tail| ensures tail[a].id != tail[b].id {
      assert tail[a] == s[a + 1] && tail[b] == s[b + 1];
    }
    forall t | t in tail ensures t.id != s[0].id {
      var k :| 0 <= k < |tail| && tail[k] == t;
      assert tail[k] == s[k + 1];
    }
  }

  /** In a list without repeated identifiers, filtering out the identifier of
      the record at index `i` removes exactly that record; the records before
      and after it keep their order. */
  lemma {:induction false} WithoutAt(s: seq<Todo>, i: nat)
    requires UniqueIds(s) && i < |s|
    ensures Without(s, s[i].id) == s[..i] + s[i + 1..]
  {
    UniqueTail(s);
    var tail := s[1..];
    if i == 0 {
      WithoutAbsent(tail, s[0].id);
    } else {
      assert s[0].id != s[i].id;
      assert tail[i - 1] == s[i];
      WithoutAt(tail, i - 1);
      assert Without(s, s[i].id) == [s[0]] + (tail[..i - 1] + tail[i..]);
      assert s[..i] + s[i + 1..] == [s[0]] + (tail[..i - 1] + tail[i..]);
    }
  }

  /** Removing the record of an identifier that occurs once shortens the list
      by exactly one. */
  lemma RemoveOneLength(s: seq<Todo>, id: nat)
    requires UniqueIds(s) && id in Ids(s)
    ensures |Without(s, id)| == |s| - 1
  {
    var t :| t in s && t.id == id;
    var i :| 0 <= i < |s| && s[i] == t;
    WithoutAt(s, i);
  }

  /** Putting a record whose identifier is new in front keeps the
      identifiers distinct. */
  lemma UniqueCons(t: Todo, s: seq<Todo>)
    requires UniqueIds(s) && t.id !in Ids(s)
    ensures UniqueIds([t] + s)
  {
    var r := [t] + s;
    forall i, j | 0 <= i < j < |r| ensures r[i].id != r[j].id {
      assert r[j] == s[j - 1];
      if i == 0 {
        assert s[j - 1] in s;
      } else {
        assert r[i] == s[i - 1];
      }
    }
  }

  /** Filtering keeps the identifiers of a list distinct. */
  lemma {:induction false} WithoutKeepsUnique(s: seq<Todo>, id: nat)
    requires UniqueIds(s)
    ensures UniqueIds(Without(s, id))
  {
    if s != [] {
      UniqueTail(s);
      WithoutKeepsUnique(s[1..], id);
      if s[0].id != id {
        IdsWithout(s[1..], id);
        UniqueCons(s[0], Without(s[1..], id));
      }
    }
  }

  /** A record with its completion flag cleared: the four fields that no
      handler ever rewrites. */
  function Payload(t: Todo): Todo
  {
    t.(done := false)
  }

  /** The multiset of payloads of a list. */
  function Payloads(s: seq<Todo>): multiset<Todo>
  {
    if s == [] then multiset{} else multiset{Payload(s[0])} + Payloads(s[1..])
  }

  lemma {:induction false} PayloadsAppend(a: seq<Todo>, b: seq<Todo>)
    ensures Payloads(a + b) == Payloads(a) + Payloads(b)
  {
    if a == [] {
      assert a + b == b;
    } else {
      assert (a + b)[1..] == a[1..] + b;
      PayloadsAppend(a[1..], b);
    }
  }
}
