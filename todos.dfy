/**
 * The to-do records of `App` and the three list transforms its handlers apply
 * to them: the spread-append of `addTodo`, the `map` of `toggleComplete` and
 * the `filter` of `deleteTodo`.
 */
module Todos {

  /** Ids are the strings `uuidv4()` produces; the model never inspects them. */
  type Id = string

  /** One to-do record `{ id, text, completed }`. */
  datatype Todo = Todo(id: Id, text: string, completed: bool)

  /** Some record of `todos` has the id `id`. */
  ghost predicate HasId(todos: seq<Todo>, id: Id) {
    exists i :: 0 <= i < |todos| && todos[i].id == id
  }

  /** No two records share an id, as React's `key={todo.id}` expects. */
  ghost predicate DistinctIds(todos: seq<Todo>) {
    forall i, j :: 0 <= i < j < |todos| ==> todos[i].id != todos[j].id
  }

  // ---------------------------------------------------------------------------
  // addTodo appends the new record at the end of the list (src/App.jsx:24)
  // ---------------------------------------------------------------------------

  /** Appending a record keeps the ids distinct exactly when the list had
      distinct ids and the new id is not in it. */
  lemma AppendDistinctIff(todos: seq<Todo>, t: Todo)
    ensures DistinctIds(todos + [t]) <==> DistinctIds(todos) && !HasId(todos, t.id)
  {
    var s := todos + [t];
    if DistinctIds(s) {
      forall i | 0 <= i < |todos| ensures todos[i].id != t.id {
        assert s[i] == todos[i] && s[|todos|] == t;
      }
      forall i, j | 0 <= i < j < |todos| ensures todos[i].id != todos[j].id {
        assert s[i] == todos[i] && s[j] == todos[j];
      }
    }
  }

  // ---------------------------------------------------------------------------
  // toggleComplete maps over the list, flipping `completed` where the id
  // matches (src/App.jsx:30-32)
  // ---------------------------------------------------------------------------

  /** The list `toggleComplete(id)` installs: same length, same ids and texts
      position by position, and `completed` flipped exactly where the id
      matches. */
  function Toggled(todos: seq<Todo>, id: Id): (r: seq<Todo>)
    ensures |r| == |todos|
    ensures forall i :: 0 <= i < |todos| ==> r[i].id == todos[i].id && r[i].text == todos[i].text
    ensures forall i :: 0 <= i < |todos| ==> r[i].completed == (todos[i].completed != (todos[i].id == id))
  {
    if todos == [] then []
    else
      var t := todos[0];
      [if t.id == id then t.(completed := !t.completed) else t] + Toggled(todos[1..], id)
  }

  /** Records whose id differs are left identical. */
  lemma ToggledKeepsOthers(todos: seq<Todo>, id: Id, i: int)
    requires 0 <= i < |todos| && todos[i].id != id
    ensures Toggled(todos, id)[i] == todos[i]
  {
  }

  /** Toggling the same id twice gives back the original list. */
  lemma ToggledTwice(todos: seq<Todo>, id: Id)
    ensures Toggled(Toggled(todos, id), id) == todos
  {
  }

  /** Toggling an id that no record carries changes nothing. */
  lemma ToggledAbsent(todos: seq<Todo>, id: Id)
    requires !HasId(todos, id)
    ensures Toggled(todos, id) == todos
  {
  }

  /** With distinct ids, toggling a present id flips that one record. */
  lemma ToggledAt(todos: seq<Todo>, id: Id, k: int)
    requires DistinctIds(todos)
    requires 0 <= k < |todos| && todos[k].id == id
    ensures Toggled(todos, id) == todos[k := todos[k].(completed := !todos[k].completed)]
  {
  }

  /** Toggling keeps the ids distinct, and cannot make them distinct. */
  lemma ToggledDistinctIff(todos: seq<Todo>, id: Id)
    ensures DistinctIds(Toggled(todos, id)) <==> DistinctIds(todos)
  {
  }

  // ---------------------------------------------------------------------------
  // deleteTodo keeps the records whose id differs (src/App.jsx:37)
  // ---------------------------------------------------------------------------

  /** The list `deleteTodo(id)` installs: the records whose id is not `id`. */
  function Filtered(todos: seq<Todo>, id: Id): (r: seq<Todo>)
    ensures |r| <= |todos|
  {
    if todos == [] then []
    else
      var n := |todos| - 1;
      Filtered(todos[..n], id) + (if todos[n].id != id then [todos[n]] else [])
  }

  /** A record survives the deletion exactly when it was in the list and its
      id is not the deleted one. */
  lemma {:induction false} FilteredMembers(todos: seq<Todo>, id: Id, t: Todo)
    ensures t in Filtered(todos, id) <==> t in todos && t.id != id
  {
    if todos != [] {
      var n := |todos| - 1;
      FilteredMembers(todos[..n], id, t);
      assert todos == todos[..n] + [todos[n]];
    }
  }

  /** The positions of `todos` whose record `filter` keeps, in increasing
      order: a reference for which records survive and in what order. */
  function KeptIndices(todos: seq<Todo>, id: Id): (r: seq<nat>)
    ensures forall k :: 0 <= k < |r| ==> r[k] < |todos| && todos[r[k]].id != id
    ensures forall a, b :: 0 <= a < b < |r| ==> r[a] < r[b]
    ensures forall j :: 0 <= j < |todos| && todos[j].id != id ==> j in r
  {
    if todos == [] then []
    else
      var n := |todos| - 1;
      KeptIndices(todos[..n], id) + (if todos[n].id != id then [n] else [])
  }

  /** `Filtered` selects exactly the kept positions, in their original order:
      it is the subsequence of `todos` at `KeptIndices(todos, id)`. */
  lemma {:induction false} FilteredSelects(todos: seq<Todo>, id: Id)
    ensures |Filtered(todos, id)| == |KeptIndices(todos, id)|
    ensures forall k :: 0 <= k < |Filtered(todos, id)| ==>
              Filtered(todos, id)[k] == todos[KeptIndices(todos, id)[k]]
  {
    if todos != [] {
      var n := |todos| - 1;
      FilteredSelects(todos[..n], id);
    }
  }

  /** `filter` distributes over concatenation. */
  lemma {:induction false} FilteredConcat(a: seq<Todo>, b: seq<Todo>, id: Id)
    ensures Filtered(a + b, id) == Filtered(a, id) + Filtered(b, id)
  {
    if b == [] {
      assert a + b == a;
    } else {
      var n := |b| - 1;
      assert (a + b)[..|a + b| - 1] == a + b[..n];
      assert (a + b)[|a + b| - 1] == b[n];
      FilteredConcat(a, b[..n], id);
    }
  }

  /** Deleting an id that no record carries changes nothing. */
  lemma {:induction false} FilteredAbsent(todos: seq<Todo>, id: Id)
    requires !HasId(todos, id)
    ensures Filtered(todos, id) == todos
  {
    if todos != [] {
      var n := |todos| - 1;
      assert !HasId(todos[..n], id) by {
        forall i | 0 <= i < n ensures todos[..n][i].id != id {
          assert todos[..n][i] == todos[i];
        }
      }
      FilteredAbsent(todos[..n], id);
      assert todos == todos[..n] + [todos[n]];
    }
  }

  /** No record with the deleted id remains, and the rest are all kept. */
  lemma FilteredRemovesId(todos: seq<Todo>, id: Id)
    ensures !HasId(Filtered(todos, id), id)
    ensures forall i :: 0 <= i < |todos| && todos[i].id != id ==> todos[i] in Filtered(todos, id)
  {
  }

  /** With distinct ids, deleting a present id removes exactly that one
      record and keeps the others in order. */
  lemma FilteredAt(todos: seq<Todo>, id: Id, k: int)
    requires DistinctIds(todos)
    requires 0 <= k < |todos| && todos[k].id == id
    ensures Filtered(todos, id) == todos[..k] + todos[k + 1..]
    ensures |Filtered(todos, id)| == |todos| - 1
  {
    var before, after := todos[..k], todos[k + 1..];
    assert todos == before + [todos[k]] + after;
    assert !HasId(before, id) by {
      forall i | 0 <= i < |before| ensures before[i].id != id {
        assert before[i] == todos[i];
      }
    }
    assert !HasId(after, id) by {
      forall i | 0 <= i < |after| ensures after[i].id != id {
        assert after[i] == todos[k + 1 + i];
      }
    }
    FilteredConcat(before + [todos[k]], after, id);
    FilteredConcat(before, [todos[k]], id);
    assert Filtered([todos[k]], id) == [] by {
      assert [todos[k]][..0] == [];
    }
    FilteredAbsent(before, id);
    FilteredAbsent(after, id);
  }

  /** Deleting keeps the ids distinct. */
  lemma FilteredKeepsDistinct(todos: seq<Todo>, id: Id)
    requires DistinctIds(todos)
    ensures DistinctIds(Filtered(todos, id))
  {
    var r, ks := Filtered(todos, id), KeptIndices(todos, id);
    FilteredSelects(todos, id);
    forall a, b | 0 <= a < b < |r| ensures r[a].id != r[b].id {
      assert r[a] == todos[ks[a]] && r[b] == todos[ks[b]];
      assert ks[a] < ks[b];
    }
  }

  /** Deleting the same id twice is the same as deleting it once. */
  lemma FilteredIdempotent(todos: seq<Todo>, id: Id)
    ensures Filtered(Filtered(todos, id), id) == Filtered(todos, id)
  {
    FilteredRemovesId(todos, id);
    FilteredAbsent(Filtered(todos, id), id);
  }
}
