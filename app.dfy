/**
 * The state of the `App` component and its event handlers. The two `useState`
 * slots become the fields `todos` and `newTodo`; each handler is one atomic
 * transition that reassigns them, as `setTodos` and `setNewTodo` do.
 */
module App {
  import opened Whitespace
  import opened Todos

  class TodoApp {
    /** The `todos` state: the list shown, in display order. */
    var todos: seq<Todo>
    /** The `newTodo` state: the text in the input field. */
    var newTodo: string

    /** The invariant the list keys depend on. */
    ghost predicate Valid()
      reads this
    {
      DistinctIds(todos)
    }

    /** The component's first render: `todos` starts as the list read back
        from storage (the empty list when nothing was stored) and the input
        field starts empty. */
    constructor (saved: seq<Todo>)
      ensures todos == saved && newTodo == ""
      ensures DistinctIds(saved) ==> Valid()
    {
      todos := saved;
      newTodo := "";
    }

    /** `addTodo`, with `id` standing for the value `uuidv4()` returns. Blank
        input changes nothing; otherwise one record with the untrimmed text
        and `completed == false` is appended and the input is cleared. A fresh
        id keeps the ids distinct. */
    method AddTodo(id: Id)
      modifies this
      ensures AllWhitespace(old(newTodo)) ==> todos == old(todos) && newTodo == old(newTodo)
      ensures !AllWhitespace(old(newTodo)) ==>
                todos == old(todos) + [Todo(id, old(newTodo), false)] && newTodo == ""
      ensures old(Valid()) && !HasId(old(todos), id) ==> Valid()
    {
      if IsBlank(newTodo) {
        return;
      }
      var item := Todo(id, newTodo, false);
      AppendDistinctIff(todos, item);
      todos := todos + [item];
      newTodo := "";
    }

    /** `toggleComplete(id)`: flips `completed` on the records with that id;
        lengths, ids, texts and the pending input are kept. */
    method ToggleComplete(id: Id)
      modifies this
      ensures todos == Toggled(old(todos), id) && newTodo == old(newTodo)
      ensures |todos| == |old(todos)|
      ensures forall i :: 0 <= i < |todos| && old(todos)[i].id != id ==> todos[i] == old(todos)[i]
      ensures Valid() <==> old(Valid())
    {
      ToggledDistinctIff(todos, id);
      todos := Toggled(todos, id);
    }

    /** `deleteTodo(id)`: keeps the records whose id is not `id`, in their
        order, and leaves the pending input alone. */
    method DeleteTodo(id: Id)
      modifies this
      ensures todos == Filtered(old(todos), id) && newTodo == old(newTodo)
      ensures !HasId(todos, id)
      ensures old(Valid()) ==> Valid()
    {
      FilteredRemovesId(todos, id);
      if Valid() {
        FilteredKeepsDistinct(todos, id);
      }
      todos := Filtered(todos, id);
    }

    /** `handleInputChange`, with `value` standing for `e.target.value`. */
    method HandleInputChange(value: string)
      modifies this
      ensures newTodo == value && todos == old(todos)
    {
      newTodo := value;
    }

    /** `handleKeyDown`, with `key` standing for `e.key`: the Enter key runs
        `addTodo`, any other key changes nothing. */
    method HandleKeyDown(key: string, id: Id)
      modifies this
      ensures key != "Enter" ==> todos == old(todos) && newTodo == old(newTodo)
      ensures key == "Enter" && AllWhitespace(old(newTodo)) ==>
                todos == old(todos) && newTodo == old(newTodo)
      ensures key == "Enter" && !AllWhitespace(old(newTodo)) ==>
                todos == old(todos) + [Todo(id, old(newTodo), false)] && newTodo == ""
      ensures old(Valid()) && !HasId(old(todos), id) ==> Valid()
    {
      if key == "Enter" {
        AddTodo(id);
      }
    }
  }

  /** Typing "buy milk" and pressing Enter on an empty list gives a list of
      one open record with that text; a second Enter adds nothing, because the
      input was cleared. */
  method BuyMilk()
  {
    var app := new TodoApp([]);
    app.HandleInputChange("buy milk");
    assert !IsWhitespace("buy milk"[0]);
    app.HandleKeyDown("Enter", "id-1");
    assert app.todos == [Todo("id-1", "buy milk", false)];
    assert app.newTodo == "";
    app.HandleKeyDown("Enter", "id-2");
    assert app.todos == [Todo("id-1", "buy milk", false)];
    assert app.Valid();
  }
}
