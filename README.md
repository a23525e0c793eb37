# To-do list store of `App`

A verified model of the state logic in the `App` component (`src/App.jsx`). The
component keeps two pieces of state. `todos` is an ordered list of records
`{ id, text, completed }`. `newTodo` is the text in the input field. Five
handlers change that state:

- `addTodo` ignores blank input. Otherwise it appends an open record that holds
  the untrimmed input text, then clears the input.
- `toggleComplete(id)` maps over the list and flips `completed` on every record
  with that id.
- `deleteTodo(id)` filters out every record with that id.
- `handleInputChange` copies the input field's value into `newTodo`.
- `handleKeyDown` runs `addTodo` on the Enter key and does nothing for any other key.

The model has three modules:

- `Whitespace` (`trim.dfy`) models the blank test `newTodo.trim() === ''`. It defines
  ECMAScript's whitespace and `trim`, and proves that the test holds exactly
  when every character is whitespace.
- `Todos` (`todos.dfy`) holds the record datatype and the three list transforms
  as functions over `seq<Todo>`: the spread-append, the `map` and the `filter`.
  Lemmas about them cover order, involution, no-op cases and distinct ids.
- `App` (`app.dfy`) is a class `TodoApp` with the fields `todos` and `newTodo`.
  It has one method per handler. Each method's postcondition gives the whole
  new state in terms of the old one. `Valid()` is the invariant that ids are
  distinct, which React relies on through `key={todo.id}`.

The random id from `uuidv4()` becomes a parameter `id`. The event objects
become their fields: `e.target.value` becomes `value` and `e.key` becomes `key`.
The list read from local storage becomes the constructor's parameter `saved`.

`toggleComplete` and `deleteTodo` act on every record whose id matches. When
ids are distinct that is exactly one record, as `Todos.ToggledAt` and
`Todos.FilteredAt` prove.

## Model

| member | source | states |
|---|---|---|
| `Whitespace.LeadingWhitespace` | src/App.jsx:18 | the length of the longest all-whitespace prefix: it is all whitespace, and the next character is not |
| `Whitespace.TrailingWhitespace` | src/App.jsx:18 | the length of the longest all-whitespace suffix: it is all whitespace, and the character before it is not |
| `Whitespace.Trim` | src/App.jsx:18 | `trim()` returns the infix of the input between its leading and its trailing whitespace; everything cut away is whitespace, and the result neither starts nor ends with whitespace |
| `Whitespace.TrimEmptyIffAllWhitespace` | src/App.jsx:18 | `s.trim() === ''` holds if and only if every character of `s` is whitespace |
| `Whitespace.TrimIdempotent` | src/App.jsx:18 | trimming an already trimmed string changes nothing |
| `Whitespace.IsBlank` | src/App.jsx:18 | the blank test `trim() === ''` is true exactly for all-whitespace input, including the empty string |
| `Todos.AppendDistinctIff` | src/App.jsx:19-24 | appending a record to a list leaves the ids distinct if and only if they were distinct before and the new id is not already present |
| `Todos.Toggled` | src/App.jsx:29-33 | the mapped list has the same length, the same id and text at every position, and `completed` flipped exactly at the positions whose id matches |
| `Todos.ToggledKeepsOthers` | src/App.jsx:31 | a record whose id differs from the toggled id is left identical |
| `Todos.ToggledTwice` | src/App.jsx:30-31 | toggling the same id twice gives back the original list |
| `Todos.ToggledAbsent` | src/App.jsx:30-31 | toggling an id that no record has leaves the list unchanged |
| `Todos.ToggledAt` | src/App.jsx:29-33 | when ids are distinct and the record at position k has the id, the toggle changes only that record's `completed` |
| `Todos.ToggledDistinctIff` | src/App.jsx:30-31 | after a toggle the ids are distinct if and only if they were distinct before |
| `Todos.Filtered` | src/App.jsx:37 | the filtered list is never longer than the original |
| `Todos.FilteredMembers` | src/App.jsx:37 | a record is in the result if and only if it was in the list and its id is not the deleted one |
| `Todos.KeptIndices` | src/App.jsx:37 | the positions that the filter keeps: strictly increasing, each within the list, each holding a record whose id differs, and including every such position |
| `Todos.FilteredSelects` | src/App.jsx:37 | the result is the subsequence of the list at exactly those positions, so the kept records stay in their original relative order |
| `Todos.FilteredConcat` | src/App.jsx:37 | filtering a concatenation gives the concatenation of the filtered halves |
| `Todos.FilteredAbsent` | src/App.jsx:37 | deleting an id that no record has leaves the list unchanged |
| `Todos.FilteredRemovesId` | src/App.jsx:37 | no record with the deleted id remains, and every record with another id is kept |
| `Todos.FilteredAt` | src/App.jsx:37 | when ids are distinct and position k has the id, the delete removes exactly that record, so the list is one shorter |
| `Todos.FilteredKeepsDistinct` | src/App.jsx:37 | deleting keeps the ids distinct |
| `Todos.FilteredIdempotent` | src/App.jsx:37 | deleting the same id twice gives the same list as deleting it once |
| `App.TodoApp.constructor` | src/App.jsx:7-11 | the component starts with the stored list and an empty input, and it is valid when the stored ids are distinct |
| `App.TodoApp.AddTodo` | src/App.jsx:17-26 | for all-whitespace input neither field changes; otherwise exactly one record is appended at the end, holding the input as it was (untrimmed) with `completed` false, the earlier records are kept in order, and the input becomes empty; a fresh id keeps the ids distinct |
| `App.TodoApp.ToggleComplete` | src/App.jsx:28-34 | the new list is the mapped list, with the same length and every record with another id unchanged; the input is kept; the ids-distinct invariant holds afterwards if and only if it held before |
| `App.TodoApp.DeleteTodo` | src/App.jsx:36-38 | the new list is the filtered list and no record with the id remains; the input is kept; the ids-distinct invariant is preserved |
| `App.TodoApp.HandleInputChange` | src/App.jsx:40-42 | the input becomes the given value and the list is unchanged |
| `App.TodoApp.HandleKeyDown` | src/App.jsx:44-48 | on Enter it has exactly the effect of `AddTodo`, and any other key changes nothing |

`App.BuyMilk` is a short session on an empty list: it types "buy milk" and
presses Enter twice. It asserts, and the verifier proves, that the list then
holds one open record, the input is empty, and no second record was added.

## Left out

- Rendering: the JSX, the CSS classes, the framer-motion animations and the react-icons (src/App.jsx:50-101). They are presentation only.
- Local storage (src/App.jsx:8-9, src/App.jsx:13-15): the read at start-up, the write after every change, and `JSON.parse`/`JSON.stringify`. These are browser I/O and foreign serialisers. The constructor takes the list that was read back, and the write is not modelled. So the round trip between the stored and the in-memory list is not modelled either.
- The `JSON.parse` at src/App.jsx:9 is not guarded. Malformed stored data makes it throw at start-up instead of falling back to an empty list. The model does not include this defect.
- `uuidv4()` (src/App.jsx:20) is a foreign random generator. The caller passes the id instead. The fact that a fresh id preserves distinct ids is stated under the hypothesis `!HasId(old(todos), id)`. The claim that two records added in a row never get the same id rests on uuid randomness and is not modelled.
- React's hook scheduling is not modelled: batched `setState` calls, and handlers that read a stale `todos` from their closure. Each handler is one atomic transition of the class fields.
- Strings: JavaScript strings are UTF-16 code units, while Dafny's `string` is a sequence of Unicode scalar values. Lone surrogates cannot be represented here. All of ECMAScript's whitespace lies in the Basic Multilingual Plane, so the blank test gives the same answer on every string that can be represented.
- `Whitespace.IsWhitespace` fixes the space separators (Zs) of current Unicode versions. An engine built on another Unicode version may classify a few code points differently.
