# To-do list store

A model of the state held by the `useTodos` hook of a single-page to-do list
application. The state is an ordered list of items, each carrying an
identifier, a text and a completion flag. The hook offers four transitions:

- add an item, silently ignoring an empty text;
- delete by identifier;
- toggle completion by identifier;
- reset to a fixed three-item seed list.

The view shows a "Todos Left" count: the number of items not yet completed.

The model is functional. The list is a `seq<Todo>` of immutable records and
each transition is a pure function. Identifiers come from the browser's UUID
generator in the application. Here they are parameters, and every property
that needs a fresh identifier states that freshness as a hypothesis.

- `todos.dfy` (module `Todos`): the item record, the four transitions, the
  seed list and the count. Each carries the contract that describes it.
- `todo_properties.dfy` (module `TodoProperties`): lemmas that relate several
  calls. They cover distribution over concatenation, exact effects when
  identifiers are unique, multiplicities, count deltas, involution and
  idempotence.
- `store.dfy` (module `Store`): the transitions as a sequence of user actions.
  It proves that unique identifiers and non-empty texts are kept across any
  run whose identifiers are fresh.

Three behaviours of the code that the model keeps as they are:

- Deleting removes every item with the given identifier, because
  `deleteTodo` is a filter (src/App.tsx:55).
- A malformed storage slot makes `JSON.parse` throw (src/App.tsx:36). Only a
  missing or empty slot yields the seed list.
- Nothing checks the texts or identifiers of loaded items. "Unique ids, no
  empty text" is therefore an invariant of the transitions, not of loading.

## Model

| member | source | states |
|---|---|---|
| `Todos.AddTodo` | src/App.tsx:47-52 | An empty text leaves the list exactly as it was. A non-empty text makes the list one longer with the old items untouched as a prefix. The new last item carries the given id and text and is not completed. Unique ids stay unique when the new id is fresh. |
| `Todos.DeleteTodo` | src/App.tsx:54-55 | An item is in the result iff it was in the list and its id differs from the one given. The result is a subsequence of the list, so relative order is kept, and it is never longer. An absent id leaves the list unchanged. Unique ids stay unique. How often each item is kept is stated by `TodoProperties.DeleteTodoMultiset`. |
| `Todos.CompleteTodo` | src/App.tsx:57-62 | The length, and the id and text at every position, are unchanged. Items with the given id have their flag flipped. Every other item is identical. An absent id leaves the list unchanged. |
| `Todos.Incomplete` | src/App.tsx:83 | An item is kept iff it is in the list and not completed. Order is kept and the result is never longer than the list. |
| `Todos.TodosLeft` | src/App.tsx:83 | The count is at most the list length. It is zero iff every item is completed. |
| `Todos.DefaultTodos` | src/App.tsx:14-32 | Exactly three items: "Learn JSX", "Master State" and "Check of boxes", in that order. None is completed, and they carry the three given ids. Their ids are unique iff the three given ids differ pairwise. |
| `Todos.ResetTodos` | src/App.tsx:43-45 | The result does not depend on the current list: it is the seed list, so its contents are those stated by `Todos.DefaultTodos`. Its count is 3. When the three new ids are not in the old list, no id of the result was present before the reset. |
| `TodoProperties.DeleteTodoConcat` | src/App.tsx:54-55 | Deleting from a concatenation equals deleting from each part and concatenating. |
| `TodoProperties.CompleteTodoConcat` | src/App.tsx:57-62 | Toggling by id distributes over concatenation. |
| `TodoProperties.IncompleteConcat` | src/App.tsx:83 | Selecting the incomplete items distributes over concatenation. |
| `TodoProperties.TodosLeftConcat` | src/App.tsx:83 | The count of a concatenation is the sum of the counts. |
| `TodoProperties.TodosLeftAround` | src/App.tsx:83 | The count of `pre + [t] + post` is the count of `pre` plus the count of `post`, plus one if `t` is open. |
| `TodoProperties.TodosLeftCountsIncomplete` | src/App.tsx:83 | The count equals the number of positions that hold an item with `completed == false`. |
| `TodoProperties.IncompleteIndicesSnoc` | src/App.tsx:83 | Appending an item adds its position to the open positions iff the item is not completed. |
| `TodoProperties.IncompleteMultiset` | src/App.tsx:83 | A completed item occurs zero times among the open items. Every open item occurs exactly as often as in the list. |
| `TodoProperties.AddTodoCount` | src/App.tsx:47-52 | Adding a non-empty text raises the count by one. Adding an empty text leaves it unchanged. |
| `TodoProperties.DeleteTodoRemovesOne` | src/App.tsx:54-55 | With unique ids, deleting the id at position i gives exactly the list without position i, so the length drops by exactly one. |
| `TodoProperties.DeleteTodoCount` | src/App.tsx:54-55 | With unique ids, deleting a present id lowers the count by one if that item was open, and by zero otherwise. |
| `TodoProperties.DeleteTodoMultiset` | src/App.tsx:54-55 | An item whose id is the deleted one occurs zero times in the result. Every other item occurs exactly as often as in the list, so repeated items are all kept. |
| `TodoProperties.DeleteTodoIdempotent` | src/App.tsx:54-55 | Deleting the same id twice gives the same result as deleting it once. |
| `TodoProperties.CompleteTodoInvolution` | src/App.tsx:57-62 | Toggling the same id twice restores the original list. |
| `TodoProperties.CompleteTodoTogglesOne` | src/App.tsx:57-62 | With unique ids, toggling the id at position i changes only position i, to the same item with its flag flipped. |
| `TodoProperties.CompleteTodoCount` | src/App.tsx:57-62 | With unique ids, toggling a present id moves the count by exactly one: up if the item was completed, down if it was open. |
| `Store.Apply` | src/App.tsx:43-62 | Every transition keeps the list well formed (unique ids, no empty text) when the ids it brings in are fresh. After a reset the list is well formed iff the three seed ids differ. |
| `Store.Run` | src/App.tsx:43-62 | Any sequence of actions with fresh ids keeps the list well formed. A run that ends in a reset leaves three open items. |

## Left out

- Loading from and saving to local storage, with `JSON.parse` and `JSON.stringify` (src/App.tsx:34-41), is browser I/O plus foreign calls. So the persistence round trip is not modelled, and neither is the throw on a malformed slot.
- The shape of parsed data is not validated (src/App.tsx:36). Loaded items may therefore break the unique-id or non-empty-text invariant. The model's invariant covers only the transitions.
- `crypto.randomUUID` (src/App.tsx:11) is a foreign random generator. Its results are parameters, and the freshness it gives in practice appears as hypotheses.
- React scheduling (`useState` updater functions, `useEffect`) is framework plumbing. Each transition is modelled as applied to the latest list.
- JSX rendering, `Form`, `ToDoListItem`, the icon and the styling are presentation.
- The `required` attribute on the text input (src/App.tsx:131) is browser validation in front of `addTodo`. It is not logic of the store.
