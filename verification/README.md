# To-do app core, modelled in Dafny

A model of the logic of a small Next.js to-do application. The model covers four parts:

- the home page's in-memory collection of to-do items, with its three handlers (`addTodo`, `toggleTodo`, `deleteTodo`) and the "completed / total" counter in its header;
- the add form's submit guard, which trims the input and hands it to `onAdd` only if something is left;
- the item row's edit dialog and its confirm guard, which decides whether `onEdit` is called;
- the `GET` and `POST` handlers of the `/api/todos` route, which validate the request body and map store outcomes to HTTP status codes.

Everything is written as pure functions over immutable values. Side-effecting inputs are parameters:

- the page's item id, which the source builds from `Date.now()` and `Math.random()`, and its timestamp, which comes from `new Date()`;
- the parsed request body (`None` when `request.json()` throws);
- the store's `create` and `findMany`, each a function that returns either its answer or the error it threw.

JavaScript's `String.prototype.trim` is `JsString.Trim`. It cuts the maximal prefix and the maximal suffix of the WhiteSpace and LineTerminator characters of ECMA-262 (sections 12.2 and 12.3). `JsString.IsTrimAt` defines that cut independently, and `JsString.TrimMatchesReference` proves that `Trim` always returns it.

Files:

- `wrappers.dfy` — `Option` and `Result`.
- `js_string.dfy` — `trim`.
- `page.dfy` — the collection, its handlers, the counter, and the page as actions on one state.
- `add_todo_form.dfy` — the submit guard.
- `todo_item.dfy` — the edit dialog.
- `todos_route.dfy` — `GET`/`POST` of the API.

Behaviours of the code worth knowing:

- An edit compares the *untrimmed* field with the current text, so `" a "` against `"a"` commits `"a"` (`TodoItem.CommitMayRepeatCurrentText`).
- `POST` answers 400 for an empty `text`, because it tests truthiness, and 500 for a JSON `null` body, because destructuring `null` throws.
- The page's items have no `updatedAt`; only the API's `Record` has one.

## Model

| member | source | states |
|---|---|---|
| JsString.Trim | src/app/components/AddTodoForm.tsx:16-17 | `trim()` returns the text of its argument between a maximal whitespace prefix and a maximal whitespace suffix |
| JsString.TrimMatchesReference | src/app/components/AddTodoForm.tsx:16-17 | any cut of maximal whitespace ends from `s` is exactly `Trim(s)`, so `trim` is characterised independently of its computation |
| JsString.TrimEmptyIff | src/app/components/AddTodoForm.tsx:16 | `trim()` is empty (falsy) exactly when every character is whitespace |
| JsString.TrimIdempotent | src/app/components/TodoItem.tsx:35-36 | trimming a trimmed string changes nothing |
| JsString.TrimOfTrimmed | src/app/components/AddTodoForm.tsx:16-17 | a string with no whitespace at either end is its own trim |
| JsString.TrimIsTrimmed | src/app/components/AddTodoForm.tsx:17 | the result of `trim()` has no whitespace at either end |
| Page.AddTodo | src/app/page.tsx:37-45 | the new item sits at index 0 with the given id, the text exactly as passed, `completed` false and the given timestamp; the old list follows unchanged, so the length grows by one |
| Page.ToggleTodo | src/app/page.tsx:47-53 | length and order are kept; at each position id, text and timestamp are unchanged, and `completed` is negated exactly where the id matches |
| Page.DeleteTodo | src/app/page.tsx:55-57 | no item with the id remains; an item is kept iff it was present and has another id; the result is an order-preserving subsequence, shorter by the number of matching items |
| Page.CompletedCount | src/app/page.tsx:59 | the count is at most the total; it is zero iff no item is completed and equals the total iff all are |
| Page.CompletedCountIsIndexCount | src/app/page.tsx:59 | the count equals the number of positions holding a completed item |
| Page.Counter | src/app/page.tsx:59-76 | the progress line is shown iff the list is non-empty, and then shows the count of completed items over the total |
| Page.ToggleTwiceRestores | src/app/page.tsx:47-53 | toggling the same id twice returns the original list |
| Page.ToggleAbsentId | src/app/page.tsx:47-53 | toggling an id no item carries changes nothing |
| Page.DeleteAbsentId | src/app/page.tsx:55-57 | deleting an id no item carries changes nothing |
| Page.DeleteIdempotent | src/app/page.tsx:55-57 | deleting the same id twice equals deleting it once |
| Page.AddThenDeleteRestores | src/app/page.tsx:37-57 | adding under an id not in the list and then deleting that id restores the original list |
| Page.AddKeepsCompletedCount | src/app/page.tsx:37-59 | adding an item leaves the completed count unchanged |
| Page.ToggleMovesCompletedCount | src/app/page.tsx:47-59 | with unique ids, toggling a present id moves the completed count by exactly one, down if the item was completed and up otherwise |
| Page.DeleteKeepsUniqueIds | src/app/page.tsx:55-57 | deleting never introduces a repeated id |
| Page.AddKeepsWellformed | src/app/page.tsx:37-45 | adding a non-empty trimmed text under a fresh id keeps ids unique and every text non-empty and trimmed |
| Page.DeleteKeepsWellformed | src/app/page.tsx:55-57 | deleting keeps ids unique and every text non-empty and trimmed |
| Page.Apply | src/app/page.tsx:37-81 | a form submit adds the trimmed input, and adds nothing for a whitespace-only input; a checkbox click toggles and a delete click deletes |
| Page.ApplyKeepsWellformed | src/app/page.tsx:37-81 | if every submit draws a fresh id, every user action keeps ids unique and every text non-empty and trimmed |
| AddTodoForm.HandleSubmit | src/app/components/AddTodoForm.tsx:14-20 | `onAdd` is called iff the input is not all whitespace; then it receives the trimmed input, which is non-empty with no surrounding whitespace, and the field is cleared; otherwise the field keeps its value |
| AddTodoForm.ResubmitAfterAddIsNoop | src/app/components/AddTodoForm.tsx:16-18 | submitting again right after a successful add calls nothing and leaves the field empty |
| AddTodoForm.TrimmedInputAddedVerbatim | src/app/components/AddTodoForm.tsx:16-17 | a non-empty input with no surrounding whitespace is added exactly as typed |
| TodoItem.Cancel | src/app/components/TodoItem.tsx:76-78 | cancel closes the dialog, calls nothing and keeps the typed text |
| TodoItem.HandleEdit | src/app/components/TodoItem.tsx:34-39 | `onEdit` is called iff a handler exists, the field is not all whitespace and the field differs from the current text; it receives the item's id and the trimmed field, which is non-empty; the dialog closes whatever the outcome |
| TodoItem.CommitMayRepeatCurrentText | src/app/components/TodoItem.tsx:35-36 | the field `" a "` against the text `"a"` commits `"a"`, the unchanged text |
| TodoItem.TrimmedCommitDiffers | src/app/components/TodoItem.tsx:35-36 | if the field has no surrounding whitespace, a committed edit differs from the current text |
| TodoItem.UntouchedFieldCommitsNothing | src/app/components/TodoItem.tsx:32-35 | confirming a field left as mounted calls nothing |
| TodosRoute.Truthy | src/app/api/todos/route.ts:28 | JavaScript truthiness: `undefined` and `null` are falsy, and a string is truthy iff it is non-empty |
| TodosRoute.TextField | src/app/api/todos/route.ts:25-26 | destructuring `text` throws exactly on a `null` body and finds a value exactly when the body is an object with that key |
| TodosRoute.HandlePost | src/app/api/todos/route.ts:23-49 | the store's create is called iff `text` is a non-empty string, and with that text unchanged; the answer is 400 iff the body is parsed, not null and invalid; 201 iff create succeeds, carrying its record; 500 on any throw |
| TodosRoute.WhitespaceTextAccepted | src/app/api/todos/route.ts:28 | a `text` of one space passes validation and reaches the store, because nothing is trimmed |
| TodosRoute.CreatedRecordKeepsText | src/app/api/todos/route.ts:35-41 | if the store keeps the text and starts items uncompleted, a 201 carries an uncompleted item with exactly the posted text |
| TodosRoute.HandleGet | src/app/api/todos/route.ts:5-20 | the store is asked for `createdAt` descending, not ascending; the answer is 200 with the store's list as-is iff the store succeeds, and 500 otherwise |
| TodosRoute.GetListsNewestFirst | src/app/api/todos/route.ts:7-12 | if the store honours the requested order, a 200 listing is newest first |

## Left out

- Loading from and saving to `localStorage` (src/app/page.tsx:17-35): this is browser I/O plus `JSON.parse`/`JSON.stringify` and `Date` parsing in the runtime.
- Generation of ids and timestamps (src/app/page.tsx:39-42): both are nondeterministic, so they are parameters of `Page.AddTodo`. Freshness is a precondition wherever a property needs it; the chance of a collision is not modelled.
- React rendering, hooks and dialog plumbing, including `TodoList.tsx`, which only renders a placeholder for an empty list and one row per item otherwise. React's batching of state updates is not modelled either; each handler is one step from the current list.
- `TodoItem` initialises its field with `useState(text)`, so the field only takes the item's text at mount. The model keeps that: `TodoItem.Mount` is the only place the field is seeded from the text.
- On this page, `TodoList` is rendered without `onEdit`, so edits never reach the list. `TodoItem.HandleEdit` takes `hasOnEdit` as a parameter, and the page's case is `false`.
- The `PUT` and `DELETE` handlers of `src/app/api/todos/[id]/route.ts` are not part of this model. The same goes for the 404 mapping of their not-found errors.
- Prisma: the database, its ordering and its persistence. The store is a function parameter that either answers or throws.
- `NextRequest`/`NextResponse` objects, `console.error` logging and the localized UI strings. The API's error messages are kept as constants.
- JSON parsing: a body that fails to parse is `None`, and an object is a `map`, so the rule that the last duplicate key wins belongs to the parser. `JNumber` holds a `real`, so -0 (from `JSON.parse("-0")`) and out-of-range literals (`1e400` parses to Infinity, `1e-400` to 0) are not represented exactly. No outcome changes: -0 is falsy like 0, and every non-string `text` takes the 400 branch whatever its truthiness.
- TodosRoute.HandleGet: it promises nothing about the order of the list. The route passes on whatever the store returns, so order is stated only under the assumption in `TodosRoute.GetListsNewestFirst`.
- Strings are sequences of Unicode scalar values, not JavaScript's UTF-16 code units, so lone surrogates cannot be expressed. On well-formed text, trimming, emptiness and equality agree with JavaScript's.
- JsString.IsWhitespace: fixes the Unicode Zs category as U+0020, U+00A0, U+1680, U+2000–U+200A, U+202F, U+205F and U+3000. A runtime using a later Unicode version could differ.
