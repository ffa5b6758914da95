# To-do store of the Home page, in Dafny

This project models the state and event handlers of the `Home` page
component of a small to-do application (`src/pages/index.js`). It covers:

- the list of to-do records and its persistence mirror;
- the create, update, delete, toggle and start/cancel-editing handlers;
- the input and tab change handlers;
- the visible list filtered by tab and search term;
- the two tab counters.

The JavaScript string operations those handlers rely on (`trim`,
`toLowerCase`, `includes`) are modelled as well.

The model has four modules:

- `Strings` (`strings.dfy`) models `String.prototype.trim` with the
  ECMAScript white-space set, `toLowerCase` (see "Left out") and `includes`.
  It proves that `trim` returns the inner slice, is idempotent, fixes exactly
  the already trimmed strings and ignores padding, and that `includes` means
  "occurs at some position".
- `TodoList` (`todo_list.dfy`) covers the record type `Todo`, the tab type,
  and the list transformations the handlers apply:
  - `todos.filter` is `Keep`, proved to be the order-preserving subsequence
    of exactly the kept records;
  - `todos.map(todo => todo.id === id ? … : todo)` is `UpdateMatching`, with
    its two instances `Edited` and `Toggled`;
  - the new record is `NewTodo`;
  - the visible list is `FilteredTodos`;
  - the counters are `ToDoCount` and `CompletedCount`.
- `Handlers` (`handlers.dfy`) holds `createTodo` and `updateTodo` as
  functions from the handler's slice of state before to the state after
  (`CreateStep`, `UpdateStep`). Lemmas state their no-op, append and update
  effects, their preservation of the record invariants, and the one-task
  scenario of create, complete, rename and delete.
- `HomePage` (`home.dfy`) holds the component as the class `Home`. Each
  `useState` variable is a field. Each handler is a method that updates
  those fields in the same order as the source and is proved against the
  functions above. The field `stored` stands for the `"todos"` entry of
  local storage; the save effect keeps it equal to the list (`Valid`).

The clock is a parameter. `createTodo` reads `Date.now()` and
`new Date().toISOString()`; `CreateStep` and `Home.CreateTodo` take these
two readings as `now` and `nowIso`.

Ids are not guaranteed unique. `createTodo` takes the id from the
millisecond clock (src/pages/index.js:32), so two creations in the same
millisecond get equal ids. Update, toggle and delete then act on every
record with that id, because they `map` or `filter` by id. The model
follows the code:

- `Edited`, `Toggled` and `Without` are stated for all records carrying
  the id.
- Uniqueness is proved only as a conditional invariant: create keeps the ids
  distinct when the clock reading is not yet an id (`CreateKeepsInvariants`),
  and the other operations always do.

## Model

| member | source | states |
|---|---|---|
| Strings.Trim | src/pages/index.js:29 | `title.trim()` is empty exactly when the title is all white space, and the result neither starts nor ends with white space |
| Strings.TrimIsSlice | src/pages/index.js:33-34 | what `trim` returns is a slice of its input with only white space before and after it |
| Strings.TrimPadded | src/pages/index.js:33 | surrounding a non-blank text without outer white space by white space and trimming gives the text back ("  Buy milk  " becomes "Buy milk") |
| Strings.TrimPaddedAny | src/pages/index.js:33 | extra white space around any input does not change its trim |
| Strings.TrimOfTrimmed | src/pages/index.js:33-34 | a text with no white space at either end is its own trim |
| Strings.TrimmedIff | src/pages/index.js:33-34 | `trim` leaves a text unchanged if and only if it neither starts nor ends with white space |
| Strings.TrimIdempotent | src/pages/index.js:33-34 | trimming an already trimmed text changes nothing |
| Strings.LeadingBlanks | src/pages/index.js:29 | counts exactly the white space at the start of a text: that prefix is blank and the next character is not white space |
| Strings.TrailingBlanks | src/pages/index.js:29 | counts exactly the white space at the end of a text |
| Strings.LeadingBlanksUnique | src/pages/index.js:29 | the leading white-space count is the only number with that property |
| Strings.TrailingBlanksUnique | src/pages/index.js:29 | the trailing white-space count is the only number with that property |
| Strings.LowerChar | src/pages/index.js:89-90 | `toLowerCase` on one character: an ASCII capital moves 32 code points up to its small letter ('A', U+0041, becomes 'a', U+0061), every other character is kept |
| Strings.ToLower | src/pages/index.js:89-90 | the ASCII model of `toLowerCase` keeps the length and lower-cases character by character |
| Strings.ToLowerIdempotent | src/pages/index.js:89-90 | lower-casing a lower-cased text changes nothing |
| Strings.Includes | src/pages/index.js:89-90 | `s.includes(t)`: a term longer than the text is never included |
| Strings.IncludesIff | src/pages/index.js:89-90 | `s.includes(t)` holds if and only if `t` starts at some position of `s`, in both directions |
| Strings.IncludesEmpty | src/pages/index.js:89-90 | every text includes the empty search term |
| TodoList.Keep | src/pages/index.js:60 | `filter` keeps exactly the records that pass the test and never lengthens the list |
| TodoList.KeepSelects | src/pages/index.js:60 | the filtered list is the order-preserving subsequence of exactly the records that pass, proved by a list of their increasing positions |
| TodoList.SelectKept | src/pages/index.js:60 | a kept first record goes to position 0 and the rest of the selection shifts by one |
| TodoList.SelectDropped | src/pages/index.js:60 | a dropped first record shifts the selection by one |
| TodoList.KeepTwice | src/pages/index.js:60 | filtering twice with the same test is filtering once |
| TodoList.KeepAll | src/pages/index.js:60 | a filter every record passes returns the list unchanged |
| TodoList.KeepAgree | src/pages/index.js:87-92 | two tests that agree on every record filter the list alike |
| TodoList.KeepComplement | src/pages/index.js:143-149 | filtering by a test and by its negation splits the list: the two lengths add up to its length |
| TodoList.KeepKeepsUnique | src/pages/index.js:60 | filtering keeps the ids pairwise distinct |
| TodoList.UpdateMatching | src/pages/index.js:48-52 | `map(todo => todo.id === id ? f(todo) : todo)`: same length, records with the id replaced by `f` of themselves, the others untouched |
| TodoList.UpdateMatchingAbsent | src/pages/index.js:65-69 | where no record has the id, the map returns the list unchanged |
| TodoList.NewTodo | src/pages/index.js:31-37 | the new record carries the given id and time and is not completed; from a non-blank title it is well formed (non-empty trimmed title, trimmed description) |
| TodoList.NewTodoIgnoresPadding | src/pages/index.js:31-37 | white space typed around the title makes no difference to the record created |
| TodoList.Edited | src/pages/index.js:48-52 | the update map keeps length, order, id, completion and creation time; records with the id get the new title and description, the others are untouched |
| TodoList.Toggled | src/pages/index.js:65-69 | the toggle map negates `completed` on the records with the id and changes no other field or record |
| TodoList.ToggleTwice | src/pages/index.js:64-70 | toggling the same id twice restores the list |
| TodoList.Without | src/pages/index.js:59-61 | delete keeps exactly the records whose id differs and never lengthens the list |
| TodoList.DeleteSelects | src/pages/index.js:59-61 | delete keeps, in their order, exactly the records with another id |
| TodoList.DeleteAbsent | src/pages/index.js:59-61 | deleting an id no record carries changes nothing |
| TodoList.DeleteIdempotent | src/pages/index.js:59-61 | deleting twice is deleting once |
| TodoList.DeleteIsTerminal | src/pages/index.js:45-70 | after a delete, editing, toggling or deleting that id again changes nothing |
| TodoList.AppendKeepsUnique | src/pages/index.js:39 | appending a record whose id no record carries keeps the ids pairwise distinct |
| TodoList.EditKeepsUnique | src/pages/index.js:48-52 | editing keeps the ids pairwise distinct |
| TodoList.ToggleKeepsUnique | src/pages/index.js:65-69 | toggling keeps the ids pairwise distinct |
| TodoList.DeleteKeepsUnique | src/pages/index.js:60 | deleting keeps the ids pairwise distinct |
| TodoList.AppendKeepsWellFormed | src/pages/index.js:39 | appending a well-formed record keeps every record well formed |
| TodoList.EditKeepsWellFormed | src/pages/index.js:48-52 | editing with a non-empty trimmed title and trimmed description keeps every record well formed |
| TodoList.ToggleKeepsWellFormed | src/pages/index.js:65-69 | toggling keeps every record well formed |
| TodoList.DeleteKeepsWellFormed | src/pages/index.js:60 | deleting keeps every record well formed |
| TodoList.MatchesTab | src/pages/index.js:88 | the tab test: a record matches exactly when its completion agrees with the tab (open on "todo", completed on "completed") |
| TodoList.EachRecordOnOneTab | src/pages/index.js:88 | every record is on exactly one of the two tabs |
| TodoList.MatchesSearch | src/pages/index.js:89-90 | the search test: an empty term matches every record, and a matching term is no longer than the title or the description |
| TodoList.FilteredTodos | src/pages/index.js:87-92 | the visible list holds exactly the records on the active tab (open on "todo", completed on "completed") whose lower-cased title or description includes the lower-cased term |
| TodoList.FilteredSelects | src/pages/index.js:87-92 | the visible list is the order-preserving subsequence of exactly those records |
| TodoList.SearchIgnoresCase | src/pages/index.js:89-90 | a search term and its lower-cased form select the same records |
| TodoList.EmptySearchIsTabOnly | src/pages/index.js:87-92 | with an empty search term only the tab condition remains |
| TodoList.ToDoCount | src/pages/index.js:143 | the "To Do" counter is at most the number of records and is zero exactly when every record is completed |
| TodoList.CompletedCount | src/pages/index.js:149 | the "Completed" counter is at most the number of records and is zero exactly when no record is completed |
| TodoList.CountsAddUp | src/pages/index.js:143-149 | the "To Do" and "Completed" counters add up to the number of records |
| TodoList.CounterMatchesTab | src/pages/index.js:143-149 | with no search term, each tab shows as many records as its counter says |
| Handlers.CreateStep | src/pages/index.js:28-42 | createTodo on the list and the two inputs: either nothing changes, or one record is appended after the untouched old records and both inputs are cleared (which one, and the record, by CreateBlankIsNoOp and CreateAppends) |
| Handlers.UpdateStep | src/pages/index.js:45-56 | updateTodo on the list and the edit form: the list keeps its length and every record with another id; either nothing changes or the edit form is closed and emptied (the rest by UpdateBlankIsNoOp and UpdateEffect) |
| Handlers.CreateBlankIsNoOp | src/pages/index.js:29 | a title that is empty or all white space makes create change neither the list nor the two inputs |
| Handlers.CreateAppends | src/pages/index.js:28-42 | a successful create appends exactly one record after the untouched old ones: trimmed title and description, not completed, the given id and time, well formed; both inputs are cleared |
| Handlers.CreateKeepsInvariants | src/pages/index.js:28-42 | create keeps every record well formed, and keeps the ids distinct when the clock reading is not already an id |
| Handlers.UpdateBlankIsNoOp | src/pages/index.js:46 | an edit title that is empty or all white space makes update change nothing: the list and the open edit form stay as they were |
| Handlers.UpdateEffect | src/pages/index.js:45-56 | a successful update keeps length, order, id, completion and creation time; the records with the id get the trimmed edit texts and stay well formed; the others are untouched; the edit form is closed and emptied |
| Handlers.UpdateKeepsInvariants | src/pages/index.js:45-56 | update keeps every record well formed and the ids distinct |
| Handlers.CreateFirst | src/pages/index.js:28-42 | creating from an empty list with trimmed texts gives the one open record holding exactly those texts and clears the inputs |
| Handlers.CompletedShowsOnCompletedTab | src/pages/index.js:87-92 | a completed record shows on the completed tab and not on the to-do tab when nothing is searched for |
| Handlers.RenameOnly | src/pages/index.js:45-56 | renaming the only record with a trimmed title and an empty description changes those two texts and nothing else |
| Handlers.OneTaskLifecycle | src/pages/index.js:28-92 | create, complete, rename, delete of one record: it is created open, moves from the to-do tab to the completed tab, keeps its completion when renamed, and the list is empty after the delete |
| HomePage.Home.constructor | src/pages/index.js:5-20 | mount: every input empty, the to-do tab active, no edit open, and the list loaded from local storage when it held one, empty otherwise |
| HomePage.Home.SetTitle | src/pages/index.js:113 | the title input sets the title and nothing else |
| HomePage.Home.SetDescription | src/pages/index.js:119 | the description input sets the description and nothing else |
| HomePage.Home.SetSearchTerm | src/pages/index.js:134 | the search box sets the search term and nothing else |
| HomePage.Home.SetActiveTab | src/pages/index.js:141-147 | the tab buttons set the active tab and nothing else |
| HomePage.Home.SetEditTitle | src/pages/index.js:169 | the edit title input sets the edit title and nothing else |
| HomePage.Home.SetEditDescription | src/pages/index.js:174 | the edit description input sets the edit description and nothing else |
| HomePage.Home.CreateTodo | src/pages/index.js:28-42 | the list and the two inputs become what `CreateStep` gives for their old values and the clock reading; storage mirrors the list; no other field changes |
| HomePage.Home.UpdateTodo | src/pages/index.js:45-56 | the list and the edit form become what `UpdateStep` gives for their old values; storage mirrors the list; no other field changes |
| HomePage.Home.DeleteTodo | src/pages/index.js:59-61 | the list becomes `Without` of the old list; storage mirrors it; nothing else changes |
| HomePage.Home.ToggleComplete | src/pages/index.js:64-70 | the list becomes `Toggled` of the old list; storage mirrors it; nothing else changes |
| HomePage.Home.StartEditing | src/pages/index.js:73-77 | the edit form opens on the record's id with its title and description; the list is untouched |
| HomePage.Home.CancelEditing | src/pages/index.js:80-84 | the edit form closes and its two texts are emptied; the list is untouched |
| HomePage.Home.Visible | src/pages/index.js:87-92 | the visible list holds exactly the records on the active tab that match the search term |

## Left out

- Local storage and JSON. `JSON.stringify` and `JSON.parse` are not modelled. The field `stored` holds the list itself, and the constructor receives the already parsed saved list, or `None` when storage held nothing.
- Malformed saved data is not modelled. The source throws from `JSON.parse` and defines no recovery, so the model has no such case.
- React effects, render batching and the stale-closure behaviour of `useState` are not modelled. Each handler applies its updates at once to the current state.
- The clock. `Date.now()` and `new Date().toISOString()` are the parameters `now` and `nowIso`, and the format of the ISO text is not modelled.
- `TodoList.Todo.id` is an unbounded integer. The millisecond range of `Date.now()` is not modelled.
- Strings.LowerChar: maps only the ASCII capitals A–Z. JavaScript's `toLowerCase` also lower-cases letters outside ASCII by the Unicode case tables, which are not modelled.
- Strings.ToLower: maps character by character and keeps the length. JavaScript's `toLowerCase` has mappings that change the length (U+0130 becomes two code units) and mappings that depend on the surrounding characters (a final capital sigma becomes `ς`); neither is modelled.
- Strings are sequences of Unicode code points, while JavaScript strings are UTF-16 code units. The white-space characters `trim` removes all lie in the Basic Multilingual Plane, so `trim` behaves the same either way. For well-formed text, matching `includes` by code points and by UTF-16 code units gives the same answer; a lone surrogate, which a JavaScript string can hold, cannot be represented in the model.
- The JSX markup and its CSS are not modelled beyond the change and click handlers it wires to the state, and the counter expressions.
- Id uniqueness is not guaranteed by the source. The model does not take it for granted: it proves create keeps ids distinct only when the clock reading is new.
