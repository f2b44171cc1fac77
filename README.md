# Todo list state manager

A Dafny model of the state manager inside the `Todo` React component
(`src/Components/Todo.jsx`). The component owns four pieces of state: the
input text `todo`, the ordered list `todos` of records `{list, id, status}`,
the edit target `editId` (0 while adding), and the `error` flag. It also keeps
a copy of the list in the browser's local storage under the key `"todos"`.
Its handlers validate and add entries, edit the text of an entry, toggle an
entry's completion, delete entries and load an entry into the input for editing.

The project has three modules:

- `Text` (`text.dfy`) models `String.prototype.trim` over the full ECMAScript
  whitespace and line-terminator set. It also models the `toLowerCase`
  comparison used for duplicate detection, for ASCII letters.
- `Tasks` (`tasks.dfy`) holds the record type and the length checks applied
  to the trimmed input. It also holds the list transforms the handlers
  perform as functions: `find`, `some`, the two `map`s and `filter`. Lemmas
  about them cover order, idempotence, involution, invariant preservation
  and the missing duplicate check on edits.
- `Component` (`todo.dfy`) is the class `Todo`. It has the component's state
  fields plus `stored`, the local-storage slot. Each handler is a method whose
  `ensures` gives the whole new state in terms of the `Tasks` functions. The
  module ends with client methods that drive a session: refused entries, a
  rejected duplicate, add then complete, an edit that keeps the status,
  deleting twice, and a stale edit target.

Each handler runs as one atomic step. The clock (`Date.now()`) is the
parameter `now` of `AddTodo`. Local storage is the field `stored`, with
`None` meaning the key was never written. The JSON round trip through
storage is taken as the identity.

Behaviours of `src/Components/Todo.jsx` that the model keeps as written:

- The edit path makes no duplicate check. It returns at line 51, before the
  `some` test at lines 54-60, so `DistinctTexts` is kept by adding, toggling
  and deleting but not by editing. `Tasks.RenameMayDuplicate` shows a case.
- A missing edit target throws only when the list is not empty. Line 40's
  `find` then returns `undefined`, and the `map` callback at line 42 reads
  its `id`, which throws a `TypeError`. Over an empty list the callback never
  runs, so the edit path finishes: the empty list is persisted, `editId`
  becomes 0 and the input is cleared. `AddTodo`'s precondition therefore asks
  for the target only in a non-empty list, once validation has passed. The
  client `StaleEditTarget` edits and deletes the only record and then submits;
  `StaleEditTargetThrows` does the same with a second record left, which
  reaches the throwing state. `handleEdit` reads `editTodo.list` at line 106
  unconditionally, so `HandleEdit` requires the id to be present.
- `handleDelete` (line 88) and `handleComplete` (lines 94-99) do not look for
  the id first. For an absent id the list is written back to storage
  unchanged.
- The new record's id is `Date.now()` (line 65), with no check that it is
  unused. Unique ids hold only when the caller supplies fresh time stamps,
  and the well-formedness postconditions take this as a hypothesis.
- The three validation failures call `setError(true)` (lines 24, 29, 34).
  The duplicate exit at line 59 does not touch `error`, and neither does a
  successful add or edit.

## Model

| member | source | states |
|---|---|---|
| Text.TrimStartSpec | src/Components/Todo.jsx:20 | dropping leading whitespace keeps a suffix that starts with a non-whitespace character and drops only whitespace |
| Text.TrimEndSpec | src/Components/Todo.jsx:20 | dropping trailing whitespace keeps a prefix that ends with a non-whitespace character and drops only whitespace |
| Text.Trim | src/Components/Todo.jsx:20 | the trimmed input is never longer than the input |
| Text.TrimCore | src/Components/Todo.jsx:20 | the trimmed input has no whitespace at either end, is one contiguous piece of the input, and everything around it is whitespace |
| Text.TrimUnique | src/Components/Todo.jsx:20 | any piece of the input with non-whitespace ends and only whitespace around it equals the trimmed input, so `Trim` is determined by `TrimCore` |
| Text.TrimTrimmed | src/Components/Todo.jsx:20 | a text with no whitespace at its ends is its own trim |
| Text.TrimIdempotent | src/Components/Todo.jsx:20 | trimming twice equals trimming once |
| Text.TrimEmptyIff | src/Components/Todo.jsx:20-23 | the trimmed input is empty exactly when the input is all whitespace |
| Text.LowerChar | src/Components/Todo.jsx:55 | an upper-case ASCII letter is mapped to the lower-case letter 32 code points above it; every other character is kept |
| Text.LowerCharSame | src/Components/Todo.jsx:55 | two characters lower-case alike exactly when they are equal or are the two cases of one ASCII letter |
| Text.ToLower | src/Components/Todo.jsx:55 | lower-casing keeps the length and leaves no upper-case ASCII letter |
| Text.ToLowerChars | src/Components/Todo.jsx:55 | each character of the lower-cased text is the input character at the same position or its other case |
| Text.ToLowerIdempotent | src/Components/Todo.jsx:55 | lower-casing twice equals lower-casing once |
| Text.ToLowerEqualIff | src/Components/Todo.jsx:55 | two texts lower-case alike exactly when they have the same length and each pair of characters at the same position is equal or the two cases of one ASCII letter |
| Text.EqualsIgnoreCase | src/Components/Todo.jsx:55 | the `toLowerCase` comparison holds exactly when the texts have the same length and differ at most in the case of ASCII letters |
| Text.EqualsIgnoreCaseStrict | src/Components/Todo.jsx:54-56 | "Buy milk" and "buy milk" differ but are equal ignoring case |
| Tasks.CheckText | src/Components/Todo.jsx:23-37 | a trimmed text is accepted exactly when its length is 3 to 50; otherwise the error is EmptyText for "", TooShort below 3 and TooLong above 50 |
| Tasks.Find | src/Components/Todo.jsx:40 | the lookup finds a record exactly when the id is present, and then returns the first record with that id |
| Tasks.IsDuplicate | src/Components/Todo.jsx:54-56 | true exactly when some record's text equals the given text ignoring case |
| Tasks.Rename | src/Components/Todo.jsx:41-45 | the edit map keeps length, ids and statuses, gives the new text to records with the target id, and keeps every other text |
| Tasks.ToggleStatus | src/Components/Todo.jsx:94-99 | the completion map keeps length, ids and texts, negates the status of records with the id, and keeps every other status |
| Tasks.RemoveId | src/Components/Todo.jsx:88 | the delete filter never grows the list and keeps no record with the given id |
| Tasks.RemoveMembers | src/Components/Todo.jsx:88 | a record survives deletion exactly when it was in the list and its id differs |
| Tasks.RemoveIndices | src/Components/Todo.jsx:88 | the surviving records sit at strictly increasing positions of the original list, so deletion keeps their relative order |
| Tasks.RemoveConcat | src/Components/Todo.jsx:88 | the delete filter acts on each part of a split list separately, so kept records stay in their relative order |
| Tasks.RemoveAbsent | src/Components/Todo.jsx:88 | deleting an absent id leaves the list unchanged |
| Tasks.RemoveIdempotent | src/Components/Todo.jsx:87-90 | deleting the same id twice equals deleting it once |
| Tasks.RemoveUniqueLength | src/Components/Todo.jsx:88 | with unique ids, deleting a present id removes exactly one record |
| Tasks.ToggleInvolution | src/Components/Todo.jsx:93-100 | toggling the same id twice restores the list |
| Tasks.FindAfterRename | src/Components/Todo.jsx:39-46 | after an edit, looking up the target gives its old record with the new text |
| Tasks.AppendPreserves | src/Components/Todo.jsx:63-66 | appending a valid trimmed text under a fresh id keeps ids unique and all texts trimmed and of valid length |
| Tasks.AppendPreservesDistinct | src/Components/Todo.jsx:54-66 | appending a text that passed the duplicate check keeps texts distinct ignoring case |
| Tasks.RenamePreserves | src/Components/Todo.jsx:39-46 | editing with a valid trimmed text keeps ids unique and texts valid |
| Tasks.TogglePreserves | src/Components/Todo.jsx:93-100 | toggling keeps ids unique, texts valid and texts distinct ignoring case |
| Tasks.RemovePreserves | src/Components/Todo.jsx:87-90 | deleting keeps the list well formed and its texts distinct ignoring case |
| Tasks.RenameMayDuplicate | src/Components/Todo.jsx:39-52 | an edit can make two texts equal ignoring case, because the edit path makes no duplicate check |
| Component.Todo.constructor | src/Components/Todo.jsx:10-13 | the state starts with an empty input, no edit target and no error; the mount effect loads the stored list if there is one; the snapshot and the list then agree |
| Component.Todo.LoadFromLocalStorage | src/Components/Todo.jsx:76-81 | the list becomes the stored snapshot when one exists; when the snapshot is in step with the list, loading gives back the same list |
| Component.Todo.SaveToLocalStorage | src/Components/Todo.jsx:72-74 | the snapshot becomes the given list |
| Component.Todo.ChangeValue | src/Components/Todo.jsx:14-17 | the input takes the new value and the error flag is cleared |
| Component.Todo.AddTodo | src/Components/Todo.jsx:19-71 | invalid input sets the error and changes nothing else; the edit path renames the records with the target id with no duplicate check, persists, ends editing and clears the input, and over an empty list persists the empty list; a duplicate changes nothing; otherwise one new record `{trimmed, now, false}` is appended, persisted and the input cleared; the snapshot stays in step, and the list stays well formed when the id is fresh |
| Component.Todo.HandleDelete | src/Components/Todo.jsx:87-92 | the list becomes the delete filter of the old list and is persisted; an absent id changes nothing; well-formedness and distinct texts are kept |
| Component.Todo.HandleComplete | src/Components/Todo.jsx:93-103 | the list becomes the completion map of the old list and is persisted; well-formedness and distinct texts are kept |
| Component.Todo.HandleEdit | src/Components/Todo.jsx:104-109 | for a present id, the input becomes the text of the first record with that id and the edit target becomes that id, replacing any earlier target; the list is untouched |

## Left out

- Text.Trim: its own contract states only the length bound. `TrimCore` and `TrimUnique` give the full characterisation.
- Text.LowerChar: only ASCII letters are lower-cased. `toLowerCase` also maps non-ASCII letters by the Unicode case tables, which are not modelled.
- Lengths count Unicode scalar values, not UTF-16 code units, so an astral character counts once where `length` counts it twice.
- Rendering, CSS and icons are presentation only and not modelled. This covers the JSX, the button label that depends on `editId`, and the icon handlers' wiring.
- Toast notifications come from a foreign library. `AddTodo` returns the outcome they announce as a `Notice`. The toasts of `HandleDelete` are not modelled.
- Input focus through `useRef`/`useEffect`, and `handleSubmit`'s `preventDefault`, are browser plumbing and not modelled.
- `JSON.stringify`, `JSON.parse` and `localStorage` are foreign I/O. Storage is the `stored` field, and serialisation is taken to round-trip exactly. A snapshot that fails to parse, which makes `JSON.parse` throw, is not modelled.
- `Date.now()` is the clock. It is the `now` parameter of `AddTodo`.
- React's asynchronous state batching and stale closures are not modelled. Every handler is one sequential, atomic step on the current state.
