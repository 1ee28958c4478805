# To-do list core, modelled in Dafny

This project models the logic core of a small browser to-do app.

- **Operation state machine** (`TodoStateMachine`): a single `state` label. `transition(event)` looks the pair up in a fixed table. It moves to the table's entry, or only logs when there is none.
- **Controller** (`TodoApp`): holds the ordered list of `{id, text, completed, editing}` records. Its handlers add, toggle, delete, clear completed, begin an edit, finish an edit and reorder. `handleEvent` sends the command event to the state machine, runs the handler, then sends `SUCCESS`.
- **HTML escaper** (`escapeHtml`): trims, then applies five global character replacements.
- **Record factory** (`todoFactory`): builds the default record that the add handler uses.

Files:

- `todo_state_machine.dfy` (module `StateMachine`): the event and state constants, the table as a map of maps, and the `TodoStateMachine` class.
- `todo_list.dfy` (module `TodoList`): the records, plus the `findIndex`/`find`/`filter`/`map`/`splice` computations the handlers apply to the list, with their properties.
- `app.dfy` (module `App`): the `TodoApp` class with `todos: seq<Todo>` and its state machine, the handlers as methods, and `handleEvent`. Two specification functions describe one dispatch: `Dispatch` gives the resulting list and `Trace` gives the events the state machine receives.
- `utils.dfy` (module `Utils`): `escapeHtml` as written, its per-character equivalent and an unescaper.
- `js_string.dfy` (module `JsString`): `String.prototype.trim`, which strips ECMAScript WhiteSpace and LineTerminator code points.
- `factories.dfy` (module `Factories`): `todoFactory`.

Modelling choices:

- States and events are kept as the app's strings. This lets the table's last row, keyed by the event name `FINISH_EDIT`, be modelled as written. No state ever has that label, so the row is never consulted (`RunStaysInStates`).
- `Date.now()` becomes the parameter `freshId` of `HandleEvent`/`HandleAddTodo`. Only the unique-id lemmas require it to be unused.
- The stored list read by the constructor becomes the constructor's parameter.
- The state machine carries a ghost `history` of every event `transition` received. Its invariant is that the state equals running that history from idle. This lets `HandleEvent` state the exact events it sends and their order, not only the final state.
- The `switch` inside `handleEvent` is the method `RunHandler`; `Nested` names the events a handler sends itself.
- `handleFinishEdit` finds the first record with the id and copies it, with the new text, onto every record with that id. `FinishedEdit` models this as written. The field-preservation lemma `FinishedEditFields` therefore assumes unique ids.

## Model

| member | source | states |
|---|---|---|
| StateMachine.TodoStateMachine.constructor | src/js/todo-state-machine.js:18-20 | a new machine is in `idle` and has received no events |
| StateMachine.TodoStateMachine.Transition | src/js/todo-state-machine.js:22-70 | the state becomes the table entry for (state, event) when there is one; otherwise it is unchanged and the invalid flag (the logged error) is returned; the event is appended to the history; the invariant (one of the seven states, equal to running the history from idle) is kept |
| StateMachine.Next | src/js/todo-state-machine.js:64-69 | the next state is the table entry when present (always one of the seven states), else the current state |
| StateMachine.IdleCommandTargets | src/js/todo-state-machine.js:24-32 | from idle the six command events go to adding, editing, deleting, toggling, clearing, reordering; FINISH_EDIT stays idle |
| StateMachine.CompletionReturnsToIdle | src/js/todo-state-machine.js:33-57 | from every in-progress state, SUCCESS and FAILURE lead to idle |
| StateMachine.FinishEditFromEditing | src/js/todo-state-machine.js:37-41 | editing accepts FINISH_EDIT back to idle; the other in-progress states ignore it |
| StateMachine.IdleIgnoresNonCommands | src/js/todo-state-machine.js:64-69 | while idle, SUCCESS, FAILURE and every event that is not a command have no entry and leave the state idle |
| StateMachine.InProgressIgnoresCommands | src/js/todo-state-machine.js:64-69 | while an operation is in progress, every command except FINISH_EDIT in `editing` has no entry and leaves the state unchanged |
| StateMachine.OnlyEditTodoReachesEditing | src/js/todo-state-machine.js:58-61 | from a real state, `editing` is entered only by EDIT_TODO from idle; the FINISH_EDIT row's FAILURE entry is not a way in |
| StateMachine.RunStaysInStates | src/js/todo-state-machine.js:9-15 | from any state constant, every event sequence ends in one of the seven states, every row consulted is one of them, and the FINISH_EDIT row is never consulted |
| StateMachine.Run | src/js/todo-state-machine.js:22-70 | feeding events one by one from a row of the table ends at a row of the table |
| StateMachine.RunCons | src/js/todo-state-machine.js:22-70 | feeding one event and then the rest equals feeding the rest from the next state |
| StateMachine.RunPair | src/js/todo-state-machine.js:22-70 | feeding two events equals two transitions in turn |
| StateMachine.RunAppend | src/js/todo-state-machine.js:22-70 | running two event sequences in turn equals running their concatenation |
| JsString.TrimStart | src/js/utils.js:7 | the result is the suffix of the input left after its leading whitespace, starting with a non-space |
| JsString.TrimEnd | src/js/utils.js:7 | the result is the prefix of the input left before its trailing whitespace, ending with a non-space |
| JsString.Trim | src/js/utils.js:7 | the result is no longer than the input and neither starts nor ends with whitespace |
| JsString.TrimInfix | src/js/utils.js:7 | the result is the infix of the input after its leading whitespace, and what precedes and follows it is all whitespace |
| JsString.TrimEmpty | src/js/utils.js:7 | the result is empty exactly when the input is all whitespace |
| JsString.TrimIdempotent | src/js/utils.js:7 | trimming twice equals trimming once |
| Utils.ReplaceAll | src/js/utils.js:8-12 | a global one-character replacement leaves no occurrence of the pattern when the replacement lacks it, and never shortens the string when the replacement is non-empty |
| Utils.ReplaceAllAbsent | src/js/utils.js:8-12 | a replacement whose pattern does not occur changes nothing |
| Utils.ReplaceAllSingle | src/js/utils.js:8-12 | on one character, a replacement yields the replacement text for the pattern and the character otherwise |
| Utils.ReplaceAllAppend | src/js/utils.js:8-12 | a replacement distributes over concatenation |
| Utils.ReplaceSpecials | src/js/utils.js:8-12 | the five replacements in the app's order, `&` first; the result is never shorter than the input; `ReplaceSpecialsIsPerCharacter` shows it equals the per-character escape |
| Utils.EscapeHtml | src/js/utils.js:5-13 | trim, then the five replacements; the result is the per-character escape of the trimmed input; the `EscapeHtml*` lemmas state its safety, round trip and whitespace properties |
| Utils.ReplaceSpecialsAppend | src/js/utils.js:8-12 | the five-replacement chain distributes over concatenation |
| Utils.EntityUntouched | src/js/utils.js:9-12 | text without `<`, `>`, `"`, `'` (such as an entity made by an earlier step) is left unchanged by the last four replacements |
| Utils.ReplaceSpecialsChar | src/js/utils.js:8-12 | on one character the replacement chain yields exactly that character's entity, so no entity is escaped twice |
| Utils.ReplaceSpecialsIsPerCharacter | src/js/utils.js:8-12 | the replacement chain, `&` first, equals the per-character map `&`→`&amp;`, `<`→`&lt;`, `>`→`&gt;`, `"`→`&quot;`, `'`→`&#039;` |
| Utils.EscapeHtmlIsPerCharacter | src/js/utils.js:5-13 | `escapeHtml` is trim followed by the per-character escape |
| Utils.Escaped | src/js/utils.js:8-12 | the per-character escape contains no `<`, `>`, `"` or `'`, is at least as long as its input, and is empty only for empty input |
| Utils.EscapedAppend | src/js/utils.js:8-12 | the escape is a homomorphism on concatenation, so other characters are copied unchanged and in order |
| Utils.EscapedNoSpecials | src/js/utils.js:8-12 | a string without the five specials is its own escape |
| Utils.UnescapeStep | src/js/utils.js:8-12 | unescaping reads one escaped character back and continues with the rest |
| Utils.UnescapeEscaped | src/js/utils.js:8-12 | unescaping the escape returns the input (round trip) |
| Utils.EscapeHtmlSafe | src/js/utils.js:5-13 | the output of `escapeHtml` never contains `<`, `>`, `"` or `'`, and is at least as long as the trimmed input |
| Utils.EscapeHtmlRoundTrip | src/js/utils.js:5-13 | unescaping the output of `escapeHtml` gives the trimmed input |
| Utils.EscapedEnds | src/js/utils.js:8-12 | the escape of a non-empty string starts with its first character or `&`, and ends with its last character or `;` |
| Utils.EscapedEndsNotWhitespace | src/js/utils.js:8-12 | escaping a string that neither starts nor ends with whitespace gives one that does neither |
| Utils.EscapeHtmlTrimmed | src/js/utils.js:7 | the output of `escapeHtml` neither starts nor ends with whitespace |
| Utils.EscapeHtmlEmpty | src/js/utils.js:7 | the output of `escapeHtml` is empty exactly when the input is all whitespace |
| Utils.EscapeHtmlPlainText | src/js/utils.js:5-13 | a trimmed input with none of the five specials is returned unchanged |
| Factories.TodoFactory | src/js/factories.js:5-9 | the record's text is the argument exactly (no trimming), `completed` and `editing` are false, and it has no id |
| Factories.FactoryRecords | src/js/factories.js:5-9 | a record is a factory result exactly when both its flags are false |
| TodoList.FindIndex | src/js/app.js:209-212 | the result is the first index holding the id, or -1 exactly when no record has it |
| TodoList.FindIndexAt | src/js/app.js:209-212 | an index holding the id with no earlier record holding it is what `findIndex` returns |
| TodoList.Find | src/js/app.js:258 | the result is the first record with the id, or nothing exactly when no record has it |
| TodoList.Filter | src/js/app.js:195 | `filter` returns a subsequence of the input holding every kept element as often as the input does, and nothing else |
| TodoList.WithoutId | src/js/app.js:194-195 | delete keeps exactly the records whose id differs, in their relative order, and none with that id |
| TodoList.Uncompleted | src/js/app.js:201-202 | clear-completed keeps exactly the records not completed, in their relative order |
| TodoList.Toggled | src/js/app.js:186-189 | length, order, ids, text and `editing` are unchanged; `completed` is negated only on records with the id |
| TodoList.ToggledInvolution | src/js/app.js:186-189 | toggling the same id twice restores the list |
| TodoList.MarkEditing | src/js/app.js:238-241 | `editing` becomes true only on records with the id and is not cleared elsewhere; nothing else changes |
| TodoList.MarkEditingIdempotent | src/js/app.js:238-241 | beginning the same edit twice equals beginning it once |
| TodoList.FinishedEdit | src/js/app.js:258-261 | ids and length never change; records with another id are untouched; each record with the id becomes the first such record with the new text and `editing` false |
| TodoList.FinishedEditFields | src/js/app.js:258-261 | with unique ids, the matching record gets the new text and `editing` false and keeps its `id` and `completed`; others are unchanged |
| TodoList.RemoveAt | src/js/app.js:216 | splicing out index i drops exactly that element and shifts the later ones down by one |
| TodoList.MultisetRemoveAt | src/js/app.js:216 | splicing out one element removes exactly that element from the multiset |
| TodoList.Moved | src/js/app.js:216-218 | the two splices keep the length and the multiset; the moved element lands at the target index; the others keep their relative order |
| TodoList.MovedInverse | src/js/app.js:216-218 | moving from i to j and then from j to i restores the sequence |
| TodoList.MovedAt | src/js/app.js:216-218 | each position of the result holds the element from a source index, and no two positions share one |
| TodoList.Reordered | src/js/app.js:208-218 | if either id is absent, the list is unchanged; otherwise the result is a permutation with the dragged record at the target's original index and the rest in relative order |
| TodoList.ReorderFirstOntoLast | src/js/app.js:208-218 | dragging the first of three records onto the third gives `[b, c, a]` |
| TodoList.SwapTwo | src/js/app.js:208-218 | on two records with different ids, dragging the first onto the second swaps them |
| TodoList.ReorderMiddleOntoLast | src/js/app.js:208-218 | dragging the second of three records onto the third swaps those two |
| TodoList.ReorderThreeNotUndone | src/js/app.js:208-218 | reordering works by index: on `[a, b, c]`, dragging a onto c and then c onto a gives `[b, a, c]`, not the original list |
| TodoList.ReorderTwoBack | src/js/app.js:208-218 | on two records, reordering one onto the other and back restores the list |
| TodoList.Stamp | src/js/app.js:169-172 | the record `{ id, ...todoFactory(text) }`: the given id with the factory record's text and flags |
| TodoList.Added | src/js/app.js:165-174 | empty trimmed text leaves the list unchanged; otherwise exactly one record (fresh id, trimmed text, both flags false) is appended and the earlier records are untouched |
| TodoList.AddedKeepsUniqueIds | src/js/app.js:165-174 | adding with an unused id keeps ids unique |
| TodoList.FilterKeepsUniqueIds | src/js/app.js:194-202 | delete and clear-completed keep ids unique |
| TodoList.ReorderedKeepsUniqueIds | src/js/app.js:208-218 | a reorder keeps ids unique |
| App.TodoApp.constructor | src/js/app.js:15-26 | the list is the stored one and the machine starts idle with an empty history |
| App.TodoApp.HandleEvent | src/js/app.js:28-58 | the list becomes `Dispatch` of the old list; the machine's history grows by exactly `Trace` in order (the event, then the handler's nested DELETE_TODO and SUCCESS for an empty FINISH_EDIT, then SUCCESS for a command; an unknown event gets nothing after its own attempt); the final state is `Run` of the old state over that trace; idle before implies idle after; unique ids are kept when an added id is unused |
| App.TodoApp.RunHandler | src/js/app.js:31-56 | the `switch`: the result is true exactly for the seven commands; the list becomes `Dispatch` of the old list; the machine receives only the handler's own events (`Nested`) |
| App.Trace | src/js/app.js:28-58 | the events `handleEvent` sends: it starts with the event; a command's ends with SUCCESS; an unknown event's is the event alone |
| App.Nested | src/js/app.js:252-256 | the events a handler sends itself: only an empty FINISH_EDIT sends any, and they end with the nested SUCCESS |
| App.Dispatch | src/js/app.js:28-58 | the list after `handleEvent`: an unknown event leaves it unchanged, and edit, toggle, non-empty finish-edit and reorder keep its length; `DispatchKeepsUniqueIds` and the `TodoList` lemmas state the rest |
| App.TraceShape | src/js/app.js:28-58 | the event, the handler's own events and, for a command, SUCCESS, appended in turn, make up the trace |
| App.TodoApp.HandleAddTodo | src/js/app.js:165-174 | the list becomes `Added` of the old list |
| App.TodoApp.HandleToggleTodo | src/js/app.js:186-189 | the list becomes `Toggled` of the old list |
| App.TodoApp.HandleDeleteTodo | src/js/app.js:194-195 | the list becomes `WithoutId` of the old list |
| App.TodoApp.HandleClearCompleted | src/js/app.js:201-202 | the list becomes `Uncompleted` of the old list |
| App.TodoApp.HandleReorderTodos | src/js/app.js:208-218 | both indices are found first, then splice out and splice in at the target's original index gives `Reordered` of the old list |
| App.TodoApp.HandleEditTodo | src/js/app.js:238-241 | the list becomes `MarkEditing` of the old list |
| App.TodoApp.HandleFinishEdit | src/js/app.js:252-261 | empty text acts as a nested DELETE_TODO dispatch (list, state, and the events DELETE_TODO then SUCCESS in the history); otherwise the list becomes `FinishedEdit` and the machine receives nothing |
| App.TraceSteps | src/js/app.js:28-58 | running a dispatch's trace equals the transitions `handleEvent` performs one after another |
| App.IdleAfterEveryEvent | src/js/app.js:28-58 | starting idle, the machine is idle after every `handleEvent`, including FINISH_EDIT with its nested DELETE_TODO and the outer SUCCESS from idle |
| App.UnknownEventNoMutation | src/js/app.js:53-55 | an unknown event mutates no list and is not followed by SUCCESS |
| App.FinishEditEmptyIsDelete | src/js/app.js:252-256 | FINISH_EDIT with empty text has the same effect on the list as DELETE_TODO for that id |
| App.DispatchKeepsUniqueIds | src/js/app.js:28-58 | every dispatch keeps ids unique, provided an added id is unused |

## Left out

- DOM rendering and event wiring: `bindEvents`, `render`, `addTodoToDOM`, `updateTodoInDOM`, `removeTodoFromDOM`, `updateClearCompletedButton`, and the element moves in `handleReorderTodos` (src/js/app.js:222-235). These are presentation only.
- Input clearing, focus and select (src/js/app.js:176, 243-249) and the `parseInt` of dataset ids, including its NaN case. These are browser APIs; ids are plain integers here.
- Persistence: `localStorage`, `JSON.parse`/`JSON.stringify` and `saveTodos` (src/js/app.js:16, 266-268). This is I/O; the stored list is the constructor's parameter, and saving is not modelled.
- `Date.now()`: wall-clock id generation is replaced by the caller-supplied `freshId`.
- `console.error`/`console.log`: an invalid transition is the `false` result of `Transition` with the state unchanged; an unknown event only returns.
- JavaScript property lookup on the table object: an event named after an inherited property (such as `toString`) would find a non-string entry. Only the listed keys are modelled.
- `String(unsafe)`: the escaper's argument is a string here; coercion of other values is not modelled. JavaScript strings are UTF-16; here a character is a Unicode scalar value, so lone surrogates are not represented.
- `src/js/templates.js` and the copies of `todoFactory`/`todoTemplate` in `src/js/models.js`: HTML templating that the controller does not depend on.
- `src/types/types.ts`: declarations only. Its `id: string` disagrees with the numeric ids the code uses; the model follows the code.
- The `FAILURE` path of the dispatcher: `handleEvent` never sends `FAILURE`. The table keeps its `FAILURE` entries and lemmas state them.
