# Todo list state engine, modelled in Dafny

This project models the todo list held by the `App` component of a small
React application (src/App.jsx). The state is the array `todos` of records
`{ id, text, completed }`. Four actions each replace the array with a new one
computed from the previous array:

- `addTodo(text)` trims the text. It ignores blank input. Otherwise it appends
  a new item that is not completed.
- `toggleTodo(id)` negates `completed` on every item whose id matches.
- `deleteTodo(id)` removes every item whose id matches.
- `clearCompleted()` removes every completed item.

Two values are derived from the list: `completedCount`, and the progress text
`완료 {completed} / 전체 {total}` ("done … / total …"). That text goes to
`document.title` and is also shown in the footer.

The code is copy-on-write: it uses spread, `map` and `filter`, and it has no
loops. So the model is pure. `Todo` is a datatype, and each action is a function
over `seq<Todo>`. The JavaScript built-ins the code relies on are modelled in
modules of their own:

- `JsString`: `String.prototype.trim`, which strips ECMAScript WhiteSpace and
  LineTerminator characters.
- `JsArray`: `Array.prototype.filter` and `Array.prototype.map`.
- `NumberFormat`: the decimal text a template literal produces for a count.

`TodoApp` holds the list operations, the derived values, the list invariants,
and a reducer (`Apply`, `Run`) that replays a sequence of user actions.

Files: `js_string.dfy`, `js_array.dfy`, `number_format.dfy`, `todo_app.dfy`.

## Notes on the code

- `addTodo` takes the new id from `Date.now()` and never checks it against the
  ids already in the list. Two additions within one millisecond therefore share
  an id, and `toggleTodo` and `deleteTodo` act on every item that carries it:
  `TodoApp.ScenarioSameInstant` shows one toggle completing two items. Ids stay
  unique when every new id is larger than all earlier ones
  (`TodoApp.RunKeepsUniqueIds`).
- `deleteTodo` shortens the list by the number of items with the id
  (`TodoApp.DeleteLength`). That is exactly one when exactly one item carries
  the id, for example when ids are unique and the id is present
  (`TodoApp.DeleteUniquePresent`).
- The loading effect stores whatever `JSON.parse` returns, without checking
  its shape (src/App.jsx:77). When parsing fails it only logs a warning, and
  the list stays as it was (src/App.jsx:79-81).
- `TodoList` accepts a `searchQuery` but uses it only to choose the message for
  an empty list (src/component/TodoList.jsx:17). `App` never passes one, and no
  code filters the list by it.

## Model

| member | source | states |
|---|---|---|
| JsString.Trim | src/App.jsx:26-27 | `text.trim()`, with ECMAScript's whitespace and line terminators as `IsWs`: the result has no whitespace at either end, is no longer than the input, and is empty exactly when the input is whitespace only (the `if (!trimmed)` test) |
| JsString.SkipWsForward | src/App.jsx:26 | the start of the trimmed text is the first position, at or after the given one, that is not whitespace; everything skipped is whitespace |
| JsString.SkipWsBackward | src/App.jsx:26 | the end of the trimmed text is just after the last non-whitespace character before the given position; everything skipped is whitespace |
| JsString.TrimIsInfix | src/App.jsx:26 | `trim` yields a contiguous infix of the input, with only whitespace on either side, that neither starts nor ends with whitespace |
| JsString.TrimIdempotent | src/App.jsx:26 | the trimmed text has no surrounding whitespace, and trimming it again changes nothing |
| JsString.TrimOfTrimmed | src/App.jsx:26 | a text with no surrounding whitespace is its own trim |
| JsString.TrimFixedIffTrimmed | src/App.jsx:26 | a text is its own trim exactly when it has no surrounding whitespace |
| JsArray.Filter | src/App.jsx:51 | `filter` keeps exactly the elements that pass the test: every kept element passes and comes from the input, and every passing input element is kept |
| JsArray.Map | src/App.jsx:42-44 | `map` keeps the length and puts the callback's result at each position |
| JsArray.FilterConcat | src/App.jsx:58 | filtering a concatenation is the concatenation of the filtered parts, so the original order is kept |
| JsArray.FilterSingleton | src/App.jsx:58 | a one-element list keeps its element exactly when it passes the test |
| JsArray.FilterKeepsAllIff | src/App.jsx:51 | a filter returns its input unchanged, or at the same length, exactly when every element passes |
| JsArray.FilterEmptyIff | src/App.jsx:62 | a filter keeps nothing exactly when no element passes |
| JsArray.FilterIdempotent | src/App.jsx:58 | filtering twice with the same test is filtering once |
| JsArray.FilterComplement | src/App.jsx:51 | the elements kept by a test plus those kept by its negation number as many as the input |
| JsArray.MapInvolution | src/App.jsx:42-44 | mapping twice with a self-inverse callback gives back the input |
| JsArray.MapIdentity | src/App.jsx:42-44 | mapping with a callback that changes no element gives back the input |
| NumberFormat.NatToDecimal | src/App.jsx:93 | the text of a count is a numeral (`IsNumeral`): a non-empty string of digits with no leading zero except for "0" |
| NumberFormat.DecimalRoundTrip | src/App.jsx:93 | reading the decimal text back gives the count |
| NumberFormat.NumeralIsDecimal | src/App.jsx:93 | every numeral is the decimal text of the number it reads back as, so the text of a count is the only numeral for it |
| NumberFormat.NatToDecimalInjective | src/App.jsx:93 | different counts get different texts |
| NumberFormat.DigitPrefixUnique | src/App.jsx:93 | a run of digits followed by a text that starts with a non-digit splits in one way only |
| NumberFormat.NumeralsSplitUnique | src/App.jsx:93 | in `prefix + numeral + separator + tail`, with a separator that starts with a non-digit, the whole determines the numeral and the tail |
| TodoApp.AddTodo | src/App.jsx:25-36 | the list stays unchanged exactly when the text is blank; otherwise it grows by one, the old list is its prefix, and the last item has the new id, the trimmed text and `completed == false`; that text is non-empty and trimmed |
| TodoApp.AddBlankIsNoop | src/App.jsx:26-27 | blank text, `""` included, leaves the list unchanged |
| TodoApp.AddKeepsCompletedCount | src/App.jsx:33 | adding does not change the completed count |
| TodoApp.ToggleTodo | src/App.jsx:41-45 | the length and, at each position, the id and text stay the same; `completed` is negated exactly where the id matches and kept elsewhere |
| TodoApp.ToggleTwice | src/App.jsx:42-44 | toggling the same id twice gives back the original list, for any id |
| TodoApp.ToggleAbsentIsNoop | src/App.jsx:42-44 | toggling an id that no item carries changes nothing |
| TodoApp.ToggleCountOne | src/App.jsx:43 | with unique ids, toggling a present id moves the completed count down by one if the item was completed, up by one otherwise |
| TodoApp.DeleteTodo | src/App.jsx:50-52 | no remaining item has the id; every remaining item is from the old list; every item with another id remains |
| TodoApp.DeleteLength | src/App.jsx:51 | the new length is the old length minus the number of items with that id |
| TodoApp.DeleteAbsentIff | src/App.jsx:51 | the list is unchanged exactly when no item has that id |
| TodoApp.DeleteUniquePresent | src/App.jsx:51 | with unique ids, deleting a present id shortens the list by exactly one |
| TodoApp.DeleteConcat | src/App.jsx:51 | deleting works on each part of a list separately, so the order of the rest is kept |
| TodoApp.DeleteIdempotent | src/App.jsx:51 | deleting the same id again changes nothing |
| TodoApp.ClearCompleted | src/App.jsx:57-59 | no remaining item is completed; every remaining item is from the old list; every item that is not completed remains |
| TodoApp.ClearCompletedCountZero | src/App.jsx:58 | after clearing, the completed count is 0 |
| TodoApp.ClearCompletedLength | src/App.jsx:58 | clearing removes exactly as many items as were completed |
| TodoApp.ClearCompletedIdempotent | src/App.jsx:58 | clearing twice is clearing once |
| TodoApp.ClearCompletedConcat | src/App.jsx:58 | clearing works on each part of a list separately, so the incomplete items keep their order |
| TodoApp.CompletedCount | src/App.jsx:62 | the count is between 0 and the length; it is 0 exactly when no item is completed, and equals the length exactly when all are |
| TodoApp.CompletedCountConcat | src/App.jsx:62 | the count of a joined list is the sum of the parts' counts |
| TodoApp.CompletedCountSingleton | src/App.jsx:62 | one item counts 1 exactly when it is completed |
| TodoApp.ProgressText | src/App.jsx:93 | the text is `완료 ` + a numeral + ` / 전체 ` + a numeral, with numerals in the canonical form `${n}` writes (no empty or zero-padded numeral), and the two numerals read back as the completed count and the total |
| TodoApp.ShowsNumbersDetermined | src/App.jsx:93 | only one text meets that contract: the template with the decimal texts of the two numbers filled in |
| TodoApp.DocumentTitle | src/App.jsx:92 | the title (and the footer text at src/App.jsx:121) shows the list's completed count and its length as decimal numerals in the fixed template |
| TodoApp.ProgressTextInjective | src/App.jsx:93 | the text `완료 c / 전체 t` determines both c and t |
| TodoApp.DocumentTitleIff | src/App.jsx:92-95 | two lists get the same title exactly when they have the same completed count and the same length |
| TodoApp.UniqueCountId | src/App.jsx:43 | with unique ids, each present id is carried by exactly one item |
| TodoApp.CountIdSplit | src/App.jsx:43 | the number of items with an id is the count before a position, plus the item at it, plus the count after it |
| TodoApp.AddKeepsUniqueIds | src/App.jsx:28-35 | appending an item whose id is above every present id keeps ids unique |
| TodoApp.ToggleKeepsIds | src/App.jsx:43 | toggling keeps ids unique and keeps any bound on them |
| TodoApp.FilterKeepsTextsTrimmed | src/App.jsx:51 | removing items keeps every remaining text non-empty and trimmed |
| TodoApp.FilterKeepsUniqueIds | src/App.jsx:58 | removing items keeps ids unique |
| TodoApp.Apply | src/App.jsx:25-59 | one `setTodos(prev => …)` update: an addition keeps the old list as prefix and adds at most one item; a toggle keeps the length; a deletion or clearing never adds an item |
| TodoApp.Run | src/App.jsx:25-59 | successive updates, each applied to the previous result: the list grows by at most one item per action, and not at all without additions |
| TodoApp.RunConcat | src/App.jsx:28-58 | applying two batches of updates is applying the first and then the second to its result |
| TodoApp.ApplyKeepsTextsTrimmed | src/App.jsx:25-59 | no action stores an empty or untrimmed text |
| TodoApp.RunKeepsTextsTrimmed | src/App.jsx:25-59 | from a list with proper texts (the empty start list included), any sequence of actions keeps every text non-empty and trimmed |
| TodoApp.ApplyKeepsUniqueIds | src/App.jsx:25-59 | one action keeps ids unique when a new id is at least the bound above all present ids |
| TodoApp.RunKeepsUniqueIds | src/App.jsx:31 | ids stay unique when the ids given to additions are strictly increasing and above every earlier id |
| TodoApp.ScenarioFirstItem | src/App.jsx:25-36 | adding "buy milk" to the empty list gives one active item, count 0, and the title `완료 0 / 전체 1` |
| TodoApp.ScenarioSameInstant | src/App.jsx:31 | two additions with the same clock reading share an id, and one toggle then completes both |

The footer text at src/App.jsx:121 has the same content as the title at
src/App.jsx:93, so `TodoApp.DocumentTitle` models both.

## Left out

- The new item's id: `Date.now()` reads the clock, which is nondeterministic, so the id is a parameter of `AddTodo` and of the `Add` action.
- React's `useState`, `useEffect`, render timing, and all JSX and rendering. This includes the footer, which is shown only for a non-empty list, and the clear button, which is shown only when something is completed. These are framework behaviour, not list logic.
- Loading from and saving to `localStorage` (src/App.jsx:73-89). This is browser I/O, and `JSON.parse` and `JSON.stringify` are foreign library calls. So the model has no serialise/parse round-trip, which the code never implements either. It also omits items of other shapes that unchecked parsed data could bring in.
- `EffectDemo`'s interval counter and `Toast`'s auto-close timer. Both are about asynchronous timers and their cleanup.
- The `console.log` calls and the toggle of `showLifecycleDemo`. Neither touches the list.
- `TodoInput.handleSubmit`. Its blank check repeats the one in `addTodo`, which `AddTodo` models.
- `BtnCount` and `main.jsx`. They only forward a callback or mount the app.
- `JsString.IsWs` is fixed to the characters that are whitespace in current Unicode (category Zs). A future Unicode version that adds a space character is not modelled.
- Strings are sequences of Unicode scalar values. A JavaScript string is a sequence of UTF-16 code units and can hold a lone surrogate, which the model cannot represent. This does not change what `trim` returns, because no surrogate is whitespace.
- `NumberFormat.NatToDecimal` models only non-negative integers. JavaScript's exponent notation for numbers of 10^21 and above is not modelled, because the counts shown are array lengths, which are far smaller.
