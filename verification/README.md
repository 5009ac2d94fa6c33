# To-do client: a Dafny model of its logic

The client is a single browser script, `app.js`. It lists the tasks a remote
API returns, creates tasks from a form (title, priority, optional deadline),
deletes tasks after a confirmation, reports progress with a spinner and
short toast messages, and keeps a light/dark theme in local storage.

This project models the deterministic logic under the DOM and network
wiring:

- `JsValues` (`js_values.dfy`): JavaScript numbers as NaN, an infinity
  or an exact finite value. Also the loose values a task `id` may hold,
  truthiness, and `String.prototype.trim` over the ECMA-262 whitespace set.
- `Format` (`format.dfy`): how a whole number below 10^21 in magnitude
  prints inside a template literal. Used for the priority in a row's label
  and the HTTP status in an error message. It is proved against a decimal
  reader.
- `Validation` (`validation.dfy`): `validateInput` and the coercion
  `Number(priorityInput) || 2` in the submit handler.
- `Render` (`render.dfy`): `renderTaskList` as a pure map from a task
  sequence to list entries. An entry is the placeholder or a row. A row has
  a completed style, a read-only checkbox, a label and a delete button's
  bound `(id, title)`.
- `Sync` (`sync.dfy`): `fetchTasks`, `handleDelete` and the submit
  handler. Each is a pure function from its inputs to the ordered effects
  the code performs: spinner on/off, toast text, confirmation prompt,
  request sent, list rendered, form reset. The inputs are the awaited
  replies, the confirm answer and the date parser. `Apply` folds the effects
  into the visible state `UiState(spinnerVisible, toast, rendered)`.
- `Outcomes` (`outcomes.dfy`): the final visible state of every flow for
  every combination of replies, plus page start-up.
- `Theme` (`theme.dfy`): the toggle button and the start-up rule, over a
  flag and a string map.

Treated as inputs: every network reply (`Reply`: `Ok(tasks)`,
`HttpFail(status, errorField)`, `Thrown(message)`), the user's confirm
answer, `Date.parse` (a predicate `dateParses`), and the result of
`Number(...)` on the priority field.

Two behaviours of the code are easy to miss, and the model keeps both:

- Delete guard: `!id` (app.js:79) tests truthiness, so an id of `0`,
  `NaN`, `false`, `null` or `""` counts as missing.
- Priority: `Number(priorityInput) || 2` (app.js:111) turns 0 and NaN into
  2 before validation, so empty or non-numeric priority text is never
  rejected, while 5 or 2.5 still are.

## Model

| member | source | states |
|---|---|---|
| JsValues.Truthy | app.js:79 | ToBoolean on the values an id may hold; characterised by FalsyValues |
| JsValues.FalsyValues | app.js:79 | a value is falsy exactly when it is undefined, null, false, NaN, zero or "" |
| JsValues.IsInteger | app.js:23 | `Number.isInteger`: finite with no fractional part; with Below and Above, characterised by Validation.PriorityRuleExact |
| JsValues.Below | app.js:23 | `priority < 1`, false for NaN and true for minus infinity; characterised by Validation.PriorityRuleExact |
| JsValues.Above | app.js:23 | `priority > 3`, false for NaN and true for plus infinity; characterised by Validation.PriorityRuleExact |
| JsValues.NumberTruthy | app.js:111 | ToBoolean on a number, the test the priority coercion makes: only NaN and zero are falsy; characterised by Validation.CoercePriority and CoercedPriorityAccepted |
| JsValues.TrimStart | app.js:22 | result is a suffix of the input that does not start with whitespace, and every dropped character is whitespace |
| JsValues.TrimEnd | app.js:22 | result is a prefix of the input that does not end with whitespace, and every dropped character is whitespace |
| JsValues.Trim | app.js:22 | `title.trim()`; characterised by TrimEnds and TrimEmptyIffBlank |
| JsValues.TrimEnds | app.js:22 | what `title.trim()` keeps neither starts nor ends with whitespace |
| JsValues.TrimEmptyIffBlank | app.js:22 | the title rule's test `!title.trim()` holds iff the title is empty or all whitespace |
| Format.NatToString | app.js:64 | the digits of a whole number are non-empty decimal digits with no leading zero unless the number is 0 |
| Format.IntToString | app.js:64 | printed whole numbers start with '-' exactly when negative, followed by digits |
| Format.NatToStringValue | app.js:64 | reading the printed digits back gives the number |
| Format.IntToStringValue | app.js:33 | reading a printed whole number (status or priority) back gives the number |
| Format.IntToStringInjective | app.js:94 | different statuses or priorities print differently |
| Validation.Message | app.js:22-24 | the three rejection texts; characterised by MessagesDistinct and ValidateInput |
| Validation.MessagesDistinct | app.js:22-24 | each rejection has its own message, so the toast tells which rule failed |
| Validation.ValidateInput | app.js:21-26 | blank title gives "Title is required." whatever else; otherwise a priority other than 1, 2 or 3 gives "Priority must be 1-3."; otherwise a non-empty deadline that does not parse gives "Deadline is invalid."; None exactly when all three pass |
| Validation.CoercePriority | app.js:111 | the coerced priority is never 0 or NaN; a truthy number passes unchanged and a falsy one becomes 2 |
| Validation.EmptyDeadlineNeverInvalid | app.js:24 | an empty deadline never yields "Deadline is invalid.", whatever the date parser says |
| Validation.FalsyPriorityNeverRejected | app.js:111-113 | priority text converting to 0 or NaN never yields the priority message, and passes validation when title and deadline are fine |
| Validation.TruthyOutOfRangeRejected | app.js:111-113 | a truthy priority outside {1,2,3} (5, 2.5, Infinity) still yields the priority message once the title is non-blank |
| Validation.CoercedPriorityAccepted | app.js:111-113 | after coercion the priority passes exactly when the converted value was 0, NaN, 1, 2 or 3 |
| Validation.PriorityRuleExact | app.js:23 | integer, not below 1 and not above 3 admits exactly the numbers 1, 2 and 3 |
| Validation.FormExamples | app.js:21-26 | ("Buy milk", 2, "") passes; "" gives the title message; priority 5 or 2.5 gives the priority message; unparseable priority text passes |
| Render.DeadlineText | app.js:64 | a missing or empty deadline shows as "None"; a non-empty one shows as itself |
| Render.RowOf | app.js:55-69 | a row is styled and checked exactly when its task is completed, its checkbox is disabled, its text is the task's Label (laid out as LabelLayout states), and its delete button is bound to the task's id and title |
| Render.Rows | app.js:54-75 | one row per task, the i-th row being the i-th task's |
| Render.RenderTaskList | app.js:44-76 | the empty list renders the lone placeholder "🎉 No tasks yet!" and only it does; a non-empty list renders exactly one row per task in reply order |
| Render.EmptyListPlaceholder | app.js:47-51 | an empty reply shows one placeholder and offers no delete action |
| Render.RowsTargets | app.js:69 | the delete actions of the rows are the tasks' (id, title) pairs in order |
| Render.RenderedTargets | app.js:44-76 | any rendered reply offers exactly its tasks' (id, title) pairs as delete actions, in order, none for the empty reply |
| Render.RowsAppend | app.js:54-75 | rows of a concatenated reply are the rows of each part, concatenated |
| Render.Label | app.js:64 | the row text; characterised by LabelLayout |
| Render.LabelLayout | app.js:64 | the label is the title, " (Priority: ", text whose decimal value is the priority, ") Deadline: ", then the deadline text |
| Render.OneTaskExample | app.js:44-76 | `[{id:1,title:"A",priority:1,deadline:null,completed:false}]` renders one unchecked row "A (Priority: 1) Deadline: None" bound to id 1 |
| Sync.Step | app.js:12-19 | one effect on the visible state; with Apply, characterised by ApplyIsLastWrite |
| Sync.Apply | app.js:12-19 | the effects of a run performed in order; characterised by ApplyAppend and ApplyIsLastWrite |
| Sync.FailureMessage | app.js:33 | the error message a failed reply raises: "GET failed (status)", "Delete failed (status)", `err.error || "Unknown error"`, or the thrown message; characterised by FailureStatusText and Outcomes.CreateUnknownErrorText |
| Sync.FailureToast | app.js:38 | the operation's prefix followed by the error message; characterised by ToastNamesOperation and Outcomes.FetchNotFoundText |
| Sync.ToastNamesOperation | app.js:38 | failure toasts of different operations never coincide: "Error fetching tasks: ", "Error deleting: " and "Error adding: " tell them apart |
| Sync.FailureStatusText | app.js:94 | a list or delete failure's message is "GET failed (" or "Delete failed (", a number that reads back as the HTTP status, then ")" |
| Sync.DeletePrompt | app.js:84 | the confirmation text; characterised by DeletePromptNamesTask |
| Sync.DeletePromptNamesTask | app.js:84 | the prompt quotes the whole title, so distinct titles give distinct prompts |
| Sync.ApplyAppend | app.js:12-19 | effects performed one run after another act like one run |
| Sync.ApplyIsLastWrite | app.js:12-19 | spinner, toast text and list after a run are each what the run's last effect on them wrote, or unchanged |
| Sync.Call | app.js:87-101 | the try/finally shape shared by the three flows: spinner on, the request, the reply's handling, spinner off; the request comes first among its requests, renders are the handling's, and a handling that keeps the discipline gives a run that keeps it |
| Sync.DeleteRunRequests | app.js:89-96 | after the prompt, `handleDelete` requests the delete and then, only when the delete succeeded, one refresh |
| Sync.CreateRunRequests | app.js:121-134 | after validation, the submit handler requests the create and then, only when the create succeeded, one refresh |
| Sync.ConfirmedRun | app.js:84-87 | the confirmation prompt before the delete run adds no request or render and keeps the spinner discipline |
| Sync.SpinnerShownAtEachRequest | app.js:30-40 | under the spinner discipline the spinner is visible at every request, whatever the page showed before the run |
| Sync.SpinnerOutcome | app.js:39-41 | a run with the spinner discipline that touches the spinner leaves it hidden; one that does not leaves it as it was |
| Sync.ListOutcome | app.js:45 | the list after a run is unchanged if nothing was rendered, else the rendering of the last rendered reply |
| Sync.FetchTasks | app.js:29-42 | `fetchTasks` sends exactly one list request, renders the reply's tasks only on success, and keeps the spinner discipline: the list request goes out with the spinner shown, and the run ends by hiding it |
| Sync.AfterDelete | app.js:94-98 | after an accepted delete request a refresh is requested only if the delete succeeded, and a render happens only if the refresh succeeded too |
| Sync.HandleDelete | app.js:78-102 | a falsy id only shows "Missing task ID"; a declined confirmation only asks; both guards come before the spinner; requests are the delete then (on success) one refresh; rendering only on delete and refresh success; the delete request and the refresh's request go out with the spinner shown, and the run ends by hiding it |
| Sync.Check | app.js:111-113 | the validator's verdict on the form after the priority coercion; characterised by Validation.ValidateInput, Validation.CoercedPriorityAccepted and Outcomes.SentCreatesAreValid |
| Sync.CreateRequest | app.js:121-125 | the POST body `{title, priority, deadline}`: the raw title and deadline with the coerced priority; characterised by Outcomes.SentCreatesAreValid |
| Sync.AfterCreate | app.js:127-134 | after an accepted create request a refresh is requested only if the create succeeded, and a render happens only if the refresh succeeded too |
| Sync.Submit | app.js:105-140 | an invalid form only shows the validator's message and sends nothing; otherwise the spinner comes first, the create request carries the coerced priority, a refresh follows only a successful create, rendering only on both successes; the create request and the refresh's request go out with the spinner shown, and the run ends by hiding it |
| Outcomes.FetchOutcome | app.js:29-42 | after `fetchTasks` the spinner is hidden; success replaces the list and keeps the toast; failure keeps the list and shows "Error fetching tasks: " plus the message |
| Outcomes.FetchNotFoundText | app.js:33-38 | a 404 list reply shows "Error fetching tasks: GET failed (404)" |
| Outcomes.DeleteOutcome | app.js:78-102 | falsy id: only the toast changes; declined: nothing changes; otherwise spinner hidden, list changes only when the refresh succeeds, final toast "Error deleting: …", "Task deleted" or the refresh's error |
| Outcomes.ApplyCons | app.js:12-19 | performing one effect and then the rest is performing the rest from the state that effect left |
| Outcomes.CallOutcome | app.js:87-101 | a network call runs the reply's handling with the spinner shown and ends with it hidden, whatever the handling did and whatever the page showed before |
| Outcomes.ConfirmChangesNothing | app.js:84 | the confirmation prompt leaves the spinner, toast and list as they were |
| Outcomes.DeleteConfirmed | app.js:84-101 | once the prompt is accepted for a truthy id, the page ends as the delete call alone leaves it |
| Outcomes.DeleteRunOutcome | app.js:87-101 | the part of `handleDelete` after both guards ends with the spinner hidden and the toast and list as in DeleteOutcome |
| Outcomes.AfterDeleteOutcome | app.js:94-98 | after a delete reply: failure keeps the list and shows "Error deleting: …"; success shows "Task deleted" and lets the refresh decide the list and, on its failure, the toast |
| Outcomes.AfterCreateOutcome | app.js:127-134 | after a create reply: failure keeps the list and shows "Error adding: …"; success shows "Task added!" and lets the refresh decide the list and, on its failure, the toast |
| Outcomes.SubmitOutcome | app.js:105-140 | invalid form: only the toast changes to the validator's message; otherwise spinner hidden, list changes only when the refresh succeeds, final toast "Error adding: …", "Task added!" or the refresh's error |
| Outcomes.SubmitRejected | app.js:113-117 | a form the validator rejects only sets the toast to the validator's message; spinner and list are untouched |
| Outcomes.SubmitAccepted | app.js:113-139 | a form the validator accepts leaves the page as the create call with the coerced priority leaves it |
| Outcomes.CreateRunOutcome | app.js:119-139 | the accepted-submit part ends with the spinner hidden and the toast and list as in SubmitOutcome |
| Outcomes.CreateUnknownErrorText | app.js:127-136 | a rejected create whose body has no usable `error` field shows "Error adding: Unknown error" |
| Outcomes.SentCreatesAreValid | app.js:111-124 | a submit sends anything only when the form passed validation, and its first request is then the create request: non-blank title, priority 1, 2 or 3, empty or parseable deadline |
| Outcomes.RenderReplaces | app.js:45 | the rendered list does not depend on what was shown before, and rendering the same reply twice equals rendering it once |
| Outcomes.RowDeletesItsTask | app.js:69 | the requests row i's delete button can send are a prefix of [delete task i's id, refresh], and a task with a falsy id cannot be deleted from the page |
| Outcomes.Startup | app.js:149-156 | at load the theme follows `Theme.Init`'s rule, and exactly one list request is sent, with the spinner shown |
| Outcomes.StartupOutcome | app.js:149-156 | after load the spinner is hidden; the list shows the first reply's tasks with the toast unchanged, or on failure the list is unchanged and the toast is "Error fetching tasks: " plus the message |
| Theme.ModeText | app.js:145 | the stored text is "dark" exactly for dark mode and "light" otherwise |
| Theme.Init | app.js:149-153 | dark exactly when the stored theme equals "dark"; storage is not written |
| Theme.Toggle | app.js:143-146 | the mode flips; the stored theme is "dark" exactly when the new mode is dark and always "dark" or "light"; other keys are untouched |
| Theme.PressesFlip | app.js:143-146 | after n presses the mode is flipped n times and storage agrees with it whenever n > 0 |
| Theme.ReloadAfterToggle | app.js:143-153 | reloading after a toggle restores the mode the toggle chose |
| Theme.TogglesCancel | app.js:143-146 | two presses restore the mode, and storage then records it |
| Theme.FirstVisit | app.js:143-153 | with nothing stored the page starts light; the first press stores "dark", the second "light" |

## Left out

- Network I/O: `fetch`, HTTP, JSON parsing and the remote API are left out. Each awaited call is an input `Reply`. The request URL, method, headers and JSON body are not modelled; `Request` records only which call and its arguments.
- A list reply that is not an array of well-formed task records is left out: `renderTaskList` throwing midway, or non-string titles or deadlines. `Task` fields are typed.
- Task ids that are objects or arrays are left out. `Value` covers undefined, null, booleans, numbers and strings; JavaScript treats every object as truthy, so such ids would take the same path as other truthy ids.
- A create error body whose `error` field is not a string (a number, say) is left out. `errorField` is a string or absent.
- Number-to-text conversion is modelled for whole numbers only; fractional priorities in a reply are not modelled.
- Format.IntToString: prints every digit of any integer. JavaScript prints magnitudes of 10^21 or more in exponent form ("1e+21"), and a reply's number above 2^53 has already been rounded to a double. Neither is modelled; HTTP statuses are below 1000 and the server's priorities are 1 to 3.
- Theme.Init: assumes the page body starts without the `dark` class. The code only ever adds the class at load (app.js:151-153), so with markup that already carries it the page would start dark whatever is stored; the HTML is not part of this model.
- `Number(...)` string conversion and `Date.parse` are left out: the first is an input `Number` value, the second a predicate `dateParses`. Floating-point rounding is not modelled, since `Finite` holds an exact real.
- DOM construction is left out: element creation, CSS classes other than the completed style, the delete button's icon and tooltip, and `e.preventDefault()`.
- The form's fields are not part of the state. `ResetForm` is recorded as an effect only.
- The toast auto-hide after 3 seconds (`setTimeout`) is left out. `UiState.toast` is the last text shown.
- Concurrency is left out: overlapping refreshes, the last-response-wins race between them, and requests that never complete. The flows are modelled as if each awaited call completes before anything else runs.
- `localStorage` is a plain string map. Storage errors and quota are left out.
