/**
 The three operation flows of the client: `fetchTasks` (app.js:29-42),
 `handleDelete` (app.js:78-102) and the form's submit handler
 (app.js:105-140).

 Each flow is a pure function from its inputs (the network replies it would
 await, the user's confirm answer, the date parser) to the sequence of
 effects the code performs, in order: showing or hiding the spinner, setting
 the toast text, asking for confirmation, sending a request, re-rendering the
 list, resetting the form. `Apply` folds effects into the visible state
 (spinner, toast text, rendered list), each effect overwriting its own part.
 */
module Sync {
  import opened JsValues
  import Format
  import Validation
  import Render

  /** How an awaited request ends. `Ok` is a 2xx response and carries the
      parsed list body (used by the list request only). `HttpFail` is any
      other status, with the `error` field of the JSON body when it is a
      string. `Thrown` is an exception with its message: a transport failure
      or a body that is not JSON. */
  datatype Reply =
    | Ok(tasks: seq<Render.Task>)
    | HttpFail(status: int, errorField: Option<string>)
    | Thrown(message: string)

  datatype Request =
    | ListTasks
    | CreateTask(title: string, priority: Number, deadline: string)
    | DeleteTask(id: Value)

  datatype Effect =
    | ShowSpinner
    | HideSpinner
    | ShowToast(text: string)
    | Confirm(prompt: string)
    | Send(request: Request)
    | RenderList(tasks: seq<Render.Task>)
    | ResetForm

  /** What the page shows: the spinner's visibility, the last toast text
      (None before any), and the list items. */
  datatype UiState = UiState(spinnerVisible: bool, toast: Option<string>,
                             rendered: seq<Render.Entry>)

  datatype Operation = Listing | Creating | Deleting

  /** The text a failed operation's toast starts with. */
  function Prefix(op: Operation): string {
    match op
    case Listing => "Error fetching tasks: "
    case Creating => "Error adding: "
    case Deleting => "Error deleting: "
  }

  /** The message of the error a failed reply raises inside the operation. */
  function FailureMessage(op: Operation, reply: Reply): string
    requires !reply.Ok?
  {
    match reply
    case Thrown(m) => m
    case HttpFail(status, errorField) =>
      match op
      case Listing => "GET failed (" + Format.IntToString(status) + ")"
      case Deleting => "Delete failed (" + Format.IntToString(status) + ")"
      case Creating =>
        if errorField.Some? && errorField.value != [] then errorField.value else "Unknown error"
  }

  /** The toast a failed reply leads to. */
  function FailureToast(op: Operation, reply: Reply): string
    requires !reply.Ok?
  {
    Prefix(op) + FailureMessage(op, reply)
  }

  /** The toast of a failure names the operation that failed: the three
      prefixes differ, so equal toasts come from the same operation. */
  lemma ToastNamesOperation(op1: Operation, r1: Reply, op2: Operation, r2: Reply)
    requires !r1.Ok? && !r2.Ok?
    requires FailureToast(op1, r1) == FailureToast(op2, r2)
    ensures op1 == op2
  {
    var m1, m2 := FailureMessage(op1, r1), FailureMessage(op2, r2);
    assert (Prefix(op1) + m1)[6] == Prefix(op1)[6];
    assert (Prefix(op2) + m2)[6] == Prefix(op2)[6];
  }

  /** A list or delete request that fails with an HTTP status reports that
      status: the number inside the parentheses reads back as the status. */
  lemma FailureStatusText(op: Operation, status: int, errorField: Option<string>)
    requires op != Creating
    ensures var m := FailureMessage(op, HttpFail(status, errorField));
      var lead := if op == Listing then "GET failed (" else "Delete failed (";
      && |m| > |lead| + 1 && m[..|lead|] == lead && m[|m| - 1] == ')'
      && Format.Value(m[|lead|..|m| - 1]) == status
  {
    var lead := if op == Listing then "GET failed (" else "Delete failed (";
    var d := Format.IntToString(status);
    var m := FailureMessage(op, HttpFail(status, errorField));
    assert m == lead + d + ")";
    assert m[|lead|..|m| - 1] == d;
    Format.IntToStringValue(status);
  }

  const MissingIdText: string := "Missing task ID"
  const DeletedText: string := "Task deleted"
  const AddedText: string := "Task added!"

  /** The confirmation question for deleting the task titled `title`. */
  function DeletePrompt(title: string): string {
    "Delete \"" + title + "\"?"
  }

  /** The prompt quotes the title whole: distinct titles give distinct
      prompts, so the user is asked about the task whose button was pressed. */
  lemma DeletePromptNamesTask(a: string, b: string)
    requires DeletePrompt(a) == DeletePrompt(b)
    ensures a == b
  {
    assert DeletePrompt(a)[8..|DeletePrompt(a)| - 2] == a;
    assert DeletePrompt(b)[8..|DeletePrompt(b)| - 2] == b;
  }

  // ---------------------------------------------------------------------
  // Visible state

  function Step(s: UiState, e: Effect): UiState {
    match e
    case ShowSpinner => s.(spinnerVisible := true)
    case HideSpinner => s.(spinnerVisible := false)
    case ShowToast(text) => s.(toast := Some(text))
    case RenderList(tasks) => s.(rendered := Render.RenderTaskList(tasks))
    case _ => s
  }

  /** The state after performing `t`'s effects in order from `s`. */
  function Apply(s: UiState, t: seq<Effect>): UiState
    decreases |t|
  {
    if t == [] then s else Apply(Step(s, t[0]), t[1..])
  }

  /** Effects performed one run after another act like one longer run. */
  lemma {:induction false} ApplyAppend(s: UiState, a: seq<Effect>, b: seq<Effect>)
    ensures Apply(s, a + b) == Apply(Apply(s, a), b)
    decreases |a|
  {
    if a != [] {
      assert (a + b)[0] == a[0];
      assert (a + b)[1..] == a[1..] + b;
      ApplyAppend(Step(s, a[0]), a[1..], b);
    } else {
      assert a + b == b;
    }
  }

  /** The spinner's visibility after `t`: set by its last spinner effect,
      `before` when there is none. */
  function SpinnerAfter(before: bool, t: seq<Effect>): bool {
    if t == [] then before
    else if t[|t| - 1] == ShowSpinner then true
    else if t[|t| - 1] == HideSpinner then false
    else SpinnerAfter(before, t[..|t| - 1])
  }

  /** The toast text after `t`: that of its last toast, `before` when none. */
  function ToastAfter(before: Option<string>, t: seq<Effect>): Option<string> {
    if t == [] then before
    else if t[|t| - 1].ShowToast? then Some(t[|t| - 1].text)
    else ToastAfter(before, t[..|t| - 1])
  }

  /** The list shown after `t`: the rendering of its last render, `before`
      when none. */
  function ListAfter(before: seq<Render.Entry>, t: seq<Effect>): seq<Render.Entry> {
    if t == [] then before
    else if t[|t| - 1].RenderList? then Render.RenderTaskList(t[|t| - 1].tasks)
    else ListAfter(before, t[..|t| - 1])
  }

  /** Last write wins: each part of the state after a run is what the last
      effect on that part wrote, or what it was before the run. */
  lemma {:induction false} ApplyIsLastWrite(s: UiState, t: seq<Effect>)
    ensures Apply(s, t) ==
      UiState(SpinnerAfter(s.spinnerVisible, t), ToastAfter(s.toast, t), ListAfter(s.rendered, t))
  {
    if t != [] {
      var front := t[..|t| - 1];
      var e := t[|t| - 1];
      assert t == front + [e];
      ApplyAppend(s, front, [e]);
      ApplyIsLastWrite(s, front);
      assert Apply(Apply(s, front), [e]) == Step(Apply(s, front), e);
    }
  }

  // ---------------------------------------------------------------------
  // Views of a run

  /** The requests a run sends, in order. */
  function Requests(t: seq<Effect>): seq<Request> {
    if t == [] then []
    else (if t[0].Send? then [t[0].request] else []) + Requests(t[1..])
  }

  /** The task lists a run renders, in order. */
  function Renders(t: seq<Effect>): seq<seq<Render.Task>> {
    if t == [] then []
    else (if t[0].RenderList? then [t[0].tasks] else []) + Renders(t[1..])
  }

  /** The run touches the spinner at all. */
  predicate TouchesSpinner(t: seq<Effect>) {
    ShowSpinner in t || HideSpinner in t
  }

  /** The spinner's visibility after effect `e`, from `on`. */
  function SpinnerStep(on: bool, e: Effect): bool {
    if e == ShowSpinner then true else if e == HideSpinner then false else on
  }

  /** Every request of `t` goes out while the spinner is shown, when the
      spinner's visibility is `on` as `t` starts. */
  predicate SpinnerUpAtRequests(on: bool, t: seq<Effect>)
    decreases |t|
  {
    t == [] || ((t[0].Send? ==> on) && SpinnerUpAtRequests(SpinnerStep(on, t[0]), t[1..]))
  }

  /** The spinner discipline every flow keeps: each request goes out while
      the spinner is shown, even when the spinner was hidden as the run
      started, and a run that touches the spinner ends by hiding it. */
  predicate SpinnerBracketed(t: seq<Effect>) {
    SpinnerUpAtRequests(false, t) && (TouchesSpinner(t) ==> t[|t| - 1] == HideSpinner)
  }

  /** Read against the page: whatever the state before the run, at every
      request of a disciplined run the spinner is visible. */
  lemma SpinnerShownAtEachRequest(s: UiState, t: seq<Effect>, i: nat)
    requires SpinnerBracketed(t) && i < |t| && t[i].Send?
    ensures Apply(s, t[..i]).spinnerVisible
  {
    SpinnerUpMonotone(false, s.spinnerVisible, t);
    SpinnerUpAt(s, t, i);
  }

  /** Induction behind SpinnerShownAtEachRequest: the fold's spinner flag
      tracks the flag SpinnerUpAtRequests threads along the run. */
  lemma {:induction false} SpinnerUpAt(s: UiState, t: seq<Effect>, i: nat)
    requires SpinnerUpAtRequests(s.spinnerVisible, t) && i < |t| && t[i].Send?
    ensures Apply(s, t[..i]).spinnerVisible
    decreases i
  {
    if i == 0 {
      assert t[..0] == [];
    } else {
      assert t[..i][0] == t[0];
      assert t[..i][1..] == t[1..][..i - 1];
      SpinnerUpAt(Step(s, t[0]), t[1..], i - 1);
    }
  }

  /** Starting with the spinner shown only helps. */
  lemma {:induction false} SpinnerUpMonotone(a: bool, b: bool, t: seq<Effect>)
    requires SpinnerUpAtRequests(a, t) && (a ==> b)
    ensures SpinnerUpAtRequests(b, t)
    decreases |t|
  {
    if t != [] {
      SpinnerUpMonotone(SpinnerStep(a, t[0]), SpinnerStep(b, t[0]), t[1..]);
    }
  }

  /** Two runs that each keep the spinner up at their requests on their own
      keep it up when run one after the other. */
  lemma {:induction false} SpinnerUpAppend(on: bool, a: seq<Effect>, b: seq<Effect>)
    requires SpinnerUpAtRequests(on, a) && SpinnerUpAtRequests(false, b)
    ensures SpinnerUpAtRequests(on, a + b)
    decreases |a|
  {
    if a == [] {
      assert a + b == b;
      SpinnerUpMonotone(false, on, b);
    } else {
      assert (a + b)[0] == a[0];
      assert (a + b)[1..] == a[1..] + b;
      SpinnerUpAppend(SpinnerStep(on, a[0]), a[1..], b);
    }
  }

  /** Requests of a concatenation are each part's requests, concatenated. */
  lemma {:induction false} RequestsAppend(a: seq<Effect>, b: seq<Effect>)
    ensures Requests(a + b) == Requests(a) + Requests(b)
  {
    if a != [] {
      assert (a + b)[0] == a[0];
      assert (a + b)[1..] == a[1..] + b;
      RequestsAppend(a[1..], b);
    } else {
      assert a + b == b;
    }
  }

  /** Renders of a concatenation are each part's renders, concatenated. */
  lemma {:induction false} RendersAppend(a: seq<Effect>, b: seq<Effect>)
    ensures Renders(a + b) == Renders(a) + Renders(b)
  {
    if a != [] {
      assert (a + b)[0] == a[0];
      assert (a + b)[1..] == a[1..] + b;
      RendersAppend(a[1..], b);
    } else {
      assert a + b == b;
    }
  }

  /** A run that touches the spinner and ends by hiding it leaves the spinner
      hidden; one that never touches it leaves it as it was. */
  lemma SpinnerOutcome(s: UiState, t: seq<Effect>)
    requires SpinnerBracketed(t)
    ensures Apply(s, t).spinnerVisible == (s.spinnerVisible && !TouchesSpinner(t))
  {
    ApplyIsLastWrite(s, t);
    if !TouchesSpinner(t) {
      NoSpinnerEffect(s.spinnerVisible, t);
    }
  }

  /** A run without spinner effects leaves the spinner flag alone. */
  lemma {:induction false} NoSpinnerEffect(before: bool, t: seq<Effect>)
    requires !TouchesSpinner(t)
    ensures SpinnerAfter(before, t) == before
  {
    if t != [] {
      assert t[|t| - 1] in t;
      var front := t[..|t| - 1];
      assert forall e :: e in front ==> e in t;
      NoSpinnerEffect(before, front);
    }
  }

  /** The list on screen changes only through a render: with no render in
      the run it is what it was, otherwise it shows the last rendered reply. */
  lemma {:induction false} ListOutcome(s: UiState, t: seq<Effect>)
    ensures var r := Renders(t);
      Apply(s, t).rendered ==
        if r == [] then s.rendered else Render.RenderTaskList(r[|r| - 1])
  {
    ApplyIsLastWrite(s, t);
    ListAfterRenders(s.rendered, t);
  }

  /** The last-write list is the rendering of the last rendered reply. */
  lemma {:induction false} ListAfterRenders(before: seq<Render.Entry>, t: seq<Effect>)
    ensures var r := Renders(t);
      ListAfter(before, t) == if r == [] then before else Render.RenderTaskList(r[|r| - 1])
  {
    if t != [] {
      var front := t[..|t| - 1];
      var e := t[|t| - 1];
      assert t == front + [e];
      RendersAppend(front, [e]);
      assert Renders([e]) == (if e.RenderList? then [e.tasks] else []);
      ListAfterRenders(before, front);
    }
  }

  /** What a single effect sends and renders; one that is not a request
      keeps the spinner discipline on its own. */
  lemma ViewsOfOne(e: Effect)
    ensures Requests([e]) == if e.Send? then [e.request] else []
    ensures Renders([e]) == if e.RenderList? then [e.tasks] else []
    ensures !e.Send? ==> SpinnerUpAtRequests(false, [e])
  {
    assert [e][1..] == [];
  }

  /** A lone toast or prompt sends nothing, renders nothing and leaves the
      spinner alone. */
  lemma Quiet(e: Effect)
    requires e.ShowToast? || e.Confirm?
    ensures Requests([e]) == [] && Renders([e]) == []
    ensures SpinnerBracketed([e]) && !TouchesSpinner([e])
  {
    ViewsOfOne(e);
  }

  /** The requests and renders of a run built from three parts are those of
      the parts. */
  lemma ViewsOfThree(a: seq<Effect>, b: seq<Effect>, c: seq<Effect>)
    ensures Requests(a + b + c) == Requests(a) + Requests(b) + Requests(c)
    ensures Renders(a + b + c) == Renders(a) + Renders(b) + Renders(c)
  {
    RequestsAppend(a, b);
    RequestsAppend(a + b, c);
    RendersAppend(a, b);
    RendersAppend(a + b, c);
  }

  /** An effect that is not a request, followed by a run: the views add up,
      and the spinner discipline of the run carries over. */
  lemma OneThen(e: Effect, rest: seq<Effect>)
    ensures Requests([e] + rest) == Requests([e]) + Requests(rest)
    ensures Renders([e] + rest) == Renders([e]) + Renders(rest)
    ensures !e.Send? && SpinnerUpAtRequests(false, rest) ==> SpinnerUpAtRequests(false, [e] + rest)
  {
    ViewsOfOne(e);
    RequestsAppend([e], rest);
    RendersAppend([e], rest);
    if !e.Send? && SpinnerUpAtRequests(false, rest) {
      SpinnerUpAppend(false, [e], rest);
    }
  }

  /** Spinner on, then a request: the opening of every network call. */
  lemma ShowThenSend(request: Request)
    ensures Requests([ShowSpinner, Send(request)]) == [request]
    ensures Renders([ShowSpinner, Send(request)]) == []
    ensures SpinnerUpAtRequests(false, [ShowSpinner, Send(request)])
  {
    assert [ShowSpinner, Send(request)][1..] == [Send(request)];
    ViewsOfOne(Send(request));
  }

  /** A head whose requests go out under the spinner, a middle part, and
      the `finally` block's spinner-hide: the views add up, and the whole
      keeps the discipline when the middle part does. */
  lemma Bracket(head: seq<Effect>, middle: seq<Effect>)
    requires SpinnerUpAtRequests(false, head)
    ensures var t := head + middle + [HideSpinner];
      && Requests(t) == Requests(head) + Requests(middle)
      && Renders(t) == Renders(head) + Renders(middle)
      && TouchesSpinner(t)
      && (SpinnerUpAtRequests(false, middle) ==> SpinnerBracketed(t))
  {
    var t := head + middle + [HideSpinner];
    ViewsOfThree(head, middle, [HideSpinner]);
    ViewsOfOne(HideSpinner);
    assert t[|t| - 1] == HideSpinner;
    if SpinnerUpAtRequests(false, middle) {
      SpinnerUpAppend(false, head, middle);
      EndsHidden(head + middle);
    }
  }

  /** A disciplined run followed by the `finally` block's spinner-hide. */
  lemma EndsHidden(body: seq<Effect>)
    requires SpinnerUpAtRequests(false, body)
    ensures SpinnerBracketed(body + [HideSpinner]) && TouchesSpinner(body + [HideSpinner])
  {
    ViewsOfOne(HideSpinner);
    SpinnerUpAppend(false, body, [HideSpinner]);
    assert (body + [HideSpinner])[|body|] == HideSpinner;
  }

  // ---------------------------------------------------------------------
  // The flows

  /** The shape every network operation shares: `showSpinner()`, the
      request, what the code does with its reply (`after`), and
      `hideSpinner()` in the `finally` block. */
  function Call(request: Request, after: seq<Effect>): (t: seq<Effect>)
    ensures |t| == |after| + 3 && t[0] == ShowSpinner && t[1] == Send(request)
    ensures t[|t| - 1] == HideSpinner && TouchesSpinner(t)
    ensures Requests(t) == [request] + Requests(after)
    ensures Renders(t) == Renders(after)
    ensures SpinnerUpAtRequests(false, after) ==> SpinnerBracketed(t)
  {
    ShowThenSend(request);
    Bracket([ShowSpinner, Send(request)], after);
    [ShowSpinner, Send(request)] + after + [HideSpinner]
  }

  /** `fetchTasks()`: spinner on, one list request, then either a render of
      the reply's tasks or an error toast, spinner off. */
  function FetchTasks(reply: Reply): (t: seq<Effect>)
    ensures Requests(t) == [ListTasks]
    ensures Renders(t) == if reply.Ok? then [reply.tasks] else []
    ensures SpinnerBracketed(t) && TouchesSpinner(t)
  {
    var outcome := if reply.Ok? then RenderList(reply.tasks) else ShowToast(FailureToast(Listing, reply));
    ViewsOfOne(outcome);
    Call(ListTasks, [outcome])
  }

  /** What follows an accepted delete request: on success a toast and a
      refresh of the list, otherwise the error toast. */
  function AfterDelete(deleteReply: Reply, refreshReply: Reply): (m: seq<Effect>)
    ensures Requests(m) == if deleteReply.Ok? then [ListTasks] else []
    ensures Renders(m) == if deleteReply.Ok? && refreshReply.Ok? then [refreshReply.tasks] else []
    ensures SpinnerUpAtRequests(false, m)
  {
    if deleteReply.Ok? then
      OneThen(ShowToast(DeletedText), FetchTasks(refreshReply));
      [ShowToast(DeletedText)] + FetchTasks(refreshReply)
    else
      ViewsOfOne(ShowToast(FailureToast(Deleting, deleteReply)));
      [ShowToast(FailureToast(Deleting, deleteReply))]
  }

  /** `handleDelete(id, title)` with the user's answer to the confirmation
      and the replies of the delete request and of the refresh after it. */
  function HandleDelete(id: Value, title: string, confirmed: bool,
                        deleteReply: Reply, refreshReply: Reply): (t: seq<Effect>)
    ensures !Truthy(id) ==> t == [ShowToast(MissingIdText)]
    ensures Truthy(id) && !confirmed ==> t == [Confirm(DeletePrompt(title))]
    ensures Truthy(id) && confirmed ==> |t| > 2 && t[0] == Confirm(DeletePrompt(title)) && t[1] == ShowSpinner
    ensures Truthy(id) && confirmed ==>
      t == [Confirm(DeletePrompt(title))] + Call(DeleteTask(id), AfterDelete(deleteReply, refreshReply))
    ensures Requests(t) ==
      if !Truthy(id) || !confirmed then []
      else if deleteReply.Ok? then [DeleteTask(id), ListTasks]
      else [DeleteTask(id)]
    ensures Renders(t) ==
      if Truthy(id) && confirmed && deleteReply.Ok? && refreshReply.Ok? then [refreshReply.tasks] else []
    ensures SpinnerBracketed(t)
  {
    if !Truthy(id) then
      Quiet(ShowToast(MissingIdText));
      [ShowToast(MissingIdText)]
    else if !confirmed then
      Quiet(Confirm(DeletePrompt(title)));
      [Confirm(DeletePrompt(title))]
    else
      var run := Call(DeleteTask(id), AfterDelete(deleteReply, refreshReply));
      DeleteRunRequests(id, deleteReply, refreshReply);
      ConfirmedRun(DeletePrompt(title), run);
      [Confirm(DeletePrompt(title))] + run
  }

  /** The requests of a confirmed delete: the delete, then a refresh only
      after a successful delete. */
  lemma DeleteRunRequests(id: Value, deleteReply: Reply, refreshReply: Reply)
    ensures Requests(Call(DeleteTask(id), AfterDelete(deleteReply, refreshReply))) ==
      if deleteReply.Ok? then [DeleteTask(id), ListTasks] else [DeleteTask(id)]
  {
    RequestsOfCall(DeleteTask(id), AfterDelete(deleteReply, refreshReply));
  }

  /** The confirmation prompt before a disciplined run adds no request or
      render and keeps the discipline. */
  lemma ConfirmedRun(prompt: string, run: seq<Effect>)
    requires SpinnerBracketed(run) && |run| > 0 && run[|run| - 1] == HideSpinner
    ensures var t := [Confirm(prompt)] + run;
      && t[0] == Confirm(prompt) && t[1..] == run
      && Requests(t) == Requests(run) && Renders(t) == Renders(run)
      && SpinnerBracketed(t)
  {
    var t := [Confirm(prompt)] + run;
    OneThen(Confirm(prompt), run);
    assert t[1..] == run;
    assert t[|t| - 1] == HideSpinner;
  }

  /** The create form as read on submit; `priority` is `Number(...)` of the
      priority field's text. */
  datatype Form = Form(title: string, priority: Number, deadline: string)

  /** The outcome of the validator on a submitted form, after coercion. */
  function Check(form: Form, dateParses: string -> bool): Option<Validation.ValidationError> {
    Validation.ValidateInput(form.title, Validation.CoercePriority(form.priority), form.deadline, dateParses)
  }

  /** The create request a valid form sends: the raw title and deadline and
      the coerced priority. */
  function CreateRequest(form: Form): Request {
    CreateTask(form.title, Validation.CoercePriority(form.priority), form.deadline)
  }

  /** What follows an accepted create request: on success a toast, a form
      reset and a refresh of the list, otherwise the error toast. */
  function AfterCreate(createReply: Reply, refreshReply: Reply): (m: seq<Effect>)
    ensures Requests(m) == if createReply.Ok? then [ListTasks] else []
    ensures Renders(m) == if createReply.Ok? && refreshReply.Ok? then [refreshReply.tasks] else []
    ensures SpinnerUpAtRequests(false, m)
  {
    if createReply.Ok? then
      OneThen(ResetForm, FetchTasks(refreshReply));
      OneThen(ShowToast(AddedText), [ResetForm] + FetchTasks(refreshReply));
      [ShowToast(AddedText)] + ([ResetForm] + FetchTasks(refreshReply))
    else
      ViewsOfOne(ShowToast(FailureToast(Creating, createReply)));
      [ShowToast(FailureToast(Creating, createReply))]
  }

  /** The submit handler with the date parser and the replies of the create
      request and of the refresh after it. */
  function Submit(form: Form, dateParses: string -> bool,
                  createReply: Reply, refreshReply: Reply): (t: seq<Effect>)
    ensures Check(form, dateParses).Some? ==>
      t == [ShowToast(Validation.Message(Check(form, dateParses).value))]
    ensures Check(form, dateParses).None? ==> |t| > 2 && t[0] == ShowSpinner
    ensures Check(form, dateParses).None? ==>
      t == Call(CreateRequest(form), AfterCreate(createReply, refreshReply))
    ensures Requests(t) == (if Check(form, dateParses).Some? then []
                            else if createReply.Ok? then [CreateRequest(form), ListTasks]
                            else [CreateRequest(form)])
    ensures Renders(t) == (if Check(form, dateParses).None? && createReply.Ok? && refreshReply.Ok?
                           then [refreshReply.tasks] else [])
    ensures SpinnerBracketed(t)
  {
    var v := Check(form, dateParses);
    if v.Some? then
      Quiet(ShowToast(Validation.Message(v.value)));
      [ShowToast(Validation.Message(v.value))]
    else
      CreateRunRequests(CreateRequest(form), createReply, refreshReply);
      Call(CreateRequest(form), AfterCreate(createReply, refreshReply))
  }

  /** The requests of an accepted submit: the create, then a refresh only
      after a successful create. */
  lemma CreateRunRequests(request: Request, createReply: Reply, refreshReply: Reply)
    ensures Requests(Call(request, AfterCreate(createReply, refreshReply))) ==
      if createReply.Ok? then [request, ListTasks] else [request]
  {
    RequestsOfCall(request, AfterCreate(createReply, refreshReply));
  }

  /** A call whose handling requests at most one refresh: the call's own
      request, then that refresh if any. */
  lemma RequestsOfCall(request: Request, after: seq<Effect>)
    requires Requests(after) == [] || Requests(after) == [ListTasks]
    ensures Requests(Call(request, after)) ==
      if Requests(after) == [] then [request] else [request, ListTasks]
  {
    var t := Call(request, after);
    assert Requests(t) == [request] + Requests(after);
  }
}
