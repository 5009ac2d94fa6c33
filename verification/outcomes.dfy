/**
 What each flow leaves on the page: the spinner, the toast text and the
 task list after a fetch, a delete or a submit, for every combination of
 replies; plus the page's start-up (app.js:148-156).
 */
module Outcomes {
  import opened JsValues
  import Format
  import Validation
  import Render
  import Theme
  import opened Sync

  /** Performing `e` and then `rest` is performing `rest` from the state
      `e` leaves; a lone effect is one step. */
  lemma ApplyCons(s: UiState, e: Effect, rest: seq<Effect>)
    ensures Apply(s, [e] + rest) == Apply(Step(s, e), rest)
    ensures Apply(s, [e]) == Step(s, e)
  {
    assert ([e] + rest)[1..] == rest;
    assert [e][1..] == [];
  }

  /** Spinner on, then a request: only the spinner changes. */
  lemma OpenSpinner(s: UiState, request: Request)
    ensures Apply(s, [ShowSpinner, Send(request)]) == s.(spinnerVisible := true)
  {
    assert [ShowSpinner, Send(request)] == [ShowSpinner] + [Send(request)];
    ApplyCons(s, ShowSpinner, [Send(request)]);
    ApplyCons(s.(spinnerVisible := true), Send(request), []);
  }

  /** After `fetchTasks` the spinner is hidden; a successful reply replaces
      the list with its rendering and leaves the toast alone, a failed one
      leaves the list alone and shows "Error fetching tasks: " with the
      error's message. */
  lemma FetchOutcome(s: UiState, reply: Reply)
    ensures var s' := Apply(s, FetchTasks(reply));
      && !s'.spinnerVisible
      && (reply.Ok? ==> s'.rendered == Render.RenderTaskList(reply.tasks) && s'.toast == s.toast)
      && (!reply.Ok? ==> s'.rendered == s.rendered && s'.toast == Some(FailureToast(Listing, reply)))
  {
    var outcome := if reply.Ok? then RenderList(reply.tasks) else ShowToast(FailureToast(Listing, reply));
    ViewsOfOne(outcome);
    assert FetchTasks(reply) == Call(ListTasks, [outcome]);
    CallOutcome(s, ListTasks, [outcome]);
    ApplyCons(s.(spinnerVisible := true), outcome, []);
  }

  /** A list request answered with status 404 reads
      "Error fetching tasks: GET failed (404)". */
  lemma FetchNotFoundText()
    ensures FailureToast(Listing, HttpFail(404, None)) == "Error fetching tasks: GET failed (404)"
  {
    assert Format.IntToString(404) == "404" by {
      assert Format.NatToString(40) == "40" by {
        assert Format.NatToString(4) == "4";
      }
    }
  }

  /** `handleDelete` on every path. A falsy id only shows "Missing task ID";
      a declined confirmation changes nothing; otherwise the spinner ends
      hidden, a failed delete shows "Error deleting: " with the message and
      keeps the list, and a successful one shows "Task deleted" and refreshes,
      the refresh deciding the list and (when it fails) the final toast. */
  lemma DeleteOutcome(s: UiState, id: Value, title: string, confirmed: bool,
                      deleteReply: Reply, refreshReply: Reply)
    ensures var s' := Apply(s, HandleDelete(id, title, confirmed, deleteReply, refreshReply));
      && (!Truthy(id) ==> s' == s.(toast := Some(MissingIdText)))
      && (Truthy(id) && !confirmed ==> s' == s)
      && (Truthy(id) && confirmed ==> !s'.spinnerVisible)
      && (Truthy(id) && confirmed && !deleteReply.Ok? ==>
            s'.rendered == s.rendered && s'.toast == Some(FailureToast(Deleting, deleteReply)))
      && (Truthy(id) && confirmed && deleteReply.Ok? && refreshReply.Ok? ==>
            s'.rendered == Render.RenderTaskList(refreshReply.tasks) && s'.toast == Some(DeletedText))
      && (Truthy(id) && confirmed && deleteReply.Ok? && !refreshReply.Ok? ==>
            s'.rendered == s.rendered && s'.toast == Some(FailureToast(Listing, refreshReply)))
  {
    var t := HandleDelete(id, title, confirmed, deleteReply, refreshReply);
    if !Truthy(id) {
      assert t == [ShowToast(MissingIdText)];
      ApplyCons(s, ShowToast(MissingIdText), []);
    } else if !confirmed {
      assert t == [Confirm(DeletePrompt(title))];
      ApplyCons(s, Confirm(DeletePrompt(title)), []);
    } else {
      DeleteConfirmed(s, id, title, deleteReply, refreshReply);
      DeleteRunOutcome(s, id, deleteReply, refreshReply);
    }
  }

  /** Once confirmed, the prompt itself changes nothing on the page: what
      follows is the delete call. */
  lemma DeleteConfirmed(s: UiState, id: Value, title: string, deleteReply: Reply, refreshReply: Reply)
    requires Truthy(id)
    ensures Apply(s, HandleDelete(id, title, true, deleteReply, refreshReply))
         == Apply(s, Call(DeleteTask(id), AfterDelete(deleteReply, refreshReply)))
  {
    var run := Call(DeleteTask(id), AfterDelete(deleteReply, refreshReply));
    ConfirmChangesNothing(s, DeletePrompt(title), run);
  }

  /** A confirmation prompt leaves the page as it was. */
  lemma ConfirmChangesNothing(s: UiState, prompt: string, rest: seq<Effect>)
    ensures Apply(s, [Confirm(prompt)] + rest) == Apply(s, rest)
  {
    ApplyCons(s, Confirm(prompt), rest);
  }

  /** The part of `handleDelete` after both guards passed and the prompt
      was answered. */
  lemma DeleteRunOutcome(s: UiState, id: Value, deleteReply: Reply, refreshReply: Reply)
    ensures var s' := Apply(s, Call(DeleteTask(id), AfterDelete(deleteReply, refreshReply)));
      && !s'.spinnerVisible
      && (!deleteReply.Ok? ==>
            s'.rendered == s.rendered && s'.toast == Some(FailureToast(Deleting, deleteReply)))
      && (deleteReply.Ok? && refreshReply.Ok? ==>
            s'.rendered == Render.RenderTaskList(refreshReply.tasks) && s'.toast == Some(DeletedText))
      && (deleteReply.Ok? && !refreshReply.Ok? ==>
            s'.rendered == s.rendered && s'.toast == Some(FailureToast(Listing, refreshReply)))
  {
    var after := AfterDelete(deleteReply, refreshReply);
    CallOutcome(s, DeleteTask(id), after);
    AfterDeleteOutcome(s.(spinnerVisible := true), deleteReply, refreshReply);
  }

  /** A network operation: the reply's handling runs with the spinner
      shown, and the spinner ends hidden whatever that handling did. */
  lemma CallOutcome(s: UiState, request: Request, after: seq<Effect>)
    ensures Apply(s, Call(request, after)) ==
      Apply(s.(spinnerVisible := true), after).(spinnerVisible := false)
  {
    var head := [ShowSpinner, Send(request)];
    assert Call(request, after) == head + after + [HideSpinner];
    Finally(s, head + after);
    ApplyAppend(s, head, after);
    OpenSpinner(s, request);
  }

  /** A run ending with the `finally` block's spinner-hide. */
  lemma Finally(s: UiState, body: seq<Effect>)
    ensures Apply(s, body + [HideSpinner]) == Apply(s, body).(spinnerVisible := false)
  {
    ApplyAppend(s, body, [HideSpinner]);
    ApplyCons(Apply(s, body), HideSpinner, []);
  }

  /** The toast and list after a delete reply and the refresh it triggers. */
  lemma AfterDeleteOutcome(s: UiState, deleteReply: Reply, refreshReply: Reply)
    ensures var s' := Apply(s, AfterDelete(deleteReply, refreshReply));
      && (!deleteReply.Ok? ==>
            s'.rendered == s.rendered && s'.toast == Some(FailureToast(Deleting, deleteReply)))
      && (deleteReply.Ok? && refreshReply.Ok? ==>
            s'.rendered == Render.RenderTaskList(refreshReply.tasks) && s'.toast == Some(DeletedText))
      && (deleteReply.Ok? && !refreshReply.Ok? ==>
            s'.rendered == s.rendered && s'.toast == Some(FailureToast(Listing, refreshReply)))
  {
    if deleteReply.Ok? {
      assert AfterDelete(deleteReply, refreshReply) == [ShowToast(DeletedText)] + FetchTasks(refreshReply);
      ApplyCons(s, ShowToast(DeletedText), FetchTasks(refreshReply));
      FetchOutcome(s.(toast := Some(DeletedText)), refreshReply);
    } else {
      assert AfterDelete(deleteReply, refreshReply) == [ShowToast(FailureToast(Deleting, deleteReply))];
      ApplyCons(s, ShowToast(FailureToast(Deleting, deleteReply)), []);
    }
  }

  /** The toast and list after a create reply and the refresh it triggers. */
  lemma AfterCreateOutcome(s: UiState, createReply: Reply, refreshReply: Reply)
    ensures var s' := Apply(s, AfterCreate(createReply, refreshReply));
      && (!createReply.Ok? ==>
            s'.rendered == s.rendered && s'.toast == Some(FailureToast(Creating, createReply)))
      && (createReply.Ok? && refreshReply.Ok? ==>
            s'.rendered == Render.RenderTaskList(refreshReply.tasks) && s'.toast == Some(AddedText))
      && (createReply.Ok? && !refreshReply.Ok? ==>
            s'.rendered == s.rendered && s'.toast == Some(FailureToast(Listing, refreshReply)))
  {
    if createReply.Ok? {
      assert AfterCreate(createReply, refreshReply) == [ShowToast(AddedText)] + ([ResetForm] + FetchTasks(refreshReply));
      AddedThenRefresh(s, refreshReply);
      FetchOutcome(s.(toast := Some(AddedText)), refreshReply);
    } else {
      assert AfterCreate(createReply, refreshReply) == [ShowToast(FailureToast(Creating, createReply))];
      ApplyCons(s, ShowToast(FailureToast(Creating, createReply)), []);
    }
  }

  /** "Task added!" and the form reset, then the refresh: only the toast
      changes before the refresh runs. */
  lemma AddedThenRefresh(s: UiState, refreshReply: Reply)
    ensures Apply(s, [ShowToast(AddedText)] + ([ResetForm] + FetchTasks(refreshReply))) ==
      Apply(s.(toast := Some(AddedText)), FetchTasks(refreshReply))
  {
    var s2 := s.(toast := Some(AddedText));
    ApplyCons(s, ShowToast(AddedText), [ResetForm] + FetchTasks(refreshReply));
    ApplyCons(s2, ResetForm, FetchTasks(refreshReply));
  }

  /** The submit handler on every path. An invalid form only shows the
      validator's message; otherwise the spinner ends hidden, a rejected
      create shows "Error adding: " with the message and keeps the list, and
      an accepted one shows "Task added!" and refreshes, the refresh deciding
      the list and (when it fails) the final toast. */
  lemma SubmitOutcome(s: UiState, form: Form, dateParses: string -> bool,
                      createReply: Reply, refreshReply: Reply)
    ensures var s' := Apply(s, Submit(form, dateParses, createReply, refreshReply));
      var v := Check(form, dateParses);
      && (v.Some? ==> s' == s.(toast := Some(Validation.Message(v.value))))
      && (v.None? ==> !s'.spinnerVisible)
      && (v.None? && !createReply.Ok? ==>
            s'.rendered == s.rendered && s'.toast == Some(FailureToast(Creating, createReply)))
      && (v.None? && createReply.Ok? && refreshReply.Ok? ==>
            s'.rendered == Render.RenderTaskList(refreshReply.tasks) && s'.toast == Some(AddedText))
      && (v.None? && createReply.Ok? && !refreshReply.Ok? ==>
            s'.rendered == s.rendered && s'.toast == Some(FailureToast(Listing, refreshReply)))
  {
    if Check(form, dateParses).Some? {
      SubmitRejected(s, form, dateParses, createReply, refreshReply);
    } else {
      SubmitAccepted(s, form, dateParses, createReply, refreshReply);
      CreateRunOutcome(s, CreateRequest(form), createReply, refreshReply);
    }
  }

  /** An invalid form changes only the toast, to the validator's message. */
  lemma SubmitRejected(s: UiState, form: Form, dateParses: string -> bool,
                       createReply: Reply, refreshReply: Reply)
    requires Check(form, dateParses).Some?
    ensures Apply(s, Submit(form, dateParses, createReply, refreshReply))
         == s.(toast := Some(Validation.Message(Check(form, dateParses).value)))
  {
    var text := Validation.Message(Check(form, dateParses).value);
    assert Submit(form, dateParses, createReply, refreshReply) == [ShowToast(text)];
    ToastOnly(s, text);
  }

  /** A lone toast changes the toast text and nothing else. */
  lemma ToastOnly(s: UiState, text: string)
    ensures Apply(s, [ShowToast(text)]) == s.(toast := Some(text))
  {
    ApplyCons(s, ShowToast(text), []);
  }

  /** A valid form runs the create call. */
  lemma SubmitAccepted(s: UiState, form: Form, dateParses: string -> bool,
                       createReply: Reply, refreshReply: Reply)
    requires Check(form, dateParses).None?
    ensures Apply(s, Submit(form, dateParses, createReply, refreshReply))
         == Apply(s, Call(CreateRequest(form), AfterCreate(createReply, refreshReply)))
  {
  }

  /** The part of the submit handler after validation passed. */
  lemma CreateRunOutcome(s: UiState, request: Request, createReply: Reply, refreshReply: Reply)
    ensures var s' := Apply(s, Call(request, AfterCreate(createReply, refreshReply)));
      && !s'.spinnerVisible
      && (!createReply.Ok? ==>
            s'.rendered == s.rendered && s'.toast == Some(FailureToast(Creating, createReply)))
      && (createReply.Ok? && refreshReply.Ok? ==>
            s'.rendered == Render.RenderTaskList(refreshReply.tasks) && s'.toast == Some(AddedText))
      && (createReply.Ok? && !refreshReply.Ok? ==>
            s'.rendered == s.rendered && s'.toast == Some(FailureToast(Listing, refreshReply)))
  {
    var after := AfterCreate(createReply, refreshReply);
    CallOutcome(s, request, after);
    AfterCreateOutcome(s.(spinnerVisible := true), createReply, refreshReply);
  }

  /** A rejected create whose body carries no usable `error` text reads
      "Error adding: Unknown error", whatever the status. */
  lemma CreateUnknownErrorText(status: int, errorField: Option<string>)
    requires errorField == None || errorField == Some("")
    ensures FailureToast(Creating, HttpFail(status, errorField)) == "Error adding: Unknown error"
  {
  }

  /** A submit sends something only for a form that passed validation,
      and then its first request is the create request: a non-blank title,
      a priority of 1, 2 or 3, an empty or parseable deadline. */
  lemma SentCreatesAreValid(form: Form, dateParses: string -> bool,
                            createReply: Reply, refreshReply: Reply)
    ensures var rs := Requests(Submit(form, dateParses, createReply, refreshReply));
      rs != [] ==>
        && rs[0] == CreateRequest(form)
        && !Blank(form.title)
        && Validation.AcceptablePriority(CreateRequest(form).priority)
        && (form.deadline == [] || dateParses(form.deadline))
  {
  }

  /** Any run of effects shows, afterwards, the rendering of the last list
      it rendered; rendering fully replaces the list, so the state before
      does not matter and rendering the same reply again changes nothing. */
  lemma RenderReplaces(s1: UiState, s2: UiState, tasks: seq<Render.Task>)
    ensures Apply(s1, [RenderList(tasks)]).rendered == Apply(s2, [RenderList(tasks)]).rendered
    ensures Apply(s1, [RenderList(tasks), RenderList(tasks)]) == Apply(s1, [RenderList(tasks)])
  {
    ApplyCons(s1, RenderList(tasks), [RenderList(tasks)]);
    ApplyCons(s2, RenderList(tasks), []);
    ApplyCons(Step(s1, RenderList(tasks)), RenderList(tasks), []);
  }

  /** Pressing the delete button of row `i` of a rendered reply runs
      `handleDelete` with that task's id and title: the requests it can send
      are a delete of that id and then a refresh, in that order, and a task
      whose id is falsy (0, "", null, ...) cannot be deleted from the page. */
  lemma RowDeletesItsTask(tasks: seq<Render.Task>, i: nat, confirmed: bool,
                          deleteReply: Reply, refreshReply: Reply)
    requires i < |tasks|
    ensures var targets := Render.DeleteTargets(Render.RenderTaskList(tasks));
      |targets| == |tasks| &&
      var t := HandleDelete(targets[i].id, targets[i].title, confirmed, deleteReply, refreshReply);
      && Requests(t) <= [DeleteTask(tasks[i].id), ListTasks]
      && (!Truthy(tasks[i].id) ==> t == [ShowToast(MissingIdText)])
  {
    Render.RenderedTargets(tasks);
    var targets := Render.DeleteTargets(Render.RenderTaskList(tasks));
    assert targets[i] == Render.DeleteTarget(tasks[i].id, tasks[i].title);
  }

  /** Page load: the theme from storage, then one list refresh. */
  function Startup(storage: map<string, string>, listReply: Reply): (r: (Theme.ThemeState, seq<Effect>))
    ensures r.0 == Theme.Init(storage)
    ensures Requests(r.1) == [ListTasks] && SpinnerBracketed(r.1)
  {
    (Theme.Init(storage), FetchTasks(listReply))
  }

  /** After start-up the spinner is hidden and the list shows the first
      reply's tasks, or keeps what the page had under an error toast. */
  lemma StartupOutcome(s: UiState, storage: map<string, string>, listReply: Reply)
    ensures var s' := Apply(s, Startup(storage, listReply).1);
      && !s'.spinnerVisible
      && (listReply.Ok? ==> s'.rendered == Render.RenderTaskList(listReply.tasks) && s'.toast == s.toast)
      && (!listReply.Ok? ==> s'.rendered == s.rendered && s'.toast == Some(FailureToast(Listing, listReply)))
  {
    FetchOutcome(s, listReply);
  }
}
