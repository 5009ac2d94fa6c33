/**
 The task-creation form check (`validateInput`, app.js:21-26) and the
 coercion the submit handler applies to the priority field before it
 (app.js:111). The date parser is a parameter: `dateParses(d)` holds when
 `Date.parse(d)` is not NaN.
 */
module Validation {
  import opened JsValues

  /** The three rejections, in the order the rules are tried. */
  datatype ValidationError = TitleRequired | PriorityOutOfRange | DeadlineInvalid

  /** The message the form shows for each rejection. */
  function Message(e: ValidationError): string {
    match e
    case TitleRequired => "Title is required."
    case PriorityOutOfRange => "Priority must be 1-3."
    case DeadlineInvalid => "Deadline is invalid."
  }

  /** Each rejection has its own message. */
  lemma MessagesDistinct(a: ValidationError, b: ValidationError)
    requires Message(a) == Message(b)
    ensures a == b
  {
    assert Message(a)[0] == Message(b)[0];
  }

  /** The priorities the server accepts: the whole numbers 1, 2 and 3. */
  predicate AcceptablePriority(p: Number) {
    p == Finite(1.0) || p == Finite(2.0) || p == Finite(3.0)
  }

  /** `validateInput(title, priority, deadline)`: the first rule that fails,
      or None. Each rule fires exactly when the earlier ones pass and its own
      condition holds, whatever the later fields are. */
  function ValidateInput(title: string, priority: Number, deadline: string,
                         dateParses: string -> bool): (r: Option<ValidationError>)
    ensures r == Some(TitleRequired) <==> Blank(title)
    ensures r == Some(PriorityOutOfRange) <==> !Blank(title) && !AcceptablePriority(priority)
    ensures r == Some(DeadlineInvalid) <==>
      !Blank(title) && AcceptablePriority(priority) && deadline != [] && !dateParses(deadline)
    ensures r == None <==>
      !Blank(title) && AcceptablePriority(priority) && (deadline == [] || dateParses(deadline))
  {
    PriorityRuleExact(priority);
    TrimEmptyIffBlank(title);
    if Trim(title) == [] then Some(TitleRequired)
    else if !IsInteger(priority) || Below(priority, 1.0) || Above(priority, 3.0) then
      Some(PriorityOutOfRange)
    else if deadline != [] && !dateParses(deadline) then Some(DeadlineInvalid)
    else None
  }

  /** `Number(priorityInput) || 2`: the converted value when it is truthy,
      otherwise 2. The result is never NaN or zero. */
  function CoercePriority(n: Number): (p: Number)
    ensures NumberTruthy(p)
    ensures NumberTruthy(n) ==> p == n
    ensures !NumberTruthy(n) ==> p == Finite(2.0)
  {
    if NumberTruthy(n) then n else Finite(2.0)
  }

  /** An empty deadline never triggers the deadline rule, whatever the
      date parser says. */
  lemma EmptyDeadlineNeverInvalid(title: string, priority: Number, dateParses: string -> bool)
    ensures ValidateInput(title, priority, "", dateParses) != Some(DeadlineInvalid)
  {
  }

  /** Empty or unparseable priority text (converted to 0 or NaN) is replaced
      by 2 and so never draws the priority message. */
  lemma FalsyPriorityNeverRejected(title: string, n: Number, deadline: string,
                                   dateParses: string -> bool)
    requires !NumberTruthy(n)
    ensures ValidateInput(title, CoercePriority(n), deadline, dateParses) != Some(PriorityOutOfRange)
    ensures !Blank(title) && (deadline == [] || dateParses(deadline)) ==>
      ValidateInput(title, CoercePriority(n), deadline, dateParses) == None
  {
  }

  /** A truthy priority outside {1, 2, 3} survives the coercion and is
      rejected as soon as the title is not blank. */
  lemma TruthyOutOfRangeRejected(title: string, n: Number, deadline: string,
                                 dateParses: string -> bool)
    requires NumberTruthy(n) && !AcceptablePriority(n) && !Blank(title)
    ensures ValidateInput(title, CoercePriority(n), deadline, dateParses) == Some(PriorityOutOfRange)
  {
  }

  /** After coercion the validator lets a priority through exactly when the
      converted value was 0, NaN, 1, 2 or 3. */
  lemma CoercedPriorityAccepted(n: Number)
    ensures AcceptablePriority(CoercePriority(n)) <==> !NumberTruthy(n) || AcceptablePriority(n)
  {
  }

  /** The priority rule as written (integer, not below 1, not above 3)
      admits exactly the three acceptable values. */
  lemma PriorityRuleExact(p: Number)
    ensures (IsInteger(p) && !Below(p, 1.0) && !Above(p, 3.0)) <==> AcceptablePriority(p)
  {
    if IsInteger(p) && !Below(p, 1.0) && !Above(p, 3.0) {
      var k := p.x.Floor;
      assert 1 <= k <= 3;
      assert k == 1 || k == 2 || k == 3;
    }
  }

  /** The worked cases: a good form, a blank title, a priority of 5, a
      priority of 2.5, and unparseable priority text. */
  lemma FormExamples(dateParses: string -> bool)
    ensures ValidateInput("Buy milk", Finite(2.0), "", dateParses) == None
    ensures ValidateInput("", Finite(2.0), "", dateParses) == Some(TitleRequired)
    ensures ValidateInput("   ", Finite(9.0), "junk", dateParses) == Some(TitleRequired)
    ensures ValidateInput("Buy milk", CoercePriority(Finite(5.0)), "", dateParses) == Some(PriorityOutOfRange)
    ensures ValidateInput("Buy milk", CoercePriority(Finite(2.5)), "", dateParses) == Some(PriorityOutOfRange)
    ensures ValidateInput("Buy milk", CoercePriority(NaN), "", dateParses) == None
  {
    assert !IsJsSpace("Buy milk"[0]);
    assert Blank("   ") by {
      assert forall i :: 0 <= i < 3 ==> "   "[i] == ' ';
    }
  }
}
