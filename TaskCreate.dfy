/**
 * Creating a task (`POST` in app/api/tasks/route.ts): an ordered chain of guards over
 * the JSON body, each returning early with its own status and message, and then the
 * row written for the new task, with its first due date from computeNextDue.
 */
module TaskCreate {
  import opened Wrappers
  import opened Js
  import opened Http
  import opened Dates

  /** `ALLOWED_UNITS`. */
  const AllowedUnits: set<string> := {"day", "week", "month", "year"}

  /** The fields the handler destructures from the request body. */
  datatype Body = Body(title: JsValue, category: JsValue, frequencyInterval: JsValue,
                       frequencyUnit: JsValue, notes: JsValue, lastDoneAt: JsValue)

  /** The `data` passed to `prisma.task.create`. */
  datatype TaskData = TaskData(userId: string, title: JsValue, category: JsValue, frequencyInterval: int,
                               frequencyUnit: string, lastDoneAt: Option<Date>, nextDueAt: Date, notes: JsValue)

  const MissingFieldsMessage: string := "Missing required fields."
  const InvalidUnitMessage: string := "Invalid frequency unit."
  const InvalidIntervalMessage: string := "Frequency interval must be an integer >= 1."

  /** `ALLOWED_UNITS.has(unit)`: only one of the four strings matches. */
  predicate IsAllowedUnit(unit: JsValue) {
    unit.Str? && unit.s in AllowedUnits
  }

  /** `!Number.isInteger(parsed) || parsed < 1` fails: a whole number of at least one. */
  predicate IsValidInterval(parsed: JsNumber) {
    IsInteger(parsed) && parsed.value >= 1.0
  }

  /** `value || null`. */
  function OrNull(v: JsValue): (r: JsValue)
    ensures r == Null <==> !Truthy(v)
    ensures r != Null ==> r == v
  {
    if Truthy(v) then v else Null
  }

  /**
   * `POST(req)`: the signed-in user, the parsed body, the date `new Date(lastDoneAt)`
   * gives, and the clock reading `new Date()` that computeNextDue falls back on.
   */
  function CreateTask(userId: Option<string>, body: Body, lastDoneParsed: Date, now: Date): (r: Response<TaskData>)
    ensures r.Ok? <==> TruthyString(userId) && Truthy(body.title) && Truthy(body.frequencyInterval)
                       && IsAllowedUnit(body.frequencyUnit) && IsValidInterval(ToNumber(body.frequencyInterval))
    ensures r.Error? ==> r.status in {400, 401}
  {
    var parsed := ToNumber(body.frequencyInterval);
    if !TruthyString(userId) then Error(401, UnauthorizedMessage)
    else if !Truthy(body.title) || !Truthy(body.frequencyInterval) || !Truthy(body.frequencyUnit) then
      Error(400, MissingFieldsMessage)
    else if !IsAllowedUnit(body.frequencyUnit) then Error(400, InvalidUnitMessage)
    else if !IsValidInterval(parsed) then Error(400, InvalidIntervalMessage)
    else
      var interval := parsed.value.Floor;
      var lastDoneAt := if Truthy(body.lastDoneAt) then Some(lastDoneParsed) else None;
      Ok(TaskData(userId.value, body.title, OrNull(body.category), interval, body.frequencyUnit.s,
                  lastDoneAt, ComputeNextDue(lastDoneAt, interval, body.frequencyUnit.s, now), OrNull(body.notes)))
  }

  /** Without a user the answer is 401, whatever the body holds. */
  lemma UnauthorizedFirst(userId: Option<string>, body: Body, lastDoneParsed: Date, now: Date)
    requires !TruthyString(userId)
    ensures CreateTask(userId, body, lastDoneParsed, now) == Error(401, UnauthorizedMessage)
  {
  }

  /**
   * The guards run in order: a falsy title, interval or unit is reported as missing before
   * the unit is looked at, and a bad unit is reported before the interval is.
   */
  lemma GuardOrder(userId: Option<string>, body: Body, lastDoneParsed: Date, now: Date)
    requires TruthyString(userId)
    ensures !Truthy(body.title) || !Truthy(body.frequencyInterval) || !Truthy(body.frequencyUnit) ==>
              CreateTask(userId, body, lastDoneParsed, now) == Error(400, MissingFieldsMessage)
    ensures Truthy(body.title) && Truthy(body.frequencyInterval) && Truthy(body.frequencyUnit)
            && !IsAllowedUnit(body.frequencyUnit) ==>
              CreateTask(userId, body, lastDoneParsed, now) == Error(400, InvalidUnitMessage)
    ensures Truthy(body.title) && Truthy(body.frequencyInterval) && IsAllowedUnit(body.frequencyUnit)
            && !IsValidInterval(ToNumber(body.frequencyInterval)) ==>
              CreateTask(userId, body, lastDoneParsed, now) == Error(400, InvalidIntervalMessage)
  {
  }

  /** An interval of 0 (or "") counts as missing, never as a bad integer. */
  lemma ZeroIntervalIsMissing(userId: Option<string>, body: Body, lastDoneParsed: Date, now: Date)
    requires TruthyString(userId) && (body.frequencyInterval == Num(0.0) || body.frequencyInterval == Str(""))
    ensures CreateTask(userId, body, lastDoneParsed, now) == Error(400, MissingFieldsMessage)
  {
  }

  /**
   * A numeric string is accepted as its number, white space around it included, so
   * `"3"` and `" 3 "` both give an interval of 3.
   */
  lemma NumericStringAccepted(userId: Option<string>, body: Body, lastDoneParsed: Date, now: Date,
                              n: nat, pre: string, post: string)
    requires TruthyString(userId) && Truthy(body.title) && IsAllowedUnit(body.frequencyUnit)
    requires n >= 1 && AllWhiteSpace(pre) && AllWhiteSpace(post)
    requires body.frequencyInterval == Str(pre + NatToString(n) + post)
    ensures CreateTask(userId, body, lastDoneParsed, now).Ok?
    ensures CreateTask(userId, body, lastDoneParsed, now).value.frequencyInterval == n
  {
    NumberOfNatToString(n, pre, post);
  }

  /** `true` converts to 1 and passes as an interval of one unit. */
  lemma TrueIsIntervalOne(userId: Option<string>, body: Body, lastDoneParsed: Date, now: Date)
    requires TruthyString(userId) && Truthy(body.title) && IsAllowedUnit(body.frequencyUnit)
    requires body.frequencyInterval == Bool(true)
    ensures CreateTask(userId, body, lastDoneParsed, now).Ok?
    ensures CreateTask(userId, body, lastDoneParsed, now).value.frequencyInterval == 1
  {
  }

  /** A title of white space only is truthy and is not trimmed: it passes the missing-field guard. */
  lemma BlankTitlePasses(userId: Option<string>, body: Body, lastDoneParsed: Date, now: Date, s: string)
    requires TruthyString(userId) && body.title == Str(s) && s != "" && AllWhiteSpace(s)
    requires Truthy(body.frequencyInterval) && Truthy(body.frequencyUnit)
    ensures CreateTask(userId, body, lastDoneParsed, now) != Error(400, MissingFieldsMessage)
  {
  }

  /**
   * The row written: the interval as a whole number of at least one, empty category and
   * notes as null, lastDoneAt only when the body's value is truthy, and a first due date
   * from computeNextDue that lies strictly after its base.
   */
  lemma CreatedRow(userId: Option<string>, body: Body, lastDoneParsed: Date, now: Date)
    requires CreateTask(userId, body, lastDoneParsed, now).Ok?
    ensures var d := CreateTask(userId, body, lastDoneParsed, now).value;
            && d.userId == userId.value && d.title == body.title
            && d.frequencyInterval >= 1 && d.frequencyInterval as real == ToNumber(body.frequencyInterval).value
            && d.frequencyUnit in AllowedUnits && Str(d.frequencyUnit) == body.frequencyUnit
            && (d.category == Null <==> !Truthy(body.category))
            && (d.notes == Null <==> !Truthy(body.notes))
            && (d.lastDoneAt.Some? <==> Truthy(body.lastDoneAt))
            && d.nextDueAt == ComputeNextDue(d.lastDoneAt, d.frequencyInterval, d.frequencyUnit, now)
            && TimeValue(d.nextDueAt) > TimeValue(d.lastDoneAt.GetOr(now))
  {
  }
}
