/**
 * The due-status rules of the task list (app/tasks/page.tsx): whole days until a task
 * is due, the pill and label shown for it, the overdue and due-soon counters, the
 * category filter and its links, and the plural endings.
 */
module TasksPage {
  import opened Wrappers
  import opened Js
  import Dates
  import Uri

  /** What `daysUntil` returns: a whole number of days, or `Number.POSITIVE_INFINITY`. */
  datatype Days = Whole(n: int) | PositiveInfinity

  /** `Math.ceil(a / b)` for integers a and b > 0. */
  function CeilDiv(a: int, b: int): (q: int)
    requires b > 0
    ensures (q - 1) * b < a <= q * b
  {
    -((-a) / b)
  }

  /**
   * `daysUntil(date)`: +Infinity without a date, otherwise the millisecond distance from
   * `now` (the clock reading `Date.now()`) to the date, in days rounded up.
   */
  function DaysUntil(due: Option<Dates.Date>, now: int): (r: Days)
    ensures r.PositiveInfinity? <==> due.None?
    ensures due.Some? ==> (r.n - 1) * Dates.MsPerDay < Dates.TimeValue(due.value) - now <= r.n * Dates.MsPerDay
  {
    match due
    case None => PositiveInfinity
    case Some(d) => Whole(CeilDiv(Dates.TimeValue(d) - now, Dates.MsPerDay))
  }

  /** The ceiling is the only whole number of days with that property. */
  lemma DaysUntilUnique(due: Dates.Date, now: int, n: int)
    requires (n - 1) * Dates.MsPerDay < Dates.TimeValue(due) - now <= n * Dates.MsPerDay
    ensures DaysUntil(Some(due), now) == Whole(n)
  {
  }

  /** A date n whole days after the clock's own date and time is due in exactly n days. */
  lemma DaysUntilAfterAddingDays(now: Dates.Date, n: int)
    ensures DaysUntil(Some(Dates.AddInterval(now, n, "day")), Dates.TimeValue(now)) == Whole(n)
  {
    Dates.AddDaysTimeValue(now, n);
    DaysUntilUnique(Dates.AddInterval(now, n, "day"), Dates.TimeValue(now), n);
  }

  predicate IsOverdue(d: Days) {
    d.Whole? && d.n < 0
  }

  predicate IsDueSoon(d: Days) {
    d.Whole? && 0 <= d.n <= 7
  }

  const OverduePill: string := "pill pill-overdue"
  const DuePill: string := "pill pill-due"
  const OkPill: string := "pill pill-ok"

  /** `duePillClass(days)`. */
  function DuePillClass(d: Days): (c: string)
    ensures c == OverduePill || c == DuePill || c == OkPill
    ensures d.PositiveInfinity? ==> c == OkPill
  {
    if d.Whole? && d.n < 0 then OverduePill
    else if d.Whole? && d.n <= 7 then DuePill
    else OkPill
  }

  /** Exactly one class applies: overdue before the due day, due within seven days, ok otherwise. */
  lemma PillClassExactlyOne(d: Days)
    ensures DuePillClass(d) == OverduePill <==> IsOverdue(d)
    ensures DuePillClass(d) == DuePill <==> IsDueSoon(d)
    ensures DuePillClass(d) == OkPill <==> !IsOverdue(d) && !IsDueSoon(d)
  {
  }

  const NoDueDateLabel: string := "No due date"
  const DueTodayLabel: string := "Due today"
  const OverdueSuffix: string := " day(s) overdue"

  /** `dueLabel(date)`: no date, or the text for the whole days until the date. */
  function DueLabel(due: Option<Dates.Date>, now: int): (text: string)
    ensures due.None? ==> text == NoDueDateLabel
  {
    match due
    case None => NoDueDateLabel
    case Some(_) => DaysLabel(DaysUntil(due, now).n)
  }

  /** The text `dueLabel` shows for a date `days` whole days away. */
  function DaysLabel(days: int): (s: string)
    ensures days < 0 <==> |s| >= |OverdueSuffix| && s[|s| - |OverdueSuffix|..] == OverdueSuffix
  {
    if days < 0 then
      var s := NatToString(-days) + OverdueSuffix;
      assert s[|s| - |OverdueSuffix|..] == OverdueSuffix;
      s
    else if days == 0 then DueTodayLabel
    else
      var s := "Due in " + NatToString(days) + " day(s)";
      assert s[|s| - 1] == ')' != OverdueSuffix[|OverdueSuffix| - 1];
      s
  }

  /** Past due, the label gives the overdue days as digits that read back as that number. */
  lemma OverdueLabel(d: int)
    requires d < 0
    ensures DaysLabel(d) == NatToString(-d) + " day(s) overdue"
    ensures ToNumber(Str(NatToString(-d))) == Finite((-d) as real)
  {
    var n: nat := -d;
    NumberOfNat(n);
    assert n as real == (-d) as real;
    assert DaysLabel(d) == NatToString(n) + " day(s) overdue";
  }

  /** Ahead of the due date, the label gives the days left as digits that read back as that number. */
  lemma AheadLabel(d: int)
    requires d > 0
    ensures DaysLabel(d) == "Due in " + NatToString(d) + " day(s)"
    ensures ToNumber(Str(NatToString(d))) == Finite(d as real)
  {
    NumberOfNat(d);
  }

  /** "Due today" is shown exactly on the due day, and no dated label is the undated one. */
  lemma DueTodayExactly(d: int)
    ensures d == 0 <==> DaysLabel(d) == DueTodayLabel
    ensures DaysLabel(d) != NoDueDateLabel
  {
    if d != 0 {
      var n := if d < 0 then -d else d;
      assert |NatToString(n)| >= 1;
      assert |DaysLabel(d)| > |NoDueDateLabel| > |DueTodayLabel|;
    } else {
      assert |NoDueDateLabel| != |DueTodayLabel|;
    }
  }

  /** `tasks.filter((t) => daysUntil(t.nextDueAt) < 0).length`, over the tasks' next due dates. */
  function CountOverdue(dues: seq<Option<Dates.Date>>, now: int): (c: nat)
    ensures c <= |dues|
  {
    if dues == [] then 0
    else (if IsOverdue(DaysUntil(dues[0], now)) then 1 else 0) + CountOverdue(dues[1..], now)
  }

  /** `tasks.filter((t) => { const d = daysUntil(t.nextDueAt); return d >= 0 && d <= 7; }).length`. */
  function CountDueSoon(dues: seq<Option<Dates.Date>>, now: int): (c: nat)
    ensures c <= |dues|
  {
    if dues == [] then 0
    else (if IsDueSoon(DaysUntil(dues[0], now)) then 1 else 0) + CountDueSoon(dues[1..], now)
  }

  /** The two counters never overlap: together they count at most every task once. */
  lemma {:induction false} CountersDisjoint(dues: seq<Option<Dates.Date>>, now: int)
    ensures CountOverdue(dues, now) + CountDueSoon(dues, now) <= |dues|
  {
    if dues != [] {
      CountersDisjoint(dues[1..], now);
    }
  }

  /** A task with no next due date counts in neither counter, wherever it stands in the list. */
  lemma {:induction false} UndatedCountNowhere(before: seq<Option<Dates.Date>>, after: seq<Option<Dates.Date>>, now: int)
    ensures CountOverdue(before + [None] + after, now) == CountOverdue(before + after, now)
    ensures CountDueSoon(before + [None] + after, now) == CountDueSoon(before + after, now)
  {
    if before == [] {
      assert before + [None] + after == [None] + after;
      assert ([None] + after)[1..] == after;
      assert before + after == after;
    } else {
      assert (before + [None] + after)[1..] == before[1..] + [None] + after;
      assert (before + after)[1..] == before[1..] + after;
      UndatedCountNowhere(before[1..], after, now);
    }
  }

  /** `categoryHref(category)`. */
  function CategoryHref(category: Option<string>): (href: string)
    ensures |href| >= 6 && href[..6] == "/tasks"
    ensures href == "/tasks" <==> !TruthyString(category)
  {
    if !TruthyString(category) then "/tasks"
    else "/tasks?category=" + Uri.EncodeURIComponent(category.value)
  }

  /**
   * Without a category the link is the plain list; with one it is a single query parameter
   * whose value decodes back to exactly that category and holds no `&`, `=`, `#`, `+` or space.
   */
  lemma CategoryHrefCarriesCategory(category: Option<string>)
    ensures !TruthyString(category) ==> CategoryHref(category) == "/tasks"
    ensures TruthyString(category) ==>
              exists e :: CategoryHref(category) == "/tasks?category=" + e
                          && Uri.DecodeURIComponent(e) == Some(category.value)
                          && forall i :: 0 <= i < |e| ==> e[i] !in "&=#+ "
  {
    if TruthyString(category) {
      var e := Uri.EncodeURIComponent(category.value);
      Uri.DecodeEncode(category.value);
      Uri.NoQueryDelimiters(category.value);
      assert CategoryHref(category) == "/tasks?category=" + e;
    }
  }

  /** The filter of `getTasks`: by user alone, or by user and category. */
  datatype TaskWhere = ByUser(userId: string) | ByUserAndCategory(userId: string, category: string)

  /** `category ? { userId, category } : { userId }`. */
  function GetTasksWhere(userId: string, category: Option<string>): (w: TaskWhere)
    ensures w.userId == userId
    ensures w.ByUserAndCategory? <==> TruthyString(category)
    ensures w.ByUserAndCategory? ==> w.category == category.value
  {
    if TruthyString(category) then ByUserAndCategory(userId, category.value) else ByUser(userId)
  }

  /** `category?.trim() || ""`: the selected category from the query parameter. */
  function SelectedCategory(param: Option<string>): (s: string)
    ensures s == "" <==> param.None? || AllWhiteSpace(param.value)
    ensures s != "" ==> !IsWhiteSpace(s[0]) && !IsWhiteSpace(s[|s| - 1])
  {
    if param.Some? then
      TrimEmptyIff(param.value);
      Trim(param.value)
    else ""
  }

  /** The filter the page asks for: `getTasks(userId, selectedCategory || undefined)`. */
  function PageTasksWhere(userId: string, param: Option<string>): (w: TaskWhere)
    ensures w.userId == userId
    ensures w.ByUserAndCategory? ==> w.category != "" && w.category == SelectedCategory(param)
  {
    var selected := SelectedCategory(param);
    GetTasksWhere(userId, if selected != "" then Some(selected) else None)
  }

  /**
   * The category filter applies exactly when the trimmed query parameter is not empty, and
   * then filters by the trimmed text.
   */
  lemma CategoryFilterApplies(userId: string, param: Option<string>)
    ensures PageTasksWhere(userId, param).ByUserAndCategory? <==> param.Some? && !AllWhiteSpace(param.value)
    ensures PageTasksWhere(userId, param).userId == userId
    ensures PageTasksWhere(userId, param).ByUserAndCategory? ==>
              PageTasksWhere(userId, param).category == Trim(param.value)
  {
    if param.Some? {
      TrimEmptyIff(param.value);
    }
  }

  /** `{task.frequencyInterval > 1 ? "s" : ""}` after the unit. */
  function IntervalSuffix(interval: int): string {
    if interval > 1 then "s" else ""
  }

  /** `{task.completions.length === 1 ? "" : "s"}` after "completion log". */
  function CompletionSuffix(count: nat): string {
    if count == 1 then "" else "s"
  }

  /** "Every N unit(s)" as the list renders it. */
  function FrequencyText(interval: nat, unit: string): string {
    "Every " + NatToString(interval) + " " + unit + IntervalSuffix(interval)
  }

  /** "N completion log(s)" as the list renders it. */
  function CompletionText(count: nat): string {
    NatToString(count) + " completion log" + CompletionSuffix(count)
  }

  /** The plural ending appears after an interval above one, and after any count but one. */
  lemma PluralEndings(interval: int, count: nat)
    ensures IntervalSuffix(interval) == "s" <==> interval > 1
    ensures IntervalSuffix(interval) == "" <==> interval <= 1
    ensures CompletionSuffix(count) == "s" <==> count != 1
    ensures CompletionSuffix(count) == "" <==> count == 1
  {
  }

  lemma FrequencyExamples()
    ensures FrequencyText(1, "month") == "Every 1 month"
    ensures FrequencyText(3, "month") == "Every 3 months"
  {
    assert NatToString(1) == "1" && NatToString(3) == "3";
  }

  lemma NoCompletionsExample()
    ensures CompletionText(0) == "0 completion logs"
  {
    assert NatToString(0) == "0" && CompletionSuffix(0) == "s";
    assert CompletionText(0) == "0" + " completion log" + "s";
  }

  lemma OneCompletionExample()
    ensures CompletionText(1) == "1 completion log"
  {
    assert NatToString(1) == "1" && CompletionSuffix(1) == "";
    assert CompletionText(1) == "1" + " completion log" + "";
  }
}
