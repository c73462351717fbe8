/** The task screen's state and handlers: the add-task validator
    (`handleAddTask`), the calendar's date selection (`handleDateSelect`),
    the form's other controls, and the effect that re-sorts the list
    whenever it changes. */
module TaskScreen {
  import opened Wrappers
  import opened Dates
  import opened TaskList

  /** The add-task form. A field that holds "" in the screen is "" here; the
      due date and calendar mark hold either "" (`None`) or a calendar day. */
  datatype Form = Form(
    showModal: bool,
    showCalendar: bool,
    className: string,
    assignmentName: string,
    dueDate: Option<Date>,
    markedDate: Option<Date>)

  datatype Screen = Screen(tasks: seq<Task>, form: Form)

  /** The screen after a handler, and the alert it raised, if any. */
  datatype Reaction = Reaction(screen: Screen, alert: Option<Alert>)

  /** Every `useState` at its initial value. */
  const InitialScreen := Screen([], Form(false, false, "", "", None, None))

  const DuplicateTaskAlert := Alert("Duplicate Task", "The task you are trying to add already exists.")
  const MissingFieldsAlert := Alert("Error", "Please fill out all fields.")

  /** The duplicate test: does some task already carry this assignment name
      (exact string equality)? */
  function SomeNamed(tasks: seq<Task>, name: string): (found: bool)
    ensures found <==> exists i | 0 <= i < |tasks| :: tasks[i].assignmentName == name
  {
    if |tasks| == 0 then false
    else tasks[0].assignmentName == name || SomeNamed(tasks[1..], name)
  }

  /** The empty-field test: a string field counts as missing only when it is "". */
  predicate MissingField(f: Form) {
    f.className == "" || f.assignmentName == "" || f.dueDate.None?
  }

  /** `handleAddTask`: the duplicate-name check, then the empty-field check,
      then the append, the sort and the form reset. `id` stands for
      `${Date.now()}`. */
  function HandleAddTask(s: Screen, id: string): (r: Reaction)
    ensures (exists i | 0 <= i < |s.tasks| :: s.tasks[i].assignmentName == s.form.assignmentName) ==>
              r == Reaction(s, Some(DuplicateTaskAlert))
    ensures ((forall i | 0 <= i < |s.tasks| :: s.tasks[i].assignmentName != s.form.assignmentName)
             && MissingField(s.form)) ==> r == Reaction(s, Some(MissingFieldsAlert))
    ensures r.alert.None? <==>
              (forall i | 0 <= i < |s.tasks| :: s.tasks[i].assignmentName != s.form.assignmentName)
              && s.form.className != "" && s.form.assignmentName != "" && s.form.dueDate.Some?
    ensures r.alert.None? ==>
              var added := Task(id, s.form.className, s.form.assignmentName, s.form.dueDate.value);
              && |r.screen.tasks| == |s.tasks| + 1
              && multiset(r.screen.tasks) == multiset(s.tasks) + multiset{added}
              && IsStableSortOf(r.screen.tasks, s.tasks + [added])
    ensures r.alert.None? ==>
              r.screen.form == Form(false, s.form.showCalendar, "", "", None, None)
  {
    if SomeNamed(s.tasks, s.form.assignmentName) then Reaction(s, Some(DuplicateTaskAlert))
    else if MissingField(s.form) then Reaction(s, Some(MissingFieldsAlert))
    else
      var added := Task(id, s.form.className, s.form.assignmentName, s.form.dueDate.value);
      var form := s.form.(showModal := false, className := "", assignmentName := "",
                          dueDate := None, markedDate := None);
      Reaction(Screen(SortByDueDate(s.tasks + [added]), form), None)
  }

  /** If the list held distinct assignment names before an add, it still does. */
  lemma AddKeepsNamesDistinct(s: Screen, id: string)
    requires DistinctNames(s.tasks)
    ensures DistinctNames(HandleAddTask(s, id).screen.tasks)
  {
    var r := HandleAddTask(s, id);
    if r.alert.None? {
      var added := Task(id, s.form.className, s.form.assignmentName, s.form.dueDate.value);
      var appended := s.tasks + [added];
      assert DistinctNames(appended) by {
        forall i, j | 0 <= i < j < |appended|
          ensures appended[i].assignmentName != appended[j].assignmentName
        {
          if j == |s.tasks| {
            assert appended[i] == s.tasks[i];
          } else {
            assert appended[i] == s.tasks[i] && appended[j] == s.tasks[j];
          }
        }
      }
      PermutationKeepsDistinctNames(appended, r.screen.tasks);
    }
  }

  /** Adding to a list in due-date order places the new task after every task
      due on or before its day and before every task due later. */
  lemma AddInsertsByDueDate(s: Screen, id: string)
    requires Sorted(s.tasks)
    requires HandleAddTask(s, id).alert.None?
    ensures var added := Task(id, s.form.className, s.form.assignmentName, s.form.dueDate.value);
            var k := NotAfterPrefix(added, s.tasks);
            && HandleAddTask(s, id).screen.tasks == s.tasks[..k] + [added] + s.tasks[k..]
            && (forall i | 0 <= i < k :: !Before(added.dueDate, s.tasks[i].dueDate))
            && (forall i | k <= i < |s.tasks| :: Before(added.dueDate, s.tasks[i].dueDate))
  {
    var added := Task(id, s.form.className, s.form.assignmentName, s.form.dueDate.value);
    SortAppended(s.tasks, added);
  }

  /** `handleDateSelect`: the picked day becomes both the due date and the
      calendar mark, and the calendar closes. */
  function HandleDateSelect(f: Form, day: Date): (r: Form)
    ensures r.dueDate == Some(day) && r.markedDate == Some(day) && !r.showCalendar
    ensures r.showModal == f.showModal && r.className == f.className && r.assignmentName == f.assignmentName
  {
    f.(dueDate := Some(day), markedDate := Some(day), showCalendar := false)
  }

  /** Once a day is picked, only the two text fields can still be missing. */
  lemma DateSelectFillsDueDate(f: Form, day: Date)
    ensures MissingField(HandleDateSelect(f, day)) <==> f.className == "" || f.assignmentName == ""
    ensures !MissingField(f) ==> !MissingField(HandleDateSelect(f, day))
  {
  }

  /** The due-date field's label as written: the placeholder, or `formatDate`
      of the picked day. `localYear`, `localMonthIndex` and `localDay` are the
      local fields of the parsed day, which depend on the device time zone. */
  function DueDateLabel(f: Form, localYear: int, localMonthIndex: int, localDay: int): (text: string)
    requires f.dueDate.Some? ==> 0 <= localMonthIndex <= 11 && 1 <= localDay <= 31
    ensures f.dueDate.None? ==> text == "Select a date"
    ensures f.dueDate.Some? ==>
              ParseSlashDate(text) == Some(Date(localYear, localMonthIndex + 1, localDay + 1))
  {
    match f.dueDate
    case None => "Select a date"
    case Some(_) => FormatDate(localYear, localMonthIndex, localDay)
  }

  /** On a device where the local fields are the picked day's own (UTC), the
      label shows the day after the picked day, never the picked day itself. */
  lemma DueDateLabelShowsNextDay(f: Form)
    requires f.dueDate.Some? && Valid(f.dueDate.value)
    ensures var d := f.dueDate.value;
            var shown := ParseSlashDate(DueDateLabel(f, d.year, d.month - 1, d.day));
            && shown == Some(Date(d.year, d.month, d.day + 1))
            && shown != Some(d)
            && (d.day == DaysInMonth(d.year, d.month) ==> !Valid(shown.value))
  {
  }

  /** The label with the corrected rendering: the placeholder, or the picked
      day as `MM/DD/YYYY` straight from the calendar date (see `FormatDueDate`). */
  function CorrectedDueDateLabel(f: Form): (text: string)
    requires f.dueDate.Some? ==> Valid(f.dueDate.value)
    ensures f.dueDate.None? ==> text == "Select a date"
    ensures f.dueDate.Some? ==> ParseSlashDate(text) == Some(f.dueDate.value)
  {
    match f.dueDate
    case None => "Select a date"
    case Some(d) => FormatDueDate(d)
  }

  /** The user actions the screen responds to. */
  datatype Event =
    | PressAdd                   // the floating add button
    | PressCancel                // the form's cancel button
    | TypeClass(text: string)    // the class input
    | TypeAssignment(text: string)
    | PressDueDate               // opens the calendar
    | CloseCalendar
    | PickDay(day: Date)         // a day pressed on the calendar
    | PressSave(id: string)      // the save button, with the id `Date.now()` would give

  /** The handler an event triggers, before any effect runs. */
  function Handle(s: Screen, e: Event): (r: Reaction)
    ensures e.PressSave? ==> r == HandleAddTask(s, e.id)
    ensures !e.PressSave? ==> r.screen.tasks == s.tasks && r.alert.None?
    ensures e.PickDay? ==> r.screen.form == HandleDateSelect(s.form, e.day)
    ensures e.PressAdd? ==> r.screen.form == s.form.(showModal := true)
    ensures e.PressCancel? ==> r.screen.form == s.form.(showModal := false)
    ensures e.TypeClass? ==> r.screen.form == s.form.(className := e.text)
    ensures e.TypeAssignment? ==> r.screen.form == s.form.(assignmentName := e.text)
    ensures e.PressDueDate? ==> r.screen.form == s.form.(showCalendar := true)
    ensures e.CloseCalendar? ==> r.screen.form == s.form.(showCalendar := false)
  {
    match e
    case PressAdd => Reaction(s.(form := s.form.(showModal := true)), None)
    case PressCancel => Reaction(s.(form := s.form.(showModal := false)), None)
    case TypeClass(text) => Reaction(s.(form := s.form.(className := text)), None)
    case TypeAssignment(text) => Reaction(s.(form := s.form.(assignmentName := text)), None)
    case PressDueDate => Reaction(s.(form := s.form.(showCalendar := true)), None)
    case CloseCalendar => Reaction(s.(form := s.form.(showCalendar := false)), None)
    case PickDay(day) => Reaction(s.(form := HandleDateSelect(s.form, day)), None)
    case PressSave(id) => HandleAddTask(s, id)
  }

  /** The `useEffect` on `[tasks]`: when the list has changed, store it sorted. */
  function ResortEffect(before: seq<Task>, after: seq<Task>): (r: seq<Task>)
    ensures after == before ==> r == after
    ensures after != before ==> IsStableSortOf(r, after) && multiset(r) == multiset(after)
    ensures Sorted(after) ==> r == after
  {
    SortFixesSorted(after);
    if after == before then after else SortByDueDate(after)
  }

  /** The sort leaves a list already in due-date order as it is. */
  lemma SortFixesSorted(s: seq<Task>)
    ensures Sorted(s) ==> SortByDueDate(s) == s
  {
    if Sorted(s) {
      SortKeepsSorted(s);
    }
  }

  /** One event: its handler, then the re-sort effect. */
  function Step(s: Screen, e: Event): Reaction {
    var r := Handle(s, e);
    r.(screen := r.screen.(tasks := ResortEffect(s.tasks, r.screen.tasks)))
  }

  function Run(s: Screen, events: seq<Event>): Screen
    decreases |events|
  {
    if |events| == 0 then s else Run(Step(s, events[0]).screen, events[1..])
  }

  /** What holds of the list between events: due-date order and distinct names. */
  predicate ListInvariant(tasks: seq<Task>) {
    Sorted(tasks) && DistinctNames(tasks)
  }

  /** Every handler keeps the list invariant, and the effect then never has
      anything to reorder. */
  lemma StepKeepsInvariant(s: Screen, e: Event)
    requires ListInvariant(s.tasks)
    ensures Step(s, e) == Handle(s, e)
    ensures ListInvariant(Step(s, e).screen.tasks)
  {
    var r := Handle(s, e);
    if e.PressSave? {
      AddKeepsNamesDistinct(s, e.id);
      SortKeepsSorted(r.screen.tasks);
    }
  }

  /** From the initial screen, after any sequence of events, the list is in
      due-date order with distinct assignment names. */
  lemma {:induction false} RunKeepsInvariant(s: Screen, events: seq<Event>)
    requires ListInvariant(s.tasks)
    ensures ListInvariant(Run(s, events).tasks)
    decreases |events|
  {
    if |events| > 0 {
      StepKeepsInvariant(s, events[0]);
      RunKeepsInvariant(Step(s, events[0]).screen, events[1..]);
    }
  }

  lemma ReachableListsAreSorted(events: seq<Event>)
    ensures Sorted(Run(InitialScreen, events).tasks)
    ensures DistinctNames(Run(InitialScreen, events).tasks)
  {
    RunKeepsInvariant(InitialScreen, events);
  }
}
