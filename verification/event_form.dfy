/** `handleSubmit` of the event form (src/components/EventFormModal.tsx, and its
    copy inside src/components/Calendar.tsx): a total function from what the
    form holds at submission to either nothing, or "close the modal, then hand
    these details to `onSubmit`". */
module EventForm {
  import opened Common
  import opened Events
  import Time

  /** The modal's props: a new event on a given day, or an existing event to edit. */
  datatype Target = NewOn(date: Day) | Editing(event: Event)

  /** What `handleSubmit` reads. `name` and `endTime` come from element refs and
      are absent when the element is not mounted; `startTime`, `allDayChecked`
      and `selectedColor` are component state. */
  datatype FormState = FormState(
    name: Option<string>,
    allDayChecked: bool,
    startTime: Option<string>,
    endTime: Option<string>,
    selectedColor: Color)

  /** The callbacks `handleSubmit` calls, in call order. */
  datatype Effect = Close | Submit(details: EventDetails)

  predicate Filled(v: Option<string>) {
    v.Some? && v.value != ""
  }

  /** The day an event is filed under: the `date` prop when creating, the
      edited event's own date otherwise. `SubmittedDay` follows it through a
      submission into the store. */
  function TargetDate(target: Target): (d: Day)
    ensures target.NewOn? ==> d == target.date
    ensures target.Editing? ==> d == target.event.details.date
  {
    match target
    case NewOn(date) => date
    case Editing(event) => event.details.date
  }

  /** What an accepted submission promises of its details: a name, and both
      times unless the event is all-day. Nothing relates the two times. */
  predicate Submittable(d: EventDetails) {
    && d.name != ""
    && (d.timing.Timed? ==> d.timing.startTime != "" && d.timing.endTime != "")
  }

  /** `handleSubmit`. A missing or empty name rejects; an all-day event ignores
      the time inputs; a timed event needs both times and keeps them as typed. */
  function HandleSubmit(target: Target, form: FormState): (effects: seq<Effect>)
    ensures effects == [] || (|effects| == 2 && effects[0] == Close && effects[1].Submit?)
    ensures effects == [] <==>
      !Filled(form.name) || (!form.allDayChecked && (!Filled(form.startTime) || !Filled(form.endTime)))
    ensures effects != [] ==>
      var d := effects[1].details;
      && Submittable(d)
      && d.name == form.name.value
      && d.date == TargetDate(target)
      && d.color == form.selectedColor
      && (d.timing.AllDay? <==> form.allDayChecked)
      && (d.timing.Timed? ==> d.timing.startTime == form.startTime.value && d.timing.endTime == form.endTime.value)
  {
    if form.name.None? || form.name.value == "" then []
    else
      var name := form.name.value;
      var date := TargetDate(target);
      if form.allDayChecked then
        [Close, Submit(EventDetails(name, date, form.selectedColor, AllDay))]
      else if form.startTime.None? || form.startTime.value == "" || form.endTime.None? || form.endTime.value == "" then
        []
      else
        [Close, Submit(EventDetails(name, date, form.selectedColor, Timed(form.startTime.value, form.endTime.value)))]
  }

  /** The form the first time the modal opens: the edited event's values, or
      for a new event an empty name, the first palette colour, not all-day and
      no times. The modal stays mounted while closed, so its state (colour,
      all-day flag, start time) carries over to later openings. */
  function InitialForm(target: Target): (form: FormState)
    ensures target.NewOn? ==>
      form.selectedColor == EventColors[0] && !form.allDayChecked && form.startTime == Some("") && form.name == Some("")
    ensures target.Editing? ==>
      && form.name == Some(target.event.details.name)
      && form.selectedColor == target.event.details.color
      && (form.allDayChecked <==> target.event.details.timing.AllDay?)
  {
    match target
    case NewOn(_) => FormState(Some(""), false, Some(""), Some(""), EventColors[0])
    case Editing(e) =>
      match e.details.timing
      case AllDay => FormState(Some(e.details.name), true, Some(""), Some(""), e.details.color)
      case Timed(start, end) => FormState(Some(e.details.name), false, Some(start), Some(end), e.details.color)
  }

  /** Submitting a new-event form before typing a name does nothing. */
  lemma NewFormNeedsName(date: Day)
    ensures HandleSubmit(NewOn(date), InitialForm(NewOn(date))) == []
  {
  }

  /** Opening an existing event for the first time and submitting without
      changes resubmits the same details: the initial state and `handleSubmit`
      are inverse. */
  lemma EditUnchangedRoundTrip(e: Event)
    requires Submittable(e.details)
    ensures HandleSubmit(Editing(e), InitialForm(Editing(e))) == [Close, Submit(e.details)]
  {
  }

  /** With all-day checked, the time inputs have no effect on the outcome. */
  lemma AllDayIgnoresTimes(target: Target, form: FormState, start: Option<string>, end: Option<string>)
    requires form.allDayChecked
    ensures HandleSubmit(target, form) == HandleSubmit(target, form.(startTime := start, endTime := end))
    ensures HandleSubmit(target, form) != [] ==> HandleSubmit(target, form)[1].details.timing == AllDay
  {
  }

  /** An end time before the start time is accepted: only the browser's `min`
      attribute on the end-time input speaks to that order. */
  lemma EndBeforeStartAccepted()
    ensures var form := FormState(Some("Standup"), false, Some("10:00"), Some("09:00"), Red);
      HandleSubmit(NewOn(0), form) == [Close, Submit(EventDetails("Standup", 0, Red, Timed("10:00", "09:00")))]
  {
  }

  /** The value of an `<input type="time">`: empty or a valid time string. */
  predicate TimeInputValue(v: Option<string>) {
    v.Some? ==> v.value == "" || Time.IsTimeString(v.value)
  }

  /** When the time fields hold values a time input can produce, an accepted
      submission is well formed enough to be stored and sorted. */
  lemma AcceptedIsWellFormed(target: Target, form: FormState)
    requires TimeInputValue(form.startTime) && TimeInputValue(form.endTime)
    requires HandleSubmit(target, form) != []
    ensures WellFormed(HandleSubmit(target, form)[1].details)
  {
  }

  /** Where the submitted details go: `addEvent` for a new event (with the id
      the generator supplies), `updateEvent` under the edited event's id. */
  function Apply(es: seq<Event>, target: Target, effects: seq<Effect>, newId: Id): (r: seq<Event>)
    ensures effects == [] || !effects[|effects| - 1].Submit? ==> r == es
    ensures effects != [] && effects[|effects| - 1].Submit? && target.NewOn? ==>
      && |r| == |es| + 1 && r[..|es|] == es
      && r[|es|] == Event(newId, effects[|effects| - 1].details)
    ensures effects != [] && effects[|effects| - 1].Submit? && target.Editing? ==>
      && |r| == |es|
      && forall i :: 0 <= i < |es| ==>
        r[i] == (if es[i].id == target.event.id then Event(es[i].id, effects[|effects| - 1].details) else es[i])
    ensures target.Editing? ==> |r| == |es| && Ids(r) == Ids(es)
  {
    if effects == [] || !effects[|effects| - 1].Submit? then es
    else
      var d := effects[|effects| - 1].details;
      match target
      case NewOn(_) => AddEvent(es, d, newId)
      case Editing(e) => UpdateEvent(es, e.id, d)
  }

  /** The form has no date field: an accepted new event lands on the day whose
      cell opened the form, and an accepted edit leaves every event with the
      edited id on the day the edited event had when the form opened. */
  lemma SubmittedDay(es: seq<Event>, target: Target, form: FormState, newId: Id)
    requires HandleSubmit(target, form) != []
    ensures target.NewOn? ==>
      Apply(es, target, HandleSubmit(target, form), newId)[|es|].details.date == target.date
    ensures target.Editing? ==> forall i :: 0 <= i < |es| && es[i].id == target.event.id ==>
      Apply(es, target, HandleSubmit(target, form), newId)[i].details.date == target.event.details.date
  {
  }

  /** Whatever the user submits, the store stays valid, provided the id
      generator yields an unused id. */
  lemma SubmissionKeepsStoreValid(es: seq<Event>, target: Target, form: FormState, newId: Id)
    requires ValidStore(es) && newId !in Ids(es)
    requires TimeInputValue(form.startTime) && TimeInputValue(form.endTime)
    ensures ValidStore(Apply(es, target, HandleSubmit(target, form), newId))
  {
    var effects := HandleSubmit(target, form);
    if effects != [] {
      AcceptedIsWellFormed(target, form);
      var d := effects[1].details;
      match target
      case NewOn(_) => AddPreservesValid(es, d, newId);
      case Editing(e) => UpdatePreservesValid(es, e.id, d);
    }
  }
}
