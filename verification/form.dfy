/**
 The Steps component without its rendering: the two-field form, the submit
 handler that validates and then upserts, the per-row delete, and the
 component as a state machine over these events.
 */
module StepsForm {
  import opened Wrappers
  import opened Dates
  import opened DateText
  import opened Validator
  import opened Ledger

  /** The form's two text fields. */
  datatype FormData = FormData(date: string, distance: string)

  /** `{ date: '', distance: '' }`: the initial form and the form after a successful submit. */
  const EmptyForm: FormData := FormData("", "")

  /** The `name` attribute of the input an edit comes from: "date" or "distance". */
  datatype Field = DateField | DistanceField

  function Get(form: FormData, field: Field): string {
    match field
    case DateField => form.date
    case DistanceField => form.distance
  }

  /** handleChange: `{ ...prev, [name]: value }`. */
  function Change(form: FormData, field: Field, value: string): (r: FormData)
    ensures Get(r, field) == value
    ensures forall f :: f != field ==> Get(r, f) == Get(form, f)
  {
    match field
    case DateField => form.(date := value)
    case DistanceField => form.(distance := value)
  }

  /**
   How a submit attempt ends. FormatError and CalendarError stand for the two
   alerts; NotANumber is the silent return when the distance does not parse.
   */
  datatype Outcome = Saved | FormatError | CalendarError | NotANumber

  datatype Submission = Submission(form: FormData, steps: seq<Step>, outcome: Outcome)

  /**
   handleSubmit. `parseFloat` is JavaScript's parseFloat with None for NaN.
   Every failed attempt leaves the form and the table as they were.
   */
  function Submit(form: FormData, steps: seq<Step>, parseFloat: string -> Option<real>): (r: Submission)
    ensures r.outcome != Saved ==> r.form == form && r.steps == steps
    ensures r.outcome == Saved ==> r.form == EmptyForm
  {
    var parsedDistance := parseFloat(form.distance);
    MatchesPatternIff(form.date);
    if !MatchesPattern(form.date) then Submission(form, steps, FormatError)
    else if !IsValidDate(form.date) then Submission(form, steps, CalendarError)
    else if parsedDistance.None? then Submission(form, steps, NotANumber)
    else Submission(EmptyForm, Upsert(steps, form.date, parsedDistance.value), Saved)
  }

  /** Which outcome a submit attempt has, in terms of the date's shape and calendar fields and the parse. */
  lemma SubmitOutcome(form: FormData, steps: seq<Step>, parseFloat: string -> Option<real>)
    ensures var r := Submit(form, steps, parseFloat);
      && (r.outcome == FormatError <==> !HasDateShape(form.date))
      && (r.outcome == CalendarError <==>
            HasDateShape(form.date) && !(IsCalendarDate(Fields(form.date)) && 100 <= Fields(form.date).year))
      && (r.outcome == NotANumber <==> IsAcceptedDate(form.date) && parseFloat(form.distance).None?)
      && (r.outcome == Saved <==> IsAcceptedDate(form.date) && parseFloat(form.distance).Some?)
  {
    MatchesPatternIff(form.date);
    if HasDateShape(form.date) {
      IsValidDateIff(form.date);
    }
  }

  /** A saved submission adds the parsed distance to its date's total and changes no other date's total. */
  lemma SubmitAddsDistance(form: FormData, steps: seq<Step>, parseFloat: string -> Option<real>, d: string)
    requires ValidLedger(steps)
    requires IsAcceptedDate(form.date) && parseFloat(form.distance).Some?
    ensures Submit(form, steps, parseFloat).outcome == Saved
    ensures Total(Submit(form, steps, parseFloat).steps, d)
         == Total(steps, d) + (if d == form.date then parseFloat(form.distance).value else 0.0)
  {
    SubmitOutcome(form, steps, parseFloat);
    UpsertAddsToTotal(steps, form.date, parseFloat(form.distance).value, d);
  }

  /** Submitting keeps the table valid, and a saved date then has exactly one row. */
  lemma SubmitKeepsValid(form: FormData, steps: seq<Step>, parseFloat: string -> Option<real>)
    requires ValidLedger(steps)
    ensures ValidLedger(Submit(form, steps, parseFloat).steps)
    ensures Submit(form, steps, parseFloat).outcome == Saved ==> HasDate(Submit(form, steps, parseFloat).steps, form.date)
  {
    SubmitOutcome(form, steps, parseFloat);
    if Submit(form, steps, parseFloat).outcome == Saved {
      UpsertKeepsValid(steps, form.date, parseFloat(form.distance).value);
    }
  }

  // ---------------------------------------------------------------------------
  // The component as a state machine

  datatype State = State(form: FormData, steps: seq<Step>)

  /** What the user can do: type into an input, press OK, or click a row's delete mark. */
  datatype Event = Edit(field: Field, value: string) | SubmitForm | DeleteRow(date: string)

  /** The state on mount: an empty form and an empty table. */
  const Initial: State := State(EmptyForm, [])

  function Apply(st: State, e: Event, parseFloat: string -> Option<real>): State {
    match e
    case Edit(field, value) => State(Change(st.form, field, value), st.steps)
    case SubmitForm =>
      var r := Submit(st.form, st.steps, parseFloat);
      State(r.form, r.steps)
    case DeleteRow(date) => State(st.form, Delete(st.steps, date))
  }

  /** The events handled one after another, each to completion. */
  function Run(st: State, events: seq<Event>, parseFloat: string -> Option<real>): State
    decreases |events|
  {
    if |events| == 0 then st else Run(Apply(st, events[0], parseFloat), events[1..], parseFloat)
  }

  lemma ApplyKeepsValid(st: State, e: Event, parseFloat: string -> Option<real>)
    requires ValidLedger(st.steps)
    ensures ValidLedger(Apply(st, e, parseFloat).steps)
  {
    match e
    case Edit(_, _) =>
    case SubmitForm => SubmitKeepsValid(st.form, st.steps, parseFloat);
    case DeleteRow(date) => DeleteKeepsValid(st.steps, date);
  }

  lemma {:induction false} RunKeepsValid(st: State, events: seq<Event>, parseFloat: string -> Option<real>)
    requires ValidLedger(st.steps)
    ensures ValidLedger(Run(st, events, parseFloat).steps)
    decreases |events|
  {
    if |events| > 0 {
      ApplyKeepsValid(st, events[0], parseFloat);
      RunKeepsValid(Apply(st, events[0], parseFloat), events[1..], parseFloat);
    }
  }

  /** Every table the component can reach has accepted dates, unique, latest first. */
  lemma ReachableTablesAreValid(events: seq<Event>, parseFloat: string -> Option<real>)
    ensures ValidLedger(Run(Initial, events, parseFloat).steps)
    ensures UniqueDates(Run(Initial, events, parseFloat).steps)
  {
    RunKeepsValid(Initial, events, parseFloat);
    ValidLedgerHasUniqueDates(Run(Initial, events, parseFloat).steps);
  }

  /** A distance that does not parse changes nothing, whatever the date. */
  lemma NotANumberChangesNothing(form: FormData, steps: seq<Step>, parseFloat: string -> Option<real>)
    requires parseFloat(form.distance).None?
    ensures Submit(form, steps, parseFloat).form == form
    ensures Submit(form, steps, parseFloat).steps == steps
  {
  }
}
