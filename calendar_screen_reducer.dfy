/**
 * The calendar screen's state machine: five actions, each of which returns a
 * new state built from the old one. Dafny values are immutable, so the old
 * state is never changed, which is what the copy-then-write of
 * `toggleCalendar` achieves in the JavaScript reducer.
 */
module CalendarScreenReducer {
  import opened Wrappers
  import opened Backend

  datatype State = State(
    calendars: seq<Calendar>,
    calendarsSelected: seq<bool>,
    events: seq<Event>,
    editingEvent: Option<EditingEvent>)

  /** `load` carries the events and, optionally, a fresh calendar list. */
  datatype Action =
    | Load(loadedEvents: seq<Event>, loadedCalendars: Option<seq<Calendar>>)
    | Edit(event: Event)
    | New(date: string)
    | CloseDialog
    | ToggleCalendar(index: int)

  /**
   * What a call of the reducer does: return a state, or throw the TypeError
   * that reading `calendars[0].id` raises when there is no calendar.
   */
  datatype Outcome = Returns(state: State) | ThrowsTypeError

  /** The state the screen starts from. */
  const Initial := State([], [], [], None)

  /** One checkbox per calendar. */
  predicate Aligned(s: State) {
    |s.calendarsSelected| == |s.calendars|
  }

  /**
   * `calendarsSelected[i] = !calendarsSelected[i]` on a copy of the array.
   * Past the end the array grows: the holes read as `undefined`, which every
   * reader treats as false, and the new entry is `!undefined`, that is true.
   * A negative index names no element, so the elements stay as they are.
   */
  function Toggle(sel: seq<bool>, i: int): (r: seq<bool>)
    ensures i < 0 ==> r == sel
    ensures 0 <= i < |sel| ==>
      |r| == |sel| && r[i] == !sel[i] && forall j :: 0 <= j < |sel| && j != i ==> r[j] == sel[j]
    ensures |sel| <= i ==>
      && |r| == i + 1 && r[i]
      && (forall j :: 0 <= j < |sel| ==> r[j] == sel[j])
      && (forall j :: |sel| <= j < i ==> !r[j])
  {
    if i < 0 then sel
    else if i < |sel| then sel[i := !sel[i]]
    else sel + seq(i - |sel|, _ => false) + [true]
  }

  function Reduce(s: State, a: Action): (r: Outcome)
    ensures r.ThrowsTypeError? <==> a.New? && |s.calendars| == 0
    ensures r.Returns? && !a.Load? ==> r.state.calendars == s.calendars && r.state.events == s.events
    ensures r.Returns? && !a.ToggleCalendar? && !a.Load? ==> r.state.calendarsSelected == s.calendarsSelected
    ensures r.Returns? && (a.Load? || a.ToggleCalendar?) ==> r.state.editingEvent == s.editingEvent
  {
    match a
    case Load(evs, cals) =>
      Returns(s.(
        events := evs,
        calendars := if cals.Some? then cals.value else s.calendars,
        calendarsSelected := if cals.Some? then seq(|cals.value|, _ => true) else s.calendarsSelected))
    case Edit(e) =>
      Returns(s.(editingEvent := Some(e)))
    case New(date) =>
      if |s.calendars| == 0 then ThrowsTypeError
      else Returns(s.(editingEvent := Some(EditingEvent(None, date, None, "", s.calendars[0].id))))
    case CloseDialog =>
      Returns(s.(editingEvent := None))
    case ToggleCalendar(i) =>
      Returns(s.(calendarsSelected := Toggle(s.calendarsSelected, i)))
  }

  // ---------------------------------------------------------------------------
  // Lemmas

  /** `load` with calendars replaces events and calendars and selects every calendar. */
  lemma LoadWithCalendars(s: State, evs: seq<Event>, cals: seq<Calendar>)
    ensures var r := Reduce(s, Load(evs, Some(cals)));
      && r.Returns?
      && r.state.events == evs && r.state.calendars == cals
      && |r.state.calendarsSelected| == |cals|
      && (forall i :: 0 <= i < |cals| ==> r.state.calendarsSelected[i])
      && r.state.editingEvent == s.editingEvent
  {
  }

  /** `load` without calendars replaces only the events. */
  lemma LoadWithoutCalendars(s: State, evs: seq<Event>)
    ensures Reduce(s, Load(evs, None)) == Returns(State(s.calendars, s.calendarsSelected, evs, s.editingEvent))
  {
  }

  /** `edit` opens the dialog on the given event and changes nothing else. */
  lemma EditOpensEvent(s: State, e: Event)
    ensures Reduce(s, Edit(e)) == Returns(State(s.calendars, s.calendarsSelected, s.events, Some(e)))
  {
  }

  /**
   * `new` opens the dialog on an event without id, on the given date, with an
   * empty description, in the first calendar; with no calendar it throws.
   */
  lemma NewOpensBlankEvent(s: State, date: string)
    ensures |s.calendars| == 0 <==> Reduce(s, New(date)).ThrowsTypeError?
    ensures |s.calendars| > 0 ==>
      var r := Reduce(s, New(date));
      && r.Returns?
      && r.state.editingEvent.Some?
      && var e := r.state.editingEvent.value;
      && e.id.None? && e.date == date && e.desc == "" && e.time.None?
      && e.calendarId == s.calendars[0].id
      && r.state.calendars == s.calendars && r.state.calendarsSelected == s.calendarsSelected
      && r.state.events == s.events
  {
  }

  /** `closeDialog` clears the editing event, changes nothing else, and a second one changes nothing. */
  lemma CloseDialogIdempotent(s: State)
    ensures Reduce(s, CloseDialog) == Returns(State(s.calendars, s.calendarsSelected, s.events, None))
    ensures Reduce(Reduce(s, CloseDialog).state, CloseDialog) == Reduce(s, CloseDialog)
  {
  }

  /** An in-range `toggleCalendar` flips one checkbox and nothing else. */
  lemma ToggleFlipsOne(s: State, i: int)
    requires 0 <= i < |s.calendarsSelected|
    ensures var r := Reduce(s, ToggleCalendar(i));
      && r.Returns?
      && |r.state.calendarsSelected| == |s.calendarsSelected|
      && r.state.calendarsSelected[i] == !s.calendarsSelected[i]
      && (forall j :: 0 <= j < |s.calendarsSelected| && j != i ==>
            r.state.calendarsSelected[j] == s.calendarsSelected[j])
      && r.state.calendars == s.calendars && r.state.events == s.events
      && r.state.editingEvent == s.editingEvent
  {
  }

  /** Toggling the same in-range calendar twice gives back the state. */
  lemma ToggleTwiceRestores(s: State, i: int)
    requires 0 <= i < |s.calendarsSelected|
    ensures Reduce(Reduce(s, ToggleCalendar(i)).state, ToggleCalendar(i)) == Returns(s)
  {
    assert s.calendarsSelected[i := !s.calendarsSelected[i]][i := s.calendarsSelected[i]] == s.calendarsSelected;
  }

  /** Toggling past the end selects that calendar and leaves every hole before it unselected. */
  lemma ToggleBeyondEnd(s: State, i: int)
    requires |s.calendarsSelected| <= i
    ensures var r := Reduce(s, ToggleCalendar(i));
      && r.Returns?
      && |r.state.calendarsSelected| == i + 1
      && r.state.calendarsSelected[..|s.calendarsSelected|] == s.calendarsSelected
      && r.state.calendarsSelected[i]
      && (forall j :: |s.calendarsSelected| <= j < i ==> !r.state.calendarsSelected[j])
  {
    var r := Reduce(s, ToggleCalendar(i));
    assert r.state.calendarsSelected[..|s.calendarsSelected|] == s.calendarsSelected;
  }

  /**
   * In the model a negative index changes no entry. JavaScript adds a
   * property named by the negative index instead (`-1` is the one
   * generateCalendar reads), which no dispatcher of the screen creates (see
   * the README's "Left out").
   */
  lemma ToggleNegativeIgnored(s: State, i: int)
    requires i < 0
    ensures Reduce(s, ToggleCalendar(i)) == Returns(s)
  {
  }

  /**
   * Every action the screen dispatches keeps one checkbox per calendar: the
   * checkbox list passes only indices of existing calendars to `toggleCalendar`.
   */
  lemma ReduceKeepsAligned(s: State, a: Action)
    requires Aligned(s)
    requires a.ToggleCalendar? ==> 0 <= a.index < |s.calendars|
    ensures Reduce(s, a).Returns? ==> Aligned(Reduce(s, a).state)
  {
  }

  lemma InitialIsAligned()
    ensures Aligned(Initial) && Initial.editingEvent.None?
  {
  }
}
