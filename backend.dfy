/**
 * The records the front end exchanges with the backend: a calendar (a named,
 * coloured category), an event being edited (which may not have an id yet),
 * and a stored event (which has one).
 */
module Backend {
  import opened Wrappers

  datatype Calendar = Calendar(id: int, name: string, color: string)

  /** An event as the edit dialog holds it; `id` is absent for an event not yet created. */
  datatype EditingEvent = EditingEvent(
    id: Option<int>,
    date: string,
    time: Option<string>,
    desc: string,
    calendarId: int)

  /** A stored event: an editing event that has an id. */
  type Event = e: EditingEvent | e.id.Some? witness EditingEvent(Some(0), "", None, "", 0)
}
