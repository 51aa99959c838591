/** `create_event` (src/utils.py): the event that books a room. The calendar
    service call is left out; what is modelled is the request it is given.
    `now` is the clock reading `create_event` takes (seconds since the epoch);
    `duration` is in minutes. */
module Events {
  import opened Models

  /** A time window `[start, end]` in seconds since the epoch. */
  datatype Window = Window(start: int, end: int)

  /** The event body: summary, description, time window in UTC and the
      attendee e-mail addresses in order. */
  datatype Event = Event(summary: string, description: string, window: Window, timeZone: string, attendees: seq<string>)

  /** `events().insert(calendarId=..., body=...)`. */
  datatype InsertRequest = InsertRequest(calendarId: string, body: Event)

  /** The event is created on the organiser's calendar, lasts exactly
      `duration` minutes from `now`, and invites the room's calendar and then
      the organiser. */
  function CreateEvent(room: Room, duration: int, email: string, now: int): (req: InsertRequest)
    ensures req.calendarId == email
    ensures req.body.window.start == now
    ensures req.body.window.end - req.body.window.start == 60 * duration
    ensures req.body.attendees == [room.id, email]
    ensures req.body.timeZone == "UTC"
    ensures req.body.summary == "Meeting in Room: " + room.name
    ensures req.body.description == "Automatically scheduled meeting."
  {
    InsertRequest(email, Event("Meeting in Room: " + room.name, "Automatically scheduled meeting.",
                               Window(now, now + 60 * duration), "UTC", [room.id, email]))
  }

  predicate Within(inner: Window, outer: Window) {
    outer.start <= inner.start && inner.end <= outer.end
  }

  /** The free/busy query of a run covers `duration` minutes from the clock
      reading `queryNow`; the event covers `duration` minutes from the later
      reading `bookNow`. The booked window lies inside the checked one exactly
      when both readings are equal; any later reading books time that the
      query never checked. */
  lemma BookedWindowChecked(room: Room, duration: int, email: string, queryNow: int, bookNow: int)
    ensures Within(CreateEvent(room, duration, email, bookNow).body.window, Window(queryNow, queryNow + 60 * duration))
            <==> bookNow == queryNow
  {
  }
}
