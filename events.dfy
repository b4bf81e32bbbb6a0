/**
 * Calendar events as the script collects them: every component of kind "VEVENT",
 * in the order the calendar is walked, with the session read from its summary.
 */
module Events {
  import opened Wrappers
  import Text
  import Session

  /** The year, month and day of a date-time (the time of day is not modelled). */
  datatype Date = Date(year: int, month: int, day: int)

  /** A parsed calendar component: its kind and the fields the script reads from it. */
  datatype Component = Component(name: string, summary: string, description: string, start: Date, end: Date)

  /** An event record; `session` is absent when the summary names none. */
  datatype Event = Event(summary: string, description: string, start: Date, end: Date, session: Option<string>)

  /** The kind of component that becomes an event. */
  const EventKind: string := "VEVENT"

  /** The record built from one event component. */
  function ToEvent(c: Component): (e: Event)
    ensures e.summary == c.summary && e.start == c.start && e.end == c.end
    ensures e.session == Session.Extract(c.summary)
  {
    Event(c.summary, c.description, c.start, c.end, Session.Extract(c.summary))
  }

  /** The events of a calendar, in walk order: one per event component, none for any other kind. */
  function EventsOf(cal: seq<Component>): (r: seq<Event>)
    ensures |r| <= |cal|
    decreases |cal|
  {
    if cal == [] then []
    else
      var last := cal[|cal| - 1];
      EventsOf(cal[..|cal| - 1]) + if last.name == EventKind then [ToEvent(last)] else []
  }

  /**
   * An event is in the list exactly when it is built from an event component of
   * the calendar, and then its session is the one its summary names.
   */
  lemma {:induction false} EventsOfMembers(cal: seq<Component>, e: Event)
    ensures e in EventsOf(cal) <==> exists c :: c in cal && c.name == EventKind && e == ToEvent(c)
    ensures e in EventsOf(cal) ==> e.session == Session.Extract(e.summary)
    decreases |cal|
  {
    if cal != [] {
      var init, last := cal[..|cal| - 1], cal[|cal| - 1];
      EventsOfMembers(init, e);
      assert cal == init + [last];
      if e in EventsOf(init) {
        var c :| c in init && c.name == EventKind && e == ToEvent(c);
        assert c in cal;
      }
      if exists c :: c in cal && c.name == EventKind && e == ToEvent(c) {
        var c :| c in cal && c.name == EventKind && e == ToEvent(c);
        if c != last {
          assert c in init;
        }
      }
    }
  }

  /** Walks the calendar and appends the record of every event component. */
  method GetEvents(cal: seq<Component>) returns (events: seq<Event>)
    ensures events == EventsOf(cal)
  {
    events := [];
    for i := 0 to |cal|
      invariant events == EventsOf(cal[..i])
    {
      var component := cal[i];
      if component.name == EventKind {
        var event := Event(component.summary, component.description, component.start, component.end,
                           Session.Extract(component.summary));
        events := events + [event];
      }
      assert cal[..i + 1][..i] == cal[..i];
    }
    assert cal[..|cal|] == cal;
  }

  /**
   * The record of an event whose summary is "<x> Ses. <tok>", with a one-letter
   * course name and a plain token, carries that token as its session.
   */
  lemma ShortEvent(summary: string, x: char, tok: string, d: Date)
    requires summary == [x, ' '] + Session.Marker + tok && x != Session.Marker[0]
    requires tok != [] && Session.Marker[0] !in tok && ' ' !in tok && '(' !in tok && ')' !in tok && Text.Trimmed(tok)
    ensures ToEvent(Component(EventKind, summary, "", d, d)) == Event(summary, "", d, d, Some(tok))
  {
    Session.ExtractShortSummary(summary, x, tok);
  }
}
