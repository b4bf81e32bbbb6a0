/**
 * The timeline loop of the script exactly as written, failures included.
 *
 * Two things differ from the corrected assembly in the Timeline module:
 *  - the midterm match set lives in a variable that is assigned only for a
 *    course that lists a midterm, and is read for every course; a course
 *    without a midterm therefore re-uses the previous course's set, and the
 *    first course without one reads an unbound name;
 *  - the start date is read by converting a whole match set to an integer,
 *    which succeeds only for a set of exactly one event.
 */
module TimelineAsWritten {
  import opened Wrappers
  import opened Text
  import opened Events
  import opened Matching
  import opened Courses
  import opened Timeline

  /** The run-time errors the loop can stop with. */
  datatype Failure = NameError | TypeError

  /** The entry built from a non-empty match set: converting its start to an integer needs exactly one row. */
  function EntryOf(name: string, k: Kind, m: seq<Event>, dayName: Date -> string): (r: Result<Entry, Failure>)
    requires m != []
    ensures r.Ok? <==> |m| == 1
    ensures r.Ok? ==> r.value == Entry(name, k, m[0].start, dayName(m[0].start))
  {
    if |m| == 1 then Ok(Entry(name, k, m[0].start, dayName(m[0].start))) else Err(TypeError)
  }

  /** What one iteration appends, and the midterm variable it leaves behind. */
  datatype Step = Step(appended: seq<Entry>, mid: seq<Event>)

  /**
   * One iteration for course `c`, with `mid` the midterm match set left by the
   * earlier iterations (`None` while the name is unbound).
   */
  function StepAsWritten(c: Course, events: seq<Event>, dayName: Date -> string, mid: Option<seq<Event>>): (r: Result<Step, Failure>) {
    var mid' := if c.midterm.Some? then Some(SessionMatches(c.midterm.value, c.name, events)) else mid;
    var final := SessionMatches(c.final, c.name, events);
    var finalEntry := if final == [] then Ok([]) else
      match EntryOf(c.name, Final, final, dayName)
      case Ok(e) => Ok([e])
      case Err(f) => Err(f);
    match finalEntry
    case Err(f) => Err(f)
    case Ok(appended) =>
      match mid'
      case None => Err(NameError)
      case Some(m) =>
        if m == [] then Ok(Step(appended, m))
        else
          match EntryOf(c.name, Midterm, m, dayName)
          case Ok(e) => Ok(Step(appended + [e], m))
          case Err(f) => Err(f)
  }

  /** The whole loop over the table: the entries appended, or the first error raised. */
  function RunAsWritten(t: seq<Course>, events: seq<Event>, dayName: Date -> string, mid: Option<seq<Event>>): (r: Result<seq<Entry>, Failure>)
    decreases |t|
  {
    if t == [] then Ok([])
    else
      match StepAsWritten(t[0], events, dayName, mid)
      case Err(f) => Err(f)
      case Ok(step) =>
        match RunAsWritten(t[1..], events, dayName, Some(step.mid))
        case Err(f) => Err(f)
        case Ok(rest) => Ok(step.appended + rest)
  }

  /** Every exam of the table finds at most one event. */
  predicate AtMostOneMatch(t: seq<Course>, events: seq<Event>) {
    forall i :: 0 <= i < |t| ==>
      |SessionMatches(t[i].final, t[i].name, events)| <= 1
      && (t[i].midterm.Some? ==> |SessionMatches(t[i].midterm.value, t[i].name, events)| <= 1)
  }

  /** Every course of the table lists a midterm. */
  predicate AllMidterms(t: seq<Course>) {
    forall i :: 0 <= i < |t| ==> t[i].midterm.Some?
  }

  /**
   * When every course lists a midterm and no exam finds two events, the loop as
   * written builds exactly the corrected timeline.
   */
  lemma {:induction false} AsWrittenAgrees(t: seq<Course>, events: seq<Event>, dayName: Date -> string, mid: Option<seq<Event>>)
    requires AllMidterms(t) && AtMostOneMatch(t, events)
    ensures RunAsWritten(t, events, dayName, mid) == Ok(Entries(t, events, dayName))
    decreases |t|
  {
    if t != [] {
      var c := t[0];
      assert AllMidterms(t[1..]) && AtMostOneMatch(t[1..], events) by {
        forall i | 0 <= i < |t[1..]| ensures t[1..][i] == t[i + 1] { }
      }
      assert c.midterm.Some? && |SessionMatches(c.final, c.name, events)| <= 1;
      var m := SessionMatches(c.midterm.value, c.name, events);
      assert |m| <= 1 && m == ExamMatches(c, Midterm, events);
      StepAgrees(c, events, dayName, mid);
      AsWrittenAgrees(t[1..], events, dayName, Some(m));
    }
  }

  /** One iteration for a course with a midterm and at most one event per exam appends the course's corrected entries. */
  lemma StepAgrees(c: Course, events: seq<Event>, dayName: Date -> string, mid: Option<seq<Event>>)
    requires c.midterm.Some?
    requires |SessionMatches(c.final, c.name, events)| <= 1
    requires |SessionMatches(c.midterm.value, c.name, events)| <= 1
    ensures StepAsWritten(c, events, dayName, mid)
            == Ok(Step(CourseEntries(c, events, dayName), SessionMatches(c.midterm.value, c.name, events)))
  {
    var final := SessionMatches(c.final, c.name, events);
    var m := SessionMatches(c.midterm.value, c.name, events);
    assert final == ExamMatches(c, Final, events) && m == ExamMatches(c, Midterm, events);
    var fe: seq<Entry> := if final == [] then [] else [EntryFor(c, Final, events, dayName)];
    var me: seq<Entry> := if m == [] then [] else [EntryFor(c, Midterm, events, dayName)];
    assert CourseEntries(c, events, dayName) == fe + me;
    if final != [] {
      assert EntryOf(c.name, Final, final, dayName) == Ok(EntryFor(c, Final, events, dayName));
    }
    if m != [] {
      assert EntryOf(c.name, Midterm, m, dayName) == Ok(EntryFor(c, Midterm, events, dayName));
    } else {
      assert fe + me == fe;
    }
  }

  /**
   * A course without a midterm re-emits the previous course's midterm under its
   * own name: with a stale single-event set left behind, its iteration appends
   * its corrected entries and then a midterm entry although it lists no midterm.
   */
  lemma StaleMidtermReemitted(c: Course, events: seq<Event>, dayName: Date -> string, stale: seq<Event>)
    requires c.midterm.None? && |stale| == 1
    requires |SessionMatches(c.final, c.name, events)| <= 1
    ensures !Scheduled(c, Midterm, events)
    ensures StepAsWritten(c, events, dayName, Some(stale))
            == Ok(Step(CourseEntries(c, events, dayName) + [Entry(c.name, Midterm, stale[0].start, dayName(stale[0].start))], stale))
  {
    var final := SessionMatches(c.final, c.name, events);
    assert final == ExamMatches(c, Final, events);
    assert ExamMatches(c, Midterm, events) == [];
    var own: seq<Entry> := if final == [] then [] else [EntryFor(c, Final, events, dayName)];
    assert CourseEntries(c, events, dayName) == own;
    if final != [] {
      assert EntryOf(c.name, Final, final, dayName) == Ok(EntryFor(c, Final, events, dayName));
    }
  }

  /** When the first course lists no midterm the loop stops with a NameError (unless its final already failed). */
  lemma FirstCourseWithoutMidterm(t: seq<Course>, events: seq<Event>, dayName: Date -> string)
    requires t != [] && t[0].midterm.None?
    requires |SessionMatches(t[0].final, t[0].name, events)| <= 1
    ensures RunAsWritten(t, events, dayName, None) == Err(NameError)
  {
  }

  /** A final that finds two or more events stops the loop with a TypeError. */
  lemma MultiRowMatchFails(t: seq<Course>, events: seq<Event>, dayName: Date -> string, mid: Option<seq<Event>>)
    requires t != [] && |SessionMatches(t[0].final, t[0].name, events)| > 1
    ensures RunAsWritten(t, events, dayName, mid) == Err(TypeError)
  {
  }

  /**
   * The single-course table of the corrected example ("X", final session 30, no
   * midterm) stops the loop as written with a NameError instead of giving the
   * "X Final" entry.
   */
  lemma SingleFinalNameError(t: seq<Course>, events: seq<Event>, dayName: Date -> string, match30: Event, other: Event)
    requires t == [Course("X", 30, None)]
    requires match30 == Event("X Ses. 30", "", Date(2024, 5, 1), Date(2024, 5, 1), Some("30"))
    requires other == Event("Y Ses. 2", "", Date(2024, 5, 2), Date(2024, 5, 2), Some("2"))
    requires events == [match30, other]
    ensures RunAsWritten(t, events, dayName, None) == Err(NameError)
    ensures |Entries(t, events, dayName)| == 1
  {
    SingleFinalExample(t, events, dayName, match30, other);
    assert SessionMatches(t[0].final, t[0].name, events) == [match30];
    FirstCourseWithoutMidterm(t, events, dayName);
  }

  /**
   * Course "A" (final 2, midterm 1) followed by course "B" (final 3, no midterm),
   * with the one event "A Ses. 1": the loop as written gives a second midterm
   * entry headed "B Midterm", on A's midterm date; the corrected timeline has only A's.
   */
  lemma StaleMidtermExample(t: seq<Course>, events: seq<Event>, dayName: Date -> string, ev: Event)
    requires t == [Course("A", 2, Some(1)), Course("B", 3, None)]
    requires ev == Event("A Ses. 1", "", Date(2024, 3, 4), Date(2024, 3, 4), Some("1"))
    requires events == [ev]
    ensures RunAsWritten(t, events, dayName, None)
            == Ok([Entry("A", Midterm, ev.start, dayName(ev.start)), Entry("B", Midterm, ev.start, dayName(ev.start))])
    ensures Entries(t, events, dayName) == [Entry("A", Midterm, ev.start, dayName(ev.start))]
  {
    var a, b := t[0], t[1];
    assert DecimalText(1) == "1" && DecimalText(2) == "2";
    assert OccursAt(ev.summary, a.name, 0);
    assert OccursAt(ev.session.value, DecimalText(a.midterm.value), 0);
    NotContainsHead(ev.session.value, DecimalText(a.final));
    NotContainsHead(ev.summary, b.name);
    assert events[1..] == [];
    assert SessionMatches(a.midterm.value, a.name, events) == [ev];
    assert SessionMatches(a.final, a.name, events) == [];
    assert SessionMatches(b.final, b.name, events) == [];
    assert CourseEntries(a, events, dayName) == [Entry("A", Midterm, ev.start, dayName(ev.start))];
    assert CourseEntries(b, events, dayName) == [];
    StepAgrees(a, events, dayName, None);
    StaleMidtermReemitted(b, events, dayName, [ev]);
    var eA, eB := Entry("A", Midterm, ev.start, dayName(ev.start)), Entry("B", Midterm, ev.start, dayName(ev.start));
    assert t[1..] == [b] && t[1..][1..] == [];
    assert RunAsWritten(t[1..][1..], events, dayName, Some([ev])) == Ok([]);
    assert RunAsWritten(t[1..], events, dayName, Some([ev])) == Ok([] + [eB] + []);
    assert RunAsWritten(t, events, dayName, None) == Ok([eA] + ([] + [eB] + []));
    assert [eA] + ([] + [eB] + []) == [eA, eB];
    assert Entries(t[1..], events, dayName) == [] + Entries(t[1..][1..], events, dayName);
  }

  /**
   * Course "A" with final session 1 and the events "A Ses. 1" and "A Ses. 11":
   * both match by substring, so the loop as written stops with a TypeError, while
   * the corrected timeline dates A's final by the first of them.
   */
  lemma MultiRowExample(t: seq<Course>, events: seq<Event>, dayName: Date -> string, e1: Event, e11: Event)
    requires t == [Course("A", 1, None)]
    requires e1 == Event("A Ses. 1", "", Date(2024, 6, 3), Date(2024, 6, 3), Some("1"))
    requires e11 == Event("A Ses. 11", "", Date(2024, 6, 10), Date(2024, 6, 10), Some("11"))
    requires events == [e1, e11]
    ensures RunAsWritten(t, events, dayName, None) == Err(TypeError)
    ensures Entries(t, events, dayName) == [Entry("A", Final, e1.start, dayName(e1.start))]
  {
    var a := t[0];
    assert DecimalText(1) == "1";
    assert OccursAt(e1.summary, a.name, 0) && OccursAt(e11.summary, a.name, 0);
    assert OccursAt(e1.session.value, DecimalText(a.final), 0);
    assert OccursAt(e11.session.value, DecimalText(a.final), 0);
    assert events[1..] == [e11] && events[1..][1..] == [];
    assert SessionMatches(a.final, a.name, events) == [e1, e11];
    MultiRowMatchFails(t, events, dayName, None);
    assert t[1..] == [];
    assert CourseEntries(a, events, dayName) == [Entry("A", Final, e1.start, dayName(e1.start))];
  }
}
