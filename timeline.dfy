/**
 * Assembling the exam timeline: for every course of the table, in table order,
 * an entry for its final when some event matches the final's session, then an
 * entry for its midterm when the course lists one and some event matches it.
 * Each entry carries the date of the first matching event and that date's weekday.
 */
module Timeline {
  import opened Wrappers
  import opened Text
  import opened Events
  import opened Matching
  import opened Courses

  datatype Kind = Final | Midterm

  /** One timeline entry: its course, which exam, its start date and the weekday name. */
  datatype Entry = Entry(course: string, kind: Kind, start: Date, weekday: string)

  /** The entry's headline: the course name followed by the exam kind. */
  function Headline(e: Entry): (h: string)
    ensures e.course <= h
    ensures e.kind == Final ==> h[|e.course|..] == " Final"
    ensures e.kind == Midterm ==> h[|e.course|..] == " Midterm"
  {
    e.course + if e.kind == Final then " Final" else " Midterm"
  }

  /** The events that match exam `k` of course `c`; none when the course lists no such exam. */
  function ExamMatches(c: Course, k: Kind, events: seq<Event>): (m: seq<Event>) {
    match k
    case Final => SessionMatches(c.final, c.name, events)
    case Midterm => if c.midterm.Some? then SessionMatches(c.midterm.value, c.name, events) else []
  }

  /** Some event matches exam `k` of course `c`. */
  predicate Scheduled(c: Course, k: Kind, events: seq<Event>) {
    ExamMatches(c, k, events) != []
  }

  /** The entry for a scheduled exam, dated by its first matching event. */
  function EntryFor(c: Course, k: Kind, events: seq<Event>, dayName: Date -> string): (e: Entry)
    requires Scheduled(c, k, events)
    ensures e.course == c.name && e.kind == k
  {
    var m := ExamMatches(c, k, events)[0];
    Entry(c.name, k, m.start, dayName(m.start))
  }

  /**
   * A scheduled exam is dated by the first event of the calendar that matches it,
   * with that date's weekday, however many events match.
   */
  lemma EntryForFirstMatch(c: Course, k: Kind, events: seq<Event>, dayName: Date -> string)
    requires Scheduled(c, k, events)
    ensures k == Midterm ==> c.midterm.Some?
    ensures exists j :: FirstSelected(if k == Final then c.final else c.midterm.value, c.name, events, j)
                        && EntryFor(c, k, events, dayName).start == events[j].start
                        && EntryFor(c, k, events, dayName).weekday == dayName(events[j].start)
  {
    var target := if k == Final then c.final else c.midterm.value;
    assert ExamMatches(c, k, events) == SessionMatches(target, c.name, events);
    FirstMatch(target, c.name, events);
  }

  /** The entries of one course: its final first, then its midterm. */
  function CourseEntries(c: Course, events: seq<Event>, dayName: Date -> string): (es: seq<Entry>) {
    (if Scheduled(c, Final, events) then [EntryFor(c, Final, events, dayName)] else [])
    + (if Scheduled(c, Midterm, events) then [EntryFor(c, Midterm, events, dayName)] else [])
  }

  /** The timeline of a table: the entries of its courses, course after course. */
  function Entries(t: seq<Course>, events: seq<Event>, dayName: Date -> string): (es: seq<Entry>)
    decreases |t|
  {
    if t == [] then [] else CourseEntries(t[0], events, dayName) + Entries(t[1..], events, dayName)
  }

  /** Adding a course at the end of the table adds its entries at the end of the timeline. */
  lemma {:induction false} EntriesSnoc(t: seq<Course>, c: Course, events: seq<Event>, dayName: Date -> string)
    ensures Entries(t + [c], events, dayName) == Entries(t, events, dayName) + CourseEntries(c, events, dayName)
    decreases |t|
  {
    if t != [] {
      assert (t + [c])[1..] == t[1..] + [c];
      EntriesSnoc(t[1..], c, events, dayName);
    }
  }

  /** The loop of the script: walks the table and appends the entries of every scheduled exam. */
  method BuildTimeline(table: seq<Course>, events: seq<Event>, dayName: Date -> string) returns (entries: seq<Entry>)
    ensures entries == Entries(table, events, dayName)
  {
    entries := [];
    for i := 0 to |table|
      invariant entries == Entries(table[..i], events, dayName)
    {
      entries := AddCourse(entries, table[i], events, dayName);
      EntriesPrefix(table, i, events, dayName);
    }
    assert table[..|table|] == table;
  }

  /** The timeline of the first `i + 1` rows extends that of the first `i` rows by row `i`'s entries. */
  lemma EntriesPrefix(table: seq<Course>, i: nat, events: seq<Event>, dayName: Date -> string)
    requires i < |table|
    ensures Entries(table[..i + 1], events, dayName) == Entries(table[..i], events, dayName) + CourseEntries(table[i], events, dayName)
  {
    assert table[..i + 1] == table[..i] + [table[i]];
    EntriesSnoc(table[..i], table[i], events, dayName);
  }

  /** One iteration of the loop: appends the final's entry, then the midterm's, when scheduled. */
  method AddCourse(entries: seq<Entry>, course: Course, events: seq<Event>, dayName: Date -> string) returns (r: seq<Entry>)
    ensures r == entries + CourseEntries(course, events, dayName)
  {
    r := entries;
    var final := SessionMatches(course.final, course.name, events);
    assert final == ExamMatches(course, Final, events);
    if |final| > 0 {
      r := r + [Entry(course.name, Final, final[0].start, dayName(final[0].start))];
    }
    if course.midterm.Some? {
      var mid := SessionMatches(course.midterm.value, course.name, events);
      assert mid == ExamMatches(course, Midterm, events);
      if |mid| > 0 {
        r := r + [Entry(course.name, Midterm, mid[0].start, dayName(mid[0].start))];
      }
    }
  }

  /** The entries of one course are those of its scheduled exams, each carrying the course name. */
  lemma CourseEntriesSpec(c: Course, events: seq<Event>, dayName: Date -> string, e: Entry)
    ensures e in CourseEntries(c, events, dayName) <==>
      Scheduled(c, e.kind, events) && e == EntryFor(c, e.kind, events, dayName)
    ensures e in CourseEntries(c, events, dayName) ==> e.course == c.name
  {
  }

  /** An entry comes from some course of the table. */
  ghost predicate FromTable(t: seq<Course>, e: Entry, events: seq<Event>, dayName: Date -> string) {
    exists i :: 0 <= i < |t| && e in CourseEntries(t[i], events, dayName)
  }

  /** Every entry of the timeline is an entry of some course of the table. */
  lemma {:induction false} EntriesSound(t: seq<Course>, events: seq<Event>, dayName: Date -> string, p: nat)
    requires p < |Entries(t, events, dayName)|
    ensures FromTable(t, Entries(t, events, dayName)[p], events, dayName)
    decreases |t|
  {
    var head := CourseEntries(t[0], events, dayName);
    var tail := Entries(t[1..], events, dayName);
    var e := Entries(t, events, dayName)[p];
    assert Entries(t, events, dayName) == head + tail;
    if p < |head| {
      assert e == head[p];
      assert e in CourseEntries(t[0], events, dayName);
    } else {
      assert e == tail[p - |head|];
      EntriesSound(t[1..], events, dayName, p - |head|);
      FromLaterRows(t, e, events, dayName);
    }
  }

  /** An entry of a course of the later rows is an entry of a course of the table. */
  lemma FromLaterRows(t: seq<Course>, e: Entry, events: seq<Event>, dayName: Date -> string)
    requires t != [] && FromTable(t[1..], e, events, dayName)
    ensures FromTable(t, e, events, dayName)
  {
    var i :| 0 <= i < |t[1..]| && e in CourseEntries(t[1..][i], events, dayName);
    assert t[1..][i] == t[i + 1];
  }

  /** Every scheduled exam of every course of the table has its entry. */
  lemma {:induction false} EntriesComplete(t: seq<Course>, events: seq<Event>, dayName: Date -> string, i: nat, k: Kind)
    requires i < |t| && Scheduled(t[i], k, events)
    ensures EntryFor(t[i], k, events, dayName) in Entries(t, events, dayName)
    decreases |t|
  {
    if i > 0 {
      EntriesComplete(t[1..], events, dayName, i - 1, k);
      assert t[1..][i - 1] == t[i];
    } else {
      CourseEntriesSpec(t[0], events, dayName, EntryFor(t[i], k, events, dayName));
    }
  }

  /**
   * A timeline entry is the entry of a scheduled exam of a course of the table;
   * in particular a midterm entry exists only for a course that lists a midterm.
   */
  lemma EntryOrigin(t: seq<Course>, events: seq<Event>, dayName: Date -> string, p: nat)
    requires p < |Entries(t, events, dayName)|
    ensures exists i :: 0 <= i < |t| && Scheduled(t[i], Entries(t, events, dayName)[p].kind, events)
                        && Entries(t, events, dayName)[p] == EntryFor(t[i], Entries(t, events, dayName)[p].kind, events, dayName)
    ensures Entries(t, events, dayName)[p].kind == Midterm ==>
      exists i :: 0 <= i < |t| && t[i].name == Entries(t, events, dayName)[p].course && t[i].midterm.Some?
  {
    var e := Entries(t, events, dayName)[p];
    EntriesSound(t, events, dayName, p);
    var i :| 0 <= i < |t| && e in CourseEntries(t[i], events, dayName);
    CourseEntriesSpec(t[i], events, dayName, e);
  }

  /** Position of a course in the table (its length when absent). */
  function IndexOf(t: seq<Course>, name: string): (r: nat)
    ensures r <= |t|
    decreases |t|
  {
    if t == [] then 0 else if t[0].name == name then 0 else 1 + IndexOf(t[1..], name)
  }

  /** Entry `a` may come before entry `b`: an earlier course, or the final before the midterm of one course. */
  predicate Precedes(t: seq<Course>, a: Entry, b: Entry) {
    IndexOf(t, a.course) < IndexOf(t, b.course)
    || (a.course == b.course && a.kind == Final && b.kind == Midterm)
  }

  /** Every entry of `es` may come before every later entry of `es`. */
  predicate Ordered(t: seq<Course>, es: seq<Entry>) {
    forall p, q :: 0 <= p < q < |es| ==> Precedes(t, es[p], es[q])
  }

  /** With distinct course names the timeline follows the table order, final before midterm. */
  lemma {:induction false} EntriesOrdered(t: seq<Course>, events: seq<Event>, dayName: Date -> string)
    requires DistinctNames(t)
    ensures Ordered(t, Entries(t, events, dayName))
    decreases |t|
  {
    if t != [] {
      DistinctRest(t);
      EntriesOrdered(t[1..], events, dayName);
      var head := CourseEntries(t[0], events, dayName);
      var rest := Entries(t[1..], events, dayName);
      forall e | e in head ensures e.course == t[0].name {
        CourseEntriesSpec(t[0], events, dayName, e);
      }
      HeadOrdered(t[0], events, dayName);
      forall e | e in rest ensures IndexOf(t, e.course) == 1 + IndexOf(t[1..], e.course) {
        TailCourse(t, events, dayName, e);
      }
      ConcatOrdered(t, head, rest);
    }
  }

  /**
   * A block of entries of the first course, final before midterm, followed by
   * ordered entries of the later rows, is ordered.
   */
  lemma ConcatOrdered(t: seq<Course>, head: seq<Entry>, rest: seq<Entry>)
    requires t != []
    requires forall e :: e in head ==> e.course == t[0].name
    requires forall p, q :: 0 <= p < q < |head| ==> head[p].kind == Final && head[q].kind == Midterm
    requires forall e :: e in rest ==> IndexOf(t, e.course) == 1 + IndexOf(t[1..], e.course)
    requires Ordered(t[1..], rest)
    ensures Ordered(t, head + rest)
  {
    var all := head + rest;
    forall p, q | 0 <= p < q < |all| ensures Precedes(t, all[p], all[q]) {
      if q < |head| {
        assert all[p] == head[p] && all[q] == head[q];
      } else if p < |head| {
        assert all[p] == head[p] && all[q] == rest[q - |head|];
        assert all[q] in rest;
      } else {
        assert all[p] == rest[p - |head|] && all[q] == rest[q - |head|];
        assert all[p] in rest && all[q] in rest;
      }
    }
  }

  /** Within one course the final comes before the midterm. */
  lemma HeadOrdered(c: Course, events: seq<Event>, dayName: Date -> string)
    ensures forall p, q :: 0 <= p < q < |CourseEntries(c, events, dayName)| ==>
      CourseEntries(c, events, dayName)[p].kind == Final && CourseEntries(c, events, dayName)[q].kind == Midterm
  {
    var ce := CourseEntries(c, events, dayName);
    if Scheduled(c, Final, events) && Scheduled(c, Midterm, events) {
      assert ce == [EntryFor(c, Final, events, dayName), EntryFor(c, Midterm, events, dayName)];
    } else {
      assert |ce| <= 1;
    }
  }

  /** The later rows of a table with distinct names have distinct names. */
  lemma DistinctRest(t: seq<Course>)
    requires DistinctNames(t) && t != []
    ensures DistinctNames(t[1..])
  {
    forall a, b | 0 <= a < b < |t[1..]| ensures t[1..][a].name != t[1..][b].name {
      assert t[1..][a] == t[a + 1] && t[1..][b] == t[b + 1];
    }
  }

  /** An entry of the later rows names a later course, one place further in the whole table. */
  lemma TailCourse(t: seq<Course>, events: seq<Event>, dayName: Date -> string, e: Entry)
    requires DistinctNames(t) && t != []
    requires e in Entries(t[1..], events, dayName)
    ensures IndexOf(t, e.course) == 1 + IndexOf(t[1..], e.course) > 0
  {
    var p :| 0 <= p < |Entries(t[1..], events, dayName)| && Entries(t[1..], events, dayName)[p] == e;
    EntriesSound(t[1..], events, dayName, p);
    var i :| 0 <= i < |t[1..]| && e in CourseEntries(t[1..][i], events, dayName);
    CourseEntriesSpec(t[1..][i], events, dayName, e);
    assert t[1..][i] == t[i + 1];
  }

  /**
   * A table with the single course "X" (final session 30, no midterm) and two
   * events, "X Ses. 30" on 2024-05-01 and an unrelated one, gives exactly one
   * entry: "X Final" dated 2024-05-01.
   */
  lemma SingleFinalExample(t: seq<Course>, events: seq<Event>, dayName: Date -> string, match30: Event, other: Event)
    requires t == [Course("X", 30, None)]
    requires match30 == Event("X Ses. 30", "", Date(2024, 5, 1), Date(2024, 5, 1), Some("30"))
    requires other == Event("Y Ses. 2", "", Date(2024, 5, 2), Date(2024, 5, 2), Some("2"))
    requires events == [match30, other]
    ensures ExamMatches(t[0], Final, events) == [match30]
    ensures Entries(t, events, dayName) == [Entry("X", Final, Date(2024, 5, 1), dayName(Date(2024, 5, 1)))]
    ensures Headline(Entries(t, events, dayName)[0]) == "X Final"
  {
    var x := t[0];
    assert OccursAt(match30.summary, x.name, 0);
    assert DecimalText(30) == "30";
    assert OccursAt(match30.session.value, DecimalText(x.final), 0);
    assert Selects(x.final, x.name, match30);
    NotContainsHead(other.summary, x.name);
    assert !Selects(x.final, x.name, other);
    assert events[1..] == [other];
    assert SessionMatches(x.final, x.name, [other]) == [];
    assert ExamMatches(x, Final, events) == [match30];
    assert t[1..] == [];
  }
}
