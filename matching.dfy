/**
 * Selecting the events of one exam: the course name must occur in the summary
 * and the decimal text of the target session number must occur in the session.
 */
module Matching {
  import opened Wrappers
  import opened Text
  import opened Events

  /** The selection condition, by containment and not by equality; an event without a session is never selected. */
  predicate Selects(target: nat, course: string, e: Event) {
    && Contains(e.summary, course)
    && e.session.Some?
    && Contains(e.session.value, DecimalText(target))
  }

  /** `a` is `b` with some elements left out, the rest in their order. */
  predicate IsSubsequence<T(==)>(a: seq<T>, b: seq<T>)
    decreases |b|
  {
    a == [] || (b != [] && ((a[0] == b[0] && IsSubsequence(a[1..], b[1..])) || IsSubsequence(a, b[1..])))
  }

  /**
   * The events selected for a course and a target session number, in their
   * original order (the filter of the script's event table).
   */
  function SessionMatches(target: nat, course: string, events: seq<Event>): (r: seq<Event>)
    ensures |r| <= |events|
    decreases |events|
  {
    if events == [] then []
    else
      var rest := SessionMatches(target, course, events[1..]);
      if Selects(target, course, events[0]) then [events[0]] + rest else rest
  }

  /**
   * The filter returns exactly the selected events of the list, in their
   * original order.
   */
  lemma {:induction false} SessionMatchesSpec(target: nat, course: string, events: seq<Event>)
    ensures IsSubsequence(SessionMatches(target, course, events), events)
    ensures forall k :: 0 <= k < |SessionMatches(target, course, events)| ==>
      Selects(target, course, SessionMatches(target, course, events)[k])
    ensures forall k :: 0 <= k < |events| && Selects(target, course, events[k]) ==>
      events[k] in SessionMatches(target, course, events)
    decreases |events|
  {
    if events != [] {
      var r := SessionMatches(target, course, events);
      var rest := SessionMatches(target, course, events[1..]);
      SessionMatchesSpec(target, course, events[1..]);
      assert forall k :: 1 <= k < |events| ==> events[k] == events[1..][k - 1];
      if Selects(target, course, events[0]) {
        assert r == [events[0]] + rest;
        assert r[1..] == rest;
      } else {
        assert r == rest;
      }
    }
  }

  /**
   * The filter keeps rows: a selected event occurs among the matches as often as
   * in the list, so two equal selected events give two matches.
   */
  lemma {:induction false} SessionMatchesCount(target: nat, course: string, events: seq<Event>, x: Event)
    ensures multiset(SessionMatches(target, course, events))[x] ==
      (if Selects(target, course, x) then multiset(events)[x] else 0)
    decreases |events|
  {
    if events != [] {
      var rest := SessionMatches(target, course, events[1..]);
      SessionMatchesCount(target, course, events[1..], x);
      assert events == [events[0]] + events[1..];
      assert multiset(events) == multiset([events[0]]) + multiset(events[1..]);
      if Selects(target, course, events[0]) {
        assert multiset(SessionMatches(target, course, events)) == multiset([events[0]]) + multiset(rest);
      }
    }
  }

  /** `events[j]` is the first event of the list the selection keeps. */
  predicate FirstSelected(target: nat, course: string, events: seq<Event>, j: int) {
    && 0 <= j < |events|
    && Selects(target, course, events[j])
    && forall k :: 0 <= k < j ==> !Selects(target, course, events[k])
  }

  /** The first match is the first selected event of the list. */
  lemma {:induction false} FirstMatch(target: nat, course: string, events: seq<Event>)
    requires SessionMatches(target, course, events) != []
    ensures exists j :: FirstSelected(target, course, events, j) && events[j] == SessionMatches(target, course, events)[0]
    decreases |events|
  {
    if !Selects(target, course, events[0]) {
      FirstMatch(target, course, events[1..]);
      var j :| FirstSelected(target, course, events[1..], j) && events[1..][j] == SessionMatches(target, course, events[1..])[0];
      assert forall k :: 1 <= k < j + 1 ==> events[k] == events[1..][k - 1];
      assert FirstSelected(target, course, events, j + 1);
    } else {
      assert FirstSelected(target, course, events, 0);
    }
  }

  /**
   * Matching is by substring: target 1 also selects the sessions "11", "21" and
   * "14-15", while an event without a session is not selected.
   */
  lemma SubstringMatchExamples(course: string, summary: string, d: Date)
    requires Contains(summary, course)
    ensures Selects(1, course, Event(summary, "", d, d, Some("11")))
    ensures Selects(1, course, Event(summary, "", d, d, Some("21")))
    ensures Selects(1, course, Event(summary, "", d, d, Some("14-15")))
    ensures !Selects(1, course, Event(summary, "", d, d, None))
  {
    assert DecimalText(1) == "1";
    assert OccursAt("11", "1", 0);
    assert OccursAt("21", "1", 1);
    assert OccursAt("14-15", "1", 0);
  }
}
