/** Consequences of `generate_calendar` for particular rosters and sessions. */
module Scenarios {
  import opened Wrappers
  import opened Text
  import opened Weeks
  import opened Dates
  import opened Calendar

  // ---------------------------------------------------------------------------
  // One course with one consultation
  // ---------------------------------------------------------------------------

  /** A roster of one course whose only consultation lists `zid` is that
      consultation. */
  lemma OneCourse(start: int, courseId: string, c: Consultation, zid: string)
    requires zid in c.instructors
    ensures CoursesActions(start, [Course(courseId, [c])], zid) == ConsultActions(start, courseId, c, zid)
    ensures Matched([Course(courseId, [c])], zid)
  {
    var roster := [Course(courseId, [c])];
    var cs := [c];
    assert ConsultsActions(start, courseId, cs, zid) == ConsultActions(start, courseId, c, zid) by {
      assert cs[..0] == [];
      assert ConsultsActions(start, courseId, cs[..0], zid) == [];
    }
    assert CoursesActions(start, roster, zid) == ConsultsActions(start, courseId, cs, zid) by {
      assert roster[..0] == [];
      assert CoursesActions(start, roster[..0], zid) == [];
    }
    assert ConsultsMatch(roster[0].consult, zid) by {
      assert zid in roster[0].consult[0].instructors;
    }
  }

  /** Removing the colons of `hh:mm` leaves `hhmm`. */
  lemma ClockText(hours: string, minutes: string)
    requires ':' !in hours && ':' !in minutes
    ensures RemoveAll(hours + ":" + minutes, ':') == hours + minutes
  {
    var colon := ":";
    assert RemoveAll(hours + colon, ':') == hours by {
      RemoveAllAppend(hours, colon, ':');
      RemoveAllAbsent(hours, ':');
      assert RemoveAll(colon, ':') == [];
      assert hours + [] == hours;
    }
    assert RemoveAll(minutes, ':') == minutes by {
      RemoveAllAbsent(minutes, ':');
    }
    RemoveAllAppend(hours + colon, minutes, ':');
  }

  /** A `hh:mm` time becomes `hhmm00` in a stamp. */
  lemma ClockStamp(date: int, hours: string, minutes: string)
    requires ':' !in hours && ':' !in minutes
    ensures Stamp(date, hours + ":" + minutes) == FormatYmd(date) + ("T" + (hours + minutes) + "00")
  {
    ClockText(hours, minutes);
  }

  /** A kept consultation whose week list yields no week gives no event, yet
      the zID counts as found and the week list's diagnostics are reported. */
  lemma FoundWithoutEvents(start: int, courseId: string, c: Consultation, zid: string)
    requires zid in c.instructors && WeeksOf(c.weeks) == []
    ensures Matched([Course(courseId, [c])], zid)
    ensures Perform(CoursesActions(start, [Course(courseId, [c])], zid)) == Run([], DiagnosticsOf(c.weeks), false)
  {
    OneCourse(start, courseId, c, zid);
    PerformConsult(start, courseId, c, zid);
  }

  /** A consultation listing the zID whose week list is a single word such as
      `abc`: found, no event, one diagnostic naming the word. */
  lemma MisspelledWeeks(start: int, courseId: string, c: Consultation, zid: string)
    requires zid in c.instructors
    requires c.weeks != [] && !IsDigit(c.weeks[0]) && c.weeks[0] != '+'
    requires !IsWhitespace(c.weeks[0]) && !IsWhitespace(c.weeks[|c.weeks| - 1])
    requires ',' !in c.weeks && '-' !in c.weeks
    ensures Matched([Course(courseId, [c])], zid)
    ensures Perform(CoursesActions(start, [Course(courseId, [c])], zid)) == Run([], ["Invalid week number: " + c.weeks], false)
  {
    WordIsInvalidNumber(c.weeks);
    FoundWithoutEvents(start, courseId, c, zid);
  }

  /** A week listed twice gives the same event twice, UID included. */
  lemma RepeatedWeek(start: int, courseId: string, c: Consultation, zid: string, i: nat, j: nat)
    requires zid in c.instructors
    requires forall k :: 0 <= k < |WeeksOf(c.weeks)| ==> ProjectDate(start, WeeksOf(c.weeks)[k], c.day).Some?
    requires i < j < |WeeksOf(c.weeks)| && WeeksOf(c.weeks)[i] == WeeksOf(c.weeks)[j]
    ensures var run := Perform(ConsultActions(start, courseId, c, zid));
      i < j < |run.events| && run.events[i] == run.events[j] && run.events[i].uid == run.events[j].uid
  {
    ConsultationEvents(start, courseId, c, zid);
  }
}
