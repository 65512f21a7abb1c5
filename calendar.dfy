/** The event derivation, `generate_calendar` (src/main.rs:135-206): every
    consultation that lists the zID among its instructors is expanded, week by
    week, into calendar events. The `ICalendar` the program builds is a plain
    sequence of event records here, and the lines it writes to standard error
    are returned in order. */
module Calendar {
  import opened Wrappers
  import opened Text
  import opened Weeks
  import opened Dates

  // ---------------------------------------------------------------------------
  // Records
  // ---------------------------------------------------------------------------

  /** One recurring weekly help session (src/main.rs:28-37). */
  datatype Consultation = Consultation(
    instructors: seq<string>,
    weeks: string,
    day: string,
    start: string,
    end: string,
    mode: string,
    location: Option<string>)

  /** A course with its consultations (src/main.rs:12-26); the
      `allocation.class.consult` nesting of the input is collapsed to `consult`. */
  datatype Course = Course(course: string, consult: seq<Consultation>)

  /** The properties `generate_calendar` gives one `ics::Event`; `Event::new(uid,
      dt_start)` makes `dtStamp` the start stamp. */
  datatype Event = Event(
    uid: string,
    dtStamp: string,
    dtStart: string,
    dtEnd: string,
    summary: string,
    description: string,
    location: string)

  /** A `DTSTART`/`DTEND` value: the date as `%Y%m%d`, a `T`, the time of day
      with its colons removed, and `00` for the seconds. */
  function Stamp(date: int, time: string): string {
    FormatYmd(date) + ("T" + RemoveAll(time, ':') + "00")
  }

  /** The event UID: course, day, start time, zID and `week` followed by the
      week number, joined by `-`; the start time keeps its colons. */
  function EventUid(courseId: string, c: Consultation, zid: string, week: U32): string {
    courseId + "-" + c.day + "-" + c.start + "-" + zid + "-week" + NatToString(week)
  }

  /** The event of week `week` of consultation `c`, dated `date` (src/main.rs:169-197). */
  function MakeEvent(courseId: string, c: Consultation, zid: string, week: U32, date: int): Event {
    var dtStart := Stamp(date, c.start);
    Event(
      uid := EventUid(courseId, c, zid, week),
      dtStamp := dtStart,
      dtStart := dtStart,
      dtEnd := Stamp(date, c.end),
      summary := courseId + " Help Session",
      description := "Mode: " + c.mode + ", Weeks: " + c.weeks,
      location := if c.location.Some? then c.location.value else "Online")
  }

  // ---------------------------------------------------------------------------
  // What `generate_calendar` does, as a sequence of actions
  // ---------------------------------------------------------------------------

  /** One step of the derivation: write a diagnostic line, add an event, or
      panic (which ends the program: no calendar is written). */
  datatype Action = Warn(message: string) | Add(event: Event) | Abort

  /** The effect of a sequence of actions: the events added and the lines
      written before the first `Abort`, and whether there was one. */
  datatype Run = Run(events: seq<Event>, diagnostics: seq<string>, aborted: bool)

  function Perform(actions: seq<Action>): Run {
    if actions == [] then Run([], [], false)
    else
      match actions[0]
      case Abort => Run([], [], true)
      case Warn(message) =>
        var rest := Perform(actions[1..]);
        Run(rest.events, [message] + rest.diagnostics, rest.aborted)
      case Add(event) =>
        var rest := Perform(actions[1..]);
        Run([event] + rest.events, rest.diagnostics, rest.aborted)
  }

  /** What happens for one week of a kept consultation (src/main.rs:151-199):
      the week start is computed first, so week 0 panics whatever the day;
      an unknown day skips the week with a diagnostic. */
  function WeekAction(startDate: int, courseId: string, c: Consultation, zid: string, week: U32): Action {
    match WeekStart(startDate, week)
    case None => Abort
    case Some(weekStart) =>
      match DayOffset(c.day)
      case None => Warn("Invalid day: " + c.day)
      case Some(offset) =>
        match AddDays(weekStart, offset)
        case None => Abort
        case Some(date) => Add(MakeEvent(courseId, c, zid, week, date))
  }

  function WeekActions(startDate: int, courseId: string, c: Consultation, zid: string, weeks: seq<U32>): seq<Action> {
    if weeks == [] then []
    else
      WeekActions(startDate, courseId, c, zid, weeks[..|weeks| - 1])
        + [WeekAction(startDate, courseId, c, zid, weeks[|weeks| - 1])]
  }

  function Warnings(messages: seq<string>): seq<Action> {
    if messages == [] then [] else Warnings(messages[..|messages| - 1]) + [Warn(messages[|messages| - 1])]
  }

  /** A consultation is kept when its instructors include the zID exactly; its
      week specification is then parsed (diagnostics first) and expanded. */
  function ConsultActions(startDate: int, courseId: string, c: Consultation, zid: string): seq<Action> {
    if zid in c.instructors then
      Warnings(DiagnosticsOf(c.weeks)) + WeekActions(startDate, courseId, c, zid, WeeksOf(c.weeks))
    else []
  }

  function ConsultsActions(startDate: int, courseId: string, cs: seq<Consultation>, zid: string): seq<Action> {
    if cs == [] then []
    else
      ConsultsActions(startDate, courseId, cs[..|cs| - 1], zid)
        + ConsultActions(startDate, courseId, cs[|cs| - 1], zid)
  }

  /** All actions, in course, then consultation, then week order. */
  function CoursesActions(startDate: int, courses: seq<Course>, zid: string): seq<Action> {
    if courses == [] then []
    else
      CoursesActions(startDate, courses[..|courses| - 1], zid)
        + ConsultsActions(startDate, courses[|courses| - 1].course, courses[|courses| - 1].consult, zid)
  }

  /** Some consultation of `cs` lists the zID. */
  predicate ConsultsMatch(cs: seq<Consultation>, zid: string) {
    exists b | 0 <= b < |cs| :: zid in cs[b].instructors
  }

  /** Some consultation of some course lists the zID. */
  predicate Matched(courses: seq<Course>, zid: string) {
    exists a | 0 <= a < |courses| :: ConsultsMatch(courses[a].consult, zid)
  }

  /** What `generate_calendar` returns, or that it panicked. */
  datatype Outcome = Generated(events: seq<Event>, found: bool) | Panicked

  // ---------------------------------------------------------------------------
  // The derivation
  // ---------------------------------------------------------------------------

  /** `generate_calendar`, with the term start as a parameter (the program fixes
      it at 2024-09-09, `TermStart`) and the diagnostics returned. This is the
      loop over the courses (src/main.rs:143-202). */
  method GenerateCalendar(courses: seq<Course>, zid: string, startDate: int)
    returns (outcome: Outcome, diagnostics: seq<string>)
    ensures var run := Perform(CoursesActions(startDate, courses, zid));
      diagnostics == run.diagnostics &&
      outcome == if run.aborted then Panicked else Generated(run.events, Matched(courses, zid))
  {
    var calendar: seq<Event> := [];
    var foundAllocations := false;
    diagnostics := [];
    for i := 0 to |courses|
      invariant Perform(CoursesActions(startDate, courses[..i], zid)) == Run(calendar, diagnostics, false)
      invariant foundAllocations == Matched(courses[..i], zid)
    {
      CourseNext(startDate, courses, zid, i);
      var found, panicked;
      calendar, diagnostics, found, panicked := ExpandCourse(startDate, courses[i], zid, calendar, diagnostics);
      if panicked {
        outcome := Panicked;
        return;
      }
      MatchedStep(courses, zid, i);
      foundAllocations := foundAllocations || found;
    }
    TakeAll(courses);
    outcome := Generated(calendar, foundAllocations);
  }

  /** The loop over the consultations of one course (src/main.rs:144-201):
      it extends `calendar` and `diagnostics` by what they perform, reports a
      panic, and otherwise whether one of them lists the zID. */
  method ExpandCourse(startDate: int, course: Course, zid: string, calendar: seq<Event>, diagnostics: seq<string>)
    returns (calendar': seq<Event>, diagnostics': seq<string>, found: bool, panicked: bool)
    ensures var run := Perform(ConsultsActions(startDate, course.course, course.consult, zid));
      calendar' == calendar + run.events &&
      diagnostics' == diagnostics + run.diagnostics &&
      panicked == run.aborted
    ensures !panicked ==> found == ConsultsMatch(course.consult, zid)
  {
    calendar', diagnostics', found := calendar, diagnostics, false;
    for j := 0 to |course.consult|
      invariant var run := Perform(ConsultsActions(startDate, course.course, course.consult[..j], zid));
        calendar' == calendar + run.events && diagnostics' == diagnostics + run.diagnostics && !run.aborted
      invariant found == ConsultsMatch(course.consult[..j], zid)
    {
      var consultation := course.consult[j];
      ConsultNext(startDate, course.course, course.consult, zid, j);
      ConsultsMatchStep(course.consult, zid, j);
      ghost var before := Perform(ConsultsActions(startDate, course.course, course.consult[..j], zid));
      if zid in consultation.instructors {
        found := true;
        var weeks, notes := ParseWeeks(consultation.weeks);
        PerformConsult(startDate, course.course, consultation, zid);
        ghost var run := Perform(WeekActions(startDate, course.course, consultation, zid, weeks));
        SeqAssoc(calendar, before.events, run.events);
        SeqAssoc(diagnostics + before.diagnostics, notes, run.diagnostics);
        SeqAssoc(diagnostics, before.diagnostics, notes + run.diagnostics);
        diagnostics' := diagnostics' + notes;
        calendar', diagnostics', panicked :=
          ExpandWeeks(startDate, course.course, consultation, zid, weeks, calendar', diagnostics');
        if panicked {
          return;
        }
      } else {
        assert ConsultActions(startDate, course.course, consultation, zid) == [];
        assert before.events + [] == before.events && before.diagnostics + [] == before.diagnostics;
      }
    }
    TakeAll(course.consult);
    panicked := false;
  }

  /** The loop over the weeks of one kept consultation (src/main.rs:148-199):
      it extends `calendar` and `diagnostics` by what those weeks perform, and
      reports a panic. */
  method ExpandWeeks(startDate: int, courseId: string, c: Consultation, zid: string, weeks: seq<U32>,
                     calendar: seq<Event>, diagnostics: seq<string>)
    returns (calendar': seq<Event>, diagnostics': seq<string>, panicked: bool)
    ensures var run := Perform(WeekActions(startDate, courseId, c, zid, weeks));
      calendar' == calendar + run.events &&
      diagnostics' == diagnostics + run.diagnostics &&
      panicked == run.aborted
  {
    calendar', diagnostics' := calendar, diagnostics;
    for k := 0 to |weeks|
      invariant var run := Perform(WeekActions(startDate, courseId, c, zid, weeks[..k]));
        calendar' == calendar + run.events && diagnostics' == diagnostics + run.diagnostics && !run.aborted
    {
      var week := weeks[k];
      WeekNext(startDate, courseId, c, zid, weeks, k);
      ghost var before := Perform(WeekActions(startDate, courseId, c, zid, weeks[..k]));
      var weekStart := WeekStart(startDate, week);
      if weekStart.None? {
        panicked := true;
        return;
      }
      var dayOffset := DayOffset(c.day);
      if dayOffset.None? {
        SeqAssoc(diagnostics, before.diagnostics, ["Invalid day: " + c.day]);
        diagnostics' := diagnostics' + ["Invalid day: " + c.day];
      } else {
        var date := AddDays(weekStart.value, dayOffset.value);
        if date.None? {
          panicked := true;
          return;
        }
        var event := MakeEvent(courseId, c, zid, week, date.value);
        SeqAssoc(calendar, before.events, [event]);
        calendar' := calendar' + [event];
      }
    }
    TakeAll(weeks);
    panicked := false;
  }

  // ---------------------------------------------------------------------------
  // Facts about `Perform` and the action sequences
  // ---------------------------------------------------------------------------

  /** Performing one sequence after another: the second counts only when the
      first did not panic. */
  lemma {:induction false} PerformAppend(a: seq<Action>, b: seq<Action>)
    ensures Perform(a + b) ==
      if Perform(a).aborted then Perform(a)
      else Run(Perform(a).events + Perform(b).events,
               Perform(a).diagnostics + Perform(b).diagnostics,
               Perform(b).aborted)
    decreases |a|
  {
    if a == [] {
      assert a + b == b;
    } else {
      assert (a + b)[0] == a[0];
      assert (a + b)[1..] == a[1..] + b;
      PerformAppend(a[1..], b);
      var rest, tail := Perform(a[1..]), Perform(b);
      match a[0]
      case Abort =>
      case Warn(message) =>
        SeqAssoc([message], rest.diagnostics, tail.diagnostics);
      case Add(event) =>
        SeqAssoc([event], rest.events, tail.events);
    }
  }

  lemma PerformStep(done: seq<Action>, action: Action)
    requires !Perform(done).aborted
    ensures Perform(done + [action]) ==
      match action
      case Abort => Run(Perform(done).events, Perform(done).diagnostics, true)
      case Warn(m) => Run(Perform(done).events, Perform(done).diagnostics + [m], false)
      case Add(e) => Run(Perform(done).events + [e], Perform(done).diagnostics, false)
  {
    PerformAppend(done, [action]);
    assert [action][1..] == [];
  }

  /** Warnings only write diagnostic lines, in order. */
  lemma {:induction false} PerformWarnings(messages: seq<string>)
    ensures Perform(Warnings(messages)) == Run([], messages, false)
    decreases |messages|
  {
    if messages != [] {
      var init := messages[..|messages| - 1];
      PerformWarnings(init);
      PerformStep(Warnings(init), Warn(messages[|messages| - 1]));
      assert init + [messages[|messages| - 1]] == messages;
    }
  }

  /** A kept consultation first writes the diagnostics of its week list, then
      performs its weeks. */
  lemma PerformConsult(startDate: int, courseId: string, c: Consultation, zid: string)
    requires zid in c.instructors
    ensures var run := Perform(WeekActions(startDate, courseId, c, zid, WeeksOf(c.weeks)));
      Perform(ConsultActions(startDate, courseId, c, zid)) ==
        Run(run.events, DiagnosticsOf(c.weeks) + run.diagnostics, run.aborted)
  {
    PerformWarnings(DiagnosticsOf(c.weeks));
    PerformAppend(Warnings(DiagnosticsOf(c.weeks)), WeekActions(startDate, courseId, c, zid, WeeksOf(c.weeks)));
  }

  /** Once a prefix has panicked, the rest has no effect. */
  lemma AbortedPrefix(p: seq<Action>, q: seq<Action>)
    requires p <= q && Perform(p).aborted
    ensures Perform(q) == Perform(p)
  {
    assert q == p + q[|p|..];
    PerformAppend(p, q[|p|..]);
  }

  lemma AbortedWeeks(startDate: int, courseId: string, c: Consultation, zid: string, weeks: seq<U32>, m: nat)
    requires m <= |weeks|
    requires Perform(WeekActions(startDate, courseId, c, zid, weeks[..m])).aborted
    ensures Perform(WeekActions(startDate, courseId, c, zid, weeks)) ==
      Perform(WeekActions(startDate, courseId, c, zid, weeks[..m]))
  {
    WeekActionsPrefix(startDate, courseId, c, zid, weeks, m);
    AbortedPrefix(WeekActions(startDate, courseId, c, zid, weeks[..m]), WeekActions(startDate, courseId, c, zid, weeks));
  }

  /** Consultation `j` is performed right after those before it, and a panic
      there is the end of the course. */
  lemma ConsultNext(startDate: int, courseId: string, cs: seq<Consultation>, zid: string, j: nat)
    requires j < |cs|
    ensures
      var p := Perform(ConsultsActions(startDate, courseId, cs[..j], zid));
      var q := Perform(ConsultsActions(startDate, courseId, cs[..j + 1], zid));
      var r := Perform(ConsultActions(startDate, courseId, cs[j], zid));
      q == (if p.aborted then p else Run(p.events + r.events, p.diagnostics + r.diagnostics, r.aborted)) &&
      (q.aborted ==> Perform(ConsultsActions(startDate, courseId, cs, zid)) == q)
  {
    ConsultsStep(startDate, courseId, cs, zid, j);
    PerformAppend(ConsultsActions(startDate, courseId, cs[..j], zid), ConsultActions(startDate, courseId, cs[j], zid));
    ConsultsPrefix(startDate, courseId, cs, zid, j + 1);
    if Perform(ConsultsActions(startDate, courseId, cs[..j + 1], zid)).aborted {
      AbortedPrefix(ConsultsActions(startDate, courseId, cs[..j + 1], zid), ConsultsActions(startDate, courseId, cs, zid));
    }
  }

  /** Course `i` is performed right after those before it, and a panic there
      is the end of the whole derivation. */
  lemma CourseNext(startDate: int, courses: seq<Course>, zid: string, i: nat)
    requires i < |courses|
    ensures
      var p := Perform(CoursesActions(startDate, courses[..i], zid));
      var q := Perform(CoursesActions(startDate, courses[..i + 1], zid));
      var r := Perform(ConsultsActions(startDate, courses[i].course, courses[i].consult, zid));
      q == (if p.aborted then p else Run(p.events + r.events, p.diagnostics + r.diagnostics, r.aborted)) &&
      (q.aborted ==> Perform(CoursesActions(startDate, courses, zid)) == q)
  {
    CoursesStep(startDate, courses, zid, i);
    PerformAppend(CoursesActions(startDate, courses[..i], zid),
                  ConsultsActions(startDate, courses[i].course, courses[i].consult, zid));
    CoursesPrefix(startDate, courses, zid, i + 1);
    if Perform(CoursesActions(startDate, courses[..i + 1], zid)).aborted {
      AbortedPrefix(CoursesActions(startDate, courses[..i + 1], zid), CoursesActions(startDate, courses, zid));
    }
  }

  /** Week `k` is performed right after the weeks before it, and a panic
      there is the end of the list. */
  lemma WeekNext(startDate: int, courseId: string, c: Consultation, zid: string, weeks: seq<U32>, k: nat)
    requires k < |weeks|
    requires !Perform(WeekActions(startDate, courseId, c, zid, weeks[..k])).aborted
    ensures
      var p := Perform(WeekActions(startDate, courseId, c, zid, weeks[..k]));
      var q := Perform(WeekActions(startDate, courseId, c, zid, weeks[..k + 1]));
      q == (match WeekAction(startDate, courseId, c, zid, weeks[k])
            case Abort => Run(p.events, p.diagnostics, true)
            case Warn(m) => Run(p.events, p.diagnostics + [m], false)
            case Add(e) => Run(p.events + [e], p.diagnostics, false)) &&
      (q.aborted ==> Perform(WeekActions(startDate, courseId, c, zid, weeks)) == q)
  {
    WeeksStep(startDate, courseId, c, zid, weeks, k);
    PerformStep(WeekActions(startDate, courseId, c, zid, weeks[..k]), WeekAction(startDate, courseId, c, zid, weeks[k]));
    if Perform(WeekActions(startDate, courseId, c, zid, weeks[..k + 1])).aborted {
      AbortedWeeks(startDate, courseId, c, zid, weeks, k + 1);
    }
  }

  lemma WeeksStep(startDate: int, courseId: string, c: Consultation, zid: string, weeks: seq<U32>, k: nat)
    requires k < |weeks|
    ensures WeekActions(startDate, courseId, c, zid, weeks[..k + 1]) ==
      WeekActions(startDate, courseId, c, zid, weeks[..k]) + [WeekAction(startDate, courseId, c, zid, weeks[k])]
  {
    assert weeks[..k + 1][..k] == weeks[..k];
  }

  lemma ConsultsStep(startDate: int, courseId: string, cs: seq<Consultation>, zid: string, j: nat)
    requires j < |cs|
    ensures ConsultsActions(startDate, courseId, cs[..j + 1], zid) ==
      ConsultsActions(startDate, courseId, cs[..j], zid) + ConsultActions(startDate, courseId, cs[j], zid)
  {
    assert cs[..j + 1][..j] == cs[..j];
  }

  lemma CoursesStep(startDate: int, courses: seq<Course>, zid: string, i: nat)
    requires i < |courses|
    ensures CoursesActions(startDate, courses[..i + 1], zid) ==
      CoursesActions(startDate, courses[..i], zid)
        + ConsultsActions(startDate, courses[i].course, courses[i].consult, zid)
  {
    assert courses[..i + 1][..i] == courses[..i];
  }

  lemma {:induction false} WeekActionsPrefix(startDate: int, courseId: string, c: Consultation, zid: string, weeks: seq<U32>, m: nat)
    requires m <= |weeks|
    ensures WeekActions(startDate, courseId, c, zid, weeks[..m]) <= WeekActions(startDate, courseId, c, zid, weeks)
    decreases |weeks| - m
  {
    if m < |weeks| {
      WeekActionsPrefix(startDate, courseId, c, zid, weeks, m + 1);
      WeeksStep(startDate, courseId, c, zid, weeks, m);
    } else {
      assert weeks[..m] == weeks;
    }
  }

  lemma {:induction false} ConsultsPrefix(startDate: int, courseId: string, cs: seq<Consultation>, zid: string, m: nat)
    requires m <= |cs|
    ensures ConsultsActions(startDate, courseId, cs[..m], zid) <= ConsultsActions(startDate, courseId, cs, zid)
    decreases |cs| - m
  {
    if m < |cs| {
      ConsultsPrefix(startDate, courseId, cs, zid, m + 1);
      ConsultsStep(startDate, courseId, cs, zid, m);
    } else {
      assert cs[..m] == cs;
    }
  }

  lemma {:induction false} CoursesPrefix(startDate: int, courses: seq<Course>, zid: string, m: nat)
    requires m <= |courses|
    ensures CoursesActions(startDate, courses[..m], zid) <= CoursesActions(startDate, courses, zid)
    decreases |courses| - m
  {
    if m < |courses| {
      CoursesPrefix(startDate, courses, zid, m + 1);
      CoursesStep(startDate, courses, zid, m);
    } else {
      assert courses[..m] == courses;
    }
  }

  lemma TakeAll<T>(s: seq<T>)
    ensures s[..|s|] == s
  {
  }

  lemma ConsultsMatchStep(cs: seq<Consultation>, zid: string, j: nat)
    requires j < |cs|
    ensures ConsultsMatch(cs[..j + 1], zid) == (ConsultsMatch(cs[..j], zid) || zid in cs[j].instructors)
  {
    if ConsultsMatch(cs[..j + 1], zid) && zid !in cs[j].instructors {
      var b :| 0 <= b < j + 1 && zid in cs[..j + 1][b].instructors;
      assert cs[..j][b] == cs[b];
    }
    if ConsultsMatch(cs[..j], zid) {
      var b :| 0 <= b < j && zid in cs[..j][b].instructors;
      assert cs[..j + 1][b] == cs[b];
    }
  }

  lemma MatchedStep(courses: seq<Course>, zid: string, i: nat)
    requires i < |courses|
    ensures Matched(courses[..i + 1], zid) == (Matched(courses[..i], zid) || ConsultsMatch(courses[i].consult, zid))
  {
    if Matched(courses[..i + 1], zid) && !ConsultsMatch(courses[i].consult, zid) {
      var a :| 0 <= a < i + 1 && ConsultsMatch(courses[..i + 1][a].consult, zid);
      assert courses[..i][a] == courses[a];
    }
    if Matched(courses[..i], zid) {
      var a :| 0 <= a < i && ConsultsMatch(courses[..i][a].consult, zid);
      assert courses[..i + 1][a] == courses[a];
    }
  }

  // ---------------------------------------------------------------------------
  // Properties of the derivation
  // ---------------------------------------------------------------------------

  /** The three outcomes of one week: an event on the projected date, a
      diagnostic for an unknown day, or a panic when the week has no start. */
  lemma WeekOutcome(startDate: int, courseId: string, c: Consultation, zid: string, week: U32)
    ensures ProjectDate(startDate, week, c.day).Some? ==>
      WeekAction(startDate, courseId, c, zid, week) ==
        Add(MakeEvent(courseId, c, zid, week, ProjectDate(startDate, week, c.day).value))
    ensures WeekStart(startDate, week).Some? && DayOffset(c.day).None? ==>
      WeekAction(startDate, courseId, c, zid, week) == Warn("Invalid day: " + c.day)
    ensures WeekStart(startDate, week).None? ==> WeekAction(startDate, courseId, c, zid, week) == Abort
  {
  }

  /** Actions that all add events add exactly those events, in order. */
  lemma {:induction false} PerformAdds(actions: seq<Action>)
    requires forall k :: 0 <= k < |actions| ==> actions[k].Add?
    ensures var run := Perform(actions);
      !run.aborted && run.diagnostics == [] && |run.events| == |actions| &&
      forall k :: 0 <= k < |actions| ==> run.events[k] == actions[k].event
    decreases |actions|
  {
    if actions != [] {
      assert forall k :: 0 <= k < |actions| - 1 ==> actions[1..][k] == actions[k + 1];
      PerformAdds(actions[1..]);
    }
  }

  /** Actions that all warn write exactly those messages, in order. */
  lemma {:induction false} PerformWarns(actions: seq<Action>)
    requires forall k :: 0 <= k < |actions| ==> actions[k].Warn?
    ensures var run := Perform(actions);
      !run.aborted && run.events == [] && |run.diagnostics| == |actions| &&
      forall k :: 0 <= k < |actions| ==> run.diagnostics[k] == actions[k].message
    decreases |actions|
  {
    if actions != [] {
      assert forall k :: 0 <= k < |actions| - 1 ==> actions[1..][k] == actions[k + 1];
      PerformWarns(actions[1..]);
    }
  }

  /** The actions of a week list are the actions of its weeks, in order. */
  lemma {:induction false} WeekActionsIndex(startDate: int, courseId: string, c: Consultation, zid: string, weeks: seq<U32>)
    ensures |WeekActions(startDate, courseId, c, zid, weeks)| == |weeks|
    ensures forall k :: 0 <= k < |weeks| ==>
      WeekActions(startDate, courseId, c, zid, weeks)[k] == WeekAction(startDate, courseId, c, zid, weeks[k])
    decreases |weeks|
  {
    if weeks != [] {
      var n := |weeks| - 1;
      var prev := WeekActions(startDate, courseId, c, zid, weeks[..n]);
      var all := WeekActions(startDate, courseId, c, zid, weeks);
      WeekActionsIndex(startDate, courseId, c, zid, weeks[..n]);
      assert all == prev + [WeekAction(startDate, courseId, c, zid, weeks[n])];
      forall k | 0 <= k < |weeks| ensures all[k] == WeekAction(startDate, courseId, c, zid, weeks[k]) {
        if k < n {
          assert all[k] == prev[k] && weeks[..n][k] == weeks[k];
        }
      }
    }
  }

  /** When every week can be dated, there is one event per week, in order, on
      its projected date, and nothing else. */
  lemma WeeksAllDated(startDate: int, courseId: string, c: Consultation, zid: string, weeks: seq<U32>)
    requires forall k :: 0 <= k < |weeks| ==> ProjectDate(startDate, weeks[k], c.day).Some?
    ensures var run := Perform(WeekActions(startDate, courseId, c, zid, weeks));
      !run.aborted && run.diagnostics == [] && |run.events| == |weeks| &&
      forall k :: 0 <= k < |weeks| ==>
        run.events[k] == MakeEvent(courseId, c, zid, weeks[k], ProjectDate(startDate, weeks[k], c.day).value)
  {
    var actions := WeekActions(startDate, courseId, c, zid, weeks);
    WeekActionsIndex(startDate, courseId, c, zid, weeks);
    forall k | 0 <= k < |weeks|
      ensures actions[k] == Add(MakeEvent(courseId, c, zid, weeks[k], ProjectDate(startDate, weeks[k], c.day).value))
    {
      WeekOutcome(startDate, courseId, c, zid, weeks[k]);
    }
    PerformAdds(actions);
  }

  /** With an unknown day, every week is skipped with one diagnostic. */
  lemma WeeksInvalidDay(startDate: int, courseId: string, c: Consultation, zid: string, weeks: seq<U32>)
    requires DayOffset(c.day).None?
    requires forall k :: 0 <= k < |weeks| ==> WeekStart(startDate, weeks[k]).Some?
    ensures Perform(WeekActions(startDate, courseId, c, zid, weeks)) ==
      Run([], seq(|weeks|, k => "Invalid day: " + c.day), false)
  {
    var actions := WeekActions(startDate, courseId, c, zid, weeks);
    WeekActionsIndex(startDate, courseId, c, zid, weeks);
    forall k | 0 <= k < |weeks| ensures actions[k] == Warn("Invalid day: " + c.day) {
      WeekOutcome(startDate, courseId, c, zid, weeks[k]);
    }
    PerformWarns(actions);
  }

  /** A week without a start (week 0, or one past chrono's range) makes the
      whole list panic. */
  lemma WeeksPanic(startDate: int, courseId: string, c: Consultation, zid: string, weeks: seq<U32>, k: nat)
    requires k < |weeks| && WeekStart(startDate, weeks[k]).None?
    ensures Perform(WeekActions(startDate, courseId, c, zid, weeks)).aborted
  {
    var before := WeekActions(startDate, courseId, c, zid, weeks[..k]);
    WeeksStep(startDate, courseId, c, zid, weeks, k);
    WeekOutcome(startDate, courseId, c, zid, weeks[k]);
    PerformAppend(before, [Abort]);
    AbortedWeeks(startDate, courseId, c, zid, weeks, k + 1);
  }

  /** A kept consultation on a known day whose weeks can all be dated gives
      the diagnostics of its week list and exactly one event per listed week,
      in order (repeated weeks included), on its projected date (which
      `ProjectDateValue` gives as term start + 7 * (week - 1) + the day's
      offset). */
  lemma ConsultationEvents(startDate: int, courseId: string, c: Consultation, zid: string)
    requires zid in c.instructors
    requires forall k :: 0 <= k < |WeeksOf(c.weeks)| ==> ProjectDate(startDate, WeeksOf(c.weeks)[k], c.day).Some?
    ensures var run := Perform(ConsultActions(startDate, courseId, c, zid));
      var weeks := WeeksOf(c.weeks);
      !run.aborted && run.diagnostics == DiagnosticsOf(c.weeks) && |run.events| == |weeks| &&
      forall k :: 0 <= k < |weeks| ==>
        run.events[k] == MakeEvent(courseId, c, zid, weeks[k], ProjectDate(startDate, weeks[k], c.day).value)
  {
    PerformConsult(startDate, courseId, c, zid);
    WeeksAllDated(startDate, courseId, c, zid, WeeksOf(c.weeks));
  }

  /** A kept consultation on an unknown day gives no event and, after the
      diagnostics of its week list, one `Invalid day` line per listed week. */
  lemma InvalidDayEvents(startDate: int, courseId: string, c: Consultation, zid: string)
    requires zid in c.instructors && DayOffset(c.day).None?
    requires forall k :: 0 <= k < |WeeksOf(c.weeks)| ==> WeekStart(startDate, WeeksOf(c.weeks)[k]).Some?
    ensures Perform(ConsultActions(startDate, courseId, c, zid)) ==
      Run([], DiagnosticsOf(c.weeks) + seq(|WeeksOf(c.weeks)|, k => "Invalid day: " + c.day), false)
  {
    PerformConsult(startDate, courseId, c, zid);
    WeeksInvalidDay(startDate, courseId, c, zid, WeeksOf(c.weeks));
  }

  /** A kept consultation listing week 0, or a week that leaves chrono's
      range, makes `generate_calendar` panic, whatever its day and whatever
      comes after it. */
  lemma UndatableWeekPanics(startDate: int, courses: seq<Course>, zid: string, i: nat, j: nat, week: U32)
    requires i < |courses| && j < |courses[i].consult|
    requires zid in courses[i].consult[j].instructors
    requires week in WeeksOf(courses[i].consult[j].weeks) && WeekStart(startDate, week).None?
    ensures Perform(CoursesActions(startDate, courses, zid)).aborted
  {
    var c := courses[i].consult[j];
    var weeks := WeeksOf(c.weeks);
    var k :| 0 <= k < |weeks| && weeks[k] == week;
    WeeksPanic(startDate, courses[i].course, c, zid, weeks, k);
    PerformConsult(startDate, courses[i].course, c, zid);
    ConsultNext(startDate, courses[i].course, courses[i].consult, zid, j);
    CourseNext(startDate, courses, zid, i);
  }

  /** Week 0 never has a start. */
  lemma WeekZeroHasNoStart(startDate: int)
    ensures WeekStart(startDate, 0).None?
  {
  }

  /** When no consultation lists the zID, nothing happens at all. */
  lemma {:induction false} UnmatchedDoesNothing(startDate: int, courses: seq<Course>, zid: string)
    requires !Matched(courses, zid)
    ensures CoursesActions(startDate, courses, zid) == []
    ensures Perform(CoursesActions(startDate, courses, zid)) == Run([], [], false)
    decreases |courses|
  {
    if courses != [] {
      var n := |courses| - 1;
      var init := courses[..n];
      UnmatchedDoesNothing(startDate, init, zid);
      UnmatchedConsults(startDate, courses[n].course, courses[n].consult, zid);
    }
  }

  lemma {:induction false} UnmatchedConsults(startDate: int, courseId: string, cs: seq<Consultation>, zid: string)
    requires forall b :: 0 <= b < |cs| ==> zid !in cs[b].instructors
    ensures ConsultsActions(startDate, courseId, cs, zid) == []
    decreases |cs|
  {
    if cs != [] {
      var n := |cs| - 1;
      assert forall b :: 0 <= b < n ==> cs[..n][b] == cs[b];
      UnmatchedConsults(startDate, courseId, cs[..n], zid);
    }
  }

  /** Courses are processed in order: the actions of a roster are those of
      its first part followed by those of the rest. */
  lemma {:induction false} CoursesConcat(startDate: int, a: seq<Course>, b: seq<Course>, zid: string)
    ensures CoursesActions(startDate, a + b, zid) == CoursesActions(startDate, a, zid) + CoursesActions(startDate, b, zid)
    decreases |b|
  {
    if b == [] {
      assert a + b == a;
    } else {
      var n := |b| - 1;
      assert (a + b)[..|a + b| - 1] == a + b[..n];
      CoursesConcat(startDate, a, b[..n], zid);
      SeqAssoc(CoursesActions(startDate, a, zid), CoursesActions(startDate, b[..n], zid),
               ConsultsActions(startDate, b[n].course, b[n].consult, zid));
    }
  }

  /** So the events of a roster are those of its first part followed by
      those of the rest, unless the first part panics. */
  lemma RosterOrder(startDate: int, a: seq<Course>, b: seq<Course>, zid: string)
    ensures var whole := Perform(CoursesActions(startDate, a + b, zid));
      var first := Perform(CoursesActions(startDate, a, zid));
      var rest := Perform(CoursesActions(startDate, b, zid));
      whole == if first.aborted then first
               else Run(first.events + rest.events, first.diagnostics + rest.diagnostics, rest.aborted)
  {
    CoursesConcat(startDate, a, b, zid);
    PerformAppend(CoursesActions(startDate, a, zid), CoursesActions(startDate, b, zid));
  }

  /** Stamps with the same time of day on different dates differ. */
  lemma StampInjective(date1: int, date2: int, time: string)
    requires Stamp(date1, time) == Stamp(date2, time)
    ensures date1 == date2
  {
    SameSuffix(FormatYmd(date1), FormatYmd(date2), "T" + RemoveAll(time, ':') + "00");
    FormatYmdInjective(date1, date2);
  }

  lemma SameSuffix<T>(x: seq<T>, y: seq<T>, r: seq<T>)
    requires x + r == y + r
    ensures x == y
  {
    assert |x| == |y|;
    assert x == (x + r)[..|x|];
  }

  /** Events of one consultation on different dates start at different stamps. */
  lemma DistinctDatesDistinctStarts(courseId: string, c: Consultation, zid: string, w1: U32, d1: int, w2: U32, d2: int)
    requires d1 != d2
    ensures MakeEvent(courseId, c, zid, w1, d1).dtStart != MakeEvent(courseId, c, zid, w2, d2).dtStart
  {
    if Stamp(d1, c.start) == Stamp(d2, c.start) {
      StampInjective(d1, d2, c.start);
    }
  }

  /** The UID ends with the week number, so different weeks of one
      consultation get different UIDs. */
  lemma UidDistinguishesWeeks(courseId: string, c: Consultation, zid: string, w1: U32, w2: U32)
    requires EventUid(courseId, c, zid, w1) == EventUid(courseId, c, zid, w2)
    ensures w1 == w2
  {
    var head := courseId + "-" + c.day + "-" + c.start + "-" + zid + "-week";
    var u := EventUid(courseId, c, zid, w1);
    assert u == head + NatToString(w1) && u == head + NatToString(w2);
    assert NatToString(w1) == u[|head|..] == NatToString(w2);
    NatToStringInjective(w1, w2);
  }
}
