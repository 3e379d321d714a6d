/**
 * The two diary endpoints: the weekly schedule a requester sees, assembled date by date,
 * and a teacher's grade post, which creates the grade or updates the existing one.
 */
module DiaryViews {
  import opened Common
  import opened UserModels
  import opened DiaryModels
  import opened DiarySerializers

  /** The tables the diary endpoints read and write. */
  datatype School = School(dir: Directory, timetable: Timetable, grades: seq<Grade>)

  // ---------------------------------------------------------------------------
  // Calendar
  // ---------------------------------------------------------------------------

  /** A calendar date as its proleptic Gregorian ordinal (`date.toordinal()`); day 1,
      0001-01-01, is a Monday. */
  type Date = int

  /** `date.weekday()`: Monday 0 … Sunday 6. */
  function Weekday(d: Date): (w: nat)
    ensures w < 7
  {
    (d + 6) % 7
  }

  lemma WeekdayAdvance(d: Date, k: nat)
    requires Weekday(d) + k < 7
    ensures Weekday(d + k) == Weekday(d) + k
  {
  }

  /** Two dates less than a week apart with the same weekday are the same date. */
  lemma SameWeekdayWithinAWeek(a: Date, b: Date)
    requires a <= b < a + 7 && Weekday(a) == Weekday(b)
    ensures a == b
  {
  }

  /** Going forward from `a` to `b` passes at least the weekday gap between them. */
  lemma WeekdayGapBound(a: Date, b: Date)
    requires a <= b && Weekday(a) <= Weekday(b)
    ensures b - a >= Weekday(b) - Weekday(a)
  {
    var k := Weekday(b) - Weekday(a);
    if b - a < k {
      WeekdayAdvance(a, b - a);
    }
  }

  /** The latest date not after `end` that falls on weekday `w`. */
  function LastOnWeekday(end: Date, w: nat): (d: Date)
    requires w < 7
    ensures Weekday(d) == w && d <= end && end - d < 7
  {
    end - (Weekday(end) - w) % 7
  }

  lemma LastOnWeekdayIsLatest(end: Date, w: nat, d: Date)
    requires w < 7 && d <= end && Weekday(d) == w
    ensures d <= LastOnWeekday(end, w)
  {
    var l := LastOnWeekday(end, w);
    if d > l {
      SameWeekdayWithinAWeek(l, d);
    }
  }

  lemma LastOnWeekdayStep(end: Date, w: nat)
    requires w < 7
    ensures LastOnWeekday(end + 1, w) == if w == Weekday(end + 1) then end + 1 else LastOnWeekday(end, w)
  {
    var l' := LastOnWeekday(end + 1, w);
    if w == Weekday(end + 1) {
      SameWeekdayWithinAWeek(l', end + 1);
    } else {
      var l := LastOnWeekday(end, w);
      LastOnWeekdayIsLatest(end + 1, w, l);
      LastOnWeekdayIsLatest(end, w, l');
    }
  }

  const AllWeekdays: set<nat> := {0, 1, 2, 3, 4, 5, 6}

  /** The weekday keys of the response, in display order. */
  const DayNames: seq<string> := ["Пн", "Вт", "Ср", "Чт", "Пт", "Сб", "Вс"]

  lemma DayNamesDistinct()
    ensures |DayNames| == 7
    ensures forall i, j :: 0 <= i < j < 7 ==> DayNames[i] != DayNames[j]
  {
    assert forall i :: 0 <= i < 7 ==> |DayNames[i]| == 2;
    assert DayNames[0][0] == 'П' && DayNames[0][1] == 'н';
    assert DayNames[1][0] == 'В' && DayNames[1][1] == 'т';
    assert DayNames[2][0] == 'С' && DayNames[2][1] == 'р';
    assert DayNames[3][0] == 'Ч' && DayNames[3][1] == 'т';
    assert DayNames[4][0] == 'П' && DayNames[4][1] == 'т';
    assert DayNames[5][0] == 'С' && DayNames[5][1] == 'б';
    assert DayNames[6][0] == 'В' && DayNames[6][1] == 'с';
  }

  // ---------------------------------------------------------------------------
  // Which lessons a requester sees (`ScheduleView.get_queryset`)
  // ---------------------------------------------------------------------------

  /** A date query parameter: missing or empty, not of the form YYYY-MM-DD, or a date. */
  datatype DateArg = Absent | Malformed | Parsed(day: Date)

  datatype ScheduleError =
    | DatesMissing   // 400
    | BadDateFormat  // 400
    | StartAfterEnd  // 400
    | NoProfile      // `user.profile` raises for a user without one

  /** The timetable of the class a profile names, or nothing when no class matches. */
  function ClassTimetable(t: Timetable, p: Profile): (r: seq<Schedule>)
    ensures ClassFor(t.classes, p.classNumber, p.classLetter).None? ==> r == []
    ensures ClassFor(t.classes, p.classNumber, p.classLetter).Some? ==>
      forall s :: s in r <==> s in t.schedules && s.classroomId == ClassFor(t.classes, p.classNumber, p.classLetter).value.id
  {
    match ClassFor(t.classes, p.classNumber, p.classLetter)
    case None => []
    case Some(c) => Filter(t.schedules, (s: Schedule) => s.classroomId == c.id)
  }

  function VisibleSchedules(dir: Directory, t: Timetable, me: User): (r: Result<seq<Schedule>, ScheduleError>)
    ensures r.Ok? ==> forall s :: s in r.value ==> s in t.schedules
    ensures r.Err? ==> r.error == NoProfile
  {
    match me.role
    case Student =>
      (match ProfileOf(dir.profiles, me.id)
       case None => Err(NoProfile)
       case Some(p) => Ok(ClassTimetable(t, p)))
    case Parent =>
      (match FirstChildLink(dir.links, me.id)
       case None => Ok([])
       case Some(link) =>
         match ProfileOf(dir.profiles, link.studentId)
         case None => Err(NoProfile)
         case Some(p) => Ok(ClassTimetable(t, p)))
    case Teacher => Ok(Filter(t.schedules, (s: Schedule) => FindSubjectTaughtBy(t.subjects, s.subjectId, me.id).Some?))
    case Unlisted(_) => Ok([])
  }

  /** Visibility, role by role: a student sees their class's timetable, a parent their first
      child's (nothing without a child), a teacher the lessons of the subjects they teach,
      anyone else nothing. Only a missing profile makes the lookup fail. */
  lemma VisibilityByRole(dir: Directory, t: Timetable, me: User, s: Schedule)
    ensures me.role.Student? ==>
      match ProfileOf(dir.profiles, me.id)
      case None => VisibleSchedules(dir, t, me) == Err(NoProfile)
      case Some(p) =>
        (&& VisibleSchedules(dir, t, me).Ok?
         && (s in VisibleSchedules(dir, t, me).value <==>
             s in t.schedules && exists c :: c in t.classes && ClassFor(t.classes, p.classNumber, p.classLetter) == Some(c)
                                              && s.classroomId == c.id))
    ensures me.role.Parent? && FirstChildLink(dir.links, me.id).None? ==> VisibleSchedules(dir, t, me) == Ok([])
    ensures me.role.Parent? && FirstChildLink(dir.links, me.id).Some? ==>
      match ProfileOf(dir.profiles, FirstChildLink(dir.links, me.id).value.studentId)
      case None => VisibleSchedules(dir, t, me) == Err(NoProfile)
      case Some(p) => VisibleSchedules(dir, t, me) == Ok(ClassTimetable(t, p))
    ensures me.role.Teacher? ==>
      (&& VisibleSchedules(dir, t, me).Ok?
       && (s in VisibleSchedules(dir, t, me).value <==>
           s in t.schedules && exists sub :: sub in t.subjects && sub.id == s.subjectId && sub.teacherId == me.id))
    ensures me.role.Unlisted? ==> VisibleSchedules(dir, t, me) == Ok([])
  {
    if me.role.Teacher? {
      var found := FindSubjectTaughtBy(t.subjects, s.subjectId, me.id);
      if exists sub :: sub in t.subjects && sub.id == s.subjectId && sub.teacherId == me.id {
        var sub :| sub in t.subjects && sub.id == s.subjectId && sub.teacherId == me.id;
        assert found.Some?;
      }
    }
  }

  // ---------------------------------------------------------------------------
  // One day of the week
  // ---------------------------------------------------------------------------

  /** `queryset.filter(day_of_week__range=[sw+1, ew+1]).filter(day_of_week=w+1)`. */
  function DaySchedules(visible: seq<Schedule>, sw: nat, ew: nat, w: nat): (r: seq<Schedule>)
    ensures forall s :: s in r <==> s in visible && sw + 1 <= s.dayOfWeek <= ew + 1 && s.dayOfWeek == w + 1
    ensures sw > ew ==> r == []
  {
    var inRange := Filter(visible, (s: Schedule) => sw + 1 <= s.dayOfWeek <= ew + 1);
    var r := Filter(inRange, (s: Schedule) => s.dayOfWeek == w + 1);
    assert r != [] ==> r[0] in r;
    r
  }

  /** Every lesson resolves its subject. */
  ghost predicate Resolvable(t: Timetable, visible: seq<Schedule>)
  {
    forall s :: s in visible ==> FindSubject(t.subjects, s.subjectId).Some?
  }

  /** The lesson list of date `d`, rendered with `LessonSerializer` in the context of that
      date (the view passes no `student_id`). */
  function DayLessons(school: School, me: User, visible: seq<Schedule>, sw: nat, ew: nat, d: Date): (r: seq<Lesson>)
    requires Resolvable(school.timetable, visible)
    ensures |r| == |DaySchedules(visible, sw, ew, Weekday(d))|
    ensures forall i :: 0 <= i < |r| ==>
      r[i] == RenderLesson(school.timetable, school.dir, school.grades, me,
                           DaySchedules(visible, sw, ew, Weekday(d))[i], LessonContext(Some(d), None))
  {
    var day := DaySchedules(visible, sw, ew, Weekday(d));
    seq(|day|, i requires 0 <= i < |day| =>
      RenderLesson(school.timetable, school.dir, school.grades, me, day[i], LessonContext(Some(d), None)))
  }

  // ---------------------------------------------------------------------------
  // The week (`ScheduleView.get`)
  // ---------------------------------------------------------------------------

  /** Whether some date from `start` to `upto` falls on weekday `w`: the gap from the start's
      weekday forward to `w` fits in the range. */
  predicate Covered(start: Date, upto: Date, w: nat)
  {
    start <= upto && (w - Weekday(start)) % 7 <= upto - start
  }

  lemma CoveredMeans(start: Date, upto: Date, w: nat)
    requires w < 7
    ensures Covered(start, upto, w) <==> exists d :: start <= d <= upto && Weekday(d) == w
  {
    var gap := (w - Weekday(start)) % 7;
    if Covered(start, upto, w) {
      assert Weekday(start + gap) == w;
    }
    if exists d :: start <= d <= upto && Weekday(d) == w {
      var d :| start <= d <= upto && Weekday(d) == w;
      assert (d - start) % 7 == gap;
    }
  }

  lemma CoveredStep(start: Date, upto: Date, w: nat)
    requires w < 7 && start <= upto + 1
    ensures Covered(start, upto + 1, w) <==> Covered(start, upto, w) || w == Weekday(upto + 1)
  {
    CoveredMeans(start, upto, w);
    CoveredMeans(start, upto + 1, w);
    if Covered(start, upto + 1, w) && !Covered(start, upto, w) {
      var d :| start <= d <= upto + 1 && Weekday(d) == w;
      assert d == upto + 1;
    }
  }

  /** The weekdays the response starts with: `days[sw:ew + 1]`, empty when sw > ew. */
  predicate Opening(sw: nat, ew: nat, w: nat)
  {
    sw <= w <= ew
  }

  /** The response by weekday once the dates from `start` to `upto` have been written: each
      covered weekday holds the lessons of its latest date so far, the other opening weekdays
      an empty list. */
  function WeekThrough(school: School, me: User, visible: seq<Schedule>, start: Date, upto: Date, sw: nat, ew: nat)
    : map<nat, seq<Lesson>>
    requires Resolvable(school.timetable, visible)
  {
    map w | w in AllWeekdays && (Opening(sw, ew, w) || Covered(start, upto, w)) ::
      if Covered(start, upto, w) then DayLessons(school, me, visible, sw, ew, LastOnWeekday(upto, w)) else []
  }

  /** The whole response of a valid request. */
  function Week(school: School, me: User, visible: seq<Schedule>, start: Date, end: Date): map<nat, seq<Lesson>>
    requires Resolvable(school.timetable, visible)
  {
    WeekThrough(school, me, visible, start, end, Weekday(start), Weekday(end))
  }

  /** What the endpoint answers: the date checks in the order the view makes them, then the
      week of the requester's visible lessons. */
  function ScheduleResponse(school: School, me: User, startArg: DateArg, endArg: DateArg)
    : (r: Result<map<nat, seq<Lesson>>, ScheduleError>)
    requires SubjectsResolve(school.timetable)
    ensures r == Err(DatesMissing) <==> startArg.Absent? || endArg.Absent?
    ensures r == Err(BadDateFormat) <==> !startArg.Absent? && !endArg.Absent? && (startArg.Malformed? || endArg.Malformed?)
    ensures r == Err(StartAfterEnd) <==> startArg.Parsed? && endArg.Parsed? && startArg.day > endArg.day
    ensures r.Ok? ==> startArg.Parsed? && endArg.Parsed? && startArg.day <= endArg.day
  {
    if startArg.Absent? || endArg.Absent? then Err(DatesMissing)
    else if startArg.Malformed? || endArg.Malformed? then Err(BadDateFormat)
    else if startArg.day > endArg.day then Err(StartAfterEnd)
    else
      match VisibleSchedules(school.dir, school.timetable, me)
      case Err(e) => Err(e)
      case Ok(visible) => Ok(Week(school, me, visible, startArg.day, endArg.day))
  }

  /** Writing date `upto + 1` into the response built through `upto` gives the response
      built through `upto + 1`. */
  lemma WeekThroughStep(school: School, me: User, visible: seq<Schedule>, start: Date, upto: Date, sw: nat, ew: nat)
    requires Resolvable(school.timetable, visible) && start <= upto + 1
    ensures WeekThrough(school, me, visible, start, upto + 1, sw, ew)
         == WeekThrough(school, me, visible, start, upto, sw, ew)[Weekday(upto + 1) := DayLessons(school, me, visible, sw, ew, upto + 1)]
  {
    var a := WeekThrough(school, me, visible, start, upto, sw, ew);
    var b := WeekThrough(school, me, visible, start, upto + 1, sw, ew);
    var c := a[Weekday(upto + 1) := DayLessons(school, me, visible, sw, ew, upto + 1)];
    forall w | w in AllWeekdays ensures (w in b <==> w in c) && (w in b ==> b[w] == c[w]) {
      WeekThroughStepAt(school, me, visible, start, upto, sw, ew, w);
    }
  }

  lemma WeekThroughStepAt(school: School, me: User, visible: seq<Schedule>, start: Date, upto: Date, sw: nat, ew: nat, w: nat)
    requires Resolvable(school.timetable, visible) && start <= upto + 1 && w in AllWeekdays
    ensures var b := WeekThrough(school, me, visible, start, upto + 1, sw, ew);
            var c := WeekThrough(school, me, visible, start, upto, sw, ew)[Weekday(upto + 1) := DayLessons(school, me, visible, sw, ew, upto + 1)];
            (w in b <==> w in c) && (w in b ==> b[w] == c[w])
  {
    CoveredStep(start, upto, w);
    LastOnWeekdayStep(upto, w);
  }

  /** The opening weekdays of a valid range are all covered by the walk. */
  lemma OpeningCovered(start: Date, end: Date, w: nat)
    requires start <= end && Opening(Weekday(start), Weekday(end), w)
    ensures Covered(start, end, w)
  {
    WeekdayGapBound(start, end);
  }

  /** The keys of a response are the weekdays the range covers, so there are at most
      seven. */
  lemma WeekKeys(school: School, me: User, visible: seq<Schedule>, start: Date, end: Date)
    requires Resolvable(school.timetable, visible) && start <= end
    ensures forall w :: w in Week(school, me, visible, start, end) <==>
      exists d :: start <= d <= end && w == Weekday(d)
    ensures |Week(school, me, visible, start, end)| <= 7
  {
    var week := Week(school, me, visible, start, end);
    forall w ensures w in week <==> exists d :: start <= d <= end && w == Weekday(d) {
      WeekKey(school, me, visible, start, end, w);
    }
    assert week.Keys <= AllWeekdays;
    SubsetCardinality(week.Keys, AllWeekdays);
  }

  /** One weekday is a key of the response exactly when some date of the range falls on it. */
  lemma WeekKey(school: School, me: User, visible: seq<Schedule>, start: Date, end: Date, w: nat)
    requires Resolvable(school.timetable, visible) && start <= end
    ensures w in Week(school, me, visible, start, end) <==> exists d :: start <= d <= end && w == Weekday(d)
    ensures w in Week(school, me, visible, start, end) ==> w in AllWeekdays
  {
    if Opening(Weekday(start), Weekday(end), w) {
      OpeningCovered(start, end, w);
    }
    if w < 7 {
      CoveredMeans(start, end, w);
    }
  }

  /** The walk writes every date of the range; a later date with the same weekday overwrites
      an earlier one, so each weekday ends up holding the lessons of its latest date. */
  lemma WeekCoversEveryDate(school: School, me: User, visible: seq<Schedule>, start: Date, end: Date, d: Date)
    requires Resolvable(school.timetable, visible) && start <= d <= end
    ensures Weekday(d) in Week(school, me, visible, start, end)
    ensures var last := LastOnWeekday(end, Weekday(d));
      && d <= last <= end && Weekday(last) == Weekday(d)
      && (forall later :: last < later <= end ==> Weekday(later) != Weekday(d))
      && Week(school, me, visible, start, end)[Weekday(d)]
         == DayLessons(school, me, visible, Weekday(start), Weekday(end), last)
  {
    var w := Weekday(d);
    CoveredMeans(start, end, w);
    assert w in AllWeekdays;
    LastOnWeekdayIsLatest(end, w, d);
    var last := LastOnWeekday(end, w);
    forall later | last < later <= end ensures Weekday(later) != w {
      if Weekday(later) == w {
        LastOnWeekdayIsLatest(end, w, later);
      }
    }
  }

  /** When the start's weekday comes after the end's, the weekday range filter excludes every
      lesson and every list is empty. */
  lemma WrappedWeekIsEmpty(school: School, me: User, visible: seq<Schedule>, start: Date, end: Date)
    requires Resolvable(school.timetable, visible) && Weekday(start) > Weekday(end)
    ensures forall w :: w in Week(school, me, visible, start, end) ==> Week(school, me, visible, start, end)[w] == []
  {
  }

  /** Before the walk only the opening weekdays are present, each with an empty list. */
  lemma WeekThroughNothing(school: School, me: User, visible: seq<Schedule>, start: Date, sw: nat, ew: nat)
    requires Resolvable(school.timetable, visible)
    ensures WeekThrough(school, me, visible, start, start - 1, sw, ew) == map w | w in AllWeekdays && Opening(sw, ew, w) :: []
  {
  }

  /** The loop of `ScheduleView.get`: a walk from the start date to the end date that writes
      each date's lessons under its weekday. */
  method WalkWeek(school: School, me: User, visible: seq<Schedule>, start: Date, end: Date)
    returns (result: map<nat, seq<Lesson>>)
    requires Resolvable(school.timetable, visible) && start <= end
    ensures result == Week(school, me, visible, start, end)
  {
    var sw, ew := Weekday(start), Weekday(end);
    result := map w | w in AllWeekdays && Opening(sw, ew, w) :: [];
    WeekThroughNothing(school, me, visible, start, sw, ew);
    var current := start;
    while current <= end
      invariant start <= current <= end + 1
      invariant result == WeekThrough(school, me, visible, start, current - 1, sw, ew)
    {
      WeekThroughStep(school, me, visible, start, current - 1, sw, ew);
      result := result[Weekday(current) := DayLessons(school, me, visible, sw, ew, current)];
      current := current + 1;
    }
    assert current - 1 == end;
  }

  /** `ScheduleView.get`: the date checks in order, then the walk. Weekday `w` is the
      response key `DayNames[w]`. */
  method ScheduleWeek(school: School, me: User, startArg: DateArg, endArg: DateArg)
    returns (r: Result<map<nat, seq<Lesson>>, ScheduleError>)
    requires SubjectsResolve(school.timetable)
    ensures r == ScheduleResponse(school, me, startArg, endArg)
  {
    if startArg.Absent? || endArg.Absent? {
      return Err(DatesMissing);
    }
    if startArg.Malformed? || endArg.Malformed? {
      return Err(BadDateFormat);
    }
    var start, end := startArg.day, endArg.day;
    if start > end {
      return Err(StartAfterEnd);
    }
    var visible := VisibleSchedules(school.dir, school.timetable, me);
    if visible.Err? {
      return Err(visible.error);
    }
    var week := WalkWeek(school, me, visible.value, start, end);
    r := Ok(week);
  }

  // ---------------------------------------------------------------------------
  // The day rendering as written
  // ---------------------------------------------------------------------------

  datatype RenderFailure = MissingAttribute(name: string)

  /** The view as written hands each day's timetable rows to `ScheduleSerializer`, whose
      required `day` field reads an attribute a timetable row does not have: an empty day
      renders as an empty list, any other day raises. */
  function RenderDayAsWritten(day: seq<Schedule>): (r: Result<seq<Lesson>, RenderFailure>)
    ensures r.Ok? <==> day == []
  {
    if day == [] then Ok([]) else Err(MissingAttribute("day"))
  }

  /** As soon as one date of the range has a visible lesson, the view as written fails,
      while the corrected rendering lists that lesson under the date's weekday. */
  lemma AsWrittenFailsOnAnyLesson(school: School, me: User, visible: seq<Schedule>, start: Date, end: Date, d: Date)
    requires Resolvable(school.timetable, visible) && start <= d <= end
    requires DaySchedules(visible, Weekday(start), Weekday(end), Weekday(d)) != []
    ensures RenderDayAsWritten(DaySchedules(visible, Weekday(start), Weekday(end), Weekday(d))).Err?
    ensures Weekday(d) in Week(school, me, visible, start, end)
    ensures |Week(school, me, visible, start, end)[Weekday(d)]| == |DaySchedules(visible, Weekday(start), Weekday(end), Weekday(d))| > 0
  {
    WeekCoversEveryDate(school, me, visible, start, end, d);
  }

  // ---------------------------------------------------------------------------
  // Grade post (`GradeCreateUpdateView.post`)
  // ---------------------------------------------------------------------------

  /** The body of a grade post. `student` and `subject` are ids; 0 is falsy and counts as
      missing. */
  datatype GradeRequest = GradeRequest(
    student: Option<Id>,
    subject: Option<Id>,
    date: DateArg,
    value: Supplied<nat>,
    comment: Supplied<string>)

  datatype GradeError =
    | NotTeacher              // 403, the `IsTeacher` permission
    | FieldsMissing           // 400
    | BadDate                 // 400
    | NotFoundOrNotTaught     // 400
    | Invalid(field: GradeFieldError)  // 400, from field validation

  datatype GradeOutcome = Created(grade: Grade) | Updated(grade: Grade)

  predicate Missing(id: Option<Id>)
  {
    id.None? || id.value == 0
  }

  /** The checks before the upsert, in the order the view makes them; on success the
      (student, subject, date) key of the grade. */
  function GradeKey(users: seq<User>, subjects: seq<Subject>, me: User, req: GradeRequest): (r: Result<(Id, Id, Date), GradeError>)
    ensures r == Err(NotTeacher) <==> !me.role.Teacher?
    ensures r == Err(FieldsMissing) <==> me.role.Teacher? && (Missing(req.student) || Missing(req.subject) || req.date.Absent?)
    ensures r == Err(BadDate) <==> me.role.Teacher? && !Missing(req.student) && !Missing(req.subject) && req.date.Malformed?
    ensures r.Ok? ==> req.date == Parsed(r.value.2)
                      && (exists u :: u in users && u.id == r.value.0 && u.role == Student)
                      && (exists s :: s in subjects && s.id == r.value.1 && s.teacherId == me.id)
    ensures r == Err(NotFoundOrNotTaught) <==>
      && me.role.Teacher? && !Missing(req.student) && !Missing(req.subject) && req.date.Parsed?
      && ((forall u :: u in users ==> !(u.id == req.student.value && u.role == Student))
          || (forall s :: s in subjects ==> !(s.id == req.subject.value && s.teacherId == me.id)))
  {
    if !me.role.Teacher? then Err(NotTeacher)
    else if Missing(req.student) || Missing(req.subject) || req.date.Absent? then Err(FieldsMissing)
    else if req.date.Malformed? then Err(BadDate)
    else if FindUserWithRole(users, req.student.value, Student).None?
         || FindSubjectTaughtBy(subjects, req.subject.value, me.id).None? then Err(NotFoundOrNotTaught)
    else Ok((req.student.value, req.subject.value, req.date.day))
  }

  /** The fields of the body a partial `GradeSerializer` update reads. */
  function PatchOf(req: GradeRequest): GradePatch
  {
    GradePatch(Omitted, req.value, Omitted, req.comment)
  }

  /** `request.data.get('comment', '')`. */
  function CommentDefault(c: Supplied<string>): Option<string>
  {
    match c
    case Omitted => Some("")
    case Null => None
    case Given(text) => Some(text)
  }

  /** The grade the create branch stores, with the value validated as the update branch
      validates it; a value is required. */
  function NewGrade(id: Id, key: (Id, Id, Date), req: GradeRequest): (r: Result<Grade, GradeFieldError>)
    ensures r.Ok? <==> req.value.Given? && IsGradeValue(req.value.v)
    ensures r.Ok? ==> r.value == Grade(id, key.0, key.1, req.value.v, key.2, CommentDefault(req.comment))
  {
    match req.value
    case Given(v) => if IsGradeValue(v) then Ok(Grade(id, key.0, key.1, v, key.2, CommentDefault(req.comment))) else Err(ValueNotAChoice)
    case Null => Err(ValueIsNull)
    case Omitted => Err(ValueRequired)
  }

  function GradeId(g: Grade): nat
  {
    g.id
  }

  /** The response and the grade table after a post. */
  function PostGrade(grades: seq<Grade>, users: seq<User>, subjects: seq<Subject>, me: User, req: GradeRequest)
    : (Result<GradeOutcome, GradeError>, seq<Grade>)
  {
    match GradeKey(users, subjects, me, req)
    case Err(e) => (Err(e), grades)
    case Ok(key) =>
      match FindGrade(grades, key.0, key.1, key.2)
      case None =>
        (match NewGrade(NextKey(grades, GradeId), key, req)
         case Err(e) => (Err(Invalid(e)), grades)
         case Ok(g) => (Ok(Created(g)), grades + [g]))
      case Some(i) =>
        match ApplyGradePatch(grades[i], PatchOf(req))
        case Err(e) => (Err(Invalid(e)), grades)
        case Ok(g) => (Ok(Updated(g)), grades[i := g])
  }

  /** A rejected post leaves the grade table as it was. */
  lemma PostGradeFailureChangesNothing(grades: seq<Grade>, users: seq<User>, subjects: seq<Subject>, me: User, req: GradeRequest)
    ensures PostGrade(grades, users, subjects, me, req).0.Err? ==> PostGrade(grades, users, subjects, me, req).1 == grades
  {
  }

  /** A post creates a grade exactly when none exists for its key, and then appends exactly
      that one grade; otherwise it rewrites the existing grade in place, keeping its id, key
      and date, and the number of grades stays the same. */
  lemma PostGradeCreatesOrUpdates(grades: seq<Grade>, users: seq<User>, subjects: seq<Subject>, me: User, req: GradeRequest)
    requires GradeKey(users, subjects, me, req).Ok?
    ensures var key := GradeKey(users, subjects, me, req).value;
            var (r, after) := PostGrade(grades, users, subjects, me, req);
            && (r.Ok? && r.value.Created? <==> FindGrade(grades, key.0, key.1, key.2).None? && r.Ok?)
            && (r.Ok? && r.value.Created? ==>
                  && after == grades + [r.value.grade]
                  && GradeMatches(r.value.grade, key.0, key.1, key.2)
                  && IsGradeValue(r.value.grade.value)
                  && forall g :: g in grades ==> g.id < r.value.grade.id)
            && (r.Ok? && r.value.Updated? ==>
                  exists i :: 0 <= i < |grades| && GradeMatches(grades[i], key.0, key.1, key.2)
                    && after == grades[i := r.value.grade]
                    && r.value.grade.id == grades[i].id
                    && GradeMatches(r.value.grade, key.0, key.1, key.2))
            && |after| == if r.Ok? && r.value.Created? then |grades| + 1 else |grades|
  {
    var key := GradeKey(users, subjects, me, req).value;
    var found := FindGrade(grades, key.0, key.1, key.2);
    if found.None? {
      var id := NextKey(grades, GradeId);
      assert forall g :: g in grades ==> g.id < id by {
        forall g | g in grades ensures g.id < id {
          var k :| 0 <= k < |grades| && grades[k] == g;
          assert GradeId(grades[k]) < id;
        }
      }
    }
  }

  /** A post keeps the table's invariants: values among the choices and one grade per
      (student, subject, date) with distinct ids. */
  lemma PostGradeKeepsTableValid(grades: seq<Grade>, users: seq<User>, subjects: seq<Subject>, me: User, req: GradeRequest)
    requires GradesUnique(grades) && GradeValuesValid(grades)
    ensures GradesUnique(PostGrade(grades, users, subjects, me, req).1)
    ensures GradeValuesValid(PostGrade(grades, users, subjects, me, req).1)
  {
    var key := GradeKey(users, subjects, me, req);
    if key.Ok? {
      var k := key.value;
      var found := FindGrade(grades, k.0, k.1, k.2);
      var after := PostGrade(grades, users, subjects, me, req).1;
      if found.None? {
        var id := NextKey(grades, GradeId);
        if NewGrade(id, k, req).Ok? {
          var g := NewGrade(id, k, req).value;
          assert after == grades + [g];
          forall i, j | 0 <= i < j < |after|
            ensures after[i].id != after[j].id
            ensures (after[i].studentId, after[i].subjectId, after[i].date) != (after[j].studentId, after[j].subjectId, after[j].date)
          {
            if j == |grades| {
              assert after[i] == grades[i] && GradeId(grades[i]) < id;
              assert !GradeMatches(grades[i], k.0, k.1, k.2);
            }
          }
        }
      } else {
        var i := found.value;
        var patched := ApplyGradePatch(grades[i], PatchOf(req));
        if patched.Ok? {
          assert grades[i] in grades;
          assert after == grades[i := patched.value];
          forall a, b | 0 <= a < b < |after|
            ensures after[a].id != after[b].id
            ensures (after[a].studentId, after[a].subjectId, after[a].date) != (after[b].studentId, after[b].subjectId, after[b].date)
          {
            assert (after[a].id, after[a].studentId, after[a].subjectId, after[a].date)
                == (grades[a].id, grades[a].studentId, grades[a].subjectId, grades[a].date);
            assert (after[b].id, after[b].studentId, after[b].subjectId, after[b].date)
                == (grades[b].id, grades[b].studentId, grades[b].subjectId, grades[b].date);
          }
          forall g | g in after ensures IsGradeValue(g.value) {
            var m :| 0 <= m < |after| && after[m] == g;
            if m != i { assert after[m] == grades[m]; }
          }
        }
      }
    }
  }

  /** The grade table, updated in place by teachers' posts. */
  class GradeBook {
    var grades: seq<Grade>

    ghost predicate Valid()
      reads this
    {
      GradesUnique(grades) && GradeValuesValid(grades)
    }

    constructor (initial: seq<Grade>)
      requires GradesUnique(initial) && GradeValuesValid(initial)
      ensures grades == initial && Valid()
    {
      grades := initial;
    }

    /** `GradeCreateUpdateView.post`: the checks, then `get_or_create` on the key, with the
        partial update of an existing grade. */
    method Post(users: seq<User>, subjects: seq<Subject>, me: User, req: GradeRequest)
      returns (r: Result<GradeOutcome, GradeError>)
      requires Valid()
      modifies this
      ensures (r, grades) == PostGrade(old(grades), users, subjects, me, req)
      ensures Valid()
    {
      PostGradeKeepsTableValid(grades, users, subjects, me, req);
      var key := GradeKey(users, subjects, me, req);
      if key.Err? {
        return Err(key.error);
      }
      var k := key.value;
      var found := FindGrade(grades, k.0, k.1, k.2);
      if found.None? {
        var created := NewGrade(NextKey(grades, GradeId), k, req);
        if created.Err? {
          return Err(Invalid(created.error));
        }
        grades := grades + [created.value];
        r := Ok(Created(created.value));
      } else {
        var i := found.value;
        var patched := ApplyGradePatch(grades[i], PatchOf(req));
        if patched.Err? {
          return Err(Invalid(patched.error));
        }
        grades := grades[i := patched.value];
        r := Ok(Updated(patched.value));
      }
    }
  }

  // ---------------------------------------------------------------------------
  // The create branch as written
  // ---------------------------------------------------------------------------

  datatype CreateFailure = NullValueRejected  // the NOT NULL column refuses a missing value

  /** The create branch as written: `get_or_create` stores `request.data.get('value')` with
      no choice check; only a missing or null value fails, in the database. */
  function NewGradeAsWritten(id: Id, key: (Id, Id, Date), req: GradeRequest): (r: Result<Grade, CreateFailure>)
    ensures r.Ok? <==> req.value.Given?
  {
    match req.value
    case Given(v) => Ok(Grade(id, key.0, key.1, v, key.2, CommentDefault(req.comment)))
    case _ => Err(NullValueRejected)
  }

  /** A first post of value 7 is stored as written, outside the choices 2..5, while the
      corrected create branch rejects it; the update branch rejects the same value. */
  lemma CreateAsWrittenStoresOutOfRangeValue()
    ensures var req := GradeRequest(Some(1), Some(1), Parsed(738000), Given(7), Omitted);
            && NewGradeAsWritten(1, (1, 1, 738000), req).Ok?
            && !IsGradeValue(NewGradeAsWritten(1, (1, 1, 738000), req).value.value)
            && NewGrade(1, (1, 1, 738000), req) == Err(ValueNotAChoice)
            && ApplyGradePatch(Grade(1, 1, 1, 4, 738000, None), PatchOf(req)) == Err(ValueNotAChoice)
  {
  }
}
