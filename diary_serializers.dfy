/**
 * What the diary serializers compute: lesson times as "HH:MM", the grade a lesson shows to
 * each kind of requester, and the partial update a grade accepts.
 */
module DiarySerializers {
  import opened Common
  import opened Text
  import opened Fields
  import opened UserModels
  import opened DiaryModels

  // ---------------------------------------------------------------------------
  // Lesson times
  // ---------------------------------------------------------------------------

  /** `strftime("%H:%M")`: two-digit hour, a colon, two-digit minute; seconds are dropped. */
  function ClockText(t: TimeOfDay): string
  {
    ZeroPadded(t.hour, 2) + ":" + ZeroPadded(t.minute, 2)
  }

  /** Reads "HH:MM" back as (hour, minute). */
  function ParseClockText(s: string): Option<(nat, nat)>
  {
    if |s| == 5 && s[2] == ':' && IsDigitString(s[..2]) && IsDigitString(s[3..]) then
      Some((ParseDecimal(s[..2]), ParseDecimal(s[3..])))
    else None
  }

  /** A valid time renders in exactly five characters that read back as its hour and minute,
      so two times render alike exactly when they agree on hour and minute. */
  lemma ClockTextRoundTrip(t: TimeOfDay)
    requires TimeValid(t)
    ensures |ClockText(t)| == 5
    ensures ParseClockText(ClockText(t)) == Some((t.hour, t.minute))
  {
    assert Pow10(2) == 100;
    DecimalLength(t.hour, 2);
    DecimalLength(t.minute, 2);
    ZeroPaddedFacts(t.hour, 2);
    ZeroPaddedFacts(t.minute, 2);
    var s := ClockText(t);
    assert s[..2] == ZeroPadded(t.hour, 2);
    assert s[3..] == ZeroPadded(t.minute, 2);
  }

  lemma ClockTextReadsBack(t: TimeOfDay)
    ensures TimeValid(t) ==> ParseClockText(ClockText(t)) == Some((t.hour, t.minute))
  {
    if TimeValid(t) {
      ClockTextRoundTrip(t);
    }
  }

  lemma ClockTextIgnoresSeconds(t: TimeOfDay, u: TimeOfDay)
    requires TimeValid(t) && TimeValid(u)
    ensures ClockText(t) == ClockText(u) <==> t.hour == u.hour && t.minute == u.minute
  {
    ClockTextRoundTrip(t);
    ClockTextRoundTrip(u);
  }

  // ---------------------------------------------------------------------------
  // The grade a lesson shows
  // ---------------------------------------------------------------------------

  /** The serializer context: the lesson's date and an optional `student_id`. A `student_id`
      of 0 is falsy and counts as absent. */
  datatype LessonContext = LessonContext(date: Option<int>, studentId: Option<Id>)

  /** Whose grade `get_grade` looks up: the requester for a student, the first linked child
      for a parent, the given student for a teacher, nobody otherwise. */
  function GradeStudent(dir: Directory, me: User, studentId: Option<Id>): Option<Id>
  {
    match me.role
    case Student => Some(me.id)
    case Parent =>
      (match FirstChildLink(dir.links, me.id)
       case Some(link) => Some(link.studentId)
       case None => None)
    case Teacher =>
      if studentId.Some? && studentId.value != 0 then
        (match FindUserWithRole(dir.users, studentId.value, Student)
         case Some(u) => Some(u.id)
         case None => None)
      else None
    case Unlisted(_) => None
  }

  /** `LessonSerializer.get_grade` for a lesson of `subjectId`. */
  function LessonGrade(dir: Directory, grades: seq<Grade>, me: User, subjectId: Id, ctx: LessonContext): (r: Option<nat>)
    ensures GradeValuesValid(grades) && r.Some? ==> IsGradeValue(r.value)
    ensures r.Some? ==> ctx.date.Some? && GradeStudent(dir, me, ctx.studentId).Some?
  {
    var student := GradeStudent(dir, me, ctx.studentId);
    if student.Some? && ctx.date.Some? then
      match FindGrade(grades, student.value, subjectId, ctx.date.value)
      case Some(i) => Some(grades[i].value)
      case None => None
    else None
  }

  /** With the unique key in force, the grade shown for a student is the value of that
      student's grade for the subject on that date, and there is none when no such row
      exists. */
  lemma {:induction false} GradeShownIsTheStudentsGrade(grades: seq<Grade>, studentId: Id, subjectId: Id, date: int, v: nat)
    requires GradesUnique(grades)
    ensures (match FindGrade(grades, studentId, subjectId, date)
             case Some(i) => Some(grades[i].value)
             case None => None) == Some(v)
        <==> exists g :: g in grades && GradeMatches(g, studentId, subjectId, date) && g.value == v
  {
    var found := FindGrade(grades, studentId, subjectId, date);
    if found.Some? {
      FoundGradeIsTheOnlyOne(grades, studentId, subjectId, date);
      var i := found.value;
      if exists g :: g in grades && GradeMatches(g, studentId, subjectId, date) && g.value == v {
        var g :| g in grades && GradeMatches(g, studentId, subjectId, date) && g.value == v;
        var k :| 0 <= k < |grades| && grades[k] == g;
        assert k == i;
      }
    }
  }

  /** What a lesson shows, role by role. */
  lemma LessonGradeByRole(dir: Directory, grades: seq<Grade>, me: User, subjectId: Id, ctx: LessonContext, v: nat)
    requires GradesUnique(grades)
    ensures ctx.date.None? ==> LessonGrade(dir, grades, me, subjectId, ctx).None?
    ensures me.role.Student? && ctx.date.Some? ==>
      (LessonGrade(dir, grades, me, subjectId, ctx) == Some(v)
       <==> exists g :: g in grades && GradeMatches(g, me.id, subjectId, ctx.date.value) && g.value == v)
    ensures me.role.Parent? && FirstChildLink(dir.links, me.id).None? ==>
      LessonGrade(dir, grades, me, subjectId, ctx).None?
    ensures me.role.Parent? && ctx.date.Some? && FirstChildLink(dir.links, me.id).Some? ==>
      var child := FirstChildLink(dir.links, me.id).value.studentId;
      (LessonGrade(dir, grades, me, subjectId, ctx) == Some(v)
       <==> exists g :: g in grades && GradeMatches(g, child, subjectId, ctx.date.value) && g.value == v)
    ensures me.role.Teacher? && (ctx.studentId.None? || ctx.studentId == Some(0)) ==>
      LessonGrade(dir, grades, me, subjectId, ctx).None?
    ensures me.role.Unlisted? ==> LessonGrade(dir, grades, me, subjectId, ctx).None?
  {
    var student := GradeStudent(dir, me, ctx.studentId);
    if student.Some? && ctx.date.Some? {
      GradeShownIsTheStudentsGrade(grades, student.value, subjectId, ctx.date.value, v);
    }
  }

  // ---------------------------------------------------------------------------
  // Lessons
  // ---------------------------------------------------------------------------

  /** One entry of a day's lesson list. */
  datatype Lesson = Lesson(subject: string, startTime: string, endTime: string, grade: Option<nat>)

  /** `LessonSerializer` applied to one timetable row. */
  function RenderLesson(t: Timetable, dir: Directory, grades: seq<Grade>, me: User, s: Schedule, ctx: LessonContext): (l: Lesson)
    requires FindSubject(t.subjects, s.subjectId).Some?
    ensures TimeValid(s.startTime) ==> ParseClockText(l.startTime) == Some((s.startTime.hour, s.startTime.minute))
    ensures TimeValid(s.endTime) ==> ParseClockText(l.endTime) == Some((s.endTime.hour, s.endTime.minute))
    ensures exists sub :: sub in t.subjects && sub.id == s.subjectId && l.subject == sub.name
    ensures l.grade == LessonGrade(dir, grades, me, s.subjectId, ctx)
  {
    ClockTextReadsBack(s.startTime);
    ClockTextReadsBack(s.endTime);
    Lesson(
      FindSubject(t.subjects, s.subjectId).value.name,
      ClockText(s.startTime),
      ClockText(s.endTime),
      LessonGrade(dir, grades, me, s.subjectId, ctx))
  }

  // ---------------------------------------------------------------------------
  // Partial grade update
  // ---------------------------------------------------------------------------

  /** The body of a grade post as `GradeSerializer` sees it. `id` and `date` are read-only
      fields: accepted in the body and ignored. */
  datatype GradePatch = GradePatch(id: Supplied<Id>, value: Supplied<nat>, date: Supplied<int>, comment: Supplied<string>)

  datatype GradeFieldError = ValueIsNull | ValueNotAChoice | ValueRequired | CommentHasNul

  /** The field check `is_valid` runs: the value, when supplied, must be one of the choices;
      the comment is an optional, nullable text field that may be blank and may not contain
      NUL. */
  function CheckGradePatch(p: GradePatch): (r: Option<GradeFieldError>)
    ensures r.None? <==> (p.value.Given? ==> IsGradeValue(p.value.v)) && !p.value.Null?
                         && (p.comment.Given? ==> Nul !in Strip(p.comment.v))
  {
    match p.value
    case Null => Some(ValueIsNull)
    case Given(v) => if !IsGradeValue(v) then Some(ValueNotAChoice) else CheckComment(p.comment)
    case Omitted => CheckComment(p.comment)
  }

  function CheckComment(c: Supplied<string>): (r: Option<GradeFieldError>)
    ensures r.None? <==> (c.Given? ==> Nul !in Strip(c.v))
  {
    if CheckNullableText(c, None).Ok? then None else Some(CommentHasNul)
  }

  /** `GradeSerializer(grade, data, partial=True)` followed by `save()`. A supplied comment
      is stored stripped; null clears it. */
  function ApplyGradePatch(g: Grade, p: GradePatch): (r: Result<Grade, GradeFieldError>)
    ensures r.Err? <==> CheckGradePatch(p).Some?
    ensures r.Ok? ==> r.value.id == g.id && r.value.studentId == g.studentId
                      && r.value.subjectId == g.subjectId && r.value.date == g.date
    ensures r.Ok? ==> r.value.value == (if p.value.Given? then p.value.v else g.value)
    ensures r.Ok? ==> r.value.comment == (match p.comment
                                          case Omitted => g.comment
                                          case Null => None
                                          case Given(c) => Some(Strip(c)))
    ensures r.Ok? && IsGradeValue(g.value) ==> IsGradeValue(r.value.value)
  {
    match CheckGradePatch(p)
    case Some(e) => Err(e)
    case None =>
      var value := if p.value.Given? then p.value.v else g.value;
      var comment := match p.comment
                     case Omitted => g.comment
                     case Null => None
                     case Given(c) => Some(Strip(c));
      Ok(g.(value := value, comment := comment))
  }

  /** The read-only fields really are ignored: whatever id and date a patch carries, the
      update comes out the same. */
  lemma ReadOnlyFieldsIgnored(g: Grade, p: GradePatch, id: Supplied<Id>, date: Supplied<int>)
    ensures ApplyGradePatch(g, p) == ApplyGradePatch(g, p.(id := id, date := date))
  {
  }
}
