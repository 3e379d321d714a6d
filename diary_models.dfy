/**
 * The diary tables: classes, subjects, the weekly timetable and grades, with the value
 * domains and unique keys the views depend on.
 */
module DiaryModels {
  import opened Common
  import opened Text
  import UserModels

  // ---------------------------------------------------------------------------
  // Class
  // ---------------------------------------------------------------------------

  datatype Class = Class(id: Id, number: nat, letter: string, teacherId: Id, academicYear: string)

  /** Column limits: small-integer number, a one-character letter, a year of at most 9 characters. */
  predicate ClassFieldsValid(c: Class)
  {
    c.number <= UserModels.MaxSmallInt && |c.letter| == 1 && |c.academicYear| <= 9
  }

  /** `unique_together = ('number', 'letter', 'academic_year')`, and distinct keys. */
  ghost predicate ClassesUnique(classes: seq<Class>)
  {
    forall i, j :: 0 <= i < j < |classes| ==>
      && classes[i].id != classes[j].id
      && (classes[i].number, classes[i].letter, classes[i].academicYear)
         != (classes[j].number, classes[j].letter, classes[j].academicYear)
  }

  /** `Class.__str__`: "{number}{letter} ({academic_year})". */
  function ClassDisplay(c: Class): string
  {
    Decimal(c.number) + c.letter + " (" + c.academicYear + ")"
  }

  /** Length of the longest all-digit prefix. */
  function DigitRun(s: string): (n: nat)
    ensures n <= |s| && AllDigits(s[..n])
    ensures n < |s| ==> !IsDigit(s[n])
  {
    if s == [] || !IsDigit(s[0]) then 0
    else
      var n := 1 + DigitRun(s[1..]);
      assert s[..n] == [s[0]] + s[1..][..n - 1];
      n
  }

  lemma {:induction false} DigitRunAfterDigits(d: string, t: string)
    requires AllDigits(d)
    ensures DigitRun(d + t) == |d| + DigitRun(t)
  {
    if d != [] {
      assert (d + t)[1..] == d[1..] + t;
      DigitRunAfterDigits(d[1..], t);
    } else {
      assert d + t == t;
    }
  }

  /** Reads a class rendering back into (number, letter, academic year). The letter is the
      character just before the first " (" that follows the digits. */
  function ParseClassDisplay(s: string): Option<(nat, string, string)>
  {
    var n := DigitRun(s);
    if n >= 2 && n + 2 <= |s| && s[n..n + 2] == " (" && s[|s| - 1] == ')' then
      Some((ParseDecimal(s[..n - 1]), [s[n - 1]], s[n + 2..|s| - 1]))
    else if n >= 1 && n + 3 <= |s| && s[n + 1..n + 3] == " (" && s[|s| - 1] == ')' then
      Some((ParseDecimal(s[..n]), [s[n]], s[n + 3..|s| - 1]))
    else None
  }

  /** Where the parts of a class rendering sit. */
  lemma DisplayParts(d: string, ch: char, y: string)
    ensures var s := d + [ch] + " (" + y + ")";
      && |s| == |d| + |y| + 4
      && s[..|d|] == d && s[|d|] == ch
      && s[|d| + 1..|d| + 3] == " (" && s[|d| + 3..|s| - 1] == y && s[|s| - 1] == ')'
      && s[|d| + 1..] == " (" + y + ")"
  {
  }

  /** The rendering of a class with a one-character letter reads back as its number, letter
      and year. */
  lemma ClassDisplayRoundTrip(c: Class)
    requires |c.letter| == 1
    ensures ParseClassDisplay(ClassDisplay(c)) == Some((c.number, c.letter, c.academicYear))
  {
    var d := Decimal(c.number);
    var ch := c.letter[0];
    assert c.letter == [ch];
    assert ClassDisplay(c) == d + [ch] + " (" + c.academicYear + ")";
    ParseDecimalOfDecimal(c.number);
    if IsDigit(ch) {
      DigitLetterReadsBack(d, ch, c.academicYear);
    } else {
      OtherLetterReadsBack(d, ch, c.academicYear);
    }
  }

  /** A digit letter joins the run of digits; the parser then takes the last digit of the run
      as the letter. */
  lemma DigitLetterReadsBack(d: string, ch: char, y: string)
    requires IsDigitString(d) && IsDigit(ch)
    ensures ParseClassDisplay(d + [ch] + " (" + y + ")") == Some((ParseDecimal(d), [ch], y))
  {
    var s := d + [ch] + " (" + y + ")";
    var rest := " (" + y + ")";
    assert s == (d + [ch]) + rest;
    DisplayParts(d, ch, y);
    assert DigitRun(rest) == 0;
    DigitRunAfterDigits(d + [ch], rest);
    assert DigitRun(s) == |d| + 1;
  }

  /** A letter that is not a digit ends the run of digits right after the number. */
  lemma OtherLetterReadsBack(d: string, ch: char, y: string)
    requires IsDigitString(d) && !IsDigit(ch)
    ensures ParseClassDisplay(d + [ch] + " (" + y + ")") == Some((ParseDecimal(d), [ch], y))
  {
    var s := d + [ch] + " (" + y + ")";
    var tail := [ch] + " (" + y + ")";
    assert s == d + tail;
    DisplayParts(d, ch, y);
    assert DigitRun(tail) == 0;
    DigitRunAfterDigits(d, tail);
    var n := |d|;
    assert DigitRun(s) == n;
    assert s[n..n + 2][1] == ' ';
  }

  /** Because of the unique key, two different classes never render the same way. */
  lemma DistinctClassesRenderDistinctly(classes: seq<Class>, i: nat, j: nat)
    requires ClassesUnique(classes)
    requires i < j < |classes| && |classes[i].letter| == 1 && |classes[j].letter| == 1
    ensures ClassDisplay(classes[i]) != ClassDisplay(classes[j])
  {
    ClassDisplayRoundTrip(classes[i]);
    ClassDisplayRoundTrip(classes[j]);
  }

  /** `Class.objects.filter(number=..., letter=...).first()`: `Class` has no `Meta.ordering`,
      so the first match in key order, whichever academic year it belongs to. A `None` profile
      value matches no class, since both columns are NOT NULL. */
  function ClassFor(classes: seq<Class>, number: Option<nat>, letter: Option<string>): (r: Option<Class>)
    ensures r.Some? ==> r.value in classes && number == Some(r.value.number) && letter == Some(r.value.letter)
    ensures r.None? ==> forall c :: c in classes ==> !(number == Some(c.number) && letter == Some(c.letter))
    ensures r.Some? ==> exists i :: 0 <= i < |classes| && classes[i] == r.value
                         && forall k :: 0 <= k < i ==> !(number == Some(classes[k].number) && letter == Some(classes[k].letter))
  {
    if classes == [] then None
    else if number == Some(classes[0].number) && letter == Some(classes[0].letter) then Some(classes[0])
    else
      var r := ClassFor(classes[1..], number, letter);
      if r.Some? then
        var i :| 0 <= i < |classes[1..]| && classes[1..][i] == r.value
                 && forall k :: 0 <= k < i ==> !(number == Some(classes[1..][k].number) && letter == Some(classes[1..][k].letter));
        assert classes[i + 1] == r.value;
        r
      else r
  }

  // ---------------------------------------------------------------------------
  // Subject
  // ---------------------------------------------------------------------------

  datatype Subject = Subject(id: Id, name: string, teacherId: Id, description: Option<string>)

  function FindSubject(subjects: seq<Subject>, id: Id): (r: Option<Subject>)
    ensures r.Some? ==> r.value in subjects && r.value.id == id
    ensures r.None? ==> forall s :: s in subjects ==> s.id != id
  {
    if subjects == [] then None
    else if subjects[0].id == id then Some(subjects[0])
    else FindSubject(subjects[1..], id)
  }

  /** `Subject.objects.filter(id=id, teacher=teacher).first()`. */
  function FindSubjectTaughtBy(subjects: seq<Subject>, id: Id, teacherId: Id): (r: Option<Subject>)
    ensures r.Some? ==> r.value in subjects && r.value.id == id && r.value.teacherId == teacherId
    ensures r.None? ==> forall s :: s in subjects ==> !(s.id == id && s.teacherId == teacherId)
  {
    if subjects == [] then None
    else if subjects[0].id == id && subjects[0].teacherId == teacherId then Some(subjects[0])
    else FindSubjectTaughtBy(subjects[1..], id, teacherId)
  }

  // ---------------------------------------------------------------------------
  // Schedule
  // ---------------------------------------------------------------------------

  datatype TimeOfDay = TimeOfDay(hour: nat, minute: nat, second: nat)

  predicate TimeValid(t: TimeOfDay)
  {
    t.hour < 24 && t.minute < 60 && t.second < 60
  }

  datatype Schedule = Schedule(
    id: Id,
    classroomId: Id,
    subjectId: Id,
    dayOfWeek: nat,
    startTime: TimeOfDay,
    endTime: TimeOfDay,
    room: Option<string>)

  /** `DAYS_OF_WEEK`: 1 is Monday, 7 is Sunday. */
  predicate DayOfWeekValid(s: Schedule)
  {
    1 <= s.dayOfWeek <= 7
  }

  /** `get_day_of_week_display()` for a stored day number. */
  function DayOfWeekLabel(day: nat): (name: string)
    requires 1 <= day <= 7
    ensures name != []
  {
    ["Понедельник", "Вторник", "Среда", "Четверг", "Пятница", "Суббота", "Воскресенье"][day - 1]
  }

  /** `unique_together = ('classroom', 'day_of_week', 'start_time')`, and distinct keys. */
  ghost predicate SchedulesUnique(schedules: seq<Schedule>)
  {
    forall i, j :: 0 <= i < j < |schedules| ==>
      && schedules[i].id != schedules[j].id
      && (schedules[i].classroomId, schedules[i].dayOfWeek, schedules[i].startTime)
         != (schedules[j].classroomId, schedules[j].dayOfWeek, schedules[j].startTime)
  }

  /** One class's timetable never has two lessons starting at the same time of the same day. */
  lemma OneLessonPerSlot(schedules: seq<Schedule>, a: Schedule, b: Schedule)
    requires SchedulesUnique(schedules) && a in schedules && b in schedules
    requires a.classroomId == b.classroomId && a.dayOfWeek == b.dayOfWeek && a.startTime == b.startTime
    ensures a == b
  {
    var i :| 0 <= i < |schedules| && schedules[i] == a;
    var j :| 0 <= j < |schedules| && schedules[j] == b;
  }

  /** The timetable tables read together. */
  datatype Timetable = Timetable(classes: seq<Class>, subjects: seq<Subject>, schedules: seq<Schedule>)

  /** Every lesson names an existing subject (the foreign key). */
  ghost predicate SubjectsResolve(t: Timetable)
  {
    forall s :: s in t.schedules ==> FindSubject(t.subjects, s.subjectId).Some?
  }

  // ---------------------------------------------------------------------------
  // Grade
  // ---------------------------------------------------------------------------

  datatype Grade = Grade(id: Id, studentId: Id, subjectId: Id, value: nat, date: int, comment: Option<string>)

  /** The `value` choices: 2, 3, 4, 5. */
  predicate IsGradeValue(v: nat)
  {
    2 <= v <= 5
  }

  ghost predicate GradeValuesValid(grades: seq<Grade>)
  {
    forall g :: g in grades ==> IsGradeValue(g.value)
  }

  /** `unique_together = ('student', 'subject', 'date')`, and distinct keys. */
  ghost predicate GradesUnique(grades: seq<Grade>)
  {
    forall i, j :: 0 <= i < j < |grades| ==>
      && grades[i].id != grades[j].id
      && (grades[i].studentId, grades[i].subjectId, grades[i].date)
         != (grades[j].studentId, grades[j].subjectId, grades[j].date)
  }

  predicate GradeMatches(g: Grade, studentId: Id, subjectId: Id, date: int)
  {
    g.studentId == studentId && g.subjectId == subjectId && g.date == date
  }

  /** `Grade.objects.filter(student=..., subject=..., date=...).first()`, as a row index. */
  function FindGrade(grades: seq<Grade>, studentId: Id, subjectId: Id, date: int): (r: Option<nat>)
    ensures r.Some? ==> r.value < |grades| && GradeMatches(grades[r.value], studentId, subjectId, date)
    ensures r.Some? ==> forall k :: 0 <= k < r.value ==> !GradeMatches(grades[k], studentId, subjectId, date)
    ensures r.None? ==> forall g :: g in grades ==> !GradeMatches(g, studentId, subjectId, date)
  {
    if grades == [] then None
    else if GradeMatches(grades[0], studentId, subjectId, date) then Some(0)
    else
      var r := FindGrade(grades[1..], studentId, subjectId, date);
      if r.Some? then Some(r.value + 1) else None
  }

  /** With the unique key in force, the row `first()` finds is the only matching row. */
  lemma FoundGradeIsTheOnlyOne(grades: seq<Grade>, studentId: Id, subjectId: Id, date: int)
    requires GradesUnique(grades)
    requires FindGrade(grades, studentId, subjectId, date).Some?
    ensures var i := FindGrade(grades, studentId, subjectId, date).value;
            forall k :: 0 <= k < |grades| && GradeMatches(grades[k], studentId, subjectId, date) ==> k == i
  {
  }
}
