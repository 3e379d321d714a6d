/** The per-student summary of the achievements list. */
module AchievementSerializers {
  import opened Common
  import opened UserModels

  /** An achievement row. `place` is a required reference, so every achievement has one. */
  datatype Achievement = Achievement(id: Id, studentId: Id, title: string, date: int, categoryId: Id, placeId: Id)

  /** One entry of the list. */
  datatype Summary = Summary(
    studentId: Id,
    fullName: string,
    avatar: Option<string>,
    classNumber: Option<nat>,
    achievementsCount: nat,
    participationCount: nat,
    topAchievement: Option<string>)

  /** `Achievement.objects.filter(student=s)`. */
  function AchievementsOf(achievements: seq<Achievement>, studentId: Id): (r: seq<Achievement>)
    ensures forall a :: a in r <==> a in achievements && a.studentId == studentId
  {
    Filter(achievements, (a: Achievement) => a.studentId == studentId)
  }

  /** `order_by('place').first()`: the first row with the lowest place key. */
  function FirstByPlace(rows: seq<Achievement>): (a: Achievement)
    requires rows != []
    ensures a in rows
    ensures forall b :: b in rows ==> a.placeId <= b.placeId
    ensures exists i :: 0 <= i < |rows| && rows[i] == a && forall k :: 0 <= k < i ==> rows[k].placeId > a.placeId
  {
    if |rows| == 1 then rows[0]
    else
      var rest := FirstByPlace(rows[1..]);
      assert forall b :: b in rows ==> b == rows[0] || b in rows[1..];
      if rows[0].placeId <= rest.placeId then rows[0]
      else
        var i :| 0 <= i < |rows[1..]| && rows[1..][i] == rest && forall k :: 0 <= k < i ==> rows[1..][k].placeId > rest.placeId;
        assert rows[i + 1] == rest;
        rest
  }

  /** `StudentWithAchievementsSerializer.to_representation`, with `url` giving an avatar's
      public address. */
  function Summarize(student: User, profiles: seq<Profile>, achievements: seq<Achievement>, url: string -> string): (r: Summary)
    ensures r.studentId == student.id && r.fullName == student.fullName
    ensures r.avatar.Some? <==> student.avatar.Some?
    ensures r.classNumber == (match ProfileOf(profiles, student.id) case Some(p) => p.classNumber case None => None)
    ensures r.participationCount == |AchievementsOf(achievements, student.id)|
    ensures r.topAchievement.None? <==> forall a :: a in achievements ==> a.studentId != student.id
    ensures r.topAchievement.Some? ==> exists a :: && a in achievements && a.studentId == student.id
                                                  && a.title == r.topAchievement.value
                                                  && forall b :: b in achievements && b.studentId == student.id ==> a.placeId <= b.placeId
  {
    var mine := AchievementsOf(achievements, student.id);
    Summary(
      student.id,
      student.fullName,
      if student.avatar.Some? then Some(url(student.avatar.value)) else None,
      match ProfileOf(profiles, student.id) case Some(p) => p.classNumber case None => None,
      |mine|,  // `exclude(place__isnull=True)` removes nothing: `place` is never null
      |mine|,
      if mine != [] then Some(FirstByPlace(mine).title)
      else None)
  }

  /** Because every achievement has a place, the prize count always equals the participation
      count. The equality is built into `Summarize`: `place` is a required column, so the model
      has no null place for `exclude(place__isnull=True)` to remove and writes both counts as
      the number of the student's achievements. */
  lemma CountsAgree(student: User, profiles: seq<Profile>, achievements: seq<Achievement>, url: string -> string)
    ensures Summarize(student, profiles, achievements, url).achievementsCount
         == Summarize(student, profiles, achievements, url).participationCount
  {
  }
}
