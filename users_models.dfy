/**
 * Accounts: the custom user with its role and e-mail login, the one-to-one profile,
 * and the student-parent link the other views navigate.
 */
module UserModels {
  import opened Common

  /** The stored role. The column is a free string; `Unlisted` is any value outside the
      three choices (the views all have a fallback branch for it). */
  datatype Role = Teacher | Parent | Student | Unlisted(raw: string)

  /** The `ROLES` choices: teacher, parent, student. */
  predicate IsChoice(r: Role)
  {
    !r.Unlisted?
  }

  /** The string stored in the `role` column. */
  function RoleValue(r: Role): string
  {
    match r
    case Teacher => "teacher"
    case Parent => "parent"
    case Student => "student"
    case Unlisted(raw) => raw
  }

  /** Reads a `role` column value back. */
  function RoleOf(value: string): (r: Role)
    ensures IsChoice(r) <==> value in {"teacher", "parent", "student"}
  {
    if value == "teacher" then Teacher
    else if value == "parent" then Parent
    else if value == "student" then Student
    else Unlisted(value)
  }

  /** A role as it can be stored: an `Unlisted` value is not spelled like a choice. */
  predicate WellFormedRole(r: Role)
  {
    r.Unlisted? ==> r.raw !in {"teacher", "parent", "student"}
  }

  /** Storing a role and reading it back gives the same role. */
  lemma RoleRoundTrip(r: Role)
    requires WellFormedRole(r)
    ensures RoleOf(RoleValue(r)) == r
  {
  }

  /** `get_role_display()`: the label of a choice, the raw value otherwise. */
  function RoleDisplay(r: Role): string
  {
    match r
    case Teacher => "Учитель"
    case Parent => "Родитель"
    case Student => "Ученик"
    case Unlisted(raw) => raw
  }

  /** Two different choices never share a label. */
  lemma RoleDisplayDistinguishesChoices(a: Role, b: Role)
    requires IsChoice(a) && IsChoice(b) && a != b
    ensures RoleDisplay(a) != RoleDisplay(b)
  {
    assert RoleDisplay(Teacher)[0] == 'У';
    assert RoleDisplay(Parent)[0] == 'Р';
    assert RoleDisplay(Student)[0] == 'У' && RoleDisplay(Student)[1] == 'ч';
    assert RoleDisplay(Teacher)[1] == 'ч' && RoleDisplay(Teacher)[2] == 'и';
    assert RoleDisplay(Student)[2] == 'е';
  }

  /** A user row. `password` holds what `set_password` stored, never the raw input. */
  datatype User = User(
    id: Id,
    username: string,
    email: string,
    fullName: string,
    role: Role,
    password: string,
    avatar: Option<string>)

  /** `User.__str__`: "{full_name} ({role display})". */
  function UserDisplay(u: User): (s: string)
  {
    u.fullName + " (" + RoleDisplay(u.role) + ")"
  }

  /** The rendering starts with the full name and ends with the role label in parentheses,
      so two users with the same name and different roles render differently. */
  lemma UserDisplayShowsNameAndRole(u: User, v: User)
    ensures UserDisplay(u)[..|u.fullName|] == u.fullName
    ensures UserDisplay(u)[|u.fullName|..|u.fullName| + 2] == " ("
    ensures UserDisplay(u)[|u.fullName| + 2..|UserDisplay(u)| - 1] == RoleDisplay(u.role)
    ensures UserDisplay(u)[|UserDisplay(u)| - 1] == ')'
    ensures u.fullName == v.fullName && IsChoice(u.role) && IsChoice(v.role) && u.role != v.role
            ==> UserDisplay(u) != UserDisplay(v)
  {
    var n := |u.fullName|;
    var s := UserDisplay(u);
    assert s[n + 2..|s| - 1] == RoleDisplay(u.role);
    if u.fullName == v.fullName && IsChoice(u.role) && IsChoice(v.role) && u.role != v.role {
      RoleDisplayDistinguishesChoices(u.role, v.role);
      var t := UserDisplay(v);
      assert t[n + 2..|t| - 1] == RoleDisplay(v.role);
    }
  }

  /** `email = EmailField(unique=True)`, and AbstractUser's unique `username`. */
  ghost predicate AccountsUnique(users: seq<User>)
  {
    && (forall i, j :: 0 <= i < j < |users| ==> users[i].id != users[j].id)
    && (forall i, j :: 0 <= i < j < |users| ==> users[i].email != users[j].email)
    && (forall i, j :: 0 <= i < j < |users| ==> users[i].username != users[j].username)
  }

  /** `User.objects.filter(id=id, role=role).first()`. */
  function FindUserWithRole(users: seq<User>, id: Id, role: Role): (r: Option<User>)
    ensures r.Some? ==> r.value in users && r.value.id == id && r.value.role == role
    ensures r.None? ==> forall u :: u in users ==> !(u.id == id && u.role == role)
  {
    if users == [] then None
    else if users[0].id == id && users[0].role == role then Some(users[0])
    else FindUserWithRole(users[1..], id, role)
  }

  /** `USERNAME_FIELD = 'email'`: the account a login e-mail names. */
  function FindByEmail(users: seq<User>, email: string): (r: Option<User>)
    ensures r.Some? ==> r.value in users && r.value.email == email
    ensures r.None? ==> forall u :: u in users ==> u.email != email
  {
    if users == [] then None
    else if users[0].email == email then Some(users[0])
    else FindByEmail(users[1..], email)
  }

  /** Because e-mails are unique, an e-mail identifies exactly one account. */
  lemma {:induction false} EmailIdentifiesAccount(users: seq<User>, u: User)
    requires AccountsUnique(users)
    requires u in users
    ensures FindByEmail(users, u.email) == Some(u)
  {
    if users[0] != u {
      assert forall k :: 1 <= k < |users| ==> users[k] == users[1..][k - 1];
      assert u in users[1..];
      assert users[0].email != u.email by {
        var j :| 0 <= j < |users| && users[j] == u;
        assert j > 0;
      }
      assert AccountsUnique(users[1..]);
      EmailIdentifiesAccount(users[1..], u);
    }
  }

  /** A profile row; all four fields are optional. */
  datatype Profile = Profile(
    id: Id,
    userId: Id,
    classNumber: Option<nat>,
    classLetter: Option<string>,
    phone: Option<string>,
    address: Option<string>)

  /** The largest value of a PositiveSmallIntegerField. */
  const MaxSmallInt: nat := 32767

  /** The column limits of a profile: small-integer class number, one-character letter,
      phone of at most 15 characters. */
  predicate ProfileFieldsValid(p: Profile)
  {
    && (p.classNumber.Some? ==> p.classNumber.value <= MaxSmallInt)
    && (p.classLetter.Some? ==> |p.classLetter.value| <= 1)
    && (p.phone.Some? ==> |p.phone.value| <= 15)
  }

  /** `OneToOneField(User)`: at most one profile per user, and distinct profile ids. */
  ghost predicate OneProfilePerUser(profiles: seq<Profile>)
  {
    && (forall i, j :: 0 <= i < j < |profiles| ==> profiles[i].userId != profiles[j].userId)
    && (forall i, j :: 0 <= i < j < |profiles| ==> profiles[i].id != profiles[j].id)
  }

  /** `user.profile`: the user's profile row, if there is one. */
  function ProfileOf(profiles: seq<Profile>, userId: Id): (r: Option<Profile>)
    ensures r.Some? ==> r.value in profiles && r.value.userId == userId
    ensures r.None? ==> forall p :: p in profiles ==> p.userId != userId
  {
    if profiles == [] then None
    else if profiles[0].userId == userId then Some(profiles[0])
    else ProfileOf(profiles[1..], userId)
  }

  /** A student-parent link row (the `StudentParent` model). */
  datatype StudentParent = StudentParent(id: Id, studentId: Id, parentId: Id)

  /** `parent.parent_students.first()`: the parent's link with the lowest key. */
  function FirstChildLink(links: seq<StudentParent>, parentId: Id): (r: Option<StudentParent>)
    ensures r.Some? ==> r.value in links && r.value.parentId == parentId
    ensures r.None? ==> forall l :: l in links ==> l.parentId != parentId
    ensures r.Some? ==> exists i :: 0 <= i < |links| && links[i] == r.value
                         && forall k :: 0 <= k < i ==> links[k].parentId != parentId
  {
    if links == [] then None
    else if links[0].parentId == parentId then Some(links[0])
    else
      var r := FirstChildLink(links[1..], parentId);
      if r.Some? then
        var i :| 0 <= i < |links[1..]| && links[1..][i] == r.value
                 && forall k :: 0 <= k < i ==> links[1..][k].parentId != parentId;
        assert links[i + 1] == r.value;
        r
      else r
  }

  /** `StudentParent.objects.filter(student=s).count()`. */
  function ParentCount(links: seq<StudentParent>, studentId: Id): (n: nat)
    ensures n <= |links|
    ensures n == |Filter(links, (l: StudentParent) => l.studentId == studentId)|
  {
    if links == [] then 0
    else (if links[0].studentId == studentId then 1 else 0) + ParentCount(links[1..], studentId)
  }

  /** The accounts tables the views read together. */
  datatype Directory = Directory(users: seq<User>, profiles: seq<Profile>, links: seq<StudentParent>)
}
