/**
 * The project tables of the home page: projects with their generated codes, project members
 * and project tasks, with the defaults, the unique keys and the on-delete rules the schema
 * declares.
 */
module HomepageModels {
  import opened Common
  import opened Text

  datatype ProjectStatus = Active | Completed
  datatype ProjectPriority = Low | Medium | High
  datatype TaskStatus = New | InProgress | Done
  datatype MemberRole = Owner | Developer | Designer | Analyst

  /** A project row; the avatar upload is not modelled. `code` is empty until `save` fills it. */
  datatype Project = Project(
    id: Id,
    code: string,
    title: string,
    description: string,
    startDate: int,
    endDate: Option<int>,
    status: ProjectStatus,
    priority: ProjectPriority)

  datatype ProjectMember = ProjectMember(id: Id, projectId: Id, studentId: Id, role: MemberRole)

  datatype ProjectTask = ProjectTask(
    id: Id,
    projectId: Id,
    title: string,
    description: string,
    status: TaskStatus,
    assignedTo: Option<Id>,
    deadline: Option<int>)

  function ProjectKey(p: Project): nat { p.id }
  function MemberKey(m: ProjectMember): nat { m.id }
  function TaskKey(t: ProjectTask): nat { t.id }

  // ---------------------------------------------------------------------------
  // Project codes
  // ---------------------------------------------------------------------------

  /** `f"PN{number:07d}"`. */
  function ProjectCode(n: nat): string
  {
    "PN" + ZeroPadded(n, 7)
  }

  /** Reads a project code back as its number. */
  function ParseProjectCode(s: string): Option<nat>
  {
    if |s| >= 3 && s[..2] == "PN" && IsDigitString(s[2..]) then Some(ParseDecimal(s[2..])) else None
  }

  /** A code reads back as its number, and is nine characters long while the number has at
      most seven digits. */
  lemma ProjectCodeRoundTrip(n: nat)
    ensures ParseProjectCode(ProjectCode(n)) == Some(n)
    ensures n < 10000000 ==> |ProjectCode(n)| == 9
  {
    ZeroPaddedFacts(n, 7);
    var code := ProjectCode(n);
    assert code[2..] == ZeroPadded(n, 7);
    assert code[..2] == "PN";
    if n < 10000000 {
      assert Pow10(7) == 10000000 by {
        assert Pow10(1) == 10 && Pow10(2) == 100 && Pow10(3) == 1000 && Pow10(4) == 10000;
      }
      DecimalLength(n, 7);
    }
  }

  /** Different numbers give different codes. */
  lemma ProjectCodeInjective(a: nat, b: nat)
    ensures ProjectCode(a) == ProjectCode(b) ==> a == b
  {
    ProjectCodeRoundTrip(a);
    ProjectCodeRoundTrip(b);
  }

  /** The first code handed out. */
  lemma FirstProjectCode()
    ensures ProjectCode(1) == "PN0000001"
  {
    assert Decimal(1) == "1";
    assert Zeros(6) == "000000";
  }

  /** `generate_project_code`: one past the highest project key, or 1 with no projects. */
  function GenerateProjectCode(projects: seq<Project>): (code: string)
    ensures ParseProjectCode(code).Some?
    ensures forall p :: p in projects ==> p.id < ParseProjectCode(code).value
    ensures projects == [] ==> code == "PN0000001" && ParseProjectCode(code) == Some(1)
    ensures projects != [] ==> exists p :: p in projects && ParseProjectCode(code).value == p.id + 1
  {
    NextCodeFacts(projects);
    ProjectCode(MaxKey(projects, ProjectKey) + 1)
  }

  lemma NextCodeFacts(projects: seq<Project>)
    ensures var n := MaxKey(projects, ProjectKey) + 1;
      && ParseProjectCode(ProjectCode(n)) == Some(n)
      && (forall p :: p in projects ==> p.id < n)
      && (projects == [] ==> ProjectCode(n) == "PN0000001")
      && (projects != [] ==> exists p :: p in projects && n == p.id + 1)
  {
    var n := MaxKey(projects, ProjectKey) + 1;
    ProjectCodeRoundTrip(n);
    if projects == [] {
      FirstProjectCode();
    } else {
      var i :| 0 <= i < |projects| && ProjectKey(projects[i]) == n - 1;
      assert projects[i] in projects;
    }
    forall p | p in projects ensures p.id < n {
      var i :| 0 <= i < |projects| && projects[i] == p;
      assert ProjectKey(projects[i]) <= n - 1;
    }
  }

  /** The code `Project.save` stores: the project's own code, or a generated one when it has
      none. */
  function CodeOnSave(projects: seq<Project>, code: string): (r: string)
    ensures r != []
    ensures code != [] ==> r == code
  {
    if code == [] then GenerateProjectCode(projects) else code
  }

  /** Saving again never changes a code once set, whatever the table holds by then. */
  lemma SaveIsIdempotent(before: seq<Project>, later: seq<Project>, code: string)
    ensures CodeOnSave(later, CodeOnSave(before, code)) == CodeOnSave(before, code)
  {
  }

  // ---------------------------------------------------------------------------
  // Defaults and task lists
  // ---------------------------------------------------------------------------

  /** A new project: status `ACTIVE` and priority `MEDIUM` unless given. */
  function NewProject(id: Id, code: string, title: string, description: string, startDate: int,
                      endDate: Option<int>, status: Option<ProjectStatus>, priority: Option<ProjectPriority>): (p: Project)
    ensures p.status == status.GetOr(Active) && p.priority == priority.GetOr(Medium)
    ensures p.id == id && p.code == code && p.title == title && p.description == description
    ensures p.startDate == startDate && p.endDate == endDate
  {
    Project(id, code, title, description, startDate, endDate, status.GetOr(Active), priority.GetOr(Medium))
  }

  /** A new task: status `NEW` unless given. */
  function NewTask(id: Id, projectId: Id, title: string, description: string, status: Option<TaskStatus>,
                   assignedTo: Option<Id>, deadline: Option<int>): (t: ProjectTask)
    ensures t.status == status.GetOr(New)
    ensures t.id == id && t.projectId == projectId && t.title == title && t.description == description
    ensures t.assignedTo == assignedTo && t.deadline == deadline
  {
    ProjectTask(id, projectId, title, description, status.GetOr(New), assignedTo, deadline)
  }

  /** `project.all_tasks`. */
  function AllTasks(tasks: seq<ProjectTask>, projectId: Id): (r: seq<ProjectTask>)
    ensures forall t :: t in r <==> t in tasks && t.projectId == projectId
  {
    Filter(tasks, (t: ProjectTask) => t.projectId == projectId)
  }

  predicate IsOpen(t: ProjectTask)
  {
    t.status == New || t.status == InProgress
  }

  /** `project.active_tasks`: the project's tasks filtered to `NEW` and `IN_PROGRESS`. */
  function ActiveTasks(tasks: seq<ProjectTask>, projectId: Id): (r: seq<ProjectTask>)
    ensures forall t :: t in r <==> t in tasks && t.projectId == projectId && t.status != Done
  {
    Filter(AllTasks(tasks, projectId), IsOpen)
  }

  /** The active tasks are exactly the open tasks among all the project's tasks, so they are
      never more numerous. */
  lemma ActiveTasksWithinAll(tasks: seq<ProjectTask>, projectId: Id)
    ensures forall t :: t in ActiveTasks(tasks, projectId) <==> t in AllTasks(tasks, projectId) && IsOpen(t)
    ensures |ActiveTasks(tasks, projectId)| <= |AllTasks(tasks, projectId)|
  {
  }

  // ---------------------------------------------------------------------------
  // Keys and references
  // ---------------------------------------------------------------------------

  /** `unique_together = ('project', 'student')`. */
  ghost predicate OneMembershipPerStudent(members: seq<ProjectMember>)
  {
    forall i, j :: 0 <= i < j < |members| ==>
      (members[i].projectId, members[i].studentId) != (members[j].projectId, members[j].studentId)
  }

  predicate ProjectExists(projects: seq<Project>, id: Id)
  {
    exists p :: p in projects && p.id == id
  }

  predicate IsMember(members: seq<ProjectMember>, projectId: Id, studentId: Id)
  {
    exists m :: m in members && m.projectId == projectId && m.studentId == studentId
  }

  /** `project_code` is unique. */
  ghost predicate CodesUnique(projects: seq<Project>)
  {
    forall i, j :: 0 <= i < j < |projects| ==> projects[i].code != projects[j].code
  }

  /** Every code reads back as a number no larger than its project's key. Codes are handed out
      as one past the highest key, and keys only grow, so this holds from one save to the
      next, and it is what keeps the next code unused. */
  ghost predicate CodesBehindKeys(projects: seq<Project>)
  {
    forall p :: p in projects ==> ParseProjectCode(p.code).Some? && ParseProjectCode(p.code).value <= p.id
  }

  /** A generated code is used by no stored project. */
  lemma GeneratedCodeIsFree(projects: seq<Project>)
    requires CodesBehindKeys(projects)
    ensures forall p :: p in projects ==> p.code != GenerateProjectCode(projects)
  {
  }

  /** The project table's own invariant, given the key the database hands out next. */
  ghost predicate ProjectsValid(projects: seq<Project>, sequence: nat)
  {
    && sequence > 0
    && KeysDistinct(projects, ProjectKey)
    && (forall p :: p in projects ==> p.id < sequence)
    && CodesUnique(projects)
    && CodesBehindKeys(projects)
  }

  /** Saving a new project under the next key with the generated code keeps every code unique:
      the generated number exceeds every stored key, hence every stored code's number, and is
      itself no larger than the new key. */
  lemma CreateKeepsProjectsValid(projects: seq<Project>, sequence: nat, p: Project)
    requires ProjectsValid(projects, sequence)
    requires p.id == sequence && p.code == GenerateProjectCode(projects)
    ensures ProjectsValid(projects + [p], sequence + 1)
  {
    NewCodeBehindKey(projects, sequence);
    GeneratedCodeIsFree(projects);
    forall i | 0 <= i < |projects| ensures projects[i].id != p.id && projects[i].code != p.code {
      assert projects[i] in projects;
    }
    AppendKeepsPairwise(projects, p, (a: Project, b: Project) => ProjectKey(a) != ProjectKey(b));
    AppendKeepsPairwise(projects, p, (a: Project, b: Project) => a.code != b.code);
    assert CodesBehindKeys(projects + [p]) by {
      forall q | q in projects + [p] ensures ParseProjectCode(q.code).Some? && ParseProjectCode(q.code).value <= q.id {
        if q != p {
          assert q in projects;
        }
      }
    }
  }

  /** The generated number is no larger than the key the new project receives. */
  lemma NewCodeBehindKey(projects: seq<Project>, sequence: nat)
    requires sequence > 0 && forall p :: p in projects ==> p.id < sequence
    ensures ParseProjectCode(GenerateProjectCode(projects)).value <= sequence
  {
    var n := ParseProjectCode(GenerateProjectCode(projects)).value;
    if projects != [] {
      var q :| q in projects && n == q.id + 1;
    }
  }

  /** Deleting a user: their memberships go, and tasks assigned to them lose the assignee. */
  function UserDeleted(members: seq<ProjectMember>, tasks: seq<ProjectTask>, userId: Id)
    : (r: (seq<ProjectMember>, seq<ProjectTask>))
    ensures forall m :: m in r.0 <==> m in members && m.studentId != userId
    ensures |r.1| == |tasks|
    ensures forall i :: 0 <= i < |tasks| ==>
      r.1[i] == (if tasks[i].assignedTo == Some(userId) then tasks[i].(assignedTo := None) else tasks[i])
  {
    (Filter(members, (m: ProjectMember) => m.studentId != userId),
     seq(|tasks|, i requires 0 <= i < |tasks| =>
       if tasks[i].assignedTo == Some(userId) then tasks[i].(assignedTo := None) else tasks[i]))
  }

  /** After a user is deleted no membership and no task refers to them. */
  lemma UserDeletedLeavesNoReference(members: seq<ProjectMember>, tasks: seq<ProjectTask>, userId: Id)
    ensures forall m :: m in UserDeleted(members, tasks, userId).0 ==> m.studentId != userId
    ensures forall t :: t in UserDeleted(members, tasks, userId).1 ==> t.assignedTo != Some(userId)
  {
    var r := UserDeleted(members, tasks, userId);
    forall t | t in r.1 ensures t.assignedTo != Some(userId) {
      var i :| 0 <= i < |r.1| && r.1[i] == t;
    }
  }

  // ---------------------------------------------------------------------------
  // The store
  // ---------------------------------------------------------------------------

  datatype MemberError = NoSuchProject | AlreadyMember

  class ProjectStore {
    var projects: seq<Project>
    var members: seq<ProjectMember>
    var tasks: seq<ProjectTask>
    /** The key the database hands the next inserted project; it only grows. */
    var sequence: nat

    ghost predicate Valid()
      reads this
    {
      && ProjectsValid(projects, sequence)
      && KeysDistinct(members, MemberKey)
      && OneMembershipPerStudent(members)
      && (forall m :: m in members ==> ProjectExists(projects, m.projectId))
      && KeysDistinct(tasks, TaskKey)
      && (forall t :: t in tasks ==> ProjectExists(projects, t.projectId))
    }

    constructor ()
      ensures projects == [] && members == [] && tasks == [] && Valid()
    {
      projects := [];
      members := [];
      tasks := [];
      sequence := 1;
    }

    /** `Project(...).save()` for a new project: it has no code, so it gets the generated one,
        and the database gives it the next key. */
    method Create(title: string, description: string, startDate: int, endDate: Option<int>,
                  status: Option<ProjectStatus>, priority: Option<ProjectPriority>) returns (p: Project)
      requires Valid()
      modifies this
      ensures p == NewProject(old(sequence), GenerateProjectCode(old(projects)), title, description,
                              startDate, endDate, status, priority)
      ensures projects == old(projects) + [p] && sequence == old(sequence) + 1
      ensures members == old(members) && tasks == old(tasks)
      ensures Valid()
    {
      var code := CodeOnSave(projects, []);
      p := NewProject(sequence, code, title, description, startDate, endDate, status, priority);
      CreateKeepsProjectsValid(projects, sequence, p);
      var before := projects;
      projects := projects + [p];
      sequence := sequence + 1;
      forall m | m in members ensures ProjectExists(projects, m.projectId) {
        var q :| q in before && q.id == m.projectId;
        assert q in projects;
      }
      forall t | t in tasks ensures ProjectExists(projects, t.projectId) {
        var q :| q in before && q.id == t.projectId;
        assert q in projects;
      }
    }

    /** `save()` on a stored project: its code is already set, so the row is written back
        unchanged. */
    method Resave(i: nat)
      requires Valid() && i < |projects|
      modifies this
      ensures projects == old(projects) && members == old(members) && tasks == old(tasks)
      ensures sequence == old(sequence)
      ensures Valid()
    {
      var p := projects[i];
      assert p in projects;
      var code := CodeOnSave(projects, p.code);
      projects := projects[i := p.(code := code)];
    }

    /** Deleting a project cascades to its members and its tasks. The key sequence does not go
        back, so later codes stay fresh. */
    method Delete(id: Id)
      requires Valid()
      modifies this
      ensures forall p :: p in projects <==> p in old(projects) && p.id != id
      ensures forall m :: m in members <==> m in old(members) && m.projectId != id
      ensures forall t :: t in tasks <==> t in old(tasks) && t.projectId != id
      ensures sequence == old(sequence)
      ensures Valid()
    {
      var before := projects;
      projects := Filter(projects, (p: Project) => p.id != id);
      members := Filter(members, (m: ProjectMember) => m.projectId != id);
      tasks := Filter(tasks, (t: ProjectTask) => t.projectId != id);
      FilterKeepsKeysDistinct(before, (p: Project) => p.id != id, ProjectKey);
      FilterKeepsCodesUnique(before, (p: Project) => p.id != id);
      FilterKeepsKeysDistinct(old(members), (m: ProjectMember) => m.projectId != id, MemberKey);
      FilterKeepsMembershipsUnique(old(members), (m: ProjectMember) => m.projectId != id);
      FilterKeepsKeysDistinct(old(tasks), (t: ProjectTask) => t.projectId != id, TaskKey);
      forall m | m in members ensures ProjectExists(projects, m.projectId) {
        var q :| q in before && q.id == m.projectId;
        assert q in projects;
      }
      forall t | t in tasks ensures ProjectExists(projects, t.projectId) {
        var q :| q in before && q.id == t.projectId;
        assert q in projects;
      }
    }

    /** `ProjectMember.objects.create(...)`: refused when the project does not exist or the
        student is already a member of it. */
    method AddMember(projectId: Id, studentId: Id, role: MemberRole) returns (r: Result<ProjectMember, MemberError>)
      requires Valid()
      modifies this
      ensures r.Err? ==> members == old(members)
      ensures r == Err(NoSuchProject) <==> !ProjectExists(projects, projectId)
      ensures r == Err(AlreadyMember) <==> ProjectExists(projects, projectId) && IsMember(old(members), projectId, studentId)
      ensures r.Ok? ==> members == old(members) + [r.value]
                        && r.value == ProjectMember(NextKey(old(members), MemberKey), projectId, studentId, role)
      ensures projects == old(projects) && tasks == old(tasks) && sequence == old(sequence)
      ensures Valid()
    {
      if !ProjectExists(projects, projectId) {
        return Err(NoSuchProject);
      }
      if IsMember(members, projectId, studentId) {
        return Err(AlreadyMember);
      }
      var m := ProjectMember(NextKey(members, MemberKey), projectId, studentId, role);
      AppendNextKeyDistinct(members, MemberKey, m);
      var before := members;
      members := members + [m];
      forall i, j | 0 <= i < j < |members|
        ensures (members[i].projectId, members[i].studentId) != (members[j].projectId, members[j].studentId)
      {
        assert members[i] in before;
        if j < |before| {
          assert members[i] == before[i] && members[j] == before[j];
        }
      }
      r := Ok(m);
    }

    /** `ProjectTask.objects.create(...)` for an existing project; status `NEW` unless given. */
    method AddTask(projectId: Id, title: string, description: string, status: Option<TaskStatus>,
                   assignedTo: Option<Id>, deadline: Option<int>) returns (r: Result<ProjectTask, MemberError>)
      requires Valid()
      modifies this
      ensures r.Err? <==> !ProjectExists(projects, projectId)
      ensures r.Err? ==> tasks == old(tasks)
      ensures r.Ok? ==> tasks == old(tasks) + [r.value]
                        && r.value == NewTask(NextKey(old(tasks), TaskKey), projectId, title, description, status, assignedTo, deadline)
      ensures projects == old(projects) && members == old(members) && sequence == old(sequence)
      ensures Valid()
    {
      if !ProjectExists(projects, projectId) {
        return Err(NoSuchProject);
      }
      var t := NewTask(NextKey(tasks, TaskKey), projectId, title, description, status, assignedTo, deadline);
      AppendNextKeyDistinct(tasks, TaskKey, t);
      tasks := tasks + [t];
      r := Ok(t);
    }
  }

  // ---------------------------------------------------------------------------
  // Filtering keeps uniqueness
  // ---------------------------------------------------------------------------

  lemma FilterKeepsCodesUnique(rows: seq<Project>, keep: Project -> bool)
    requires CodesUnique(rows)
    ensures CodesUnique(Filter(rows, keep))
  {
    FilterKeepsPairwise(rows, keep, (a: Project, b: Project) => a.code != b.code);
  }

  lemma FilterKeepsMembershipsUnique(rows: seq<ProjectMember>, keep: ProjectMember -> bool)
    requires OneMembershipPerStudent(rows)
    ensures OneMembershipPerStudent(Filter(rows, keep))
  {
    FilterKeepsPairwise(rows, keep, (a: ProjectMember, b: ProjectMember) => (a.projectId, a.studentId) != (b.projectId, b.studentId));
  }
}
