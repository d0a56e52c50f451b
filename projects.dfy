/** The project service: the projects a user manages or belongs to, point lookup,
    creation, whitelisted edits and guarded membership inserts, over the
    `Projects` and `ProjectMembers` tables. */
module Projects {
  import opened Common
  import opened Query

  /** A row of `Projects`. `status` is the ordinal of the project-status enumeration. */
  datatype Project = Project(
    id: int,
    name: string,
    description: Option<string>,
    status: nat,
    projectManagerId: int,
    targetCompletionDate: Option<Timestamp>,
    createdDate: Timestamp,
    updatedDate: Timestamp)

  /** A row of `ProjectMembers`, the join between projects and users. */
  datatype ProjectMember = ProjectMember(
    id: int,
    projectId: int,
    userId: int,
    role: string,
    assignedDate: Timestamp)

  /** Both tables in store order, with their identity seeds. */
  datatype ProjectTables = ProjectTables(
    projects: seq<Project>,
    members: seq<ProjectMember>,
    nextProjectId: int,
    nextMemberId: int)

  /** Primary keys unique and below their seeds; every membership row refers to
      a stored project (the foreign key). */
  ghost predicate ValidTables(t: ProjectTables) {
    && (forall i :: 0 <= i < |t.projects| ==> t.projects[i].id < t.nextProjectId)
    && (forall i, j :: 0 <= i < j < |t.projects| ==> t.projects[i].id != t.projects[j].id)
    && (forall i :: 0 <= i < |t.members| ==> t.members[i].id < t.nextMemberId)
    && (forall i, j :: 0 <= i < j < |t.members| ==> t.members[i].id != t.members[j].id)
    && (forall i :: 0 <= i < |t.members| ==> exists k :: 0 <= k < |t.projects| && t.projects[k].id == t.members[i].projectId)
  }

  /** At most one membership row per (project, user) pair: what the existence
      check before each insert maintains. */
  ghost predicate PairsUnique(members: seq<ProjectMember>) {
    forall i, j :: 0 <= i < j < |members| ==>
      members[i].projectId != members[j].projectId || members[i].userId != members[j].userId
  }

  function ProjectHasId(id: int): Project -> bool {
    (p: Project) => p.id == id
  }

  function IsPair(projectId: int, userId: int): ProjectMember -> bool {
    (m: ProjectMember) => m.projectId == projectId && m.userId == userId
  }

  function InProject(projectId: int): ProjectMember -> bool {
    (m: ProjectMember) => m.projectId == projectId
  }

  function HasUser(userId: int): ProjectMember -> bool {
    (m: ProjectMember) => m.userId == userId
  }

  predicate IsMember(members: seq<ProjectMember>, projectId: int, userId: int) {
    exists m :: m in members && m.projectId == projectId && m.userId == userId
  }

  /** The single filter that replaces the union: managed by, or with a membership row for, `userId`. */
  function Involves(members: seq<ProjectMember>, userId: int): Project -> bool {
    (p: Project) => p.projectManagerId == userId || IsMember(members, p.id, userId)
  }

  /** `OrderByDescending(p => p.CreatedDate)`. */
  predicate NewerFirst(a: Project, b: Project) {
    a.createdDate >= b.createdDate
  }

  lemma NewerFirstTotalPreorder()
    ensures TotalPreorder(NewerFirst)
  {
  }

  /** `GetUserProjectsAsync`: the projects `userId` manages or is a member of,
      each as often as stored, newest first. */
  function UserProjects(t: ProjectTables, userId: int): (r: seq<Project>)
    ensures forall p :: multiset(r)[p] ==
              if p.projectManagerId == userId || IsMember(t.members, p.id, userId)
              then multiset(t.projects)[p] else 0
    ensures forall p :: p in r <==>
              p in t.projects && (p.projectManagerId == userId || IsMember(t.members, p.id, userId))
    ensures Sorted(r, NewerFirst)
  {
    NewerFirstTotalPreorder();
    SortBy(Filter(t.projects, Involves(t.members, userId)), NewerFirst)
  }

  /** Union semantics: every project in the result appears exactly once. */
  lemma UserProjectsOnce(t: ProjectTables, userId: int, p: Project)
    requires ValidTables(t)
    requires p in UserProjects(t, userId)
    ensures multiset(UserProjects(t, userId))[p] == 1
  {
    DistinctOnce(t.projects, p);
  }

  /** `GetProjectByIdAsync`: the project with that id, if any. */
  function ProjectById(projects: seq<Project>, id: int): (r: Option<Project>)
    ensures r.Some? ==> r.value in projects && r.value.id == id
    ensures r.None? <==> forall p :: p in projects ==> p.id != id
  {
    var k := FindIndex(projects, ProjectHasId(id));
    if k.Some? then Some(projects[k.value]) else None
  }

  /** `CreateProjectAsync`: the new tables and the stored row. The clock is read
      twice, once for each date column, so the two stamps may differ. */
  function InsertProject(t: ProjectTables, project: Project, created: Timestamp, updated: Timestamp): (ProjectTables, Project) {
    var stored := project.(id := t.nextProjectId, createdDate := created, updatedDate := updated);
    (t.(projects := t.projects + [stored], nextProjectId := t.nextProjectId + 1), stored)
  }

  /** Exactly one row is added, with the two clock stamps, under a fresh id; the
      other columns are the caller's, and nothing stored changes. */
  lemma InsertProjectAdds(t: ProjectTables, project: Project, created: Timestamp, updated: Timestamp)
    ensures var (t', p) := InsertProject(t, project, created, updated);
      && t'.projects == t.projects + [p] && t'.members == t.members
      && p.createdDate == created && p.updatedDate == updated
      && p.name == project.name && p.description == project.description
      && p.status == project.status && p.projectManagerId == project.projectManagerId
      && p.targetCompletionDate == project.targetCompletionDate
      && (ValidTables(t) ==> ValidTables(t') && ProjectById(t'.projects, p.id) == Some(p))
  {
    var (t', p) := InsertProject(t, project, created, updated);
    if ValidTables(t) {
      FindIndexAppend(t.projects, p, ProjectHasId(p.id));
      assert forall i :: 0 <= i < |t.members| ==> exists k :: 0 <= k < |t'.projects| && t'.projects[k].id == t'.members[i].projectId by {
        forall i | 0 <= i < |t.members|
          ensures exists k :: 0 <= k < |t'.projects| && t'.projects[k].id == t'.members[i].projectId
        {
          var k :| 0 <= k < |t.projects| && t.projects[k].id == t.members[i].projectId;
          assert t'.projects[k] == t.projects[k];
        }
      }
    }
  }

  /** The four editable columns come from `project`, `UpdatedDate` is `now`, and id,
      manager and creation date are those of `existing`. */
  ghost predicate ProjectEdited(updated: Project, existing: Project, project: Project, now: Timestamp) {
    && updated.name == project.name
    && updated.description == project.description
    && updated.status == project.status
    && updated.targetCompletionDate == project.targetCompletionDate
    && updated.updatedDate == now
    && updated.id == existing.id
    && updated.projectManagerId == existing.projectManagerId
    && updated.createdDate == existing.createdDate
  }

  /** `UpdateProjectAsync`: the new tables and whether the project was found. */
  function EditProject(t: ProjectTables, project: Project, now: Timestamp): (ProjectTables, bool) {
    match FindIndex(t.projects, ProjectHasId(project.id))
    case None => (t, false)
    case Some(i) =>
      var updated := t.projects[i].(name := project.name, description := project.description,
                                    status := project.status,
                                    targetCompletionDate := project.targetCompletionDate,
                                    updatedDate := now);
      (t.(projects := t.projects[i := updated]), true)
  }

  lemma EditProjectMiss(t: ProjectTables, project: Project, now: Timestamp)
    requires ProjectById(t.projects, project.id).None?
    ensures EditProject(t, project, now) == (t, false)
  {
  }

  /** A hit rewrites only the found project, and only its editable columns;
      membership rows never change. */
  lemma EditProjectHit(t: ProjectTables, project: Project, now: Timestamp)
    requires ProjectById(t.projects, project.id).Some?
    ensures var (t', ok) := EditProject(t, project, now);
      var prior := ProjectById(t.projects, project.id).value;
      && ok && t'.members == t.members && t'.nextProjectId == t.nextProjectId
      && |t'.projects| == |t.projects|
      && exists i :: 0 <= i < |t.projects| && t.projects[i] == prior
           && (forall j :: 0 <= j < |t.projects| && j != i ==> t'.projects[j] == t.projects[j])
           && ProjectEdited(t'.projects[i], prior, project, now)
  {
    var i := FindIndex(t.projects, ProjectHasId(project.id)).value;
    assert t.projects[i] == ProjectById(t.projects, project.id).value;
  }

  lemma EditProjectKeepsInvariants(t: ProjectTables, project: Project, now: Timestamp)
    requires ValidTables(t)
    ensures ValidTables(EditProject(t, project, now).0)
  {
    var (t', ok) := EditProject(t, project, now);
    if ok {
      var i := FindIndex(t.projects, ProjectHasId(project.id)).value;
      assert t'.members == t.members && |t'.projects| == |t.projects|;
      assert forall k :: 0 <= k < |t.projects| ==> t'.projects[k].id == t.projects[k].id;
      forall m | 0 <= m < |t.members|
        ensures exists k :: 0 <= k < |t'.projects| && t'.projects[k].id == t'.members[m].projectId
      {
        var k :| 0 <= k < |t.projects| && t.projects[k].id == t.members[m].projectId;
        assert t'.projects[k].id == t.projects[k].id;
      }
    }
  }

  /** `AddProjectMemberAsync`: the new tables and whether a row was inserted. */
  function InsertMember(t: ProjectTables, projectId: int, userId: int, role: string, now: Timestamp): (ProjectTables, bool) {
    if FindIndex(t.projects, ProjectHasId(projectId)).None? then (t, false)
    else if FindIndex(t.members, IsPair(projectId, userId)).Some? then (t, false)
    else
      var m := ProjectMember(t.nextMemberId, projectId, userId, role, now);
      (t.(members := t.members + [m], nextMemberId := t.nextMemberId + 1), true)
  }

  /** An unknown project, or a pair that already has a row, is refused with no change. */
  lemma InsertMemberRejects(t: ProjectTables, projectId: int, userId: int, role: string, now: Timestamp)
    requires ProjectById(t.projects, projectId).None? || IsMember(t.members, projectId, userId)
    ensures InsertMember(t, projectId, userId, role, now) == (t, false)
  {
    if IsMember(t.members, projectId, userId) {
      var m :| m in t.members && m.projectId == projectId && m.userId == userId;
      assert IsPair(projectId, userId)(m);
    }
  }

  /** Otherwise exactly one row is added, with the given pair, role and `now`. */
  lemma InsertMemberAdds(t: ProjectTables, projectId: int, userId: int, role: string, now: Timestamp)
    requires ProjectById(t.projects, projectId).Some? && !IsMember(t.members, projectId, userId)
    ensures var (t', ok) := InsertMember(t, projectId, userId, role, now);
      && ok && t'.projects == t.projects && |t'.members| == |t.members| + 1
      && var m := t'.members[|t.members|];
         && t'.members == t.members + [m]
         && m.projectId == projectId && m.userId == userId
         && m.role == role && m.assignedDate == now
         && (ValidTables(t) ==> forall n :: n in t.members ==> n.id != m.id)
  {
  }

  /** Inserting a member keeps the keys and the foreign key. */
  lemma InsertMemberKeepsInvariants(t: ProjectTables, projectId: int, userId: int, role: string, now: Timestamp)
    requires ValidTables(t)
    ensures ValidTables(InsertMember(t, projectId, userId, role, now).0)
  {
    var (t', ok) := InsertMember(t, projectId, userId, role, now);
    if ok {
      var k := FindIndex(t.projects, ProjectHasId(projectId)).value;
      var n := |t.members|;
      assert t'.members[n].projectId == t.projects[k].id;
      assert forall i :: 0 <= i < n ==> t'.members[i] == t.members[i];
    }
  }

  /** The existence check keeps at most one row per (project, user) pair. */
  lemma InsertMemberKeepsPairsUnique(t: ProjectTables, projectId: int, userId: int, role: string, now: Timestamp)
    requires PairsUnique(t.members)
    ensures PairsUnique(InsertMember(t, projectId, userId, role, now).0.members)
  {
    var (t', ok) := InsertMember(t, projectId, userId, role, now);
    if ok {
      var n := |t.members|;
      forall i | 0 <= i < n
        ensures t'.members[i].projectId != projectId || t'.members[i].userId != userId
      {
        assert t'.members[i] == t.members[i];
        assert !IsPair(projectId, userId)(t.members[i]);
      }
    }
  }

  /** Repeating an identical call is refused and changes nothing. */
  lemma {:induction false} InsertMemberTwice(t: ProjectTables, projectId: int, userId: int, role: string,
                                             now1: Timestamp, now2: Timestamp)
    ensures var t1 := InsertMember(t, projectId, userId, role, now1).0;
      InsertMember(t1, projectId, userId, role, now2) == (t1, false)
  {
    var (t1, ok) := InsertMember(t, projectId, userId, role, now1);
    if ok {
      var m := t1.members[|t.members|];
      assert t1.members == t.members + [m];
      assert m in t1.members && m.projectId == projectId && m.userId == userId;
    }
    InsertMemberRejects(t1, projectId, userId, role, now2);
  }

  /** `GetProjectMembersAsync`: the membership rows of `projectId`, in store order. */
  function ProjectMembers(members: seq<ProjectMember>, projectId: int): (r: seq<ProjectMember>)
    ensures forall m :: multiset(r)[m] == if m.projectId == projectId then multiset(members)[m] else 0
    ensures forall m :: m in r <==> m in members && m.projectId == projectId
  {
    Filter(members, InProject(projectId))
  }

  /** A freshly created project has no membership rows yet. */
  lemma NewProjectHasNoMembers(t: ProjectTables, project: Project, created: Timestamp, updated: Timestamp)
    requires ValidTables(t)
    ensures var (t1, p) := InsertProject(t, project, created, updated);
      && ValidTables(t1) && ProjectById(t1.projects, p.id) == Some(p)
      && forall m :: m in t1.members ==> m.projectId != p.id
  {
    var (t1, p) := InsertProject(t, project, created, updated);
    InsertProjectAdds(t, project, created, updated);
    forall m | m in t1.members ensures m.projectId != p.id {
      var i :| 0 <= i < |t.members| && t.members[i] == m;
      var k :| 0 <= k < |t.projects| && t.projects[k].id == m.projectId;
    }
  }

  /** Adding a user to a project that has no members yet makes it that project's only member row. */
  lemma FirstMemberOfProject(t: ProjectTables, projectId: int, u: int, role: string, now: Timestamp)
    requires ValidTables(t) && ProjectById(t.projects, projectId).Some?
    requires forall m :: m in t.members ==> m.projectId != projectId
    ensures var (t', ok) := InsertMember(t, projectId, u, role, now);
      && ok && t'.projects == t.projects && ValidTables(t')
      && IsMember(t'.members, projectId, u)
      && ProjectMembers(t'.members, projectId) == [t'.members[|t.members|]]
      && t'.members[|t.members|].userId == u
  {
    assert !IsMember(t.members, projectId, u);
    InsertMemberAdds(t, projectId, u, role, now);
    InsertMemberKeepsInvariants(t, projectId, u, role, now);
    var (t', ok) := InsertMember(t, projectId, u, role, now);
    var m := t'.members[|t.members|];
    assert m in t'.members;
    assert Filter(t.members, InProject(projectId)) == [] by {
      forall j | 0 <= j < |t.members| ensures !InProject(projectId)(t.members[j]) {
        assert t.members[j] in t.members;
      }
      FilterNone(t.members, InProject(projectId));
    }
    FilterAppend(t.members, m, InProject(projectId));
  }

  /** Creating a project and adding a member: both the manager and the member then
      see the project exactly once, and it has exactly one membership row for the member. */
  lemma ManagerAndMemberSeeProject(t: ProjectTables, project: Project, u: int, role: string,
                                   created: Timestamp, updated: Timestamp, now: Timestamp)
    requires ValidTables(t)
    ensures var (t1, p) := InsertProject(t, project, created, updated);
      var (t2, ok) := InsertMember(t1, p.id, u, role, now);
      && ok
      && multiset(UserProjects(t2, u))[p] == 1
      && multiset(UserProjects(t2, project.projectManagerId))[p] == 1
      && Count(ProjectMembers(t2.members, p.id), HasUser(u)) == 1
  {
    var (t1, p) := InsertProject(t, project, created, updated);
    NewProjectHasNoMembers(t, project, created, updated);
    FirstMemberOfProject(t1, p.id, u, role, now);
    var (t2, ok) := InsertMember(t1, p.id, u, role, now);
    assert p in t2.projects;
    assert p in UserProjects(t2, u);
    assert p in UserProjects(t2, project.projectManagerId);
    UserProjectsOnce(t2, u, p);
    UserProjectsOnce(t2, project.projectManagerId, p);
  }

  /** The two tables behind the service, updated in place by its three mutating operations. */
  class ProjectService {
    var projects: seq<Project>
    var members: seq<ProjectMember>
    var nextProjectId: int
    var nextMemberId: int

    function Tables(): ProjectTables
      reads this
    {
      ProjectTables(projects, members, nextProjectId, nextMemberId)
    }

    ghost predicate Valid()
      reads this
    {
      ValidTables(Tables())
    }

    constructor ()
      ensures Valid() && projects == [] && members == []
    {
      projects, members := [], [];
      nextProjectId, nextMemberId := 1, 1;
    }

    method CreateProject(project: Project, created: Timestamp, updated: Timestamp) returns (stored: Project)
      requires Valid()
      modifies this
      ensures Valid()
      ensures (Tables(), stored) == InsertProject(old(Tables()), project, created, updated)
    {
      InsertProjectAdds(Tables(), project, created, updated);
      stored := project.(id := nextProjectId, createdDate := created, updatedDate := updated);
      projects := projects + [stored];
      nextProjectId := nextProjectId + 1;
    }

    method UpdateProject(project: Project, now: Timestamp) returns (ok: bool)
      requires Valid()
      modifies this
      ensures Valid()
      ensures (Tables(), ok) == EditProject(old(Tables()), project, now)
    {
      EditProjectKeepsInvariants(Tables(), project, now);
      var found := FindIndex(projects, ProjectHasId(project.id));
      if found.None? {
        return false;
      }
      var i := found.value;
      projects := projects[i := projects[i].(name := project.name, description := project.description,
                                             status := project.status,
                                             targetCompletionDate := project.targetCompletionDate,
                                             updatedDate := now)];
      ok := true;
    }

    method AddProjectMember(projectId: int, userId: int, role: string, now: Timestamp) returns (ok: bool)
      requires Valid()
      modifies this
      ensures Valid()
      ensures (Tables(), ok) == InsertMember(old(Tables()), projectId, userId, role, now)
      ensures old(PairsUnique(members)) ==> PairsUnique(members)
    {
      InsertMemberKeepsInvariants(Tables(), projectId, userId, role, now);
      if PairsUnique(members) {
        InsertMemberKeepsPairsUnique(Tables(), projectId, userId, role, now);
      }
      var project := FindIndex(projects, ProjectHasId(projectId));
      if project.None? {
        return false;
      }
      var existing := FindIndex(members, IsPair(projectId, userId));
      if existing.Some? {
        return false;
      }
      members := members + [ProjectMember(nextMemberId, projectId, userId, role, now)];
      nextMemberId := nextMemberId + 1;
      ok := true;
    }
  }
}
