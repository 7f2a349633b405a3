/**
 * The object model of the tracker: users, projects and tasks, the three
 * class-level lists every constructed entity is appended to, and the derived
 * views `User.tasks`, `Project.users` and `User.projects`.
 *
 * The class-level lists become the fields of one Store object; the views are
 * functions of the lists they read, passed explicitly.
 */
module Models {
  import opened Wrappers
  import opened Seqs

  datatype User = User(id: string, name: string, email: string)

  datatype Project = Project(id: string, title: string, description: string, dueDate: string)

  /**
   * What a task's `assigned_to` holds. Python leaves it untyped: the command
   * line stores the user id it was given (or None), while the views compare
   * it with a User object.
   */
  datatype Assignee = Unassigned | AssignedUser(user: User) | AssignedId(userId: string)

  datatype Task = Task(id: string, title: string, status: string, assignedTo: Assignee, projectId: Option<string>)

  /** The contents of the three lists at one moment: what a save writes out and a load reads back. */
  datatype Snapshot = Snapshot(users: seq<User>, projects: seq<Project>, tasks: seq<Task>)

  const EmptySnapshot := Snapshot([], [], [])

  // ----- Derived views -----

  /** The condition of `User.tasks`: `task.assigned_to == self`. */
  function AssignedTo(u: User): Task -> bool
  {
    (t: Task) => t.assignedTo == AssignedUser(u)
  }

  /** `User.tasks`: the tasks assigned to `u`, in list order. */
  function UserTasks(allTasks: seq<Task>, u: User): (r: seq<Task>)
    ensures IsSubsequence(r, allTasks)
    ensures forall t :: t in r <==> t in allTasks && t.assignedTo == AssignedUser(u)
    ensures forall t :: multiset(r)[t] == if t.assignedTo == AssignedUser(u) then multiset(allTasks)[t] else 0
  {
    Filter(allTasks, AssignedTo(u))
  }

  function AssigneeOf(t: Task): Assignee
  {
    t.assignedTo
  }

  /** The inner list of `Project.users`: `[task.assigned_to for task in Task.all_tasks if task in Task.all_tasks]`. */
  function Assignees(allTasks: seq<Task>): seq<Assignee>
  {
    Map(Filter(allTasks, MemberOf(allTasks)), AssigneeOf)
  }

  /** The outer condition of `Project.users`: `user in <assignees>`. */
  function AmongAssignees(assignees: seq<Assignee>): User -> bool
  {
    (u: User) => AssignedUser(u) in assignees
  }

  /** "Some task in the list is assigned to this user." */
  function IsAssignee(allTasks: seq<Task>): User -> bool
  {
    (u: User) => exists t :: t in allTasks && t.assignedTo == AssignedUser(u)
  }

  /** The inner filter of `Project.users` keeps every task, so the assignees are those of all tasks. */
  lemma AssigneesOfAllTasks(allTasks: seq<Task>)
    ensures Assignees(allTasks) == Map(allTasks, AssigneeOf)
  {
    FilterKeepsAll(allTasks, MemberOf(allTasks));
  }

  /** Filtering by two conditions that agree on every element gives the same list. */
  lemma {:induction false} FilterAgrees<T(!new)>(s: seq<T>, p: T -> bool, q: T -> bool)
    requires forall x :: x in s ==> (p(x) <==> q(x))
    ensures Filter(s, p) == Filter(s, q)
  {
    if s != [] {
      assert forall x :: x in s[1..] ==> x in s;
      FilterAgrees(s[1..], p, q);
    }
  }

  /**
   * `Project.users`: the users assigned to some task, in list order. The
   * project itself plays no part, so every project has the same users.
   */
  function ProjectUsers(allUsers: seq<User>, allTasks: seq<Task>, project: Project): (r: seq<User>)
    ensures r == Filter(allUsers, IsAssignee(allTasks))
    ensures IsSubsequence(r, allUsers)
    ensures forall u :: u in r <==> u in allUsers && exists t :: t in allTasks && t.assignedTo == AssignedUser(u)
  {
    AssigneesOfAllTasks(allTasks);
    var assignees := Assignees(allTasks);
    assert forall u :: AmongAssignees(assignees)(u) <==> IsAssignee(allTasks)(u) by {
      forall u
        ensures AssignedUser(u) in assignees <==> exists t :: t in allTasks && t.assignedTo == AssignedUser(u)
      {
        if AssignedUser(u) in assignees {
          var i :| 0 <= i < |assignees| && assignees[i] == AssignedUser(u);
          assert allTasks[i] in allTasks;
        }
        if t :| t in allTasks && t.assignedTo == AssignedUser(u) {
          var i :| 0 <= i < |allTasks| && allTasks[i] == t;
          assert assignees[i] == AssignedUser(u);
        }
      }
    }
    FilterAgrees(allUsers, AmongAssignees(assignees), IsAssignee(allTasks));
    Filter(allUsers, AmongAssignees(assignees))
  }

  /** The condition of `User.projects`: `self in project.users`. */
  function HasMember(allUsers: seq<User>, allTasks: seq<Task>, u: User): Project -> bool
  {
    (p: Project) => u in ProjectUsers(allUsers, allTasks, p)
  }

  /**
   * `User.projects`: since every project has the same users, a user either
   * belongs to every project (when listed and assigned to some task) or to none.
   */
  function UserProjects(allProjects: seq<Project>, allUsers: seq<User>, allTasks: seq<Task>, u: User): (r: seq<Project>)
    ensures r == if u in allUsers && IsAssignee(allTasks)(u) then allProjects else []
  {
    var member := HasMember(allUsers, allTasks, u);
    if u in allUsers && IsAssignee(allTasks)(u) then
      FilterKeepsAll(allProjects, member);
      Filter(allProjects, member)
    else
      FilterDropsAll(allProjects, member);
      Filter(allProjects, member)
  }

  /** Constructing a task extends `User.tasks` of its assignee at the end and leaves every other user's unchanged. */
  lemma UserTasksAfterNewTask(allTasks: seq<Task>, t: Task, u: User)
    ensures UserTasks(allTasks + [t], u) == UserTasks(allTasks, u) + (if t.assignedTo == AssignedUser(u) then [t] else [])
  {
    FilterAppend(allTasks, [t], AssignedTo(u));
  }

  /**
   * Tasks whose `assigned_to` holds a user id (or None), as the command line
   * creates them, never compare equal to a User: no user has tasks and no
   * project has users.
   */
  lemma IdAssignmentsAreInvisible(allUsers: seq<User>, allTasks: seq<Task>, u: User, p: Project)
    requires forall t :: t in allTasks ==> !t.assignedTo.AssignedUser?
    ensures UserTasks(allTasks, u) == []
    ensures ProjectUsers(allUsers, allTasks, p) == []
  {
    FilterDropsAll(allTasks, AssignedTo(u));
    FilterDropsAll(allUsers, IsAssignee(allTasks));
  }

  // ----- The three class-level lists -----

  /**
   * `User.all_users`, `Project.all_projects` and `Task.all_tasks`, plus what
   * was last written to the store file.
   */
  class Store {
    var users: seq<User>
    var projects: seq<Project>
    var tasks: seq<Task>
    /** The contents of the store file, None when there is none (or it could not be read). */
    var persisted: Option<Snapshot>

    function Current(): Snapshot
      reads this
    {
      Snapshot(users, projects, tasks)
    }

    /** The file holds exactly what is in memory. */
    predicate Synced()
      reads this
    {
      persisted == Some(Current())
    }

    /** Start of a run: the lists hold what the file holds, or start empty when it has nothing readable. */
    constructor Load(file: Option<Snapshot>)
      ensures persisted == file
      ensures Current() == if file.Some? then file.value else EmptySnapshot
      ensures file.Some? ==> Synced()
    {
      var s := if file.Some? then file.value else EmptySnapshot;
      users, projects, tasks := s.users, s.projects, s.tasks;
      persisted := file;
    }

    /** Writes the whole store out: afterwards the file holds the current lists. */
    method Save()
      modifies this`persisted
      ensures Synced()
      ensures users == old(users) && projects == old(projects) && tasks == old(tasks)
    {
      persisted := Some(Current());
    }

    /** `User(name, email)`: builds the user and appends it to the user list. */
    method NewUser(id: string, name: string, email: string) returns (u: User)
      modifies this`users
      ensures u.id == id && u.name == name && u.email == email
      ensures users == old(users) + [u]
    {
      u := User(id, name, email);
      users := users + [u];
    }

    /** `Project(title, description, due_date)`: stores its fields verbatim and appends it. */
    method NewProject(id: string, title: string, description: string, dueDate: string) returns (p: Project)
      modifies this`projects
      ensures p.id == id && p.title == title && p.description == description && p.dueDate == dueDate
      ensures projects == old(projects) + [p]
    {
      p := Project(id, title, description, dueDate);
      projects := projects + [p];
    }

    /** `Task(title, status, assigned_to)`: stores its fields verbatim, whatever the status, and appends it. */
    method NewTask(id: string, title: string, status: string, assignedTo: Assignee, projectId: Option<string>)
      returns (t: Task)
      modifies this`tasks
      ensures t.id == id && t.title == title && t.status == status
      ensures t.assignedTo == assignedTo && t.projectId == projectId
      ensures tasks == old(tasks) + [t]
    {
      t := Task(id, title, status, assignedTo, projectId);
      tasks := tasks + [t];
    }
  }

  /** Two constructions in a row: the first built sits right before the second, after everything already there. */
  method NewUsersInOrder(store: Store, a: User, b: User) returns (ua: User, ub: User)
    modifies store`users
    ensures ua == a && ub == b
    ensures store.users == old(store.users) + [a, b]
  {
    ua := store.NewUser(a.id, a.name, a.email);
    ub := store.NewUser(b.id, b.name, b.email);
  }
}
