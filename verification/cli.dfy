/**
 * The command handlers of the tracker's command line: `user`, `project` and
 * `task`, each with `add`, `remove` and `list`. Every handler works on the
 * store loaded at start-up; a failed check ends the run with exit status 1
 * before anything is written out.
 */
module Cli {
  import opened Wrappers
  import opened Seqs
  import opened Models
  import opened Validation

  datatype Error = InvalidEmail | InvalidDate | InvalidStatus | NotFound | NotDone

  /** How a run ends: normally, or through `sys.exit(1)` after printing the error. */
  datatype Outcome = Success | Failure(error: Error)

  /** The process exit status of a run. */
  function ExitCode(o: Outcome): (code: int)
    ensures code == 0 <==> o.Success?
    ensures code == 1 <==> o.Failure?
  {
    if o.Success? then 0 else 1
  }

  // ----- The lookups' conditions: `u.id == args.user_id` and the like -----

  function UserWithId(id: string): User -> bool
  {
    (u: User) => u.id == id
  }

  function ProjectWithId(id: string): Project -> bool
  {
    (p: Project) => p.id == id
  }

  function TaskWithId(id: string): Task -> bool
  {
    (t: Task) => t.id == id
  }

  /** `--assigned-to` is stored as the text given, or None when absent. */
  function CliAssignee(arg: Option<string>): (a: Assignee)
    ensures !a.AssignedUser?
  {
    match arg
    case None => Unassigned
    case Some(userId) => AssignedId(userId)
  }

  // ----- user -----

  /** `user add`: check the email, then construct the user and save. */
  method UserAdd(st: Store, id: string, name: string, email: string) returns (o: Outcome)
    modifies st
    ensures !ValidEmail(email) ==> o == Failure(InvalidEmail) && unchanged(st)
    ensures ValidEmail(email) ==>
      && o == Success
      && st.users == old(st.users) + [User(id, name, email)]
      && st.projects == old(st.projects) && st.tasks == old(st.tasks)
      && st.Synced()
  {
    if !ValidEmail(email) {
      return Failure(InvalidEmail);
    }
    var user := st.NewUser(id, name, email);
    st.Save();
    return Success;
  }

  /** `user remove`: find the first user with the id, drop exactly that one, and save. */
  method UserRemove(st: Store, id: string) returns (o: Outcome)
    modifies st
    ensures FirstIndex(old(st.users), UserWithId(id)).None? ==> o == Failure(NotFound) && unchanged(st)
    ensures FirstIndex(old(st.users), UserWithId(id)).Some? ==>
      var i := FirstIndex(old(st.users), UserWithId(id)).value;
      && o == Success
      && st.users == old(st.users)[..i] + old(st.users)[i + 1..]
      && st.projects == old(st.projects) && st.tasks == old(st.tasks)
      && st.Synced()
  {
    var found := FindFirst(st.users, UserWithId(id));
    if found.None? {
      return Failure(NotFound);
    }
    var i := found.value;
    var user := st.users[i];
    assert forall j :: 0 <= j < i ==> st.users[j].id != id;
    RemoveFirstAt(st.users, user, i);
    st.users := RemoveFirst(st.users, user);
    st.Save();
    return Success;
  }

  /** `user list`: the rows shown, in insertion order; nothing changes. */
  method UserList(st: Store) returns (rows: seq<User>)
    ensures rows == st.users
  {
    rows := st.users;
  }

  // ----- project -----

  /** `project add`: check the due date, then construct the project and save. */
  method ProjectAdd(st: Store, id: string, title: string, description: string, dueDate: string)
    returns (o: Outcome)
    modifies st
    ensures !ValidDate(dueDate) ==> o == Failure(InvalidDate) && unchanged(st)
    ensures ValidDate(dueDate) ==>
      && o == Success
      && st.projects == old(st.projects) + [Project(id, title, description, dueDate)]
      && st.users == old(st.users) && st.tasks == old(st.tasks)
      && st.Synced()
  {
    if !ValidDate(dueDate) {
      return Failure(InvalidDate);
    }
    var project := st.NewProject(id, title, description, dueDate);
    st.Save();
    return Success;
  }

  /** `project remove`: find the first project with the id, drop exactly that one, and save. */
  method ProjectRemove(st: Store, id: string) returns (o: Outcome)
    modifies st
    ensures FirstIndex(old(st.projects), ProjectWithId(id)).None? ==> o == Failure(NotFound) && unchanged(st)
    ensures FirstIndex(old(st.projects), ProjectWithId(id)).Some? ==>
      var i := FirstIndex(old(st.projects), ProjectWithId(id)).value;
      && o == Success
      && st.projects == old(st.projects)[..i] + old(st.projects)[i + 1..]
      && st.users == old(st.users) && st.tasks == old(st.tasks)
      && st.Synced()
  {
    var found := FindFirst(st.projects, ProjectWithId(id));
    if found.None? {
      return Failure(NotFound);
    }
    var i := found.value;
    var project := st.projects[i];
    assert forall j :: 0 <= j < i ==> st.projects[j].id != id;
    RemoveFirstAt(st.projects, project, i);
    st.projects := RemoveFirst(st.projects, project);
    st.Save();
    return Success;
  }

  /** `project list`: the rows shown, in insertion order; nothing changes. */
  method ProjectList(st: Store) returns (rows: seq<Project>)
    ensures rows == st.projects
  {
    rows := st.projects;
  }

  // ----- task -----

  /**
   * `task add`: the task is constructed, and so appended to the in-memory
   * list, before its status is checked; a bad status then ends the run
   * without saving, so the file keeps what it had.
   */
  method TaskAdd(st: Store, id: string, title: string, status: string, assignedTo: Option<string>, project: Option<string>)
    returns (o: Outcome)
    modifies st
    ensures st.tasks == old(st.tasks) + [Task(id, title, status, CliAssignee(assignedTo), project)]
    ensures st.users == old(st.users) && st.projects == old(st.projects)
    ensures ValidStatus(status) ==> o == Success && st.Synced()
    ensures !ValidStatus(status) ==> o == Failure(InvalidStatus) && st.persisted == old(st.persisted)
  {
    var task := st.NewTask(id, title, status, CliAssignee(assignedTo), project);
    if !ValidStatus(task.status) {
      return Failure(InvalidStatus);
    }
    st.Save();
    return Success;
  }

  /**
   * `task remove`: find the first task with the id; it must be done; drop
   * exactly that one and save. Only a finished task ever leaves the list.
   */
  method TaskRemove(st: Store, id: string) returns (o: Outcome)
    modifies st
    ensures FirstIndex(old(st.tasks), TaskWithId(id)).None? ==> o == Failure(NotFound) && unchanged(st)
    ensures FirstIndex(old(st.tasks), TaskWithId(id)).Some? ==>
      var i := FirstIndex(old(st.tasks), TaskWithId(id)).value;
      && (!IsCompleteTask(old(st.tasks)[i]) ==> o == Failure(NotDone) && unchanged(st))
      && (IsCompleteTask(old(st.tasks)[i]) ==>
            && o == Success
            && st.tasks == old(st.tasks)[..i] + old(st.tasks)[i + 1..]
            && st.users == old(st.users) && st.projects == old(st.projects)
            && st.Synced())
    ensures forall t :: multiset(st.tasks)[t] < multiset(old(st.tasks))[t] ==> IsCompleteTask(t)
  {
    var found := FindFirst(st.tasks, TaskWithId(id));
    if found.None? {
      return Failure(NotFound);
    }
    var i := found.value;
    var task := st.tasks[i];
    if !IsCompleteTask(task) {
      return Failure(NotDone);
    }
    assert forall j :: 0 <= j < i ==> st.tasks[j].id != id;
    RemoveFirstAt(st.tasks, task, i);
    st.tasks := RemoveFirst(st.tasks, task);
    st.Save();
    return Success;
  }

  /** `task list`: the rows shown, in insertion order; nothing changes. */
  method TaskList(st: Store) returns (rows: seq<Task>)
    ensures rows == st.tasks
  {
    rows := st.tasks;
  }

  // ----- Dispatch -----

  datatype UserAction = AddUser(userId: string, name: string, email: string) | RemoveUser(userId: string) | ListUsers | NoUserAction

  datatype ProjectAction =
    | AddProject(projectId: string, title: string, description: string, dueDate: string)
    | RemoveProject(projectId: string)
    | ListProjects
    | NoProjectAction

  datatype TaskAction =
    | AddTask(taskId: string, title: string, status: string, assignedTo: Option<string>, project: Option<string>)
    | RemoveTask(taskId: string)
    | ListTasks
    | NoTaskAction

  /** A parsed command line; a subcommand given without an action does nothing. */
  datatype Command = UserCommand(ua: UserAction) | ProjectCommand(pa: ProjectAction) | TaskCommand(ta: TaskAction) | NoCommand

  /** The commands that add or remove something. */
  predicate Mutates(cmd: Command)
  {
    || (cmd.UserCommand? && (cmd.ua.AddUser? || cmd.ua.RemoveUser?))
    || (cmd.ProjectCommand? && (cmd.pa.AddProject? || cmd.pa.RemoveProject?))
    || (cmd.TaskCommand? && (cmd.ta.AddTask? || cmd.ta.RemoveTask?))
  }

  /** What `user <action>` does: the outcome and the new lists, in terms of the lists before. */
  twostate predicate UserEffect(st: Store, a: UserAction, o: Outcome)
    reads st
  {
    match a
    case AddUser(id, name, email) =>
      && o == (if ValidEmail(email) then Success else Failure(InvalidEmail))
      && st.users == old(st.users) + (if o.Success? then [User(id, name, email)] else [])
      && st.projects == old(st.projects) && st.tasks == old(st.tasks)
    case RemoveUser(id) =>
      var found := FirstIndex(old(st.users), UserWithId(id));
      && o == (if found.Some? then Success else Failure(NotFound))
      && st.users == (if found.Some? then old(st.users)[..found.value] + old(st.users)[found.value + 1..] else old(st.users))
      && st.projects == old(st.projects) && st.tasks == old(st.tasks)
    case ListUsers => o == Success && unchanged(st)
    case NoUserAction => o == Success && unchanged(st)
  }

  /** What `project <action>` does: the outcome and the new lists, in terms of the lists before. */
  twostate predicate ProjectEffect(st: Store, a: ProjectAction, o: Outcome)
    reads st
  {
    match a
    case AddProject(id, title, description, dueDate) =>
      && o == (if ValidDate(dueDate) then Success else Failure(InvalidDate))
      && st.projects == old(st.projects) + (if o.Success? then [Project(id, title, description, dueDate)] else [])
      && st.users == old(st.users) && st.tasks == old(st.tasks)
    case RemoveProject(id) =>
      var found := FirstIndex(old(st.projects), ProjectWithId(id));
      && o == (if found.Some? then Success else Failure(NotFound))
      && st.projects == (if found.Some? then old(st.projects)[..found.value] + old(st.projects)[found.value + 1..] else old(st.projects))
      && st.users == old(st.users) && st.tasks == old(st.tasks)
    case ListProjects => o == Success && unchanged(st)
    case NoProjectAction => o == Success && unchanged(st)
  }

  /** What `task <action>` does: the outcome and the new lists, in terms of the lists before. */
  twostate predicate TaskEffect(st: Store, a: TaskAction, o: Outcome)
    reads st
  {
    match a
    case AddTask(id, title, status, assignedTo, project) =>
      && o == (if ValidStatus(status) then Success else Failure(InvalidStatus))
      && st.tasks == old(st.tasks) + [Task(id, title, status, CliAssignee(assignedTo), project)]
      && st.users == old(st.users) && st.projects == old(st.projects)
    case RemoveTask(id) =>
      var found := FirstIndex(old(st.tasks), TaskWithId(id));
      && o == (if found.None? then Failure(NotFound)
               else if !IsCompleteTask(old(st.tasks)[found.value]) then Failure(NotDone)
               else Success)
      && st.tasks == (if o.Success? then old(st.tasks)[..found.value] + old(st.tasks)[found.value + 1..] else old(st.tasks))
      && st.users == old(st.users) && st.projects == old(st.projects)
    case ListTasks => o == Success && unchanged(st)
    case NoTaskAction => o == Success && unchanged(st)
  }

  /** The `user` branch of `main()`. */
  method RunUser(st: Store, a: UserAction) returns (o: Outcome)
    modifies st
    ensures UserEffect(st, a, o)
    ensures ExitCode(o) == 1 ==> unchanged(st)
    ensures ExitCode(o) == 0 && (a.AddUser? || a.RemoveUser?) ==> st.Synced()
  {
    match a {
      case AddUser(id, name, email) => o := UserAdd(st, id, name, email);
      case RemoveUser(id) => o := UserRemove(st, id);
      case ListUsers => var rows := UserList(st); o := Success;
      case NoUserAction => o := Success;
    }
  }

  /** The `project` branch of `main()`. */
  method RunProject(st: Store, a: ProjectAction) returns (o: Outcome)
    modifies st
    ensures ProjectEffect(st, a, o)
    ensures ExitCode(o) == 1 ==> unchanged(st)
    ensures ExitCode(o) == 0 && (a.AddProject? || a.RemoveProject?) ==> st.Synced()
  {
    match a {
      case AddProject(id, title, description, dueDate) => o := ProjectAdd(st, id, title, description, dueDate);
      case RemoveProject(id) => o := ProjectRemove(st, id);
      case ListProjects => var rows := ProjectList(st); o := Success;
      case NoProjectAction => o := Success;
    }
  }

  /** The `task` branch of `main()`. */
  method RunTask(st: Store, a: TaskAction) returns (o: Outcome)
    modifies st
    ensures TaskEffect(st, a, o)
    ensures ExitCode(o) == 1 ==> st.persisted == old(st.persisted)
    ensures ExitCode(o) == 1 && !a.AddTask? ==> unchanged(st)
    ensures ExitCode(o) == 0 && (a.AddTask? || a.RemoveTask?) ==> st.Synced()
    ensures forall t :: multiset(st.tasks)[t] < multiset(old(st.tasks))[t] ==> IsCompleteTask(t)
  {
    match a {
      case AddTask(id, title, status, assignedTo, project) => o := TaskAdd(st, id, title, status, assignedTo, project);
      case RemoveTask(id) => o := TaskRemove(st, id);
      case ListTasks => var rows := TaskList(st); o := Success;
      case NoTaskAction => o := Success;
    }
  }

  /**
   * The body of `main()` after argument parsing: run the handler the command
   * names, which decides the outcome and the new lists. Across all commands:
   * a run that exits with status 1 never writes the file, and leaves the
   * lists as they were except for the task a failed `task add` already
   * appended; a successful change is always saved; listing changes nothing;
   * and a task leaves the list only when it is done.
   */
  method Run(st: Store, cmd: Command) returns (o: Outcome)
    modifies st
    ensures cmd.UserCommand? ==> UserEffect(st, cmd.ua, o)
    ensures cmd.ProjectCommand? ==> ProjectEffect(st, cmd.pa, o)
    ensures cmd.TaskCommand? ==> TaskEffect(st, cmd.ta, o)
    ensures ExitCode(o) == 1 ==> st.persisted == old(st.persisted)
    ensures ExitCode(o) == 1 && !(cmd.TaskCommand? && cmd.ta.AddTask?) ==> unchanged(st)
    ensures ExitCode(o) == 0 && Mutates(cmd) ==> st.Synced()
    ensures !Mutates(cmd) ==> o == Success && unchanged(st)
    ensures forall t :: multiset(st.tasks)[t] < multiset(old(st.tasks))[t] ==> IsCompleteTask(t)
  {
    match cmd {
      case UserCommand(action) => o := RunUser(st, action);
      case ProjectCommand(action) => o := RunProject(st, action);
      case TaskCommand(action) => o := RunTask(st, action);
      case NoCommand => o := Success;
    }
  }

  /**
   * A task added from the command line carries a user id, never a User, so it
   * shows up in no user's `tasks` however the store looked before.
   */
  lemma CliTaskNotInUserTasks(allTasks: seq<Task>, id: string, title: string, status: string,
                              assignedTo: Option<string>, project: Option<string>, u: User)
    ensures UserTasks(allTasks + [Task(id, title, status, CliAssignee(assignedTo), project)], u) == UserTasks(allTasks, u)
  {
    UserTasksAfterNewTask(allTasks, Task(id, title, status, CliAssignee(assignedTo), project), u);
  }
}
