# Project-management CLI tracker — a verified model

The tracker is a small command-line tool. It keeps users, projects and tasks. Each entity appends itself to a class-level list when it is constructed (`User.all_users`, `Project.all_projects`, `Task.all_tasks`). Three derived views filter those lists (`User.tasks`, `User.projects`, `Project.users`). The command line offers `user`, `project` and `task`, each with `add`, `remove` and `list`. `user add` and `project add` validate one field first, then construct the entity and save:
- the email of a user;
- the `YYYY-MM-DD` due date of a project.

`task add` works the other way round. It constructs the task first, which already appends it to the in-memory list. Only then does it check the status (`todo`, `in-progress` or `done`), and it saves only when the status is valid.

A `remove` looks up the first entity with the given id and fails when there is none. A task must also be `done` before it can be removed. After removing the entity it saves. Every failed check ends the run with exit status 1.

The model has five modules:

- `Wrappers` (wrappers.dfy): the `Option` type.
- `Seqs` (seqs.dfy): the list idioms the source is built from.
  - A comprehension with a condition (`Filter`).
  - A field projection (`Map`).
  - The `next(...)` first-match search: a specification function `FirstIndex`, and the loop `FindFirst` proved against it.
  - `list.remove` (`RemoveFirst`).
- `Validation` (validation.dfy): the four validators of `utils/helperfunctions.py`.
  - The email regular expression is defined twice: as a pattern (`MatchesEmailPattern`) and as a scanner (`ValidEmail`). The model proves the two equal.
  - `strptime("%Y-%m-%d")` becomes a parser (`ParseDate`). It is proved to accept exactly the spellings of calendar dates, and to return the date spelled.
- `Models` (models.dfy): the entities of `models/Classes.py`.
  - The three class lists are the fields of a `Store` class. Its constructor methods append to them in place.
  - The views are functions of the lists.
  - The store also remembers what was last saved (`persisted`), so a save is recorded as a snapshot of the three lists.
- `Cli` (cli.dfy): the handlers of `main()` as methods that modify a `Store`, plus the dispatcher `Run`.

Three places in the code do not line up, and the model resolves each one:
- `main.py` reads `.id` on every entity, but `models/Classes.py` never assigns one. Ids are given at construction.
- `main.py:194` passes four arguments to `Task`, whose constructor takes three. A task here also carries an optional project id.
- `save_to_json`/`load_from_json` are imported but defined nowhere in the code. Saving is modelled as recording a snapshot.

## Model

| member | source | states |
|---|---|---|
| Validation.ValidEmail | utils/helperfunctions.py:7-11 | accepts exactly the strings matching `^[a-zA-Z0-9._%+-]+@[a-zA-Z0-9.-]+\.[a-zA-Z]{2,}$` under `re.match`, including one trailing newline that `$` lets through |
| Validation.EmailBodyMatches | utils/helperfunctions.py:10 | the left-to-right scan (first `@`, last `.` of the domain) accepts a string iff some split into local part, `@`, domain, `.`, letters fits the pattern |
| Validation.PatternShape | utils/helperfunctions.py:10 | every match is a non-empty local part from `[A-Za-z0-9._%+-]`, `@`, a non-empty domain from `[A-Za-z0-9.-]`, `.` and two or more letters, optionally followed by one newline; it holds exactly one `@` |
| Validation.AcceptedEmailShape | utils/helperfunctions.py:10-11 | every email `validate_email` accepts is glued from those named parts and holds exactly one `@`, preceded by local characters only |
| Validation.EmailAnchoredAtStart | utils/helperfunctions.py:10-11 | a string whose first character is outside the local-part class is rejected (`^` and `re.match` anchor at the start) |
| Validation.NoAtRejected | utils/helperfunctions.py:10-11 | a string without `@` is rejected |
| Validation.SampleEmailAccepted | utils/helperfunctions.py:10-11 | `"testuser@example.com"` is accepted, also with a trailing newline |
| Validation.NotAnEmailRejected | utils/helperfunctions.py:10-11 | `"not-an-email"`, which has no `@`, is rejected |
| Validation.LeadingAtRejected | utils/helperfunctions.py:10-11 | `"@example.com"`, with an empty local part, is rejected |
| Validation.DaysInMonth | utils/helperfunctions.py:16 | the length of every month: 30 days exactly for April, June, September and November; 31 exactly for the other seven non-February months; 29 exactly for February of a Gregorian leap year; 28 otherwise |
| Validation.YearField | utils/helperfunctions.py:16 | `%Y` accepts exactly four ASCII digits, giving a value in 0..9999 |
| Validation.MonthField | utils/helperfunctions.py:16 | `%m` reads the text as month `m` (1..12) exactly when it is `m` zero-padded to two digits, or `m` as one digit when `m` is below 10 |
| Validation.DayField | utils/helperfunctions.py:16 | `%d` reads the text as day `d` (1..31) exactly when it is `d` zero-padded to two digits, or, when `d` is below 10, `d` as one digit alone or after a space |
| Validation.ParseDate | utils/helperfunctions.py:13-19 | total: returns a date or None and never fails. A date it returns is a calendar date (year 1..9999, month 1..12, day within that month). The input then has 8 to 10 characters, four digits and a `-` |
| Validation.ParseDateExact | utils/helperfunctions.py:13-19 | the parser returns `d` exactly when `d` is a calendar date and the text is the four-digit year, `-`, a spelling of the month, `-` and a spelling of the day, with nothing after it |
| Validation.ParsedDateIsSpelled | utils/helperfunctions.py:13-19 | every accepted text spells the date the parser returns |
| Validation.SpelledDateParses | utils/helperfunctions.py:13-19 | every spelling of a calendar date is accepted and denotes that date |
| Validation.ValidDate | utils/helperfunctions.py:13-19 | `validate_date` holds exactly when the text spells some calendar date; it answers for every text |
| Validation.YearFieldIsPad4 | utils/helperfunctions.py:16 | four digits read by `%Y` are the zero-padded spelling of the year they stand for |
| Validation.FormatThenParse | utils/helperfunctions.py:13-19 | every calendar date written as zero-padded `YYYY-MM-DD` parses back to itself |
| Validation.SampleDueDateAccepted | utils/helperfunctions.py:13-19 | `"2024-12-31"` parses as 31 December 2024 |
| Validation.LeapDayAccepted | utils/helperfunctions.py:13-19 | the leap day `"2024-02-29"` parses as 29 February 2024 |
| Validation.AprilThirtyFirstRejected | utils/helperfunctions.py:13-19 | `"2024-04-31"` is rejected: April has 30 days |
| Validation.UnpaddedDateAccepted | utils/helperfunctions.py:16 | `"2024-1-5"` is valid and means 5 January 2024, as `strptime` allows |
| Validation.MonthThirteenRejected | utils/helperfunctions.py:13-19 | month 13 is rejected, whatever the year and day text |
| Validation.CommonYearLeapDayRejected | utils/helperfunctions.py:13-19 | `"2023-02-29"` is rejected: 2023 is not a leap year |
| Validation.AcceptedEndsWithDigit | utils/helperfunctions.py:13-19 | every text `validate_date` accepts is non-empty and ends with a digit of the day |
| Validation.TrailingTextRejected | utils/helperfunctions.py:13-19 | any text followed by one character that is not a digit (a newline, a space, a letter) is rejected, because the whole text must be consumed |
| Validation.StatusExamples | utils/helperfunctions.py:21-24 | `todo`, `in-progress` and `done` are valid; `completed`, `in_progress`, `Done` and the empty string are not |
| Validation.ValidStatus | utils/helperfunctions.py:21-24 | accepts exactly `todo`, `in-progress` and `done`, spelled exactly |
| Validation.IsCompleteTask | utils/helperfunctions.py:26-28 | the "done" check; a task that passes it has a valid status |
| Models.Store.NewUser | models/Classes.py:5-8 | stores name and email verbatim and appends exactly that user at the end of the user list |
| Models.Store.NewProject | models/Classes.py:19-23 | stores title, description and due date verbatim and appends exactly that project |
| Models.Store.NewTask | models/Classes.py:30-34 | stores the fields verbatim, with no status check, and appends exactly that task |
| Models.NewUsersInOrder | models/Classes.py:8 | after constructing A and then B, the list is the old one followed by A, then B |
| Models.Store.Load | main.py:76 | at start the lists hold what the file holds, or are empty when there is no file |
| Models.Store.Save | main.py:144 | after a save the file holds exactly the current lists, which are unchanged |
| Models.UserTasks | models/Classes.py:13-15 | `User.tasks` is the subsequence of all tasks assigned to the user: membership iff assigned, with the same multiplicities |
| Models.UserTasksAfterNewTask | models/Classes.py:14-15 | a new task extends its assignee's `tasks` at the end and leaves every other user's unchanged |
| Models.AssigneesOfAllTasks | models/Classes.py:26 | the inner filter `task in Task.all_tasks` keeps every task |
| Models.ProjectUsers | models/Classes.py:24-26 | `Project.users` is the subsequence of all users assigned to some task, independent of the project |
| Models.UserProjects | models/Classes.py:9-11 | `User.projects` is every project when the user is listed and assigned somewhere, and no project otherwise |
| Models.IdAssignmentsAreInvisible | main.py:194 | while no task holds a User as its assignee, every `User.tasks` and `Project.users` is empty |
| Seqs.Filter | models/Classes.py:15 | a comprehension with a condition keeps exactly the satisfying elements, with their multiplicities and order |
| Seqs.FilterAppend | models/Classes.py:15 | filtering a list with an element appended filters the old list and then the new element |
| Seqs.FirstIndex | main.py:151 | the first position satisfying the condition, or None exactly when no element does |
| Seqs.FindFirst | main.py:151 | the linear search of `next(...)` returns that first position |
| Seqs.RemoveFirst | main.py:155 | `list.remove` takes one occurrence of the element out of the multiset and shortens the list by one |
| Seqs.RemoveFirstAt | main.py:155 | when the element first occurs at `i`, removal yields the list without position `i`, the rest in order |
| Cli.ExitCode | main.py:142 | a failed run exits with status 1, a successful one with 0; `Run`'s contract is stated in these terms |
| Cli.CliAssignee | main.py:194 | `--assigned-to` is stored as the given id text or None, never as a User |
| Cli.UserAdd | main.py:139-149 | an invalid email fails and changes nothing; otherwise exactly the new user is appended and the store saved |
| Cli.UserRemove | main.py:150-161 | an unknown id fails and changes nothing; otherwise exactly the first user with the id is removed, the rest kept in order, and the store saved |
| Cli.UserList | main.py:162-163 | listing shows the user list and changes nothing |
| Cli.ProjectAdd | main.py:166-176 | an invalid due date fails and changes nothing; otherwise exactly the new project is appended and the store saved |
| Cli.ProjectRemove | main.py:177-188 | an unknown id fails and changes nothing; otherwise exactly the first project with the id is removed and the store saved |
| Cli.ProjectList | main.py:189-190 | listing shows the project list and changes nothing |
| Cli.TaskAdd | main.py:193-203 | the task is appended in memory before its status is checked; an invalid status fails without saving, so the file keeps what it had |
| Cli.TaskRemove | main.py:204-218 | unknown id fails, a found task not `done` fails, both with no change; otherwise exactly that task is removed and the store saved; no task that is not done ever leaves |
| Cli.TaskList | main.py:219-220 | listing shows the task list and changes nothing |
| Cli.RunUser | main.py:138-163 | `user add`, `user remove` and `user list` each give exactly their handler's outcome and new lists (the two-state predicate `UserEffect`); a failure (exit status 1) changes nothing; a successful add or remove is saved |
| Cli.RunProject | main.py:165-190 | the same for `project`, whose outcomes and new lists are given by `ProjectEffect` |
| Cli.RunTask | main.py:192-220 | the same for `task` (`TaskEffect`). A failed `task add` keeps the file as it was, though the task stays in memory; only done tasks ever leave the list |
| Cli.Run | main.py:137-223 | each command gets exactly its subcommand's effect: `UserEffect`, `ProjectEffect` or `TaskEffect`. An exit with status 1 never writes the file, and leaves the lists as they were, except for the task a failed `task add` appended. Every successful change is saved. Listing, or a missing command, changes nothing. Only done tasks ever leave the task list |
| Cli.CliTaskNotInUserTasks | main.py:194 | a task added from the command line never changes any user's `tasks` |

## Left out

- Argument parsing (argparse) is not modelled. A parsed command line is the `Cli.Command` value.
- Output rendering is not modelled: the rich tables, panels and messages (`display_users`, `display_projects`, `display_tasks`). A `list` action returns the rows it would show. The status colours of `display_tasks` test `completed` and `in_progress`, which no valid status equals. They are cosmetic and not modelled.
- JSON persistence is not modelled. `save_to_json` and `load_from_json` are not defined in the code. Their file is the `persisted` snapshot, and a load is given the file's contents (or None) as a parameter.
- `sys.exit(1)` becomes a `Failure` outcome that ends the handler. The process exit itself is not modelled.
- Id generation is not modelled: ids are never produced in the code, so they are constructor inputs.
- Object identity is modelled as value equality: entities are values, and `.remove` removes the first equal element. `Seqs.RemoveFirstAt` shows this removes exactly the element the id search found, because no earlier element can equal it.
- The `Task` constructor call at main.py:194 passes four arguments to a three-parameter constructor. As written it would raise `TypeError`; the model gives the task an optional project id instead.
- `assign_to`, `remove` and `assignee` are called only by the test file and do not exist on the classes. They are not modelled.
- Validation.ParseDate: digits are ASCII only. `strptime`'s `\d` also accepts other Unicode decimal digits. Locale and other `strptime` directives are not modelled.
- Validation.ValidEmail: characters are compared as code points. There is no Unicode case folding, and no `re` engine is modelled: the regular expression is written out as a predicate.
