# A verified model of the TaskManager task store

TaskManager (`main.py`) is a console task manager. It keeps a list of task
records in memory. Each task has an id, name, description, priority, status,
category, creation date, due date and tags. The user can:

- add a task;
- edit a task;
- delete a task after confirming;
- list all tasks, only the pending ones or only the completed ones;
- search the task names;
- see counts per status and per priority.

On start-up it loads the list from JSON. When there is no JSON file, it
migrates a legacy text file that holds one `|`-separated task per line.

This project models that core in Dafny and proves properties of it.

- `wrappers.dfy`: module `Wrappers`, the `Option` type.
- `text.dfy`: module `Text`, the Python string operations the program uses:
  - `str.strip()` with CPython's whitespace set;
  - `split` on one character, and `join`;
  - `lower()`;
  - substring `in`.
- `tasks.dfy`: module `Tasks`, the pure parts of the operations:
  - the task record;
  - the priority and status menus;
  - the category default and tag parsing;
  - id assignment (`max(...) + 1`) and the `next(...)` lookup by id;
  - the edit of one record;
  - Python's `list.remove`.
- `query.dfy`: module `Query`, the read-only operations:
  - the filters of the listing, and the search command;
  - the statistics counts.
- `migration.dfy`: module `Migration`, the legacy line format and the
  migration loop as a function.
- `store.dfy`: module `Store`, the class `TaskStore`:
  - its field `tasks` stands for the global list `tareas`;
  - its methods `Add`, `Edit`, `Delete` and `Migrate` change that field in
    place, as `agregar_tarea`, `editar_tarea`, `eliminar_tarea` and
    `migrar_desde_txt` change the list;
  - three small client methods exercise add, edit and delete on a one-task
    store.

## Mapping the program onto the model

Console input becomes parameters that hold the text the user typed.

- The id prompt of edit and delete becomes an `Option<int>`. `None` is an
  answer that `int()` rejects.
- The clock reading `datetime.now()` becomes the parameter `now` of `Add`.
- The open legacy file becomes the sequence of its lines, passed to `Migrate`.

Where the program prints a message and returns, the model returns an outcome
value: `EmptyName`, `InvalidId`, `NotFound`, `Cancelled` and so on.

Statuses and priorities stay the literal strings the program stores, for
example "Pendiente" and "Alta". Migration copies them from the file without
checking them, so the model cannot use an enumeration.

## Behaviour of the code worth knowing

- **Deleted ids can be reused.** A new task gets `max(ids) + 1`
  (`main.py:199`). Deleting the task with the largest id therefore makes
  its id come back (`Tasks.DeletedMaxIdIsReused`). Ids only stay unique
  (`Store.TaskStore.Add`, `Store.TaskStore.Delete`).
- **Migration numbers tasks by list length.** The migrated id is
  `len(tareas) + 1` (`main.py:52`), not the maximum. Migration only runs
  while the list is empty (`main.py:22-30`), and there the ids are 1..n
  (`Migration.MigrateIntoEmpty`). Into a list whose ids have a gap, the same
  rule would repeat an id (`Migration.LengthBasedIdCanCollide`).
- **Names can be empty after migration.** Adding refuses a blank name
  (`main.py:161`), but migration takes the first field as written
  (`main.py:53`), and that field can be empty
  (`Migration.MigrationAcceptsEmptyName`).
- **Status words are case-sensitive.** The listing compares its filter with
  the literal words "pendientes" and "completadas", case-sensitively
  (`main.py:100-105`). Any other text is a case-insensitive name search.
  One consequence: searching for the word "pendientes" lists the pending
  tasks, not the tasks whose name holds that word (`Query.SearchForStatusWord`,
  `Query.StatusWordsAreCaseSensitive`).

## Model

| member | source | states |
|---|---|---|
| Text.Strip | main.py:159 | the result has no whitespace at either end, and is no longer than the input |
| Text.StripIsTrimmedSlice | main.py:159 | the result is a contiguous slice of the input, and everything before and after that slice is whitespace |
| Text.StripEmptyIffBlank | main.py:161 | stripping gives the empty string exactly when every character is whitespace, which is the test behind "the name cannot be empty" |
| Text.StripStripped | main.py:159 | stripping a string that has no surrounding whitespace leaves it unchanged |
| Text.Split | main.py:186 | splitting on a separator always gives at least one piece, and no piece holds the separator |
| Text.JoinSplit | main.py:186 | joining the pieces of a split with the same separator gives back the original string |
| Text.SplitJoin | main.py:47 | splitting a join of separator-free parts gives back exactly those parts |
| Text.Lower | main.py:108 | the same length, no ASCII capital left, each capital replaced by its small letter (code point + 32) and every other character kept |
| Text.LowerIdempotent | main.py:108 | lower-casing an already lower-cased string changes nothing |
| Text.Contains | main.py:108 | the empty string and the string itself occur in every string; a longer string never occurs |
| Tasks.PriorityOnAdd | main.py:173-177 | the new task's priority is High exactly for the answer "1" and Low exactly for "3"; every other answer, "2" or off the menu, gives Medium |
| Tasks.PriorityChoice | main.py:274-278 | an edit picks a priority exactly when the stripped answer is "1", "2" or "3", mapped to High, Medium, Low |
| Tasks.StatusChoice | main.py:262-267 | an edit picks a status exactly when the stripped answer is "1" to "4", mapped to Pending, In progress, Completed, Cancelled |
| Tasks.AddAndEditPriorityDiffer | main.py:177 | adding reads the same menu as editing, but an off-menu answer means Medium when adding and "leave it" when editing |
| Tasks.CategoryOrDefault | main.py:180 | the category is the stripped answer when that is non-empty, and "General" otherwise; it is never empty |
| Tasks.KeepNonBlank | main.py:186 | the strings kept are exactly the stripped forms of the pieces that are not blank; each is non-empty and stripped, and there are no more of them than pieces |
| Tasks.KeepNonBlankOne | main.py:186 | the definition's rule for one piece, stated for use beside KeepNonBlankAppend: a single piece is kept, as its stripped form, exactly when it is not blank |
| Tasks.KeepNonBlankAppend | main.py:186 | pieces are decided one by one in order: keeping the pieces of a concatenation is concatenating what is kept of each part (with KeepNonBlankOne this fixes the result, its order and its repetitions) |
| Tasks.ParseTags | main.py:184-186 | the tags are exactly the stripped, non-blank pieces between commas of the stripped answer; every tag is non-empty, has no surrounding whitespace and holds no comma |
| Tasks.ParseTagsTrimsPieces | main.py:184-186 | an answer "a, b" of two clean tags parses to exactly the tags a and b, the space after the comma trimmed |
| Tasks.ParseTagsJoin | main.py:184-186 | clean tags written out comma-separated parse back to the same tags in the same order (round trip) |
| Tasks.MaxId | main.py:199 | the value is at least every id in the list, and some task has it |
| Tasks.NextId | main.py:199 | the new id is larger than every id in use; it is 1 for an empty list, and one past an existing id otherwise |
| Tasks.AddKeepsIdsUnique | main.py:196-211 | appending a task with the next id keeps all ids distinct |
| Tasks.DenseNextId | main.py:199 | with ids 1..n the next id is n + 1, so tasks created from an empty list are numbered 1, 2, 3, ... in creation order |
| Tasks.DeletedMaxIdIsReused | main.py:199 | with ids 1 and 2, the next id is 3; after deleting task 2, the next id is 2 again |
| Tasks.FindById | main.py:233 | the result is the first position holding the id; there is none exactly when no task has that id |
| Tasks.FoundIsOnly | main.py:233 | when ids are unique, the task found is the only one with that id |
| Tasks.EditTask | main.py:246-278 | id, category, dates and tags stay the same; name and description change only to a non-blank stripped answer, and always do when the answer is non-blank; status and priority become the chosen menu entry, or stay as they were |
| Tasks.EditWithBlankAnswers | main.py:244-278 | blank name and description answers together with off-menu status and priority answers leave the task unchanged |
| Tasks.EditIdempotent | main.py:246-278 | repeating an edit with the same answers changes nothing more |
| Tasks.EditKeepsIdsUnique | main.py:246-278 | editing one task keeps the ids of the list distinct |
| Tasks.ListRemove | main.py:317 | `list.remove` shortens the list by one and removes exactly one copy of the element from its multiset of tasks |
| Tasks.RemoveFound | main.py:307-317 | removing the task found by id (the first with that id) removes exactly that position and keeps the order of the rest |
| Tasks.RemoveKeepsIdsUnique | main.py:317 | removing one task keeps the ids distinct, and its id is no longer in the list |
| Query.Matches | main.py:102-108 | the per-task test of each comprehension: no filter keeps every task, an empty term matches every name, and a term equal to the name up to case matches it; FilterCases gives each case in full |
| Query.SelectorOf | main.py:96-108 | no filter or an empty one selects everything; the two literal words select a status; any other text selects a name search |
| Query.Select | main.py:102-108 | the selection is no longer than the list, and every task in it matches |
| Query.SelectExact | main.py:102-108 | the selection keeps list order, holds exactly the matching tasks, each as often as the list does |
| Query.Count | main.py:351-358 | `len` of a comprehension: at most the list length, 0 exactly when no task matches, the full length exactly when every task matches; SelectExact gives which tasks are counted |
| Query.SelectAll | main.py:97 | with no effective filter the listing is the whole list in its order |
| Query.FilterCases | main.py:96-108 | the four cases of the listing filter: everything; status Pending; status Completed; names containing the term, ignoring case |
| Query.NameSearchIgnoresCase | main.py:108 | two search terms that lower-case alike select the same tasks |
| Query.SearchLowerCasedTerm | main.py:108 | searching for a term or for its lower-cased form gives the same tasks |
| Query.StatusWordsAreCaseSensitive | main.py:100-108 | "pendientes" selects by status, but "PENDIENTES" searches names: a completed task named "pendientes" is listed by the second spelling only |
| Query.Show | main.py:91-113 | "no tasks" exactly when the list is empty; "no matches" exactly when the list is not empty and no task matches; otherwise non-empty rows that hold exactly the matching tasks, in list order, each as many times as the list holds it |
| Query.Search | main.py:330-333 | nothing is shown exactly when the answer is all whitespace; otherwise the listing with the stripped answer as its filter |
| Query.SearchForStatusWord | main.py:330-333 | searching for "pendientes" lists the pending tasks, and reports no matches exactly when none is pending |
| Query.DisjointCountsBound | main.py:351-358 | three filters that never keep the same task together keep at most all the tasks between them |
| Query.Statistics | main.py:343-358 | no report for an empty list; otherwise the total is the list length, each of the six counts is the size of the selection for its status (Pending, In progress, Completed) or priority (High, Medium, Low), and neither the three status counts nor the three priority counts add up to more than the total |
| Query.StatisticsAgreeWithListings | main.py:351-352 | the pending and completed counts are the lengths of the pending and completed listings |
| Query.AddRaisesPendingCount | main.py:203 | a new task is pending, so adding one raises the pending count by one |
| Migration.LegacyFields | main.py:47 | a legacy line always yields at least one field |
| Migration.LegacyTask | main.py:51-61 | the task of an accepted line has the given id, category "General", empty description and due date and no tags; its name, priority, status and creation date are delimiter-free and, joined by the delimiter, are either the whole stripped line or the part of it before a delimiter, so they are its first four fields as written |
| Migration.MigrateLines | main.py:45-62 | the loop as a function; its meaning is given by MigrateLinesAppends and MigrateLinesStep |
| Migration.MigrateLinesStep | main.py:45-62 | one step of the definition, stated for the loop invariant of Store.TaskStore.Migrate: reading one more line appends that line's task, numbered one past the current length, when it is accepted, and adds nothing otherwise |
| Migration.AcceptedLines | main.py:49 | there are no more kept lines than lines, and every line kept has at least four fields |
| Migration.AcceptedLinesMembers | main.py:49 | every line with at least four fields is kept, and no other line |
| Migration.AcceptedLinesAppend | main.py:45-49 | lines are kept or skipped one by one, in file order: the kept lines of a concatenation are those of each part, in order |
| Migration.MigrateLinesAppends | main.py:45-62 | migration keeps the existing tasks and appends one task per line with at least four fields, in file order, each numbered one past the length of the list before it and equal to LegacyTask of its line, whose contract fixes the fields it takes |
| Migration.SkippedLineAddsNothing | main.py:49 | a line with fewer than four fields adds nothing |
| Migration.MigrateIntoEmpty | main.py:45-62 | migrating K accepted lines into the empty list gives K tasks numbered 1..K in file order |
| Migration.MigrateKeepsDenseIds | main.py:52 | when the ids are 1..n, migration keeps them consecutive from 1, hence distinct |
| Migration.LengthBasedIdCanCollide | main.py:52 | migrating one line into a list with ids 1 and 3 gives the new task id 3 again |
| Migration.FieldsOfJoin | main.py:47 | a stripped line made of delimiter-free fields joined by the delimiter reads back as exactly those fields |
| Migration.MigrateExampleLine | main.py:51-61 | the line made of a name, "Alta", "Pendiente" and "01/01/2024" joined by the delimiter migrates into the empty list as task 1 with that name, priority, status and date, empty description and due date, no tags and category "General" |
| Migration.MigrationAcceptsEmptyName | main.py:53 | a line with an empty first field becomes a task with an empty name |
| Store.TaskStore.constructor | main.py:13 | the store starts with no tasks |
| Store.TaskStore.Add | main.py:151-212 | a blank name adds nothing; otherwise exactly one task is appended, with the next id, the stripped answers, the chosen priority, status Pending, the category or its default, the parsed tags and the given timestamp; distinct ids stay distinct, and ids 1..n become 1..n + 1 |
| Store.TaskStore.Edit | main.py:214-287 | an empty store, a non-numeric id or an unknown id change nothing and say so; otherwise only the first task with the id is replaced by its edit; distinct ids stay distinct |
| Store.TaskStore.Delete | main.py:289-323 | an empty store, a non-numeric id or an unknown id change nothing; a confirmation that lower-cases to "s" removes exactly the first task with the id, and any other answer cancels; distinct ids stay distinct, and the id is then gone |
| Store.TaskStore.Migrate | main.py:45-62 | the loop over the lines leaves the store equal to the migration function of the old store and the lines; ids 1..n stay consecutive |
| Store.AddToEmptyStore | main.py:151-212 | adding a stripped name with priority "1" to an empty store gives task 1 with that name, High, Pending, "General" and the given timestamp |
| Store.CompleteTaskOne | main.py:262-267 | status answer "3" with every other answer blank marks task 1 Completed and changes nothing else |
| Store.DeleteTaskOne | main.py:314-320 | "n" keeps task 1, an id no task has changes nothing, and "S" deletes it |

## Left out

- Console output: the menu (`main.py:378-394`), the messages, and the table
  drawn by `mostrar_tareas` (`main.py:115-149`). The model returns what is
  shown as a value (`Query.Show`) instead. The listing each of edit and
  delete prints before asking for the id is presentation only.
- The main loop (`main.py:396-439`). It only dispatches on the menu digit to
  the operations above.
- Persistence. Reading and writing `tareas.json` (`main.py:15-33`,
  `main.py:69-82`), the existence check and opening of `tareas.txt`
  (`main.py:42-43`), and the save after migration (`main.py:63`) are file
  I/O. The model starts from a list of records and is given the legacy file
  as its lines.
- Records that are not well-formed. `json.load` can produce records with
  missing keys or ids that are not integers. The model's records always
  have every field, so the catch-all handler of edit (`main.py:285-287`)
  has nothing to catch, and the `.get` fallbacks in the display are not
  needed.
- `int()` parsing of the id. Its result is the `Option<int>` parameter, with
  `None` for the `ValueError` cases (`main.py:282-284`, `main.py:322-323`).
- The clock. `datetime.now().strftime(...)` (`main.py:193`) is the `now`
  parameter of `Add`.
- Query.Statistics: the percentages (`main.py:368-370`) are floating-point
  and only printed, so the report holds the counts only.
- Text.Lower: lower-cases the ASCII letters only. Python's `str.lower()` also
  lower-cases other alphabets; the name search agrees with it on ASCII text.
- Text.Strip: uses CPython's fixed whitespace set for `str.strip()`, written
  out as code points, not looked up in a Unicode database.
