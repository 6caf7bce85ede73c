/**
 * The task store: the list of tasks the program keeps in memory and the
 * operations that change it in place (add, edit, delete, and migration from
 * the legacy file). Console prompts are replaced by parameters holding the
 * answers as typed, and the clock by the creation timestamp.
 */
module Store {
  import opened Wrappers
  import opened Text
  import opened Tasks
  import opened Migration

  /** What adding reports. */
  datatype AddOutcome = EmptyName | Added(id: int)

  /** What editing reports; a non-numeric id is `InvalidId`. */
  datatype EditOutcome = NothingToEdit | InvalidId | NotFound | Updated

  /** What deleting reports; a non-numeric id is `InvalidId`. */
  datatype DeleteOutcome = NothingToDelete | InvalidId | NotFound | Deleted | Cancelled

  class TaskStore {
    /** The tasks, in insertion order. */
    var tasks: seq<Task>

    /** A store starts empty. */
    constructor ()
      ensures tasks == []
    {
      tasks := [];
    }

    /**
     * Adds a task from the answers to the prompts. A name that is blank once
     * stripped adds nothing; otherwise one task is appended, with the next
     * id and status Pending.
     */
    method Add(nameAnswer: string, descriptionAnswer: string, priorityAnswer: string,
               categoryAnswer: string, tagsAnswer: string, dueAnswer: string, now: string)
      returns (r: AddOutcome)
      modifies this
      ensures Strip(nameAnswer) == [] ==> r == EmptyName && tasks == old(tasks)
      ensures Strip(nameAnswer) != [] ==>
        r == Added(NextId(old(tasks)))
        && tasks == old(tasks) + [Task(NextId(old(tasks)), Strip(nameAnswer), Strip(descriptionAnswer),
                                       PriorityOnAdd(priorityAnswer), PENDING,
                                       CategoryOrDefault(categoryAnswer), now, Strip(dueAnswer),
                                       ParseTags(tagsAnswer))]
      ensures UniqueIds(old(tasks)) ==> UniqueIds(tasks)
      ensures DenseIds(old(tasks)) && r.Added? ==> DenseIds(tasks) && r.id == |tasks|
    {
      var name := Strip(nameAnswer);
      if name == [] {
        return EmptyName;
      }
      var description := Strip(descriptionAnswer);
      var priority := PriorityOnAdd(priorityAnswer);
      var category := CategoryOrDefault(categoryAnswer);
      var tags := ParseTags(tagsAnswer);
      var due := Strip(dueAnswer);
      var id := NextId(tasks);
      var task := Task(id, name, description, priority, PENDING, category, now, due, tags);
      if UniqueIds(tasks) {
        AddKeepsIdsUnique(tasks, task);
      }
      if DenseIds(tasks) {
        DenseNextId(tasks);
      }
      tasks := tasks + [task];
      r := Added(id);
    }

    /**
     * Edits the first task with the given id. An empty store, a non-numeric
     * id or an id no task has changes nothing; otherwise that one task takes
     * the answers that are not blank and the menu entries chosen.
     */
    method Edit(id: Option<int>, nameAnswer: string, descriptionAnswer: string,
                statusAnswer: string, priorityAnswer: string)
      returns (r: EditOutcome)
      modifies this
      ensures old(tasks) == [] ==> r == NothingToEdit && tasks == old(tasks)
      ensures old(tasks) != [] && id.None? ==> r == EditOutcome.InvalidId && tasks == old(tasks)
      ensures old(tasks) != [] && id.Some? && FindById(old(tasks), id.value).None? ==>
        r == EditOutcome.NotFound && tasks == old(tasks)
      ensures old(tasks) != [] && id.Some? && FindById(old(tasks), id.value).Some? ==>
        var k := FindById(old(tasks), id.value).value;
        r == Updated
        && tasks == old(tasks)[k := EditTask(old(tasks)[k], nameAnswer, descriptionAnswer,
                                             statusAnswer, priorityAnswer)]
      ensures UniqueIds(old(tasks)) ==> UniqueIds(tasks)
    {
      if tasks == [] {
        return NothingToEdit;
      }
      if id.None? {
        return EditOutcome.InvalidId;
      }
      var found := FindById(tasks, id.value);
      if found.None? {
        return EditOutcome.NotFound;
      }
      var k := found.value;
      // The record found is updated field by field, then stored back in its place.
      var task := tasks[k];
      var name := Strip(nameAnswer);
      if name != [] {
        task := task.(name := name);
      }
      var description := Strip(descriptionAnswer);
      if description != [] {
        task := task.(description := description);
      }
      var status := StatusChoice(statusAnswer);
      if status.Some? {
        task := task.(status := status.value);
      }
      var priority := PriorityChoice(priorityAnswer);
      if priority.Some? {
        task := task.(priority := priority.value);
      }
      assert task == EditTask(tasks[k], nameAnswer, descriptionAnswer, statusAnswer, priorityAnswer);
      if UniqueIds(tasks) {
        EditKeepsIdsUnique(tasks, k, nameAnswer, descriptionAnswer, statusAnswer, priorityAnswer);
      }
      tasks := tasks[k := task];
      r := Updated;
    }

    /**
     * Deletes the first task with the given id once the confirmation,
     * lower-cased, is exactly "s". An empty store, a non-numeric id, an id no
     * task has or any other confirmation changes nothing.
     */
    method Delete(id: Option<int>, confirmation: string) returns (r: DeleteOutcome)
      modifies this
      ensures old(tasks) == [] ==> r == NothingToDelete && tasks == old(tasks)
      ensures old(tasks) != [] && id.None? ==> r == DeleteOutcome.InvalidId && tasks == old(tasks)
      ensures old(tasks) != [] && id.Some? && FindById(old(tasks), id.value).None? ==>
        r == DeleteOutcome.NotFound && tasks == old(tasks)
      ensures old(tasks) != [] && id.Some? && FindById(old(tasks), id.value).Some? ==>
        var k := FindById(old(tasks), id.value).value;
        if Lower(confirmation) == "s" then
          r == Deleted && tasks == old(tasks)[..k] + old(tasks)[k + 1..]
        else
          r == Cancelled && tasks == old(tasks)
      ensures r == Deleted ==> |tasks| == |old(tasks)| - 1
      ensures UniqueIds(old(tasks)) ==> UniqueIds(tasks)
      ensures UniqueIds(old(tasks)) && r == Deleted ==>
        forall j :: 0 <= j < |tasks| ==> tasks[j].id != id.value
    {
      if tasks == [] {
        return NothingToDelete;
      }
      if id.None? {
        return DeleteOutcome.InvalidId;
      }
      var found := FindById(tasks, id.value);
      if found.None? {
        return DeleteOutcome.NotFound;
      }
      var k := found.value;
      var task := tasks[k];
      if Lower(confirmation) == "s" {
        RemoveFound(tasks, k);
        if UniqueIds(tasks) {
          RemoveKeepsIdsUnique(tasks, k);
        }
        tasks := ListRemove(tasks, task);
        r := Deleted;
      } else {
        r := Cancelled;
      }
    }

    /**
     * Migrates the lines of the legacy file, in file order: each line with
     * at least four fields appends a task numbered one past the store's
     * current length; other lines are skipped.
     */
    method Migrate(lines: seq<string>)
      modifies this
      ensures tasks == MigrateLines(old(tasks), lines)
      ensures DenseIds(old(tasks)) ==> DenseIds(tasks) && UniqueIds(tasks)
    {
      var i := 0;
      while i < |lines|
        invariant 0 <= i <= |lines|
        invariant tasks == MigrateLines(old(tasks), lines[..i])
      {
        var line := lines[i];
        MigrateLinesStep(old(tasks), lines, i);
        var fields := Split(Strip(line), DELIMITER);
        assert fields == LegacyFields(line);
        if |fields| >= 4 {
          var task := Task(|tasks| + 1, fields[0], "", fields[1], fields[2], GENERAL, fields[3], "", []);
          assert task == LegacyTask(|tasks| + 1, line);
          tasks := tasks + [task];
        }
        i := i + 1;
      }
      assert lines[..i] == lines;
      if DenseIds(old(tasks)) {
        MigrateKeepsDenseIds(old(tasks), lines);
      }
    }
  }

  /** Adding a task named `name` with priority answer "1" to an empty store. */
  method AddToEmptyStore(name: string) returns (store: TaskStore)
    requires name != [] && IsStripped(name)
    ensures fresh(store) && |store.tasks| == 1
    ensures store.tasks[0] == Task(1, name, "", HIGH, PENDING, GENERAL, "14/10/2026 09:30", "", [])
  {
    StripStripped(name);
    StripStripped("1");
    assert Split("", ',') == [[]];
    store := new TaskStore();
    var added := store.Add(name, "", "1", "", "", "", "14/10/2026 09:30");
    assert added == Added(1);
  }

  /** Choosing status "3" and leaving the rest blank only marks task 1 completed. */
  method CompleteTaskOne(store: TaskStore)
    requires |store.tasks| == 1 && store.tasks[0].id == 1
    modifies store
    ensures store.tasks == [old(store.tasks[0]).(status := COMPLETED)]
  {
    StripStripped("3");
    var edited := store.Edit(Some(1), "", "", "3", "");
    assert edited == Updated;
  }

  /** Answering "n" keeps task 1, an unknown id is reported, and "S" deletes it. */
  method DeleteTaskOne(store: TaskStore)
    requires |store.tasks| == 1 && store.tasks[0].id == 1
    modifies store
    ensures store.tasks == []
  {
    assert Lower("n")[0] == 'n' && Lower("S")[0] == 's';
    var kept := store.Delete(Some(1), "n");
    assert kept == Cancelled && |store.tasks| == 1;
    var missing := store.Delete(Some(2), "s");
    assert missing == DeleteOutcome.NotFound;
    var deleted := store.Delete(Some(1), "S");
    assert deleted == Deleted;
  }
}
