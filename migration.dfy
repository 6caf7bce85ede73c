/**
 * Migration from the legacy text format: one task per line, fields
 * separated by `|` (name, priority, status, creation date, then anything
 * else, which is ignored).
 */
module Migration {
  import opened Text
  import opened Tasks

  const DELIMITER: char := '|'

  /** The fields of a legacy line: the stripped line split on the delimiter. */
  function LegacyFields(line: string): (r: seq<string>)
    ensures |r| >= 1
  {
    Split(Strip(line), DELIMITER)
  }

  /** A line with at least four fields becomes a task; any other line is skipped. */
  predicate Accepted(line: string) {
    |LegacyFields(line)| >= 4
  }

  /**
   * The task an accepted line becomes: name, priority, status and creation
   * date from its first four fields as written, the other fields empty and
   * the category General.
   */
  function LegacyTask(id: int, line: string): (t: Task)
    requires Accepted(line)
    ensures t.id == id && t.category == GENERAL
    ensures t.description == [] && t.due == [] && t.tags == []
    ensures DELIMITER !in t.name && DELIMITER !in t.priority
    ensures DELIMITER !in t.status && DELIMITER !in t.created
    ensures var j := Join([t.name, t.priority, t.status, t.created], DELIMITER);
            j == Strip(line) || j + [DELIMITER] <= Strip(line)
  {
    var f := LegacyFields(line);
    FirstFourFields(line);
    Task(id, f[0], "", f[1], f[2], GENERAL, f[3], "", [])
  }

  /** The first four fields of an accepted line, joined, are the whole line or end just before a delimiter. */
  lemma FirstFourFields(line: string)
    requires Accepted(line)
    ensures var f := LegacyFields(line); var j := Join([f[0], f[1], f[2], f[3]], DELIMITER);
            j == Strip(line) || j + [DELIMITER] <= Strip(line)
  {
    var f := LegacyFields(line);
    JoinSplit(Strip(line), DELIMITER);
    assert f[..4] == [f[0], f[1], f[2], f[3]];
    if |f| == 4 {
      assert f[..4] == f;
    } else {
      JoinPrefix(f, 4, DELIMITER);
    }
  }

  /**
   * The store after the loop over the file has read `lines`: each accepted
   * line appends a task numbered one past the current length.
   */
  function MigrateLines(ts: seq<Task>, lines: seq<string>): (r: seq<Task>)
    decreases |lines|
  {
    if lines == [] then ts
    else
      var before := MigrateLines(ts, lines[..|lines| - 1]);
      var line := lines[|lines| - 1];
      if Accepted(line) then before + [LegacyTask(|before| + 1, line)] else before
  }

  /** Reading one more line: an accepted line appends its task, any other line adds nothing. */
  lemma MigrateLinesStep(ts: seq<Task>, lines: seq<string>, i: nat)
    requires i < |lines|
    ensures var before := MigrateLines(ts, lines[..i]);
            MigrateLines(ts, lines[..i + 1])
            == if Accepted(lines[i]) then before + [LegacyTask(|before| + 1, lines[i])] else before
  {
    assert lines[..i + 1][..i] == lines[..i];
  }

  /** The accepted lines of the file, in file order. */
  function AcceptedLines(lines: seq<string>): (r: seq<string>)
    ensures |r| <= |lines|
    ensures forall k :: 0 <= k < |r| ==> Accepted(r[k])
    decreases |lines|
  {
    if lines == [] then []
    else
      var before := AcceptedLines(lines[..|lines| - 1]);
      var line := lines[|lines| - 1];
      if Accepted(line) then before + [line] else before
  }

  /** Every accepted line of the file is kept, and no other line. */
  lemma {:induction false} AcceptedLinesMembers(lines: seq<string>)
    ensures forall line :: line in AcceptedLines(lines) <==> line in lines && Accepted(line)
    decreases |lines|
  {
    if lines != [] {
      var init := lines[..|lines| - 1];
      AcceptedLinesMembers(init);
      assert lines == init + [lines[|lines| - 1]];
    }
  }

  /** Lines are kept or skipped one by one, in file order. */
  lemma {:induction false} AcceptedLinesAppend(a: seq<string>, b: seq<string>)
    ensures AcceptedLines(a + b) == AcceptedLines(a) + AcceptedLines(b)
    decreases |b|
  {
    if b == [] {
      assert a + b == a;
    } else {
      var init := b[..|b| - 1];
      assert (a + b)[..|a + b| - 1] == a + init;
      assert (a + b)[|a + b| - 1] == b[|b| - 1];
      AcceptedLinesAppend(a, init);
    }
  }

  /**
   * `r` is `ts` followed by one task per line of `acc`, in order, the k-th
   * numbered one past the length of the store before it.
   */
  predicate AppendsTasksFor(ts: seq<Task>, acc: seq<string>, r: seq<Task>)
    requires forall k :: 0 <= k < |acc| ==> Accepted(acc[k])
  {
    && |r| == |ts| + |acc|
    && r[..|ts|] == ts
    && forall k :: 0 <= k < |acc| ==> r[|ts| + k] == LegacyTask(|ts| + k + 1, acc[k])
  }

  /**
   * Migration keeps the tasks already present and appends one task per
   * accepted line, in file order, the k-th numbered one past the length of
   * the store before it.
   */
  lemma {:induction false} MigrateLinesAppends(ts: seq<Task>, lines: seq<string>)
    ensures AppendsTasksFor(ts, AcceptedLines(lines), MigrateLines(ts, lines))
    decreases |lines|
  {
    if lines != [] {
      var init := lines[..|lines| - 1];
      var line := lines[|lines| - 1];
      MigrateLinesAppends(ts, init);
      var before := MigrateLines(ts, init);
      var accBefore := AcceptedLines(init);
      if Accepted(line) {
        var r := before + [LegacyTask(|before| + 1, line)];
        var acc := accBefore + [line];
        assert MigrateLines(ts, lines) == r;
        assert AcceptedLines(lines) == acc;
        assert r[..|ts|] == before[..|ts|];
        forall k | 0 <= k < |acc|
          ensures r[|ts| + k] == LegacyTask(|ts| + k + 1, acc[k])
        {
          if k < |accBefore| {
            assert r[|ts| + k] == before[|ts| + k];
          } else {
            assert acc[k] == line && |before| == |ts| + k;
          }
        }
        assert AppendsTasksFor(ts, acc, r);
      } else {
        assert MigrateLines(ts, lines) == before;
        assert AcceptedLines(lines) == accBefore;
      }
    }
  }

  /** A skipped line adds nothing. */
  lemma SkippedLineAddsNothing(ts: seq<Task>, lines: seq<string>, line: string)
    requires !Accepted(line)
    ensures MigrateLines(ts, lines + [line]) == MigrateLines(ts, lines)
  {
    assert (lines + [line])[..|lines|] == lines;
  }

  /**
   * Migrating a file of which K lines are accepted into the empty store
   * gives K tasks numbered 1..K in file order, each built from its line.
   */
  lemma MigrateIntoEmpty(lines: seq<string>)
    ensures var r := MigrateLines([], lines); var acc := AcceptedLines(lines);
            |r| == |acc| && DenseIds(r)
            && forall k :: 0 <= k < |r| ==> r[k] == LegacyTask(k + 1, acc[k])
  {
    MigrateLinesAppends([], lines);
  }

  /** Migration keeps ids 1..n numbered 1..n + K, hence unique. */
  lemma MigrateKeepsDenseIds(ts: seq<Task>, lines: seq<string>)
    requires DenseIds(ts)
    ensures DenseIds(MigrateLines(ts, lines)) && UniqueIds(MigrateLines(ts, lines))
  {
    MigrateLinesAppends(ts, lines);
    var r := MigrateLines(ts, lines);
    forall k | 0 <= k < |r|
      ensures r[k].id == k + 1
    {
      if k < |ts| {
        assert r[k] == r[..|ts|][k];
      } else {
        assert r[k] == r[|ts| + (k - |ts|)];
      }
    }
  }

  /** A line with a given name, high priority, pending, created on 1 January 2024. */
  function ExampleLine(name: string): (line: string) {
    name + [DELIMITER] + HIGH + [DELIMITER] + PENDING + [DELIMITER] + "01/01/2024"
  }

  /** That line is the join of its four fields. */
  lemma ExampleLineIsJoin(name: string)
    ensures Join([name, HIGH, PENDING, "01/01/2024"], DELIMITER) == ExampleLine(name)
  {
    var d: string, st: string, p: string := "01/01/2024", PENDING, HIGH;
    var parts := [name, p, st, d];
    assert parts[1..] == [p, st, d] && [p, st, d][1..] == [st, d] && [st, d][1..] == [d];
    assert Join([st, d], DELIMITER) == st + [DELIMITER] + d;
    assert Join([p, st, d], DELIMITER) == p + [DELIMITER] + (st + [DELIMITER] + d);
  }

  /** A line written as delimiter-free fields joined by the delimiter reads back as those fields. */
  lemma FieldsOfJoin(parts: seq<string>)
    requires |parts| >= 1 && IsStripped(Join(parts, DELIMITER))
    requires forall k :: 0 <= k < |parts| ==> DELIMITER !in parts[k]
    ensures LegacyFields(Join(parts, DELIMITER)) == parts
  {
    StripStripped(Join(parts, DELIMITER));
    SplitJoin(parts, DELIMITER);
  }

  /** The example line has no whitespace at its ends when its name has none (an empty name included). */
  lemma ExampleLineIsStripped(name: string)
    requires IsStripped(name)
    ensures IsStripped(ExampleLine(name))
  {
    var line := ExampleLine(name);
    assert line[0] == if name != [] then name[0] else DELIMITER;
    assert line[|line| - 1] == '4';
  }

  /** Its fields are the four it was made of. */
  lemma ExampleFields(name: string)
    requires IsStripped(name) && DELIMITER !in name
    ensures LegacyFields(ExampleLine(name)) == [name, HIGH, PENDING, "01/01/2024"]
  {
    ExampleLineIsJoin(name);
    ExampleLineIsStripped(name);
    FieldsOfJoin([name, HIGH, PENDING, "01/01/2024"]);
  }

  /**
   * Ids from the length, not the maximum: migrating into a store whose ids
   * have a gap hands out an id that is already taken.
   */
  lemma LengthBasedIdCanCollide(a: Task, b: Task, name: string)
    requires a.id == 1 && b.id == 3
    requires IsStripped(name) && DELIMITER !in name
    ensures var r := MigrateLines([a, b], [ExampleLine(name)]);
            |r| == 3 && r[2].id == 3 && !UniqueIds(r)
  {
    ExampleFields(name);
    assert [ExampleLine(name)][..0] == [];
    assert Accepted(ExampleLine(name));
    assert MigrateLines([a, b], []) == [a, b];
    var r := MigrateLines([a, b], [ExampleLine(name)]);
    assert r == [a, b] + [LegacyTask(3, ExampleLine(name))];
    assert r[1].id == r[2].id;
  }

  /**
   * A line such as "Clean house|Alta|Pendiente|01/01/2024" migrates into the
   * empty store as task 1 with that name, priority, status and date, empty
   * description and due date, no tags and category General.
   */
  lemma MigrateExampleLine(name: string)
    requires IsStripped(name) && DELIMITER !in name
    ensures MigrateLines([], [ExampleLine(name)])
         == [Task(1, name, "", "Alta", "Pendiente", "General", "01/01/2024", "", [])]
  {
    ExampleFields(name);
    assert [ExampleLine(name)][..0] == [];
  }

  /**
   * A line whose first field is empty is accepted, so migration can create
   * a task with an empty name, which adding a task never does.
   */
  lemma MigrationAcceptsEmptyName()
    ensures var r := MigrateLines([], [ExampleLine("")]); |r| == 1 && r[0].name == []
  {
    MigrateExampleLine("");
  }
}
