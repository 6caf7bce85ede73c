/**
 * The task record and the pure pieces of the add, edit and delete
 * operations: the option tables, the category default, tag parsing, id
 * assignment, lookup by id, the edit of one record and `list.remove`.
 */
module Tasks {
  import opened Wrappers
  import opened Text

  /** One task as stored in the global list (a dict with these nine keys). */
  datatype Task = Task(
    id: int,
    name: string,
    description: string,
    priority: string,
    status: string,
    category: string,
    created: string,
    due: string,
    tags: seq<string>)

  const PENDING: string := "Pendiente"
  const IN_PROGRESS: string := "En progreso"
  const COMPLETED: string := "Completada"
  const CANCELLED: string := "Cancelada"

  const HIGH: string := "Alta"
  const MEDIUM: string := "Media"
  const LOW: string := "Baja"

  const GENERAL: string := "General"

  /** The priority menu: "1", "2", "3". */
  const PRIORITY_OPTIONS: map<string, string> := map["1" := HIGH, "2" := MEDIUM, "3" := LOW]

  /** The status menu of the edit operation: "1" to "4". */
  const STATUS_OPTIONS: map<string, string> :=
    map["1" := PENDING, "2" := IN_PROGRESS, "3" := COMPLETED, "4" := CANCELLED]

  /**
   * The priority of a newly added task: the stripped answer looked up in the
   * priority menu, Medium for any answer the menu does not list.
   */
  function PriorityOnAdd(answer: string): (r: string)
    ensures r == HIGH || r == MEDIUM || r == LOW
    ensures r == HIGH <==> Strip(answer) == "1"
    ensures r == LOW <==> Strip(answer) == "3"
    ensures r == MEDIUM <==> Strip(answer) != "1" && Strip(answer) != "3"
  {
    var key := Strip(answer);
    assert HIGH[0] == 'A' && MEDIUM[0] == 'M' && LOW[0] == 'B';
    if key in PRIORITY_OPTIONS then PRIORITY_OPTIONS[key] else MEDIUM
  }

  /** The priority an edit asks for: a menu entry, or none for any other answer. */
  function PriorityChoice(answer: string): (r: Option<string>)
    ensures r.Some? <==> Strip(answer) == "1" || Strip(answer) == "2" || Strip(answer) == "3"
    ensures r == Some(HIGH) <==> Strip(answer) == "1"
    ensures r == Some(MEDIUM) <==> Strip(answer) == "2"
    ensures r == Some(LOW) <==> Strip(answer) == "3"
  {
    var key := Strip(answer);
    if key in PRIORITY_OPTIONS then Some(PRIORITY_OPTIONS[key]) else None
  }

  /** The status an edit asks for: a menu entry, or none for any other answer. */
  function StatusChoice(answer: string): (r: Option<string>)
    ensures r.Some? <==> Strip(answer) in {"1", "2", "3", "4"}
    ensures r == Some(PENDING) <==> Strip(answer) == "1"
    ensures r == Some(IN_PROGRESS) <==> Strip(answer) == "2"
    ensures r == Some(COMPLETED) <==> Strip(answer) == "3"
    ensures r == Some(CANCELLED) <==> Strip(answer) == "4"
  {
    var key := Strip(answer);
    if key in STATUS_OPTIONS then Some(STATUS_OPTIONS[key]) else None
  }

  /**
   * Adding and editing read the same menu, but an answer outside it means
   * Medium when adding and "keep the old priority" when editing.
   */
  lemma AddAndEditPriorityDiffer(answer: string)
    ensures PriorityOnAdd(answer) == PriorityChoice(answer).GetOr(MEDIUM)
    ensures PriorityChoice(answer).None? ==> PriorityOnAdd(answer) == MEDIUM
  {
  }

  /** The category of a new task: the stripped answer, or General when that is empty. */
  function CategoryOrDefault(answer: string): (r: string)
    ensures r != []
    ensures Strip(answer) != [] ==> r == Strip(answer)
    ensures Strip(answer) == [] ==> r == GENERAL
  {
    var c := Strip(answer);
    if c != [] then c else GENERAL
  }

  /** The strings of `r` are exactly the non-blank pieces, stripped. */
  ghost predicate StrippedNonBlankOf(r: seq<string>, pieces: seq<string>) {
    forall x :: x in r <==> x != [] && exists k :: 0 <= k < |pieces| && Strip(pieces[k]) == x
  }

  /** The comprehension over the split pieces: each one stripped, the blank ones dropped, order kept. */
  function KeepNonBlank(pieces: seq<string>): (r: seq<string>)
    ensures |r| <= |pieces|
    ensures forall k :: 0 <= k < |r| ==> r[k] != [] && IsStripped(r[k])
    ensures StrippedNonBlankOf(r, pieces)
    decreases |pieces|
  {
    if pieces == [] then []
    else
      var e := Strip(pieces[0]);
      var rest := KeepNonBlank(pieces[1..]);
      assert forall k :: 1 <= k < |pieces| ==> pieces[k] == pieces[1..][k - 1];
      (if e != [] then [e] else []) + rest
  }

  /** One piece is kept, stripped, exactly when it is not blank. */
  lemma KeepNonBlankOne(piece: string)
    ensures KeepNonBlank([piece]) == if Strip(piece) != [] then [Strip(piece)] else []
  {
    assert [piece][1..] == [];
  }

  /** The pieces are decided one by one, in order: keeping distributes over concatenation. */
  lemma {:induction false} KeepNonBlankAppend(a: seq<string>, b: seq<string>)
    ensures KeepNonBlank(a + b) == KeepNonBlank(a) + KeepNonBlank(b)
    decreases |a|
  {
    if a == [] {
      assert a + b == b;
    } else {
      assert (a + b)[0] == a[0] && (a + b)[1..] == a[1..] + b;
      KeepNonBlankAppend(a[1..], b);
    }
  }

  /** A character no piece holds is held by no kept piece. */
  lemma {:induction false} KeepNonBlankKeepsOut(pieces: seq<string>, c: char)
    requires forall k :: 0 <= k < |pieces| ==> c !in pieces[k]
    ensures forall k :: 0 <= k < |KeepNonBlank(pieces)| ==> c !in KeepNonBlank(pieces)[k]
    decreases |pieces|
  {
    if pieces != [] {
      StripKeepsOut(pieces[0], c);
      KeepNonBlankKeepsOut(pieces[1..], c);
    }
  }

  /** Pieces that are already stripped and non-empty are all kept, unchanged. */
  lemma {:induction false} KeepNonBlankOfClean(pieces: seq<string>)
    requires forall k :: 0 <= k < |pieces| ==> pieces[k] != [] && IsStripped(pieces[k])
    ensures KeepNonBlank(pieces) == pieces
    decreases |pieces|
  {
    if pieces != [] {
      StripStripped(pieces[0]);
      KeepNonBlankOfClean(pieces[1..]);
      assert [pieces[0]] + pieces[1..] == pieces;
    }
  }

  /**
   * The tag list of a new task, from a comma-separated answer: every tag is
   * non-empty, has no surrounding whitespace and holds no comma.
   */
  function ParseTags(answer: string): (r: seq<string>)
    ensures forall k :: 0 <= k < |r| ==> r[k] != [] && IsStripped(r[k]) && ',' !in r[k]
    ensures StrippedNonBlankOf(r, Split(Strip(answer), ','))
  {
    var pieces := Split(Strip(answer), ',');
    KeepNonBlankKeepsOut(pieces, ',');
    KeepNonBlank(pieces)
  }

  /** A tag list that `ParseTags` could produce. */
  predicate CleanTags(tags: seq<string>) {
    forall k :: 0 <= k < |tags| ==> tags[k] != [] && IsStripped(tags[k]) && ',' !in tags[k]
  }

  /** Writing clean tags out comma-separated and parsing them back gives the same tags, in order. */
  lemma ParseTagsJoin(tags: seq<string>)
    requires CleanTags(tags)
    ensures ParseTags(Join(tags, ',')) == tags
  {
    var s := Join(tags, ',');
    if tags == [] {
      assert Strip(s) == [];
      assert Split([], ',') == [[]];
      assert KeepNonBlank([[]]) == [];
    } else {
      JoinEnds(tags, ',');
      StripStripped(s);
      SplitJoin(tags, ',');
      KeepNonBlankOfClean(tags);
    }
  }

  /** Whitespace after a comma is trimmed: "a, b" gives the two tags a and b. */
  lemma ParseTagsTrimsPieces(a: string, b: string)
    requires CleanTags([a, b])
    ensures ParseTags(a + ", " + b) == [a, b]
  {
    assert [a, b][0] == a && [a, b][1] == b;
    var s := a + ", " + b;
    assert s == a + [','] + ([' '] + b);
    assert s[0] == a[0] && s[|s| - 1] == b[|b| - 1];
    StripStripped(s);
    TwoPiecesSplit(a, [' '] + b);
    StripAfterSpace(b);
    StripStripped(a);
    KeepTwo(a, [' '] + b);
  }

  /** A string with one comma splits into the parts on either side of it. */
  lemma TwoPiecesSplit(a: string, b: string)
    requires ',' !in a && ',' !in b
    ensures Split(a + [','] + b, ',') == [a, b]
  {
    SplitAtFirstSeparator(a, b, ',');
    SplitWithoutSeparator(b, ',');
  }

  /** A leading space before a stripped string is stripped away. */
  lemma StripAfterSpace(b: string)
    requires b != [] && IsStripped(b)
    ensures Strip([' '] + b) == b
  {
    assert ([' '] + b)[1..] == b;
    assert TrimStart([' '] + b) == TrimStart(b);
    StripStripped(b);
  }

  /** Two pieces are each kept, stripped, when not blank. */
  lemma KeepTwo(x: string, y: string)
    requires Strip(x) != [] && Strip(y) != []
    ensures KeepNonBlank([x, y]) == [Strip(x), Strip(y)]
  {
    KeepNonBlankOne(x);
    KeepNonBlankOne(y);
    KeepNonBlankAppend([x], [y]);
    assert [x] + [y] == [x, y];
  }

  /** The largest id in a non-empty list (Python's `max`). */
  function MaxId(ts: seq<Task>): (m: int)
    requires ts != []
    ensures forall k :: 0 <= k < |ts| ==> ts[k].id <= m
    ensures exists k :: 0 <= k < |ts| && ts[k].id == m
    decreases |ts|
  {
    if |ts| == 1 then ts[0].id
    else
      var rest := MaxId(ts[1..]);
      if ts[0].id >= rest then ts[0].id else rest
  }

  /**
   * The id a new task receives: one more than the largest id (0 for an empty
   * list). It exceeds every id in use and is 1 for an empty list.
   */
  function NextId(ts: seq<Task>): (r: int)
    ensures forall k :: 0 <= k < |ts| ==> ts[k].id < r
    ensures ts == [] ==> r == 1
    ensures ts != [] ==> exists k :: 0 <= k < |ts| && ts[k].id == r - 1
  {
    (if ts == [] then 0 else MaxId(ts)) + 1
  }

  /** No two tasks share an id. */
  predicate UniqueIds(ts: seq<Task>) {
    forall i, j :: 0 <= i < j < |ts| ==> ts[i].id != ts[j].id
  }

  /** The ids are 1, 2, ..., n in list order. */
  predicate DenseIds(ts: seq<Task>) {
    forall k :: 0 <= k < |ts| ==> ts[k].id == k + 1
  }

  /** Appending a task with the next id keeps the ids unique. */
  lemma AddKeepsIdsUnique(ts: seq<Task>, t: Task)
    requires UniqueIds(ts) && t.id == NextId(ts)
    ensures UniqueIds(ts + [t])
  {
    assert forall k :: 0 <= k < |ts| ==> (ts + [t])[k] == ts[k];
  }

  /** With ids 1..n the next id is n + 1, so creations from an empty list number their tasks 1, 2, 3, ... */
  lemma DenseNextId(ts: seq<Task>)
    requires DenseIds(ts)
    ensures NextId(ts) == |ts| + 1
    ensures forall t: Task :: t.id == NextId(ts) ==> DenseIds(ts + [t])
  {
    if ts != [] {
      assert ts[|ts| - 1].id == |ts|;
    }
    forall t: Task | t.id == NextId(ts)
      ensures DenseIds(ts + [t])
    {
      assert forall k :: 0 <= k < |ts| ==> (ts + [t])[k] == ts[k];
    }
  }

  /**
   * The position of the first task with the given id (the `next(...)` scan),
   * or none when no task has it.
   */
  function FindById(ts: seq<Task>, id: int): (r: Option<nat>)
    ensures r.Some? ==> r.value < |ts| && ts[r.value].id == id
    ensures r.Some? ==> forall j :: 0 <= j < r.value ==> ts[j].id != id
    ensures r.None? <==> forall k :: 0 <= k < |ts| ==> ts[k].id != id
    decreases |ts|
  {
    if ts == [] then None
    else if ts[0].id == id then Some(0)
    else
      match FindById(ts[1..], id)
      case None => None
      case Some(k) => Some(k + 1)
  }

  /** When ids are unique, the task found is the only one with that id. */
  lemma FoundIsOnly(ts: seq<Task>, id: int)
    requires UniqueIds(ts) && FindById(ts, id).Some?
    ensures forall j :: 0 <= j < |ts| && j != FindById(ts, id).value ==> ts[j].id != id
  {
  }

  /**
   * One task after an edit: name and description take the stripped answer
   * unless it is blank, status and priority take the menu entry chosen
   * unless the answer is off the menu; nothing else changes.
   */
  function EditTask(t: Task, nameAnswer: string, descriptionAnswer: string,
                    statusAnswer: string, priorityAnswer: string): (r: Task)
    ensures r.id == t.id && r.category == t.category && r.created == t.created
    ensures r.due == t.due && r.tags == t.tags
    ensures r.name != t.name ==> r.name == Strip(nameAnswer) && r.name != []
    ensures Strip(nameAnswer) != [] ==> r.name == Strip(nameAnswer)
    ensures r.description != t.description ==> r.description == Strip(descriptionAnswer) && r.description != []
    ensures Strip(descriptionAnswer) != [] ==> r.description == Strip(descriptionAnswer)
    ensures r.status == StatusChoice(statusAnswer).GetOr(t.status)
    ensures r.priority == PriorityChoice(priorityAnswer).GetOr(t.priority)
  {
    var name := Strip(nameAnswer);
    var description := Strip(descriptionAnswer);
    t.(name := if name != [] then name else t.name,
       description := if description != [] then description else t.description,
       status := StatusChoice(statusAnswer).GetOr(t.status),
       priority := PriorityChoice(priorityAnswer).GetOr(t.priority))
  }

  /** Blank answers and answers off the menus leave the task as it was. */
  lemma EditWithBlankAnswers(t: Task, nameAnswer: string, descriptionAnswer: string,
                              statusAnswer: string, priorityAnswer: string)
    requires Strip(nameAnswer) == [] && Strip(descriptionAnswer) == []
    requires StatusChoice(statusAnswer).None? && PriorityChoice(priorityAnswer).None?
    ensures EditTask(t, nameAnswer, descriptionAnswer, statusAnswer, priorityAnswer) == t
  {
  }

  /** Repeating an edit with the same answers changes nothing more. */
  lemma EditIdempotent(t: Task, nameAnswer: string, descriptionAnswer: string,
                       statusAnswer: string, priorityAnswer: string)
    ensures var once := EditTask(t, nameAnswer, descriptionAnswer, statusAnswer, priorityAnswer);
            EditTask(once, nameAnswer, descriptionAnswer, statusAnswer, priorityAnswer) == once
  {
  }

  /** Editing one task keeps the ids of the list unique. */
  lemma EditKeepsIdsUnique(ts: seq<Task>, k: nat, nameAnswer: string, descriptionAnswer: string,
                           statusAnswer: string, priorityAnswer: string)
    requires k < |ts| && UniqueIds(ts)
    ensures UniqueIds(ts[k := EditTask(ts[k], nameAnswer, descriptionAnswer, statusAnswer, priorityAnswer)])
  {
  }

  /** Python's `list.remove(x)`: the list without the first element equal to `x`. */
  function ListRemove(s: seq<Task>, x: Task): (r: seq<Task>)
    requires x in s
    ensures |r| == |s| - 1
    ensures multiset(r) == multiset(s) - multiset{x}
    decreases |s|
  {
    assert s == [s[0]] + s[1..];
    if s[0] == x then s[1..] else [s[0]] + ListRemove(s[1..], x)
  }

  /**
   * Removing the task found by id removes exactly that position: no earlier
   * element can equal it, since no earlier element has its id.
   */
  lemma {:induction false} RemoveFound(s: seq<Task>, k: nat)
    requires k < |s|
    requires forall j :: 0 <= j < k ==> s[j].id != s[k].id
    ensures ListRemove(s, s[k]) == s[..k] + s[k + 1..]
    decreases k
  {
    if k == 0 {
      assert s[..0] + s[1..] == s[1..];
    } else {
      var rest := s[1..];
      var x := s[k];
      assert x == rest[k - 1];
      forall j | 0 <= j < k - 1
        ensures rest[j].id != x.id
      {
        assert rest[j] == s[j + 1];
      }
      RemoveFound(rest, k - 1);
      RemoveLater(s, x, rest[..k - 1] + rest[k..]);
      SpliceFront(s, k);
    }
  }

  /** `list.remove` keeps a first element that differs from what it removes. */
  lemma RemoveLater(s: seq<Task>, x: Task, tail: seq<Task>)
    requires |s| > 0 && s[0] != x && x in s[1..]
    requires ListRemove(s[1..], x) == tail
    ensures ListRemove(s, x) == [s[0]] + tail
  {
  }

  /** Putting the head back in front of a spliced tail splices the whole list. */
  lemma SpliceFront(s: seq<Task>, k: nat)
    requires 0 < k < |s|
    ensures [s[0]] + (s[1..][..k - 1] + s[1..][k..]) == s[..k] + s[k + 1..]
  {
    assert s[1..][..k - 1] == s[1..k] && s[1..][k..] == s[k + 1..];
    assert [s[0]] + s[1..k] == s[..k];
  }

  /** Removing one position keeps the ids unique, and its id is then gone from the list. */
  lemma RemoveKeepsIdsUnique(ts: seq<Task>, k: nat)
    requires k < |ts| && UniqueIds(ts)
    ensures UniqueIds(ts[..k] + ts[k + 1..])
    ensures var r := ts[..k] + ts[k + 1..]; forall j :: 0 <= j < |r| ==> r[j].id != ts[k].id
  {
    var r := ts[..k] + ts[k + 1..];
    assert forall j :: 0 <= j < |r| ==> r[j] == (if j < k then ts[j] else ts[j + 1]);
  }

  /**
   * Ids are not monotonic over deletions: deleting the task with the largest
   * id and adding another hands that id out again.
   */
  lemma DeletedMaxIdIsReused(a: Task, b: Task)
    requires a.id == 1 && b.id == 2
    ensures NextId([a, b]) == 3
    ensures var after := [a, b][..1] + [a, b][2..]; NextId(after) == b.id
  {
    assert [a, b][..1] + [a, b][2..] == [a];
  }
}
