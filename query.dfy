/**
 * The read-only operations over the task list: the selection behind the
 * listing (all, pending, completed, or a name search), the search command,
 * and the counts of the statistics report.
 */
module Query {
  import opened Wrappers
  import opened Text
  import opened Tasks

  /** What a listing keeps: every task, one status, one priority, or names containing a term. */
  datatype Selector = All | StatusIs(status: string) | PriorityIs(priority: string) | NameContains(term: string)

  /**
   * The listing's filter argument read as a selector: none or empty lists
   * everything, the two literal words select a status, any other text
   * searches the names.
   */
  function SelectorOf(filter: Option<string>): (r: Selector)
    ensures filter.None? || filter == Some("") ==> r == All
    ensures filter == Some("pendientes") ==> r == StatusIs(PENDING)
    ensures filter == Some("completadas") ==> r == StatusIs(COMPLETED)
    ensures filter.Some? && filter.value !in {"", "pendientes", "completadas"} ==> r == NameContains(filter.value)
  {
    match filter
    case None => All
    case Some(f) =>
      if f == "pendientes" then StatusIs(PENDING)
      else if f == "completadas" then StatusIs(COMPLETED)
      else if f != [] then NameContains(f)
      else All
  }

  /** Whether a task is kept; a name search ignores the case of both sides. */
  predicate Matches(sel: Selector, t: Task)
    ensures sel.All? ==> Matches(sel, t)
    ensures sel.NameContains? && sel.term == [] ==> Matches(sel, t)
    ensures sel.NameContains? && Lower(sel.term) == Lower(t.name) ==> Matches(sel, t)
  {
    match sel
    case All => true
    case StatusIs(s) => t.status == s
    case PriorityIs(p) => t.priority == p
    case NameContains(term) => Contains(Lower(t.name), Lower(term))
  }

  /** `a` is `b` with some elements left out, the rest in their order. */
  ghost predicate IsSubsequence<T>(a: seq<T>, b: seq<T>)
    decreases |b|
  {
    if a == [] then true
    else if b == [] then false
    else (a[0] == b[0] && IsSubsequence(a[1..], b[1..])) || IsSubsequence(a, b[1..])
  }

  /**
   * The list comprehension of the listing: the tasks the selector keeps, in
   * list order, each as often as it occurs.
   */
  function Select(ts: seq<Task>, sel: Selector): (r: seq<Task>)
    ensures |r| <= |ts|
    ensures forall k :: 0 <= k < |r| ==> Matches(sel, r[k])
    decreases |ts|
  {
    if ts == [] then []
    else
      var rest := Select(ts[1..], sel);
      if Matches(sel, ts[0]) then [ts[0]] + rest else rest
  }

  /**
   * The selection is exact: it is a subsequence of the list, and it holds
   * each kept task as often as the list does and no other task.
   */
  lemma SelectExact(ts: seq<Task>, sel: Selector)
    ensures IsSubsequence(Select(ts, sel), ts)
    ensures forall t :: t in Select(ts, sel) <==> t in ts && Matches(sel, t)
    ensures forall t :: multiset(Select(ts, sel))[t] == if Matches(sel, t) then multiset(ts)[t] else 0
  {
    SelectIsSubsequence(ts, sel);
    SelectCounts(ts, sel);
  }

  /** The selection keeps the list's order. */
  lemma {:induction false} SelectIsSubsequence(ts: seq<Task>, sel: Selector)
    ensures IsSubsequence(Select(ts, sel), ts)
    decreases |ts|
  {
    if ts != [] {
      var rest := Select(ts[1..], sel);
      SelectIsSubsequence(ts[1..], sel);
      if Matches(sel, ts[0]) {
        assert ([ts[0]] + rest)[1..] == rest;
      }
    }
  }

  /** The selection holds each kept task as often as the list does, and no other. */
  lemma {:induction false} SelectCounts(ts: seq<Task>, sel: Selector)
    ensures forall t :: multiset(Select(ts, sel))[t] == if Matches(sel, t) then multiset(ts)[t] else 0
    decreases |ts|
  {
    if ts != [] {
      SelectCounts(ts[1..], sel);
      assert ts == [ts[0]] + ts[1..];
      assert multiset(ts) == multiset([ts[0]]) + multiset(ts[1..]);
    }
  }

  /** How many tasks the selector keeps (`len([t for t in tareas if ...])`). */
  function Count(ts: seq<Task>, sel: Selector): (n: nat)
    ensures n <= |ts|
    ensures n == 0 <==> forall k :: 0 <= k < |ts| ==> !Matches(sel, ts[k])
    ensures n == |ts| <==> forall k :: 0 <= k < |ts| ==> Matches(sel, ts[k])
  {
    SelectExact(ts, sel);
    CountAllOrNone(ts, sel);
    |Select(ts, sel)|
  }

  /** The selection is the whole list exactly when every task matches. */
  lemma {:induction false} CountAllOrNone(ts: seq<Task>, sel: Selector)
    ensures |Select(ts, sel)| == |ts| <==> forall k :: 0 <= k < |ts| ==> Matches(sel, ts[k])
    decreases |ts|
  {
    if ts != [] {
      CountAllOrNone(ts[1..], sel);
      assert forall k :: 1 <= k < |ts| ==> ts[k] == ts[1..][k - 1];
    }
  }

  /** Selecting from a list with a head is deciding the head, then selecting from the rest. */
  lemma SelectCons(x: Task, rest: seq<Task>, sel: Selector)
    ensures Select([x] + rest, sel) == (if Matches(sel, x) then [x] else []) + Select(rest, sel)
  {
    assert ([x] + rest)[0] == x && ([x] + rest)[1..] == rest;
  }

  /** Selection distributes over concatenation. */
  lemma {:induction false} SelectAppend(a: seq<Task>, b: seq<Task>, sel: Selector)
    ensures Select(a + b, sel) == Select(a, sel) + Select(b, sel)
    decreases |a|
  {
    if a == [] {
      assert a + b == b;
    } else {
      var head: seq<Task> := if Matches(sel, a[0]) then [a[0]] else [];
      assert a + b == [a[0]] + (a[1..] + b);
      assert a == [a[0]] + a[1..];
      SelectCons(a[0], a[1..] + b, sel);
      SelectCons(a[0], a[1..], sel);
      SelectAppend(a[1..], b, sel);
      assert head + (Select(a[1..], sel) + Select(b, sel)) == (head + Select(a[1..], sel)) + Select(b, sel);
    }
  }

  /** Appending one task adds one to the count exactly when the selector keeps it. */
  lemma CountAppendOne(ts: seq<Task>, t: Task, sel: Selector)
    ensures Count(ts + [t], sel) == Count(ts, sel) + (if Matches(sel, t) then 1 else 0)
  {
    SelectAppend(ts, [t], sel);
    assert Select([t], sel) == (if Matches(sel, t) then [t] else []);
  }

  /** No filter, or an empty one, lists every task in its order. */
  lemma {:induction false} SelectAll(ts: seq<Task>)
    ensures Select(ts, All) == ts
    decreases |ts|
  {
    if ts != [] {
      SelectAll(ts[1..]);
    }
  }

  /** The four cases of the listing filter. */
  lemma FilterCases(ts: seq<Task>, filter: Option<string>)
    ensures filter.None? || filter == Some("") ==> Select(ts, SelectorOf(filter)) == ts
    ensures filter == Some("pendientes") ==>
      forall t :: t in Select(ts, SelectorOf(filter)) <==> t in ts && t.status == PENDING
    ensures filter == Some("completadas") ==>
      forall t :: t in Select(ts, SelectorOf(filter)) <==> t in ts && t.status == COMPLETED
    ensures filter.Some? && filter.value !in {"", "pendientes", "completadas"} ==>
      forall t :: t in Select(ts, SelectorOf(filter)) <==> t in ts && Contains(Lower(t.name), Lower(filter.value))
  {
    SelectAll(ts);
    SelectExact(ts, SelectorOf(filter));
  }

  /** Searching for two terms that lower-case alike selects the same tasks. */
  lemma {:induction false} NameSearchIgnoresCase(ts: seq<Task>, a: string, b: string)
    requires Lower(a) == Lower(b)
    ensures Select(ts, NameContains(a)) == Select(ts, NameContains(b))
    decreases |ts|
  {
    if ts != [] {
      NameSearchIgnoresCase(ts[1..], a, b);
    }
  }

  /** Searching for a term and for its lower-cased form selects the same tasks. */
  lemma SearchLowerCasedTerm(ts: seq<Task>, term: string)
    ensures Select(ts, NameContains(Lower(term))) == Select(ts, NameContains(term))
  {
    LowerIdempotent(term);
    NameSearchIgnoresCase(ts, Lower(term), term);
  }

  /**
   * The two status words are compared exactly, so in upper case they become
   * a name search: a completed task named after the word is listed by one
   * spelling and not by the other.
   */
  lemma StatusWordsAreCaseSensitive(t: Task)
    requires t.name == "pendientes" && t.status == COMPLETED
    ensures Select([t], SelectorOf(Some("pendientes"))) == []
    ensures Select([t], SelectorOf(Some("PENDIENTES"))) == [t]
  {
    assert Lower("PENDIENTES") == "pendientes";
    assert OccursAt(Lower(t.name), Lower("PENDIENTES"), 0);
  }

  /** What the listing shows: no tasks at all, no task matching, or the matching rows. */
  datatype Listing = NoTasks | NoMatches | Rows(rows: seq<Task>)

  /**
   * The listing for a filter. An empty store is reported apart from a filter
   * that keeps nothing; rows are never empty and keep the store's order.
   */
  function Show(ts: seq<Task>, filter: Option<string>): (r: Listing)
    ensures r == NoTasks <==> ts == []
    ensures r == NoMatches <==> ts != [] && forall t :: t in ts ==> !Matches(SelectorOf(filter), t)
    ensures r.Rows? ==> r.rows != [] && IsSubsequence(r.rows, ts)
    ensures r.Rows? ==> forall t :: t in r.rows <==> t in ts && Matches(SelectorOf(filter), t)
    ensures r.Rows? ==> forall t :: multiset(r.rows)[t] == if Matches(SelectorOf(filter), t) then multiset(ts)[t] else 0
  {
    if ts == [] then NoTasks
    else
      var rows := Select(ts, SelectorOf(filter));
      SelectExact(ts, SelectorOf(filter));
      if rows == [] then NoMatches else Rows(rows)
  }

  /**
   * The search command: the answer is stripped, a blank answer shows
   * nothing, anything else is passed to the listing as its filter.
   */
  function Search(ts: seq<Task>, answer: string): (r: Option<Listing>)
    ensures r.None? <==> forall k :: 0 <= k < |answer| ==> IsSpace(answer[k])
    ensures r.Some? ==> r.value == Show(ts, Some(Strip(answer)))
  {
    var term := Strip(answer);
    StripEmptyIffBlank(answer);
    if term != [] then Some(Show(ts, Some(term))) else None
  }

  /** Searching for the word "pendientes" lists the pending tasks, not the names holding the word. */
  lemma SearchForStatusWord(ts: seq<Task>, answer: string)
    requires Strip(answer) == "pendientes" && ts != []
    ensures Search(ts, answer).Some?
    ensures var l := Search(ts, answer).value;
            (l == NoMatches <==> forall t :: t in ts ==> t.status != PENDING)
            && (l.Rows? ==> forall t :: t in l.rows <==> t in ts && t.status == PENDING)
  {
  }

  /** The counts of the statistics report. */
  datatype Stats = Stats(total: nat, pending: nat, inProgress: nat, completed: nat,
                         high: nat, medium: nat, low: nat)

  /** Three selectors that never keep the same task together keep at most all of them. */
  lemma {:induction false} DisjointCountsBound(ts: seq<Task>, a: Selector, b: Selector, c: Selector)
    requires forall t :: !(Matches(a, t) && Matches(b, t))
    requires forall t :: !(Matches(a, t) && Matches(c, t))
    requires forall t :: !(Matches(b, t) && Matches(c, t))
    ensures |Select(ts, a)| + |Select(ts, b)| + |Select(ts, c)| <= |ts|
    decreases |ts|
  {
    if ts != [] {
      DisjointCountsBound(ts[1..], a, b, c);
      assert |Select(ts, a)| == |Select(ts[1..], a)| + (if Matches(a, ts[0]) then 1 else 0);
      assert |Select(ts, b)| == |Select(ts[1..], b)| + (if Matches(b, ts[0]) then 1 else 0);
      assert |Select(ts, c)| == |Select(ts[1..], c)| + (if Matches(c, ts[0]) then 1 else 0);
    }
  }

  /**
   * The statistics report: nothing for an empty store (no division by zero
   * in the percentages), otherwise the total and the counts per status and
   * per priority, each no larger than the total taken together.
   */
  function Statistics(ts: seq<Task>): (r: Option<Stats>)
    ensures r.None? <==> ts == []
    ensures r.Some? ==> r.value.total == |ts| > 0
    ensures r.Some? ==> r.value.pending == |Select(ts, StatusIs(PENDING))|
    ensures r.Some? ==> r.value.inProgress == |Select(ts, StatusIs(IN_PROGRESS))|
    ensures r.Some? ==> r.value.completed == |Select(ts, StatusIs(COMPLETED))|
    ensures r.Some? ==> r.value.high == |Select(ts, PriorityIs(HIGH))|
    ensures r.Some? ==> r.value.medium == |Select(ts, PriorityIs(MEDIUM))|
    ensures r.Some? ==> r.value.low == |Select(ts, PriorityIs(LOW))|
    ensures r.Some? ==> r.value.pending + r.value.inProgress + r.value.completed <= r.value.total
    ensures r.Some? ==> r.value.high + r.value.medium + r.value.low <= r.value.total
  {
    if ts == [] then None
    else
      DisjointCountsBound(ts, StatusIs(PENDING), StatusIs(COMPLETED), StatusIs(IN_PROGRESS));
      DisjointCountsBound(ts, PriorityIs(HIGH), PriorityIs(MEDIUM), PriorityIs(LOW));
      Some(Stats(|ts|, Count(ts, StatusIs(PENDING)), Count(ts, StatusIs(IN_PROGRESS)),
                 Count(ts, StatusIs(COMPLETED)), Count(ts, PriorityIs(HIGH)),
                 Count(ts, PriorityIs(MEDIUM)), Count(ts, PriorityIs(LOW))))
  }

  /** The report's pending and completed counts are the lengths of the two status listings. */
  lemma StatisticsAgreeWithListings(ts: seq<Task>)
    requires ts != []
    ensures Statistics(ts).value.pending == |Select(ts, SelectorOf(Some("pendientes")))|
    ensures Statistics(ts).value.completed == |Select(ts, SelectorOf(Some("completadas")))|
  {
  }

  /** A newly added task is pending, so adding one raises the pending count by one. */
  lemma AddRaisesPendingCount(ts: seq<Task>, t: Task)
    requires t.status == PENDING
    ensures Statistics(ts + [t]).value.pending == Count(ts, StatusIs(PENDING)) + 1
  {
    CountAppendOne(ts, t, StatusIs(PENDING));
  }
}
