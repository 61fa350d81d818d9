/** The task view: `getFilteredTasks`, a chain of `filter` calls over the
    screen's tasks followed by a sort with a three-key comparator. */
module ViewEngine {
  import opened Wrappers
  import opened Seqs
  import opened Tasks
  import opened Text
  import opened Filters

  /** `filterByDate`: `null`, `'today'` or `'upcoming'`. */
  datatype DateScope = AnyDate | Today | Upcoming

  /** The screen's props: `filterByList` (`''` stands for `null`) and `filterByDate`. */
  datatype Scope = Scope(listId: string, date: DateScope)

  /** What the clock and the `Date` parser answer, taken as inputs:
      `today` is the date part of the current ISO timestamp, `now` the
      current instant, and `instantOf` reads a due-date string the way
      `new Date(...)` does (`None` for an invalid date). */
  datatype Clock = Clock(today: string, now: int, instantOf: string -> Option<int>)

  /** Whether the task is due on `today` written as a date alone or as a
      date followed by 'T' and a time. */
  predicate OnDate(t: Task, today: string) {
    HasDueDate(t) && 'T' !in today && (t.dueDate.value == today || today + "T" <= t.dueDate.value)
  }

  /** `task.dueDate && task.dueDate.split('T')[0] === today`: a due date
      counts when it starts with today's date; a date alone or a date
      followed by 'T' and a time both qualify. */
  function DueToday(today: string): (f: Task -> bool)
    ensures forall t :: f(t) <==> OnDate(t, today)
  {
    var f := (t: Task) => HasDueDate(t) && DatePart(t.dueDate.value) == today;
    assert forall t :: f(t) <==> OnDate(t, today) by {
      forall t | HasDueDate(t)
        ensures f(t) <==> OnDate(t, today)
      {
        DatePartShape(t.dueDate.value);
        if OnDate(t, today) {
          DatePartOfStamp(today, t.dueDate.value);
        }
      }
    }
    f
  }

  /** `task.dueDate && new Date(task.dueDate) > now`: an invalid date never counts. */
  function DueAfter(now: int, instantOf: string -> Option<int>): (f: Task -> bool)
    ensures forall t :: f(t) <==> HasDueDate(t) && instantOf(t.dueDate.value).GetOr(now) > now
  {
    (t: Task) => HasDueDate(t) && instantOf(t.dueDate.value).Some? && instantOf(t.dueDate.value).value > now
  }

  /** `task.title.toLowerCase().includes(search.toLowerCase())`: the search
      text occurs somewhere in the title, ignoring case; an empty search
      matches every task. */
  function TitleMatches(search: string): (f: Task -> bool)
    ensures forall t :: f(t) <==> exists k :: OccursAt(ToLower(t.title), ToLower(search), k)
    ensures search == "" ==> forall t :: f(t)
  {
    (t: Task) => Includes(ToLower(t.title), ToLower(search))
  }

  /** `task.priority === filters.priority`, for a chosen priority; no choice keeps every task. */
  function HasPriority(p: Option<Priority>): (f: Task -> bool)
    ensures p.None? ==> forall t :: f(t)
    ensures p.Some? ==> forall t :: f(t) <==> t.priority == p.value
  {
    (t: Task) => p.Some? ==> t.priority == p.value
  }

  /** The status filter: `'completed'` keeps the completed tasks, `'pending'`
      the others, `'all'` every task. */
  function StatusMatches(st: Status): (f: Task -> bool)
    ensures forall t :: f(t) <==> st == All || (st == Done) == t.completed
  {
    (t: Task) => match st
      case Done => t.completed
      case Pending => !t.completed
      case All => true
  }

  /** The date filter chosen by `filterByDate`. */
  function DateTest(d: DateScope, clock: Clock): (f: Task -> bool)
    ensures d == AnyDate ==> forall t :: f(t)
    ensures d == Today ==> forall t :: f(t) == DueToday(clock.today)(t)
    ensures d == Upcoming ==> forall t :: f(t) == DueAfter(clock.now, clock.instantOf)(t)
  {
    match d
    case Today => DueToday(clock.today)
    case Upcoming => DueAfter(clock.now, clock.instantOf)
    case AnyDate => (t: Task) => true
  }

  /** `if (active) filtered = filtered.filter(p)` */
  function Step(s: seq<Task>, active: bool, p: Task -> bool): (r: seq<Task>)
    ensures forall t {:trigger multiset(r)[t]} :: multiset(r)[t] == if !active || p(t) then multiset(s)[t] else 0
  {
    if active then Filter(s, p) else s
  }

  /** Whether a task passes every active filter: the single test that the
      chain of filters amounts to. */
  predicate Shown(t: Task, scope: Scope, c: Criteria, clock: Clock) {
    && !t.archived
    && (scope.listId != "" ==> t.listId == scope.listId)
    && (scope.date == Today ==> HasDueDate(t) && DatePart(t.dueDate.value) == clock.today)
    && (scope.date == Upcoming ==>
          HasDueDate(t) && clock.instantOf(t.dueDate.value).Some? && clock.instantOf(t.dueDate.value).value > clock.now)
    && (c.search != "" ==> Includes(ToLower(t.title), ToLower(c.search)))
    && (c.priority.Some? ==> t.priority == c.priority.value)
    && (c.status == Done ==> t.completed)
    && (c.status == Pending ==> !t.completed)
  }

  function ShownTest(scope: Scope, c: Criteria, clock: Clock): Task -> bool {
    (t: Task) => Shown(t, scope, c, clock)
  }

  /** One more filter step narrows a filter of `tasks` to a filter by both tests. */
  lemma StepNarrows(tasks: seq<Task>, s: seq<Task>, before: Task -> bool, active: bool, p: Task -> bool, after: Task -> bool)
    requires s == Filter(tasks, before)
    requires forall t :: after(t) == (before(t) && (!active || p(t)))
    ensures Step(s, active, p) == Filter(tasks, after)
  {
    if active {
      FilterTwice(tasks, before, p, after);
    } else {
      FilterSame(tasks, before, after);
    }
  }

  /** The six filter steps, in the order the screen applies them: together
      one filter by `Shown`, which keeps the order of `tasks`. */
  function Stages(tasks: seq<Task>, scope: Scope, c: Criteria, clock: Clock): (r: seq<Task>)
    ensures r == Filter(tasks, ShownTest(scope, c, clock))
  {
    var p1 := (t: Task) => IsActive(t) && (scope.listId != "" ==> InList(scope.listId)(t));
    var p2 := (t: Task) => p1(t) && (scope.date != AnyDate ==> DateTest(scope.date, clock)(t));
    var p3 := (t: Task) => p2(t) && (c.search != "" ==> TitleMatches(c.search)(t));
    var p4 := (t: Task) => p3(t) && (c.priority.Some? ==> HasPriority(c.priority)(t));
    var p5 := (t: Task) => p4(t) && (c.status != All ==> StatusMatches(c.status)(t));
    var byArchive := Filter(tasks, IsActive);
    var byList := Step(byArchive, scope.listId != "", InList(scope.listId));
    StepNarrows(tasks, byArchive, IsActive, scope.listId != "", InList(scope.listId), p1);
    var byDate := Step(byList, scope.date != AnyDate, DateTest(scope.date, clock));
    StepNarrows(tasks, byList, p1, scope.date != AnyDate, DateTest(scope.date, clock), p2);
    var bySearch := Step(byDate, c.search != "", TitleMatches(c.search));
    StepNarrows(tasks, byDate, p2, c.search != "", TitleMatches(c.search), p3);
    var byPriority := Step(bySearch, c.priority.Some?, HasPriority(c.priority));
    StepNarrows(tasks, bySearch, p3, c.priority.Some?, HasPriority(c.priority), p4);
    var r := Step(byPriority, c.status != All, StatusMatches(c.status));
    StepNarrows(tasks, byPriority, p4, c.status != All, StatusMatches(c.status), p5);
    assert forall t :: p5(t) == ShownTest(scope, c, clock)(t) by {
      forall t ensures p5(t) == ShownTest(scope, c, clock)(t) {
        ShownSteps(t, scope, c, clock);
      }
    }
    FilterSame(tasks, p5, ShownTest(scope, c, clock));
    r
  }

  /** `Shown` is the conjunction of the six steps' tests. */
  lemma ShownSteps(t: Task, scope: Scope, c: Criteria, clock: Clock)
    ensures Shown(t, scope, c, clock) <==>
      && IsActive(t)
      && (scope.listId != "" ==> InList(scope.listId)(t))
      && (scope.date != AnyDate ==> DateTest(scope.date, clock)(t))
      && (c.search != "" ==> TitleMatches(c.search)(t))
      && (c.priority.Some? ==> HasPriority(c.priority)(t))
      && (c.status != All ==> StatusMatches(c.status)(t))
  {
  }

  /** `{ high: 0, medium: 1, low: 2 }`: three distinct ranks, high first. */
  function Rank(p: Priority): (r: int)
    ensures 0 <= r <= 2
    ensures p == High <==> r == 0
    ensures p == Low <==> r == 2
  {
    match p
    case High => 0
    case Medium => 1
    case Low => 2
  }

  /** The sort comparator, negative when `a` goes first: incomplete before
      completed, then by priority rank, then newer `createdAt` first. Two
      tasks tie exactly when they agree on all three keys. */
  function Compare(a: Task, b: Task): (c: int)
    ensures c == 0 <==> a.completed == b.completed && a.priority == b.priority && a.createdAt == b.createdAt
    ensures a.completed != b.completed ==> (c < 0 <==> !a.completed)
    ensures a.completed == b.completed && a.priority != b.priority ==> (c < 0 <==> Rank(a.priority) < Rank(b.priority))
    ensures a.completed == b.completed && a.priority == b.priority ==> (c < 0 <==> a.createdAt > b.createdAt)
  {
    if a.completed != b.completed then (if a.completed then 1 else -1)
    else if a.priority != b.priority then Rank(a.priority) - Rank(b.priority)
    else b.createdAt - a.createdAt
  }

  /** The comparator is a total preorder: antisymmetric in sign and transitive. */
  lemma CompareIsTotalPreorder(a: Task, b: Task, c: Task)
    ensures Compare(a, b) == -Compare(b, a)
    ensures Compare(a, b) <= 0 && Compare(b, c) <= 0 ==> Compare(a, c) <= 0
  {
  }

  predicate Sorted(s: seq<Task>) {
    forall i, j :: 0 <= i < j < |s| ==> Compare(s[i], s[j]) <= 0
  }

  /** The tasks that tie with `y` under the comparator. */
  function Tie(y: Task): Task -> bool {
    (x: Task) => Compare(x, y) == 0
  }

  /** A task that sorts no later than every element of a sorted sequence
      can go in front of it. */
  lemma ConsSorted(h: Task, r: seq<Task>)
    requires Sorted(r)
    requires forall y :: y in r ==> Compare(h, y) <= 0
    ensures Sorted([h] + r)
  {
    forall i, j | 0 <= i < j < |[h] + r|
      ensures Compare(([h] + r)[i], ([h] + r)[j]) <= 0
    {
      assert ([h] + r)[j] == r[j - 1];
      if i == 0 {
        assert r[j - 1] in r;
      } else {
        assert ([h] + r)[i] == r[i - 1];
      }
    }
  }

  /** The first of a sorted sequence sorts no later than anything in it. */
  lemma {:induction false} HeadLeads(h: Task, tail: seq<Task>)
    requires Sorted([h] + tail)
    ensures forall y :: y in tail ==> Compare(h, y) <= 0
  {
    forall y | y in tail
      ensures Compare(h, y) <= 0
    {
      var j :| 0 <= j < |tail| && tail[j] == y;
      assert ([h] + tail)[0] == h && ([h] + tail)[j + 1] == y;
    }
  }

  /** A task that sorts no later than the first of a sorted sequence sorts
      no later than all of it. */
  lemma LeadsAll(x: Task, s: seq<Task>)
    requires Sorted(s) && s != [] && Compare(x, s[0]) <= 0
    ensures forall y :: y in s ==> Compare(x, y) <= 0
  {
    assert s == [s[0]] + s[1..];
    HeadLeads(s[0], s[1..]);
    forall y | y in s
      ensures Compare(x, y) <= 0
    {
      CompareIsTotalPreorder(x, s[0], y);
    }
  }

  /** When `x` sorts after the head `h`, `h` still leads once `x` is inserted into the tail. */
  lemma HeadStillLeads(h: Task, x: Task, tail: seq<Task>, rest: seq<Task>)
    requires Sorted([h] + tail) && Compare(x, h) > 0
    requires multiset(rest) == multiset(tail) + multiset{x}
    ensures forall y :: y in rest ==> Compare(h, y) <= 0
  {
    HeadLeads(h, tail);
    CompareIsTotalPreorder(x, h, x);
    forall y | y in rest
      ensures Compare(h, y) <= 0
    {
      assert y in multiset(rest);
      if y != x {
        assert y in multiset(tail);
      }
    }
  }

  /** Puts `x` before the first element it does not sort after. */
  function Insert(x: Task, s: seq<Task>): (r: seq<Task>)
    requires Sorted(s)
    ensures Sorted(r)
    ensures multiset(r) == multiset(s) + multiset{x}
  {
    if s == [] then [x]
    else if Compare(x, s[0]) <= 0 then
      LeadsAll(x, s);
      ConsSorted(x, s);
      [x] + s
    else
      var rest := Insert(x, s[1..]);
      assert s == [s[0]] + s[1..];
      HeadStillLeads(s[0], x, s[1..], rest);
      ConsSorted(s[0], rest);
      [s[0]] + rest
  }

  /** `x` goes in front of the tasks it ties with: among the ties of any
      `y`, the inserted task comes first and the others keep their order. */
  lemma {:induction false} InsertBeforeTies(x: Task, s: seq<Task>, y: Task)
    requires Sorted(s)
    ensures Filter(Insert(x, s), Tie(y)) == (if Tie(y)(x) then [x] else []) + Filter(s, Tie(y))
  {
    if s == [] {
      FilterCons(x, [], Tie(y));
    } else if Compare(x, s[0]) <= 0 {
      FilterCons(x, s, Tie(y));
    } else {
      var h, t := s[0], s[1..];
      var rest := Insert(x, t);
      assert Insert(x, s) == [h] + rest;
      InsertBeforeTies(x, t, y);
      FilterCons(h, rest, Tie(y));
      assert s == [h] + t;
      FilterCons(h, t, Tie(y));
      // `x` and `h` do not tie, so at most one of them ties with `y`
      assert !(Tie(y)(x) && Tie(y)(h));
      SwapEmpty(if Tie(y)(h) then [h] else [], if Tie(y)(x) then [x] else [], Filter(t, Tie(y)));
    }
  }

  /** The sort: an insertion sort. Like the engine's `Array.prototype.sort`
      it is stable: tasks that compare equal keep their input order. */
  function SortTasks(s: seq<Task>): (r: seq<Task>)
    ensures Sorted(r)
    ensures multiset(r) == multiset(s)
    ensures |r| == |s|
    ensures forall y :: Filter(r, Tie(y)) == Filter(s, Tie(y))
  {
    if s == [] then []
    else
      assert s == [s[0]] + s[1..];
      var rest := SortTasks(s[1..]);
      var r := Insert(s[0], rest);
      assert forall y :: Filter(r, Tie(y)) == Filter(s, Tie(y)) by {
        forall y
          ensures Filter(r, Tie(y)) == Filter(s, Tie(y))
        {
          InsertBeforeTies(s[0], rest, y);
          FilterCons(s[0], s[1..], Tie(y));
        }
      }
      r
  }

  /** `getFilteredTasks()`: the tasks passing every active filter, each as many
      times as in `tasks`, in comparator order; tasks that compare equal keep
      the order they have in `tasks`. */
  function FilteredTasks(tasks: seq<Task>, scope: Scope, c: Criteria, clock: Clock): (r: seq<Task>)
    ensures Sorted(r)
    ensures forall t {:trigger multiset(r)[t]} :: multiset(r)[t] == if Shown(t, scope, c, clock) then multiset(tasks)[t] else 0
    ensures forall y :: Filter(r, Tie(y)) == Filter(Filter(tasks, ShownTest(scope, c, clock)), Tie(y))
  {
    SortTasks(Stages(tasks, scope, c, clock))
  }


  /** Sequences whose tie classes agree hold the same tasks. */
  lemma SameTiesSameTasks(r1: seq<Task>, r2: seq<Task>, x: Task)
    requires forall y :: Filter(r1, Tie(y)) == Filter(r2, Tie(y))
    ensures x in r1 <==> x in r2
  {
    var f1, f2 := Filter(r1, Tie(x)), Filter(r2, Tie(x));
    assert f1 == f2;
    assert Tie(x)(x);
    assert x in r1 <==> x in f1;
    assert x in r2 <==> x in f2;
  }

  /** Two sorted sequences whose ties come in the same order start alike. */
  lemma HeadsAgree(r1: seq<Task>, r2: seq<Task>)
    requires Sorted(r1) && Sorted(r2) && r1 != [] && r2 != []
    requires forall y :: Filter(r1, Tie(y)) == Filter(r2, Tie(y))
    ensures r1[0] == r2[0]
  {
    var h1, h2 := r1[0], r2[0];
    // each head occurs in the other sequence, so neither sorts after the other
    SameTiesSameTasks(r1, r2, h1);
    SameTiesSameTasks(r1, r2, h2);
    LeadsAll(h1, r1);
    LeadsAll(h2, r2);
    assert Compare(h1, h2) <= 0 && Compare(h2, h1) <= 0;
    CompareIsTotalPreorder(h1, h2, h2);
    // the heads tie, so each is the first of the same tie class
    assert Tie(h1)(h1) && Tie(h1)(h2);
    FilterHead(r1, Tie(h1));
    FilterHead(r2, Tie(h1));
    assert Filter(r1, Tie(h1)) == Filter(r2, Tie(h1));
  }

  /** Dropping the same first task keeps the order of every tie class. */
  lemma TailTies(h: Task, t1: seq<Task>, t2: seq<Task>)
    requires forall y :: Filter([h] + t1, Tie(y)) == Filter([h] + t2, Tie(y))
    ensures forall y :: Filter(t1, Tie(y)) == Filter(t2, Tie(y))
  {
    forall y
      ensures Filter(t1, Tie(y)) == Filter(t2, Tie(y))
    {
      FilterCons(h, t1, Tie(y));
      FilterCons(h, t2, Tie(y));
      var k := if Tie(y)(h) then [h] else [];
      assert Filter(t1, Tie(y)) == (k + Filter(t1, Tie(y)))[|k|..];
      assert Filter(t2, Tie(y)) == (k + Filter(t2, Tie(y)))[|k|..];
    }
  }

  /** A sorted sequence is fixed by the order of each of its tie classes:
      two sorted sequences whose ties come in the same order are equal. */
  lemma {:induction false} SortedTiesDetermine(r1: seq<Task>, r2: seq<Task>)
    requires Sorted(r1) && Sorted(r2)
    requires forall y :: Filter(r1, Tie(y)) == Filter(r2, Tie(y))
    ensures r1 == r2
    decreases |r1|
  {
    if r1 != [] {
      SameTiesSameTasks(r1, r2, r1[0]);
    }
    if r2 != [] {
      SameTiesSameTasks(r1, r2, r2[0]);
    }
    if r1 != [] && r2 != [] {
      HeadsAgree(r1, r2);
      assert r1 == [r1[0]] + r1[1..] && r2 == [r1[0]] + r2[1..];
      TailTies(r1[0], r1[1..], r2[1..]);
      SortedTiesDetermine(r1[1..], r2[1..]);
    }
  }

  /** The view is the only sorted arrangement of the shown tasks in which
      tasks that compare equal keep their order in `tasks`. */
  lemma ViewIsUnique(tasks: seq<Task>, scope: Scope, c: Criteria, clock: Clock, v: seq<Task>)
    requires Sorted(v)
    requires forall y :: Filter(v, Tie(y)) == Filter(Filter(tasks, ShownTest(scope, c, clock)), Tie(y))
    ensures v == FilteredTasks(tasks, scope, c, clock)
  {
    SortedTiesDetermine(v, FilteredTasks(tasks, scope, c, clock));
  }

  /** `filteredTasks.filter(task => task.completed).length` */
  function CompletedCount(view: seq<Task>): (n: nat)
    ensures n <= |view|
    ensures n == |Filter(view, IsCompleted)|
  {
    Count(view, IsCompleted)
  }

  /** The view keeps only tasks of `tasks`, never an archived one, and
      only tasks of the scoped list when a list scope is set. */
  lemma ViewWithinScope(tasks: seq<Task>, scope: Scope, c: Criteria, clock: Clock)
    ensures var r := FilteredTasks(tasks, scope, c, clock);
      && multiset(r) <= multiset(tasks)
      && (forall t :: t in r ==> !t.archived)
      && (scope.listId != "" ==> forall t :: t in r ==> t.listId == scope.listId)
  {
    var r := FilteredTasks(tasks, scope, c, clock);
    forall t | t in r ensures Shown(t, scope, c, clock) {
      assert multiset(r)[t] > 0;
    }
  }

  /** Every task in the view is a task of the screen, is not archived, and
      lies in the date scope: due today (by the date part before 'T') or
      due after now. */
  lemma ViewPassesScope(tasks: seq<Task>, scope: Scope, c: Criteria, clock: Clock, t: Task)
    requires t in FilteredTasks(tasks, scope, c, clock)
    ensures t in tasks && !t.archived
    ensures scope.listId != "" ==> t.listId == scope.listId
    ensures scope.date == Today ==> HasDueDate(t) && DatePart(t.dueDate.value) == clock.today
    ensures scope.date == Upcoming ==> HasDueDate(t) && clock.instantOf(t.dueDate.value).GetOr(clock.now) > clock.now
  {
    InViewIsShown(tasks, scope, c, clock, t);
  }

  lemma InViewIsShown(tasks: seq<Task>, scope: Scope, c: Criteria, clock: Clock, t: Task)
    requires t in FilteredTasks(tasks, scope, c, clock)
    ensures t in tasks && Shown(t, scope, c, clock)
  {
    var r := FilteredTasks(tasks, scope, c, clock);
    assert multiset(r)[t] > 0;
    assert multiset(tasks)[t] > 0;
  }

  /** Every task in the view matches the search text case-insensitively,
      has the chosen priority and has the chosen status. */
  lemma ViewPassesCriteria(tasks: seq<Task>, scope: Scope, c: Criteria, clock: Clock, t: Task)
    requires t in FilteredTasks(tasks, scope, c, clock)
    ensures c.search != "" ==> Includes(ToLower(t.title), ToLower(c.search))
    ensures c.priority.Some? ==> t.priority == c.priority.value
    ensures c.status == Done ==> t.completed
    ensures c.status == Pending ==> !t.completed
  {
    InViewIsShown(tasks, scope, c, clock, t);
  }

  /** With no list or date scope and the cleared criteria, the view is a
      permutation of the tasks that are not archived. */
  lemma UnfilteredViewIsActiveTasks(tasks: seq<Task>, clock: Clock)
    ensures multiset(FilteredTasks(tasks, Scope("", AnyDate), Cleared, clock)) == multiset(Filter(tasks, IsActive))
  {
    var r := FilteredTasks(tasks, Scope("", AnyDate), Cleared, clock);
    var a := Filter(tasks, IsActive);
    forall t ensures multiset(r)[t] == multiset(a)[t] {
    }
  }

  /** In a sorted view a task that compares strictly smaller comes first:
      an incomplete task before a completed one, then high before medium
      before low, then the newer before the older. */
  lemma {:induction false} StrictlySmallerFirst(s: seq<Task>, i: int, j: int)
    requires Sorted(s) && 0 <= i < |s| && 0 <= j < |s|
    requires Compare(s[i], s[j]) < 0
    ensures i < j
  {
    if j <= i {
      if j < i {
        CompareIsTotalPreorder(s[j], s[i], s[i]);
      }
      assert false;
    }
  }

  /** Two incomplete tasks of high and low priority: the high one is listed
      first whatever their creation times. */
  lemma HighBeforeLow(tasks: seq<Task>, scope: Scope, c: Criteria, clock: Clock, i: int, j: int)
    requires var r := FilteredTasks(tasks, scope, c, clock);
      0 <= i < |r| && 0 <= j < |r| && !r[i].completed && !r[j].completed
      && r[i].priority == High && r[j].priority == Low
    ensures i < j
  {
    StrictlySmallerFirst(FilteredTasks(tasks, scope, c, clock), i, j);
  }

  /** Sorting an already sorted sequence leaves it as it is. */
  lemma {:induction false} SortKeepsSorted(s: seq<Task>)
    requires Sorted(s)
    ensures SortTasks(s) == s
  {
    if s != [] {
      SortKeepsSorted(s[1..]);
    }
  }

  /** On tasks that all pass, the filter steps keep everything. */
  lemma StagesKeepShown(s: seq<Task>, scope: Scope, c: Criteria, clock: Clock)
    requires forall i :: 0 <= i < |s| ==> Shown(s[i], scope, c, clock)
    ensures Stages(s, scope, c, clock) == s
  {
    forall i | 0 <= i < |s| ensures IsActive(s[i]) {
      ShownSteps(s[i], scope, c, clock);
    }
    FilterKeepsAll(s, IsActive);
    StepKeeps(s, scope.listId != "", InList(scope.listId));
    StepKeeps(s, scope.date != AnyDate, DateTest(scope.date, clock));
    StepKeeps(s, c.search != "", TitleMatches(c.search));
    StepKeeps(s, c.priority.Some?, HasPriority(c.priority));
    StepKeeps(s, c.status != All, StatusMatches(c.status));
  }

  lemma StepKeeps(s: seq<Task>, active: bool, p: Task -> bool)
    requires active ==> forall i :: 0 <= i < |s| ==> p(s[i])
    ensures Step(s, active, p) == s
  {
    if active {
      FilterKeepsAll(s, p);
    }
  }

  /** Recomputing the view from the view gives the same view. */
  lemma FilteredTasksIdempotent(tasks: seq<Task>, scope: Scope, c: Criteria, clock: Clock)
    ensures var r := FilteredTasks(tasks, scope, c, clock);
      FilteredTasks(r, scope, c, clock) == r
  {
    var r := FilteredTasks(tasks, scope, c, clock);
    forall i | 0 <= i < |r| ensures Shown(r[i], scope, c, clock) {
      assert multiset(r)[r[i]] > 0;
    }
    StagesKeepShown(r, scope, c, clock);
    SortKeepsSorted(r);
  }
}
