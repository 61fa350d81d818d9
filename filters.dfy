/** The filter criteria the filter bar edits: a search text, an optional
    priority (`''` is `None`) and a completion status. */
module Filters {
  import opened Wrappers
  import opened Tasks
  import opened Text

  datatype Status = All | Pending | Done

  datatype Criteria = Criteria(search: string, priority: Option<Priority>, status: Status)

  /** One `handleFilterChange(key, value)` call. */
  datatype FilterChange =
    | SearchChange(search: string)
    | PriorityChange(priority: Option<Priority>)
    | StatusChange(status: Status)

  /** `{ ...prev, [key]: value }` */
  function ApplyChange(c: Criteria, ch: FilterChange): (r: Criteria)
    ensures ch.SearchChange? ==> r == c.(search := ch.search)
    ensures ch.PriorityChange? ==> r == c.(priority := ch.priority)
    ensures ch.StatusChange? ==> r == c.(status := ch.status)
  {
    match ch
    case SearchChange(s) => Criteria(s, c.priority, c.status)
    case PriorityChange(p) => Criteria(c.search, p, c.status)
    case StatusChange(st) => Criteria(c.search, c.priority, st)
  }

  /** The state `clearFilters` sets, which is also the screens' initial state. */
  const Cleared := Criteria("", None, All)

  /** `filters.search || filters.priority || filters.status !== 'all'`:
      filters are inactive exactly in the cleared state. */
  function HasActiveFilters(c: Criteria): (b: bool)
    ensures !b <==> c == Cleared
  {
    c.search != "" || c.priority.Some? || c.status != All
  }

  /** A later change of the same key overrides an earlier one. */
  lemma LastChangeWins(c: Criteria, a: FilterChange, b: FilterChange)
    requires (a.SearchChange? && b.SearchChange?) || (a.PriorityChange? && b.PriorityChange?)
             || (a.StatusChange? && b.StatusChange?)
    ensures ApplyChange(ApplyChange(c, a), b) == ApplyChange(c, b)
  {
  }

  /** `${n} ${n === 1 ? 'task' : 'tasks'} found`, then ` (filtered)` when active. */
  function CountLabel(n: nat, active: bool): (s: string)
    ensures |s| > |Decimal(n)| && s[..|Decimal(n)|] == Decimal(n) && s[|Decimal(n)|] == ' '
    // the digits are followed by the noun, singular exactly for one task
    ensures var head := Decimal(n) + " " + TaskNoun(n) + " found";
      |head| <= |s| && s[..|head|] == head
    ensures active <==> |s| >= 11 && s[|s| - 11..] == " (filtered)"
    // nothing else follows " found" but the suffix
    ensures |s| == |Decimal(n)| + 1 + |TaskNoun(n)| + 6 + (if active then 11 else 0)
  {
    var head := Decimal(n) + " " + TaskNoun(n) + " found";
    var s := head + (if active then " (filtered)" else "");
    assert s[..|head|] == head;
    assert !active ==> s[|s| - 1] == 'd';
    s
  }

  /** The label tells both the count and whether filters are active. */
  lemma {:induction false} CountLabelInjective(n: nat, a: bool, m: nat, b: bool)
    requires CountLabel(n, a) == CountLabel(m, b)
    ensures n == m && a == b
  {
    var s := CountLabel(n, a);
    // the first space ends the digits, so both labels start with the same digits
    assert Decimal(n) == s[..|Decimal(n)|] == Decimal(m);
    DecimalInjective(n, m);
  }
}
