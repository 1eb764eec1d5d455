/**
 * The list query of the tasks endpoint: filter by up to three optional conditions, choose a
 * sort key and a direction from strings, count the filtered rows, and cut out one page.
 *
 * The source builds one store query from combinators and never mutates anything, so the
 * pipeline is a set of pure functions over the rows, given as a sequence in the order the
 * store enumerates them.
 */
module TaskQuery {
  import opened TaskModels
  import opened TaskMapper

  /** The query-string parameters of the list endpoint. */
  datatype ListQuery = ListQuery(
    isCompleted: Option<bool>,
    priority: Option<Priority>,
    dueBefore: Option<int>,
    page: int,
    pageSize: int,
    sortBy: string,
    order: string)

  /** The parameters when the client gives none. */
  const DefaultQuery := ListQuery(None, None, None, 1, 10, "CreatedAt", "desc")

  /** The list response: the paging parameters echoed back, the number of matching rows,
      and the current page. */
  datatype PagedTasks = PagedTasks(page: int, pageSize: int, totalCount: nat, tasks: seq<TaskResponse>)

  function Min(a: int, b: int): int { if a <= b then a else b }
  function Max(a: int, b: int): int { if a <= b then b else a }

  // ---------------------------------------------------------------------------------------
  // Filtering
  // ---------------------------------------------------------------------------------------

  /** One `Where` condition the handler may add. */
  datatype Condition = CompletedIs(b: bool) | PriorityIs(p: Priority) | DueOnOrBefore(limit: int)

  /** A lifted comparison with a null due date is false, so such a row never passes
      `DueOnOrBefore`. */
  predicate Holds(c: Condition, t: Task) {
    match c
    case CompletedIs(b) => t.isCompleted == b
    case PriorityIs(p) => t.priority == p
    case DueOnOrBefore(limit) => t.dueDate.Some? && t.dueDate.value <= limit
  }

  /** The reference meaning of the filters: every filter that is present holds, and an
      absent filter imposes nothing. */
  predicate Matches(q: ListQuery, t: Task) {
    && (q.isCompleted.Some? ==> t.isCompleted == q.isCompleted.value)
    && (q.priority.Some? ==> t.priority == q.priority.value)
    && (q.dueBefore.Some? ==> t.dueDate.Some? && t.dueDate.value <= q.dueBefore.value)
  }

  /** `query.Where(c)`: keeps exactly the rows satisfying `c`, each as often as it occurs. */
  function Where(s: seq<Task>, c: Condition): (r: seq<Task>)
    ensures forall t :: multiset(r)[t] == if Holds(c, t) then multiset(s)[t] else 0
  {
    if s == [] then []
    else
      assert s == [s[0]] + s[1..];
      (if Holds(c, s[0]) then [s[0]] else []) + Where(s[1..], c)
  }

  /** The three conditional `Where` steps of the handler, in the handler's order. */
  function ApplyFilters(rows: seq<Task>, q: ListQuery): (r: seq<Task>)
    ensures forall t :: multiset(r)[t] == if Matches(q, t) then multiset(rows)[t] else 0
  {
    var byCompletion := if q.isCompleted.Some? then Where(rows, CompletedIs(q.isCompleted.value)) else rows;
    var byPriority := if q.priority.Some? then Where(byCompletion, PriorityIs(q.priority.value)) else byCompletion;
    if q.dueBefore.Some? then Where(byPriority, DueOnOrBefore(q.dueBefore.value)) else byPriority
  }

  /** Reference filter: one pass keeping the rows that match every present filter. */
  function Matching(rows: seq<Task>, q: ListQuery): (r: seq<Task>)
    ensures |r| <= |rows|
    ensures forall t :: t in r ==> t in rows && Matches(q, t)
    ensures forall t :: t in rows && Matches(q, t) ==> t in r
  {
    if rows == [] then []
    else (if Matches(q, rows[0]) then [rows[0]] else []) + Matching(rows[1..], q)
  }

  lemma {:induction false} WhereAppend(a: seq<Task>, b: seq<Task>, c: Condition)
    ensures Where(a + b, c) == Where(a, c) + Where(b, c)
  {
    if a == [] {
      assert a + b == b;
    } else {
      assert (a + b)[0] == a[0];
      assert (a + b)[1..] == a[1..] + b;
      WhereAppend(a[1..], b, c);
    }
  }

  lemma WhereSingle(x: Task, c: Condition)
    ensures Where([x], c) == if Holds(c, x) then [x] else []
  {
    assert [x][1..] == [];
  }

  /** The filters distribute over a split of the rows. */
  lemma {:induction false} ApplyFiltersAppend(a: seq<Task>, b: seq<Task>, q: ListQuery)
    ensures ApplyFilters(a + b, q) == ApplyFilters(a, q) + ApplyFilters(b, q)
  {
    var c1 := if q.isCompleted.Some? then Where(a + b, CompletedIs(q.isCompleted.value)) else a + b;
    if q.isCompleted.Some? { WhereAppend(a, b, CompletedIs(q.isCompleted.value)); }
    var a1 := if q.isCompleted.Some? then Where(a, CompletedIs(q.isCompleted.value)) else a;
    var b1 := if q.isCompleted.Some? then Where(b, CompletedIs(q.isCompleted.value)) else b;
    assert c1 == a1 + b1;
    if q.priority.Some? { WhereAppend(a1, b1, PriorityIs(q.priority.value)); }
    var a2 := if q.priority.Some? then Where(a1, PriorityIs(q.priority.value)) else a1;
    var b2 := if q.priority.Some? then Where(b1, PriorityIs(q.priority.value)) else b1;
    if q.dueBefore.Some? { WhereAppend(a2, b2, DueOnOrBefore(q.dueBefore.value)); }
  }

  lemma ApplyFiltersSingle(x: Task, q: ListQuery)
    ensures ApplyFilters([x], q) == if Matches(q, x) then [x] else []
  {
    if q.isCompleted.Some? { WhereSingle(x, CompletedIs(q.isCompleted.value)); }
    var s1 := if q.isCompleted.Some? then Where([x], CompletedIs(q.isCompleted.value)) else [x];
    if q.priority.Some? {
      if s1 == [] { assert Where(s1, PriorityIs(q.priority.value)) == []; }
      else { WhereSingle(x, PriorityIs(q.priority.value)); }
    }
    var s2 := if q.priority.Some? then Where(s1, PriorityIs(q.priority.value)) else s1;
    if q.dueBefore.Some? {
      if s2 == [] { assert Where(s2, DueOnOrBefore(q.dueBefore.value)) == []; }
      else { WhereSingle(x, DueOnOrBefore(q.dueBefore.value)); }
    }
  }

  /** Chaining one `Where` per present filter is the same as one pass with their AND,
      row for row and in the same order. */
  lemma {:induction false} FiltersCombineWithAnd(rows: seq<Task>, q: ListQuery)
    ensures ApplyFilters(rows, q) == Matching(rows, q)
  {
    if rows != [] {
      assert rows == [rows[0]] + rows[1..];
      ApplyFiltersAppend([rows[0]], rows[1..], q);
      ApplyFiltersSingle(rows[0], q);
      FiltersCombineWithAnd(rows[1..], q);
    }
  }

  /** Without filters every row is kept. */
  lemma {:induction false} MatchingWithoutFilters(rows: seq<Task>, q: ListQuery)
    requires q.isCompleted.None? && q.priority.None? && q.dueBefore.None?
    ensures Matching(rows, q) == rows
  {
    if rows != [] {
      MatchingWithoutFilters(rows[1..], q);
      assert rows == [rows[0]] + rows[1..];
    }
  }

  // ---------------------------------------------------------------------------------------
  // Sorting
  // ---------------------------------------------------------------------------------------

  datatype SortKey = ByCreatedAt | ByDueDate | ByPriority

  /** Lower-casing of one character; only ASCII letters change. */
  function LowerChar(c: char): char {
    if 'A' <= c <= 'Z' then (c as int + 32) as char else c
  }

  /** `string.ToLower()`, restricted to ASCII letters. */
  function ToLower(s: string): (r: string)
    ensures |r| == |s|
    ensures forall i :: 0 <= i < |s| ==> r[i] == LowerChar(s[i])
  {
    if s == [] then [] else [LowerChar(s[0])] + ToLower(s[1..])
  }

  /** Reference definition of a case-insensitive comparison. */
  predicate EqualsIgnoringCase(a: string, b: string) {
    |a| == |b| && forall i :: 0 <= i < |a| ==> LowerChar(a[i]) == LowerChar(b[i])
  }

  predicate IsLowerCase(w: string) {
    forall i :: 0 <= i < |w| ==> LowerChar(w[i]) == w[i]
  }

  lemma ToLowerMatchesWord(s: string, w: string)
    requires IsLowerCase(w)
    ensures ToLower(s) == w <==> EqualsIgnoringCase(s, w)
  {
    if EqualsIgnoringCase(s, w) {
      assert forall i :: 0 <= i < |s| ==> ToLower(s)[i] == w[i];
    }
  }

  /** The sort field named by `sortBy`: matched case-insensitively against "duedate" and
      "priority"; every other string, however malformed, selects the creation stamp. */
  function ResolveSortKey(sortBy: string): (k: SortKey)
    ensures k == ByDueDate <==> EqualsIgnoringCase(sortBy, "duedate")
    ensures k == ByPriority <==> EqualsIgnoringCase(sortBy, "priority")
    ensures k == ByCreatedAt <==>
              !EqualsIgnoringCase(sortBy, "duedate") && !EqualsIgnoringCase(sortBy, "priority")
  {
    assert IsLowerCase("duedate") by {
      assert "duedate" == ['d', 'u', 'e', 'd', 'a', 't', 'e'];
    }
    assert IsLowerCase("priority") by {
      assert "priority" == ['p', 'r', 'i', 'o', 'r', 'i', 't', 'y'];
    }
    ToLowerMatchesWord(sortBy, "duedate");
    ToLowerMatchesWord(sortBy, "priority");
    match ToLower(sortBy)
    case "duedate" => ByDueDate
    case "priority" => ByPriority
    case _ => ByCreatedAt
  }

  /** Only the exact string "asc" asks for ascending order. */
  predicate IsAscending(order: string) {
    order == "asc"
  }

  /** Due dates compare by value; a missing due date counts as later than every date, which
      puts it last in ascending and first in descending order (PostgreSQL's default). */
  predicate DueLe(a: Option<int>, b: Option<int>) {
    b.None? || (a.Some? && a.value <= b.value)
  }

  /** `a`'s key is at most `b`'s key. */
  predicate KeyLe(k: SortKey, a: Task, b: Task) {
    match k
    case ByCreatedAt => a.createdAt <= b.createdAt
    case ByDueDate => DueLe(a.dueDate, b.dueDate)
    case ByPriority => Ordinal(a.priority) <= Ordinal(b.priority)
  }

  /** `a` may come before `b` in the requested direction. */
  predicate Precedes(k: SortKey, asc: bool, a: Task, b: Task) {
    if asc then KeyLe(k, a, b) else KeyLe(k, b, a)
  }

  /** Non-decreasing by the key when ascending, non-increasing otherwise. */
  predicate Sorted(k: SortKey, asc: bool, s: seq<Task>) {
    forall i, j :: 0 <= i < j < |s| ==> Precedes(k, asc, s[i], s[j])
  }

  /** Every key comparison is a total preorder, in either direction. */
  lemma PrecedesIsTotalPreorder(k: SortKey, asc: bool, a: Task, b: Task, c: Task)
    ensures Precedes(k, asc, a, b) || Precedes(k, asc, b, a)
    ensures Precedes(k, asc, a, b) && Precedes(k, asc, b, c) ==> Precedes(k, asc, a, c)
  {
  }

  /** A sequence stays sorted when an element that may precede all of it is put in front. */
  lemma PrependSorted(k: SortKey, asc: bool, x: Task, s: seq<Task>)
    requires Sorted(k, asc, s)
    requires forall j :: 0 <= j < |s| ==> Precedes(k, asc, x, s[j])
    ensures Sorted(k, asc, [x] + s)
  {
    var r := [x] + s;
    forall i, j | 0 <= i < j < |r| ensures Precedes(k, asc, r[i], r[j]) {
      if i > 0 {
        assert r[i] == s[i - 1] && r[j] == s[j - 1];
      }
    }
  }

  /** A bound on every element carries over to a permutation. */
  lemma BoundOfPermutation(k: SortKey, asc: bool, h: Task, a: seq<Task>, b: seq<Task>)
    requires multiset(a) == multiset(b)
    requires forall j :: 0 <= j < |b| ==> Precedes(k, asc, h, b[j])
    ensures forall j :: 0 <= j < |a| ==> Precedes(k, asc, h, a[j])
  {
    forall j | 0 <= j < |a| ensures Precedes(k, asc, h, a[j]) {
      assert a[j] in multiset(b);
      var i :| 0 <= i < |b| && b[i] == a[j];
    }
  }

  function Insert(k: SortKey, asc: bool, x: Task, s: seq<Task>): (r: seq<Task>)
    requires Sorted(k, asc, s)
    ensures multiset(r) == multiset(s) + multiset{x}
    ensures Sorted(k, asc, r)
  {
    if s == [] then [x]
    else if Precedes(k, asc, x, s[0]) then
      assert forall j :: 0 <= j < |s| ==> Precedes(k, asc, x, s[j]) by {
        forall j | 0 <= j < |s| ensures Precedes(k, asc, x, s[j]) {
          PrecedesIsTotalPreorder(k, asc, x, s[0], s[j]);
        }
      }
      PrependSorted(k, asc, x, s);
      [x] + s
    else
      var rest := Insert(k, asc, x, s[1..]);
      var pool := s[1..] + [x];
      assert s == [s[0]] + s[1..];
      assert forall j :: 0 <= j < |pool| ==> Precedes(k, asc, s[0], pool[j]) by {
        forall j | 0 <= j < |pool| ensures Precedes(k, asc, s[0], pool[j]) {
          if j == |pool| - 1 {
            PrecedesIsTotalPreorder(k, asc, x, s[0], x);
          } else {
            assert pool[j] == s[j + 1];
          }
        }
      }
      BoundOfPermutation(k, asc, s[0], rest, pool);
      PrependSorted(k, asc, s[0], rest);
      [s[0]] + rest
  }

  /** `OrderBy`/`OrderByDescending` on one key: a sorted permutation of the rows. Ties are
      left in whatever order the sort produces; nothing is promised about them. */
  function SortBy(k: SortKey, asc: bool, s: seq<Task>): (r: seq<Task>)
    ensures multiset(r) == multiset(s)
    ensures Sorted(k, asc, r)
  {
    if s == [] then []
    else
      assert s == [s[0]] + s[1..];
      Insert(k, asc, s[0], SortBy(k, asc, s[1..]))
  }

  /** The handler's `switch` on `sortBy.ToLower()` and its `order == "asc"` tests. */
  function OrderBy(rows: seq<Task>, sortBy: string, order: string): (r: seq<Task>)
    ensures multiset(r) == multiset(rows)
    ensures Sorted(ResolveSortKey(sortBy), IsAscending(order), r)
  {
    match ResolveSortKey(sortBy)
    case ByDueDate => if order == "asc" then SortBy(ByDueDate, true, rows) else SortBy(ByDueDate, false, rows)
    case ByPriority => if order == "asc" then SortBy(ByPriority, true, rows) else SortBy(ByPriority, false, rows)
    case ByCreatedAt => if order == "asc" then SortBy(ByCreatedAt, true, rows) else SortBy(ByCreatedAt, false, rows)
  }

  /** The query after filtering and sorting: a permutation of the matching rows, ordered by
      the resolved key in the resolved direction. */
  function Ordered(rows: seq<Task>, q: ListQuery): (r: seq<Task>)
    ensures multiset(r) == multiset(Matching(rows, q))
    ensures Sorted(ResolveSortKey(q.sortBy), IsAscending(q.order), r)
  {
    FiltersCombineWithAnd(rows, q);
    OrderBy(ApplyFilters(rows, q), q.sortBy, q.order)
  }

  /** The two rows tie on the key. */
  predicate SameKey(k: SortKey, a: Task, b: Task) {
    KeyLe(k, a, b) && KeyLe(k, b, a)
  }

  /** No two different rows of `m` tie on the key, so a sort by it has no choice to make. */
  predicate KeysDistinct(k: SortKey, m: multiset<Task>) {
    forall a, b :: a in m && b in m && SameKey(k, a, b) ==> a == b
  }

  /** Without ties the sorted order is unique: two sorted permutations of the same rows are
      the same sequence. */
  lemma {:induction false} SortedPermutationsAgree(k: SortKey, asc: bool, s: seq<Task>, t: seq<Task>)
    requires multiset(s) == multiset(t)
    requires Sorted(k, asc, s) && Sorted(k, asc, t)
    requires KeysDistinct(k, multiset(s))
    ensures s == t
  {
    if s == [] {
      assert |t| == |multiset(t)| == 0;
    } else {
      assert s[0] in multiset(t);
      var i :| 0 <= i < |t| && t[i] == s[0];
      assert t[0] in multiset(s);
      var j :| 0 <= j < |s| && s[j] == t[0];
      PrecedesIsTotalPreorder(k, asc, s[0], s[0], s[0]);
      assert Precedes(k, asc, s[0], t[0]) by {
        if j > 0 { assert Precedes(k, asc, s[0], s[j]); }
      }
      assert Precedes(k, asc, t[0], s[0]) by {
        if i > 0 { assert Precedes(k, asc, t[0], t[i]); }
      }
      assert SameKey(k, s[0], t[0]);
      assert s[0] == t[0];
      TailsPermute(s, t);
      SortedPermutationsAgree(k, asc, s[1..], t[1..]);
    }
  }

  /** Permutations with the same head have permuted tails. */
  lemma TailsPermute(s: seq<Task>, t: seq<Task>)
    requires multiset(s) == multiset(t)
    requires s != [] && t != [] && s[0] == t[0]
    ensures multiset(s[1..]) == multiset(t[1..])
  {
    assert s == [s[0]] + s[1..] && t == [t[0]] + t[1..];
    assert multiset(s[1..]) == multiset(s) - multiset{s[0]};
    assert multiset(t[1..]) == multiset(t) - multiset{t[0]};
  }

  /** The reference filter keeps each matching row as often as it occurs. */
  lemma {:induction false} MatchingCounts(rows: seq<Task>, q: ListQuery)
    ensures forall t :: multiset(Matching(rows, q))[t] == if Matches(q, t) then multiset(rows)[t] else 0
  {
    if rows != [] {
      MatchingCounts(rows[1..], q);
      assert rows == [rows[0]] + rows[1..];
    }
  }

  /** Two enumerations of the same rows have the same matching rows. */
  lemma MatchingIgnoresEnumeration(rows: seq<Task>, rows': seq<Task>, q: ListQuery)
    requires multiset(rows) == multiset(rows')
    ensures multiset(Matching(rows, q)) == multiset(Matching(rows', q))
  {
    MatchingCounts(rows, q);
    MatchingCounts(rows', q);
  }

  /** The store may enumerate the table in any order on each request. When no two different
      matching rows tie on the sort key, every enumeration sorts to the same sequence. */
  lemma OrderedIgnoresEnumeration(rows: seq<Task>, rows': seq<Task>, q: ListQuery)
    requires multiset(rows) == multiset(rows')
    requires KeysDistinct(ResolveSortKey(q.sortBy), multiset(Matching(rows, q)))
    ensures Ordered(rows, q) == Ordered(rows', q)
  {
    var o, o' := Ordered(rows, q), Ordered(rows', q);
    MatchingIgnoresEnumeration(rows, rows', q);
    assert multiset(o) == multiset(o');
    SortedPermutationsAgree(ResolveSortKey(q.sortBy), IsAscending(q.order), o, o');
  }

  // ---------------------------------------------------------------------------------------
  // Paging
  // ---------------------------------------------------------------------------------------

  /** `Skip(n)`: a count of zero or less skips nothing. */
  function Skip(s: seq<Task>, n: int): (r: seq<Task>)
    ensures |r| == Max(0, |s| - Max(0, n))
    ensures forall i :: 0 <= i < |r| ==> r[i] == s[Max(0, n) + i]
  {
    if n <= 0 then s else if n >= |s| then [] else s[n..]
  }

  /** `Take(n)`: a count of zero or less takes nothing. */
  function Take(s: seq<Task>, n: int): (r: seq<Task>)
    ensures |r| == Min(Max(0, n), |s|)
    ensures r == s[..|r|]
  {
    if n <= 0 then [] else if n >= |s| then s else s[..n]
  }

  /** The offset `(page - 1) * pageSize`, computed without overflow. */
  function SkipCount(page: int, pageSize: int): (n: nat)
    requires page >= 1 && pageSize >= 0
    ensures n == (page - 1) * pageSize
  {
    MulNonNegative(page - 1, pageSize);
    (page - 1) * pageSize
  }

  lemma MulNonNegative(a: int, b: int)
    requires a >= 0 && b >= 0
    ensures a * b >= 0
  {
  }

  /** `Skip(offset).Take(pageSize)`: the rows from the offset on, at most `pageSize` of them. */
  function Page(s: seq<Task>, offset: nat, pageSize: nat): (r: seq<Task>)
    ensures |r| == Min(pageSize, Max(0, |s| - offset))
    ensures forall i :: 0 <= i < |r| ==> r[i] == s[offset + i]
  {
    Take(Skip(s, offset), pageSize)
  }

  function ToResponses(s: seq<Task>): (r: seq<TaskResponse>)
    ensures |r| == |s|
    ensures forall i :: 0 <= i < |s| ==> r[i] == ToTaskResponse(s[i])
  {
    seq(|s|, i requires 0 <= i < |s| => ToTaskResponse(s[i]))
  }

  // ---------------------------------------------------------------------------------------
  // The list handler
  // ---------------------------------------------------------------------------------------

  /** `GetTasks`: the paging parameters are echoed, the count is taken over all matching rows
      before paging, and the page is the requested slice of the sorted matching rows, mapped
      to responses. */
  function GetTasks(rows: seq<Task>, q: ListQuery): (r: PagedTasks)
    requires q.page >= 1 && q.pageSize >= 0
    ensures r.page == q.page && r.pageSize == q.pageSize
    ensures r.totalCount == |Matching(rows, q)|
    ensures |r.tasks| == Min(q.pageSize, Max(0, r.totalCount - SkipCount(q.page, q.pageSize)))
    ensures forall i :: 0 <= i < |r.tasks| ==>
              r.tasks[i] == ToTaskResponse(Ordered(rows, q)[SkipCount(q.page, q.pageSize) + i])
  {
    var ordered := Ordered(rows, q);
    OrderedLength(rows, q);
    var offset := SkipCount(q.page, q.pageSize);
    var page := Page(ordered, offset, q.pageSize);
    var tasks := ToResponses(page);
    PagedTasks(q.page, q.pageSize, |ordered|, tasks)
  }

  /** Every listed item is the response of a row that passes every present filter. */
  lemma ListedItemsMatchFilters(rows: seq<Task>, q: ListQuery, i: nat)
    requires q.page >= 1 && q.pageSize >= 0
    requires i < |GetTasks(rows, q).tasks|
    ensures exists t :: t in rows && Matches(q, t) && GetTasks(rows, q).tasks[i] == ToTaskResponse(t)
  {
    OrderedMatches(rows, q);
    var t := Ordered(rows, q)[SkipCount(q.page, q.pageSize) + i];
    assert GetTasks(rows, q).tasks[i] == ToTaskResponse(t);
  }

  /** The sorted query has one row per matching row. */
  lemma OrderedLength(rows: seq<Task>, q: ListQuery)
    ensures |Ordered(rows, q)| == |Matching(rows, q)|
  {
    assert |multiset(Ordered(rows, q))| == |multiset(Matching(rows, q))|;
  }

  /** The sorted query holds only matching rows. */
  lemma OrderedMatches(rows: seq<Task>, q: ListQuery)
    ensures forall i :: 0 <= i < |Ordered(rows, q)| ==> Ordered(rows, q)[i] in rows && Matches(q, Ordered(rows, q)[i])
  {
    var o := Ordered(rows, q);
    forall i | 0 <= i < |o| ensures o[i] in rows && Matches(q, o[i]) {
      assert o[i] in multiset(Matching(rows, q));
    }
  }

  // ---------------------------------------------------------------------------------------
  // Properties of the list query
  // ---------------------------------------------------------------------------------------

  /** The count does not depend on which page is asked for, or on its size. */
  lemma TotalCountIgnoresPaging(rows: seq<Task>, q: ListQuery, page: int, pageSize: int)
    requires q.page >= 1 && q.pageSize >= 0 && page >= 1 && pageSize >= 0
    ensures GetTasks(rows, q).totalCount == GetTasks(rows, q.(page := page, pageSize := pageSize)).totalCount
  {
    assert Matching(rows, q) == Matching(rows, q.(page := page, pageSize := pageSize)) by {
      MatchingDependsOnFiltersOnly(rows, q, q.(page := page, pageSize := pageSize));
    }
  }

  lemma {:induction false} MatchingDependsOnFiltersOnly(rows: seq<Task>, q: ListQuery, q': ListQuery)
    requires q.isCompleted == q'.isCompleted && q.priority == q'.priority && q.dueBefore == q'.dueBefore
    ensures Matching(rows, q) == Matching(rows, q')
  {
    if rows != [] {
      MatchingDependsOnFiltersOnly(rows[1..], q, q');
    }
  }

  /** With no filter present the count is the number of rows. */
  lemma NoFiltersCountsEveryRow(rows: seq<Task>, q: ListQuery)
    requires q.page >= 1 && q.pageSize >= 0
    requires q.isCompleted.None? && q.priority.None? && q.dueBefore.None?
    ensures GetTasks(rows, q).totalCount == |rows|
  {
    MatchingWithoutFilters(rows, q);
  }

  /** One enumeration for both requests: the row at position `k * pageSize + j` of the sorted
      matches is item `j` of page `k + 1`. */
  lemma MatchOnItsPage(rows: seq<Task>, q: ListQuery, k: nat, j: nat)
    requires j < q.pageSize
    requires k * q.pageSize + j < |Matching(rows, q)|
    ensures var p := GetTasks(rows, q.(page := k + 1));
            j < |p.tasks| && p.tasks[j] == ToTaskResponse(Ordered(rows, q)[k * q.pageSize + j])
  {
    var q' := q.(page := k + 1);
    MatchingDependsOnFiltersOnly(rows, q, q');
    assert Ordered(rows, q') == Ordered(rows, q);
  }

  /** When no two different matching rows tie on the sort key, every matching row appears on
      exactly the page its sorted position says, whatever order the store enumerates the
      table in for that page's request: the row at position `k * pageSize + j` of the sorted
      matches is item `j` of page `k + 1`. */
  lemma EveryMatchIsOnItsPage(rows: seq<Task>, rows': seq<Task>, q: ListQuery, k: nat, j: nat)
    requires multiset(rows) == multiset(rows')
    requires KeysDistinct(ResolveSortKey(q.sortBy), multiset(Matching(rows, q)))
    requires j < q.pageSize
    requires k * q.pageSize + j < |Matching(rows, q)|
    ensures var p := GetTasks(rows', q.(page := k + 1));
            j < |p.tasks| && p.tasks[j] == ToTaskResponse(Ordered(rows, q)[k * q.pageSize + j])
  {
    OrderedIgnoresEnumeration(rows, rows', q);
    OrderedLength(rows, q);
    OrderedLength(rows', q);
    MatchOnItsPage(rows', q, k, j);
  }

  /** The default `sortBy` selects the creation stamp. */
  lemma DefaultSortsByCreation()
    ensures ResolveSortKey(DefaultQuery.sortBy) == ByCreatedAt && !IsAscending(DefaultQuery.order)
  {
    assert |DefaultQuery.sortBy| == 9;
  }

  /** Two rows that tie on the creation stamp keep the store's order under a descending sort
      by it. */
  lemma TiedPairKeepsEnumerationOrder(a: Task, b: Task, q: ListQuery)
    requires a.createdAt == b.createdAt
    requires q.isCompleted.None? && q.priority.None? && q.dueBefore.None?
    requires ResolveSortKey(q.sortBy) == ByCreatedAt && !IsAscending(q.order)
    ensures Ordered([a, b], q) == [a, b]
  {
    FiltersCombineWithAnd([a, b], q);
    MatchingWithoutFilters([a, b], q);
    assert [a, b][1..] == [b];
    assert SortBy(ByCreatedAt, false, [b]) == [b];
    assert SortBy(ByCreatedAt, false, [a, b]) == Insert(ByCreatedAt, false, a, [b]);
  }

  /** With ties nothing is promised across requests: two rows created at the same instant,
      enumerated in one order for page 1 and in the other for page 2 (one row per page), come
      back as the same row twice and the other row never. */
  lemma TiesMayRepeatAcrossPages(a: Task, b: Task)
    requires a != b && a.createdAt == b.createdAt
    ensures multiset([a, b]) == multiset([b, a])
    ensures GetTasks([a, b], DefaultQuery.(pageSize := 1)).tasks == [ToTaskResponse(a)]
    ensures GetTasks([b, a], DefaultQuery.(page := 2, pageSize := 1)).tasks == [ToTaskResponse(a)]
    ensures ToTaskResponse(b) != ToTaskResponse(a)
  {
    var q1, q2 := DefaultQuery.(pageSize := 1), DefaultQuery.(page := 2, pageSize := 1);
    DefaultSortsByCreation();
    TiedPairKeepsEnumerationOrder(a, b, q1);
    TiedPairKeepsEnumerationOrder(b, a, q2);
    OrderedLength([a, b], q1);
    OrderedLength([b, a], q2);
    SingleRowPage([a, b], q1);
    SingleRowPage([b, a], q2);
    ToTaskResponseIsLossless(a, b);
  }

  /** A page of size one holds the sorted match at position `page - 1`. */
  lemma SingleRowPage(rows: seq<Task>, q: ListQuery)
    requires q.page >= 1 && q.pageSize == 1
    requires q.page - 1 < |Matching(rows, q)|
    ensures GetTasks(rows, q).tasks == [ToTaskResponse(Ordered(rows, q)[q.page - 1])]
  {
    var p := GetTasks(rows, q);
    assert SkipCount(q.page, 1) == q.page - 1;
    assert |p.tasks| == 1;
  }

  /** The first page is the prefix of the sorted matches. */
  lemma FirstPageIsPrefix(rows: seq<Task>, q: ListQuery)
    requires q.page == 1 && q.pageSize >= 0
    ensures |GetTasks(rows, q).tasks| == Min(q.pageSize, |Ordered(rows, q)|)
    ensures forall i :: 0 <= i < |GetTasks(rows, q).tasks| ==>
              GetTasks(rows, q).tasks[i] == ToTaskResponse(Ordered(rows, q)[i])
  {
    assert SkipCount(1, q.pageSize) == 0;
    OrderedLength(rows, q);
  }

  /** A first page without filters, sorted by creation stamp in descending order, is the
      newest rows first. */
  lemma FirstPageNewestFirst(rows: seq<Task>, q: ListQuery)
    requires q.page == 1 && q.pageSize >= 0
    requires ResolveSortKey(q.sortBy) == ByCreatedAt && !IsAscending(q.order)
    ensures var p := GetTasks(rows, q);
            forall i, j :: 0 <= i < j < |p.tasks| ==> p.tasks[i].createdAt >= p.tasks[j].createdAt
  {
    var p, o := GetTasks(rows, q), Ordered(rows, q);
    FirstPageIsPrefix(rows, q);
    forall i, j | 0 <= i < j < |p.tasks| ensures p.tasks[i].createdAt >= p.tasks[j].createdAt {
      assert p.tasks[i] == ToTaskResponse(o[i]) && p.tasks[j] == ToTaskResponse(o[j]);
      assert Precedes(ByCreatedAt, false, o[i], o[j]);
    }
  }

  /** A request without parameters counts every row and lists the first ten of them, newest
      first. */
  lemma DefaultListingIsNewestFirst(rows: seq<Task>)
    ensures var p := GetTasks(rows, DefaultQuery);
            && p.page == 1 && p.pageSize == 10 && p.totalCount == |rows|
            && |p.tasks| == Min(10, |rows|)
            && (forall i :: 0 <= i < |p.tasks| ==> p.tasks[i] == ToTaskResponse(Ordered(rows, DefaultQuery)[i]))
            && (forall i, j :: 0 <= i < j < |p.tasks| ==> p.tasks[i].createdAt >= p.tasks[j].createdAt)
  {
    NoFiltersCountsEveryRow(rows, DefaultQuery);
    OrderedLength(rows, DefaultQuery);
    FirstPageIsPrefix(rows, DefaultQuery);
    DefaultSortsByCreation();
    FirstPageNewestFirst(rows, DefaultQuery);
  }

  /** A `sortBy` that names no known field, such as "invalidField", and an `order` other than
      "asc" list the newest tasks first. */
  lemma UnknownSortFieldListsNewestFirst(rows: seq<Task>, q: ListQuery)
    requires !EqualsIgnoringCase(q.sortBy, "duedate") && !EqualsIgnoringCase(q.sortBy, "priority")
    requires q.order != "asc"
    ensures forall i, j :: 0 <= i < j < |Ordered(rows, q)| ==>
              Ordered(rows, q)[i].createdAt >= Ordered(rows, q)[j].createdAt
  {
    assert ResolveSortKey(q.sortBy) == ByCreatedAt;
  }

  /** An invalid field name sorts by creation stamp. */
  lemma InvalidFieldFallsBack()
    ensures ResolveSortKey("invalidField") == ByCreatedAt
  {
  }

  /** Any capitalisation of a known field selects it. */
  lemma FieldNamesIgnoreCase()
    ensures ResolveSortKey("DueDate") == ByDueDate
    ensures ResolveSortKey("PRIORITY") == ByPriority
  {
    assert EqualsIgnoringCase("DueDate", "duedate") by {
      assert "DueDate" == ['D', 'u', 'e', 'D', 'a', 't', 'e'];
      assert "duedate" == ['d', 'u', 'e', 'd', 'a', 't', 'e'];
    }
    assert EqualsIgnoringCase("PRIORITY", "priority") by {
      assert "PRIORITY" == ['P', 'R', 'I', 'O', 'R', 'I', 'T', 'Y'];
      assert "priority" == ['p', 'r', 'i', 'o', 'r', 'i', 't', 'y'];
    }
  }

  /** Sorting on the due date orders the rows that have one by date, whatever the store does
      with the rows that have none. */
  lemma DueDateOrderAmongDatedRows(rows: seq<Task>, q: ListQuery)
    requires EqualsIgnoringCase(q.sortBy, "duedate")
    ensures var o := Ordered(rows, q);
            forall i, j :: 0 <= i < j < |o| && o[i].dueDate.Some? && o[j].dueDate.Some? ==>
              if q.order == "asc" then o[i].dueDate.value <= o[j].dueDate.value
              else o[i].dueDate.value >= o[j].dueDate.value
  {
  }

  // ---------------------------------------------------------------------------------------
  // The offset as the source computes it: 32-bit signed, wrapping
  // ---------------------------------------------------------------------------------------

  predicate IsInt32(x: int) {
    -0x8000_0000 <= x < 0x8000_0000
  }

  /** Two's-complement wrap-around of an unchecked 32-bit operation. */
  function Wrap32(x: int): (r: int)
    ensures IsInt32(r)
    ensures IsInt32(x) ==> r == x
  {
    (x + 0x8000_0000) % 0x1_0000_0000 - 0x8000_0000
  }

  /** `(page - 1) * pageSize` evaluated in `int`, as written. */
  function SkipCountAsWritten(page: int, pageSize: int): (n: int)
    requires IsInt32(page) && IsInt32(pageSize)
    ensures IsInt32(n)
    ensures page >= 1 && pageSize >= 0 && IsInt32(SkipCount(page, pageSize)) ==> n == SkipCount(page, pageSize)
  {
    Wrap32(Wrap32(page - 1) * pageSize)
  }

  /** The page as written: the store rejects a negative offset or a negative limit (`None`);
      otherwise the wrapped offset is used. Where the offset does not wrap, this is the
      corrected page. */
  function PageAsWritten(s: seq<Task>, page: int, pageSize: int): (r: Option<seq<Task>>)
    requires IsInt32(page) && IsInt32(pageSize)
    ensures r.None? <==> SkipCountAsWritten(page, pageSize) < 0 || pageSize < 0
    ensures page >= 1 && pageSize >= 0 && IsInt32(SkipCount(page, pageSize)) ==>
              r == Some(Page(s, SkipCount(page, pageSize), pageSize))
  {
    var off := SkipCountAsWritten(page, pageSize);
    if off < 0 || pageSize < 0 then None else Some(Take(Skip(s, off), pageSize))
  }

  /** Page 65537 of size 65536 lies beyond any table of at most 2^32 rows, so it should be
      empty; the wrapped offset is 0 and the first page comes back instead. */
  lemma PageOffsetOverflows(s: seq<Task>)
    requires 0 < |s| <= 0x1_0000_0000
    ensures SkipCount(65537, 65536) == 0x1_0000_0000
    ensures SkipCountAsWritten(65537, 65536) == 0
    ensures Page(s, SkipCount(65537, 65536), 65536) == []
    ensures PageAsWritten(s, 65537, 65536) == Some(Take(s, 65536))
    ensures Take(s, 65536) != []
  {
    assert Wrap32(65536 * 65536) == 0;
  }

  /** The corrected offset never wraps: a page that starts past the last matching row is empty. */
  lemma PagesPastTheEndAreEmpty(s: seq<Task>, page: int, pageSize: int)
    requires page >= 1 && pageSize >= 0
    requires SkipCount(page, pageSize) >= |s|
    ensures Page(s, SkipCount(page, pageSize), pageSize) == []
  {
  }
}
