/** The task record and `sortTasksByDueDate`: a stable sort of the task list
    by due date, closest date first. */
module TaskList {
  import opened Dates

  /** One task: its id, class, assignment name and calendar due date.
      (`class` is a reserved word here, hence `className`.) */
  datatype Task = Task(id: string, className: string, assignmentName: string, dueDate: Date)

  /** No task comes after a task that is due later: non-decreasing due dates. */
  predicate Sorted(s: seq<Task>) {
    forall i, j | 0 <= i < j < |s| :: !Before(s[j].dueDate, s[i].dueDate)
  }

  /** The tasks due on day `d`, in list order. The comparator calls two such tasks
      equal, so a stable sort must keep this subsequence as it was. */
  function DueOn(s: seq<Task>, d: Date): (r: seq<Task>)
    ensures |r| <= |s|
    ensures forall t | t in r :: t in s && t.dueDate == d
  {
    if |s| == 0 then []
    else if s[0].dueDate == d then [s[0]] + DueOn(s[1..], d)
    else DueOn(s[1..], d)
  }

  lemma DueOnAppend(a: seq<Task>, b: seq<Task>, d: Date)
    ensures DueOn(a + b, d) == DueOn(a, d) + DueOn(b, d)
  {
    if |a| == 0 {
      assert a + b == b;
    } else {
      assert (a + b)[0] == a[0];
      assert (a + b)[1..] == a[1..] + b;
      DueOnAppend(a[1..], b, d);
    }
  }

  lemma InDueOn(s: seq<Task>, t: Task)
    requires t in s
    ensures t in DueOn(s, t.dueDate)
  {
    if s[0] != t {
      assert t in s[1..];
    }
  }

  /** Inserts `x` into a sorted list after every task not due later than it:
      the place a stable sort gives the element that came last. */
  function InsertAfterPeers(x: Task, s: seq<Task>): (r: seq<Task>)
    requires Sorted(s)
    ensures Sorted(r)
    ensures multiset(r) == multiset(s) + multiset{x}
  {
    if |s| == 0 then [x]
    else if Before(x.dueDate, s[0].dueDate) then [x] + s
    else
      var rest := InsertAfterPeers(x, s[1..]);
      forall j | 0 <= j < |rest| ensures !Before(rest[j].dueDate, s[0].dueDate) {
        assert rest[j] in multiset(rest);
        if rest[j] != x {
          assert rest[j] in multiset(s[1..]);
          var k :| 0 <= k < |s[1..]| && s[1..][k] == rest[j];
          assert s[k + 1] == rest[j];
        }
      }
      assert s == [s[0]] + s[1..];
      [s[0]] + rest
  }

  /** Inserting `x` appends it to the tasks due on its day and leaves every
      other day's tasks as they were. */
  lemma {:induction false} DueOnInsert(x: Task, s: seq<Task>, d: Date)
    requires Sorted(s)
    ensures DueOn(InsertAfterPeers(x, s), d) == DueOn(s, d) + (if x.dueDate == d then [x] else [])
  {
    if |s| == 0 {
    } else if Before(x.dueDate, s[0].dueDate) {
      if x.dueDate == d {
        NoneDueOn(s, d);
      }
    } else {
      var r := InsertAfterPeers(x, s);
      assert r[1..] == InsertAfterPeers(x, s[1..]);
      DueOnInsert(x, s[1..], d);
    }
  }

  /** In a sorted list that starts after day `d`, nothing is due on `d`. */
  lemma NoneDueOn(s: seq<Task>, d: Date)
    requires Sorted(s) && |s| > 0 && Before(d, s[0].dueDate)
    ensures DueOn(s, d) == []
  {
  }

  /** `r` orders the tasks of `s` by due date and keeps the tasks of each day
      in their order in `s`: what a stable sort by due date must return. */
  ghost predicate IsStableSortOf(r: seq<Task>, s: seq<Task>) {
    Sorted(r) && forall d :: DueOn(r, d) == DueOn(s, d)
  }

  /** `sortTasksByDueDate`: `Array.prototype.sort` with the comparator
      `new Date(a.dueDate) - new Date(b.dueDate)`, which section 23.1.3.30 of
      ECMA-262 (2023) requires to be stable. Modelled as insertion sort. */
  function SortByDueDate(s: seq<Task>): (r: seq<Task>)
    ensures IsStableSortOf(r, s)
    ensures multiset(r) == multiset(s)
    decreases |s|
  {
    if |s| == 0 then []
    else
      var front, last := s[..|s| - 1], s[|s| - 1];
      assert s == front + [last];
      var r := InsertAfterPeers(last, SortByDueDate(front));
      forall d ensures DueOn(r, d) == DueOn(s, d) {
        DueOnInsert(last, SortByDueDate(front), d);
        DueOnAppend(front, [last], d);
      }
      r
  }

  /** Two lists with the same tasks on every day hold the same tasks. */
  lemma SameDaysSameMembers(a: seq<Task>, b: seq<Task>, t: Task)
    requires forall d :: DueOn(a, d) == DueOn(b, d)
    requires t in a
    ensures t in b
  {
    InDueOn(a, t);
    assert t in DueOn(b, t.dueDate);
  }

  /** Two sorted lists with the same tasks on every day start with the same task. */
  lemma SortedSameHead(a: seq<Task>, b: seq<Task>)
    requires Sorted(a) && Sorted(b) && |a| > 0 && |b| > 0
    requires forall d :: DueOn(a, d) == DueOn(b, d)
    ensures a[0] == b[0]
  {
    var x, y := a[0], b[0];
    SameDaysSameMembers(b, a, y);
    SameDaysSameMembers(a, b, x);
    var i :| 0 <= i < |a| && a[i] == y;
    var j :| 0 <= j < |b| && b[j] == x;
    assert !Before(y.dueDate, x.dueDate) by {
      if i > 0 { assert !Before(a[i].dueDate, a[0].dueDate); }
    }
    assert !Before(x.dueDate, y.dueDate) by {
      if j > 0 { assert !Before(b[j].dueDate, b[0].dueDate); }
    }
    BeforeTrichotomy(x.dueDate, y.dueDate);
    assert DueOn(a, x.dueDate)[0] == x;
    assert DueOn(b, y.dueDate)[0] == y;
  }

  /** A sorted list is fixed by its tasks of each day: two sorted lists with
      the same per-day subsequences are the same list. */
  lemma {:induction false} SortedUnique(a: seq<Task>, b: seq<Task>)
    requires Sorted(a) && Sorted(b)
    requires forall d :: DueOn(a, d) == DueOn(b, d)
    ensures a == b
    decreases |a|
  {
    if |a| == 0 || |b| == 0 {
      if |a| > 0 {
        SameDaysSameMembers(a, b, a[0]);
      } else if |b| > 0 {
        SameDaysSameMembers(b, a, b[0]);
      }
    } else {
      SortedSameHead(a, b);
      var x := a[0];
      forall d ensures DueOn(a[1..], d) == DueOn(b[1..], d) {
        if d == x.dueDate {
          assert DueOn(a, d) == [x] + DueOn(a[1..], d);
          assert DueOn(b, d) == [x] + DueOn(b[1..], d);
          assert DueOn(a[1..], d) == DueOn(a, d)[1..];
          assert DueOn(b[1..], d) == DueOn(b, d)[1..];
        } else {
          assert DueOn(a, d) == DueOn(a[1..], d);
          assert DueOn(b, d) == DueOn(b[1..], d);
        }
        assert DueOn(a, d) == DueOn(b, d);
      }
      SortedUnique(a[1..], b[1..]);
      assert a == [x] + a[1..] && b == [x] + b[1..];
    }
  }

  /** The sort's result is characterised without reference to how it is
      computed: it is THE sorted list that keeps every day's tasks in order. */
  lemma {:induction false} SortIsTheStableSort(s: seq<Task>, r: seq<Task>)
    ensures r == SortByDueDate(s) <==> IsStableSortOf(r, s)
  {
    var q := SortByDueDate(s);
    if IsStableSortOf(r, s) {
      assert forall d :: DueOn(r, d) == DueOn(q, d);
      SortedUnique(r, q);
    }
  }

  /** Sorting a list that is already in due-date order leaves it unchanged. */
  lemma {:induction false} SortKeepsSorted(s: seq<Task>)
    requires Sorted(s)
    ensures SortByDueDate(s) == s
  {
    SortedUnique(SortByDueDate(s), s);
  }

  /** Sorting twice is sorting once: the re-sort effect finds nothing to do. */
  lemma {:induction false} SortIdempotent(s: seq<Task>)
    ensures SortByDueDate(SortByDueDate(s)) == SortByDueDate(s)
  {
    SortKeepsSorted(SortByDueDate(s));
  }

  /** The number of leading tasks that are not due after `x`. */
  function NotAfterPrefix(x: Task, s: seq<Task>): (k: nat)
    ensures k <= |s|
    ensures forall i | 0 <= i < k :: !Before(x.dueDate, s[i].dueDate)
    ensures k < |s| ==> Before(x.dueDate, s[k].dueDate)
  {
    if |s| == 0 || Before(x.dueDate, s[0].dueDate) then 0
    else 1 + NotAfterPrefix(x, s[1..])
  }

  /** Sorting a sorted list with one task appended puts that task after every
      task not due later than it, and before every task due later. */
  lemma {:induction false} SortAppended(s: seq<Task>, x: Task)
    requires Sorted(s)
    ensures var k := NotAfterPrefix(x, s);
            && SortByDueDate(s + [x]) == s[..k] + [x] + s[k..]
            && (forall i | k <= i < |s| :: Before(x.dueDate, s[i].dueDate))
  {
    var k := NotAfterPrefix(x, s);
    assert (s + [x])[..|s|] == s;
    SortKeepsSorted(s);
    InsertPosition(x, s);
    forall i | k <= i < |s| ensures Before(x.dueDate, s[i].dueDate) {
      if i > k {
        BeforeTrichotomy(s[i].dueDate, s[k].dueDate);
        if s[i].dueDate != s[k].dueDate {
          BeforeTransitive(x.dueDate, s[k].dueDate, s[i].dueDate);
        }
      }
    }
  }

  /** The insertion puts `x` right after the leading tasks not due after it. */
  lemma {:induction false} InsertPosition(x: Task, s: seq<Task>)
    requires Sorted(s)
    ensures var k := NotAfterPrefix(x, s); InsertAfterPeers(x, s) == s[..k] + [x] + s[k..]
  {
    if |s| == 0 || Before(x.dueDate, s[0].dueDate) {
      assert NotAfterPrefix(x, s) == 0;
      assert s[..0] == [] && s[0..] == s;
    } else {
      InsertPosition(x, s[1..]);
      InsertPositionStep(x, s);
    }
  }

  lemma {:induction false} InsertPositionStep(x: Task, s: seq<Task>)
    requires Sorted(s) && |s| > 0 && !Before(x.dueDate, s[0].dueDate)
    requires var k := NotAfterPrefix(x, s[1..]); InsertAfterPeers(x, s[1..]) == s[1..][..k] + [x] + s[1..][k..]
    ensures var k := NotAfterPrefix(x, s); InsertAfterPeers(x, s) == s[..k] + [x] + s[k..]
  {
    var k := NotAfterPrefix(x, s[1..]);
    assert NotAfterPrefix(x, s) == k + 1;
    assert InsertAfterPeers(x, s) == [s[0]] + InsertAfterPeers(x, s[1..]);
    SplitAfterHead(s, k, x);
  }

  /** Splicing `x` in at `k` in the tail is splicing it in at `k + 1`. */
  lemma SplitAfterHead<T>(s: seq<T>, k: nat, x: T)
    requires 0 < |s| && k < |s|
    ensures [s[0]] + (s[1..][..k] + [x] + s[1..][k..]) == s[..k + 1] + [x] + s[k + 1..]
  {
    assert s[..k + 1] == [s[0]] + s[1..][..k];
    assert s[k + 1..] == s[1..][k..];
  }

  /** No two tasks share an assignment name. */
  predicate DistinctNames(s: seq<Task>) {
    forall i, j | 0 <= i < j < |s| :: s[i].assignmentName != s[j].assignmentName
  }

  lemma {:induction false} DistinctOccursOnce(s: seq<Task>, t: Task)
    requires DistinctNames(s)
    ensures multiset(s)[t] <= 1
  {
    if |s| > 0 {
      assert s == [s[0]] + s[1..];
      DistinctOccursOnce(s[1..], t);
      if t == s[0] {
        assert t !in s[1..] by {
          forall k | 0 <= k < |s[1..]| ensures s[1..][k] != t {
            assert s[0].assignmentName != s[k + 1].assignmentName;
          }
        }
      }
    }
  }

  /** Reordering keeps assignment names distinct: they belong to the tasks,
      not to the positions. */
  lemma PermutationKeepsDistinctNames(a: seq<Task>, b: seq<Task>)
    requires multiset(a) == multiset(b) && DistinctNames(a)
    ensures DistinctNames(b)
  {
    forall i, j | 0 <= i < j < |b| ensures b[i].assignmentName != b[j].assignmentName {
      if b[i] == b[j] {
        assert b == b[..j] + b[j..];
        assert b[i] in b[..j] && b[j] in b[j..];
        assert multiset(b)[b[j]] >= 2;
        DistinctOccursOnce(a, b[j]);
      } else {
        assert b[i] in multiset(a) && b[j] in multiset(a);
        var p :| 0 <= p < |a| && a[p] == b[i];
        var q :| 0 <= q < |a| && a[q] == b[j];
        assert p != q;
        if p > q {
          assert a[q].assignmentName != a[p].assignmentName;
        }
      }
    }
  }
}
