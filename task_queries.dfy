/**
 * The pure parts of backend/src/controllers/TaskController.ts: the stored
 * documents in natural order, MongoDB's `find` filters and `sort`
 * orders as the controller uses them, and the weekly summary's counts and
 * rounded progress percentage.
 */
module TaskQueries {
  import opened JsText
  import opened DateHelper
  import opened TaskModel

  /** A document `_id`; ids are handed out in increasing order. */
  type Id = nat

  /** A stored document: its id and its task. */
  datatype Entry = Entry(id: Id, task: Task)

  // ---------------------------------------------------------------------
  // The collection in natural order
  // ---------------------------------------------------------------------

  /** The documents of `m` with ids below `n`, in id (insertion) order. */
  function EntriesBelow(m: map<Id, Task>, n: nat): (s: seq<Entry>)
    ensures forall e :: e in s <==> e.id < n && e.id in m && m[e.id] == e.task
    ensures forall i, j :: 0 <= i < j < |s| ==> s[i].id < s[j].id
  {
    if n == 0 then []
    else EntriesBelow(m, n - 1) + (if n - 1 in m then [Entry(n - 1, m[n - 1])] else [])
  }

  // ---------------------------------------------------------------------
  // find
  // ---------------------------------------------------------------------

  /** The filters the controller passes to `Task.find`. */
  datatype Query =
    | DateBetween(lo: int, hi: int)   // { date: { $gte: lo, $lte: hi } }
    | TextSearch(q: string)           // { $or: [title ~ /q/i, description ~ /q/i] }

  predicate Selects(query: Query, t: Task)
  {
    match query
    case DateBetween(lo, hi) => lo <= t.date <= hi
    case TextSearch(q) => ContainsIgnoringCase(t.title, q) || ContainsIgnoringCase(t.description, q)
  }

  /** `find(query)`: every selected document, each as often as it is stored, and no other. */
  function Find(s: seq<Entry>, query: Query): (r: seq<Entry>)
    ensures forall e :: multiset(r)[e] == if Selects(query, e.task) then multiset(s)[e] else 0
    ensures forall e :: e in r <==> e in s && Selects(query, e.task)
  {
    if s == [] then []
    else
      assert s == [s[0]] + s[1..];
      (if Selects(query, s[0].task) then [s[0]] else []) + Find(s[1..], query)
  }

  // ---------------------------------------------------------------------
  // sort
  // ---------------------------------------------------------------------

  /** The two sort specifications: `{ startTime: 1 }` and `{ date: 1, startTime: 1 }`. */
  datatype SortKey = ByStartTime | ByDateThenStartTime

  /** Whether `a` may come before `b` under the sort specification. */
  predicate KeyLe(k: SortKey, a: Entry, b: Entry)
  {
    match k
    case ByStartTime => TextLe(a.task.startTime, b.task.startTime)
    case ByDateThenStartTime =>
      a.task.date < b.task.date
      || (a.task.date == b.task.date && TextLe(a.task.startTime, b.task.startTime))
  }

  lemma KeyLeTotal(k: SortKey, a: Entry, b: Entry)
    ensures KeyLe(k, a, b) || KeyLe(k, b, a)
  {
    TextLeTotal(a.task.startTime, b.task.startTime);
  }

  lemma KeyLeTransitive(k: SortKey, a: Entry, b: Entry, c: Entry)
    requires KeyLe(k, a, b) && KeyLe(k, b, c)
    ensures KeyLe(k, a, c)
  {
    if k.ByStartTime? || (a.task.date == b.task.date && b.task.date == c.task.date) {
      TextLeTransitive(a.task.startTime, b.task.startTime, c.task.startTime);
    }
  }

  predicate Sorted(k: SortKey, s: seq<Entry>)
  {
    forall i, j :: 0 <= i < j < |s| ==> KeyLe(k, s[i], s[j])
  }

  /**
   * A reference sort (insertion sort). MongoDB promises only the order,
   * not which of two equal keys comes first, so the handlers promise
   * `Sorted` and a permutation, nothing about ties.
   */
  function Insert(k: SortKey, e: Entry, s: seq<Entry>): seq<Entry>
  {
    if s == [] then [e]
    else if KeyLe(k, e, s[0]) then [e] + s
    else [s[0]] + Insert(k, e, s[1..])
  }

  function Sort(k: SortKey, s: seq<Entry>): seq<Entry>
  {
    if s == [] then [] else Insert(k, s[0], Sort(k, s[1..]))
  }

  lemma {:induction false} InsertPermutation(k: SortKey, e: Entry, s: seq<Entry>)
    ensures multiset(Insert(k, e, s)) == multiset(s) + multiset{e}
  {
    if s != [] && !KeyLe(k, e, s[0]) {
      InsertPermutation(k, e, s[1..]);
      assert s == [s[0]] + s[1..];
    }
  }

  lemma SortedTail(k: SortKey, s: seq<Entry>)
    requires Sorted(k, s) && s != []
    ensures Sorted(k, s[1..])
    ensures forall x :: x in s[1..] ==> KeyLe(k, s[0], x)
  {
    var rest := s[1..];
    forall i, j | 0 <= i < j < |rest| ensures KeyLe(k, rest[i], rest[j]) {
      assert rest[i] == s[i + 1] && rest[j] == s[j + 1];
    }
    forall x | x in rest ensures KeyLe(k, s[0], x) {
      var m :| 0 <= m < |rest| && rest[m] == x;
      assert x == s[m + 1];
    }
  }

  /** Prepending an element that may precede every element keeps a sequence sorted. */
  lemma SortedCons(k: SortKey, x: Entry, s: seq<Entry>)
    requires Sorted(k, s)
    requires forall y :: y in s ==> KeyLe(k, x, y)
    ensures Sorted(k, [x] + s)
  {
    var r := [x] + s;
    forall i, j | 0 <= i < j < |r| ensures KeyLe(k, r[i], r[j]) {
      if i == 0 {
        assert r[j] == s[j - 1];
      } else {
        assert r[i] == s[i - 1] && r[j] == s[j - 1];
      }
    }
  }

  lemma {:induction false} InsertSorted(k: SortKey, e: Entry, s: seq<Entry>)
    requires Sorted(k, s)
    ensures Sorted(k, Insert(k, e, s))
  {
    if s == [] {
    } else if KeyLe(k, e, s[0]) {
      forall y | y in s ensures KeyLe(k, e, y) {
        if y != s[0] {
          SortedTail(k, s);
          KeyLeTransitive(k, e, s[0], y);
        }
      }
      SortedCons(k, e, s);
    } else {
      KeyLeTotal(k, e, s[0]);
      SortedTail(k, s);
      var tail := Insert(k, e, s[1..]);
      InsertSorted(k, e, s[1..]);
      InsertPermutation(k, e, s[1..]);
      forall y | y in tail ensures KeyLe(k, s[0], y) {
        assert y in multiset(tail);
        if y != e {
          assert y in multiset(s[1..]);
        }
      }
      SortedCons(k, s[0], tail);
    }
  }

  /** The reference sort returns the same documents... */
  lemma {:induction false} SortPermutation(k: SortKey, s: seq<Entry>)
    ensures multiset(Sort(k, s)) == multiset(s)
  {
    if s != [] {
      SortPermutation(k, s[1..]);
      InsertPermutation(k, s[0], Sort(k, s[1..]));
      assert s == [s[0]] + s[1..];
    }
  }

  /** ...in the order of the sort specification. */
  lemma {:induction false} SortSorted(k: SortKey, s: seq<Entry>)
    ensures Sorted(k, Sort(k, s))
  {
    if s != [] {
      SortSorted(k, s[1..]);
      InsertSorted(k, s[0], Sort(k, s[1..]));
    }
  }

  /** Sorting neither adds nor drops a document. */
  lemma SortMembers(k: SortKey, s: seq<Entry>)
    ensures forall e :: e in Sort(k, s) <==> e in s
  {
    SortPermutation(k, s);
    forall e ensures e in Sort(k, s) <==> e in s {
      assert e in Sort(k, s) <==> e in multiset(Sort(k, s));
      assert e in s <==> e in multiset(s);
    }
  }

  /** startTime is compared as text, so "10:00" sorts before "9:30". */
  lemma StartTimeIsTextOrder()
    ensures var early := Entry(0, Task("a", "", 0, "9:30", "9:45", Pending));
            var late := Entry(1, Task("b", "", 0, "10:00", "10:15", Pending));
            Sorted(ByStartTime, [late, early]) && !Sorted(ByStartTime, [early, late])
  {
    var early := Entry(0, Task("a", "", 0, "9:30", "9:45", Pending));
    var late := Entry(1, Task("b", "", 0, "10:00", "10:15", Pending));
    assert TextLe("10:00", "9:30") && !TextLe("9:30", "10:00");
    assert !Sorted(ByStartTime, [early, late]) by {
      assert !KeyLe(ByStartTime, [early, late][0], [early, late][1]);
    }
  }

  // ---------------------------------------------------------------------
  // The weekly summary's arithmetic
  // ---------------------------------------------------------------------

  /** `tasks.filter(t => t.status === st).length`. */
  function CountStatus(s: seq<Entry>, st: TaskStatus): (n: nat)
    ensures n <= |s|
  {
    if s == [] then 0
    else CountStatus(s[1..], st) + (if s[0].task.status == st then 1 else 0)
  }

  /** Every task is pending or completed, so the two counts add up to the total. */
  lemma {:induction false} StatusCountsAddUp(s: seq<Entry>)
    ensures CountStatus(s, Completed) + CountStatus(s, Pending) == |s|
  {
    if s != [] {
      StatusCountsAddUp(s[1..]);
    }
  }

  /** A count is the number of positions holding a task of that status. */
  lemma {:induction false} CountStatusZeroIff(s: seq<Entry>, st: TaskStatus)
    ensures CountStatus(s, st) == 0 <==> forall i :: 0 <= i < |s| ==> s[i].task.status != st
  {
    if s != [] {
      CountStatusZeroIff(s[1..], st);
      assert forall i :: 1 <= i < |s| ==> s[i] == s[1..][i - 1];
    }
  }

  /**
   * `total > 0 ? Math.round((completed / total) * 100) : 0`, in exact
   * arithmetic: Math.round rounds half up, and floor(100c/t + 1/2) is
   * (200c + t) div 2t.
   */
  function Progress(completed: nat, total: nat): nat
  {
    if total > 0 then (200 * completed + total) / (2 * total) else 0
  }

  /** Progress is the percentage rounded to the nearest integer, halves up. */
  lemma ProgressRounds(completed: nat, total: nat)
    requires total > 0
    ensures var p := Progress(completed, total);
            2 * total * p <= 200 * completed + total < 2 * total * p + 2 * total
  {
    var p := Progress(completed, total);
    var n, d := 200 * completed + total, 2 * total;
    assert n == d * p + n % d;
  }

  /** Cancelling a positive factor from a strict inequality. */
  lemma MulStrict(m: int, x: int, y: int)
    requires m > 0 && m * x < m * y
    ensures x < y
  {
  }

  /** A percentage of at most 100, 0 for no completed task and 100 for all completed. */
  lemma ProgressBounds(completed: nat, total: nat)
    requires completed <= total
    ensures Progress(completed, total) <= 100
    ensures completed == 0 ==> Progress(completed, total) == 0
    ensures 0 < total && completed == total ==> Progress(completed, total) == 100
  {
    if total > 0 {
      var p := Progress(completed, total);
      var m := 2 * total;
      ProgressRounds(completed, total);
      MulStrict(m, p, 101);
      if completed == total {
        MulStrict(m, 100, p + 1);
      }
    }
  }

  /** Completing more tasks of the same week never lowers the progress. */
  lemma ProgressMonotonic(c1: nat, c2: nat, total: nat)
    requires c1 <= c2
    ensures Progress(c1, total) <= Progress(c2, total)
  {
    if total > 0 {
      var p1, p2 := Progress(c1, total), Progress(c2, total);
      ProgressRounds(c1, total);
      ProgressRounds(c2, total);
      MulStrict(2 * total, p1, p2 + 1);
    }
  }

  lemma ProgressExamples()
    ensures Progress(1, 3) == 33 && Progress(2, 3) == 67
    ensures Progress(1, 8) == 13 && Progress(0, 0) == 0
  {
  }

  // ---------------------------------------------------------------------
  // Windows
  // ---------------------------------------------------------------------

  /** getTodayTasks' window [getStartOfDay(now), getEndOfDay(now)] is the UTC day of `now`. */
  lemma TodayWindow(d: int, now: int)
    ensures GetStartOfDay(now) <= d <= GetEndOfDay(now) <==> Day(d) == Day(now)
  {
    var lo := GetStartOfDay(now);
    assert lo == Day(now) * MsPerDay by {
      StartOfDayIsUnique(now, Day(now) * MsPerDay);
    }
    if Day(d) == Day(now) {
      assert Day(now) * MsPerDay <= d < Day(now) * MsPerDay + MsPerDay;
    } else if Day(d) < Day(now) {
      assert d < Day(d) * MsPerDay + MsPerDay;
      assert Day(d) * MsPerDay + MsPerDay <= Day(now) * MsPerDay;
    } else {
      assert Day(d) * MsPerDay <= d;
      assert Day(now) * MsPerDay + MsPerDay <= Day(d) * MsPerDay;
    }
  }
}
