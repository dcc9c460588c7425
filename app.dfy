/**
 * The application root: the task collection with its add, toggle and delete
 * handlers and the admin flag, and the views derived from the collection
 * (priority order, the overdue and upcoming buckets, the productivity figure).
 */
module App {
  import opened Wrappers
  import opened Text
  import opened Lists
  import opened TaskTypes

  // ---------------------------------------------------------------------------
  // Priority order

  /** The `priorityOrder` table: high before medium before low. */
  function Rank(p: Priority): (r: int)
    ensures 1 <= r <= 3
    ensures p == High <==> r == 1
    ensures p == Low <==> r == 3
  {
    match p
    case High => 1
    case Medium => 2
    case Low => 3
  }

  /** The `sortedTasks` comparator as a key: rank ascending, then newest `createdAt` first. */
  function PriorityKey(t: Task): Key {
    Key(Rank(t.priority), -t.createdAt)
  }

  /** The `sortedTasks` comparator as written: the rank difference, else `b.createdAt - a.createdAt`. */
  function CompareByPriority(a: Task, b: Task): (c: int)
    ensures c == 0 <==> a.priority == b.priority && a.createdAt == b.createdAt
  {
    var priorityDiff := Rank(a.priority) - Rank(b.priority);
    if priorityDiff != 0 then priorityDiff else b.createdAt - a.createdAt
  }

  /** Ordering by the key is ordering by the comparator: `a` may come first exactly when it does not compare above `b`. */
  lemma PriorityKeyAgrees(a: Task, b: Task)
    ensures KeyLe(PriorityKey(a), PriorityKey(b)) <==> CompareByPriority(a, b) <= 0
  {
  }

  /**
   * `sortedTasks`: a permutation of the tasks, by rank, and newest first
   * within one rank.
   */
  function SortedTasks(tasks: seq<Task>): (r: seq<Task>)
    ensures multiset(r) == multiset(tasks)
    ensures forall i, j :: 0 <= i < j < |r| ==>
              && Rank(r[i].priority) <= Rank(r[j].priority)
              && (Rank(r[i].priority) == Rank(r[j].priority) ==> r[i].createdAt >= r[j].createdAt)
  {
    SortBy(tasks, PriorityKey)
  }

  /** Tasks of equal rank and equal `createdAt` stay in their stored order. */
  lemma SortedTasksStable(tasks: seq<Task>, rank: int, createdAt: int)
    ensures var k := Key(rank, -createdAt);
      WithKey(SortedTasks(tasks), PriorityKey, k) == WithKey(tasks, PriorityKey, k)
  {
    SortByStable(tasks, PriorityKey, Key(rank, -createdAt));
  }

  /** A high-priority task is listed before a low-priority one, whichever was created first. */
  lemma HighBeforeLow(high: Task, low: Task)
    requires high.priority == High && low.priority == Low
    ensures SortedTasks([high, low]) == [high, low]
    ensures SortedTasks([low, high]) == [high, low]
  {
    assert multiset([low, high]) == multiset([high, low]);
    OrderedPair(SortedTasks([high, low]), high, low);
    OrderedPair(SortedTasks([low, high]), high, low);
  }

  /** A two-element permutation of `a` and `b` ordered by rank, where `a` ranks strictly first, is `[a, b]`. */
  lemma OrderedPair(r: seq<Task>, a: Task, b: Task)
    requires multiset(r) == multiset([a, b])
    requires Rank(a.priority) < Rank(b.priority)
    requires |r| == 2 ==> Rank(r[0].priority) <= Rank(r[1].priority)
    ensures r == [a, b]
  {
    assert |r| == |multiset(r)| == 2;
    assert r == [r[0], r[1]];
    assert r[0] in multiset(r) && r[1] in multiset(r);
    assert r[0] == a;
    assert multiset([r[1]]) == multiset(r) - multiset{a};
    assert r[1] in multiset([b]);
  }

  // ---------------------------------------------------------------------------
  // Overdue and upcoming buckets

  /** The bucket rule: incomplete, with a due date, and that date before `now`. */
  predicate IsOverdue(t: Task, now: int) {
    !t.completed && t.dueDate.Some? && t.dueDate.value < now
  }

  function Late(now: int): Task -> bool {
    (t: Task) => IsOverdue(t, now)
  }

  function InBucket(now: int, overdue: bool): Task -> bool {
    if overdue then Late(now) else Not(Late(now))
  }

  /** The overdue (`overdue`) or upcoming (`!overdue`) tasks of `s`, in their order in `s`. */
  function Bucket(s: seq<Task>, now: int, overdue: bool): (r: seq<Task>)
    ensures |r| <= |s|
  {
    Filter(s, InBucket(now, overdue))
  }

  /** A task is in a bucket exactly when it is in the list and the rule puts it there. */
  lemma BucketMember(s: seq<Task>, now: int, overdue: bool, t: Task)
    ensures t in Bucket(s, now, overdue) <==> t in s && IsOverdue(t, now) == overdue
  {
    FilterMember(s, InBucket(now, overdue), t);
  }

  /** Every task lands in exactly one of the two buckets. */
  lemma BucketsPartition(s: seq<Task>, now: int)
    ensures multiset(Bucket(s, now, false)) + multiset(Bucket(s, now, true)) == multiset(s)
  {
    FilterComplement(s, Late(now));
  }

  /** The overdue re-sort: rank first, then the earliest due date. */
  function OverdueKey(t: Task): Key {
    Key(Rank(t.priority), t.dueDate.GetOr(0))
  }

  /** The overdue comparator as written: the rank difference, else the difference of the due dates. */
  function CompareOverdue(a: Task, b: Task): (c: int)
    requires a.dueDate.Some? && b.dueDate.Some?
    ensures c == 0 <==> a.priority == b.priority && a.dueDate == b.dueDate
  {
    var priorityDiff := Rank(a.priority) - Rank(b.priority);
    if priorityDiff != 0 then priorityDiff else a.dueDate.value - b.dueDate.value
  }

  /** On tasks with due dates, as every overdue task has, the key order is the comparator's order. */
  lemma OverdueKeyAgrees(a: Task, b: Task)
    requires a.dueDate.Some? && b.dueDate.Some?
    ensures KeyLe(OverdueKey(a), OverdueKey(b)) <==> CompareOverdue(a, b) <= 0
  {
  }

  /** Every task of a bucket meets (or fails) the overdue rule as the bucket says. */
  lemma BucketAll(s: seq<Task>, now: int, overdue: bool)
    ensures var b := Bucket(s, now, overdue);
      forall i :: 0 <= i < |b| ==> IsOverdue(b[i], now) == overdue
  {
    var b := Bucket(s, now, overdue);
    forall i | 0 <= i < |b| ensures IsOverdue(b[i], now) == overdue {
      BucketMember(s, now, overdue, b[i]);
    }
  }

  /** The upcoming bucket: `sortedTasks` without the overdue tasks, in `sortedTasks` order. */
  function TodayTasks(tasks: seq<Task>, now: int): (r: seq<Task>)
    ensures forall i :: 0 <= i < |r| ==> !IsOverdue(r[i], now)
  {
    BucketAll(SortedTasks(tasks), now, false);
    Bucket(SortedTasks(tasks), now, false)
  }

  /** The overdue bucket, re-sorted by rank and then by earliest due date. */
  function OverdueTasks(tasks: seq<Task>, now: int): (r: seq<Task>)
    ensures forall i :: 0 <= i < |r| ==> IsOverdue(r[i], now)
  {
    var late := Bucket(SortedTasks(tasks), now, true);
    var r := SortBy(late, OverdueKey);
    assert forall i :: 0 <= i < |r| ==> r[i] in multiset(late) by {
      forall i | 0 <= i < |r| ensures r[i] in multiset(late) {
        assert r[i] in multiset(r);
      }
    }
    BucketAll(SortedTasks(tasks), now, true);
    r
  }

  /**
   * The `todayTasks`/`overdueTasks` split: walk `sortedTasks`, push each task
   * onto one of two lists, then sort the overdue list by rank and due date.
   */
  method SplitByDue(tasks: seq<Task>, now: int) returns (today: seq<Task>, overdue: seq<Task>)
    ensures today == TodayTasks(tasks, now)
    ensures overdue == OverdueTasks(tasks, now)
  {
    var sorted := SortedTasks(tasks);
    today, overdue := [], [];
    var i := 0;
    while i < |sorted|
      invariant 0 <= i <= |sorted|
      invariant today == Bucket(sorted[..i], now, false)
      invariant overdue == Bucket(sorted[..i], now, true)
    {
      var task := sorted[i];
      BucketStep(sorted, i, now);
      if IsOverdue(task, now) {
        overdue := overdue + [task];
      } else {
        today := today + [task];
      }
      i := i + 1;
    }
    assert sorted[..i] == sorted;
    overdue := SortBy(overdue, OverdueKey);
  }

  /** Extending the walked prefix by one task extends exactly one bucket by that task. */
  lemma BucketStep(s: seq<Task>, i: int, now: int)
    requires 0 <= i < |s|
    ensures IsOverdue(s[i], now) ==>
              && Bucket(s[..i + 1], now, true) == Bucket(s[..i], now, true) + [s[i]]
              && Bucket(s[..i + 1], now, false) == Bucket(s[..i], now, false)
    ensures !IsOverdue(s[i], now) ==>
              && Bucket(s[..i + 1], now, false) == Bucket(s[..i], now, false) + [s[i]]
              && Bucket(s[..i + 1], now, true) == Bucket(s[..i], now, true)
  {
    assert s[..i + 1] == s[..i] + [s[i]];
    FilterAppend(s[..i], [s[i]], InBucket(now, false));
    FilterAppend(s[..i], [s[i]], InBucket(now, true));
  }

  /** A task is overdue-listed exactly when it is overdue, and upcoming-listed exactly when it is not. */
  lemma SplitMembers(tasks: seq<Task>, now: int, t: Task)
    ensures t in OverdueTasks(tasks, now) <==> t in tasks && IsOverdue(t, now)
    ensures t in TodayTasks(tasks, now) <==> t in tasks && !IsOverdue(t, now)
  {
    var sorted := SortedTasks(tasks);
    var late := Bucket(sorted, now, true);
    assert t in tasks <==> t in multiset(sorted);
    assert t in SortBy(late, OverdueKey) <==> t in multiset(late);
    BucketMember(sorted, now, true, t);
    BucketMember(sorted, now, false, t);
  }

  /** The two buckets together are a permutation of the tasks. */
  lemma SplitIsPermutation(tasks: seq<Task>, now: int)
    ensures multiset(TodayTasks(tasks, now) + OverdueTasks(tasks, now)) == multiset(tasks)
  {
    BucketsPartition(SortedTasks(tasks), now);
  }

  /**
   * The upcoming bucket keeps the `sortedTasks` order; the overdue bucket is
   * by rank, then by earliest due date.
   */
  lemma SplitOrder(tasks: seq<Task>, now: int)
    ensures SortedBy(TodayTasks(tasks, now), PriorityKey)
    ensures var late := OverdueTasks(tasks, now);
      forall i, j :: 0 <= i < j < |late| ==>
        && Rank(late[i].priority) <= Rank(late[j].priority)
        && (Rank(late[i].priority) == Rank(late[j].priority) ==>
              late[i].dueDate.GetOr(0) <= late[j].dueDate.GetOr(0))
  {
    FilterSorted(SortedTasks(tasks), InBucket(now, false), PriorityKey);
  }

  // ---------------------------------------------------------------------------
  // Productivity

  predicate Done(t: Task) {
    t.completed
  }

  function CompletedCount(s: seq<Task>): (c: nat)
    ensures c <= |s|
  {
    |Filter(s, Done)|
  }

  /**
   * `productivityPercentage`: 100 when there are no tasks, otherwise the
   * completed share of all tasks in per cent, rounded half up as `Math.round` does.
   */
  function ProductivityPercentage(today: seq<Task>, overdue: seq<Task>): (p: int)
    ensures 0 <= p <= 100
    ensures |today| + |overdue| == 0 ==> p == 100
    ensures var n, c := |today| + |overdue|, CompletedCount(today);
      n > 0 ==> 2 * n * p <= 200 * c + n < 2 * n * (p + 1)
  {
    var n := |today| + |overdue|;
    if n == 0 then 100
    else
      var c := CompletedCount(today);
      RoundedShare(c, n);
      (200 * c + n) / (2 * n)
  }

  lemma RoundedShare(c: nat, n: nat)
    requires 0 < n && c <= n
    ensures var p := (200 * c + n) / (2 * n);
      0 <= p <= 100 && 2 * n * p <= 200 * c + n < 2 * n * (p + 1)
  {
    var a, b := 200 * c + n, 2 * n;
    var p := a / b;
    assert b * p + a % b == a;
    assert 0 <= a % b < b;
    assert a < b * 101;
    if p > 100 {
      MulMonotone(b, 101, p);
    }
  }

  lemma MulMonotone(b: nat, x: int, y: int)
    requires x <= y
    ensures b * x <= b * y
  {
  }

  /** The completed count does not depend on the order of the list. */
  lemma CompletedCountPermutation(a: seq<Task>, b: seq<Task>)
    requires multiset(a) == multiset(b)
    ensures CompletedCount(a) == CompletedCount(b)
  {
    FilterLengthPermutation(a, b, Done);
  }

  /** Overdue tasks are incomplete, so the upcoming bucket holds every completed task. */
  lemma {:induction false} CompletedAllUpcoming(s: seq<Task>, now: int)
    ensures CompletedCount(Bucket(s, now, false)) == CompletedCount(s)
  {
    if s != [] {
      CompletedAllUpcoming(s[1..], now);
      var head := if IsOverdue(s[0], now) then [] else [s[0]];
      FilterAppend(head, Bucket(s[1..], now, false), Done);
    }
  }

  /**
   * The figure shown for the collection is the completed share of ALL tasks,
   * rounded: the bucket split loses no task and no completed task.
   */
  lemma ProductivityOfTasks(tasks: seq<Task>, now: int)
    ensures var p := ProductivityPercentage(TodayTasks(tasks, now), OverdueTasks(tasks, now));
      var n, c := |tasks|, CompletedCount(tasks);
      && (n == 0 ==> p == 100)
      && (n > 0 ==> 2 * n * p <= 200 * c + n < 2 * n * (p + 1))
  {
    var sorted := SortedTasks(tasks);
    var today, late := TodayTasks(tasks, now), OverdueTasks(tasks, now);
    SplitIsPermutation(tasks, now);
    assert |today + late| == |multiset(today + late)| == |multiset(tasks)| == |tasks|;
    CompletedAllUpcoming(sorted, now);
    CompletedCountPermutation(sorted, tasks);
    SameShare(today, late, tasks);
  }

  lemma SameShare(today: seq<Task>, late: seq<Task>, tasks: seq<Task>)
    requires |today| + |late| == |tasks|
    requires CompletedCount(today) == CompletedCount(tasks)
    ensures var p := ProductivityPercentage(today, late);
      var n, c := |tasks|, CompletedCount(tasks);
      && (n == 0 ==> p == 100)
      && (n > 0 ==> 2 * n * p <= 200 * c + n < 2 * n * (p + 1))
  {
  }

  // ---------------------------------------------------------------------------
  // Toggle and delete

  /** `toggleTask`'s `map`: flip `completed` on every task whose id is `id`. */
  function Toggled(tasks: seq<Task>, id: string): (r: seq<Task>)
    ensures |r| == |tasks|
  {
    seq(|tasks|, i requires 0 <= i < |tasks| =>
      if tasks[i].id == id then tasks[i].(completed := !tasks[i].completed) else tasks[i])
  }

  /** Only `completed` changes, and only on tasks with the given id. */
  lemma ToggledChangesOnlyCompleted(tasks: seq<Task>, id: string, i: int)
    requires 0 <= i < |tasks|
    ensures Toggled(tasks, id)[i].completed == (tasks[i].completed != (tasks[i].id == id))
    ensures Toggled(tasks, id)[i].(completed := tasks[i].completed) == tasks[i]
  {
  }

  /** Toggling the same id twice restores the list. */
  lemma ToggleTwice(tasks: seq<Task>, id: string)
    ensures Toggled(Toggled(tasks, id), id) == tasks
  {
  }

  /** Toggling an id no task carries changes nothing. */
  lemma ToggleAbsent(tasks: seq<Task>, id: string)
    requires forall i :: 0 <= i < |tasks| ==> tasks[i].id != id
    ensures Toggled(tasks, id) == tasks
  {
  }

  /** Toggling keeps every text and every id in place, so both collection invariants survive. */
  lemma ToggledKeepsInvariants(tasks: seq<Task>, id: string)
    ensures DistinctTexts(tasks) ==> DistinctTexts(Toggled(tasks, id))
    ensures UniqueIds(tasks) ==> UniqueIds(Toggled(tasks, id))
  {
    var r := Toggled(tasks, id);
    if DistinctTexts(tasks) {
      SameImagesDistinct(tasks, r, TextKey);
    }
    if UniqueIds(tasks) {
      SameImagesDistinct(tasks, r, IdOf);
    }
  }

  function IdIsNot(id: string): Task -> bool {
    (t: Task) => t.id != id
  }

  /** `deleteTask`'s `filter`: the tasks whose id is not `id`, in their order. */
  function Removed(tasks: seq<Task>, id: string): (r: seq<Task>)
    ensures |r| <= |tasks|
    ensures forall i :: 0 <= i < |r| ==> r[i].id != id
  {
    var r := Filter(tasks, IdIsNot(id));
    forall i | 0 <= i < |r| ensures r[i].id != id {
      FilterMember(tasks, IdIsNot(id), r[i]);
    }
    r
  }

  /** Exactly the tasks with the id go: a task stays iff it was there and has another id. */
  lemma RemovedMember(tasks: seq<Task>, id: string, t: Task)
    ensures t in Removed(tasks, id) <==> t in tasks && t.id != id
  {
    FilterMember(tasks, IdIsNot(id), t);
  }

  /** Deleting keeps a subsequence, so both collection invariants survive. */
  lemma RemovedKeepsInvariants(tasks: seq<Task>, id: string)
    ensures DistinctTexts(tasks) ==> DistinctTexts(Removed(tasks, id))
    ensures UniqueIds(tasks) ==> UniqueIds(Removed(tasks, id))
  {
    if DistinctTexts(tasks) {
      FilterDistinct(tasks, IdIsNot(id), TextKey);
    }
    if UniqueIds(tasks) {
      FilterDistinct(tasks, IdIsNot(id), IdOf);
    }
  }

  /** Deleting an id no task carries changes nothing. */
  lemma RemovedAbsent(tasks: seq<Task>, id: string)
    requires forall i :: 0 <= i < |tasks| ==> tasks[i].id != id
    ensures Removed(tasks, id) == tasks
  {
    FilterKeepsAll(tasks, IdIsNot(id));
  }

  /** Deleting keeps the remaining tasks in their original order: it works part by part. */
  lemma RemovedKeepsOrder(a: seq<Task>, b: seq<Task>, id: string)
    ensures Removed(a + b, id) == Removed(a, id) + Removed(b, id)
  {
    FilterAppend(a, b, IdIsNot(id));
  }

  // ---------------------------------------------------------------------------
  // Adding tasks

  /** The comparison form of a task text: trimmed, then lower-cased. */
  function Normalized(text: string): (r: string)
    ensures |r| <= |text|
    ensures r == [] <==> AllWhitespace(text)
  {
    ToLower(Trim(text))
  }

  /**
   * `tasks.some(...)`: some task's text matches `text` after normalisation.
   * A stored text identical to `text` always matches.
   */
  function HasText(tasks: seq<Task>, text: string): (b: bool)
    ensures tasks == [] ==> !b
    ensures forall i :: 0 <= i < |tasks| && tasks[i].text == text ==> b
  {
    exists i :: 0 <= i < |tasks| && Normalized(tasks[i].text) == Normalized(text)
  }

  function TextKey(t: Task): string {
    Normalized(t.text)
  }

  function IdOf(t: Task): string {
    t.id
  }

  /** No two tasks have the same normalised text. */
  predicate DistinctTexts(tasks: seq<Task>) {
    DistinctBy(tasks, TextKey)
  }

  predicate UniqueIds(tasks: seq<Task>) {
    DistinctBy(tasks, IdOf)
  }

  /** A text and its trimmed form match the same tasks. */
  lemma SameNormalForm(tasks: seq<Task>, text: string)
    ensures HasText(tasks, Trim(text)) == HasText(tasks, text)
  {
    TrimIdempotent(text);
  }

  /**
   * A successful `addTask` keeps the texts distinct, and keeps the ids unique
   * when the new id is fresh.
   */
  lemma PrependKeepsInvariants(tasks: seq<Task>, t: Task)
    ensures DistinctTexts(tasks) && !HasText(tasks, t.text) ==> DistinctTexts([t] + tasks)
    ensures UniqueIds(tasks) && (forall i :: 0 <= i < |tasks| ==> tasks[i].id != t.id) ==>
              UniqueIds([t] + tasks)
  {
    if DistinctTexts(tasks) && !HasText(tasks, t.text) {
      assert forall i :: 0 <= i < |tasks| ==> TextKey(tasks[i]) != TextKey(t);
      PrependDistinct(tasks, t, TextKey);
    }
    if UniqueIds(tasks) && (forall i :: 0 <= i < |tasks| ==> tasks[i].id != t.id) {
      PrependDistinct(tasks, t, IdOf);
    }
  }

  /** The transient messages of `addTask`. */
  datatype Notice = AdminEnabled | AdminDisabled | AlreadyExists

  /** The application root's task state: the collection, the admin flag and the shown message. */
  class TaskBoard {
    var tasks: seq<Task>
    var isAdmin: bool
    var notification: Option<Notice>

    /**
     * The initial state: the stored list when it was present and parsed
     * (`saved`), the empty list otherwise; not admin; no message.
     */
    constructor (saved: Option<seq<Task>>)
      ensures tasks == saved.GetOr([])
      ensures !isAdmin && notification == None
    {
      tasks := saved.GetOr([]);
      isAdmin := false;
      notification := None;
    }

    /**
     * `addTask`. `freshId` stands for `crypto.randomUUID()` and `now` for
     * `Date.now()`; `dueDate` is the parsed form field, `None` when empty.
     */
    method AddTask(text: string, priority: Priority, dueDate: Option<int>, freshId: string, now: int)
      modifies this
      ensures Trim(text) == [] ==>
                tasks == old(tasks) && isAdmin == old(isAdmin) && notification == old(notification)
      ensures Trim(text) != [] && Normalized(text) == "admin" ==>
                tasks == old(tasks) && isAdmin && notification == Some(AdminEnabled)
      ensures Trim(text) != [] && Normalized(text) == "unadmin" ==>
                tasks == old(tasks) && !isAdmin && notification == Some(AdminDisabled)
      ensures Trim(text) != [] && Normalized(text) != "admin" && Normalized(text) != "unadmin" ==>
                && isAdmin == old(isAdmin)
                && (HasText(old(tasks), text) ==>
                      tasks == old(tasks) && notification == Some(AlreadyExists))
                && (!HasText(old(tasks), text) ==>
                      && tasks == [Task(freshId, Trim(text), false, now, priority, dueDate)] + old(tasks)
                      && notification == old(notification))
      ensures old(DistinctTexts(tasks)) ==> DistinctTexts(tasks)
      ensures old(UniqueIds(tasks)) && (forall i :: 0 <= i < |old(tasks)| ==> old(tasks)[i].id != freshId) ==>
                UniqueIds(tasks)
    {
      var trimmedText := Trim(text);
      if trimmedText == [] {
        return;
      }
      var commandText := ToLower(trimmedText);
      if commandText == "admin" {
        isAdmin := true;
        notification := Some(AdminEnabled);
        return;
      }
      if commandText == "unadmin" {
        isAdmin := false;
        notification := Some(AdminDisabled);
        return;
      }
      SameNormalForm(tasks, text);
      if HasText(tasks, trimmedText) {
        notification := Some(AlreadyExists);
        return;
      }
      var newTask := Task(freshId, trimmedText, false, now, priority, dueDate);
      PrependKeepsInvariants(tasks, newTask);
      tasks := [newTask] + tasks;
    }

    /** `toggleTask`. */
    method ToggleTask(id: string)
      modifies this
      ensures tasks == Toggled(old(tasks), id)
      ensures isAdmin == old(isAdmin) && notification == old(notification)
      ensures old(DistinctTexts(tasks)) ==> DistinctTexts(tasks)
      ensures old(UniqueIds(tasks)) ==> UniqueIds(tasks)
    {
      ToggledKeepsInvariants(tasks, id);
      tasks := Toggled(tasks, id);
    }

    /** `deleteTask`: removes every task with the id, whether or not it is overdue. */
    method DeleteTask(id: string)
      modifies this
      ensures tasks == Removed(old(tasks), id)
      ensures isAdmin == old(isAdmin) && notification == old(notification)
      ensures old(DistinctTexts(tasks)) ==> DistinctTexts(tasks)
      ensures old(UniqueIds(tasks)) ==> UniqueIds(tasks)
    {
      RemovedKeepsInvariants(tasks, id);
      tasks := Removed(tasks, id);
    }
  }
}
