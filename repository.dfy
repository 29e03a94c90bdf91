/** The task repository: a table of committed rows in the store's natural
    order, the creates staged on the unit of work, and the LINQ query for the
    recent active tasks. */
module Repository {
  import opened Wrappers
  import opened Bounds
  import opened Models

  // ---------------------------------------------------------------------
  // The table as a sequence of rows
  // ---------------------------------------------------------------------

  predicate HasId(s: seq<Task>, id: TaskId)
  {
    exists t :: t in s && t.id == id
  }

  /** The primary key: no two rows share an id. */
  predicate UniqueIds(s: seq<Task>)
  {
    forall i, j :: 0 <= i < j < |s| ==> s[i].id != s[j].id
  }

  /** A keyed table with one more row in front is keyed exactly when the new
      row's id is not already taken. */
  lemma UniqueIdsCons(x: Task, s: seq<Task>)
    ensures UniqueIds([x] + s) <==> UniqueIds(s) && !HasId(s, x.id)
  {
    var xs := [x] + s;
    if UniqueIds(xs) {
      forall j, k | 0 <= j < k < |s| ensures s[j].id != s[k].id {
        assert xs[j + 1] == s[j] && xs[k + 1] == s[k];
      }
      forall u | u in s ensures u.id != x.id {
        var k :| 0 <= k < |s| && s[k] == u;
        assert xs[0] == x && xs[k + 1] == u;
      }
    }
    if UniqueIds(s) && !HasId(s, x.id) {
      forall j, k | 0 <= j < k < |xs| ensures xs[j].id != xs[k].id {
        assert xs[k] == s[k - 1] && xs[k] in s;
        if j > 0 { assert xs[j] == s[j - 1]; }
      }
    }
  }

  /** The committed part of a keyed table is keyed. */
  lemma UniqueIdsPrefix(a: seq<Task>, b: seq<Task>)
    requires UniqueIds(a + b)
    ensures UniqueIds(a)
  {
    forall i, j | 0 <= i < j < |a| ensures a[i].id != a[j].id {
      assert (a + b)[i] == a[i] && (a + b)[j] == a[j];
    }
  }

  /** `FindAsync(id)`: the row with that id, or null. */
  function Find(s: seq<Task>, id: TaskId): (r: Option<Task>)
    ensures r.Some? <==> HasId(s, id)
    ensures r.Some? ==> r.value in s && r.value.id == id
  {
    if s == [] then None
    else if s[0].id == id then Some(s[0])
    else
      assert s == [s[0]] + s[1..];
      Find(s[1..], id)
  }

  /** With a primary key, the row found for an id is the one row holding it. */
  lemma {:induction false} FindUnique(s: seq<Task>, t: Task)
    requires UniqueIds(s) && t in s
    ensures Find(s, t.id) == Some(t)
  {
    assert s == [s[0]] + s[1..];
    UniqueIdsCons(s[0], s[1..]);
    if s[0] != t {
      FindUnique(s[1..], t);
    }
  }

  /** `Update(task)`: every row with the task's id now holds the task; every
      other row, and every position, is as before. */
  function ReplaceRow(s: seq<Task>, t: Task): (r: seq<Task>)
    ensures |r| == |s|
    ensures forall i :: 0 <= i < |s| ==> r[i].id == s[i].id
    ensures forall i :: 0 <= i < |s| && s[i].id == t.id ==> r[i] == t
    ensures forall i :: 0 <= i < |s| && s[i].id != t.id ==> r[i] == s[i]
  {
    if s == [] then []
    else [if s[0].id == t.id then t else s[0]] + ReplaceRow(s[1..], t)
  }

  /** Replacing a row by one written no earlier than created and no later
      than `c` keeps every row so. */
  lemma ReplaceRowStamped(s: seq<Task>, t: Task, c: Instant)
    requires forall u :: u in s ==> u.createdAt <= u.updatedAt <= c
    requires t.createdAt <= t.updatedAt <= c
    ensures forall u :: u in ReplaceRow(s, t) ==> u.createdAt <= u.updatedAt <= c
  {
    var r := ReplaceRow(s, t);
    forall u | u in r ensures u.createdAt <= u.updatedAt <= c {
      var i :| 0 <= i < |r| && r[i] == u;
      assert u == t || u == s[i];
    }
  }

  /** `Remove(task)`: the rows with that id are gone, every other row stays. */
  function RemoveRow(s: seq<Task>, id: TaskId): (r: seq<Task>)
    ensures |r| <= |s|
    ensures forall u :: u in r <==> u in s && u.id != id
    ensures !HasId(r, id)
  {
    if s == [] then []
    else if s[0].id == id then RemoveRow(s[1..], id)
    else [s[0]] + RemoveRow(s[1..], id)
  }

  /** Removing a key that is absent changes nothing. */
  lemma {:induction false} RemoveAbsentRow(s: seq<Task>, id: TaskId)
    requires !HasId(s, id)
    ensures RemoveRow(s, id) == s
  {
    if s != [] {
      assert s[0] in s && s[0].id != id;
      assert forall u :: u in s[1..] ==> u in s;
      RemoveAbsentRow(s[1..], id);
      assert s == [s[0]] + s[1..];
    }
  }

  /** Removing a present key from a keyed table removes exactly one row, and
      keeps the rest of the table (and what follows it) keyed. */
  lemma {:induction false} RemoveRowKeyed(a: seq<Task>, b: seq<Task>, id: TaskId)
    requires UniqueIds(a + b)
    ensures UniqueIds(RemoveRow(a, id) + b)
    ensures HasId(a, id) ==> |RemoveRow(a, id)| == |a| - 1
  {
    if a != [] {
      var x, a' := a[0], a[1..];
      assert a + b == [x] + (a' + b);
      UniqueIdsCons(x, a' + b);
      RemoveRowKeyed(a', b, id);
      var rest := RemoveRow(a', id) + b;
      if x.id != id {
        assert RemoveRow(a, id) + b == [x] + rest;
        assert forall u :: u in rest ==> u in a' + b;
        UniqueIdsCons(x, rest);
        assert a == [x] + a';
      } else {
        assert forall u :: u in a' ==> u in a' + b;
        RemoveAbsentRow(a', id);
      }
    }
  }

  // ---------------------------------------------------------------------
  // GetRecentActiveTasks: Where(!IsCompleted), OrderByDescending(CreatedAt), Take(count)
  // ---------------------------------------------------------------------

  /** `Where(t => !t.IsCompleted)`: the active rows, in table order. */
  function Active(s: seq<Task>): (r: seq<Task>)
    ensures |r| <= |s|
    ensures forall t :: t in r <==> t in s && !t.isCompleted
    ensures multiset(r) <= multiset(s)
  {
    if s == [] then []
    else
      assert s == [s[0]] + s[1..];
      (if s[0].isCompleted then [] else [s[0]]) + Active(s[1..])
  }

  predicate SortedByCreatedDesc(s: seq<Task>)
  {
    forall i, j :: 0 <= i < j < |s| ==> s[i].createdAt >= s[j].createdAt
  }

  /** A row no older than any row of a newest-first list may go in front. */
  lemma SortedCons(x: Task, s: seq<Task>)
    requires SortedByCreatedDesc(s)
    requires forall u :: u in s ==> u.createdAt <= x.createdAt
    ensures SortedByCreatedDesc([x] + s)
  {
    var xs := [x] + s;
    forall i, j | 0 <= i < j < |xs| ensures xs[i].createdAt >= xs[j].createdAt {
      assert xs[j] == s[j - 1] && xs[j] in s;
      if i > 0 { assert xs[i] == s[i - 1]; }
    }
  }

  /** Inserts `t` before the first row that is not newer than it, so that
      among rows created at the same instant the earlier one stays first. */
  function InsertByCreatedDesc(t: Task, s: seq<Task>): (r: seq<Task>)
    requires SortedByCreatedDesc(s)
    ensures SortedByCreatedDesc(r)
    ensures multiset(r) == multiset(s) + multiset{t}
  {
    if s == [] || s[0].createdAt <= t.createdAt then
      NoneNewerThanHead(s, t);
      SortedCons(t, s);
      [t] + s
    else
      var tail := s[1..];
      assert s == [s[0]] + tail;
      SortedTail(s);
      var rest := InsertByCreatedDesc(t, tail);
      NoneNewerThanHead(s, s[0]);
      NoneNewerAfterInsert(s[0], t, tail, rest);
      SortedCons(s[0], rest);
      [s[0]] + rest
  }

  /** Inserting a row older than `h` among rows no newer than `h` gives rows
      no newer than `h`. */
  lemma NoneNewerAfterInsert(h: Task, t: Task, tail: seq<Task>, rest: seq<Task>)
    requires multiset(rest) == multiset(tail) + multiset{t}
    requires forall u :: u in [h] + tail ==> u.createdAt <= h.createdAt
    requires t.createdAt <= h.createdAt
    ensures forall u :: u in rest ==> u.createdAt <= h.createdAt
  {
    forall u | u in rest ensures u.createdAt <= h.createdAt {
      assert u in multiset(rest);
      if u != t {
        assert u in multiset(tail);
        assert u in [h] + tail;
      }
    }
  }

  /** In a newest-first list, no row is newer than the head, nor than a row
      at least as new as the head. */
  lemma NoneNewerThanHead(s: seq<Task>, t: Task)
    requires SortedByCreatedDesc(s)
    requires s != [] ==> s[0].createdAt <= t.createdAt
    ensures forall u :: u in s ==> u.createdAt <= t.createdAt
  {
    forall u | u in s ensures u.createdAt <= t.createdAt {
      var i :| 0 <= i < |s| && s[i] == u;
      assert s[0].createdAt >= s[i].createdAt;
    }
  }

  /** The tail of a newest-first list is newest first. */
  lemma SortedTail(s: seq<Task>)
    requires SortedByCreatedDesc(s) && s != []
    ensures SortedByCreatedDesc(s[1..])
  {
    var tail := s[1..];
    forall i, j | 0 <= i < j < |tail| ensures tail[i].createdAt >= tail[j].createdAt {
      assert tail[i] == s[i + 1] && tail[j] == s[j + 1];
    }
  }

  /** `OrderByDescending(t => t.CreatedAt)`, a stable sort. */
  function SortByCreatedDesc(s: seq<Task>): (r: seq<Task>)
    ensures SortedByCreatedDesc(r)
    ensures multiset(r) == multiset(s)
  {
    if s == [] then []
    else
      assert s == [s[0]] + s[1..];
      InsertByCreatedDesc(s[0], SortByCreatedDesc(s[1..]))
  }

  /** `Take(count)`: the first `count` elements; none when `count <= 0`. */
  function Take(s: seq<Task>, count: int): seq<Task>
  {
    if count <= 0 then [] else s[..Min(count, |s|)]
  }

  /** The query of `GetRecentActiveTasks(count)`. */
  function RecentActive(s: seq<Task>, count: int): seq<Task>
  {
    Take(SortByCreatedDesc(Active(s)), count)
  }

  /** The query is a prefix of the sorted active rows, as long as the
      count allows. */
  lemma RecentActiveIsPrefix(s: seq<Task>, count: int)
    ensures var l := SortByCreatedDesc(Active(s));
            && |l| == |Active(s)|
            && RecentActive(s, count) == l[..if count <= 0 then 0 else Min(count, |l|)]
  {
    var a := Active(s);
    var l := SortByCreatedDesc(a);
    assert |l| == |a| by {
      assert |multiset(l)| == |multiset(a)|;
    }
  }

  lemma RecentActiveMembers(s: seq<Task>, count: int)
    ensures forall t :: t in RecentActive(s, count) ==> t in s && !t.isCompleted
  {
    var a := Active(s);
    var l := SortByCreatedDesc(a);
    RecentActiveIsPrefix(s, count);
    forall t | t in RecentActive(s, count) ensures t in s && !t.isCompleted {
      assert t in l;
      assert t in multiset(l);
      assert t in multiset(a);
    }
  }

  lemma PrefixSubMultiset(l: seq<Task>, k: nat)
    requires k <= |l|
    ensures multiset(l[..k]) <= multiset(l)
  {
    assert l == l[..k] + l[k..];
  }

  lemma RecentActiveSubMultiset(s: seq<Task>, count: int)
    ensures multiset(RecentActive(s, count)) <= multiset(Active(s))
  {
    var l := SortByCreatedDesc(Active(s));
    RecentActiveIsPrefix(s, count);
    PrefixSubMultiset(l, if count <= 0 then 0 else Min(count, |l|));
  }

  /** In a newest-first list, a row outside a prefix is no newer than any
      row inside it. */
  lemma PrefixHoldsNewest(l: seq<Task>, k: nat, t: Task, u: Task)
    requires SortedByCreatedDesc(l) && k <= |l|
    requires t in l && t !in l[..k] && u in l[..k]
    ensures t.createdAt <= u.createdAt
  {
    assert l == l[..k] + l[k..];
    assert t in l[k..];
    var i :| 0 <= i < |l| - k && l[k..][i] == t;
    var j :| 0 <= j < k && l[..k][j] == u;
    assert l[k + i] == t && l[j] == u;
  }

  lemma RecentActiveNewest(s: seq<Task>, count: int)
    ensures forall t, u :: t in s && !t.isCompleted && t !in RecentActive(s, count) && u in RecentActive(s, count)
              ==> t.createdAt <= u.createdAt
  {
    var a := Active(s);
    var l := SortByCreatedDesc(a);
    var k := if count <= 0 then 0 else Min(count, |l|);
    RecentActiveIsPrefix(s, count);
    forall t, u | t in s && !t.isCompleted && t !in RecentActive(s, count) && u in RecentActive(s, count)
      ensures t.createdAt <= u.createdAt
    {
      assert t in multiset(a);
      PrefixHoldsNewest(l, k, t, u);
    }
  }

  /** What the query promises: only active rows of the table, newest first,
      `min(count, #active)` of them (none for a non-positive count), no row
      more often than the table holds it, and no active row left out that
      is newer than one returned. */
  lemma RecentActiveSpec(s: seq<Task>, count: int)
    ensures forall t :: t in RecentActive(s, count) ==> t in s && !t.isCompleted
    ensures SortedByCreatedDesc(RecentActive(s, count))
    ensures |RecentActive(s, count)| == Max(0, Min(count, |Active(s)|))
    ensures multiset(RecentActive(s, count)) <= multiset(Active(s))
    ensures forall t, u :: t in s && !t.isCompleted && t !in RecentActive(s, count) && u in RecentActive(s, count)
              ==> t.createdAt <= u.createdAt
  {
    var l := SortByCreatedDesc(Active(s));
    var k := if count <= 0 then 0 else Min(count, |l|);
    var r := RecentActive(s, count);
    RecentActiveIsPrefix(s, count);
    assert r == l[..k];
    assert SortedByCreatedDesc(r) by {
      forall i, j | 0 <= i < j < |r| ensures r[i].createdAt >= r[j].createdAt {
        assert r[i] == l[i] && r[j] == l[j];
      }
    }
    RecentActiveMembers(s, count);
    RecentActiveSubMultiset(s, count);
    RecentActiveNewest(s, count);
  }

  // ---------------------------------------------------------------------
  // The repository object
  // ---------------------------------------------------------------------

  /** The writes the repository issues, in order. */
  datatype Write = Added(task: Task) | Modified(task: Task) | Removed(id: TaskId) | Saved

  class TaskRepository {
    /** The committed table, in the store's natural order. */
    var rows: seq<Task>
    /** Rows added by `CreateTaskAsync` and not yet saved. */
    var staged: seq<Task>
    /** The latest clock reading this repository has taken. */
    ghost var clock: Instant
    /** Every write issued so far. */
    ghost var log: seq<Write>

    /** The primary key holds across committed and staged rows. */
    ghost predicate Valid()
      reads this
    {
      UniqueIds(rows + staged)
    }

    /** Every row was last written no earlier than it was created, and no
        later than the clock's latest reading. */
    ghost predicate Stamped()
      reads this
    {
      forall t :: t in rows + staged ==> t.createdAt <= t.updatedAt <= clock
    }

    /** What `Guid.NewGuid()` is trusted to yield: not `Guid.Empty` and not
        the id of any row, committed or staged. */
    predicate IsFreshId(id: TaskId)
      reads this
    {
      id != EmptyId && !HasId(rows + staged, id)
    }

    /** A repository over an existing table, with the clock at `now`. */
    constructor (table: seq<Task>, now: Instant)
      requires UniqueIds(table)
      ensures Valid()
      ensures rows == table && staged == [] && clock == now && log == []
    {
      rows, staged := table, [];
      clock, log := now, [];
      new;
      assert rows + staged == rows;
    }

    /** `GetRecentActiveTasks(count)` on the committed table. */
    function GetRecentActiveTasks(count: int): (r: seq<Task>)
      reads this
      ensures forall t :: t in r ==> t in rows && !t.isCompleted
      ensures SortedByCreatedDesc(r)
      ensures |r| == Max(0, Min(count, |Active(rows)|))
      ensures multiset(r) <= multiset(Active(rows))
      ensures forall t, u :: t in rows && !t.isCompleted && t !in r && u in r ==> t.createdAt <= u.createdAt
    {
      RecentActiveSpec(rows, count);
      RecentActive(rows, count)
    }

    /** `GetAllTasksAsync()`: every committed row once; staged rows are not
        listed before they are saved. */
    function GetAllTasksAsync(): (r: seq<Task>)
      requires Valid()
      reads this
      ensures |r| == |rows|
      ensures forall t :: t in r <==> t in rows
      ensures forall t :: t in staged ==> t !in r
    {
      StagedNotCommitted();
      rows
    }

    /** `GetTaskByIdAsync(id)`: the committed row with that id, or null. */
    function GetTaskByIdAsync(id: TaskId): (r: Option<Task>)
      reads this
      ensures r.Some? <==> HasId(rows, id)
      ensures r.Some? ==> r.value in rows && r.value.id == id
    {
      Find(rows, id)
    }

    /** `CreateTaskAsync(task)`: overwrites the id with a fresh one and both
        timestamps with two successive clock readings, and stages the row. */
    method CreateTaskAsync(task: Task, freshId: TaskId, createdNow: Instant, updatedNow: Instant)
      returns (r: Task)
      requires Valid() && IsFreshId(freshId)
      requires clock <= createdNow <= updatedNow
      modifies this
      ensures Valid()
      ensures r == task.(id := freshId, createdAt := createdNow, updatedAt := updatedNow)
      ensures rows == old(rows) && staged == old(staged) + [r]
      ensures clock == updatedNow
      ensures log == old(log) + [Added(r)]
      ensures old(Stamped()) ==> Stamped()
    {
      r := task.(id := freshId);
      r := r.(createdAt := createdNow);
      r := r.(updatedAt := updatedNow);
      ghost var before := rows + staged;
      staged := staged + [r];
      clock := updatedNow;
      log := log + [Added(r)];
      assert rows + staged == before + [r];
      forall i, j | 0 <= i < j < |before + [r]|
        ensures (before + [r])[i].id != (before + [r])[j].id
      {
        if j == |before| {
          assert (before + [r])[i] == before[i];
        } else {
          assert (before + [r])[i] == before[i] && (before + [r])[j] == before[j];
        }
      }
    }

    /** `SaveAsync()`: commits the staged rows. */
    method SaveAsync()
      requires Valid()
      modifies this
      ensures Valid()
      ensures rows == old(rows) + old(staged) && staged == []
      ensures clock == old(clock)
      ensures log == old(log) + [Saved]
      ensures old(Stamped()) ==> Stamped()
    {
      rows := rows + staged;
      staged := [];
      log := log + [Saved];
      assert rows + staged == rows;
    }

    /** `UpdateTaskAsync(task)`: the caller's fields are stored for the
        task's id, with `UpdatedAt` set from the clock. */
    method UpdateTaskAsync(task: Task, now: Instant) returns (r: Task)
      requires Valid() && HasId(rows, task.id)
      requires clock <= now
      modifies this
      ensures Valid()
      ensures r == task.(updatedAt := now)
      ensures rows == ReplaceRow(old(rows), r) && staged == old(staged)
      ensures clock == now
      ensures log == old(log) + [Modified(r)]
      ensures old(Stamped()) && task.createdAt <= now ==> Stamped()
    {
      r := task.(updatedAt := now);
      ghost var rows0 := rows;
      ghost var before := rows + staged;
      rows := ReplaceRow(rows, r);
      clock := now;
      log := log + [Modified(r)];
      assert forall i :: 0 <= i < |before| ==> (rows + staged)[i].id == before[i].id;
      if old(Stamped()) && task.createdAt <= now {
        assert forall u :: u in rows0 ==> u in before;
        ReplaceRowStamped(rows0, r, now);
        assert forall u :: u in staged ==> u in before;
      }
    }

    /** `DeleteTaskAsync(id)`: when a committed row has the id, removes it
        and saves at once (which also commits the staged rows); otherwise
        does nothing. */
    method DeleteTaskAsync(id: TaskId)
      requires Valid()
      modifies this
      ensures Valid()
      ensures clock == old(clock)
      ensures HasId(old(rows), id) ==>
                && rows == RemoveRow(old(rows), id) + old(staged) && staged == []
                && |rows| == |old(rows)| + |old(staged)| - 1
                && log == old(log) + [Removed(id), Saved]
      ensures !HasId(old(rows), id) ==>
                rows == old(rows) && staged == old(staged) && log == old(log)
      ensures !HasId(rows, id)
      ensures old(Stamped()) ==> Stamped()
    {
      var found := GetTaskByIdAsync(id);
      if found.Some? {
        RemoveRowKeyed(rows, staged, id);
        assert !HasId(staged, id) by { StagedLacksCommittedId(id); }
        rows := RemoveRow(rows, id);
        log := log + [Removed(id)];
        SaveAsync();
      }
    }

    /** Under the primary key, an id that is committed is not also staged. */
    lemma StagedLacksCommittedId(id: TaskId)
      requires Valid() && HasId(rows, id)
      ensures !HasId(staged, id)
    {
      var t :| t in rows && t.id == id;
      var i :| 0 <= i < |rows| && rows[i] == t;
      forall u | u in staged ensures u.id != id {
        var j :| 0 <= j < |staged| && staged[j] == u;
        assert (rows + staged)[i] == t && (rows + staged)[|rows| + j] == u;
      }
    }

    /** Under the primary key, no staged row is also a committed one. */
    lemma StagedNotCommitted()
      requires Valid()
      ensures forall t :: t in staged ==> t !in rows
    {
      forall t | t in staged ensures t !in rows {
        var j :| 0 <= j < |staged| && staged[j] == t;
        forall i | 0 <= i < |rows| ensures rows[i] != t {
          assert (rows + staged)[i] == rows[i] && (rows + staged)[|rows| + j] == t;
        }
      }
    }
  }
}
