/** The client's list state (`App`): the recent active tasks, a loading
    flag and an error banner, changed by the load, create and complete
    handlers. The API calls are given as their results. */
module ClientApp {
  import opened Bounds

  /** The task as the client receives it in JSON. */
  datatype ClientTask = ClientTask(id: string, title: string, description: string, isCompleted: bool, createdAt: string)

  /** A settled API call: resolved with a value, or rejected. */
  datatype ApiResult<+T> = Resolved(value: T) | Rejected

  const LoadFailedMessage := "Failed to load tasks. Please refresh the page."
  const CompleteFailedMessage := "Failed to complete task. Please try again."

  /** The first five elements of a list, or all if it is shorter. */
  function FirstFive(s: seq<ClientTask>): seq<ClientTask>
  {
    s[..Min(5, |s|)]
  }

  /** `[newTask, ...tasks.slice(0, 4)]`. */
  function PrependRecent(t: ClientTask, s: seq<ClientTask>): seq<ClientTask>
  {
    [t] + s[..Min(4, |s|)]
  }

  /** The new task goes first, the old order is kept, and the list is the
      first five of the new task followed by the old list. */
  lemma PrependRecentIsFirstFive(t: ClientTask, s: seq<ClientTask>)
    ensures PrependRecent(t, s) == FirstFive([t] + s)
    ensures |PrependRecent(t, s)| == Min(5, |s| + 1) <= 5
    ensures PrependRecent(t, s)[0] == t
  {
  }

  function Reversed(s: seq<ClientTask>): seq<ClientTask>
  {
    if s == [] then [] else Reversed(s[1..]) + [s[0]]
  }

  /** The list after creating each of `news` in turn. */
  function AfterCreates(news: seq<ClientTask>, s: seq<ClientTask>): seq<ClientTask>
  {
    if news == [] then s else AfterCreates(news[1..], PrependRecent(news[0], s))
  }

  /** Cutting to five before putting more in front does not change what the
      first five are. */
  lemma FirstFiveAbsorbs(x: seq<ClientTask>, y: seq<ClientTask>)
    ensures FirstFive(x + FirstFive(y)) == FirstFive(x + y)
  {
    var l := Min(5, |x + FirstFive(y)|);
    assert l == Min(5, |x + y|);
    forall i | 0 <= i < l ensures (x + FirstFive(y))[i] == (x + y)[i] {
      if i >= |x| { assert FirstFive(y)[i - |x|] == y[i - |x|]; }
    }
  }

  /** However many tasks are created, the list holds the five newest of the
      created tasks (newest first) followed by the earlier list. */
  lemma {:induction false} CreatesKeepNewestFive(news: seq<ClientTask>, s: seq<ClientTask>)
    requires news != []
    ensures AfterCreates(news, s) == FirstFive(Reversed(news) + s)
  {
    PrependRecentIsFirstFive(news[0], s);
    var s' := PrependRecent(news[0], s);
    if |news| == 1 {
      assert Reversed(news) == [news[0]];
      assert AfterCreates(news, s) == s';
    } else {
      CreatesKeepNewestFive(news[1..], s');
      FirstFiveAbsorbs(Reversed(news[1..]), [news[0]] + s);
      assert Reversed(news[1..]) + ([news[0]] + s) == Reversed(news) + s;
    }
  }

  /** `tasks.filter((task) => task.id !== id)`. */
  function WithoutId(s: seq<ClientTask>, id: string): (r: seq<ClientTask>)
    ensures |r| <= |s|
    ensures forall t :: t in r <==> t in s && t.id != id
  {
    if s == [] then []
    else (if s[0].id == id then [] else [s[0]]) + WithoutId(s[1..], id)
  }

  /** The filter keeps the order: it distributes over concatenation. */
  lemma {:induction false} WithoutIdDistributes(a: seq<ClientTask>, b: seq<ClientTask>, id: string)
    ensures WithoutId(a + b, id) == WithoutId(a, id) + WithoutId(b, id)
  {
    if a != [] {
      assert (a + b)[0] == a[0] && (a + b)[1..] == a[1..] + b;
      WithoutIdDistributes(a[1..], b, id);
    } else {
      assert a + b == b;
    }
  }

  /** Completing an id that is not listed leaves the list as it is. */
  lemma {:induction false} WithoutAbsentId(s: seq<ClientTask>, id: string)
    requires forall t :: t in s ==> t.id != id
    ensures WithoutId(s, id) == s
  {
    if s != [] {
      assert s[0] in s;
      assert forall t :: t in s[1..] ==> t in s;
      WithoutAbsentId(s[1..], id);
      assert s == [s[0]] + s[1..];
    }
  }

  /** Completing a listed id shortens the list. */
  lemma {:induction false} WithoutPresentIdShrinks(s: seq<ClientTask>, i: nat, id: string)
    requires i < |s| && s[i].id == id
    ensures |WithoutId(s, id)| < |s|
  {
    if i > 0 {
      WithoutPresentIdShrinks(s[1..], i - 1, id);
    }
  }

  class App {
    var tasks: seq<ClientTask>
    var loading: bool
    var error: string

    constructor ()
      ensures tasks == [] && !loading && error == ""
    {
      tasks, loading, error := [], false, "";
    }

    /** The start of `loadTasks`: loading on, error cleared. */
    method BeginLoad()
      modifies this
      ensures loading && error == "" && tasks == old(tasks)
    {
      loading := true;
      error := "";
    }

    /** The end of `loadTasks`: the fetched list on success, the error
        message and the old list on failure, and loading off either way. */
    method FinishLoad(fetched: ApiResult<seq<ClientTask>>)
      modifies this
      ensures !loading
      ensures fetched.Resolved? ==> tasks == fetched.value && error == old(error)
      ensures fetched.Rejected? ==> tasks == old(tasks) && error == LoadFailedMessage
    {
      match fetched {
        case Resolved(fetchedTasks) =>
          tasks := fetchedTasks;
        case Rejected =>
          error := LoadFailedMessage;
      }
      loading := false;
    }

    /** `loadTasks()`, with `fetched` what `getRecentTasks(5)` settled to. */
    method LoadTasks(fetched: ApiResult<seq<ClientTask>>)
      modifies this
      ensures !loading
      ensures fetched.Resolved? ==> tasks == fetched.value && error == ""
      ensures fetched.Rejected? ==> tasks == old(tasks) && error == LoadFailedMessage
    {
      BeginLoad();
      FinishLoad(fetched);
    }

    /** `handleCreateTask`, with `created` what `createTask` settled to:
        the new task is put first and the list cut to five; a failure
        leaves the list alone and is re-thrown to the form. */
    method HandleCreateTask(created: ApiResult<ClientTask>) returns (rethrown: bool)
      modifies this
      ensures rethrown <==> created.Rejected?
      ensures created.Resolved? ==> tasks == PrependRecent(created.value, old(tasks)) && |tasks| <= 5
      ensures created.Rejected? ==> tasks == old(tasks)
      ensures loading == old(loading) && error == old(error)
    {
      match created
      case Resolved(newTask) =>
        tasks := PrependRecent(newTask, tasks);
        rethrown := false;
      case Rejected =>
        rethrown := true;
    }

    /** `handleCompleteTask(id)`, with `completed` what `completeTask(id)`
        settled to: the task leaves the list; a failure sets the error,
        leaves the list alone and is re-thrown. */
    method HandleCompleteTask(id: string, completed: ApiResult<ClientTask>) returns (rethrown: bool)
      modifies this
      ensures rethrown <==> completed.Rejected?
      ensures completed.Resolved? ==> tasks == WithoutId(old(tasks), id) && error == old(error)
      ensures completed.Rejected? ==> tasks == old(tasks) && error == CompleteFailedMessage
      ensures loading == old(loading)
    {
      match completed
      case Resolved(_) =>
        tasks := WithoutId(tasks, id);
        rethrown := false;
      case Rejected =>
        error := CompleteFailedMessage;
        rethrown := true;
    }
  }
}
