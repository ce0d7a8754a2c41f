/**
  * src/extension.ts, the older orchestration: its own copies of the two
  * filters, the task list of `applyActions` and its reorder by action name,
  * the run loop over that list with the host calls replaced by their outcomes,
  * and `resolveFiles`.
  */
module Extension {
  import opened Wrappers
  import opened Host
  import opened FileActions
  import Filters
  import JsString
  import ContextMenuActions
  import Basics

  /** The change wait's window in the run loop, in milliseconds (`TIMEOUT`). */
  const ChangeTimeoutMs: nat := 150

  // ---------------------------------------------------------------------------
  // The filter copies
  // ---------------------------------------------------------------------------

  /** This file's `byEventUri`; the will-save view of the task list inlines the same test. */
  predicate ByEventUri(uri: Uri, e: DocumentEvent)
  {
    e.documentUri.text == uri.text
  }

  /** This file's `filterFileTypeAction`: the two regular expressions run on the extension and the action. */
  predicate FilterFileTypeAction(uri: Uri, action: string)
  {
    var ext := Filters.Extname(uri.fsPath);
    if JsString.TestAtEnd(ext, ".ts", false) then true else JsString.Test(action, "format", true)
  }

  /** The anchored test `/\.ts$/` holds exactly when the string ends in `.ts`. */
  lemma TsTestsAgree(ext: string)
    ensures JsString.TestAtEnd(ext, ".ts", false) <==> Filters.EndsWithTs(ext)
  {
    var n := |ext|;
    if JsString.TestAtEnd(ext, ".ts", false) {
      assert JsString.Canon(ext[n - 3 + 0], false) == JsString.Canon(".ts"[0], false);
      assert JsString.Canon(ext[n - 3 + 1], false) == JsString.Canon(".ts"[1], false);
      assert JsString.Canon(ext[n - 3 + 2], false) == JsString.Canon(".ts"[2], false);
      assert ext[n - 3..] == ".ts";
    }
    if Filters.EndsWithTs(ext) {
      forall k | 0 <= k < 3
        ensures JsString.Canon(ext[n - 3 + k], false) == JsString.Canon(".ts"[k], false)
      {
        assert ext[n - 3 + k] == ext[n - 3..][k];
      }
    }
  }

  /** The copy has the same truth table as `filterFileTypeAction` of src/filters.ts. */
  lemma FilterCopyAgrees(uri: Uri, action: string)
    ensures FilterFileTypeAction(uri, action) == Filters.FilterFileTypeAction(uri, action)
  {
    TsTestsAgree(Filters.Extname(uri.fsPath));
  }

  /** The copy of `byEventUri` lets through the same events as the one of src/filters.ts. */
  lemma ByEventUriCopyAgrees(uri: Uri, e: DocumentEvent)
    ensures ByEventUri(uri, e) == Filters.ByEventUri(uri, e)
  {
  }

  // ---------------------------------------------------------------------------
  // The task list
  // ---------------------------------------------------------------------------

  /**
    * `orders[k]` is the state of the shared `actions` array when the k-th uri
    * filters it: each `actions.sort(...)` call leaves some permutation of it.
    */
  predicate Reorderings(actions: seq<string>, orders: seq<seq<string>>)
  {
    forall k :: 0 <= k < |orders| ==> multiset(orders[k]) == multiset(actions)
  }

  /**
    * The `reduce` over the uris, in the order given: the k-th uri contributes
    * its eligible actions in the order `orders[k]` puts them.
    */
  function TaskList(eligible: Eligibility, uris: seq<Uri>, orders: seq<seq<string>>): (r: seq<FileAction>)
    requires |orders| == |uris|
  {
    if |uris| == 0 then []
    else
      TaskList(eligible, uris[..|uris| - 1], orders[..|orders| - 1])
      + UriTasks(eligible, uris[|uris| - 1], orders[|orders| - 1])
  }

  lemma ReorderingsPrefix(actions: seq<string>, orders: seq<seq<string>>, k: nat)
    requires Reorderings(actions, orders) && k <= |orders|
    ensures Reorderings(actions, orders[..k])
  {
    forall j | 0 <= j < k
      ensures multiset(orders[..k][j]) == multiset(actions)
    {
      assert orders[..k][j] == orders[j];
    }
  }

  /** A reordering of the list has its length. */
  lemma ReorderedLength(p: seq<string>, q: seq<string>)
    requires multiset(p) == multiset(q)
    ensures |p| == |q|
  {
    assert |multiset(p)| == |p| && |multiset(q)| == |q|;
  }

  /**
    * Every record pairs a uri of the list with one of the enabled actions that
    * is eligible for it, and carries that uri's own views.
    */
  lemma {:induction false} TaskListRecords(eligible: Eligibility, uris: seq<Uri>, actions: seq<string>,
                                           orders: seq<seq<string>>)
    requires |orders| == |uris| && Reorderings(actions, orders)
    ensures forall t :: t in TaskList(eligible, uris, orders) ==>
              t == Task(t.uri, t.action) && t.uri in uris && t.action in actions && eligible(t.uri, t.action)
  {
    if |uris| > 0 {
      var n := |uris|;
      ReorderingsPrefix(actions, orders, n - 1);
      TaskListRecords(eligible, uris[..n - 1], actions, orders[..n - 1]);
      UriTasksRecords(eligible, uris[n - 1], orders[n - 1]);
      Basics.SplitLast(uris);
      forall t | t in UriTasks(eligible, uris[n - 1], orders[n - 1])
        ensures t.action in actions
      {
        assert t.action in multiset(orders[n - 1]);
      }
    }
  }

  /** The list of a concatenation of uris is the concatenation of their lists: uris are taken in input order. */
  lemma {:induction false} TaskListAppend(eligible: Eligibility, u1: seq<Uri>, o1: seq<seq<string>>,
                                          u2: seq<Uri>, o2: seq<seq<string>>)
    requires |o1| == |u1| && |o2| == |u2|
    ensures TaskList(eligible, u1 + u2, o1 + o2) == TaskList(eligible, u1, o1) + TaskList(eligible, u2, o2)
    decreases |u2|
  {
    if |u2| > 0 {
      var n := |u2|;
      TaskListAppend(eligible, u1, o1, u2[..n - 1], o2[..n - 1]);
      assert (u1 + u2)[..|u1 + u2| - 1] == u1 + u2[..n - 1];
      assert (o1 + o2)[..|o1 + o2| - 1] == o1 + o2[..n - 1];
      assert (u1 + u2)[|u1 + u2| - 1] == u2[n - 1];
      assert (o1 + o2)[|o1 + o2| - 1] == o2[n - 1];
      var tail := UriTasks(eligible, u2[n - 1], o2[n - 1]);
      calc {
        TaskList(eligible, u1 + u2, o1 + o2);
        TaskList(eligible, u1 + u2[..n - 1], o1 + o2[..n - 1]) + tail;
        TaskList(eligible, u1, o1) + TaskList(eligible, u2[..n - 1], o2[..n - 1]) + tail;
        TaskList(eligible, u1, o1) + TaskList(eligible, u2, o2);
      }
    } else {
      assert u1 + u2 == u1 && o1 + o2 == o1;
    }
  }

  /**
    * The k-th uri's records sit, as one block, between those of the uris before
    * and those after it, and the block holds as many records as that uri has
    * eligible enabled actions, however the array was reordered.
    */
  lemma TaskListBlock(eligible: Eligibility, uris: seq<Uri>, actions: seq<string>, orders: seq<seq<string>>, k: nat)
    requires |orders| == |uris| && Reorderings(actions, orders) && k < |uris|
    ensures TaskList(eligible, uris, orders) ==
            TaskList(eligible, uris[..k], orders[..k])
            + UriTasks(eligible, uris[k], orders[k])
            + TaskList(eligible, uris[k + 1..], orders[k + 1..])
    ensures |UriTasks(eligible, uris[k], orders[k])| == |UriTasks(eligible, uris[k], actions)|
  {
    assert uris == uris[..k] + [uris[k]] + uris[k + 1..];
    assert orders == orders[..k] + [orders[k]] + orders[k + 1..];
    TaskListAppend(eligible, uris[..k], orders[..k], [uris[k]], [orders[k]]);
    TaskListAppend(eligible, uris[..k] + [uris[k]], orders[..k] + [orders[k]], uris[k + 1..], orders[k + 1..]);
    assert TaskList(eligible, [uris[k]], [orders[k]]) == UriTasks(eligible, uris[k], orders[k]);
    UriTasksReorder(eligible, uris[k], orders[k], actions);
  }

  /**
    * Before the reorder, the list holds the same records, as often, as the task
    * list of src/ContextMenuActions.ts built over the same uris left unsorted.
    */
  lemma {:induction false} TaskListSamePairs(eligible: Eligibility, uris: seq<Uri>, actions: seq<string>,
                                             orders: seq<seq<string>>)
    requires |orders| == |uris| && Reorderings(actions, orders)
    ensures multiset(TaskList(eligible, uris, orders)) == multiset(ContextMenuActions.BuildTasks(eligible, uris, actions))
    ensures |TaskList(eligible, uris, orders)| == |ContextMenuActions.BuildTasks(eligible, uris, actions)|
  {
    if |uris| > 0 {
      var n := |uris|;
      ReorderingsPrefix(actions, orders, n - 1);
      TaskListSamePairs(eligible, uris[..n - 1], actions, orders[..n - 1]);
      UriTasksReorder(eligible, uris[n - 1], orders[n - 1], actions);
    }
  }

  /** There are at most as many records as (uri, action) pairs. */
  lemma TaskListLength(eligible: Eligibility, uris: seq<Uri>, actions: seq<string>, orders: seq<seq<string>>)
    requires |orders| == |uris| && Reorderings(actions, orders)
    ensures |TaskList(eligible, uris, orders)| <= |uris| * |actions|
  {
    TaskListSamePairs(eligible, uris, actions, orders);
    ContextMenuActions.BuildTasksLength(eligible, uris, actions);
  }

  // ---------------------------------------------------------------------------
  // `_.sortBy(allFileActions, fact => fact.action)`
  // ---------------------------------------------------------------------------

  /** `s` is ordered by action name. */
  predicate SortedByAction(s: seq<FileAction>)
  {
    forall i, j :: 0 <= i < j < |s| ==> JsString.LessEq(s[i].action, s[j].action)
  }

  /** The records of `s` whose action is `a`, in their order in `s`. */
  function WithAction(s: seq<FileAction>, a: string): (r: seq<FileAction>)
    ensures |r| <= |s|
  {
    if |s| == 0 then []
    else WithAction(s[..|s| - 1], a) + if s[|s| - 1].action == a then [s[|s| - 1]] else []
  }

  /** The records of action `a` are exactly the members of `s` with that action. */
  lemma {:induction false} WithActionMembers(s: seq<FileAction>, a: string, t: FileAction)
    ensures t in WithAction(s, a) <==> t in s && t.action == a
  {
    if |s| > 0 {
      WithActionMembers(s[..|s| - 1], a, t);
      Basics.SplitLast(s);
    }
  }

  /**
    * `x` placed after the last record of `s` whose action does not come after
    * its own.
    */
  function Insert(s: seq<FileAction>, x: FileAction): (r: seq<FileAction>)
    ensures |r| == |s| + 1
    ensures multiset(r) == multiset(s) + multiset{x}
  {
    if |s| > 0 && JsString.Less(x.action, s[|s| - 1].action) then
      assert s == s[..|s| - 1] + [s[|s| - 1]];
      Insert(s[..|s| - 1], x) + [s[|s| - 1]]
    else s + [x]
  }

  /**
    * The stable sort by action name: the records are inserted one by one in
    * their order, each after every earlier record with the same action.
    */
  function SortByAction(s: seq<FileAction>): (r: seq<FileAction>)
    ensures |r| == |s|
    ensures multiset(r) == multiset(s)
  {
    if |s| == 0 then []
    else
      assert s == s[..|s| - 1] + [s[|s| - 1]];
      Insert(SortByAction(s[..|s| - 1]), s[|s| - 1])
  }

  lemma {:induction false} WithActionAppend(s: seq<FileAction>, t: seq<FileAction>, a: string)
    ensures WithAction(s + t, a) == WithAction(s, a) + WithAction(t, a)
    decreases |t|
  {
    if |t| > 0 {
      WithActionAppend(s, t[..|t| - 1], a);
      assert (s + t)[..|s + t| - 1] == s + t[..|t| - 1];
      assert (s + t)[|s + t| - 1] == t[|t| - 1];
      var tail := if t[|t| - 1].action == a then [t[|t| - 1]] else [];
      calc {
        WithAction(s + t, a);
        WithAction(s + t[..|t| - 1], a) + tail;
        WithAction(s, a) + WithAction(t[..|t| - 1], a) + tail;
        WithAction(s, a) + WithAction(t, a);
      }
    } else {
      assert s + t == s;
    }
  }

  /** Insertion keeps an ordered list ordered. */
  lemma {:induction false} InsertSorted(s: seq<FileAction>, x: FileAction)
    requires SortedByAction(s)
    ensures SortedByAction(Insert(s, x))
  {
    if |s| > 0 {
      var init, last := s[..|s| - 1], s[|s| - 1];
      if JsString.Less(x.action, last.action) {
        InsertSorted(init, x);
        var front := Insert(init, x);
        JsString.LessImpliesLessEq(x.action, last.action);
        FrontBelowLast(s, x);
        assert Insert(s, x) == front + [last];
      } else {
        forall p | 0 <= p < |s|
          ensures JsString.LessEq(s[p].action, x.action)
        {
          if p < |s| - 1 {
            JsString.LessEqTransitive(s[p].action, last.action, x.action);
          }
        }
      }
    }
  }

  /** Every record of `s` but the last, and `x`, come no later than the last record of `s`. */
  lemma FrontBelowLast(s: seq<FileAction>, x: FileAction)
    requires |s| > 0 && SortedByAction(s) && JsString.LessEq(x.action, s[|s| - 1].action)
    ensures forall t | t in Insert(s[..|s| - 1], x) :: JsString.LessEq(t.action, s[|s| - 1].action)
  {
    var init, last := s[..|s| - 1], s[|s| - 1];
    var front := Insert(init, x);
    forall t | t in front
      ensures JsString.LessEq(t.action, last.action)
    {
      assert t in multiset(front);
      if t != x {
        assert t in multiset(init);
        var p :| 0 <= p < |init| && init[p] == t;
        assert s[p] == t;
      }
    }
  }

  /**
    * Insertion leaves the records of every other action where they were and
    * puts `x` after every record with its own action.
    */
  lemma {:induction false} InsertWithAction(s: seq<FileAction>, x: FileAction, a: string)
    ensures WithAction(Insert(s, x), a) == WithAction(s, a) + if x.action == a then [x] else []
  {
    if |s| > 0 && JsString.Less(x.action, s[|s| - 1].action) {
      var init, last := s[..|s| - 1], s[|s| - 1];
      var front := Insert(init, x);
      InsertWithAction(init, x, a);
      assert Insert(s, x) == front + [last];
      WithActionAppend(front, [last], a);
      assert WithAction([last], a) == if last.action == a then [last] else [];
      if x.action == a {
        JsString.LessIrreflexive(x.action);
        assert last.action != a;
        assert WithAction(Insert(s, x), a) == WithAction(front, a);
        assert WithAction(s, a) == WithAction(init, a);
      } else {
        assert WithAction(front, a) == WithAction(init, a);
      }
    } else {
      assert Insert(s, x) == s + [x];
      WithActionAppend(s, [x], a);
      assert WithAction([x], a) == if x.action == a then [x] else [];
    }
  }

  /** After the reorder the list is ordered by action name, ascending. */
  lemma {:induction false} SortByActionSorted(s: seq<FileAction>)
    ensures SortedByAction(SortByAction(s))
  {
    if |s| > 0 {
      SortByActionSorted(s[..|s| - 1]);
      InsertSorted(SortByAction(s[..|s| - 1]), s[|s| - 1]);
    }
  }

  /** The reorder is stable: the records of each action keep their relative order. */
  lemma {:induction false} SortByActionStable(s: seq<FileAction>, a: string)
    ensures WithAction(SortByAction(s), a) == WithAction(s, a)
  {
    if |s| > 0 {
      SortByActionStable(s[..|s| - 1], a);
      InsertWithAction(SortByAction(s[..|s| - 1]), s[|s| - 1], a);
    }
  }

  lemma LessEqAntisymmetric(s: string, t: string)
    requires JsString.LessEq(s, t) && JsString.LessEq(t, s)
    ensures s == t
  {
    JsString.LessTrichotomy(s, t);
  }

  /**
    * Two lists ordered by action name that agree on the order of the records
    * of every action are equal: the stable sort has exactly one possible result.
    */
  lemma {:induction false} SortedUnique(s: seq<FileAction>, t: seq<FileAction>)
    requires SortedByAction(s) && SortedByAction(t)
    requires forall a :: WithAction(s, a) == WithAction(t, a)
    ensures s == t
    decreases |s| + |t|
  {
    if |s| == 0 && |t| > 0 {
      WithActionMembers(t, t[0].action, t[0]);
      WithActionMembers(s, t[0].action, t[0]);
    } else if |s| > 0 && |t| == 0 {
      WithActionMembers(s, s[0].action, s[0]);
      WithActionMembers(t, s[0].action, s[0]);
    } else if |s| > 0 {
      var x, y := s[|s| - 1], t[|t| - 1];
      var si, ti := s[..|s| - 1], t[..|t| - 1];
      LastIsLargest(s, t, x);
      LastIsLargest(t, s, y);
      LessEqAntisymmetric(x.action, y.action);
      assert WithAction(s, x.action) == WithAction(si, x.action) + [x];
      assert WithAction(t, x.action) == WithAction(ti, x.action) + [y];
      var w := WithAction(s, x.action);
      assert w[|w| - 1] == x && w[|w| - 1] == y;
      forall a
        ensures WithAction(si, a) == WithAction(ti, a)
      {
        if a == x.action {
          assert WithAction(si, a) == WithAction(s, a)[..|WithAction(s, a)| - 1];
          assert WithAction(ti, a) == WithAction(t, a)[..|WithAction(t, a)| - 1];
        } else {
          assert WithAction(si, a) == WithAction(s, a);
          assert WithAction(ti, a) == WithAction(t, a);
        }
      }
      SortedUnique(si, ti);
      assert s == si + [x] && t == ti + [y];
    }
  }

  /** A record of a list that agrees with an ordered one has an action no larger than the ordered list's last. */
  lemma LastIsLargest(s: seq<FileAction>, t: seq<FileAction>, x: FileAction)
    requires |t| > 0 && x in s && SortedByAction(t)
    requires WithAction(s, x.action) == WithAction(t, x.action)
    ensures JsString.LessEq(x.action, t[|t| - 1].action)
  {
    WithActionMembers(s, x.action, x);
    WithActionMembers(t, x.action, x);
    var p :| 0 <= p < |t| && t[p] == x;
    if p == |t| - 1 {
      JsString.LessEqReflexive(x.action);
    } else {
      assert JsString.LessEq(t[p].action, t[|t| - 1].action);
    }
  }

  /** `n` copies of `x`. */
  function Repeat(x: FileAction, n: nat): (r: seq<FileAction>)
    ensures |r| == n && forall i :: 0 <= i < n ==> r[i] == x
  {
    if n == 0 then [] else Repeat(x, n - 1) + [x]
  }

  /**
    * The records of action `a` in the task list, whatever order the shared
    * array was left in: for each uri in input order, its record for `a`,
    * repeated once per occurrence of `a` among the enabled actions when the
    * pair is eligible.
    */
  function ActionRun(eligible: Eligibility, uris: seq<Uri>, actions: seq<string>, a: string): (r: seq<FileAction>)
  {
    if |uris| == 0 then []
    else
      var last := uris[|uris| - 1];
      ActionRun(eligible, uris[..|uris| - 1], actions, a)
      + Repeat(Task(last, a), if eligible(last, a) then multiset(actions)[a] else 0)
  }

  /** One file's records of action `a`: its record for `a`, once per occurrence of `a`, when eligible. */
  lemma {:induction false} UriTasksWithAction(eligible: Eligibility, uri: Uri, order: seq<string>, a: string)
    ensures WithAction(UriTasks(eligible, uri, order), a) ==
            Repeat(Task(uri, a), if eligible(uri, a) then multiset(order)[a] else 0)
  {
    if |order| > 0 {
      var init, last := order[..|order| - 1], order[|order| - 1];
      var tail := if eligible(uri, last) then [Task(uri, last)] else [];
      UriTasksWithAction(eligible, uri, init, a);
      WithActionAppend(UriTasks(eligible, uri, init), tail, a);
      Basics.SplitLast(order);
      assert multiset(order)[a] == multiset(init)[a] + if last == a then 1 else 0;
      assert WithAction(tail, a) == if eligible(uri, last) && last == a then [Task(uri, a)] else [];
    }
  }

  /** The records of each action in the task list come out the same whatever the reorderings were. */
  lemma {:induction false} TaskListWithAction(eligible: Eligibility, uris: seq<Uri>, actions: seq<string>,
                                              orders: seq<seq<string>>, a: string)
    requires |orders| == |uris| && Reorderings(actions, orders)
    ensures WithAction(TaskList(eligible, uris, orders), a) == ActionRun(eligible, uris, actions, a)
  {
    if |uris| > 0 {
      var n := |uris|;
      ReorderingsPrefix(actions, orders, n - 1);
      TaskListWithAction(eligible, uris[..n - 1], actions, orders[..n - 1], a);
      UriTasksWithAction(eligible, uris[n - 1], orders[n - 1], a);
      WithActionAppend(TaskList(eligible, uris[..n - 1], orders[..n - 1]), UriTasks(eligible, uris[n - 1], orders[n - 1]), a);
      assert multiset(orders[n - 1]) == multiset(actions);
    }
  }

  /**
    * The list the loop runs: ordered by action name, and within one action the
    * records follow the uris' input order.
    */
  lemma FinalOrder(eligible: Eligibility, uris: seq<Uri>, actions: seq<string>, orders: seq<seq<string>>, a: string)
    requires |orders| == |uris| && Reorderings(actions, orders)
    ensures SortedByAction(SortByAction(TaskList(eligible, uris, orders)))
    ensures WithAction(SortByAction(TaskList(eligible, uris, orders)), a) == ActionRun(eligible, uris, actions, a)
  {
    SortByActionSorted(TaskList(eligible, uris, orders));
    SortByActionStable(TaskList(eligible, uris, orders), a);
    TaskListWithAction(eligible, uris, actions, orders, a);
  }

  /**
    * The order the engine-dependent `actions.sort(...)` calls leave the shared
    * array in has no effect on the list the loop runs.
    */
  lemma ReorderingIrrelevant(eligible: Eligibility, uris: seq<Uri>, actions: seq<string>,
                             o1: seq<seq<string>>, o2: seq<seq<string>>)
    requires |o1| == |uris| && Reorderings(actions, o1)
    requires |o2| == |uris| && Reorderings(actions, o2)
    ensures SortByAction(TaskList(eligible, uris, o1)) == SortByAction(TaskList(eligible, uris, o2))
  {
    var s1, s2 := SortByAction(TaskList(eligible, uris, o1)), SortByAction(TaskList(eligible, uris, o2));
    forall a
      ensures WithAction(s1, a) == WithAction(s2, a)
    {
      FinalOrder(eligible, uris, actions, o1, a);
      FinalOrder(eligible, uris, actions, o2, a);
    }
    FinalOrder(eligible, uris, actions, o1, []);
    FinalOrder(eligible, uris, actions, o2, []);
    SortedUnique(s1, s2);
  }
  // ---------------------------------------------------------------------------
  // The run loop of `applyActions`
  // ---------------------------------------------------------------------------

  /**
    * The host's side of one iteration: how opening the document, executing the
    * command, `saveAll` and `closeUnmodifiedEditors` ended, and the delay of the
    * file's first change event after the wait subscribed (once the command had
    * returned).
    */
  datatype ItemOutcome = ItemOutcome(showDocument: Call, executeCommand: Call, firstChange: Option<nat>,
                                     saveAll: Call, closeUnmodified: Call)

  /** What the run asks of the host, in order. */
  datatype Effect =
    | ShowDocument(fact: FileAction)
    | ExecuteCommand(fact: FileAction)
    | AwaitChange(fact: FileAction, changed: bool)   // the wait, ended by a change or by the timeout
    | SaveAll
    | CloseUnmodifiedEditors
    | ShowErrorMessage(fact: FileAction, message: string)
    | ShowWarningSummary(completed: nat, errors: nat)
    | ShowInformationSummary(completed: nat, errors: nat)

  /** `{ ...fact, error: e }`: a failed record with the message of what it threw. */
  datatype ErrorRecord = ErrorRecord(fact: FileAction, error: string)

  /** `/seems to be binary/gm.test(message)`. */
  predicate SeemsBinary(message: string)
  {
    JsString.Test(message, "seems to be binary", false)
  }

  /** `cancelled[i]` is what the token answers at the check before iteration i (none left: not requested). */
  predicate CancelAt(cancelled: seq<bool>, i: nat)
  {
    i < |cancelled| && cancelled[i]
  }

  /** The number of iterations the loop runs over `n` records: up to the first check that finds cancellation. */
  function StopIndex(cancelled: seq<bool>, n: nat): (r: nat)
    ensures r <= n
    ensures ContextMenuActions.NoCancelBefore(cancelled, r)
    ensures r < n ==> CancelAt(cancelled, r)
  {
    if n == 0 then 0
    else
      var r := StopIndex(cancelled, n - 1);
      if r < n - 1 || CancelAt(cancelled, n - 1) then r else n
  }

  /**
    * The error an iteration catches: that of the first call that failed among
    * those it made; the change wait's timeout is not among them.
    */
  function ItemError(o: ItemOutcome, save: bool, close: bool): (error: Option<string>)
  {
    if o.showDocument.Threw? then Some(o.showDocument.message)
    else if o.executeCommand.Threw? then Some(o.executeCommand.message)
    else if save && o.saveAll.Threw? then Some(o.saveAll.message)
    else if save && close && o.closeUnmodified.Threw? then Some(o.closeUnmodified.message)
    else None
  }

  /** What the `catch` shows for a failure with `message`. */
  function ErrorReport(fact: FileAction, message: string): seq<Effect>
  {
    if SeemsBinary(message) then [] else [ShowErrorMessage(fact, message)]
  }

  /** The host requests of one iteration: the calls up to the first that failed, then the error shown, if any. */
  function ItemEffects(fact: FileAction, o: ItemOutcome, save: bool, close: bool): (step: seq<Effect>)
  {
    [ShowDocument(fact)] +
    if o.showDocument.Threw? then ErrorReport(fact, o.showDocument.message)
    else
      [ExecuteCommand(fact)] +
      if o.executeCommand.Threw? then ErrorReport(fact, o.executeCommand.message)
      else
        [AwaitChange(fact, ContextMenuActions.ChangedWithin(o.firstChange, ChangeTimeoutMs))] +
        if !save then []
        else
          [SaveAll] +
          if o.saveAll.Threw? then ErrorReport(fact, o.saveAll.message)
          else if !close then []
          else
            [CloseUnmodifiedEditors] +
            if o.closeUnmodified.Threw? then ErrorReport(fact, o.closeUnmodified.message) else []
  }

  /** `completedFileActions` after the first n iterations. */
  function Completed(facts: seq<FileAction>, outcomes: seq<ItemOutcome>, n: nat, save: bool, close: bool)
    : (c: seq<FileAction>)
    requires n <= |facts| && n <= |outcomes|
    ensures |c| <= n
  {
    if n == 0 then []
    else
      Completed(facts, outcomes, n - 1, save, close)
      + if ItemError(outcomes[n - 1], save, close).None? then [facts[n - 1]] else []
  }

  /** `errors` after the first n iterations. */
  function Errors(facts: seq<FileAction>, outcomes: seq<ItemOutcome>, n: nat, save: bool, close: bool)
    : (e: seq<ErrorRecord>)
    requires n <= |facts| && n <= |outcomes|
    ensures |e| <= n
  {
    if n == 0 then []
    else
      var err := ItemError(outcomes[n - 1], save, close);
      Errors(facts, outcomes, n - 1, save, close)
      + if err.Some? then [ErrorRecord(facts[n - 1], err.value)] else []
  }

  /** The host requests of the first n iterations, in index order. */
  function Trace(facts: seq<FileAction>, outcomes: seq<ItemOutcome>, n: nat, save: bool, close: bool): (effects: seq<Effect>)
    requires n <= |facts| && n <= |outcomes|
  {
    if n == 0 then []
    else Trace(facts, outcomes, n - 1, save, close) + ItemEffects(facts[n - 1], outcomes[n - 1], save, close)
  }

  /** The closing message: a warning when anything failed, otherwise an information message. */
  function Summary(completed: nat, errors: nat): (e: Effect)
  {
    if errors > 0 then ShowWarningSummary(completed, errors) else ShowInformationSummary(completed, errors)
  }

  /** The records of a list of failures. */
  function ErrorFacts(errors: seq<ErrorRecord>): (r: seq<FileAction>)
    ensures |r| == |errors| && forall i :: 0 <= i < |r| ==> r[i] == errors[i].fact
  {
    if |errors| == 0 then [] else ErrorFacts(errors[..|errors| - 1]) + [errors[|errors| - 1].fact]
  }

  /**
    * The `for` loop of `applyActions` and its closing message. `cancelled[i]` is
    * the token's answer before iteration i, `outcomes[i]` the host's side of it.
    */
  method RunLoop(facts: seq<FileAction>, outcomes: seq<ItemOutcome>, cancelled: seq<bool>, save: bool, close: bool)
    returns (processed: nat, completed: seq<FileAction>, errors: seq<ErrorRecord>, effects: seq<Effect>)
    requires |outcomes| >= |facts|
    ensures processed == StopIndex(cancelled, |facts|)
    ensures completed == Completed(facts, outcomes, processed, save, close)
    ensures errors == Errors(facts, outcomes, processed, save, close)
    ensures effects == Trace(facts, outcomes, processed, save, close) + [Summary(|completed|, |errors|)]
    ensures |completed| + |errors| == processed <= |facts|
    ensures effects[|effects| - 1].ShowWarningSummary? <==> |errors| > 0
  {
    var i := 0;
    completed, errors, effects := [], [], [];
    while i < |facts| && !CancelAt(cancelled, i)
      invariant i <= |facts| && ContextMenuActions.NoCancelBefore(cancelled, i)
      invariant completed == Completed(facts, outcomes, i, save, close)
      invariant errors == Errors(facts, outcomes, i, save, close)
      invariant effects == Trace(facts, outcomes, i, save, close)
      invariant |completed| + |errors| == i
    {
      var error, step := RunItem(facts[i], outcomes[i], save, close);
      if error.None? {
        completed := completed + [facts[i]];
      } else {
        errors := errors + [ErrorRecord(facts[i], error.value)];
      }
      effects := effects + step;
      i := i + 1;
    }
    processed := i;
    effects := effects + [Summary(|completed|, |errors|)];
  }

  /**
    * One iteration's `try`/`catch`: the calls in order, the first that throws
    * ending the `try`; then the error box unless the message reads as binary.
    * This is the statement-by-statement rendering of the loop body; `ItemError`
    * and `ItemEffects` are its specification, and the properties of an
    * iteration are proved about them.
    */
  method RunItem(fact: FileAction, o: ItemOutcome, save: bool, close: bool)
    returns (error: Option<string>, step: seq<Effect>)
    ensures error == ItemError(o, save, close)
    ensures step == ItemEffects(fact, o, save, close)
  {
    error := None;
    step := [ShowDocument(fact)];
    if o.showDocument.Threw? {
      error := Some(o.showDocument.message);
    } else {
      step := step + [ExecuteCommand(fact)];
      if o.executeCommand.Threw? {
        error := Some(o.executeCommand.message);
      } else {
        // A timeout of the change wait is caught and only logged.
        step := step + [AwaitChange(fact, ContextMenuActions.ChangedWithin(o.firstChange, ChangeTimeoutMs))];
        if save {
          step := step + [SaveAll];
          if o.saveAll.Threw? {
            error := Some(o.saveAll.message);
          } else if close {
            step := step + [CloseUnmodifiedEditors];
            if o.closeUnmodified.Threw? {
              error := Some(o.closeUnmodified.message);
            }
          }
        }
      }
    }
    if error.Some? && !SeemsBinary(error.value) {
      step := step + [ShowErrorMessage(fact, error.value)];
    }
  }

  /**
    * Each processed record lands in exactly one of `completedFileActions` and
    * `errors`: together they are the processed records, each as often as it was
    * processed.
    */
  lemma {:induction false} ProcessedPartition(facts: seq<FileAction>, outcomes: seq<ItemOutcome>, n: nat,
                                              save: bool, close: bool)
    requires n <= |facts| && n <= |outcomes|
    ensures |Completed(facts, outcomes, n, save, close)| + |Errors(facts, outcomes, n, save, close)| == n
    ensures multiset(Completed(facts, outcomes, n, save, close))
            + multiset(ErrorFacts(Errors(facts, outcomes, n, save, close))) == multiset(facts[..n])
  {
    if n > 0 {
      ProcessedPartition(facts, outcomes, n - 1, save, close);
      PartitionStep(facts, outcomes, n, save, close);
    }
  }

  /** One iteration adds its record to exactly one of the two lists. */
  lemma PartitionStep(facts: seq<FileAction>, outcomes: seq<ItemOutcome>, n: nat, save: bool, close: bool)
    requires 0 < n <= |facts| && n <= |outcomes|
    requires |Completed(facts, outcomes, n - 1, save, close)| + |Errors(facts, outcomes, n - 1, save, close)| == n - 1
    requires multiset(Completed(facts, outcomes, n - 1, save, close))
             + multiset(ErrorFacts(Errors(facts, outcomes, n - 1, save, close))) == multiset(facts[..n - 1])
    ensures |Completed(facts, outcomes, n, save, close)| + |Errors(facts, outcomes, n, save, close)| == n
    ensures multiset(Completed(facts, outcomes, n, save, close))
            + multiset(ErrorFacts(Errors(facts, outcomes, n, save, close))) == multiset(facts[..n])
  {
    var c, e := Completed(facts, outcomes, n - 1, save, close), Errors(facts, outcomes, n - 1, save, close);
    var x := facts[n - 1];
    var err := ItemError(outcomes[n - 1], save, close);
    assert facts[..n] == facts[..n - 1] + [x];
    PartitionSnoc(c, ErrorFacts(e), facts[..n - 1], x);
    if err.Some? {
      assert Completed(facts, outcomes, n, save, close) == c;
      assert Errors(facts, outcomes, n, save, close) == e + [ErrorRecord(x, err.value)];
      ErrorFactsSnoc(e, ErrorRecord(x, err.value));
    } else {
      assert Completed(facts, outcomes, n, save, close) == c + [x];
      assert Errors(facts, outcomes, n, save, close) == e;
    }
  }

  lemma PartitionSnoc(c: seq<FileAction>, f: seq<FileAction>, p: seq<FileAction>, x: FileAction)
    requires multiset(c) + multiset(f) == multiset(p)
    ensures multiset(c + [x]) + multiset(f) == multiset(p + [x])
    ensures multiset(c) + multiset(f + [x]) == multiset(p + [x])
  {
  }

  lemma ErrorFactsSnoc(e: seq<ErrorRecord>, r: ErrorRecord)
    ensures ErrorFacts(e + [r]) == ErrorFacts(e) + [r.fact]
  {
    assert (e + [r])[..|e|] == e;
  }

  /**
    * A failed iteration is recorded in `errors` with what it threw, a successful
    * one in `completedFileActions`; a change wait that timed out leaves a
    * record completed.
    */
  lemma {:induction false} OutcomeRecorded(facts: seq<FileAction>, outcomes: seq<ItemOutcome>, n: nat,
                                           save: bool, close: bool, i: nat)
    requires n <= |facts| && n <= |outcomes| && i < n
    ensures ItemError(outcomes[i], save, close).Some? ==>
              ErrorRecord(facts[i], ItemError(outcomes[i], save, close).value) in Errors(facts, outcomes, n, save, close)
    ensures ItemError(outcomes[i], save, close).None? ==> facts[i] in Completed(facts, outcomes, n, save, close)
  {
    if i < n - 1 {
      OutcomeRecorded(facts, outcomes, n - 1, save, close, i);
    }
  }

  /**
    * An iteration fails exactly when one of the calls it made threw: whether
    * and when the change arrived plays no part.
    */
  lemma TimeoutSwallowed(o: ItemOutcome, save: bool, close: bool, firstChange: Option<nat>)
    ensures ItemError(o.(firstChange := firstChange), save, close) == ItemError(o, save, close)
    ensures ItemError(o, save, close).None? <==>
              o.showDocument.Returned? && o.executeCommand.Returned?
              && (save ==> o.saveAll.Returned?) && (save && close ==> o.closeUnmodified.Returned?)
  {
  }

  /** When every call of every processed iteration returned, the run has no errors, timeouts or not. */
  lemma {:induction false} AllReturnedNoErrors(facts: seq<FileAction>, outcomes: seq<ItemOutcome>, n: nat,
                                               save: bool, close: bool)
    requires n <= |facts| && n <= |outcomes|
    requires forall i :: 0 <= i < n ==>
               outcomes[i].showDocument.Returned? && outcomes[i].executeCommand.Returned?
               && outcomes[i].saveAll.Returned? && outcomes[i].closeUnmodified.Returned?
    ensures Errors(facts, outcomes, n, save, close) == []
    ensures Completed(facts, outcomes, n, save, close) == facts[..n]
  {
    if n > 0 {
      AllReturnedNoErrors(facts, outcomes, n - 1, save, close);
      assert facts[..n] == facts[..n - 1] + [facts[n - 1]];
    }
  }

  /**
    * An iteration shows the error message box for a message exactly when it
    * failed with that message and the message does not match `seems to be binary`.
    */
  lemma ErrorShownIffNotBinary(fact: FileAction, o: ItemOutcome, save: bool, close: bool, message: string)
    ensures ShowErrorMessage(fact, message) in ItemEffects(fact, o, save, close) <==>
              ItemError(o, save, close) == Some(message) && !SeemsBinary(message)
  {
  }

  /**
    * `saveAll` is requested only under the save flag, and
    * `closeUnmodifiedEditors` only under both flags.
    */
  lemma {:induction false} SaveGating(facts: seq<FileAction>, outcomes: seq<ItemOutcome>, n: nat,
                                      save: bool, close: bool)
    requires n <= |facts| && n <= |outcomes|
    ensures SaveAll in Trace(facts, outcomes, n, save, close) ==> save
    ensures CloseUnmodifiedEditors in Trace(facts, outcomes, n, save, close) ==> save && close
  {
    if n > 0 {
      SaveGating(facts, outcomes, n - 1, save, close);
    }
  }

  /**
    * `applyActions(uris, actions)` once the command has its files: builds the
    * task list, letting the k-th uri's `actions.sort(...)` leave the shared
    * array as `orders[k]`, reorders it by action name, and runs the loop.
    */
  method ApplyActions(uris: seq<Uri>, actions: array<string>, orders: seq<seq<string>>,
                      outcomes: seq<ItemOutcome>, cancelled: seq<bool>, save: bool, close: bool)
    returns (facts: seq<FileAction>, processed: nat, completed: seq<FileAction>,
             errors: seq<ErrorRecord>, effects: seq<Effect>)
    requires |orders| == |uris| && Reorderings(actions[..], orders)
    requires |outcomes| >= |uris| * actions.Length
    modifies actions
    ensures |uris| > 0 ==> actions[..] == orders[|uris| - 1]
    ensures |uris| == 0 ==> actions[..] == old(actions[..])
    ensures facts == SortByAction(TaskList(FilterFileTypeAction, uris, orders))
    ensures |facts| <= |outcomes|
    ensures processed == StopIndex(cancelled, |facts|)
    ensures completed == Completed(facts, outcomes, processed, save, close)
    ensures errors == Errors(facts, outcomes, processed, save, close)
    ensures effects == Trace(facts, outcomes, processed, save, close) + [Summary(|completed|, |errors|)]
  {
    var all := BuildTaskList(FilterFileTypeAction, uris, actions, orders);
    facts := SortByAction(all);
    processed, completed, errors, effects := RunLoop(facts, outcomes, cancelled, save, close);
  }

  /**
    * The `reduce` of `applyActions` over the uris: before the k-th uri filters
    * the shared array, its `actions.sort(...)` leaves it as `orders[k]`.
    */
  method BuildTaskList(eligible: Eligibility, uris: seq<Uri>, actions: array<string>, orders: seq<seq<string>>)
    returns (all: seq<FileAction>)
    requires |orders| == |uris| && Reorderings(actions[..], orders)
    modifies actions
    ensures |uris| > 0 ==> actions[..] == orders[|uris| - 1]
    ensures |uris| == 0 ==> actions[..] == old(actions[..])
    ensures all == TaskList(eligible, uris, orders)
    ensures |all| <= |uris| * actions.Length
  {
    ghost var enabled := actions[..];
    all := [];
    var k := 0;
    while k < |uris|
      invariant k <= |uris|
      invariant all == TaskList(eligible, uris[..k], orders[..k])
      invariant k > 0 ==> actions[..] == orders[k - 1]
      invariant k == 0 ==> actions[..] == enabled
    {
      ReorderedLength(orders[k], enabled);
      forall j | 0 <= j < actions.Length {
        actions[j] := orders[k][j];
      }
      assert actions[..] == orders[k];
      all := all + UriTasks(eligible, uris[k], actions[..]);
      assert uris[..k + 1][..k] == uris[..k] && orders[..k + 1][..k] == orders[..k];
      k := k + 1;
    }
    assert uris[..k] == uris && orders[..k] == orders;
    TaskListLength(eligible, uris, enabled, orders);
  }

  // ---------------------------------------------------------------------------
  // resolveFiles
  // ---------------------------------------------------------------------------

  /** A command argument, by the shape the function inspects. */
  datatype Arg =
    | UriArg(uri: Uri)                     // a `vscode.Uri`
    | UriListArg(uris: seq<Uri>)           // the selection array the explorer passes second
    | ResourceStateArg(resourceUri: Uri)   // a source-control resource state

  /**
    * The casts `resolveFiles` makes hold: after a clicked uri, a second argument
    * is the selection array; when the first is no uri, every one is a resource state.
    */
  predicate ArgsAsCast(args: seq<Arg>)
  {
    |args| > 0 ==>
      (args[0].UriArg? && |args| == 2 ==> args[1].UriListArg?)
      && (!args[0].UriArg? ==> forall i :: 0 <= i < |args| ==> args[i].ResourceStateArg?)
  }

  /** `selected.map(x => x.resourceUri)`. */
  function ResourceUris(args: seq<Arg>): (r: seq<Uri>)
    requires forall i :: 0 <= i < |args| ==> args[i].ResourceStateArg?
    ensures |r| == |args| && forall i :: 0 <= i < |r| ==> r[i] == args[i].resourceUri
  {
    if |args| == 0 then [] else ResourceUris(args[..|args| - 1]) + [args[|args| - 1].resourceUri]
  }

  /** `resolveFiles(...args)`: the files a command invocation targets. */
  function ResolveFiles(args: seq<Arg>): (r: seq<Uri>)
    requires ArgsAsCast(args)
    ensures |args| == 0 ==> r == []
    ensures |args| == 2 && args[0].UriArg? ==> r == args[1].uris
    ensures |args| > 0 && |args| != 2 && args[0].UriArg? ==> r == [args[0].uri]
    ensures |args| > 0 && !args[0].UriArg? ==>
              |r| == |args| && forall i :: 0 <= i < |r| ==> r[i] == args[i].resourceUri
  {
    if |args| > 0 then
      if args[0].UriArg? then
        if |args| == 2 then args[1].uris else [args[0].uri]
      else ResourceUris(args)
    else []
  }
}
