/**
  * src/ContextMenuActions.ts: the task list of a run (`getAllFileActions`), the
  * cancellable generator that starts the tasks one at a time
  * (`fileActionGenerator`), and the execution of one task (`runAction`), with
  * the host calls and the race between the change event and the timeout
  * replaced by their outcomes.
  */
module ContextMenuActions {
  import opened Wrappers
  import opened Host
  import opened FileActions
  import Filters
  import JsString
  import Basics

  // ---------------------------------------------------------------------------
  // getAllFileActions
  // ---------------------------------------------------------------------------

  /** `s` is in the order the comparator of `getAllFileActions` asks for: by `fsPath`. */
  predicate SortedByPath(s: seq<Uri>)
  {
    forall i, j :: 0 <= i < j < |s| ==> JsString.LessEq(s[i].fsPath, s[j].fsPath)
  }

  /**
    * `uris.sort(...)` with the comparator that answers 1 when `a.fsPath > b.fsPath`,
    * -1 when `b.fsPath > a.fsPath` and 0 otherwise: the caller's array is
    * rearranged in place into `fsPath` order.
    */
  method SortByFsPath(a: array<Uri>)
    modifies a
    ensures SortedByPath(a[..])
    ensures multiset(a[..]) == multiset(old(a[..]))
  {
    var i := 0;
    while i < a.Length
      invariant 0 <= i <= a.Length
      invariant forall p, q :: 0 <= p < q < i ==> JsString.LessEq(a[p].fsPath, a[q].fsPath)
      invariant multiset(a[..]) == multiset(old(a[..]))
    {
      SinkInto(a, i);
      i := i + 1;
    }
  }

  /** One pass of the sort: `a[i]` moves down past every earlier uri with a greater path. */
  method SinkInto(a: array<Uri>, i: int)
    requires 0 <= i < a.Length
    requires forall p, q :: 0 <= p < q < i ==> JsString.LessEq(a[p].fsPath, a[q].fsPath)
    modifies a
    ensures forall p, q :: 0 <= p < q <= i ==> JsString.LessEq(a[p].fsPath, a[q].fsPath)
    ensures multiset(a[..]) == multiset(old(a[..]))
  {
    var j := i;
    while j > 0 && JsString.Less(a[j].fsPath, a[j - 1].fsPath)
      invariant 0 <= j <= i
      invariant forall p, q :: 0 <= p < q <= i && p != j && q != j ==>
                  JsString.LessEq(a[p].fsPath, a[q].fsPath)
      invariant forall q :: j < q <= i ==> JsString.LessEq(a[j].fsPath, a[q].fsPath)
      invariant multiset(a[..]) == multiset(old(a[..]))
    {
      JsString.LessImpliesLessEq(a[j].fsPath, a[j - 1].fsPath);
      a[j - 1], a[j] := a[j], a[j - 1];
      j := j - 1;
    }
    forall p | 0 <= p < j
      ensures JsString.LessEq(a[p].fsPath, a[j].fsPath)
    {
      if p < j - 1 {
        JsString.LessEqTransitive(a[p].fsPath, a[j - 1].fsPath, a[j].fsPath);
      }
    }
  }

  /**
    * The `reduce` of `getAllFileActions`: for each uri in turn, its eligible
    * actions in the caller's order, appended to the records built so far.
    */
  function BuildTasks(eligible: Eligibility, uris: seq<Uri>, actions: seq<string>): (r: seq<FileAction>)
  {
    if |uris| == 0 then []
    else BuildTasks(eligible, uris[..|uris| - 1], actions) + UriTasks(eligible, uris[|uris| - 1], actions)
  }

  /**
    * `getAllFileActions(uris, actions)`: sorts the caller's array of uris in place,
    * then builds the records in that order.
    */
  method GetAllFileActions(uris: array<Uri>, actions: seq<string>) returns (fileActions: seq<FileAction>)
    modifies uris
    ensures SortedByPath(uris[..]) && multiset(uris[..]) == multiset(old(uris[..]))
    ensures fileActions == BuildTasks(Filters.FilterFileTypeAction, uris[..], actions)
  {
    SortByFsPath(uris);
    fileActions := BuildTasks(Filters.FilterFileTypeAction, uris[..], actions);
  }

  /**
    * Every record pairs a uri of the list with an action of the list that is
    * eligible for it, and carries that uri's own stream views.
    */
  lemma {:induction false} BuildTasksRecords(eligible: Eligibility, uris: seq<Uri>, actions: seq<string>)
    ensures forall t :: t in BuildTasks(eligible, uris, actions) ==>
              t == Task(t.uri, t.action) && t.uri in uris && t.action in actions
              && eligible(t.uri, t.action)
  {
    if |uris| > 0 {
      var init, last := uris[..|uris| - 1], uris[|uris| - 1];
      BuildTasksRecords(eligible, init, actions);
      UriTasksRecords(eligible, last, actions);
      Basics.SplitLast(uris);
    }
  }

  lemma {:induction false} BuildTasksUris(eligible: Eligibility, uris: seq<Uri>, actions: seq<string>)
    ensures forall t :: t in BuildTasks(eligible, uris, actions) ==> t.uri in uris
  {
    if |uris| > 0 {
      var init, last := uris[..|uris| - 1], uris[|uris| - 1];
      BuildTasksUris(eligible, init, actions);
      UriTasksUri(eligible, last, actions);
      Basics.SplitLast(uris);
    }
  }

  lemma UriTasksUri(eligible: Eligibility, uri: Uri, actions: seq<string>)
    ensures forall t :: t in UriTasks(eligible, uri, actions) ==> t.uri == uri
  {
    UriTasksRecords(eligible, uri, actions);
  }

  /** There are at most as many records as (uri, action) pairs. */
  lemma {:induction false} BuildTasksLength(eligible: Eligibility, uris: seq<Uri>, actions: seq<string>)
    ensures |BuildTasks(eligible, uris, actions)| <= |uris| * |actions|
  {
    if |uris| > 0 {
      var n := |uris|;
      BuildTasksLength(eligible, uris[..n - 1], actions);
      Basics.MulSucc(n - 1, |actions|);
    }
  }

  /**
    * How often the record of (u, a) occurs: the number of times u occurs in
    * `uris` times the number of times a occurs in `actions` when the pair is
    * eligible, so no duplicate in the input is dropped; never when it is not.
    */
  lemma {:induction false} BuildTasksCount(eligible: Eligibility, uris: seq<Uri>, actions: seq<string>, u: Uri, a: string)
    ensures multiset(BuildTasks(eligible, uris, actions))[Task(u, a)] ==
            if eligible(u, a) then multiset(uris)[u] * multiset(actions)[a] else 0
  {
    if |uris| > 0 {
      var init, last := uris[..|uris| - 1], uris[|uris| - 1];
      BuildTasksCount(eligible, init, actions, u, a);
      UriTasksCount(eligible, last, actions, u, a);
      Basics.SplitLast(uris);
      var x := Task(u, a);
      var front, block := BuildTasks(eligible, init, actions), UriTasks(eligible, last, actions);
      assert BuildTasks(eligible, uris, actions) == front + block;
      assert multiset(front + block)[x] == multiset(front)[x] + multiset(block)[x];
      assert multiset(uris)[u] == multiset(init)[u] + if last == u then 1 else 0;
      if last == u && eligible(u, a) {
        Basics.MulSucc(multiset(init)[u], multiset(actions)[a]);
      }
    }
  }

  /** Over uris sorted by `fsPath`, the records come in `fsPath` order too. */
  lemma {:induction false} BuildTasksOrderedByPath(eligible: Eligibility, uris: seq<Uri>, actions: seq<string>)
    requires SortedByPath(uris)
    ensures forall i, j :: 0 <= i < j < |BuildTasks(eligible, uris, actions)| ==>
              JsString.LessEq(BuildTasks(eligible, uris, actions)[i].uri.fsPath,
                              BuildTasks(eligible, uris, actions)[j].uri.fsPath)
  {
    if |uris| > 0 {
      var init, last := uris[..|uris| - 1], uris[|uris| - 1];
      assert SortedByPath(init);
      BuildTasksOrderedByPath(eligible, init, actions);
      BuildTasksUris(eligible, init, actions);
      UriTasksUri(eligible, last, actions);
      var front, back := BuildTasks(eligible, init, actions), UriTasks(eligible, last, actions);
      var r := BuildTasks(eligible, uris, actions);
      assert r == front + back;
      forall i, j | 0 <= i < j < |r|
        ensures JsString.LessEq(r[i].uri.fsPath, r[j].uri.fsPath)
      {
        if j >= |front| {
          assert r[j] == back[j - |front|] && back[j - |front|] in back;
          assert r[j].uri == last;
          if i >= |front| {
            assert r[i] == back[i - |front|] && back[i - |front|] in back;
            assert r[i].uri == last;
            JsString.LessEqReflexive(last.fsPath);
            assert JsString.LessEq(r[i].uri.fsPath, r[j].uri.fsPath);
          } else {
            assert r[i] == front[i] && front[i] in front;
            var p :| 0 <= p < |init| && init[p] == r[i].uri;
            assert uris[p] == init[p] && uris[|uris| - 1] == last;
            assert JsString.LessEq(uris[p].fsPath, uris[|uris| - 1].fsPath);
            assert JsString.LessEq(r[i].uri.fsPath, r[j].uri.fsPath);
          }
        } else {
          assert r[i] == front[i] && r[j] == front[j];
          assert JsString.LessEq(front[i].uri.fsPath, front[j].uri.fsPath);
          assert JsString.LessEq(r[i].uri.fsPath, r[j].uri.fsPath);
        }
      }
    }
  }

  /**
    * Each record's change view delivers exactly the change events about its own
    * uri, and its will-save view exactly the will-save events about it.
    */
  lemma RecordViewsOwnFile(eligible: Eligibility, uris: seq<Uri>, actions: seq<string>, events: seq<DocumentEvent>, t: FileAction)
    requires t in BuildTasks(eligible, uris, actions)
    ensures forall e :: e in Observe(t.didChange, events) <==>
              e in events && e.source == DidChange && e.documentUri.text == t.uri.text
    ensures forall e :: e in Observe(t.willSave, events) <==>
              e in events && e.source == WillSave && e.documentUri.text == t.uri.text
  {
    BuildTasksRecords(eligible, uris, actions);
  }

  // ---------------------------------------------------------------------------
  // runAction
  // ---------------------------------------------------------------------------

  /** The change wait's window in `runAction`, in milliseconds. */
  const ChangeTimeoutMs: nat := 500

  /**
    * The host's side of one `runAction`: how opening the document and executing
    * the command ended, and the delay of the file's first change event after the
    * wait subscribed. The wait subscribes in `toPromise()`, once the command has
    * returned, so a change made while the command ran is not seen.
    */
  datatype StepOutcome = StepOutcome(showDocument: Call, executeCommand: Call, firstChange: Option<nat>)

  /** A change event arrived before the timeout fired. */
  predicate ChangedWithin(firstChange: Option<nat>, windowMs: nat)
  {
    firstChange.Some? && firstChange.value < windowMs
  }

  /**
    * `runAction(action)`: open the document, execute the command, wait for the
    * first change. `start` is the clock reading before the document is opened
    * and `elapsed` what a monotone clock has advanced by when `finish` is read.
    * A failure to open or to execute is not caught: it propagates as the call's
    * error.
    */
  method RunAction(action: FileAction, host: StepOutcome, start: int, elapsed: nat)
    returns (r: Result<FileActionResult, string>)
    ensures host.showDocument.Threw? ==> r == Failure(host.showDocument.message)
    ensures host.showDocument.Returned? && host.executeCommand.Threw? ==>
              r == Failure(host.executeCommand.message)
    ensures r.Success? <==> host.showDocument.Returned? && host.executeCommand.Returned?
    ensures r.Success? ==> r.value.action == action && r.value.start == start
    ensures r.Success? ==> r.value.start <= r.value.finish && r.value.finish - r.value.start == elapsed
    ensures r.Success? ==> (r.value.didTimeout <==> !ChangedWithin(host.firstChange, ChangeTimeoutMs))
  {
    if host.showDocument.Threw? {
      return Failure(host.showDocument.message);
    }
    if host.executeCommand.Threw? {
      return Failure(host.executeCommand.message);
    }
    var didTimeout := false;
    if !ChangedWithin(host.firstChange, ChangeTimeoutMs) {
      didTimeout := true;
    }
    var finish := start + elapsed;
    r := Success(FileActionResult(action, start, finish, didTimeout));
  }

  // ---------------------------------------------------------------------------
  // fileActionGenerator
  // ---------------------------------------------------------------------------

  /** What one resume of the generator gives back. */
  datatype Resume =
    | Yield(index: nat, action: FileAction)  // `runAction(action)` was started on `fileActions[index]`
    | Finished                               // the generator has returned

  /**
    * `fileActionGenerator(fileActions)`, its `for` loop resumed one step at a
    * time. `started` records, for the proofs, the indices whose `runAction` was
    * started.
    */
  class FileActionGenerator {
    const fileActions: seq<FileAction>
    var i: nat
    var cancel: bool
    var begun: bool
    var done: bool
    ghost var started: seq<nat>

    ghost predicate Valid()
      reads this
    {
      |started| <= |fileActions|
      && (forall k :: 0 <= k < |started| ==> started[k] == k)
      && (!begun ==> started == [] && !done && !cancel && i == 0)
      && (begun && !done ==> i < |fileActions| && |started| == i + 1 && !cancel)
    }

    constructor (fileActions: seq<FileAction>)
      ensures Valid()
      ensures this.fileActions == fileActions && started == [] && !begun && !done
    {
      this.fileActions := fileActions;
      i, cancel, begun, done := 0, false, false, false;
      started := [];
    }

    /**
      * `next(cancelFed)`. The first resume runs the loop from its start and
      * ignores `cancelFed`; every later one makes it the value of the `yield`
      * the loop is suspended at, then advances `i`. The loop starts the task at
      * `i` unless the list is exhausted or cancellation was fed.
      */
    method Next(cancelFed: bool) returns (r: Resume)
      requires Valid()
      modifies this
      ensures Valid()
      ensures r.Yield? ==> !done && r.index == |old(started)| && r.index < |fileActions|
                           && r.action == fileActions[r.index] && started == old(started) + [r.index]
      ensures r.Finished? ==> done && started == old(started)
      ensures old(done) ==> r.Finished?
      ensures old(begun) && cancelFed ==> r.Finished?
      ensures !old(done) && !(old(begun) && cancelFed) && |old(started)| < |fileActions| ==> r.Yield?
    {
      if done {
        return Finished;
      }
      if !begun {
        begun := true;
      } else {
        cancel := cancelFed;
        i := i + 1;
      }
      if i < |fileActions| && !cancel {
        started := started + [i];
        r := Yield(i, fileActions[i]);
      } else {
        done := true;
        r := Finished;
      }
    }
  }

  /**
    * How many tasks the generator starts over `n` records when `cancels[k]` is
    * fed back after the k-th yield (a missing entry counts as false).
    */
  function StartedCount(n: nat, cancels: seq<bool>): (c: nat)
    ensures c <= n
  {
    if n == 0 then 0
    else if |cancels| == 0 then n
    else if cancels[0] || n == 1 then 1
    else 1 + StartedCount(n - 1, cancels[1..])
  }

  /** `cancels` holds no true before index k. */
  predicate NoCancelBefore(cancels: seq<bool>, k: nat)
  {
    forall j :: 0 <= j < k && j < |cancels| ==> !cancels[j]
  }

  /**
    * While nothing was cancelled before the k-th yield, the k-th task is started,
    * and it is the last one exactly when it is the last record or a true is fed
    * back after it.
    */
  lemma {:induction false} StartedCountAt(n: nat, cancels: seq<bool>, k: nat)
    requires k < n && NoCancelBefore(cancels, k)
    ensures StartedCount(n, cancels) > k
    ensures StartedCount(n, cancels) == k + 1 <==> (k == n - 1 || (k < |cancels| && cancels[k]))
  {
    if |cancels| > 0 && !cancels[0] && n > 1 {
      if k == 0 {
        StartedCountAt(n - 1, cancels[1..], 0);
      } else {
        assert NoCancelBefore(cancels[1..], k - 1) by {
          forall j | 0 <= j < k - 1 && j < |cancels[1..]| ensures !cancels[1..][j] {
            assert cancels[1..][j] == cancels[j + 1];
          }
        }
        StartedCountAt(n - 1, cancels[1..], k - 1);
      }
    }
  }

  /** When false is always fed back, every record's task is started. */
  lemma StartedCountNoCancel(n: nat, cancels: seq<bool>)
    requires NoCancelBefore(cancels, n)
    ensures StartedCount(n, cancels) == n
  {
    if n > 0 {
      StartedCountAt(n, cancels, n - 1);
    }
  }

  /** A true fed back after the k-th yield stops the run: no task after index k starts. */
  lemma StartedCountCancelled(n: nat, cancels: seq<bool>, k: nat)
    requires k < |cancels| && cancels[k]
    ensures StartedCount(n, cancels) <= k + 1
  {
    if StartedCount(n, cancels) > k + 1 {
      var j := FirstCancel(cancels, k);
      StartedCountAt(n, cancels, j);
    }
  }

  /** The first index at or before k holding a true, given that k holds one. */
  function FirstCancel(cancels: seq<bool>, k: nat): (j: nat)
    requires k < |cancels| && cancels[k]
    ensures j <= k && cancels[j] && NoCancelBefore(cancels, j)
  {
    if k == 0 || NoCancelBefore(cancels, k) then k
    else
      var j :| 0 <= j < k && cancels[j];
      FirstCancel(cancels, j)
  }

  /**
    * The generator driven to the end by a caller that feeds `cancels[k]` back
    * after the k-th yield: the tasks started are the first StartedCount records,
    * in index order, none skipped or repeated.
    */
  method RunGenerator(fileActions: seq<FileAction>, cancels: seq<bool>) returns (run: seq<FileAction>)
    ensures run == fileActions[..StartedCount(|fileActions|, cancels)]
  {
    var g := new FileActionGenerator(fileActions);
    var r := g.Next(false);
    var k := 0;
    run := [];
    while r.Yield?
      invariant g.Valid() && g.fileActions == fileActions
      invariant |g.started| == k + if r.Yield? then 1 else 0
      invariant r.Yield? ==> !g.done && g.begun && r.index == k && k < |fileActions| && NoCancelBefore(cancels, k)
      invariant r.Yield? ==> r.action == fileActions[k]
      invariant r.Finished? ==> k == StartedCount(|fileActions|, cancels)
      invariant k <= |fileActions| && run == fileActions[..k]
      decreases |fileActions| - k
    {
      var fed := if k < |cancels| then cancels[k] else false;
      run := run + [r.action];
      r := g.Next(fed);
      if r.Finished? {
        StartedCountAt(|fileActions|, cancels, k);
      } else {
        assert NoCancelBefore(cancels, k + 1);
      }
      k := k + 1;
    }
    if |fileActions| == 0 {
      assert StartedCount(0, cancels) == 0;
    }
  }
}
