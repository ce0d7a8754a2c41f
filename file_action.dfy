/**
  * The records of src/FileAction.ts and src/FileActionResult.ts, the per-file
  * stream views they carry, and the records both orchestrations build for one file.
  */
module FileActions {
  import opened Host
  import Filters
  import Basics

  /**
    * A view of one of the shared event streams filtered by uri: it delivers the
    * events of `source` about the document whose uri renders as `key`'s
    * (`change$.pipe(filter(byEventUri(uri)))` and its will-save twin).
    */
  datatype StreamView = Filtered(source: Source, key: Uri)

  /** One unit of work: run the command `action` on `uri`, watching the file's own streams. */
  datatype FileAction = FileAction(uri: Uri, action: string, didChange: StreamView, willSave: StreamView)

  /** What running one FileAction produced: its clock readings and whether the change wait timed out. */
  datatype FileActionResult = FileActionResult(action: FileAction, start: int, finish: int, didTimeout: bool)

  /** `view` lets `e` through. */
  predicate Admits(view: StreamView, e: DocumentEvent)
  {
    e.source == view.source && Filters.ByEventUri(view.key, e)
  }

  /**
    * The events of a host event history that `view` delivers, in order: no event
    * about another file leaks in, and none about its own file is lost.
    */
  function Observe(view: StreamView, events: seq<DocumentEvent>): (seen: seq<DocumentEvent>)
    ensures forall e :: e in seen ==> e in events && Admits(view, e)
    ensures forall e :: e in events && Admits(view, e) ==> e in seen
  {
    if |events| == 0 then []
    else
      var last := events[|events| - 1];
      assert events == events[..|events| - 1] + [last];
      Observe(view, events[..|events| - 1]) + if Admits(view, last) then [last] else []
  }

  /**
    * Which (uri, action) pairs a run includes. The record builders take the rule
    * as a parameter; both orchestrations pass `filterFileTypeAction`.
    */
  type Eligibility = (Uri, string) -> bool

  /** The record for `action` on `uri`, carrying the file's own change and will-save views. */
  function Task(uri: Uri, action: string): (t: FileAction)
  {
    FileAction(uri, action, Filtered(DidChange, uri), Filtered(WillSave, uri))
  }

  /**
    * The records of one file: the eligible actions, in the order given, each
    * wrapped as a record (a `filter` followed by a `reduce` that appends).
    */
  function UriTasks(eligible: Eligibility, uri: Uri, actions: seq<string>): (r: seq<FileAction>)
    ensures |r| <= |actions|
  {
    if |actions| == 0 then []
    else
      var a := actions[|actions| - 1];
      UriTasks(eligible, uri, actions[..|actions| - 1])
      + if eligible(uri, a) then [Task(uri, a)] else []
  }

  /** Every record of one file is an eligible action of the list, with that file's views. */
  lemma {:induction false} UriTasksRecords(eligible: Eligibility, uri: Uri, actions: seq<string>)
    ensures forall t :: t in UriTasks(eligible, uri, actions) ==>
              t == Task(uri, t.action) && t.action in actions && eligible(uri, t.action)
  {
    if |actions| > 0 {
      var init := actions[..|actions| - 1];
      UriTasksRecords(eligible, uri, init);
      assert actions == init + [actions[|actions| - 1]];
    }
  }

  /**
    * How often a record occurs among one file's records: as often as its action
    * occurs in the list when it is that file's and eligible, never otherwise.
    */
  lemma {:induction false} UriTasksCount(eligible: Eligibility, uri: Uri, actions: seq<string>, u: Uri, a: string)
    ensures multiset(UriTasks(eligible, uri, actions))[Task(u, a)] ==
            if u == uri && eligible(uri, a) then multiset(actions)[a] else 0
  {
    if |actions| > 0 {
      var init, last := actions[..|actions| - 1], actions[|actions| - 1];
      UriTasksCount(eligible, uri, init, u, a);
      Basics.SplitLast(actions);
      var x := Task(u, a);
      var before := multiset(UriTasks(eligible, uri, init))[x];
      if eligible(uri, last) {
        assert UriTasks(eligible, uri, actions) == UriTasks(eligible, uri, init) + [Task(uri, last)];
        assert multiset(UriTasks(eligible, uri, actions))[x] == before + if x == Task(uri, last) then 1 else 0;
      } else {
        assert UriTasks(eligible, uri, actions) == UriTasks(eligible, uri, init);
      }
      assert multiset(actions)[a] == multiset(init)[a] + if last == a then 1 else 0;
    }
  }

  /** Reordering the action list leaves the multiset of one file's records unchanged. */
  lemma UriTasksReorder(eligible: Eligibility, uri: Uri, p: seq<string>, q: seq<string>)
    requires multiset(p) == multiset(q)
    ensures multiset(UriTasks(eligible, uri, p)) == multiset(UriTasks(eligible, uri, q))
    ensures |UriTasks(eligible, uri, p)| == |UriTasks(eligible, uri, q)|
  {
    UriTasksRecords(eligible, uri, p);
    UriTasksRecords(eligible, uri, q);
    forall x
      ensures multiset(UriTasks(eligible, uri, p))[x] == multiset(UriTasks(eligible, uri, q))[x]
    {
      UriTasksCount(eligible, uri, p, x.uri, x.action);
      UriTasksCount(eligible, uri, q, x.uri, x.action);
    }
    assert multiset(UriTasks(eligible, uri, p)) == multiset(UriTasks(eligible, uri, q));
    assert |multiset(UriTasks(eligible, uri, p))| == |UriTasks(eligible, uri, p)|;
    assert |multiset(UriTasks(eligible, uri, q))| == |UriTasks(eligible, uri, q)|;
  }
}
