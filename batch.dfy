/**
 * The batch loop of the node's `execute`: items are processed one at a
 * time, in order. Under continue-on-fail a failing item leaves a failure
 * record at its own position; otherwise the first failure ends the run
 * with that item's index and no collection is returned.
 */
module KrokiBatch {
  import opened Wrappers
  import opened Kroki

  /** The processing of one item (its parameters and index) to its record or its error message. */
  type ItemStep = (ItemParameters, nat) -> Result<OutputItem, string>

  /** The node's own per-item pipeline, calling the server through `transport`. */
  function Pipeline(transport: Request -> Transport): ItemStep
  {
    (p: ItemParameters, i: nat) => ProcessItem(p, i, transport)
  }

  /** A step whose success records are tagged with their own item index and flagged successful. */
  ghost predicate TagsItems(step: ItemStep)
  {
    forall p, i :: step(p, i).Ok? ==> step(p, i).value.pairedItem == i && step(p, i).value.json.success()
  }

  lemma PipelineTagsItems(transport: Request -> Transport)
    ensures TagsItems(Pipeline(transport))
  {
  }

  /** What `execute` ends with: the collected records, or the error it re-throws, tagged with `itemIndex`. */
  datatype BatchOutcome = Completed(records: seq<OutputItem>) | Aborted(itemIndex: nat, message: string)

  /** The record continue-on-fail mode stores for item `i`: its success record, or a failure record with its message. */
  function ItemRecord(p: ItemParameters, i: nat, step: ItemStep): (o: OutputItem)
    requires TagsItems(step)
    ensures o.pairedItem == i
    ensures o.json.success() <==> step(p, i).Ok?
    ensures step(p, i).Ok? ==> o == step(p, i).value
    ensures step(p, i).Err? ==> o == FailureItem(step(p, i).error, i)
  {
    match step(p, i)
    case Ok(o) => o
    case Err(m) => FailureItem(m, i)
  }

  /** The state of the loop after the first `n` items. */
  function Run(items: seq<ItemParameters>, n: nat, continueOnFail: bool, step: ItemStep): BatchOutcome
    requires n <= |items|
  {
    if n == 0 then Completed([])
    else
      match Run(items, n - 1, continueOnFail, step)
      case Aborted(k, m) => Aborted(k, m)
      case Completed(records) =>
        match step(items[n - 1], n - 1)
        case Ok(o) => Completed(records + [o])
        case Err(m) =>
          if continueOnFail then Completed(records + [FailureItem(m, n - 1)])
          else Aborted(n - 1, m)
  }

  /** Once the loop has aborted, later items change nothing. */
  lemma {:induction false} AbortIsFinal(items: seq<ItemParameters>, n: nat, n': nat, continueOnFail: bool, step: ItemStep)
    requires n <= n' <= |items| && Run(items, n, continueOnFail, step).Aborted?
    ensures Run(items, n', continueOnFail, step) == Run(items, n, continueOnFail, step)
    decreases n' - n
  {
    if n < n' {
      AbortIsFinal(items, n, n' - 1, continueOnFail, step);
    }
  }

  /**
   * The loop of `execute`: `returnData` grows by one record per item, and a
   * failure without continue-on-fail leaves the loop at once.
   */
  method Execute(items: seq<ItemParameters>, continueOnFail: bool, step: ItemStep)
    returns (outcome: BatchOutcome)
    ensures outcome == Run(items, |items|, continueOnFail, step)
  {
    var returnData: seq<OutputItem> := [];
    for itemIndex := 0 to |items|
      invariant Run(items, itemIndex, continueOnFail, step) == Completed(returnData)
    {
      match step(items[itemIndex], itemIndex)
      case Ok(o) =>
        returnData := returnData + [o];
      case Err(m) =>
        if continueOnFail {
          returnData := returnData + [FailureItem(m, itemIndex)];
        } else {
          outcome := Aborted(itemIndex, m);
          AbortIsFinal(items, itemIndex + 1, |items|, continueOnFail, step);
          return;
        }
    }
    outcome := Completed(returnData);
  }

  /** A completed run holds one record per item, in input order, record i being item i's own record with `pairedItem == i`. */
  lemma {:induction false} CompletedRecords(items: seq<ItemParameters>, n: nat, continueOnFail: bool, step: ItemStep)
    requires n <= |items| && Run(items, n, continueOnFail, step).Completed?
    requires TagsItems(step)
    ensures var records := Run(items, n, continueOnFail, step).records;
      && |records| == n
      && forall i :: 0 <= i < n ==> records[i] == ItemRecord(items[i], i, step) && records[i].pairedItem == i
  {
    if n > 0 {
      CompletedRecords(items, n - 1, continueOnFail, step);
    }
  }

  /** Under continue-on-fail the run never aborts. */
  lemma {:induction false} ContinueOnFailCompletes(items: seq<ItemParameters>, n: nat, step: ItemStep)
    requires n <= |items|
    ensures Run(items, n, true, step).Completed?
  {
    if n > 0 {
      ContinueOnFailCompletes(items, n - 1, step);
    }
  }

  /** Without continue-on-fail, a run that completes has met no failure: every item succeeded. */
  lemma {:induction false} FailFastCompletedAllSucceed(items: seq<ItemParameters>, n: nat, step: ItemStep)
    requires n <= |items| && Run(items, n, false, step).Completed?
    requires TagsItems(step)
    ensures forall j :: 0 <= j < n ==> step(items[j], j).Ok?
    ensures |Run(items, n, false, step).records| == n
    ensures forall j :: 0 <= j < n ==> Run(items, n, false, step).records[j].json.success()
  {
    if n > 0 {
      FailFastCompletedAllSucceed(items, n - 1, step);
      CompletedRecords(items, n, false, step);
    }
  }

  /**
   * The run aborts at item k with message m exactly when continue-on-fail is
   * off, item k fails with m, and every earlier item succeeds.
   */
  lemma {:induction false} AbortedIff(items: seq<ItemParameters>, n: nat, continueOnFail: bool, step: ItemStep, k: nat, m: string)
    requires n <= |items| && TagsItems(step)
    ensures Run(items, n, continueOnFail, step) == Aborted(k, m) <==>
      && !continueOnFail
      && k < n
      && step(items[k], k) == Err(m)
      && forall j :: 0 <= j < k ==> step(items[j], j).Ok?
  {
    if n > 0 {
      var previous := Run(items, n - 1, continueOnFail, step);
      AbortedIff(items, n - 1, continueOnFail, step, k, m);
      if previous.Aborted? {
        AbortedIff(items, n - 1, continueOnFail, step, previous.itemIndex, previous.message);
      } else if !continueOnFail {
        FailFastCompletedAllSucceed(items, n - 1, step);
      }
    }
  }

  /** Items after the one that aborts the run are never processed: changing them changes nothing. */
  lemma AbortIgnoresLaterItems(items: seq<ItemParameters>, items': seq<ItemParameters>, continueOnFail: bool,
                               step: ItemStep, k: nat, m: string)
    requires Run(items, |items|, continueOnFail, step) == Aborted(k, m)
    requires k < |items| && k < |items'| && items'[..k + 1] == items[..k + 1] && TagsItems(step)
    ensures Run(items', |items'|, continueOnFail, step) == Aborted(k, m)
  {
    AbortedIff(items, |items|, continueOnFail, step, k, m);
    AbortedIff(items', |items'|, continueOnFail, step, k, m);
    assert forall j :: 0 <= j <= k ==> items'[j] == items'[..k + 1][j];
  }

  /**
   * A batch in which exactly item k fails (a blank diagram source, say; see
   * Kroki.BlankSourceFails), run under continue-on-fail: one record per item,
   * only record k failed, and it carries item k's message.
   */
  lemma OneFailingItemContinues(items: seq<ItemParameters>, step: ItemStep, k: nat)
    requires TagsItems(step) && k < |items| && step(items[k], k).Err?
    requires forall j :: 0 <= j < |items| && j != k ==> step(items[j], j).Ok?
    ensures var run := Run(items, |items|, true, step);
      && run.Completed?
      && |run.records| == |items|
      && run.records[k] == FailureItem(step(items[k], k).error, k)
      && forall j :: 0 <= j < |items| && j != k ==> run.records[j].json.success()
  {
    ContinueOnFailCompletes(items, |items|, step);
    CompletedRecords(items, |items|, true, step);
  }

  /** The same batch without continue-on-fail aborts at item k with its message. */
  lemma OneFailingItemAborts(items: seq<ItemParameters>, step: ItemStep, k: nat)
    requires TagsItems(step) && k < |items| && step(items[k], k).Err?
    requires forall j :: 0 <= j < |items| && j != k ==> step(items[j], j).Ok?
    ensures Run(items, |items|, false, step) == Aborted(k, step(items[k], k).error)
  {
    AbortedIff(items, |items|, false, step, k, step(items[k], k).error);
  }
}
