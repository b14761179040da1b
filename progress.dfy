/**
 * The client's progress panel: how the polled record's stored stage name
 * is shown against the four displayed stages, and when the completion
 * callback fires.
 */
module Progress {
  import opened Wrappers
  import opened Schema

  /** The order the panel ranks stage names by. */
  const StageOrder: seq<string> := ["upload", "ocr", "detection", "redaction", "complete"]

  /** The four stages the panel draws, in order. */
  const DisplayedStages: seq<string> := ["upload", "ocr", "detection", "redaction"]

  /** `Array.prototype.indexOf`: the first position of x, or -1. */
  function IndexOf(xs: seq<string>, x: string): (r: int)
    ensures -1 <= r < |xs|
    ensures r == -1 <==> x !in xs
    ensures r >= 0 ==> xs[r] == x && x !in xs[..r]
  {
    if xs == [] then -1
    else if xs[0] == x then 0
    else
      var rest := IndexOf(xs[1..], x);
      assert xs[1..][..if rest < 0 then 0 else rest] == xs[1..1 + if rest < 0 then 0 else rest];
      if rest == -1 then -1 else rest + 1
  }

  datatype StageState = Pending | Processing | Done

  /** What getStageStatus returns: a state and a progress figure. */
  datatype StageDisplay = StageDisplay(status: StageState, progress: int)

  /** getStageStatus for the polled record (None before the first answer) and one stage id. */
  function GetStageStatus(current: Option<Document>, stage: string): (r: StageDisplay)
    ensures r.progress == (match r.status case Pending => 0 case Processing => 75 case Done => 100)
    ensures current.None? ==> r.status == Pending
  {
    if current.None? then StageDisplay(Pending, 0)
    else
      var currentIndex := IndexOf(StageOrder, current.value.processingStatus);
      var targetIndex := IndexOf(StageOrder, stage);
      if currentIndex > targetIndex then StageDisplay(Done, 100)
      else if currentIndex == targetIndex then StageDisplay(Processing, 75)
      else StageDisplay(Pending, 0)
  }

  /** The callback fires exactly when the polled record's stage is `complete`. */
  predicate ShouldFireOnComplete(current: Option<Document>)
    ensures ShouldFireOnComplete(current) ==> current.Some? && StatusLabel(current) == "Processing complete"
  {
    current.Some? && current.value.processingStatus == "complete"
  }

  /** The header line above the stages. */
  function StatusLabel(current: Option<Document>): (r: string)
    ensures r == "Processing failed" <==> current.Some? && current.value.processingStatus == "error"
    ensures r == "Processing complete" <==> current.Some? && current.value.processingStatus == "complete"
    ensures r in {"Processing failed", "Processing complete", "Analyzing content..."}
  {
    if current.Some? && current.value.processingStatus == "error" then "Processing failed"
    else if current.Some? && current.value.processingStatus == "complete" then "Processing complete"
    else "Analyzing content..."
  }

  /** Each stage name sits at its place in the order. */
  lemma StageOrderPositions()
    ensures IndexOf(StageOrder, "upload") == 0 && IndexOf(StageOrder, "ocr") == 1
    ensures IndexOf(StageOrder, "detection") == 2 && IndexOf(StageOrder, "redaction") == 3
    ensures IndexOf(StageOrder, "complete") == 4
  {
    OrderTail();
  }

  /** A name that is none of the five is at -1. */
  lemma OutsideOrder(status: string)
    requires status !in {"upload", "ocr", "detection", "redaction", "complete"}
    ensures IndexOf(StageOrder, status) == -1
  {
    OrderTail();
  }

  lemma OrderTail()
    ensures StageOrder[0] == "upload" && StageOrder[1..][0] == "ocr"
    ensures StageOrder[1..][1..][0] == "detection" && StageOrder[1..][1..][1..][0] == "redaction"
    ensures StageOrder[1..][1..][1..][1..] == ["complete"]
  {
  }

  /** The position the panel gives a stored stage name: its place in the order, or -1. */
  lemma StatusPosition(status: string)
    ensures IndexOf(StageOrder, status) == (
      if status == "upload" then 0 else if status == "ocr" then 1 else if status == "detection" then 2
      else if status == "redaction" then 3 else if status == "complete" then 4 else -1)
  {
    if status in {"upload", "ocr", "detection", "redaction", "complete"} {
      StageOrderPositions();
    } else {
      OutsideOrder(status);
    }
  }

  /**
   * The display rule, per displayed stage k: stages before the stored one
   * are done at 100, the stored one is processing at 75, later ones are
   * pending at 0; with no record everything is pending at 0.
   */
  lemma DisplayRule(current: Option<Document>, k: nat)
    requires k < |DisplayedStages|
    ensures current.None? ==> GetStageStatus(current, DisplayedStages[k]) == StageDisplay(Pending, 0)
    ensures current.Some? ==>
      var i := IndexOf(StageOrder, current.value.processingStatus);
      GetStageStatus(current, DisplayedStages[k]) ==
        if i > k then StageDisplay(Done, 100)
        else if i == k then StageDisplay(Processing, 75)
        else StageDisplay(Pending, 0)
  {
    StageOrderPositions();
    assert DisplayedStages[k] == StageOrder[k];
  }

  /** A stored `pending` or `error` lies outside the order, so all four stages, upload included, show pending. */
  lemma OutsideOrderAllPending(d: Document, k: nat)
    requires d.processingStatus == DefaultStatus || d.processingStatus == StageName(Error)
    requires k < |DisplayedStages|
    ensures GetStageStatus(Some(d), DisplayedStages[k]) == StageDisplay(Pending, 0)
  {
    StatusPosition(d.processingStatus);
    DisplayRule(Some(d), k);
  }

  /** For a stored `complete`, all four displayed stages are done. */
  lemma CompleteAllDone(d: Document, k: nat)
    requires d.processingStatus == "complete" && k < |DisplayedStages|
    ensures GetStageStatus(Some(d), DisplayedStages[k]) == StageDisplay(Done, 100)
  {
    StatusPosition(d.processingStatus);
    DisplayRule(Some(d), k);
  }

  /**
   * At most one displayed stage is processing: the one the stored stage
   * names, and only when it is one of the four.
   */
  lemma AtMostOneProcessing(current: Option<Document>, j: nat, k: nat)
    requires j < |DisplayedStages| && k < |DisplayedStages|
    requires GetStageStatus(current, DisplayedStages[j]).status == Processing
    requires GetStageStatus(current, DisplayedStages[k]).status == Processing
    ensures j == k
    ensures current.Some? && current.value.processingStatus == DisplayedStages[k]
  {
    DisplayRule(current, j);
    DisplayRule(current, k);
    var i := IndexOf(StageOrder, current.value.processingStatus);
    assert StageOrder[i] == current.value.processingStatus;
  }

  /** The rank the panel shows a stage at: pending, processing, done. */
  function Rank(s: StageState): nat
  {
    match s
    case Pending => 0
    case Processing => 1
    case Done => 2
  }

  /**
   * As the stored stage moves forward through the order (or first appears),
   * no displayed stage moves backwards.
   */
  lemma ForwardNeverRegresses(before: Option<Document>, after: Document, k: nat)
    requires k < |DisplayedStages|
    requires before.Some? ==>
      IndexOf(StageOrder, before.value.processingStatus) <= IndexOf(StageOrder, after.processingStatus)
    ensures Rank(GetStageStatus(before, DisplayedStages[k]).status) <= Rank(GetStageStatus(Some(after), DisplayedStages[k]).status)
    ensures GetStageStatus(before, DisplayedStages[k]).progress <= GetStageStatus(Some(after), DisplayedStages[k]).progress
  {
    DisplayRule(before, k);
    DisplayRule(Some(after), k);
  }

  /** The callback fires exactly when the header reads "Processing complete". */
  lemma FiresWhenComplete(current: Option<Document>)
    ensures ShouldFireOnComplete(current) <==> StatusLabel(current) == "Processing complete"
  {
  }
}
