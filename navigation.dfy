/**
 * The body of `main` (main.ts, lines 66-90): open the branch dropdown once,
 * read every row into the branch list, then visit the branches in order.
 * Before branch `idx` the dropdown is re-opened when `idx > 1`, row `idx` of a
 * freshly queried list is clicked when `idx > 0`, and then the branch's
 * latest commit is extracted and announced. After the last branch the
 * session is closed.
 *
 * The browser work is recorded as a trace of `Action`s, in the order it is
 * done. One opening of the picker (finding it with `observe`, making a
 * locator for it and clicking it) is one `OpenPicker` or `Reopen`; clicking
 * row `idx` of a freshly queried list (`all()[idx].click()`) is one
 * `Click(idx)`. The initial `goto` (line 66) and the `all()` that lists the
 * rows (line 71) are not recorded. What the browser answers comes in as
 * parameters: the text of each row and, per branch, the outcome of the
 * extraction. A failed extraction throws in the source, so it ends the run
 * on the spot: nothing is announced for that branch and the session is never
 * closed.
 */
module Navigation {
  import opened Branches
  import opened Announcement

  datatype Action =
    | OpenPicker            // find the branch picker and click it to open the dropdown (lines 31-34, 38-39)
    | ReadRow(row: nat)     // read the text of a row of the dropdown (line 72)
    | Reopen                // find the branch picker again and click it (lines 31-34, 80-81)
    | Click(row: nat)       // query the rows again and click row `row` (line 85)
    | Extract               // extract the latest commit from the page (lines 20-28, 47)
    | Announce(message: string, title: string)   // lines 49, 93-101
    | Close                 // close the browser session (line 90)

  /** What the extraction step answers for the page of one branch. */
  datatype Extraction = Extracted(info: CommitInfo) | ExtractionFailed

  datatype Outcome = Done | Failed(at: nat)

  // ---------------------------------------------------------------------------
  // The run, as a specification
  // ---------------------------------------------------------------------------

  /** The dropdown is opened, then each of the `n` rows is read. */
  function Enumeration(n: nat): (t: seq<Action>)
    ensures |t| == n + 1 && t[0] == OpenPicker
    ensures forall k :: 0 <= k < n ==> t[k + 1] == ReadRow(k)
  {
    if n == 0 then [OpenPicker] else Enumeration(n - 1) + [ReadRow(n - 1)]
  }

  /** The browser calls that bring the page to branch `i` before its commit is extracted. */
  function Navigate(i: nat): seq<Action> {
    (if i > 1 then [Reopen] else []) + (if i > 0 then [Click(i)] else [])
  }

  /** The calls made for branch `i`: navigate, extract and, when extraction succeeded, announce. */
  function Step(i: nat, b: Branch, x: Extraction): seq<Action> {
    Navigate(i) + [Extract] +
    match x
    case Extracted(c) => [Announce(Message(c), Title(b))]
    case ExtractionFailed => []
  }

  /** The loop from branch `i` on: each branch's step, until an extraction fails or the list ends with the session closed. */
  function LoopFrom(bs: seq<Branch>, xs: seq<Extraction>, i: nat): seq<Action>
    requires |bs| == |xs| && i <= |bs|
    decreases |bs| - i
  {
    if i == |bs| then [Close]
    else if xs[i].ExtractionFailed? then Step(i, bs[i], xs[i])
    else Step(i, bs[i], xs[i]) + LoopFrom(bs, xs, i + 1)
  }

  /** All browser calls of a run over the branches `bs` whose extractions answer `xs`. */
  function RunTrace(bs: seq<Branch>, xs: seq<Extraction>): seq<Action>
    requires |bs| == |xs|
  {
    Enumeration(|bs|) + LoopFrom(bs, xs, 0)
  }

  /** The index of the first failed extraction, or `|xs|` when all succeed. */
  function FirstFailure(xs: seq<Extraction>): (k: nat)
    ensures k <= |xs|
    ensures forall j :: 0 <= j < k ==> xs[j].Extracted?
    ensures k < |xs| ==> xs[k].ExtractionFailed?
  {
    FirstFailureFrom(xs, 0)
  }

  /** The index of the first failed extraction at or after `i`, or `|xs|`. */
  function FirstFailureFrom(xs: seq<Extraction>, i: nat): (k: nat)
    requires i <= |xs|
    ensures i <= k <= |xs|
    ensures forall j :: i <= j < k ==> xs[j].Extracted?
    ensures k < |xs| ==> xs[k].ExtractionFailed?
    decreases |xs| - i
  {
    if i == |xs| || xs[i].ExtractionFailed? then i else FirstFailureFrom(xs, i + 1)
  }

  /** How many branches the loop starts on: all of them, or those up to and including the one whose extraction failed. */
  function Started(xs: seq<Extraction>): nat {
    if FirstFailure(xs) < |xs| then FirstFailure(xs) + 1 else |xs|
  }

  // ---------------------------------------------------------------------------
  // The run, as the source performs it
  // ---------------------------------------------------------------------------

  /** Lines 68-75: opens the dropdown and turns every row into a branch, in row order. */
  method ListBranches(rows: seq<string>) returns (branches: seq<Branch>, trace: seq<Action>)
    ensures |branches| == |rows|
    ensures forall i :: 0 <= i < |rows| ==> branches[i] == ParseRow(rows[i])
    ensures trace == Enumeration(|rows|)
  {
    trace := [OpenPicker];
    branches := [];
    for i := 0 to |rows|
      invariant |branches| == i
      invariant forall j :: 0 <= j < i ==> branches[j] == ParseRow(rows[j])
      invariant trace == Enumeration(i)
    {
      trace := trace + [ReadRow(i)];
      branches := branches + [ParseRow(rows[i])];
    }
  }

  /**
   * Lines 77-90: visits the branches in order and closes the session at the
   * end; returns the browser calls made and whether the loop got to the end
   * or stopped at a failed extraction.
   */
  method VisitBranches(branches: seq<Branch>, xs: seq<Extraction>) returns (trace: seq<Action>, outcome: Outcome)
    requires |xs| == |branches|
    ensures trace == LoopFrom(branches, xs, 0)
    ensures outcome == if FirstFailure(xs) == |xs| then Done else Failed(FirstFailure(xs))
  {
    trace := [];
    for idx := 0 to |branches|
      invariant trace + LoopFrom(branches, xs, idx) == LoopFrom(branches, xs, 0)
      invariant forall j :: 0 <= j < idx ==> xs[j].Extracted?
    {
      ghost var before := trace;
      if idx > 1 {
        trace := trace + [Reopen];
      }
      if idx > 0 {
        trace := trace + [Click(idx)];
      }
      trace := trace + [Extract];
      assert trace == before + (Navigate(idx) + [Extract]);
      match xs[idx]
      case ExtractionFailed =>
        assert LoopFrom(branches, xs, idx) == Navigate(idx) + [Extract];
        outcome := Failed(idx);
        return;
      case Extracted(c) =>
        var announce := [Announce(Message(c), Title(branches[idx]))];
        assert LoopFrom(branches, xs, idx) == (Navigate(idx) + [Extract] + announce) + LoopFrom(branches, xs, idx + 1);
        trace := trace + announce;
        assert trace + LoopFrom(branches, xs, idx + 1) == before + LoopFrom(branches, xs, idx);
    }
    trace := trace + [Close];
    outcome := Done;
  }

  /** `main`: lists the branches, then visits them; returns the branch list, every browser call made, and how the run ended. */
  method Run(rows: seq<string>, xs: seq<Extraction>) returns (branches: seq<Branch>, trace: seq<Action>, outcome: Outcome)
    requires |xs| == |rows|
    ensures |branches| == |rows|
    ensures forall i :: 0 <= i < |rows| ==> branches[i] == ParseRow(rows[i])
    ensures trace == RunTrace(branches, xs)
    ensures outcome == if FirstFailure(xs) == |xs| then Done else Failed(FirstFailure(xs))
  {
    var listed;
    branches, listed := ListBranches(rows);
    var visited;
    visited, outcome := VisitBranches(branches, xs);
    trace := listed + visited;
  }
}
