/**
 * What the trace of a run promises: one announcement per branch in list
 * order, a click on rows 1, 2, ... in order, a re-open before every branch
 * from the third on, a dropdown that is always open when a row is clicked
 * and closed when the picker is clicked, and a single close at the very end
 * of a run whose extractions all succeed. A failed extraction leaves exactly
 * the branches before it announced and the session open.
 */
module NavigationProperties {
  import opened Branches
  import opened Announcement
  import opened Navigation

  // ---------------------------------------------------------------------------
  // Selecting the calls of one kind
  // ---------------------------------------------------------------------------

  datatype Kind = Announces | Clicks | Reopens | Closes

  predicate Is(a: Action, k: Kind) {
    match k
    case Announces => a.Announce?
    case Clicks => a.Click?
    case Reopens => a.Reopen?
    case Closes => a.Close?
  }

  /** The calls of `t` of kind `k`, in order. */
  function Select(t: seq<Action>, k: Kind): (r: seq<Action>)
    ensures |r| <= |t|
    ensures forall j :: 0 <= j < |r| ==> Is(r[j], k)
  {
    if t == [] then [] else (if Is(t[0], k) then [t[0]] else []) + Select(t[1..], k)
  }

  lemma {:induction false} SelectAppend(a: seq<Action>, b: seq<Action>, k: Kind)
    ensures Select(a + b, k) == Select(a, k) + Select(b, k)
    decreases |a|
  {
    if a == [] {
      assert a + b == b;
    } else {
      assert (a + b)[1..] == a[1..] + b;
      SelectAppend(a[1..], b, k);
    }
  }

  lemma {:induction false} SelectNone(t: seq<Action>, k: Kind)
    requires forall j :: 0 <= j < |t| ==> !Is(t[j], k)
    ensures Select(t, k) == []
    decreases |t|
  {
    if t != [] {
      SelectNone(t[1..], k);
    }
  }

  lemma SelectEnumeration(n: nat, k: Kind)
    ensures Select(Enumeration(n), k) == []
  {
    var t := Enumeration(n);
    assert forall j :: 0 <= j < |t| ==> t[j] == OpenPicker || t[j] == ReadRow(j - 1);
    SelectNone(t, k);
  }

  lemma FirstFailureIs(xs: seq<Extraction>, i: nat)
    requires i < |xs| && i <= FirstFailure(xs) && xs[i].ExtractionFailed?
    ensures FirstFailure(xs) == i
  {
  }

  /** What one branch's step contributes of each kind of call. */
  lemma StepSelect(i: nat, b: Branch, x: Extraction, k: Kind)
    ensures Select(Step(i, b, x), k) ==
      match k
      case Announces => if x.Extracted? then [Announce(Message(x.info), Title(b))] else []
      case Clicks => if i > 0 then [Click(i)] else []
      case Reopens => if i > 1 then [Reopen] else []
      case Closes => []
  {
    var tail: seq<Action> := if x.Extracted? then [Announce(Message(x.info), Title(b))] else [];
    assert Step(i, b, x) == Navigate(i) + [Extract] + tail;
    SelectAppend(Navigate(i) + [Extract], tail, k);
    SelectAppend(Navigate(i), [Extract], k);
    SelectSingle(Extract, k);
    NavigateSelect(i, k);
    if x.Extracted? { SelectSingle(tail[0], k); }
  }

  lemma NavigateSelect(i: nat, k: Kind)
    ensures Select(Navigate(i), k) ==
      match k
      case Clicks => if i > 0 then [Click(i)] else []
      case Reopens => if i > 1 then [Reopen] else []
      case _ => []
  {
    var reopen: seq<Action> := if i > 1 then [Reopen] else [];
    var click: seq<Action> := if i > 0 then [Click(i)] else [];
    SelectAppend(reopen, click, k);
    if i > 1 { SelectSingle(Reopen, k); }
    if i > 0 { SelectSingle(Click(i), k); }
  }

  lemma SelectSingle(a: Action, k: Kind)
    ensures Select([a], k) == if Is(a, k) then [a] else []
  {
    assert [a][1..] == [];
  }

  // ---------------------------------------------------------------------------
  // Announcements
  // ---------------------------------------------------------------------------

  lemma {:induction false} LoopAnnouncements(bs: seq<Branch>, xs: seq<Extraction>, i: nat)
    requires |bs| == |xs| && i <= FirstFailure(xs)
    ensures var a := Select(LoopFrom(bs, xs, i), Announces);
      |a| == FirstFailure(xs) - i &&
      forall j :: 0 <= j < |a| ==> a[j] == Announce(Message(xs[i + j].info), Title(bs[i + j]))
    decreases |bs| - i
  {
    if i < |bs| {
      StepSelect(i, bs[i], xs[i], Announces);
      if xs[i].ExtractionFailed? {
        FirstFailureIs(xs, i);
      } else {
        SelectAppend(Step(i, bs[i], xs[i]), LoopFrom(bs, xs, i + 1), Announces);
        LoopAnnouncements(bs, xs, i + 1);
      }
    }
  }

  /**
   * Every branch before the first failed extraction, and only those, is
   * announced, once each and in list order, with its own title and its own
   * commit. When no extraction fails that is every branch.
   */
  lemma AnnouncementsInOrder(bs: seq<Branch>, xs: seq<Extraction>)
    requires |bs| == |xs|
    ensures var a := Select(RunTrace(bs, xs), Announces);
      |a| == FirstFailure(xs) &&
      forall j :: 0 <= j < |a| ==> a[j] == Announce(Message(xs[j].info), Title(bs[j]))
  {
    SelectAppend(Enumeration(|bs|), LoopFrom(bs, xs, 0), Announces);
    SelectEnumeration(|bs|, Announces);
    LoopAnnouncements(bs, xs, 0);
  }

  // ---------------------------------------------------------------------------
  // Clicks and re-opens
  // ---------------------------------------------------------------------------

  function Max(a: int, b: int): int { if a < b then b else a }

  lemma {:induction false} LoopClicks(bs: seq<Branch>, xs: seq<Extraction>, i: nat)
    requires |bs| == |xs| && i <= FirstFailure(xs)
    ensures var c, lo := Select(LoopFrom(bs, xs, i), Clicks), Max(i, 1);
      |c| == Max(Started(xs) - lo, 0) &&
      forall j :: 0 <= j < |c| ==> c[j] == Click(lo + j)
    decreases |bs| - i
  {
    if i < |bs| {
      var step := Step(i, bs[i], xs[i]);
      StepSelect(i, bs[i], xs[i], Clicks);
      if xs[i].ExtractionFailed? {
        FirstFailureIs(xs, i);
        assert Started(xs) == i + 1;
      } else {
        SelectAppend(step, LoopFrom(bs, xs, i + 1), Clicks);
        LoopClicks(bs, xs, i + 1);
      }
    }
  }

  lemma {:induction false} LoopReopens(bs: seq<Branch>, xs: seq<Extraction>, i: nat)
    requires |bs| == |xs| && i <= FirstFailure(xs)
    ensures |Select(LoopFrom(bs, xs, i), Reopens)| == Max(Started(xs) - Max(i, 2), 0)
    decreases |bs| - i
  {
    if i < |bs| {
      var step := Step(i, bs[i], xs[i]);
      StepSelect(i, bs[i], xs[i], Reopens);
      if xs[i].ExtractionFailed? {
        FirstFailureIs(xs, i);
        assert Started(xs) == i + 1;
      } else {
        SelectAppend(step, LoopFrom(bs, xs, i + 1), Reopens);
        LoopReopens(bs, xs, i + 1);
      }
    }
  }

  /**
   * The rows clicked are 1, 2, ... up to the last branch the loop started on,
   * in that order and once each: never row 0, whose page is already showing,
   * and never a row past the end of the list.
   */
  lemma ClicksInOrder(bs: seq<Branch>, xs: seq<Extraction>)
    requires |bs| == |xs|
    ensures var c := Select(RunTrace(bs, xs), Clicks);
      |c| == Max(Started(xs) - 1, 0) &&
      forall j :: 0 <= j < |c| ==> c[j] == Click(j + 1) && j + 1 < |bs|
  {
    SelectAppend(Enumeration(|bs|), LoopFrom(bs, xs, 0), Clicks);
    SelectEnumeration(|bs|, Clicks);
    LoopClicks(bs, xs, 0);
  }

  /** The dropdown is re-opened once before each branch from the third on, so never when there are at most two branches. */
  lemma ReopenCount(bs: seq<Branch>, xs: seq<Extraction>)
    requires |bs| == |xs|
    ensures |Select(RunTrace(bs, xs), Reopens)| == Max(Started(xs) - 2, 0)
    ensures |bs| <= 2 ==> Select(RunTrace(bs, xs), Reopens) == []
  {
    SelectAppend(Enumeration(|bs|), LoopFrom(bs, xs, 0), Reopens);
    SelectEnumeration(|bs|, Reopens);
    LoopReopens(bs, xs, 0);
  }

  // ---------------------------------------------------------------------------
  // Closing the session
  // ---------------------------------------------------------------------------

  function Last(t: seq<Action>): Action
    requires t != []
  {
    t[|t| - 1]
  }

  lemma {:induction false} LoopClose(bs: seq<Branch>, xs: seq<Extraction>, i: nat)
    requires |bs| == |xs| && i <= FirstFailure(xs)
    ensures Select(LoopFrom(bs, xs, i), Closes) == if FirstFailure(xs) == |xs| then [Close] else []
    decreases |bs| - i
  {
    if i < |bs| {
      var step := Step(i, bs[i], xs[i]);
      StepSelect(i, bs[i], xs[i], Closes);
      if xs[i].ExtractionFailed? {
        FirstFailureIs(xs, i);
      } else {
        SelectAppend(step, LoopFrom(bs, xs, i + 1), Closes);
        LoopClose(bs, xs, i + 1);
      }
    }
  }

  lemma {:induction false} LoopLast(bs: seq<Branch>, xs: seq<Extraction>, i: nat)
    requires |bs| == |xs| && i <= FirstFailure(xs)
    ensures var t := LoopFrom(bs, xs, i);
      t != [] && Last(t) == if FirstFailure(xs) == |xs| then Close else Extract
    decreases |bs| - i
  {
    if i < |bs| {
      var step := Step(i, bs[i], xs[i]);
      if xs[i].ExtractionFailed? {
        FirstFailureIs(xs, i);
        assert step == Navigate(i) + [Extract];
      } else {
        LoopLast(bs, xs, i + 1);
        assert LoopFrom(bs, xs, i) == step + LoopFrom(bs, xs, i + 1);
      }
    }
  }

  /**
   * The session is closed once, as the very last call, exactly when every
   * extraction succeeds. After a failed extraction the last call is that
   * extraction: nothing is announced for its branch and the session is left
   * open.
   */
  lemma CloseOnlyAtEnd(bs: seq<Branch>, xs: seq<Extraction>)
    requires |bs| == |xs|
    ensures var t := RunTrace(bs, xs);
      Select(t, Closes) == (if FirstFailure(xs) == |xs| then [Close] else []) &&
      Last(t) == (if FirstFailure(xs) == |xs| then Close else Extract)
  {
    SelectAppend(Enumeration(|bs|), LoopFrom(bs, xs, 0), Closes);
    SelectEnumeration(|bs|, Closes);
    LoopClose(bs, xs, 0);
    LoopLast(bs, xs, 0);
  }

  // ---------------------------------------------------------------------------
  // The dropdown stays in step with the clicks
  // ---------------------------------------------------------------------------

  /**
   * Whether the dropdown is open after the call `a`, when `open` says whether
   * it was open before: a click on the picker toggles it, a click on a row
   * closes it (the page navigates), and nothing else touches it.
   */
  function DropdownAfter(a: Action, open: bool): bool {
    match a
    case OpenPicker => !open
    case Reopen => !open
    case Click(_) => false
    case _ => open
  }

  /** The picker is only clicked to open a closed dropdown, and a row only while the dropdown is open. */
  predicate Fits(a: Action, open: bool) {
    match a
    case OpenPicker => !open
    case Reopen => !open
    case Click(_) => open
    case _ => true
  }

  function DropdownAfterAll(t: seq<Action>, open: bool): bool
    decreases |t|
  {
    if t == [] then open else DropdownAfterAll(t[1..], DropdownAfter(t[0], open))
  }

  /** Every call of `t`, made from the dropdown state `open` on, fits the state the dropdown is in when it is made. */
  predicate InSync(t: seq<Action>, open: bool)
    decreases |t|
  {
    t == [] || (Fits(t[0], open) && InSync(t[1..], DropdownAfter(t[0], open)))
  }

  lemma {:induction false} InSyncAppend(a: seq<Action>, b: seq<Action>, open: bool)
    ensures InSync(a + b, open) == (InSync(a, open) && InSync(b, DropdownAfterAll(a, open)))
    ensures DropdownAfterAll(a + b, open) == DropdownAfterAll(b, DropdownAfterAll(a, open))
    decreases |a|
  {
    if a == [] {
      assert a + b == b;
    } else {
      assert (a + b)[1..] == a[1..] + b;
      InSyncAppend(a[1..], b, DropdownAfter(a[0], open));
    }
  }

  /** Listing the branches opens the closed dropdown and leaves it open. */
  lemma {:induction false} EnumerationInSync(n: nat)
    ensures InSync(Enumeration(n), false) && DropdownAfterAll(Enumeration(n), false)
  {
    if n > 0 {
      EnumerationInSync(n - 1);
      InSyncAppend(Enumeration(n - 1), [ReadRow(n - 1)], false);
    }
  }

  /** The step of branch `i` starts with the dropdown open exactly when `i <= 1`, fits it throughout, and leaves it open only after branch 0. */
  lemma StepInSync(i: nat, b: Branch, x: Extraction)
    ensures InSync(Step(i, b, x), i <= 1)
    ensures DropdownAfterAll(Step(i, b, x), i <= 1) == (i == 0)
  {
    var tail: seq<Action> := if x.Extracted? then [Announce(Message(x.info), Title(b))] else [];
    var nav := Navigate(i);
    assert Step(i, b, x) == nav + ([Extract] + tail);
    InSyncAppend(nav, [Extract] + tail, i <= 1);
    InSyncAppend([Extract], tail, i == 0);
    assert DropdownAfterAll([Extract], i == 0) == (i == 0);
    assert InSync(tail, i == 0) && DropdownAfterAll(tail, i == 0) == (i == 0) by {
      if tail != [] {
        assert tail[1..] == [];
      }
    }
    if i > 1 {
      assert nav == [Reopen] + [Click(i)];
      InSyncAppend([Reopen], [Click(i)], false);
    }
  }

  lemma {:induction false} LoopInSync(bs: seq<Branch>, xs: seq<Extraction>, i: nat)
    requires |bs| == |xs| && i <= |bs|
    ensures InSync(LoopFrom(bs, xs, i), i <= 1)
    decreases |bs| - i
  {
    if i < |bs| {
      StepInSync(i, bs[i], xs[i]);
      if xs[i].Extracted? {
        InSyncAppend(Step(i, bs[i], xs[i]), LoopFrom(bs, xs, i + 1), i <= 1);
        LoopInSync(bs, xs, i + 1);
      }
    }
  }

  /**
   * Re-opening exactly before the branches from index 2 on keeps the
   * dropdown in step with the clicks: every row is clicked while the
   * dropdown is open, and the picker is only clicked while it is closed.
   */
  lemma DropdownInSync(bs: seq<Branch>, xs: seq<Extraction>)
    requires |bs| == |xs|
    ensures InSync(RunTrace(bs, xs), false)
  {
    EnumerationInSync(|bs|);
    LoopInSync(bs, xs, 0);
    InSyncAppend(Enumeration(|bs|), LoopFrom(bs, xs, 0), false);
  }

  /**
   * Neither condition can be loosened: re-opening before branch 1 would close
   * the dropdown that listing the branches left open, and clicking row 2
   * without re-opening would click into a closed dropdown.
   */
  lemma PolicyIsNeeded(n: nat, b0: Branch, b1: Branch, c0: CommitInfo, c1: CommitInfo)
    ensures var a0 := Announce(Message(c0), Title(b0));
      !InSync(Enumeration(n) + [Extract, a0, Reopen], false)
    ensures var a0, a1 := Announce(Message(c0), Title(b0)), Announce(Message(c1), Title(b1));
      !InSync(Enumeration(n) + [Extract, a0, Click(1), Extract, a1, Click(2)], false)
  {
    var a0, a1 := Announce(Message(c0), Title(b0)), Announce(Message(c1), Title(b1));
    EnumerationInSync(n);
    // branch 1 re-opens: the dropdown left open by the listing is clicked shut
    var early := [Extract, a0, Reopen];
    assert !InSync(early[2..], true);
    assert !InSync(early[1..], true) by { assert early[1..][1..] == early[2..]; }
    assert !InSync(early, true) by { assert early[1..] == [a0, Reopen]; }
    InSyncAppend(Enumeration(n), early, false);
    // branch 2 does not re-open: row 2 is clicked in a closed dropdown
    var late := [Extract, a0, Click(1), Extract, a1, Click(2)];
    assert !InSync(late[5..], false);
    assert !InSync(late[4..], false) by { assert late[4..][1..] == late[5..]; }
    assert !InSync(late[3..], false) by { assert late[3..][1..] == late[4..]; }
    assert !InSync(late[2..], true) by { assert late[2..][1..] == late[3..]; }
    assert !InSync(late[1..], true) by { assert late[1..][1..] == late[2..]; }
    assert !InSync(late, true);
    InSyncAppend(Enumeration(n), late, false);
  }

  // ---------------------------------------------------------------------------
  // Each branch's step, in index order
  // ---------------------------------------------------------------------------

  /** Where the step of branch `i` starts in the trace: after the listing and the steps of the branches before it. */
  function Offset(bs: seq<Branch>, xs: seq<Extraction>, i: nat): nat
    requires |bs| == |xs| && i <= |bs|
  {
    if i == 0 then |bs| + 1 else Offset(bs, xs, i - 1) + |Step(i - 1, bs[i - 1], xs[i - 1])|
  }

  lemma {:induction false} TraceFrom(bs: seq<Branch>, xs: seq<Extraction>, i: nat)
    requires |bs| == |xs| && i <= FirstFailure(xs)
    ensures Offset(bs, xs, i) <= |RunTrace(bs, xs)|
    ensures RunTrace(bs, xs)[Offset(bs, xs, i)..] == LoopFrom(bs, xs, i)
  {
    var t := RunTrace(bs, xs);
    if i == 0 {
      assert t[|bs| + 1..] == LoopFrom(bs, xs, 0);
    } else {
      TraceFrom(bs, xs, i - 1);
      var step := Step(i - 1, bs[i - 1], xs[i - 1]);
      assert LoopFrom(bs, xs, i - 1) == step + LoopFrom(bs, xs, i);
      DropPrefix(t, Offset(bs, xs, i - 1), step, LoopFrom(bs, xs, i));
    }
  }

  /** When `a + b` is the suffix of `t` from `o` on, `b` is its suffix from `o + |a|` on. */
  lemma DropPrefix(t: seq<Action>, o: nat, a: seq<Action>, b: seq<Action>)
    requires o <= |t| && t[o..] == a + b
    ensures o + |a| <= |t| && t[o + |a|..] == b
  {
    assert t[o + |a|..] == t[o..][|a|..];
  }

  /**
   * The trace holds the step of every branch the loop starts on, one after
   * the other in index order: for branch `i`, any re-open, then any click on
   * row `i`, then the extraction and, when it succeeds, the announcement of
   * branch `i`.
   */
  lemma StepsInIndexOrder(bs: seq<Branch>, xs: seq<Extraction>, i: nat)
    requires |bs| == |xs| && i < Started(xs)
    ensures var o, step := Offset(bs, xs, i), Step(i, bs[i], xs[i]);
      o + |step| <= |RunTrace(bs, xs)| && RunTrace(bs, xs)[o..o + |step|] == step
  {
    TraceFrom(bs, xs, i);
    var t, o, step := RunTrace(bs, xs), Offset(bs, xs, i), Step(i, bs[i], xs[i]);
    if xs[i].Extracted? {
      assert LoopFrom(bs, xs, i) == step + LoopFrom(bs, xs, i + 1);
    }
    assert t[o..][..|step|] == step;
  }

  // ---------------------------------------------------------------------------
  // Whole runs
  // ---------------------------------------------------------------------------

  /** Three branches, all extracted: no navigation before branch 0, a click before branch 1, a re-open and a click before branch 2. */
  lemma ThreeBranches(b0: Branch, b1: Branch, b2: Branch, c0: CommitInfo, c1: CommitInfo, c2: CommitInfo)
    ensures RunTrace([b0, b1, b2], [Extracted(c0), Extracted(c1), Extracted(c2)]) ==
      [OpenPicker, ReadRow(0), ReadRow(1), ReadRow(2),
       Extract, Announce(Message(c0), Title(b0)),
       Click(1), Extract, Announce(Message(c1), Title(b1)),
       Reopen, Click(2), Extract, Announce(Message(c2), Title(b2)),
       Close]
  {
    var bs, xs := [b0, b1, b2], [Extracted(c0), Extracted(c1), Extracted(c2)];
    assert LoopFrom(bs, xs, 3) == [Close];
    assert LoopFrom(bs, xs, 2) == [Reopen, Click(2), Extract, Announce(Message(c2), Title(b2)), Close];
    assert LoopFrom(bs, xs, 1) == [Click(1), Extract, Announce(Message(c1), Title(b1))] + LoopFrom(bs, xs, 2);
    assert Enumeration(3) == [OpenPicker, ReadRow(0), ReadRow(1), ReadRow(2)];
  }

  /** A single branch: one extraction and one announcement, and no navigation at all. */
  lemma OneBranch(b: Branch, c: CommitInfo)
    ensures RunTrace([b], [Extracted(c)]) ==
      [OpenPicker, ReadRow(0), Extract, Announce(Message(c), Title(b)), Close]
  {
    assert LoopFrom([b], [Extracted(c)], 1) == [Close];
    assert Enumeration(1) == [OpenPicker, ReadRow(0)];
  }

  /** The extraction for the third of three branches fails: two announcements, and the run stops without closing the session. */
  lemma ThirdExtractionFails(b0: Branch, b1: Branch, b2: Branch, c0: CommitInfo, c1: CommitInfo)
    ensures RunTrace([b0, b1, b2], [Extracted(c0), Extracted(c1), ExtractionFailed]) ==
      [OpenPicker, ReadRow(0), ReadRow(1), ReadRow(2),
       Extract, Announce(Message(c0), Title(b0)),
       Click(1), Extract, Announce(Message(c1), Title(b1)),
       Reopen, Click(2), Extract]
  {
    var bs, xs := [b0, b1, b2], [Extracted(c0), Extracted(c1), ExtractionFailed];
    assert LoopFrom(bs, xs, 2) == [Reopen, Click(2), Extract];
    assert LoopFrom(bs, xs, 1) == [Click(1), Extract, Announce(Message(c1), Title(b1))] + LoopFrom(bs, xs, 2);
    assert Enumeration(3) == [OpenPicker, ReadRow(0), ReadRow(1), ReadRow(2)];
  }
}
