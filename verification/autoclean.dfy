/**
 * auto_clean (kcleaner.c): keep the newest kernel (index 0 of the sorted
 * table) and the first running one, offer every other kernel for removal,
 * and on an affirmative reply remove them through delete_kernel and refresh
 * the boot loader.
 */
module AutoClean {
  import opened Kernels
  import opened Console
  import opened Execution
  import opened Discovery

  /** auto_clean refuses to act on a table of this many kernels or fewer. */
  const KeepAtLeast: nat := 2

  /**
   * The auto-clean rule. With at most two kernels nothing is marked;
   * otherwise a kernel is marked exactly when it is not the newest and not
   * the first running kernel of the table.
   */
  function CleanMask(ks: seq<KernelRecord>): (m: seq<bool>)
    ensures |m| == |ks|
    ensures |ks| <= KeepAtLeast ==> forall i :: 0 <= i < |ks| ==> !m[i]
    ensures |ks| > KeepAtLeast ==> !m[0]
    ensures |ks| > KeepAtLeast ==>
              forall i :: 0 <= i < |ks| ==>
                (m[i] <==> i != 0 && (!ks[i].running || exists j :: 0 <= j < i && ks[j].running))
  {
    var r := FirstRunning(ks);
    seq(|ks|, i requires 0 <= i < |ks| => |ks| > KeepAtLeast && i != 0 && i != r)
  }

  /**
   * The two marking loops of auto_clean: the first finds `running_index`
   * (stopping at the first running kernel), the second marks every other
   * index except 0 and counts them.
   */
  method MarkForClean(ks: seq<KernelRecord>) returns (mask: seq<bool>, deleteCount: nat)
    requires |ks| > KeepAtLeast
    ensures mask == CleanMask(ks)
    ensures deleteCount == CountMarked(mask)
  {
    var runningIndex := -1;
    var i := 0;
    while i < |ks|
      invariant 0 <= i <= |ks|
      invariant runningIndex == -1 ==> forall j :: 0 <= j < i ==> !ks[j].running
      invariant runningIndex != -1 ==> runningIndex == FirstRunning(ks)
    {
      if ks[i].running {
        runningIndex := i;
        break;
      }
      i := i + 1;
    }
    assert runningIndex == FirstRunning(ks);
    mask := Unmarked(|ks|);
    deleteCount := 0;
    CountMarkedBounds(mask);
    i := 0;
    while i < |ks|
      invariant 0 <= i <= |ks|
      invariant |mask| == |ks|
      invariant forall j :: 0 <= j < |ks| ==> (mask[j] <==> j < i && j != 0 && j != runningIndex)
      invariant deleteCount == CountMarked(mask)
    {
      if i != 0 && i != runningIndex {
        CountMarkedSet(mask, i);
        mask := mask[i := true];
        deleteCount := deleteCount + 1;
      }
      i := i + 1;
    }
    assert mask == CleanMask(ks);
  }

  /**
   * How much auto-clean offers to remove: all kernels but the newest when no
   * kernel or the newest one is running, all but two otherwise. In every case
   * at least one, so auto_clean's "no kernels to clean" branch cannot be taken.
   */
  lemma CleanCount(ks: seq<KernelRecord>)
    requires |ks| > KeepAtLeast
    ensures FirstRunning(ks) <= 0 ==> CountMarked(CleanMask(ks)) == |ks| - 1
    ensures FirstRunning(ks) > 0 ==> CountMarked(CleanMask(ks)) == |ks| - 2
    ensures CountMarked(CleanMask(ks)) >= |ks| - KeepAtLeast >= 1
  {
    var m := CleanMask(ks);
    var r := FirstRunning(ks);
    var keep: set<nat> := if r <= 0 then {0} else {0, r};
    CountMarkedAllBut(m, keep);
    assert (set i: nat | i < |m| && i in keep) == keep;
  }

  /**
   * When at most one kernel is running, which is the case for a discovered
   * table, auto-clean never marks a running kernel.
   */
  lemma CleanSparesRunning(ks: seq<KernelRecord>)
    requires forall i, j :: 0 <= i < |ks| && 0 <= j < |ks| && ks[i].running && ks[j].running ==> i == j
    ensures forall i :: 0 <= i < |ks| && CleanMask(ks)[i] ==> !ks[i].running
  {
  }

  /**
   * Auto-clean over the table find_kernels builds from distinct directory
   * entries never marks the running kernel.
   */
  lemma CleanSparesDiscoveredRunning(names: seq<string>, running: string, ks: seq<KernelRecord>)
    requires forall i, j :: 0 <= i < j < |names| ==> names[i] != names[j]
    requires |ks| <= |Images(names, running)|
    requires multiset(ks) == multiset(Images(names, running)[..|ks|])
    ensures forall i :: 0 <= i < |ks| && CleanMask(ks)[i] ==> !ks[i].running
  {
    DiscoveredRunningIsUnique(names, running, ks);
    CleanSparesRunning(ks);
  }

  // ---------------------------------------------------------------------------
  // The "Keeping:" announcement
  // ---------------------------------------------------------------------------

  /**
   * The indices auto_clean prints under "Keeping:" as the code is written:
   * index 0, then `running_index` whenever it is not 0, which includes the
   * value -1 left when no kernel is running.
   */
  function KeptAsWritten(ks: seq<KernelRecord>): (r: seq<int>)
    ensures |r| > 0 && r[0] == 0
  {
    [0] + (if FirstRunning(ks) != 0 then [FirstRunning(ks)] else [])
  }

  /**
   * With no kernel running, the announcement reads the record at index -1,
   * outside the kernel table.
   */
  lemma KeptAsWrittenReadsOutside(ks: seq<KernelRecord>)
    requires |ks| > KeepAtLeast
    requires forall i :: 0 <= i < |ks| ==> !ks[i].running
    ensures exists p :: 0 <= p < |KeptAsWritten(ks)| && !(0 <= KeptAsWritten(ks)[p] < |ks|)
  {
    assert KeptAsWritten(ks)[1] == -1;
  }

  /** The announcement as intended: index 0, and the first running index when there is one other than 0. */
  function Kept(ks: seq<KernelRecord>): seq<nat>
  {
    var r := FirstRunning(ks);
    [0] + (if r > 0 then [r] else [])
  }

  /**
   * The corrected announcement names valid indices only, and exactly the
   * indices auto-clean leaves unmarked.
   */
  lemma KeptIsUnmarked(ks: seq<KernelRecord>)
    requires |ks| > KeepAtLeast
    ensures forall p :: 0 <= p < |Kept(ks)| ==> Kept(ks)[p] < |ks|
    ensures forall i :: 0 <= i < |ks| ==> (i in Kept(ks) <==> !CleanMask(ks)[i])
  {
  }

  /** The "Keeping:" lines. */
  function Announce(ks: seq<KernelRecord>): (es: seq<Event>)
    requires |ks| > KeepAtLeast
    ensures |es| == |Kept(ks)|
    ensures forall p :: 0 <= p < |Kept(ks)| ==> es[p] == Keep(Kept(ks)[p])
    ensures forall i: nat :: Keep(i) in es <==> i < |ks| && !CleanMask(ks)[i]
    ensures Heading(es)
  {
    var kept := Kept(ks);
    KeptIsUnmarked(ks);
    var es := seq(|kept|, p requires 0 <= p < |kept| => Keep(kept[p]));
    assert forall i: nat :: Keep(i) in es ==> i in kept;
    assert forall i: nat :: i in kept ==> Keep(i) in es by {
      forall i: nat | i in kept
        ensures Keep(i) in es
      {
        var p :| 0 <= p < |kept| && kept[p] == i;
        assert es[p] == Keep(i);
      }
    }
    es
  }

  /**
   * What auto_clean does once the table is large enough: the two marking
   * loops, the announcement, the batch question, and on an affirmative reply
   * the removal loop over the marked kernels followed by one boot-loader
   * refresh. `mask` is the `to_delete` array the loops fill.
   */
  method ConfirmClean(ks: seq<KernelRecord>, input: string) returns (mask: seq<bool>, approved: bool, trace: seq<Event>)
    requires |ks| > KeepAtLeast
    ensures mask == CleanMask(ks)
    ensures approved == Confirm(input).approved
    ensures |trace| > |Kept(ks)|
    ensures forall p :: 0 <= p < |Kept(ks)| ==> trace[p] == Keep(Kept(ks)[p])
    ensures Opens(trace, |Kept(ks)|, approved)
    ensures forall i: nat :: Keep(i) in trace <==> i < |ks| && !CleanMask(ks)[i]
    ensures forall j: nat :: Remove(j) in trace ==> approved && j < |ks| && mask[j]
    ensures approved ==> forall j :: 0 <= j < |ks| && mask[j] && !ks[j].running ==> Remove(j) in trace
    ensures RunningGuarded(ks, mask, trace)
    ensures approved ==> RunningAsked(ks, mask, trace)
    ensures Answers(trace) == Dialogue(input, Replies(ks, mask, approved)).0
    ensures Ascending(trace)
    ensures LoopOrder(trace)
    ensures AskedFirst(ks, trace)
    ensures UpdateGrub in trace <==> approved
    ensures forall p :: 0 <= p < |trace| && trace[p] == UpdateGrub ==> p == |trace| - 1
  {
    var deleteCount;
    mask, deleteCount := MarkForClean(ks);
    var head := Announce(ks);
    approved := Confirm(input).approved;
    trace := Decide(ks, mask, head, input);
    DecideLayout(ks, mask, head, input);
    DecideRemovals(ks, mask, head, input);
    DecideAnswers(ks, mask, head, input);
    DecideOrder(ks, mask, head, input);
  }

  /**
   * auto_clean with the operator's privilege and input as parameters: the
   * privilege check, then the size check, then the confirmed clean-up. The
   * source's "no kernels to clean" stop is absent because CleanCount shows
   * a large enough table always has a kernel to offer.
   */
  method Clean(ks: seq<KernelRecord>, privileged: bool, input: string)
    returns (outcome: Outcome, trace: seq<Event>)
    ensures outcome == NotPrivileged <==> !privileged
    ensures outcome == TooFewKernels <==> privileged && |ks| <= KeepAtLeast
    ensures !Asked(outcome) ==> trace == []
    ensures Asked(outcome) <==> privileged && |ks| > KeepAtLeast
    ensures outcome == Completed <==> Asked(outcome) && Confirm(input).approved
    ensures Asked(outcome) ==> Opens(trace, |Kept(ks)|, outcome == Completed)
    ensures Asked(outcome) ==> forall p :: 0 <= p < |Kept(ks)| ==> trace[p] == Keep(Kept(ks)[p])
    ensures forall i: nat :: Keep(i) in trace ==> i < |ks| && !CleanMask(ks)[i]
    ensures Asked(outcome) ==> forall i: nat :: i < |ks| && !CleanMask(ks)[i] ==> Keep(i) in trace
    ensures forall j: nat :: Remove(j) in trace ==> outcome == Completed && j < |ks| && CleanMask(ks)[j]
    ensures outcome == Completed ==>
              forall j :: 0 <= j < |ks| && CleanMask(ks)[j] && !ks[j].running ==> Remove(j) in trace
    ensures Asked(outcome) ==> RunningGuarded(ks, CleanMask(ks), trace)
    ensures outcome == Completed ==> RunningAsked(ks, CleanMask(ks), trace)
    ensures Asked(outcome) ==>
              Answers(trace) == Dialogue(input, Replies(ks, CleanMask(ks), outcome == Completed)).0
    ensures Ascending(trace)
    ensures LoopOrder(trace)
    ensures AskedFirst(ks, trace)
    ensures UpdateGrub in trace <==> outcome == Completed
    ensures forall p :: 0 <= p < |trace| && trace[p] == UpdateGrub ==> p == |trace| - 1
  {
    if !privileged {
      return NotPrivileged, [];
    }
    if |ks| <= KeepAtLeast {
      return TooFewKernels, [];
    }
    var mask, approved;
    mask, approved, trace := ConfirmClean(ks, input);
    outcome := if approved then Completed else Cancelled;
  }
}
