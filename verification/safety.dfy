/**
 * The safety classification of delete_kernels (kcleaner.c): the token loop
 * that fills `to_delete` while counting `delete_count`, `remaining_count` and
 * `deleting_running`, and the two warnings shown before the batch prompt.
 */
module Safety {
  import opened Basics
  import opened Kernels
  import opened Selection

  /** The warnings printed before "Proceed with deletion?". */
  datatype Warning = RunningKernelIncluded | AllKernelsIncluded

  /** What the parse loop leaves behind: the mask and the three running totals. */
  datatype Classification = Classification(
    marked: seq<bool>,
    deleteCount: int,
    remainingCount: int,
    deletingRunning: bool)

  /** The totals agree with the mask over the kernel table `ks`. */
  predicate Summarises(ks: seq<KernelRecord>, c: Classification)
  {
    && |c.marked| == |ks|
    && c.deleteCount == CountMarked(c.marked)
    && c.remainingCount == |ks| - c.deleteCount
    && (c.deletingRunning <==> MarksRunning(ks, c.marked))
  }

  /**
   * The character filter: scans the whole selection before any token is
   * parsed and stops at the first character that is not a digit, ',' or '-'.
   */
  method FirstBadCharacter(sel: string) returns (bad: Option<char>)
    ensures bad.None? <==> AllSelectionChars(sel)
    ensures bad.Some? ==> FirstInvalid(sel).Some? && bad.value == sel[FirstInvalid(sel).value]
  {
    var p := 0;
    while p < |sel|
      invariant 0 <= p <= |sel|
      invariant forall j :: 0 <= j < p ==> IsSelectionChar(sel[j])
    {
      if !IsSelectionChar(sel[p]) {
        assert FirstInvalid(sel) == Some(p);
        return Some(sel[p]);
      }
      p := p + 1;
    }
    return None;
  }

  /**
   * The marking loop for one accepted token: every index of the span is
   * marked, and the counters move only for an index not marked before.
   */
  method MarkSpan(ks: seq<KernelRecord>, c: Classification, span: Span) returns (c': Classification)
    requires Summarises(ks, c)
    requires 1 <= span.first <= span.last <= |ks|
    ensures Summarises(ks, c')
    ensures c'.marked == Mark(c.marked, span)
  {
    var mask := c.marked;
    var deleteCount := c.deleteCount;
    var remainingCount := c.remainingCount;
    var deletingRunning := c.deletingRunning;
    var i := span.first;
    while i <= span.last
      invariant span.first <= i <= span.last + 1
      invariant |mask| == |ks|
      invariant forall j :: 0 <= j < |ks| ==> (mask[j] <==> c.marked[j] || span.first <= j + 1 < i)
      invariant deleteCount == CountMarked(mask)
      invariant remainingCount == |ks| - deleteCount
      invariant deletingRunning <==> MarksRunning(ks, mask)
    {
      MarkSpanStep(c.marked, mask, span, i);
      if !mask[i - 1] {
        CountMarkedSet(mask, i - 1);
        MarksRunningSet(ks, mask, i - 1);
        mask := mask[i - 1 := true];
        deleteCount := deleteCount + 1;
        remainingCount := remainingCount - 1;
        deletingRunning := deletingRunning || ks[i - 1].running;
      }
      i := i + 1;
    }
    c' := Classification(mask, deleteCount, remainingCount, deletingRunning);
    MarkSpanDone(c.marked, mask, span);
  }

  /** One turn of the marking loop extends the marked part of the span by index `i`. */
  lemma MarkSpanStep(m: seq<bool>, mask: seq<bool>, span: Span, i: int)
    requires |mask| == |m| && 1 <= span.first <= i <= span.last <= |m|
    requires forall j :: 0 <= j < |m| ==> (mask[j] <==> m[j] || span.first <= j + 1 < i)
    ensures forall j :: 0 <= j < |m| ==> (mask[i - 1 := true][j] <==> m[j] || span.first <= j + 1 < i + 1)
    ensures mask[i - 1] ==> forall j :: 0 <= j < |m| ==> (mask[j] <==> m[j] || span.first <= j + 1 < i + 1)
  {
  }

  /** A mask holding the old marks and exactly the span's indices is the marked mask. */
  lemma MarkSpanDone(m: seq<bool>, mask: seq<bool>, span: Span)
    requires |mask| == |m|
    requires forall j :: 0 <= j < |m| ==> (mask[j] <==> m[j] || span.first <= j + 1 < span.last + 1)
    ensures mask == Mark(m, span)
  {
  }

  /**
   * The character filter and the token loop of delete_kernels: the first
   * refused token aborts the request, otherwise the totals describe the
   * union of all token spans.
   */
  method Classify(ks: seq<KernelRecord>, sel: string) returns (r: Result<Classification, ParseError>)
    ensures r.Err? <==> Select(sel, |ks|).Err?
    ensures r.Err? ==> r.error == Select(sel, |ks|).error
    ensures r.Ok? ==> r.value.marked == Select(sel, |ks|).value
    ensures r.Ok? ==> Summarises(ks, r.value)
  {
    var n := |ks|;
    var bad := FirstBadCharacter(sel);
    if bad.Some? {
      return Err(InvalidCharacter(bad.value));
    }
    var toks := Tokens(sel);
    var c := Classification(Unmarked(n), 0, n, false);
    CountMarkedBounds(c.marked);
    var t := 0;
    while t < |toks|
      invariant 0 <= t <= |toks|
      invariant Summarises(ks, c)
      invariant ApplyTokens(toks[t..], n, c.marked) == Select(sel, n)
    {
      assert toks[t..][0] == toks[t] && toks[t..][1..] == toks[t + 1..];
      var parsed := ParseToken(toks[t], n);
      if parsed.Err? {
        return Err(parsed.error);
      }
      c := MarkSpan(ks, c, parsed.value);
      t := t + 1;
    }
    return Ok(c);
  }

  /** The warnings, in the order they are printed. */
  function Warnings(c: Classification): seq<Warning>
  {
    (if c.deletingRunning then [RunningKernelIncluded] else [])
    + (if c.remainingCount == 0 then [AllKernelsIncluded] else [])
  }

  /**
   * The running-kernel warning appears exactly when some marked index is a
   * running kernel, and the critical warning exactly when every index is
   * marked.
   */
  lemma WarningsMeaning(ks: seq<KernelRecord>, c: Classification)
    requires Summarises(ks, c)
    ensures RunningKernelIncluded in Warnings(c) <==> exists i :: 0 <= i < |ks| && c.marked[i] && ks[i].running
    ensures AllKernelsIncluded in Warnings(c) <==> forall i :: 0 <= i < |ks| ==> c.marked[i]
  {
    CountMarkedBounds(c.marked);
  }

  /** The warnings a mask calls for, read off the mask and the table alone. */
  function MaskWarnings(ks: seq<KernelRecord>, mask: seq<bool>): seq<Warning>
    requires |mask| == |ks|
  {
    (if exists i :: 0 <= i < |ks| && mask[i] && ks[i].running then [RunningKernelIncluded] else [])
    + (if forall i :: 0 <= i < |ks| ==> mask[i] then [AllKernelsIncluded] else [])
  }

  /** The running totals of the parse loop call for exactly the warnings their mask does. */
  lemma WarningsOfMask(ks: seq<KernelRecord>, c: Classification)
    requires Summarises(ks, c)
    ensures Warnings(c) == MaskWarnings(ks, c.marked)
  {
    CountMarkedBounds(c.marked);
  }
}
