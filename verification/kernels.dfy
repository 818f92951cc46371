/**
 * The kernel table shared by every component: one record per installed boot
 * image (`KernelInfo` in kcleaner.c), and deletion masks over it (`to_delete`).
 */
module Kernels {

  /** One installed kernel image: its version suffix, image path and whether it is the running one. */
  datatype KernelRecord = KernelRecord(version: string, path: string, running: bool)

  /** Capacity of the kernel table (`MAX_KERNELS`). */
  const MaxKernels: nat := 100

  /** Number of indices a deletion mask marks. */
  function CountMarked(m: seq<bool>): nat
  {
    if |m| == 0 then 0
    else CountMarked(m[..|m| - 1]) + (if m[|m| - 1] then 1 else 0)
  }

  /** A mask marking nothing, of length `n`. */
  function Unmarked(n: nat): (m: seq<bool>)
    ensures |m| == n
    ensures forall i :: 0 <= i < n ==> !m[i]
  {
    seq(n, i => false)
  }

  /** Some marked index belongs to a running kernel (`deleting_running`). */
  predicate MarksRunning(ks: seq<KernelRecord>, m: seq<bool>)
    requires |m| == |ks|
  {
    exists i :: 0 <= i < |ks| && m[i] && ks[i].running
  }

  /** Marking index `j` adds a running kernel to the marked ones exactly when `ks[j]` is running. */
  lemma MarksRunningSet(ks: seq<KernelRecord>, m: seq<bool>, j: nat)
    requires |m| == |ks| && j < |m|
    ensures MarksRunning(ks, m[j := true]) <==> MarksRunning(ks, m) || ks[j].running
  {
    if ks[j].running {
      assert m[j := true][j] && ks[j].running;
    }
    if MarksRunning(ks, m) {
      var i :| 0 <= i < |ks| && m[i] && ks[i].running;
      assert m[j := true][i];
    }
  }

  lemma {:induction false} CountMarkedBounds(m: seq<bool>)
    ensures CountMarked(m) <= |m|
    ensures CountMarked(m) == 0 <==> forall i :: 0 <= i < |m| ==> !m[i]
    ensures CountMarked(m) == |m| <==> forall i :: 0 <= i < |m| ==> m[i]
  {
    if |m| > 0 {
      var init := m[..|m| - 1];
      CountMarkedBounds(init);
      assert forall i :: 0 <= i < |init| ==> init[i] == m[i];
    }
  }

  /** Marking a previously unmarked index raises the count by exactly one. */
  lemma {:induction false} CountMarkedSet(m: seq<bool>, j: nat)
    requires j < |m| && !m[j]
    ensures CountMarked(m[j := true]) == CountMarked(m) + 1
  {
    var m' := m[j := true];
    if j < |m| - 1 {
      assert m'[..|m'| - 1] == m[..|m| - 1][j := true];
      CountMarkedSet(m[..|m| - 1], j);
    } else {
      assert m'[..|m'| - 1] == m[..|m| - 1];
    }
  }

  /** When `m` marks exactly the indices outside `keep`, the marked count plus the kept indices below |m| make |m|. */
  lemma {:induction false} CountMarkedAllBut(m: seq<bool>, keep: set<nat>)
    requires forall i :: 0 <= i < |m| ==> (m[i] <==> i !in keep)
    ensures CountMarked(m) + |set i: nat | i < |m| && i in keep| == |m|
  {
    if |m| > 0 {
      var init := m[..|m| - 1];
      CountMarkedAllBut(init, keep);
      var last := |m| - 1;
      var below := set i: nat | i < |init| && i in keep;
      var all := set i: nat | i < |m| && i in keep;
      if last in keep {
        assert all == below + {last};
      } else {
        assert all == below;
      }
    }
  }

  function FirstRunningFrom(ks: seq<KernelRecord>, from: nat): (r: int)
    decreases |ks| - from
    ensures r == -1 || from <= r < |ks|
    ensures r == -1 ==> forall i :: from <= i < |ks| ==> !ks[i].running
    ensures r != -1 ==> ks[r].running && forall i :: from <= i < r ==> !ks[i].running
  {
    if from >= |ks| then -1
    else if ks[from].running then from
    else FirstRunningFrom(ks, from + 1)
  }

  /**
   * Index of the first running record, or -1 when no record is running
   * (`running_index` of auto_clean).
   */
  function FirstRunning(ks: seq<KernelRecord>): (r: int)
    ensures -1 <= r < |ks|
    ensures r == -1 <==> forall i :: 0 <= i < |ks| ==> !ks[i].running
    ensures r != -1 ==> ks[r].running && forall i :: 0 <= i < r ==> !ks[i].running
  {
    FirstRunningFrom(ks, 0)
  }
}
