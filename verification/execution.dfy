/**
 * What delete_kernels does once a selection is classified (kcleaner.c):
 * the batch confirmation, the ascending removal loop through delete_kernel
 * with its extra prompt for the running kernel, and the final update_grub.
 * Collaborator calls (the `rm` commands, the `update-grub` run) are recorded
 * as events of a trace; their exit codes never change what happens next.
 */
module Execution {
  import opened Basics
  import opened Kernels
  import opened Selection
  import opened Console
  import opened Safety

  /** The two questions the tool asks. */
  datatype Prompt = ProceedWithDeletion | DeleteRunningKernel(index: nat)

  /**
   * One observable step: a warning, a kernel auto-clean announces it keeps,
   * a question with its answer, a removal, the boot-loader refresh.
   */
  datatype Event =
    | Warn(warning: Warning)
    | Keep(index: nat)
    | Ask(prompt: Prompt, approved: bool)
    | Remove(index: nat)
    | UpdateGrub

  /** Events together with the operator input still unread afterwards. */
  datatype Run = Run(events: seq<Event>, rest: string)

  /** The event concerns kernel `i`: its removal or its running-kernel question. */
  predicate About(e: Event, i: nat)
  {
    e == Remove(i) || (e.Ask? && e.prompt == DeleteRunningKernel(i))
  }

  /** The operator's answers, in the order the questions appear in `es`. */
  function Answers(es: seq<Event>): seq<bool>
  {
    if |es| == 0 then []
    else (if es[0].Ask? then [es[0].approved] else []) + Answers(es[1..])
  }

  lemma {:induction false} AnswersAppend(a: seq<Event>, b: seq<Event>)
    ensures Answers(a + b) == Answers(a) + Answers(b)
  {
    if |a| > 0 {
      assert (a + b)[1..] == a[1..] + b;
      AnswersAppend(a[1..], b);
    } else {
      assert a + b == b;
    }
  }

  /** Removals happen in strictly ascending index order. */
  predicate Ascending(es: seq<Event>)
  {
    forall p, q :: 0 <= p < q < |es| && es[p].Remove? && es[q].Remove? ==> es[p].index < es[q].index
  }

  /** Two ascending runs stay ascending when every removal of the first precedes, in index, every removal of the second. */
  lemma AscendingAppend(a: seq<Event>, b: seq<Event>)
    requires Ascending(a) && Ascending(b)
    requires forall x, y :: x in a && y in b && x.Remove? && y.Remove? ==> x.index < y.index
    ensures Ascending(a + b)
  {
    var es := a + b;
    forall p, q | 0 <= p < q < |es| && es[p].Remove? && es[q].Remove?
      ensures es[p].index < es[q].index
    {
      if q < |a| {
        assert es[p] == a[p] && es[q] == a[q];
      } else if p < |a| {
        assert es[p] == a[p] && es[q] == b[q - |a|];
      } else {
        assert es[p] == b[p - |a|] && es[q] == b[q - |a|];
      }
    }
  }

  /**
   * delete_kernel(index): an index outside the table is reported and nothing
   * else happens; a running kernel is removed only after a second affirmative
   * answer; any other kernel is removed at once.
   */
  function DeleteKernel(ks: seq<KernelRecord>, index: int, input: string): (r: Run)
    ensures !(0 <= index < |ks|) ==> r == Run([], input)
    ensures 0 <= index < |ks| && !ks[index].running ==> r == Run([Remove(index)], input)
    ensures 0 <= index < |ks| && ks[index].running ==>
              |r.events| > 0 && r.events[0] == Ask(DeleteRunningKernel(index), Confirm(input).approved)
              && (Remove(index) in r.events <==> Confirm(input).approved)
              && r.rest == Confirm(input).rest
    ensures Ascending(r.events)
  {
    if index < 0 || index >= |ks| then Run([], input)
    else if ks[index].running then
      var reply := Confirm(input);
      if reply.approved then Run([Ask(DeleteRunningKernel(index), true), Remove(index)], reply.rest)
      else Run([Ask(DeleteRunningKernel(index), false)], reply.rest)
    else Run([Remove(index)], input)
  }

  /** The removal loop over indices `from`..|ks|-1, calling delete_kernel for each marked one. */
  function DeleteMarked(ks: seq<KernelRecord>, mask: seq<bool>, from: nat, input: string): Run
    requires |mask| == |ks|
    decreases |ks| - from
  {
    if from >= |ks| then Run([], input)
    else if mask[from] then
      var head := DeleteKernel(ks, from, input);
      var tail := DeleteMarked(ks, mask, from + 1, head.rest);
      Run(head.events + tail.events, tail.rest)
    else DeleteMarked(ks, mask, from + 1, input)
  }

  /** Number of marked running kernels at index `from` or above: the extra questions the loop asks. */
  function RunningMarkedFrom(ks: seq<KernelRecord>, mask: seq<bool>, from: nat): (r: nat)
    requires |mask| == |ks|
    ensures from <= |ks| ==> r <= |ks| - from
    ensures r == 0 <==> forall i :: from <= i < |ks| ==> !(mask[i] && ks[i].running)
    decreases |ks| - from
  {
    if from >= |ks| then 0
    else (if mask[from] && ks[from].running then 1 else 0) + RunningMarkedFrom(ks, mask, from + 1)
  }

  /**
   * Every event of the loop concerns a marked index at or above `from`, and
   * there are no warnings, batch questions or refreshes among them.
   */
  lemma {:induction false} DeleteMarkedOnlyMarked(ks: seq<KernelRecord>, mask: seq<bool>, from: nat, input: string)
    requires |mask| == |ks|
    ensures forall e :: e in DeleteMarked(ks, mask, from, input).events ==>
              exists i :: from <= i < |ks| && mask[i] && About(e, i) && (e.Ask? ==> ks[i].running)
    decreases |ks| - from
  {
    if from < |ks| {
      if mask[from] {
        var head := DeleteKernel(ks, from, input);
        DeleteMarkedOnlyMarked(ks, mask, from + 1, head.rest);
        forall e | e in head.events
          ensures About(e, from) && (e.Ask? ==> ks[from].running)
        {
        }
      } else {
        DeleteMarkedOnlyMarked(ks, mask, from + 1, input);
      }
    }
  }

  lemma {:induction false} DeleteMarkedAscending(ks: seq<KernelRecord>, mask: seq<bool>, from: nat, input: string)
    requires |mask| == |ks|
    ensures Ascending(DeleteMarked(ks, mask, from, input).events)
    decreases |ks| - from
  {
    if from < |ks| {
      if mask[from] {
        var head := DeleteKernel(ks, from, input);
        var tail := DeleteMarked(ks, mask, from + 1, head.rest);
        DeleteMarkedAscending(ks, mask, from + 1, head.rest);
        DeleteMarkedOnlyMarked(ks, mask, from + 1, head.rest);
        assert forall e :: e in head.events ==> About(e, from);
        AscendingAppend(head.events, tail.events);
      } else {
        DeleteMarkedAscending(ks, mask, from + 1, input);
      }
    }
  }

  /**
   * Which marked kernels the loop removes: every marked kernel that is not
   * running, and a marked running kernel exactly when its own question was
   * answered yes. A refused running kernel is skipped and the loop goes on.
   */
  lemma {:induction false} DeleteMarkedRemoves(ks: seq<KernelRecord>, mask: seq<bool>, from: nat, input: string, j: nat)
    requires |mask| == |ks|
    requires from <= j < |ks| && mask[j]
    ensures !ks[j].running ==> Remove(j) in DeleteMarked(ks, mask, from, input).events
    ensures ks[j].running ==>
              (Remove(j) in DeleteMarked(ks, mask, from, input).events
               <==> Ask(DeleteRunningKernel(j), true) in DeleteMarked(ks, mask, from, input).events)
    ensures ks[j].running ==>
              Ask(DeleteRunningKernel(j), true) in DeleteMarked(ks, mask, from, input).events
              || Ask(DeleteRunningKernel(j), false) in DeleteMarked(ks, mask, from, input).events
    decreases |ks| - from
  {
    if mask[from] {
      var head := DeleteKernel(ks, from, input);
      var tail := DeleteMarked(ks, mask, from + 1, head.rest);
      var es := head.events + tail.events;
      if j == from {
        DeleteMarkedOnlyMarked(ks, mask, from + 1, head.rest);
        assert Remove(j) !in tail.events;
        assert Ask(DeleteRunningKernel(j), true) !in tail.events;
        if ks[j].running {
          assert head.events[0] in es;
        }
      } else {
        DeleteMarkedRemoves(ks, mask, from + 1, head.rest, j);
        assert forall e :: e in head.events ==> About(e, from);
      }
    } else {
      DeleteMarkedRemoves(ks, mask, from + 1, input, j);
    }
  }

  /**
   * The running-kernel questions are answered by successive replies: the
   * answers recorded are those of `Dialogue` over as many prompts as there
   * are marked running kernels, and the input left is what that dialogue
   * leaves.
   */
  lemma {:induction false} DeleteMarkedConsumes(ks: seq<KernelRecord>, mask: seq<bool>, from: nat, input: string)
    requires |mask| == |ks|
    ensures Answers(DeleteMarked(ks, mask, from, input).events) == Dialogue(input, RunningMarkedFrom(ks, mask, from)).0
    ensures DeleteMarked(ks, mask, from, input).rest == Dialogue(input, RunningMarkedFrom(ks, mask, from)).1
    decreases |ks| - from
  {
    if from < |ks| {
      var k := RunningMarkedFrom(ks, mask, from + 1);
      if mask[from] {
        var head := DeleteKernel(ks, from, input);
        var tail := DeleteMarked(ks, mask, from + 1, head.rest);
        var q := if ks[from].running then 1 else 0;
        DeleteKernelConsumes(ks, from, input);
        DeleteMarkedConsumes(ks, mask, from + 1, head.rest);
        AnswersAppend(head.events, tail.events);
        DialogueSplit(input, q, k);
      } else {
        DeleteMarkedConsumes(ks, mask, from + 1, input);
      }
    }
  }

  /** One call of delete_kernel asks one question for a running kernel and none otherwise. */
  lemma DeleteKernelConsumes(ks: seq<KernelRecord>, index: nat, input: string)
    requires index < |ks|
    ensures Answers(DeleteKernel(ks, index, input).events) == Dialogue(input, if ks[index].running then 1 else 0).0
    ensures DeleteKernel(ks, index, input).rest == Dialogue(input, if ks[index].running then 1 else 0).1
  {
    var es := DeleteKernel(ks, index, input).events;
    if ks[index].running {
      assert Dialogue(input, 1).0 == [Confirm(input).approved];
      assert Answers(es) == [Confirm(input).approved] + Answers(es[1..]);
    } else {
      assert Answers(es) == Answers([Remove(index)]);
    }
  }

  /**
   * The running-kernel guard of delete_kernel, seen in a sequence of events:
   * a running-kernel question is only ever put for a marked running kernel,
   * and a running kernel is removed exactly when such a question about it
   * was answered yes.
   */
  predicate RunningGuarded(ks: seq<KernelRecord>, mask: seq<bool>, es: seq<Event>)
    requires |mask| == |ks|
  {
    && (forall e :: e in es && e.Ask? && e.prompt.DeleteRunningKernel? ==>
          e.prompt.index < |ks| && mask[e.prompt.index] && ks[e.prompt.index].running)
    && (forall j :: 0 <= j < |ks| && ks[j].running ==>
          (Remove(j) in es <==> Ask(DeleteRunningKernel(j), true) in es))
  }

  /** Every marked running kernel had its own question put, whatever the answer. */
  predicate RunningAsked(ks: seq<KernelRecord>, mask: seq<bool>, es: seq<Event>)
    requires |mask| == |ks|
  {
    forall j :: 0 <= j < |ks| && mask[j] && ks[j].running ==>
      Ask(DeleteRunningKernel(j), true) in es || Ask(DeleteRunningKernel(j), false) in es
  }

  /** A removal or a running-kernel question: the events delete_kernel produces. */
  predicate Concerns(e: Event)
  {
    e.Remove? || (e.Ask? && e.prompt.DeleteRunningKernel?)
  }

  /** The kernel a removal or running-kernel question is about. */
  function Subject(e: Event): nat
    requires Concerns(e)
  {
    if e.Remove? then e.index else e.prompt.index
  }

  /**
   * The loop visits kernels in ascending index order: removals and
   * running-kernel questions about different kernels come in the order of
   * their indices, and about one kernel there is at most one question and at
   * most one removal, the question first.
   */
  predicate LoopOrder(es: seq<Event>)
  {
    forall p, q :: 0 <= p < q < |es| && Concerns(es[p]) && Concerns(es[q]) ==>
      Subject(es[p]) < Subject(es[q]) || (Subject(es[p]) == Subject(es[q]) && es[p].Ask? && es[q].Remove?)
  }

  /** A running kernel's removal comes right after its own question, answered yes. */
  predicate AskedFirst(ks: seq<KernelRecord>, es: seq<Event>)
  {
    forall p :: 0 <= p < |es| && es[p].Remove? && es[p].index < |ks| && ks[es[p].index].running ==>
      p > 0 && es[p - 1] == Ask(DeleteRunningKernel(es[p].index), true)
  }

  /** Two runs in loop order stay in order when every kernel of the first precedes every kernel of the second. */
  lemma LoopOrderAppend(a: seq<Event>, b: seq<Event>)
    requires LoopOrder(a) && LoopOrder(b)
    requires forall x, y :: x in a && y in b && Concerns(x) && Concerns(y) ==> Subject(x) < Subject(y)
    ensures LoopOrder(a + b)
  {
    var es := a + b;
    forall p, q | 0 <= p < q < |es| && Concerns(es[p]) && Concerns(es[q])
      ensures Subject(es[p]) < Subject(es[q]) || (Subject(es[p]) == Subject(es[q]) && es[p].Ask? && es[q].Remove?)
    {
      if q < |a| {
        assert es[p] == a[p] && es[q] == a[q];
      } else if p < |a| {
        assert es[p] == a[p] && es[q] == b[q - |a|];
      } else {
        assert es[p] == b[p - |a|] && es[q] == b[q - |a|];
      }
    }
  }

  /** Putting runs side by side keeps every running kernel's question right before its removal. */
  lemma AskedFirstAppend(ks: seq<KernelRecord>, a: seq<Event>, b: seq<Event>)
    requires AskedFirst(ks, a) && AskedFirst(ks, b)
    ensures AskedFirst(ks, a + b)
  {
    var es := a + b;
    forall p | 0 <= p < |es| && es[p].Remove? && es[p].index < |ks| && ks[es[p].index].running
      ensures p > 0 && es[p - 1] == Ask(DeleteRunningKernel(es[p].index), true)
    {
      if p < |a| {
        assert es[p] == a[p] && es[p - 1] == a[p - 1];
      } else {
        assert es[p] == b[p - |a|];
        assert es[p - 1] == b[p - |a| - 1];
      }
    }
  }

  /** One call of delete_kernel is about its own index only, and asks before it removes a running kernel. */
  lemma DeleteKernelOrder(ks: seq<KernelRecord>, index: nat, input: string)
    requires index < |ks|
    ensures LoopOrder(DeleteKernel(ks, index, input).events)
    ensures AskedFirst(ks, DeleteKernel(ks, index, input).events)
    ensures forall e :: e in DeleteKernel(ks, index, input).events ==> Concerns(e) && Subject(e) == index
  {
  }

  /** Every removal or question of the loop from `from` on is about an index at or above `from`. */
  lemma DeleteMarkedAbove(ks: seq<KernelRecord>, mask: seq<bool>, from: nat, input: string)
    requires |mask| == |ks|
    ensures forall e :: e in DeleteMarked(ks, mask, from, input).events && Concerns(e) ==> from <= Subject(e)
  {
    DeleteMarkedOnlyMarked(ks, mask, from, input);
    forall e | e in DeleteMarked(ks, mask, from, input).events && Concerns(e)
      ensures from <= Subject(e)
    {
      var i :| from <= i < |ks| && mask[i] && About(e, i) && (e.Ask? ==> ks[i].running);
    }
  }

  /**
   * The order of the removal loop: kernels are visited by ascending index,
   * and a running kernel is removed only right after its own question was
   * answered yes.
   */
  lemma {:induction false} DeleteMarkedOrder(ks: seq<KernelRecord>, mask: seq<bool>, from: nat, input: string)
    requires |mask| == |ks|
    ensures LoopOrder(DeleteMarked(ks, mask, from, input).events)
    ensures AskedFirst(ks, DeleteMarked(ks, mask, from, input).events)
    decreases |ks| - from
  {
    if from < |ks| {
      if mask[from] {
        var head := DeleteKernel(ks, from, input);
        var tail := DeleteMarked(ks, mask, from + 1, head.rest);
        assert DeleteMarked(ks, mask, from, input).events == head.events + tail.events;
        DeleteKernelOrder(ks, from, input);
        DeleteMarkedOrder(ks, mask, from + 1, head.rest);
        DeleteMarkedAbove(ks, mask, from + 1, head.rest);
        LoopOrderAppend(head.events, tail.events);
        AskedFirstAppend(ks, head.events, tail.events);
      } else {
        DeleteMarkedOrder(ks, mask, from + 1, input);
      }
    }
  }

  /** The removal loop of a confirmed batch, from index 0, summarised for its callers. */
  lemma RemovalLoop(ks: seq<KernelRecord>, mask: seq<bool>, input: string)
    requires |mask| == |ks|
    ensures forall e :: e in DeleteMarked(ks, mask, 0, input).events ==>
              e.Remove? || (e.Ask? && e.prompt.DeleteRunningKernel?)
    ensures forall j: nat :: Remove(j) in DeleteMarked(ks, mask, 0, input).events ==> j < |ks| && mask[j]
    ensures forall j :: 0 <= j < |ks| && mask[j] && !ks[j].running ==> Remove(j) in DeleteMarked(ks, mask, 0, input).events
    ensures RunningGuarded(ks, mask, DeleteMarked(ks, mask, 0, input).events)
    ensures RunningAsked(ks, mask, DeleteMarked(ks, mask, 0, input).events)
    ensures Answers(DeleteMarked(ks, mask, 0, input).events) == Dialogue(input, RunningMarkedFrom(ks, mask, 0)).0
    ensures Ascending(DeleteMarked(ks, mask, 0, input).events)
    ensures LoopOrder(DeleteMarked(ks, mask, 0, input).events)
    ensures AskedFirst(ks, DeleteMarked(ks, mask, 0, input).events)
  {
    var es := DeleteMarked(ks, mask, 0, input).events;
    DeleteMarkedOrder(ks, mask, 0, input);
    DeleteMarkedOnlyMarked(ks, mask, 0, input);
    DeleteMarkedAscending(ks, mask, 0, input);
    DeleteMarkedConsumes(ks, mask, 0, input);
    forall e | e in es
      ensures e.Remove? || (e.Ask? && e.prompt.DeleteRunningKernel?)
    {
      var i :| 0 <= i < |ks| && mask[i] && About(e, i) && (e.Ask? ==> ks[i].running);
    }
    forall j: nat | Remove(j) in es
      ensures j < |ks| && mask[j]
    {
      var i :| 0 <= i < |ks| && mask[i] && About(Remove(j), i);
    }
    forall e | e in es && e.Ask? && e.prompt.DeleteRunningKernel?
      ensures e.prompt.index < |ks| && mask[e.prompt.index] && ks[e.prompt.index].running
    {
      var i :| 0 <= i < |ks| && mask[i] && About(e, i) && ks[i].running;
    }
    forall j | 0 <= j < |ks| && ks[j].running
      ensures Remove(j) in es <==> Ask(DeleteRunningKernel(j), true) in es
    {
      if mask[j] {
        DeleteMarkedRemoves(ks, mask, 0, input, j);
      } else {
        forall e | e in es
          ensures e != Remove(j) && e != Ask(DeleteRunningKernel(j), true)
        {
          var i :| 0 <= i < |ks| && mask[i] && About(e, i) && (e.Ask? ==> ks[i].running);
          assert i != j;
        }
      }
    }
    forall j | 0 <= j < |ks| && mask[j]
      ensures Remove(j) in es || ks[j].running
      ensures ks[j].running ==> Ask(DeleteRunningKernel(j), true) in es || Ask(DeleteRunningKernel(j), false) in es
    {
      DeleteMarkedRemoves(ks, mask, 0, input, j);
    }
  }

  /**
   * The trace of a confirmed batch: announcements and the batch question,
   * then the removal loop, then the boot-loader refresh, which is the last
   * event and the only one of its kind.
   */
  lemma ConfirmedTrace(prefix: seq<Event>, removals: seq<Event>)
    requires forall p :: 0 <= p < |prefix| ==> !prefix[p].Remove? && !prefix[p].UpdateGrub?
    requires forall e :: e in removals ==> e.Remove? || e.Ask?
    requires Ascending(removals)
    ensures forall p :: 0 <= p < |prefix| ==> (prefix + removals + [UpdateGrub])[p] == prefix[p]
    ensures forall p :: |prefix| <= p < |prefix| + |removals| ==>
              (prefix + removals + [UpdateGrub])[p] == removals[p - |prefix|]
    ensures Ascending(prefix + removals + [UpdateGrub])
    ensures UpdateGrub in prefix + removals + [UpdateGrub]
    ensures forall p :: |prefix| <= p < |prefix + removals + [UpdateGrub]| ==>
              (prefix + removals + [UpdateGrub])[p].Remove? || (prefix + removals + [UpdateGrub])[p].Ask?
              || (prefix + removals + [UpdateGrub])[p].UpdateGrub?
    ensures forall p :: 0 <= p < |prefix + removals + [UpdateGrub]| && (prefix + removals + [UpdateGrub])[p] == UpdateGrub ==>
              p == |prefix + removals|
  {
    var trace := prefix + removals + [UpdateGrub];
    assert Ascending(prefix);
    AscendingAppend(prefix, removals);
    AscendingAppend(prefix + removals, [UpdateGrub]);
    forall p | 0 <= p < |prefix + removals|
      ensures trace[p] != UpdateGrub
    {
      if p < |prefix| {
        assert trace[p] == prefix[p];
      } else {
        assert trace[p] == removals[p - |prefix|];
        assert removals[p - |prefix|] in removals;
      }
    }
    forall p | |prefix| <= p < |trace|
      ensures trace[p].Remove? || trace[p].Ask? || trace[p].UpdateGrub?
    {
      if p < |prefix + removals| {
        assert trace[p] == removals[p - |prefix|];
        assert removals[p - |prefix|] in removals;
      }
    }
  }

  /**
   * In a confirmed batch every removal and every running-kernel question
   * comes from the removal loop, and the answers are the prefix's followed
   * by the loop's.
   */
  lemma ConfirmedEvents(prefix: seq<Event>, removals: seq<Event>)
    requires forall p :: 0 <= p < |prefix| ==> !prefix[p].Remove?
    requires forall p :: 0 <= p < |prefix| && prefix[p].Ask? ==> prefix[p].prompt == ProceedWithDeletion
    ensures forall e :: e in prefix + removals + [UpdateGrub] && (e.Remove? || (e.Ask? && e.prompt.DeleteRunningKernel?)) ==>
              e in removals
    ensures forall j: nat :: Remove(j) in prefix + removals + [UpdateGrub] <==> Remove(j) in removals
    ensures Answers(prefix + removals + [UpdateGrub]) == Answers(prefix) + Answers(removals)
  {
    var trace := prefix + removals + [UpdateGrub];
    AnswersAppend(prefix, removals);
    AnswersAppend(prefix + removals, [UpdateGrub]);
    assert Answers([UpdateGrub]) == [];
    forall e | e in trace && (e.Remove? || (e.Ask? && e.prompt.DeleteRunningKernel?))
      ensures e in removals
    {
      assert forall p :: 0 <= p < |prefix| ==> prefix[p] != e;
    }
  }

  /**
   * What may precede the removal loop: announcements, warnings and the batch
   * question, but no removal, no running-kernel question and no refresh.
   */
  predicate Quiet(prefix: seq<Event>)
  {
    forall p :: 0 <= p < |prefix| ==>
      !prefix[p].Remove? && !prefix[p].UpdateGrub? && (prefix[p].Ask? ==> prefix[p].prompt == ProceedWithDeletion)
  }

  /** A quiet prefix removes nothing and asks nothing about a running kernel. */
  lemma QuietGuarded(ks: seq<KernelRecord>, mask: seq<bool>, prefix: seq<Event>)
    requires |mask| == |ks| && Quiet(prefix)
    ensures forall j: nat :: Remove(j) !in prefix
    ensures RunningGuarded(ks, mask, prefix)
  {
    forall e | e in prefix
      ensures !e.Remove? && !(e.Ask? && e.prompt.DeleteRunningKernel?)
    {
      var p :| 0 <= p < |prefix| && prefix[p] == e;
    }
  }

  /** A quiet prefix has nothing the loop order or the running-kernel guard could object to. */
  lemma QuietOrder(ks: seq<KernelRecord>, prefix: seq<Event>)
    requires Quiet(prefix)
    ensures LoopOrder(prefix)
    ensures AskedFirst(ks, prefix)
  {
    assert forall p :: 0 <= p < |prefix| ==> !Concerns(prefix[p]);
  }

  /**
   * A confirmed batch after a quiet prefix keeps the loop's order: kernels by
   * ascending index, and each running kernel removed right after its own
   * question was answered yes.
   */
  lemma BatchOrder(ks: seq<KernelRecord>, mask: seq<bool>, prefix: seq<Event>, input: string)
    requires |mask| == |ks| && Quiet(prefix)
    ensures LoopOrder(Batch(ks, mask, prefix, input))
    ensures AskedFirst(ks, Batch(ks, mask, prefix, input))
  {
    var removals := DeleteMarked(ks, mask, 0, input).events;
    DeleteMarkedOrder(ks, mask, 0, input);
    QuietOrder(ks, prefix);
    assert !Concerns([UpdateGrub][0]);
    assert LoopOrder([UpdateGrub]) && AskedFirst(ks, [UpdateGrub]);
    assert forall x :: x in prefix ==> !Concerns(x);
    LoopOrderAppend(prefix, removals);
    LoopOrderAppend(prefix + removals, [UpdateGrub]);
    AskedFirstAppend(ks, prefix, removals);
    AskedFirstAppend(ks, prefix + removals, [UpdateGrub]);
  }

  /** Events that ask nothing carry no answers. */
  lemma {:induction false} AnswersNoAsk(es: seq<Event>)
    requires forall p :: 0 <= p < |es| ==> !es[p].Ask?
    ensures Answers(es) == []
  {
    if |es| > 0 {
      AnswersNoAsk(es[1..]);
    }
  }

  /**
   * The batch question sits at position `q` with answer `approved`: only
   * announcements and warnings come before it, and only removals,
   * running-kernel questions and the refresh after it.
   */
  predicate Opens(es: seq<Event>, q: nat, approved: bool)
  {
    && q < |es|
    && es[q] == Ask(ProceedWithDeletion, approved)
    && (forall p :: 0 <= p < q ==> es[p].Warn? || es[p].Keep?)
    && (forall p :: q < p < |es| ==>
          es[p].Remove? || es[p].UpdateGrub? || (es[p].Ask? && es[p].prompt.DeleteRunningKernel?))
  }

  /** The trace of a confirmed batch: what came before, the removal loop, then the refresh. */
  function Batch(ks: seq<KernelRecord>, mask: seq<bool>, prefix: seq<Event>, input: string): seq<Event>
    requires |mask| == |ks|
  {
    prefix + DeleteMarked(ks, mask, 0, input).events + [UpdateGrub]
  }

  /**
   * A confirmed batch after a quiet prefix: the prefix stays in front and is
   * followed only by questions, removals and the refresh; exactly the
   * marked non-running kernels and the running ones whose own question was
   * answered yes are removed, in ascending order; every marked running
   * kernel is asked about; the answers after the prefix's are successive
   * replies, one per marked running kernel; the refresh is last.
   */
  lemma BatchTrace(ks: seq<KernelRecord>, mask: seq<bool>, prefix: seq<Event>, input: string)
    requires |mask| == |ks| && Quiet(prefix)
    ensures |Batch(ks, mask, prefix, input)| > |prefix|
    ensures forall p :: 0 <= p < |prefix| ==> Batch(ks, mask, prefix, input)[p] == prefix[p]
    ensures forall p :: |prefix| <= p < |Batch(ks, mask, prefix, input)| ==>
              Batch(ks, mask, prefix, input)[p].Remove? || Batch(ks, mask, prefix, input)[p].UpdateGrub?
              || (Batch(ks, mask, prefix, input)[p].Ask? && Batch(ks, mask, prefix, input)[p].prompt.DeleteRunningKernel?)
    ensures forall j: nat :: Remove(j) in Batch(ks, mask, prefix, input) ==> j < |ks| && mask[j]
    ensures forall j :: 0 <= j < |ks| && mask[j] && !ks[j].running ==> Remove(j) in Batch(ks, mask, prefix, input)
    ensures RunningGuarded(ks, mask, Batch(ks, mask, prefix, input))
    ensures RunningAsked(ks, mask, Batch(ks, mask, prefix, input))
    ensures Answers(Batch(ks, mask, prefix, input)) == Answers(prefix) + Dialogue(input, RunningMarkedFrom(ks, mask, 0)).0
    ensures Ascending(Batch(ks, mask, prefix, input))
    ensures UpdateGrub in Batch(ks, mask, prefix, input)
    ensures forall p :: 0 <= p < |Batch(ks, mask, prefix, input)| && Batch(ks, mask, prefix, input)[p] == UpdateGrub ==>
              p == |Batch(ks, mask, prefix, input)| - 1
  {
    var removals := DeleteMarked(ks, mask, 0, input).events;
    var trace := Batch(ks, mask, prefix, input);
    RemovalLoop(ks, mask, input);
    ConfirmedTrace(prefix, removals);
    ConfirmedEvents(prefix, removals);
    forall p | |prefix| <= p < |trace|
      ensures trace[p].Remove? || trace[p].UpdateGrub? || (trace[p].Ask? && trace[p].prompt.DeleteRunningKernel?)
    {
      if p < |prefix| + |removals| {
        assert trace[p] == removals[p - |prefix|];
        assert removals[p - |prefix|] in removals;
      }
    }
    forall j: nat | Remove(j) in trace
      ensures Remove(j) in removals
    {
    }
    forall e | e in trace && e.Ask? && e.prompt.DeleteRunningKernel?
      ensures e in removals
    {
    }
  }

  /** The warning lines, in the order printed. */
  function WarnEvents(ws: seq<Warning>): (es: seq<Event>)
    ensures |es| == |ws|
    ensures forall p :: 0 <= p < |ws| ==> es[p] == Warn(ws[p])
  {
    seq(|ws|, p requires 0 <= p < |ws| => Warn(ws[p]))
  }

  /** What is printed before the batch question: warnings or "Keeping:" lines. */
  predicate Heading(head: seq<Event>)
  {
    forall p :: 0 <= p < |head| ==> head[p].Warn? || head[p].Keep?
  }

  /**
   * The batch question after `head`, answered by the first reply of `input`:
   * a refusal ends the trace, a yes runs the removal loop over `mask` on the
   * input left and then refreshes the boot loader.
   */
  function Decide(ks: seq<KernelRecord>, mask: seq<bool>, head: seq<Event>, input: string): seq<Event>
    requires |mask| == |ks|
  {
    var reply := Confirm(input);
    if reply.approved then Batch(ks, mask, head + [Ask(ProceedWithDeletion, true)], reply.rest)
    else head + [Ask(ProceedWithDeletion, false)]
  }

  /** A heading and its question form a quiet prefix with that one answer. */
  lemma HeadingQuiet(head: seq<Event>, approved: bool)
    requires Heading(head)
    ensures Quiet(head + [Ask(ProceedWithDeletion, approved)])
    ensures Opens(head + [Ask(ProceedWithDeletion, approved)], |head|, approved)
    ensures Answers(head + [Ask(ProceedWithDeletion, approved)]) == [approved]
  {
    AnswersNoAsk(head);
    AnswersAppend(head, [Ask(ProceedWithDeletion, approved)]);
  }

  /**
   * The heading stays in front, the batch question follows it with the
   * operator's answer, and no warning or "Keeping:" line comes after it.
   */
  lemma DecideLayout(ks: seq<KernelRecord>, mask: seq<bool>, head: seq<Event>, input: string)
    requires |mask| == |ks| && Heading(head)
    ensures |Decide(ks, mask, head, input)| > |head|
    ensures forall p :: 0 <= p < |head| ==> Decide(ks, mask, head, input)[p] == head[p]
    ensures Opens(Decide(ks, mask, head, input), |head|, Confirm(input).approved)
    ensures forall e :: e in Decide(ks, mask, head, input) && (e.Warn? || e.Keep?) ==> e in head
  {
    var approved := Confirm(input).approved;
    var prefix := head + [Ask(ProceedWithDeletion, approved)];
    var trace := Decide(ks, mask, head, input);
    HeadingQuiet(head, approved);
    if approved {
      BatchTrace(ks, mask, prefix, Confirm(input).rest);
    }
    forall e | e in trace && (e.Warn? || e.Keep?)
      ensures e in head
    {
      var p :| 0 <= p < |trace| && trace[p] == e;
      assert p < |head|;
    }
  }

  /**
   * Nothing is removed unless the batch is confirmed; then every marked
   * kernel that is not running is removed, a running one exactly when its
   * own question is answered yes, all in ascending order, and the single
   * refresh comes last.
   */
  lemma DecideRemovals(ks: seq<KernelRecord>, mask: seq<bool>, head: seq<Event>, input: string)
    requires |mask| == |ks| && Heading(head)
    ensures forall j: nat :: Remove(j) in Decide(ks, mask, head, input) ==> Confirm(input).approved && j < |ks| && mask[j]
    ensures Confirm(input).approved ==>
              forall j :: 0 <= j < |ks| && mask[j] && !ks[j].running ==> Remove(j) in Decide(ks, mask, head, input)
    ensures RunningGuarded(ks, mask, Decide(ks, mask, head, input))
    ensures Confirm(input).approved ==> RunningAsked(ks, mask, Decide(ks, mask, head, input))
    ensures Ascending(Decide(ks, mask, head, input))
    ensures UpdateGrub in Decide(ks, mask, head, input) <==> Confirm(input).approved
    ensures forall p :: 0 <= p < |Decide(ks, mask, head, input)| && Decide(ks, mask, head, input)[p] == UpdateGrub ==>
              p == |Decide(ks, mask, head, input)| - 1
  {
    var approved := Confirm(input).approved;
    var prefix := head + [Ask(ProceedWithDeletion, approved)];
    HeadingQuiet(head, approved);
    if approved {
      BatchTrace(ks, mask, prefix, Confirm(input).rest);
    } else {
      QuietGuarded(ks, mask, prefix);
      assert forall p :: 0 <= p < |prefix| ==> prefix[p] != UpdateGrub;
    }
  }

  /**
   * The answers recorded are successive replies of `input`: the batch
   * question takes the first, and after a yes each marked running kernel's
   * question takes the next.
   */
  lemma DecideAnswers(ks: seq<KernelRecord>, mask: seq<bool>, head: seq<Event>, input: string)
    requires |mask| == |ks| && Heading(head)
    ensures Answers(Decide(ks, mask, head, input))
            == Dialogue(input, Replies(ks, mask, Confirm(input).approved)).0
  {
    var approved := Confirm(input).approved;
    HeadingQuiet(head, approved);
    if approved {
      var m := RunningMarkedFrom(ks, mask, 0);
      BatchAnswers(ks, mask, head + [Ask(ProceedWithDeletion, true)], Confirm(input).rest);
      assert Answers(Decide(ks, mask, head, input)) == [true] + Dialogue(Confirm(input).rest, m).0;
      DialogueFirst(input, m);
      assert Replies(ks, mask, approved) == 1 + m;
    } else {
      DialogueFirst(input, 0);
      assert Replies(ks, mask, approved) == 1;
    }
  }

  /** The answers of a confirmed batch: the prefix's, then one reply per marked running kernel. */
  lemma BatchAnswers(ks: seq<KernelRecord>, mask: seq<bool>, prefix: seq<Event>, input: string)
    requires |mask| == |ks|
    ensures Answers(Batch(ks, mask, prefix, input)) == Answers(prefix) + Dialogue(input, RunningMarkedFrom(ks, mask, 0)).0
  {
    var removals := DeleteMarked(ks, mask, 0, input).events;
    DeleteMarkedConsumes(ks, mask, 0, input);
    AnswersAppend(prefix, removals);
    AnswersAppend(prefix + removals, [UpdateGrub]);
  }

  /**
   * Whatever the replies, the trace keeps the loop's order: kernels by
   * ascending index, and a running kernel removed only right after its own
   * question was answered yes.
   */
  lemma DecideOrder(ks: seq<KernelRecord>, mask: seq<bool>, head: seq<Event>, input: string)
    requires |mask| == |ks| && Heading(head)
    ensures LoopOrder(Decide(ks, mask, head, input))
    ensures AskedFirst(ks, Decide(ks, mask, head, input))
  {
    var approved := Confirm(input).approved;
    HeadingQuiet(head, approved);
    if approved {
      BatchOrder(ks, mask, head + [Ask(ProceedWithDeletion, true)], Confirm(input).rest);
    } else {
      QuietOrder(ks, head + [Ask(ProceedWithDeletion, false)]);
    }
  }

  /**
   * How many replies a batch reads: one for the batch question and, after
   * a yes, one for each marked running kernel's own question.
   */
  function Replies(ks: seq<KernelRecord>, mask: seq<bool>, approved: bool): (r: nat)
    requires |mask| == |ks|
    ensures !approved ==> r == 1
    ensures approved ==> 1 <= r <= 1 + |ks|
  {
    if approved then 1 + RunningMarkedFrom(ks, mask, 0) else 1
  }

  /** How a delete or auto-clean request ends. */
  datatype Outcome =
    | NotPrivileged
    | Rejected(error: ParseError)
    | NothingSelected
    | TooFewKernels
    | Cancelled
    | Completed

  /** The request reached the batch question. */
  predicate Asked(o: Outcome)
  {
    o.Completed? || o.Cancelled?
  }

  /**
   * The tail of delete_kernels for a non-empty classification: the warnings,
   * the batch question, and on an affirmative reply the removal loop
   * followed by the boot-loader refresh.
   */
  method ConfirmAndRemove(ks: seq<KernelRecord>, c: Classification, input: string)
    returns (approved: bool, trace: seq<Event>)
    requires Summarises(ks, c) && c.deleteCount > 0
    ensures approved == Confirm(input).approved
    ensures |trace| > |Warnings(c)|
    ensures forall p :: 0 <= p < |Warnings(c)| ==> trace[p] == Warn(Warnings(c)[p])
    ensures Opens(trace, |Warnings(c)|, approved)
    ensures forall j: nat :: Remove(j) in trace ==> approved && j < |ks| && c.marked[j]
    ensures approved ==> forall j :: 0 <= j < |ks| && c.marked[j] && !ks[j].running ==> Remove(j) in trace
    ensures RunningGuarded(ks, c.marked, trace)
    ensures approved ==> RunningAsked(ks, c.marked, trace)
    ensures Answers(trace) == Dialogue(input, Replies(ks, c.marked, approved)).0
    ensures Ascending(trace)
    ensures LoopOrder(trace)
    ensures AskedFirst(ks, trace)
    ensures UpdateGrub in trace <==> approved
    ensures forall p :: 0 <= p < |trace| && trace[p] == UpdateGrub ==> p == |trace| - 1
  {
    var head := WarnEvents(Warnings(c));
    approved := Confirm(input).approved;
    trace := Decide(ks, c.marked, head, input);
    DecideLayout(ks, c.marked, head, input);
    DecideRemovals(ks, c.marked, head, input);
    DecideAnswers(ks, c.marked, head, input);
    DecideOrder(ks, c.marked, head, input);
  }

  /**
   * What follows a successful parse: an empty mask stops with "nothing
   * selected" and no question; otherwise the batch is put to the operator.
   */
  method DecideBatch(ks: seq<KernelRecord>, c: Classification, input: string)
    returns (outcome: Outcome, trace: seq<Event>)
    requires Summarises(ks, c)
    ensures outcome == NothingSelected <==> forall i :: 0 <= i < |ks| ==> !c.marked[i]
    ensures outcome == NothingSelected || Asked(outcome)
    ensures !Asked(outcome) ==> trace == []
    ensures outcome == Completed <==> Asked(outcome) && Confirm(input).approved
    ensures Asked(outcome) ==>
              (Warn(RunningKernelIncluded) in trace <==> exists i :: 0 <= i < |ks| && c.marked[i] && ks[i].running)
    ensures Asked(outcome) ==>
              (Warn(AllKernelsIncluded) in trace <==> forall i :: 0 <= i < |ks| ==> c.marked[i])
    ensures Asked(outcome) ==> |trace| > |Warnings(c)|
    ensures Asked(outcome) ==> forall p :: 0 <= p < |Warnings(c)| ==> trace[p] == Warn(Warnings(c)[p])
    ensures Asked(outcome) ==> Opens(trace, |Warnings(c)|, outcome == Completed)
    ensures forall j: nat :: Remove(j) in trace ==> outcome == Completed && j < |ks| && c.marked[j]
    ensures outcome == Completed ==>
              forall j :: 0 <= j < |ks| && c.marked[j] && !ks[j].running ==> Remove(j) in trace
    ensures RunningGuarded(ks, c.marked, trace)
    ensures outcome == Completed ==> RunningAsked(ks, c.marked, trace)
    ensures Asked(outcome) ==>
              Answers(trace) == Dialogue(input, Replies(ks, c.marked, outcome == Completed)).0
    ensures Ascending(trace)
    ensures LoopOrder(trace)
    ensures AskedFirst(ks, trace)
    ensures UpdateGrub in trace <==> outcome == Completed
    ensures forall p :: 0 <= p < |trace| && trace[p] == UpdateGrub ==> p == |trace| - 1
  {
    CountMarkedBounds(c.marked);
    if c.deleteCount == 0 {
      QuietGuarded(ks, c.marked, []);
      return NothingSelected, [];
    }
    var approved;
    approved, trace := ConfirmAndRemove(ks, c, input);
    WarningsMeaning(ks, c);
    WarnedInTrace(c, trace, approved);
    outcome := if approved then Completed else Cancelled;
  }

  /**
   * delete_kernels with the operator's privilege and input as parameters.
   * The privilege check comes first; a refused selection and an empty one
   * stop before any question; otherwise the warnings are printed, the batch
   * question is asked, and only an affirmative reply starts the removal loop,
   * which is followed by exactly one boot-loader refresh.
   */
  method DeleteKernels(ks: seq<KernelRecord>, sel: string, privileged: bool, input: string)
    returns (outcome: Outcome, trace: seq<Event>)
    ensures outcome == NotPrivileged <==> !privileged
    ensures privileged && Select(sel, |ks|).Err? ==> outcome == Rejected(Select(sel, |ks|).error)
    ensures outcome == NothingSelected <==>
              privileged && Select(sel, |ks|).Ok? && forall i :: 0 <= i < |ks| ==> !Select(sel, |ks|).value[i]
    ensures !Asked(outcome) ==> trace == []
    ensures Asked(outcome) ==> privileged && Select(sel, |ks|).Ok?
    ensures outcome == Completed <==> Asked(outcome) && Confirm(input).approved
    ensures Asked(outcome) ==>
              (Warn(RunningKernelIncluded) in trace <==>
                 exists i :: 0 <= i < |ks| && Select(sel, |ks|).value[i] && ks[i].running)
    ensures Asked(outcome) ==>
              (Warn(AllKernelsIncluded) in trace <==> forall i :: 0 <= i < |ks| ==> Select(sel, |ks|).value[i])
    ensures privileged && Select(sel, |ks|).Ok? && (exists i :: 0 <= i < |ks| && Select(sel, |ks|).value[i]) ==>
              Asked(outcome)
    ensures outcome.Rejected? ==> privileged && Select(sel, |ks|).Err?
    ensures !outcome.TooFewKernels?
    ensures Asked(outcome) ==> |trace| > |MaskWarnings(ks, Select(sel, |ks|).value)|
    ensures Asked(outcome) ==>
              forall p :: 0 <= p < |MaskWarnings(ks, Select(sel, |ks|).value)| ==>
                trace[p] == Warn(MaskWarnings(ks, Select(sel, |ks|).value)[p])
    ensures Asked(outcome) ==> Opens(trace, |MaskWarnings(ks, Select(sel, |ks|).value)|, outcome == Completed)
    ensures forall j: nat :: Remove(j) in trace ==> outcome == Completed && j < |ks| && Select(sel, |ks|).value[j]
    ensures outcome == Completed ==>
              forall j :: 0 <= j < |ks| && Select(sel, |ks|).value[j] && !ks[j].running ==> Remove(j) in trace
    ensures Asked(outcome) ==> RunningGuarded(ks, Select(sel, |ks|).value, trace)
    ensures !Asked(outcome) ==> Answers(trace) == []
    ensures outcome == Completed ==> RunningAsked(ks, Select(sel, |ks|).value, trace)
    ensures Asked(outcome) ==>
              Answers(trace) == Dialogue(input, Replies(ks, Select(sel, |ks|).value, outcome == Completed)).0
    ensures Ascending(trace)
    ensures LoopOrder(trace)
    ensures AskedFirst(ks, trace)
    ensures UpdateGrub in trace <==> outcome == Completed
    ensures forall p :: 0 <= p < |trace| && trace[p] == UpdateGrub ==> p == |trace| - 1
  {
    if !privileged {
      return NotPrivileged, [];
    }
    var classified := Classify(ks, sel);
    if classified.Err? {
      return Rejected(classified.error), [];
    }
    outcome, trace := DecideBatch(ks, classified.value, input);
    WarningsOfMask(ks, classified.value);
  }

  /** A warning event of the trace is one of the classification's warnings. */
  lemma WarnedInTrace(c: Classification, trace: seq<Event>, approved: bool)
    requires |trace| > |Warnings(c)|
    requires forall p :: 0 <= p < |Warnings(c)| ==> trace[p] == Warn(Warnings(c)[p])
    requires Opens(trace, |Warnings(c)|, approved)
    ensures forall w :: Warn(w) in trace <==> w in Warnings(c)
  {
    var ws := Warnings(c);
    forall w
      ensures Warn(w) in trace <==> w in ws
    {
      if w in ws {
        var p :| 0 <= p < |ws| && ws[p] == w;
        assert trace[p] == Warn(w);
      }
      if Warn(w) in trace {
        var p :| 0 <= p < |trace| && trace[p] == Warn(w);
        assert p < |ws|;
        assert ws[p] == w;
      }
    }
  }
}
