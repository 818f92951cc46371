/**
 * The operator's side of the dialogue (confirm_deletion in kcleaner.c).
 * Standard input is modelled as the text still unread; every prompt reads one
 * line of it with `fgets` into a 10-byte buffer.
 */
module Console {

  /** `fgets` into `char response[10]` keeps at most 9 characters of a reply. */
  const ReplyLimit: nat := 9

  /** The outcome of one prompt: the operator's decision and the input left unread. */
  datatype Reply = Reply(approved: bool, rest: string)

  /**
   * How many characters one `fgets` consumes when it may still store `room`
   * of them: through the first newline, never more than `room`, never past
   * the end of the input.
   */
  function ReadLength(input: string, room: nat): (k: nat)
    ensures k <= |input| && k <= room
    ensures |input| > 0 && room > 0 ==> k > 0
    ensures forall i :: 0 <= i < k - 1 ==> input[i] != '\n'
    ensures k < |input| && k < room ==> input[k - 1] == '\n'
  {
    if |input| == 0 || room == 0 then 0
    else if input[0] == '\n' then 1
    else 1 + ReadLength(input[1..], room - 1)
  }

  /**
   * One confirmation prompt. An exhausted input is a read failure; otherwise
   * one `fgets` line is consumed and its first character decides.
   */
  function Confirm(input: string): Reply
  {
    if |input| == 0 then Reply(false, input)
    else
      var k := ReadLength(input, ReplyLimit);
      Reply(input[0] == 'y' || input[0] == 'Y', input[k..])
  }

  /**
   * A reply of at most eight characters, which leaves room in the 10-byte
   * buffer for its newline and the terminator, is consumed whole, newline
   * included, and decided by its first character: "y" or "Yes" accept, an
   * empty line or "n" refuse. An exhausted input is a refusal.
   */
  lemma ConfirmLine(line: string, rest: string)
    requires '\n' !in line && |line| < ReplyLimit
    ensures Confirm(line + "\n" + rest) == Reply(|line| > 0 && (line[0] == 'y' || line[0] == 'Y'), rest)
    ensures Confirm("") == Reply(false, "")
  {
    var input := line + "\n" + rest;
    assert input[|line|] == '\n';
    assert forall i :: 0 <= i < |line| ==> input[i] == line[i];
    var k := ReadLength(input, ReplyLimit);
    assert k == |line| + 1;
    assert input[k..] == rest;
  }

  /** The decisions given to `k` successive prompts, and the input left afterwards. */
  function Dialogue(input: string, k: nat): (r: (seq<bool>, string))
    ensures |r.0| == k
  {
    if k == 0 then ([], input)
    else
      var first := Confirm(input);
      var more := Dialogue(first.rest, k - 1);
      ([first.approved] + more.0, more.1)
  }

  /** The first prompt takes the first reply, and the prompts after it read on from what that reply left. */
  lemma DialogueFirst(input: string, k: nat)
    ensures Dialogue(input, 1).0 == [Confirm(input).approved]
    ensures Dialogue(input, 1 + k).0 == [Confirm(input).approved] + Dialogue(Confirm(input).rest, k).0
  {
    assert Dialogue(Confirm(input).rest, 0).0 == [];
  }

  /** Answering a + b prompts is answering a prompts, then b more from what is left. */
  lemma {:induction false} DialogueSplit(input: string, a: nat, b: nat)
    ensures Dialogue(input, a + b).0 == Dialogue(input, a).0 + Dialogue(Dialogue(input, a).1, b).0
    ensures Dialogue(input, a + b).1 == Dialogue(Dialogue(input, a).1, b).1
  {
    if a == 0 {
      assert Dialogue(input, a).0 == [];
    } else {
      var first := Confirm(input);
      var x := Dialogue(first.rest, a - 1);
      var y := Dialogue(x.1, b);
      DialogueSplit(first.rest, a - 1, b);
      assert Dialogue(input, a) == ([first.approved] + x.0, x.1);
      assert Dialogue(input, a + b) == ([first.approved] + Dialogue(first.rest, a - 1 + b).0, Dialogue(first.rest, a - 1 + b).1);
      assert [first.approved] + (x.0 + y.0) == ([first.approved] + x.0) + y.0;
    }
  }

  /**
   * A long reply is not discarded: when the first nine characters hold no
   * newline, `fgets` stops there and the next prompt reads on from the tenth
   * character. "yes please" thus accepts one prompt and, through its leftover
   * "e", declines the next.
   */
  lemma LongReplySpills(input: string)
    requires |input| > ReplyLimit
    requires forall i :: 0 <= i < ReplyLimit ==> input[i] != '\n'
    ensures |Dialogue(input, 2).0| == 2
    ensures Dialogue(input, 2).0[1] <==> input[9] == 'y' || input[9] == 'Y'
  {
    assert ReadLength(input, ReplyLimit) == 9;
    assert Confirm(input).rest == input[9..];
    assert Dialogue(input, 2).0 == [Confirm(input).approved] + Dialogue(input[9..], 1).0;
  }
}
