/**
 * The selection language of `kcleaner -d` (delete_kernels in kcleaner.c):
 * comma-separated tokens, each a 1-based kernel number `n` or an inclusive
 * range `a-b`, turned into a deletion mask over the kernel table.
 */
module Selection {
  import opened Basics
  import opened Kernels

  /** Why a selection was refused; each names what the tool prints. */
  datatype ParseError =
    | InvalidCharacter(c: char)     // a character outside digits, ',' and '-'
    | InvalidRange(token: string)   // a token holding '-' whose bounds fail the check
    | InvalidNumber(token: string)  // a bare token outside 1..kernel_count

  /** An accepted token: the 1-based inclusive bounds it marks. */
  datatype Span = Span(first: int, last: int)

  /** `is_digit_or_separator`: `isdigit` in the C locale, ',' or '-'. */
  predicate IsSelectionChar(c: char)
  {
    '0' <= c <= '9' || c == ',' || c == '-'
  }

  predicate IsDigit(c: char)
  {
    '0' <= c <= '9'
  }

  // ---------------------------------------------------------------------------
  // Character filter
  // ---------------------------------------------------------------------------

  /** Every character of `s` passes `is_digit_or_separator`. */
  predicate AllSelectionChars(s: string)
  {
    forall i :: 0 <= i < |s| ==> IsSelectionChar(s[i])
  }

  lemma AllSelectionCharsJoin(a: string, b: string)
    ensures AllSelectionChars(a + "," + b) <==> AllSelectionChars(a) && AllSelectionChars(b)
  {
    var s := a + "," + b;
    assert forall i :: 0 <= i < |a| ==> s[i] == a[i];
    assert forall i :: 0 <= i < |b| ==> s[|a| + 1 + i] == b[i];
    if AllSelectionChars(a) && AllSelectionChars(b) {
      forall i | 0 <= i < |s|
        ensures IsSelectionChar(s[i])
      {
        if i > |a| {
          assert s[i] == b[i - |a| - 1];
        }
      }
    }
  }

  /** Index of the first character of `s` outside the selection alphabet, if any. */
  function FirstInvalid(s: string): (r: Option<nat>)
    ensures r.None? <==> AllSelectionChars(s)
    ensures r.Some? ==> r.value < |s| && !IsSelectionChar(s[r.value])
    ensures r.Some? ==> forall i :: 0 <= i < r.value ==> IsSelectionChar(s[i])
  {
    if |s| == 0 then None
    else if !IsSelectionChar(s[0]) then Some(0)
    else
      match FirstInvalid(s[1..])
      case None => None
      case Some(k) => Some(k + 1)
  }

  // ---------------------------------------------------------------------------
  // Tokens (strtok on ",")
  // ---------------------------------------------------------------------------

  /**
   * The tokens `strtok(s, ",")` yields: the maximal comma-free runs of `s`,
   * so empty tokens between adjacent commas vanish.
   */
  function Tokens(s: string): (ts: seq<string>)
    ensures forall t :: t in ts ==> |t| > 0 && ',' !in t
    decreases |s|
  {
    if |s| == 0 then []
    else
      var k := IndexOf(s, ',');
      (if k == 0 then [] else [s[..k]]) + (if k == |s| then [] else Tokens(s[k + 1..]))
  }

  /** The first `c` of `a + rest` is the first of `a`, or lies in `rest` when `a` has none. */
  lemma {:induction false} IndexOfAppend(a: string, rest: string, c: char)
    ensures IndexOf(a, c) < |a| ==> IndexOf(a + rest, c) == IndexOf(a, c)
    ensures IndexOf(a, c) == |a| ==> IndexOf(a + rest, c) == |a| + IndexOf(rest, c)
  {
    if |a| > 0 && a[0] != c {
      assert (a + rest)[1..] == a[1..] + rest;
      IndexOfAppend(a[1..], rest, c);
    } else if |a| == 0 {
      assert a + rest == rest;
    }
  }

  /** One step of Tokens: the run before the first comma, then the tokens after it. */
  lemma TokensStep(s: string, k: nat)
    requires k < |s| && IndexOf(s, ',') == k
    ensures Tokens(s) == (if k == 0 then [] else [s[..k]]) + Tokens(s[k + 1..])
  {
  }

  /** A comma after a comma-free `a` closes exactly the token `a` (none when `a` is empty). */
  lemma TokensAfterRun(a: string, b: string)
    requires IndexOf(a, ',') == |a|
    ensures Tokens(a + "," + b) == Tokens(a) + Tokens(b)
  {
    var s := a + "," + b;
    IndexOfAppend(a, "," + b, ',');
    assert s == a + ("," + b);
    assert s[..|a|] == a;
    assert s[|a| + 1..] == b;
    TokensStep(s, |a|);
    if |a| > 0 {
      TokensOfCommaFree(a);
    }
  }

  /**
   * When `a` holds a comma at `k`, the tokens of `a + "," + b` and of `a`
   * both begin with the run before `k` and go on from just after it.
   */
  lemma TokensAfterComma(a: string, b: string, k: nat)
    requires k < |a| && IndexOf(a, ',') == k
    ensures Tokens(a + "," + b) == (if k == 0 then [] else [a[..k]]) + Tokens(a[k + 1..] + "," + b)
    ensures Tokens(a) == (if k == 0 then [] else [a[..k]]) + Tokens(a[k + 1..])
  {
    var s := a + "," + b;
    IndexOfAppend(a, "," + b, ',');
    assert s == a + ("," + b);
    assert s[..k] == a[..k];
    assert s[k + 1..] == a[k + 1..] + "," + b;
    TokensStep(s, k);
    TokensStep(a, k);
  }

  /** Sequence concatenation regroups freely. */
  lemma ConcatAssoc<T>(x: seq<T>, y: seq<T>, z: seq<T>)
    ensures x + (y + z) == (x + y) + z
  {
  }

  /** Splitting at a comma splits the token list: `strtok` never joins across a ','. */
  lemma {:induction false} TokensSplit(a: string, b: string)
    ensures Tokens(a + "," + b) == Tokens(a) + Tokens(b)
    decreases |a|
  {
    var k := IndexOf(a, ',');
    if k == |a| {
      TokensAfterRun(a, b);
    } else {
      var head: seq<string> := if k == 0 then [] else [a[..k]];
      var rest := a[k + 1..];
      TokensAfterComma(a, b, k);
      TokensSplit(rest, b);
      ConcatAssoc(head, Tokens(rest), Tokens(b));
    }
  }

  /** Whatever comes out of Tokens is a run of the input: no token contains a comma. */
  lemma {:induction false} TokensOfCommaFree(t: string)
    requires |t| > 0 && ',' !in t
    ensures Tokens(t) == [t]
  {
    assert IndexOf(t, ',') == |t|;
    assert t[..|t|] == t;
  }

  /** A string of commas only (or nothing at all) yields no token. */
  lemma {:induction false} TokensOfCommas(s: string)
    requires forall i :: 0 <= i < |s| ==> s[i] == ','
    ensures Tokens(s) == []
    decreases |s|
  {
    if |s| > 0 {
      assert IndexOf(s, ',') == 0;
      TokensOfCommas(s[1..]);
    }
  }

  // ---------------------------------------------------------------------------
  // Numbers (atoi)
  // ---------------------------------------------------------------------------

  function DigitValue(c: char): nat
    requires IsDigit(c)
  {
    c as int - '0' as int
  }

  /** Value of a string of decimal digits. */
  function DigitsValue(d: string): nat
    requires forall i :: 0 <= i < |d| ==> IsDigit(d[i])
  {
    if |d| == 0 then 0
    else 10 * DigitsValue(d[..|d| - 1]) + DigitValue(d[|d| - 1])
  }

  /** Length of the run of digits `s` starts with. */
  function DigitRun(s: string): (k: nat)
    ensures k <= |s|
    ensures forall i :: 0 <= i < k ==> IsDigit(s[i])
    ensures k < |s| ==> !IsDigit(s[k])
  {
    if |s| == 0 || !IsDigit(s[0]) then 0 else 1 + DigitRun(s[1..])
  }

  /**
   * `atoi` on a string over the selection alphabet: an optional '-' sign,
   * then the value of the leading digit run, 0 when there is none.
   */
  function Atoi(s: string): int
  {
    if |s| > 0 && s[0] == '-' then
      var d := s[1..][..DigitRun(s[1..])];
      -(DigitsValue(d) as int)
    else
      DigitsValue(s[..DigitRun(s)])
  }

  // ---------------------------------------------------------------------------
  // One token
  // ---------------------------------------------------------------------------

  /**
   * One token against a table of `n` kernels. A token holding '-' is split at
   * its first '-' and read as the range start-end; otherwise it is a bare
   * number. Out-of-range or inverted tokens are refused.
   */
  function ParseToken(tok: string, n: nat): (r: Result<Span, ParseError>)
    ensures r.Ok? ==> 1 <= r.value.first <= r.value.last <= n
    ensures r.Err? ==> r.error == InvalidRange(tok) || r.error == InvalidNumber(tok)
  {
    var k := IndexOf(tok, '-');
    if k < |tok| then
      var start := Atoi(tok[..k]);
      var end := Atoi(tok[k + 1..]);
      if start < 1 || end > n || start > end then Err(InvalidRange(tok))
      else Ok(Span(start, end))
    else
      var num := Atoi(tok);
      if num < 1 || num > n then Err(InvalidNumber(tok))
      else Ok(Span(num, num))
  }

  /** A bare token `d` is accepted iff 1 <= atoi(d) <= n, and then marks that number alone. */
  lemma BareToken(d: string, n: nat)
    requires '-' !in d
    ensures ParseToken(d, n).Ok? <==> 1 <= Atoi(d) <= n
    ensures ParseToken(d, n).Ok? ==> ParseToken(d, n).value == Span(Atoi(d), Atoi(d))
    ensures ParseToken(d, n).Err? ==> ParseToken(d, n).error == InvalidNumber(d)
  {
    assert IndexOf(d, '-') == |d|;
  }

  /**
   * A token `a-b` (split at its first '-') is accepted iff
   * 1 <= atoi(a) <= atoi(b) <= n, and then marks exactly that range.
   */
  lemma RangeToken(a: string, b: string, n: nat)
    requires '-' !in a
    ensures ParseToken(a + "-" + b, n).Ok? <==> 1 <= Atoi(a) <= Atoi(b) <= n
    ensures ParseToken(a + "-" + b, n).Ok? ==> ParseToken(a + "-" + b, n).value == Span(Atoi(a), Atoi(b))
    ensures ParseToken(a + "-" + b, n).Err? ==> ParseToken(a + "-" + b, n).error == InvalidRange(a + "-" + b)
  {
    var tok := a + "-" + b;
    assert IndexOf(tok, '-') == |a| by {
      assert tok[|a|] == '-';
      assert forall i :: 0 <= i < |a| ==> tok[i] == a[i];
    }
    assert tok[..|a|] == a;
    assert tok[|a| + 1..] == b;
  }

  /** atoi of a single digit followed by a non-digit (or nothing) is that digit. */
  lemma AtoiOneDigit(c: char, rest: string)
    requires IsDigit(c)
    requires |rest| == 0 || !IsDigit(rest[0])
    ensures Atoi([c] + rest) == DigitValue(c)
  {
    var s := [c] + rest;
    assert s[1..] == rest;
    assert DigitRun(s) == 1;
    assert s[..1] == [c];
    assert [c][..0] == [];
    assert DigitsValue([c]) == 10 * DigitsValue([]) + DigitValue(c);
    assert Atoi(s) == DigitsValue(s[..DigitRun(s)]);
  }

  /** "-3": atoi of the empty start is 0, so the range is refused. */
  lemma LeadingDashRefused(n: nat)
    ensures ParseToken("-3", n) == Err(InvalidRange("-3"))
  {
    RangeToken("", "3", n);
    assert "" + "-" + "3" == "-3";
  }

  /** "3-": atoi of the empty end is 0, so the range is refused. */
  lemma TrailingDashRefused(n: nat)
    ensures ParseToken("3-", n) == Err(InvalidRange("3-"))
  {
    RangeToken("3", "", n);
    assert "3" + "-" + "" == "3-";
    AtoiOneDigit('3', "");
    assert ['3'] + "" == "3";
  }

  /** "1-2-3": the end is read by atoi from "2-3", which stops at the second '-'. */
  lemma SecondDashIgnored(n: nat)
    requires n >= 2
    ensures ParseToken("1-2-3", n) == Ok(Span(1, 2))
  {
    RangeToken("1", "2-3", n);
    assert "1" + "-" + "2-3" == "1-2-3";
    AtoiOneDigit('1', "");
    AtoiOneDigit('2', "-3");
    assert ['1'] + "" == "1" && ['2'] + "-3" == "2-3";
  }

  // ---------------------------------------------------------------------------
  // The whole selection
  // ---------------------------------------------------------------------------

  /** Kernel index `i` (0-based) lies in the span an accepted token marks. */
  predicate Covers(tok: string, n: nat, i: int)
  {
    ParseToken(tok, n).Ok? && ParseToken(tok, n).value.first <= i + 1 <= ParseToken(tok, n).value.last
  }

  /** Every token is accepted against `n` kernels. */
  predicate AllAccepted(toks: seq<string>, n: nat)
  {
    forall t :: t in toks ==> ParseToken(t, n).Ok?
  }

  /** Some token marks 0-based index `i`. */
  predicate SomeTokenCovers(toks: seq<string>, n: nat, i: int)
  {
    exists t :: t in toks && Covers(t, n, i)
  }

  /** `m` with every index of `s` (1-based, inclusive) marked; marked stays marked. */
  function Mark(m: seq<bool>, s: Span): (r: seq<bool>)
    ensures |r| == |m|
    ensures forall i :: 0 <= i < |m| ==> (r[i] <==> m[i] || s.first <= i + 1 <= s.last)
  {
    seq(|m|, i requires 0 <= i < |m| => m[i] || s.first <= i + 1 <= s.last)
  }

  /**
   * The token loop: tokens are applied in order to the mask; the first
   * refused token aborts the whole request and its error is reported.
   */
  function ApplyTokens(toks: seq<string>, n: nat, m: seq<bool>): (r: Result<seq<bool>, ParseError>)
    requires |m| == n
    ensures r.Ok? <==> AllAccepted(toks, n)
    ensures r.Ok? ==> |r.value| == n
    ensures r.Ok? ==> forall i :: 0 <= i < n ==> (r.value[i] <==> m[i] || SomeTokenCovers(toks, n, i))
    ensures r.Err? ==> exists j :: 0 <= j < |toks| && ParseToken(toks[j], n) == Err(r.error)
                          && forall l :: 0 <= l < j ==> ParseToken(toks[l], n).Ok?
    decreases |toks|
  {
    if |toks| == 0 then Ok(m)
    else
      match ParseToken(toks[0], n)
      case Err(e) => Err(e)
      case Ok(span) =>
        var r := ApplyTokens(toks[1..], n, Mark(m, span));
        assert forall t :: t in toks <==> t == toks[0] || t in toks[1..];
        assert forall i :: 0 <= i < n ==> (Covers(toks[0], n, i) <==> span.first <= i + 1 <= span.last);
        if r.Err? then
          var j :| 0 <= j < |toks[1..]| && ParseToken(toks[1..][j], n) == Err(r.error)
                    && forall l :: 0 <= l < j ==> ParseToken(toks[1..][l], n).Ok?;
          assert ParseToken(toks[j + 1], n) == Err(r.error);
          r
        else
          assert forall i :: 0 <= i < n ==>
            (SomeTokenCovers(toks, n, i) <==> Covers(toks[0], n, i) || SomeTokenCovers(toks[1..], n, i));
          r
  }

  /**
   * delete_kernels' parse of `sel` against `n` kernels: the character filter
   * runs over the whole string before any token is looked at; then every
   * token must be accepted. On success the mask marks index i (0-based)
   * exactly when some token covers kernel number i + 1.
   */
  function Select(sel: string, n: nat): (r: Result<seq<bool>, ParseError>)
    ensures FirstInvalid(sel).Some? ==> r == Err(InvalidCharacter(sel[FirstInvalid(sel).value]))
    ensures r.Ok? <==> AllSelectionChars(sel) && AllAccepted(Tokens(sel), n)
    ensures r.Ok? ==> |r.value| == n
    ensures r.Ok? ==> forall i :: 0 <= i < n ==> (r.value[i] <==> SomeTokenCovers(Tokens(sel), n, i))
    ensures AllSelectionChars(sel) && r.Err? ==>
              exists j :: 0 <= j < |Tokens(sel)| && ParseToken(Tokens(sel)[j], n) == Err(r.error)
                          && forall l :: 0 <= l < j ==> ParseToken(Tokens(sel)[l], n).Ok?
  {
    match FirstInvalid(sel)
    case Some(k) => Err(InvalidCharacter(sel[k]))
    case None => ApplyTokens(Tokens(sel), n, Unmarked(n))
  }

  /**
   * Joining two selections with ',' is the union of their masks; if either
   * part is refused so is the whole, whatever the other part selected.
   */
  lemma SelectUnion(a: string, b: string, n: nat)
    ensures Select(a + "," + b, n).Ok? <==> Select(a, n).Ok? && Select(b, n).Ok?
    ensures Select(a + "," + b, n).Ok? ==>
      forall i :: 0 <= i < n ==>
        (Select(a + "," + b, n).value[i] <==> Select(a, n).value[i] || Select(b, n).value[i])
  {
    var s := a + "," + b;
    TokensSplit(a, b);
    AllSelectionCharsJoin(a, b);
    var ts, ta, tb := Tokens(s), Tokens(a), Tokens(b);
    assert forall t :: t in ts <==> t in ta || t in tb;
    assert AllAccepted(ts, n) <==> AllAccepted(ta, n) && AllAccepted(tb, n);
    assert forall i :: SomeTokenCovers(ts, n, i) <==> SomeTokenCovers(ta, n, i) || SomeTokenCovers(tb, n, i);
  }

  /** A selection holding a single token is accepted iff that token is. */
  lemma SelectOneToken(t: string, n: nat)
    requires |t| > 0 && ',' !in t && AllSelectionChars(t)
    ensures Select(t, n).Ok? <==> ParseToken(t, n).Ok?
    ensures Select(t, n).Ok? ==> forall i :: 0 <= i < n ==> (Select(t, n).value[i] <==> Covers(t, n, i))
  {
    TokensOfCommaFree(t);
    assert forall x :: x in [t] <==> x == t;
  }

  predicate AllDigits(s: string)
  {
    forall i :: 0 <= i < |s| ==> IsDigit(s[i])
  }

  /** A digit string joined to another by '-' or ',' stays within the selection alphabet. */
  lemma JoinDigits(a: string, sep: char, b: string)
    requires AllDigits(a) && AllDigits(b) && (sep == '-' || sep == ',')
    ensures AllSelectionChars(a + [sep] + b)
    ensures sep == '-' ==> ',' !in a + [sep] + b
    ensures '-' !in a && ',' !in a
  {
    var s := a + [sep] + b;
    forall i | 0 <= i < |s|
      ensures IsSelectionChar(s[i]) && (sep == '-' ==> s[i] != ',')
    {
      if i < |a| {
        assert s[i] == a[i];
      } else if i > |a| {
        assert s[i] == b[i - |a| - 1];
      }
    }
  }

  /** Accepting a digit token: 1 <= its value <= n, marking that kernel alone. */
  lemma SelectNumber(a: string, n: nat)
    requires |a| > 0 && AllDigits(a)
    ensures Select(a, n).Ok? <==> 1 <= Atoi(a) <= n
    ensures Select(a, n).Ok? ==> forall i :: 0 <= i < n ==> (Select(a, n).value[i] <==> i + 1 == Atoi(a))
  {
    JoinDigits(a, ',', "");
    SelectOneToken(a, n);
    BareToken(a, n);
  }

  /** Accepting a digit range `a-b`: 1 <= a <= b <= n, marking kernels a..b. */
  lemma SelectRange(a: string, b: string, n: nat)
    requires |a| > 0 && AllDigits(a) && AllDigits(b)
    ensures Select(a + "-" + b, n).Ok? <==> 1 <= Atoi(a) <= Atoi(b) <= n
    ensures Select(a + "-" + b, n).Ok? ==>
      forall i :: 0 <= i < n ==> (Select(a + "-" + b, n).value[i] <==> Atoi(a) <= i + 1 <= Atoi(b))
  {
    JoinDigits(a, '-', b);
    assert a + "-" + b == a + ['-'] + b;
    SelectOneToken(a + "-" + b, n);
    RangeToken(a, b, n);
  }

  /** "a,b" for consecutive numbers a, b: accepted iff both are, marking kernels a and a + 1. */
  lemma SelectConsecutive(a: string, b: string, n: nat)
    requires |a| > 0 && |b| > 0 && AllDigits(a) && AllDigits(b)
    requires Atoi(b) == Atoi(a) + 1
    ensures Select(a + "," + b, n).Ok? <==> 1 <= Atoi(a) && Atoi(b) <= n
    ensures Select(a + "," + b, n).Ok? ==>
      forall i :: 0 <= i < n ==> (Select(a + "," + b, n).value[i] <==> Atoi(a) <= i + 1 <= Atoi(b))
  {
    SelectNumber(a, n);
    SelectNumber(b, n);
    SelectUnion(a, b, n);
  }

  /** "a,a,b" for consecutive numbers a, b: accepted iff 1 <= a and b <= n, marking kernels a..b. */
  lemma SelectRepeatThenNext(a: string, b: string, n: nat)
    requires |a| > 0 && |b| > 0 && AllDigits(a) && AllDigits(b)
    requires Atoi(b) == Atoi(a) + 1
    ensures Select(a + "," + a + "," + b, n).Ok? <==> 1 <= Atoi(a) && Atoi(b) <= n
    ensures Select(a + "," + a + "," + b, n).Ok? ==>
      forall i :: 0 <= i < n ==> (Select(a + "," + a + "," + b, n).value[i] <==> Atoi(a) <= i + 1 <= Atoi(b))
  {
    var ab := a + "," + b;
    assert a + "," + a + "," + b == a + "," + ab;
    SelectNumber(a, n);
    SelectConsecutive(a, b, n);
    SelectUnion(a, ab, n);
  }

  /** Two accepted selections marking the same indices are the same result. */
  lemma SameMarks(x: Result<seq<bool>, ParseError>, y: Result<seq<bool>, ParseError>, n: nat)
    requires x.Ok? && y.Ok? && |x.value| == n && |y.value| == n
    requires forall i :: 0 <= i < n ==> (x.value[i] <==> y.value[i])
    ensures x == y
  {
    assert x.value == y.value;
  }

  /**
   * Tokens that repeat or overlap count once: for numbers a and b = a + 1,
   * "a,a,b" and "a-b" are accepted together and select the same kernels
   * ("1,1,2" and "1-2", say).
   */
  lemma DuplicatesCollapse(a: string, b: string, n: nat)
    requires |a| > 0 && |b| > 0 && AllDigits(a) && AllDigits(b)
    requires Atoi(b) == Atoi(a) + 1
    ensures Select(a + "," + a + "," + b, n).Ok? <==> Select(a + "-" + b, n).Ok?
    ensures Select(a + "," + a + "," + b, n).Ok? ==> Select(a + "," + a + "," + b, n) == Select(a + "-" + b, n)
  {
    SelectRepeatThenNext(a, b, n);
    SelectRange(a, b, n);
    if Select(a + "," + a + "," + b, n).Ok? {
      SameMarks(Select(a + "," + a + "," + b, n), Select(a + "-" + b, n), n);
    }
  }

  /** Repeating a whole selection changes nothing: "a,a" is accepted iff "a" is, with the same mask. */
  lemma SelectIdempotent(a: string, n: nat)
    ensures Select(a + "," + a, n).Ok? <==> Select(a, n).Ok?
    ensures Select(a, n).Ok? ==> Select(a + "," + a, n) == Select(a, n)
  {
    SelectUnion(a, a, n);
    if Select(a, n).Ok? {
      SameMarks(Select(a + "," + a, n), Select(a, n), n);
    }
  }

  /** The order of the parts does not matter: "a,b" and "b,a" are accepted together, with the same mask. */
  lemma SelectCommutes(a: string, b: string, n: nat)
    ensures Select(a + "," + b, n).Ok? <==> Select(b + "," + a, n).Ok?
    ensures Select(a + "," + b, n).Ok? ==> Select(a + "," + b, n) == Select(b + "," + a, n)
  {
    SelectUnion(a, b, n);
    SelectUnion(b, a, n);
    if Select(a + "," + b, n).Ok? {
      SameMarks(Select(a + "," + b, n), Select(b + "," + a, n), n);
    }
  }

  /** An empty or all-comma selection is accepted and marks nothing. */
  lemma EmptySelectionMarksNothing(sel: string, n: nat)
    requires forall i :: 0 <= i < |sel| ==> sel[i] == ','
    ensures Select(sel, n) == Ok(Unmarked(n))
  {
    TokensOfCommas(sel);
    assert FirstInvalid(sel).None?;
  }
}
