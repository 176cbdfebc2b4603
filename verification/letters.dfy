/**
 `letter_feedback` of game/utils.py: the two-pass, duplicate-aware Wordle diff.
 `ReferenceMarks` states the result declaratively, position by position;
 `LetterFeedback` is the source's algorithm with its `Counter`, proved to compute it.
 */
module Letters {

  datatype LetterState = Correct | Present | Absent

  /** One `{"ch": ..., "state": ...}` entry. */
  datatype LetterMark = LetterMark(ch: char, state: LetterState)

  function Min(a: int, b: int): int { if a <= b then a else b }

  function Max0(a: int): int { if a > 0 then a else 0 }

  /** Pass one marks position `i` correct: the answer has the same letter there. */
  predicate CorrectAt(answer: string, guess: string, i: int)
    requires 0 <= i < |guess|
  {
    i < |answer| && guess[i] == answer[i]
  }

  /** Positions before `n` holding `c` that pass one marks correct. */
  function CorrectBefore(answer: string, guess: string, c: char, n: nat): nat
    requires n <= |guess|
  {
    if n == 0 then 0
    else
      var here := if guess[n - 1] == c && CorrectAt(answer, guess, n - 1) then 1 else 0;
      CorrectBefore(answer, guess, c, n - 1) + here
  }

  /** Positions before `n` holding `c` that pass one leaves open for pass two. */
  function OpenBefore(answer: string, guess: string, c: char, n: nat): nat
    requires n <= |guess|
  {
    if n == 0 then 0
    else
      var here := if guess[n - 1] == c && !CorrectAt(answer, guess, n - 1) then 1 else 0;
      OpenBefore(answer, guess, c, n - 1) + here
  }

  /** The copies of `c` in the answer not used up by correct positions. */
  function Budget(answer: string, guess: string, c: char): int {
    multiset(answer)[c] - CorrectBefore(answer, guess, c, |guess|)
  }

  /**
   The state of guess position `i`: correct when the letters agree there; otherwise
   present when fewer open occurrences of the same letter come before it than the
   answer has copies left over, and absent when they do not.
   */
  function ReferenceState(answer: string, guess: string, i: int): LetterState
    requires 0 <= i < |guess|
  {
    if CorrectAt(answer, guess, i) then Correct
    else if OpenBefore(answer, guess, guess[i], i) < Budget(answer, guess, guess[i]) then Present
    else Absent
  }

  function ReferenceMarks(answer: string, guess: string): (r: seq<LetterMark>)
    ensures |r| == |guess|
    ensures forall i :: 0 <= i < |guess| ==> r[i] == LetterMark(guess[i], ReferenceState(answer, guess, i))
  {
    seq(|guess|, i requires 0 <= i < |guess| => LetterMark(guess[i], ReferenceState(answer, guess, i)))
  }

  /** `cnt[c]` on a `Counter`: a missing letter counts zero. */
  function CountOf(cnt: map<char, int>, c: char): int {
    if c in cnt then cnt[c] else 0
  }

  /** `Counter(s)` */
  function Counter(s: string): (cnt: map<char, int>)
    ensures forall c :: CountOf(cnt, c) == multiset(s)[c]
  {
    map c | c in s :: multiset(s)[c]
  }

  /** Correct positions holding `c` use distinct copies of `c` in the answer. */
  lemma {:induction false} CorrectBeforeBound(answer: string, guess: string, c: char, n: nat)
    requires n <= |guess|
    ensures CorrectBefore(answer, guess, c, n) <= multiset(answer[..Min(n, |answer|)])[c]
  {
    if n > 0 {
      CorrectBeforeBound(answer, guess, c, n - 1);
      if n - 1 < |answer| {
        assert answer[..n] == answer[..n - 1] + [answer[n - 1]];
      }
    }
  }

  /** The counter never goes negative: pass one consumes no more copies than exist. */
  lemma BudgetNonNegative(answer: string, guess: string, c: char)
    ensures Budget(answer, guess, c) >= 0
  {
    CorrectBeforeBound(answer, guess, c, |guess|);
    assert answer[..Min(|guess|, |answer|)] + answer[Min(|guess|, |answer|)..] == answer;
  }

  /** What the first pass leaves behind at position `i`: correct or absent, never present. */
  predicate FirstPassMark(answer: string, guess: string, res: seq<LetterMark>, j: int)
    requires 0 <= j < |guess| && j < |res|
  {
    && res[j].ch == guess[j]
    && (res[j].state == Correct <==> CorrectAt(answer, guess, j))
    && res[j].state != Present
  }

  /** The first loop: mark the exact-position matches and take them out of the counter. */
  method CorrectPass(answer: string, guess: string) returns (res: seq<LetterMark>, cnt: map<char, int>)
    ensures |res| == |guess|
    ensures forall j :: 0 <= j < |guess| ==> FirstPassMark(answer, guess, res, j)
    ensures forall c :: CountOf(cnt, c) == Budget(answer, guess, c)
  {
    cnt := Counter(answer);
    res := [];
    var i := 0;
    while i < |guess|
      invariant 0 <= i <= |guess| && |res| == i
      invariant forall j :: 0 <= j < i ==> FirstPassMark(answer, guess, res, j)
      invariant forall c :: CountOf(cnt, c) == multiset(answer)[c] - CorrectBefore(answer, guess, c, i)
    {
      var ch := guess[i];
      var state := Absent;
      ghost var before, marks := cnt, res;
      if i < |answer| && ch == answer[i] {
        state := Correct;
        cnt := cnt[ch := CountOf(cnt, ch) - 1];
      }
      res := res + [LetterMark(ch, state)];
      forall j | 0 <= j <= i
        ensures FirstPassMark(answer, guess, res, j)
      {
        if j < i {
          assert res[j] == marks[j] && FirstPassMark(answer, guess, marks, j);
        }
      }
      forall c
        ensures CountOf(cnt, c) == multiset(answer)[c] - CorrectBefore(answer, guess, c, i + 1)
      {
        assert CountOf(before, c) == multiset(answer)[c] - CorrectBefore(answer, guess, c, i);
      }
      i := i + 1;
    }
  }

  /** The counter the second loop holds on reaching position `i`. */
  predicate SecondPassCounts(answer: string, guess: string, cnt: map<char, int>, i: nat)
    requires i <= |guess|
  {
    forall c :: CountOf(cnt, c) == Max0(Budget(answer, guess, c) - OpenBefore(answer, guess, c, i))
  }

  /** One step of the second loop keeps the counter in step with the open positions seen. */
  lemma SecondPassStep(answer: string, guess: string, i: nat, before: map<char, int>)
    requires i < |guess|
    requires SecondPassCounts(answer, guess, before, i)
    ensures var ch := guess[i];
      && (!CorrectAt(answer, guess, i) ==>
            (CountOf(before, ch) > 0 <==> ReferenceState(answer, guess, i) == Present))
      && SecondPassCounts(answer, guess,
           if !CorrectAt(answer, guess, i) && CountOf(before, ch) > 0
           then before[ch := CountOf(before, ch) - 1] else before,
           i + 1)
  {
    var ch := guess[i];
    var after := if !CorrectAt(answer, guess, i) && CountOf(before, ch) > 0
      then before[ch := CountOf(before, ch) - 1] else before;
    forall c
      ensures CountOf(after, c) == Max0(Budget(answer, guess, c) - OpenBefore(answer, guess, c, i + 1))
    {
      assert CountOf(before, c) == Max0(Budget(answer, guess, c) - OpenBefore(answer, guess, c, i));
    }
  }

  /** Positions before `i` hold their final marks; those from `i` on still hold pass-one marks. */
  predicate SecondPassMarks(answer: string, guess: string, res: seq<LetterMark>, i: nat)
    requires i <= |guess| == |res|
  {
    && (forall j :: 0 <= j < i ==> res[j] == LetterMark(guess[j], ReferenceState(answer, guess, j)))
    && (forall j :: i <= j < |guess| ==> FirstPassMark(answer, guess, res, j))
  }

  lemma SecondPassAdvance(answer: string, guess: string, res: seq<LetterMark>, i: nat, next: seq<LetterMark>)
    requires i < |guess| == |res|
    requires SecondPassMarks(answer, guess, res, i)
    requires next == res[i := LetterMark(guess[i], ReferenceState(answer, guess, i))]
    ensures SecondPassMarks(answer, guess, next, i + 1)
  {
    forall j | i < j < |guess|
      ensures FirstPassMark(answer, guess, next, j)
    {
      assert next[j] == res[j] && FirstPassMark(answer, guess, res, j);
    }
  }

  /** The second loop: hand the remaining copies out to the open positions, left to right. */
  method PresentPass(answer: string, guess: string, marks: seq<LetterMark>, counts: map<char, int>)
    returns (res: seq<LetterMark>)
    requires |marks| == |guess|
    requires forall j :: 0 <= j < |guess| ==> FirstPassMark(answer, guess, marks, j)
    requires forall c :: CountOf(counts, c) == Budget(answer, guess, c)
    ensures res == ReferenceMarks(answer, guess)
  {
    res := marks;
    var cnt := counts;
    forall c
      ensures CountOf(cnt, c) == Max0(Budget(answer, guess, c) - OpenBefore(answer, guess, c, 0))
    {
      BudgetNonNegative(answer, guess, c);
    }
    var i := 0;
    while i < |guess|
      invariant 0 <= i <= |guess| && |res| == |guess|
      invariant SecondPassMarks(answer, guess, res, i)
      invariant SecondPassCounts(answer, guess, cnt, i)
    {
      SecondPassStep(answer, guess, i, cnt);
      ghost var before := res;
      assert FirstPassMark(answer, guess, res, i);
      var ch := guess[i];
      if res[i].state != Correct {
        if CountOf(cnt, ch) > 0 {
          res := res[i := LetterMark(ch, Present)];
          cnt := cnt[ch := CountOf(cnt, ch) - 1];
        }
      }
      SecondPassAdvance(answer, guess, before, i, res);
      i := i + 1;
    }
  }

  /**
   `letter_feedback(answer, guess)`: one mark per guess letter, in order, correct
   exactly where the answer has the same letter at that position, and otherwise
   present or absent as the reference marks say.
   */
  method LetterFeedback(answer: string, guess: string) returns (res: seq<LetterMark>)
    ensures |res| == |guess|
    ensures forall i :: 0 <= i < |guess| ==>
      res[i].ch == guess[i] && (res[i].state == Correct <==> i < |answer| && guess[i] == answer[i])
    ensures res == ReferenceMarks(answer, guess)
  {
    var marks, cnt := CorrectPass(answer, guess);
    res := PresentPass(answer, guess, marks, cnt);
  }

  // ---------------------------------------------------------------------------
  // Properties of the marks

  /** Positions before `n` whose letter is `c` and whose state is not absent. */
  function MarkedBefore(marks: seq<LetterMark>, c: char, n: nat): nat
    requires n <= |marks|
  {
    if n == 0 then 0
    else
      var here := if marks[n - 1].ch == c && marks[n - 1].state != Absent then 1 else 0;
      MarkedBefore(marks, c, n - 1) + here
  }

  lemma {:induction false} MarkedSplit(answer: string, guess: string, c: char, n: nat)
    requires n <= |guess|
    requires Budget(answer, guess, c) >= 0
    ensures MarkedBefore(ReferenceMarks(answer, guess), c, n)
      == CorrectBefore(answer, guess, c, n) + Min(OpenBefore(answer, guess, c, n), Budget(answer, guess, c))
  {
    if n > 0 {
      MarkedSplit(answer, guess, c, n - 1);
      var marks := ReferenceMarks(answer, guess);
      var b := Budget(answer, guess, c);
      var o := OpenBefore(answer, guess, c, n - 1);
      var k := CorrectBefore(answer, guess, c, n - 1);
      var m := marks[n - 1];
      assert m == LetterMark(guess[n - 1], ReferenceState(answer, guess, n - 1));
      var here := if m.ch == c && m.state != Absent then 1 else 0;
      assert MarkedBefore(marks, c, n) == MarkedBefore(marks, c, n - 1) + here;
      if guess[n - 1] != c {
        assert here == 0;
        assert CorrectBefore(answer, guess, c, n) == k;
        assert OpenBefore(answer, guess, c, n) == o;
      } else if CorrectAt(answer, guess, n - 1) {
        assert here == 1;
        assert CorrectBefore(answer, guess, c, n) == k + 1;
        assert OpenBefore(answer, guess, c, n) == o;
      } else {
        assert CorrectBefore(answer, guess, c, n) == k;
        assert OpenBefore(answer, guess, c, n) == o + 1;
        assert here == 1 <==> o < b;
      }
    }
  }

  lemma {:induction false} GuessCount(answer: string, guess: string, c: char, n: nat)
    requires n <= |guess|
    ensures CorrectBefore(answer, guess, c, n) + OpenBefore(answer, guess, c, n) == multiset(guess[..n])[c]
  {
    if n > 0 {
      GuessCount(answer, guess, c, n - 1);
      assert guess[..n] == guess[..n - 1] + [guess[n - 1]];
    }
  }

  /**
   For every letter, the positions marked correct or present number exactly the
   smaller of its counts in the answer and in the guess, never more than the answer holds.
   */
  lemma LetterCounts(answer: string, guess: string, c: char)
    ensures MarkedBefore(ReferenceMarks(answer, guess), c, |guess|)
      == Min(multiset(answer)[c], multiset(guess)[c])
  {
    BudgetNonNegative(answer, guess, c);
    MarkedSplit(answer, guess, c, |guess|);
    GuessCount(answer, guess, c, |guess|);
    assert guess[..|guess|] == guess;
  }

  /** A guess letter the answer does not contain is always absent. */
  lemma AbsentUnlessInAnswer(answer: string, guess: string, i: int)
    requires 0 <= i < |guess| && guess[i] !in answer
    ensures ReferenceMarks(answer, guess)[i].state == Absent
  {
    BudgetNonNegative(answer, guess, guess[i]);
    if i < |answer| {
      assert answer[i] in answer;
    }
  }

  /** Guessing the answer itself marks every letter correct. */
  lemma SelfAllCorrect(s: string)
    ensures forall i :: 0 <= i < |s| ==> ReferenceMarks(s, s)[i] == LetterMark(s[i], Correct)
  {
  }

  /** The worked example: answer "lion", guess "line". */
  lemma LionLine()
    ensures ReferenceMarks("lion", "line") == [
      LetterMark('l', Correct), LetterMark('i', Correct),
      LetterMark('n', Present), LetterMark('e', Absent)]
  {
    var a, g := "lion", "line";
    assert multiset(a)['n'] == 1;
    assert multiset(a)['e'] == 0;
    assert CorrectBefore(a, g, 'n', 4) == 0;
    assert OpenBefore(a, g, 'n', 2) == 0;
  }

}
