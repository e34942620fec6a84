/** The one-correct-answer rule shared by the parsers and ingestion
    (db/parsers/utils.py). */
module ParserUtils {
  import opened Outcomes
  import opened DbTypes

  /** `[a for a in answers if a["is_correct"]]`. */
  function CorrectAnswers(answers: seq<AnswerType>): (r: seq<AnswerType>)
    ensures |r| <= |answers|
    ensures forall i :: 0 <= i < |r| ==> r[i].isCorrect && r[i] in answers
  {
    if answers == [] then []
    else (if answers[0].isCorrect then [answers[0]] else []) + CorrectAnswers(answers[1..])
  }

  /** Exactly one position of the list holds a correct answer. */
  ghost predicate ExactlyOneCorrect(answers: seq<AnswerType>) {
    exists i :: 0 <= i < |answers| && answers[i].isCorrect
      && forall j :: 0 <= j < |answers| && j != i ==> !answers[j].isCorrect
  }

  /** `validate_only_one_correct_answer`: passes when exactly one answer is marked
      correct, and otherwise fails with the number of correct answers it counted. */
  function ValidateOnlyOneCorrectAnswer(answers: seq<AnswerType>): (r: Outcome)
    ensures r.Fail? ==> r.error.NoCorrectAnswer? && r.error.reason.CorrectCount?
    ensures r.Fail? ==> r.error.reason.count != 1
  {
    var n := |CorrectAnswers(answers)|;
    if n != 1 then Fail(NoCorrectAnswer(CorrectCount(n))) else Pass
  }

  /** The filtered list splits along a concatenation. */
  lemma {:induction false} CorrectAnswersAppend(a: seq<AnswerType>, b: seq<AnswerType>)
    ensures CorrectAnswers(a + b) == CorrectAnswers(a) + CorrectAnswers(b)
  {
    if a != [] {
      assert (a + b)[1..] == a[1..] + b;
      CorrectAnswersAppend(a[1..], b);
    } else {
      assert a + b == b;
    }
  }

  /** With no correct position the filter is empty; with exactly one it holds one answer. */
  lemma {:induction false} CorrectAnswersCount(answers: seq<AnswerType>)
    ensures (forall j :: 0 <= j < |answers| ==> !answers[j].isCorrect) ==> |CorrectAnswers(answers)| == 0
    ensures forall i :: 0 <= i < |answers| && answers[i].isCorrect ==> |CorrectAnswers(answers)| >= 1
  {
    if answers != [] {
      CorrectAnswersCount(answers[1..]);
      forall i | 0 <= i < |answers| && answers[i].isCorrect
        ensures |CorrectAnswers(answers)| >= 1
      {
        if i > 0 { assert answers[1..][i - 1] == answers[i]; }
      }
    }
  }

  /** Two different correct positions give a count of at least two. */
  lemma {:induction false} TwoCorrectCountTwice(answers: seq<AnswerType>, i: nat, j: nat)
    requires i < j < |answers| && answers[i].isCorrect && answers[j].isCorrect
    ensures |CorrectAnswers(answers)| >= 2
  {
    var pre, post := answers[..j], answers[j..];
    assert answers == pre + post;
    CorrectAnswersAppend(pre, post);
    CorrectAnswersCount(pre);
    assert pre[i] == answers[i];
    CorrectAnswersCount(post);
    assert post[0] == answers[j];
  }

  /** A single correct position gives a count of exactly one. */
  lemma {:induction false} OneCorrectCountOnce(answers: seq<AnswerType>, i: nat)
    requires i < |answers| && answers[i].isCorrect
    requires forall j :: 0 <= j < |answers| && j != i ==> !answers[j].isCorrect
    ensures |CorrectAnswers(answers)| == 1
  {
    var tail := answers[1..];
    if i == 0 {
      assert forall j :: 0 <= j < |tail| ==> tail[j] == answers[j + 1];
      CorrectAnswersCount(tail);
    } else {
      assert forall j :: 0 <= j < |tail| ==> tail[j] == answers[j + 1];
      OneCorrectCountOnce(tail, i - 1);
    }
  }

  /** The validation passes exactly when one answer, and only one, is marked correct. */
  lemma ValidatePassesIffExactlyOne(answers: seq<AnswerType>)
    ensures ValidateOnlyOneCorrectAnswer(answers) == Pass <==> ExactlyOneCorrect(answers)
  {
    if ExactlyOneCorrect(answers) {
      var i :| 0 <= i < |answers| && answers[i].isCorrect
        && forall j :: 0 <= j < |answers| && j != i ==> !answers[j].isCorrect;
      OneCorrectCountOnce(answers, i);
    }
    if |CorrectAnswers(answers)| == 1 {
      var a := CorrectAnswers(answers)[0];
      assert a in answers && a.isCorrect;
      var i :| 0 <= i < |answers| && answers[i] == a;
      forall j | 0 <= j < |answers| && j != i ensures !answers[j].isCorrect {
        if answers[j].isCorrect {
          if i < j { TwoCorrectCountTwice(answers, i, j); } else { TwoCorrectCountTwice(answers, j, i); }
        }
      }
      assert ExactlyOneCorrect(answers);
    }
  }

  /** No correct answer at all, the empty list included, is refused with a count of 0. */
  lemma NoCorrectAnswerFails(answers: seq<AnswerType>)
    requires forall j :: 0 <= j < |answers| ==> !answers[j].isCorrect
    ensures ValidateOnlyOneCorrectAnswer(answers) == Fail(NoCorrectAnswer(CorrectCount(0)))
  {
    CorrectAnswersCount(answers);
  }

  /** Two or more correct answers are refused. */
  lemma TwoCorrectAnswersFail(answers: seq<AnswerType>, i: nat, j: nat)
    requires i < |answers| && j < |answers| && i != j
    requires answers[i].isCorrect && answers[j].isCorrect
    ensures ValidateOnlyOneCorrectAnswer(answers).Fail?
  {
    if i < j { TwoCorrectCountTwice(answers, i, j); } else { TwoCorrectCountTwice(answers, j, i); }
  }

  /** Removing one occurrence of `b[k]` from `b` leaves what remains of `a` after its head,
      when `a` starts with `b[k]` and the two hold the same elements. */
  lemma RemoveMatchingElement(a: seq<AnswerType>, b: seq<AnswerType>, k: nat)
    requires multiset(a) == multiset(b) && a != [] && k < |b| && b[k] == a[0]
    ensures multiset(a[1..]) == multiset(b[..k] + b[k + 1..])
  {
    var x := a[0];
    assert a == [x] + a[1..];
    assert b == b[..k] + [x] + b[k + 1..];
    assert multiset(a) == multiset{x} + multiset(a[1..]);
    assert multiset(b) == multiset(b[..k] + b[k + 1..]) + multiset{x};
    var rest := multiset(b[..k] + b[k + 1..]);
    forall y ensures multiset(a[1..])[y] == rest[y] {
      assert (multiset{x} + multiset(a[1..]))[y] == (rest + multiset{x})[y];
    }
  }

  /** The count splits around one position. */
  lemma CorrectCountAround(b: seq<AnswerType>, k: nat)
    requires k < |b|
    ensures |CorrectAnswers(b)|
         == |CorrectAnswers([b[k]])| + |CorrectAnswers(b[..k] + b[k + 1..])|
  {
    assert b == b[..k] + [b[k]] + b[k + 1..];
    CorrectAnswersAppend(b[..k] + [b[k]], b[k + 1..]);
    CorrectAnswersAppend(b[..k], [b[k]]);
    CorrectAnswersAppend(b[..k], b[k + 1..]);
  }

  /** Reordering the answers does not change the outcome (nor the count it reports). */
  lemma {:induction false} ValidateIgnoresOrder(a: seq<AnswerType>, b: seq<AnswerType>)
    requires multiset(a) == multiset(b)
    ensures |CorrectAnswers(a)| == |CorrectAnswers(b)|
    ensures ValidateOnlyOneCorrectAnswer(a) == ValidateOnlyOneCorrectAnswer(b)
  {
    if a != [] {
      assert a[0] in multiset(b);
      var k :| 0 <= k < |b| && b[k] == a[0];
      RemoveMatchingElement(a, b, k);
      ValidateIgnoresOrder(a[1..], b[..k] + b[k + 1..]);
      CorrectCountAround(b, k);
      CorrectCountAround(a, 0);
      assert a[..0] + a[1..] == a[1..];
    } else {
      assert |b| == |multiset(b)| == 0;
    }
  }
}
