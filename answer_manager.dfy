/** Answer lookups (managers/answer.py). */
module AnswerManager {
  import opened Outcomes
  import opened Schema
  import opened Seqs

  /** The position of the first answer row with that id. */
  function FindAnswer(ans: seq<Answer>, answerId: int): (r: Option<nat>)
    ensures r.None? <==> forall i :: 0 <= i < |ans| ==> ans[i].id != answerId
    ensures r.Some? ==> r.value < |ans| && ans[r.value].id == answerId
  {
    FindFirst(ans, (a: Answer) => a.id == answerId)
  }

  /** `get_answer`: the answer with that id, or None. */
  function GetAnswer(st: Store, answerId: int): (r: Option<Answer>)
    ensures r.None? <==> forall i :: 0 <= i < |st.answers| ==> st.answers[i].id != answerId
    ensures r.Some? ==> r.value in st.answers && r.value.id == answerId
  {
    match FindAnswer(st.answers, answerId)
    case None => None
    case Some(k) => Some(st.answers[k])
  }

  /** Row ids are positions plus one, so the answer with id `n` is row `n - 1`. */
  lemma GetAnswerByRowId(st: Store, answerId: int)
    requires RowIds(st)
    ensures GetAnswer(st, answerId)
         == if 1 <= answerId <= |st.answers| then Some(st.answers[answerId - 1]) else None
  {
    if 1 <= answerId <= |st.answers| {
      var k := FindAnswer(st.answers, answerId);
      assert st.answers[answerId - 1].id == answerId;
      assert k.value + 1 == st.answers[k.value].id;
    }
  }

  /** The position of the first correct answer of the question. */
  function FindCorrect(ans: seq<Answer>, questionId: int): (r: Option<nat>)
    ensures r.None? <==> forall i :: 0 <= i < |ans| ==> !(ans[i].questionId == questionId && ans[i].isCorrect)
    ensures r.Some? ==> r.value < |ans| && ans[r.value].questionId == questionId && ans[r.value].isCorrect
  {
    FindFirst(ans, (a: Answer) => a.questionId == questionId && a.isCorrect)
  }

  /** `get_correct_answer`: a correct answer of the question (the first row the query
      yields), and ValueError when the question has none. */
  function GetCorrectAnswer(st: Store, questionId: int): (r: Result<Answer>)
    ensures r.Err? <==> forall i :: 0 <= i < |st.answers| ==>
                          !(st.answers[i].questionId == questionId && st.answers[i].isCorrect)
    ensures r.Err? ==> r.error == ValueError
    ensures r.Ok? ==> r.value in st.answers && r.value.questionId == questionId && r.value.isCorrect
  {
    match FindCorrect(st.answers, questionId)
    case None => Err(ValueError)
    case Some(k) => Ok(st.answers[k])
  }

  /** An answer is among a question's correct answers exactly when it is a correct answer
      of that question in the table. */
  lemma {:induction false} CorrectAnswersOfMembers(ans: seq<Answer>, qid: nat, a: Answer)
    ensures a in CorrectAnswersOf(ans, qid) <==> a in ans && a.questionId == qid && a.isCorrect
  {
    if ans != [] {
      var init := ans[..|ans| - 1];
      CorrectAnswersOfMembers(init, qid, a);
      assert ans == init + [ans[|ans| - 1]];
    }
  }

  /** Once ingestion has kept each question to exactly one correct answer, every question
      has its correct answer found, and it is the only correct answer of that question. */
  lemma CorrectAnswerUnique(st: Store, k: nat)
    requires OneCorrectPerQuestion(st) && k < |st.questions|
    ensures GetCorrectAnswer(st, st.questions[k].id).Ok?
    ensures forall a :: a in st.answers && a.questionId == st.questions[k].id && a.isCorrect ==>
              a == GetCorrectAnswer(st, st.questions[k].id).value
  {
    var qid := st.questions[k].id;
    var c := CorrectAnswersOf(st.answers, qid);
    assert |c| == 1;
    CorrectAnswersOfMembers(st.answers, qid, c[0]);
    var r := GetCorrectAnswer(st, qid);
    assert r.Ok? by {
      var i :| 0 <= i < |st.answers| && st.answers[i] == c[0];
    }
    CorrectAnswersOfMembers(st.answers, qid, r.value);
    forall a | a in st.answers && a.questionId == qid && a.isCorrect ensures a == r.value {
      CorrectAnswersOfMembers(st.answers, qid, a);
    }
  }
}
