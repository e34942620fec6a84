/** Question lookups, counting and the choice of the next question (managers/question.py). */
module QuestionManager {
  import opened Outcomes
  import opened Schema
  import opened Seqs
  import opened DbUtils
  import opened AnswerManager
  import opened AttemptManager

  /** The position of the first question row with that id. */
  function FindQuestion(qs: seq<Question>, questionId: int): (r: Option<nat>)
    ensures r.None? <==> forall i :: 0 <= i < |qs| ==> qs[i].id != questionId
    ensures r.Some? ==> r.value < |qs| && qs[r.value].id == questionId
  {
    FindFirst(qs, (q: Question) => q.id == questionId)
  }

  /** `get_question`: the question with that id, or None. */
  function GetQuestion(st: Store, questionId: int): (r: Option<Question>)
    ensures r.None? <==> forall i :: 0 <= i < |st.questions| ==> st.questions[i].id != questionId
    ensures r.Some? ==> r.value in st.questions && r.value.id == questionId
  {
    match FindQuestion(st.questions, questionId)
    case None => None
    case Some(k) => Some(st.questions[k])
  }

  /** Row ids are positions plus one, so the question with id `n` is row `n - 1`. */
  lemma GetQuestionByRowId(st: Store, questionId: int)
    requires RowIds(st)
    ensures GetQuestion(st, questionId)
         == if 1 <= questionId <= |st.questions| then Some(st.questions[questionId - 1]) else None
  {
    if 1 <= questionId <= |st.questions| {
      var k := FindQuestion(st.questions, questionId);
      assert st.questions[questionId - 1].id == questionId;
      assert k.value + 1 == st.questions[k.value].id;
    }
  }

  /** `get_question_by_answer`: the question the answer belongs to, or None. */
  function GetQuestionByAnswer(st: Store, answerId: int): (r: Option<Question>)
    ensures r.Some? ==> GetAnswer(st, answerId).Some? && r.value in st.questions
                        && r.value.id == GetAnswer(st, answerId).value.questionId
  {
    match GetAnswer(st, answerId)
    case None => None
    case Some(a) => GetQuestion(st, a.questionId)
  }

  /** In a valid store every answer has its question, so the lookup fails only for an
      unknown answer. */
  lemma QuestionByAnswerFound(st: Store, answerId: int)
    requires Valid(st)
    ensures GetQuestionByAnswer(st, answerId).Some? <==> GetAnswer(st, answerId).Some?
  {
    if GetAnswer(st, answerId).Some? {
      var a := GetAnswer(st, answerId).value;
      var j :| 0 <= j < |st.answers| && st.answers[j] == a;
      GetQuestionByRowId(st, a.questionId);
    }
  }

  /** `if filename:`: None and the empty path both mean every file. */
  function Scope(filename: Option<string>): (r: Option<string>)
    ensures r.Some? <==> filename.Some? && filename.value != ""
    ensures r.Some? ==> r.value == filename.value
  {
    if filename.Some? && filename.value != "" then filename else None
  }

  /** The join with Filename on `Filename.path == path`: the question's file has that
      path. */
  predicate InFile(st: Store, q: Question, path: string) {
    exists i :: 0 <= i < |st.filenames| && st.filenames[i].id == q.filenameId && st.filenames[i].path == path
  }

  /** The questions counted: all of them, or those whose file has the path. */
  function QuestionsInScope(st: Store, scope: Option<string>): seq<Question>
  {
    match scope
    case None => st.questions
    case Some(path) => Filter(st.questions, (q: Question) => InFile(st, q, path))
  }

  /** `get_question_count(filename)`: the number of questions in scope, and ValueError when
      that number is 0. */
  function GetQuestionCount(st: Store, filename: Option<string>): (r: Result<nat>)
    ensures r.Err? ==> r.error == ValueError
    ensures r.Ok? ==> r.value > 0
  {
    var n := |QuestionsInScope(st, Scope(filename))|;
    if n == 0 then Err(ValueError) else Ok(n)
  }

  /** Without a (non-empty) filename every question is counted, and an empty bank is an
      error. */
  lemma CountAll(st: Store, filename: Option<string>)
    requires filename.None? || filename.value == ""
    ensures GetQuestionCount(st, filename)
         == if st.questions == [] then Err(ValueError) else Ok(|st.questions|)
  {
  }

  /** With a filename, the count is that of the file's questions, never more than the
      total, and an error exactly when the file has no questions (an unknown path
      included). */
  lemma CountFile(st: Store, path: string)
    requires path != ""
    ensures var r := GetQuestionCount(st, Some(path));
      && (r.Err? <==> forall i :: 0 <= i < |st.questions| ==> !InFile(st, st.questions[i], path))
      && (r.Ok? ==> r.value <= |st.questions|)
      && (r.Ok? ==> r.value == |Filter(st.questions, (q: Question) => InFile(st, q, path))|)
      && (FindFilename(st.filenames, path).None? ==> r == Err(ValueError))
  {
    var p := (q: Question) => InFile(st, q, path);
    FilterEmpty(st.questions, p);
    if FindFilename(st.filenames, path).None? {
      forall i | 0 <= i < |st.questions| ensures !p(st.questions[i]) {
      }
    }
  }

  /** `attempted_correct_qn_ids`: some attempt of the user is on a correct answer of the
      question. */
  predicate AttemptedCorrectly(st: Store, userId: int, questionId: nat) {
    exists i, j :: 0 <= i < |st.attempts| && 0 <= j < |st.answers|
      && st.attempts[i].userId == userId && st.answers[j].id == st.attempts[i].answerId
      && st.answers[j].isCorrect && st.answers[j].questionId == questionId
  }

  /** The scalar subquery `select(Filename.id).where(Filename.path == path)`. */
  function FileId(st: Store, path: string): (r: Option<nat>)
    ensures r.None? <==> FindFilename(st.filenames, path).None?
  {
    match FindFilename(st.filenames, path)
    case None => None
    case Some(k) => Some(st.filenames[k].id)
  }

  /** A question may be served: the user has not answered it correctly, and it belongs to
      the file when one is given (no question does when the path is unknown). */
  predicate Eligible(st: Store, userId: int, scope: Option<string>, q: Question) {
    && !AttemptedCorrectly(st, userId, q.id)
    && (scope.Some? ==> FileId(st, scope.value) == Some(q.filenameId))
  }

  /** The questions the query chooses among, in table order. */
  function EligibleQuestions(st: Store, userId: int, filename: Option<string>): seq<Question>
  {
    Filter(st.questions, (q: Question) => Eligible(st, userId, Scope(filename), q))
  }

  /** `get_random_question(user_id, filename)`, with the database's random order replaced
      by the choice `pick`: one of the eligible questions, or None when there is none. */
  function GetRandomQuestion(st: Store, userId: int, filename: Option<string>, pick: nat)
    : Option<Question>
  {
    var eligible := EligibleQuestions(st, userId, filename);
    if eligible == [] then None else Some(eligible[pick % |eligible|])
  }

  /** A question served is in the bank, has not been answered correctly by the user, and
      belongs to the file when one is given. */
  lemma RandomQuestionSound(st: Store, userId: int, filename: Option<string>, pick: nat)
    requires GetRandomQuestion(st, userId, filename, pick).Some?
    ensures var q := GetRandomQuestion(st, userId, filename, pick).value;
      && q in st.questions
      && !AttemptedCorrectly(st, userId, q.id)
      && (Scope(filename).Some? ==> FileId(st, Scope(filename).value) == Some(q.filenameId))
  {
    var eligible := EligibleQuestions(st, userId, filename);
    var q := eligible[pick % |eligible|];
    FilterMembers(st.questions, (q: Question) => Eligible(st, userId, Scope(filename), q), q);
  }

  /** None is returned exactly when no question of the bank is eligible. */
  lemma RandomQuestionNoneIff(st: Store, userId: int, filename: Option<string>, pick: nat)
    ensures GetRandomQuestion(st, userId, filename, pick).None?
        <==> forall i :: 0 <= i < |st.questions| ==> !Eligible(st, userId, Scope(filename), st.questions[i])
  {
    FilterEmpty(st.questions, (q: Question) => Eligible(st, userId, Scope(filename), q));
  }

  /** Every eligible question is served for some choice. */
  lemma RandomQuestionReach(st: Store, userId: int, filename: Option<string>, q: Question)
    requires q in st.questions && Eligible(st, userId, Scope(filename), q)
    ensures exists pick: nat :: GetRandomQuestion(st, userId, filename, pick) == Some(q)
  {
    var eligible := EligibleQuestions(st, userId, filename);
    FilterMembers(st.questions, (q: Question) => Eligible(st, userId, Scope(filename), q), q);
    var k :| 0 <= k < |eligible| && eligible[k] == q;
    ModSmall(k, |eligible|);
    assert GetRandomQuestion(st, userId, filename, k) == Some(q);
  }

  /** A choice below the number of candidates picks that candidate. */
  lemma ModSmall(k: nat, n: nat)
    requires k < n
    ensures k % n == k
  {
  }

  /** An unknown filename serves nothing. */
  lemma RandomQuestionUnknownFile(st: Store, userId: int, path: string, pick: nat)
    requires path != "" && FindFilename(st.filenames, path).None?
    ensures GetRandomQuestion(st, userId, Some(path), pick) == None
  {
    RandomQuestionNoneIff(st, userId, Some(path), pick);
  }

  /** In a valid store the count's join and the choice's subquery select the same file:
      a question is in the file with the path exactly when its file id is that file's. */
  lemma InFileIffFileId(st: Store, q: Question, path: string)
    requires Valid(st)
    ensures InFile(st, q, path) <==> FileId(st, path) == Some(q.filenameId)
  {
    if InFile(st, q, path) {
      var i :| 0 <= i < |st.filenames| && st.filenames[i].id == q.filenameId && st.filenames[i].path == path;
      var k := FindFilename(st.filenames, path).value;
      assert st.filenames[k].path == st.filenames[i].path;
    }
    if FileId(st, path) == Some(q.filenameId) {
      var k := FindFilename(st.filenames, path).value;
      assert st.filenames[k].id == q.filenameId && st.filenames[k].path == path;
    }
  }

  /** Attempts added on an answer that is not correct change no user's set of questions
      answered correctly. */
  lemma AttemptedCorrectlyUnchanged(st: Store, s: Store, answerId: int)
    requires s.answers == st.answers && st.attempts <= s.attempts
    requires forall i :: |st.attempts| <= i < |s.attempts| ==> s.attempts[i].answerId == answerId
    requires forall j :: 0 <= j < |st.answers| && st.answers[j].id == answerId ==> !st.answers[j].isCorrect
    ensures forall u: int, qid: nat :: AttemptedCorrectly(s, u, qid) == AttemptedCorrectly(st, u, qid)
  {
    forall u: int, qid: nat ensures AttemptedCorrectly(s, u, qid) == AttemptedCorrectly(st, u, qid) {
      if AttemptedCorrectly(s, u, qid) {
        var i, j :| 0 <= i < |s.attempts| && 0 <= j < |s.answers|
          && s.attempts[i].userId == u && s.answers[j].id == s.attempts[i].answerId
          && s.answers[j].isCorrect && s.answers[j].questionId == qid;
        assert s.attempts[i].answerId != answerId;
        assert s.attempts[i] == st.attempts[i];
      }
      if AttemptedCorrectly(st, u, qid) {
        var i, j :| 0 <= i < |st.attempts| && 0 <= j < |st.answers|
          && st.attempts[i].userId == u && st.answers[j].id == st.attempts[i].answerId
          && st.answers[j].isCorrect && st.answers[j].questionId == qid;
        assert s.attempts[i] == st.attempts[i];
      }
    }
  }

  /** Recording an attempt on a wrong answer changes no user's choice of questions: only
      attempts on correct answers exclude a question. */
  lemma WrongAttemptKeepsEligible(st: Store, userId: int, answerId: int, now: int,
                                  anyUser: int, filename: Option<string>)
    requires Valid(st) && RecordAttempt(st, userId, answerId, now).Ok?
    requires GetAnswer(st, answerId).Some? && !GetAnswer(st, answerId).value.isCorrect
    ensures var s := RecordAttempt(st, userId, answerId, now).value;
      EligibleQuestions(s, anyUser, filename) == EligibleQuestions(st, anyUser, filename)
  {
    var s := RecordAttempt(st, userId, answerId, now).value;
    RecordAttemptFacts(st, userId, answerId, now);
    GetAnswerByRowId(st, answerId);
    forall j | 0 <= j < |st.answers| && st.answers[j].id == answerId ensures !st.answers[j].isCorrect {
      assert j == answerId - 1;
    }
    AttemptedCorrectlyUnchanged(st, s, answerId);
    var scope := Scope(filename);
    FilterCongruent(st.questions, (q: Question) => Eligible(s, anyUser, scope, q),
                    (q: Question) => Eligible(st, anyUser, scope, q));
  }

  /** Once the user's attempt on a correct answer is recorded, that answer's question is
      never served to the user again. */
  lemma CorrectAttemptExcludes(st: Store, userId: int, answerId: int, now: int,
                               filename: Option<string>, pick: nat)
    requires Valid(st) && RecordAttempt(st, userId, answerId, now).Ok?
    requires GetAnswer(st, answerId).Some? && GetAnswer(st, answerId).value.isCorrect
    ensures var s := RecordAttempt(st, userId, answerId, now).value;
      var r := GetRandomQuestion(s, userId, filename, pick);
      r.Some? ==> r.value.id != GetAnswer(st, answerId).value.questionId
  {
    var s := RecordAttempt(st, userId, answerId, now).value;
    var a := GetAnswer(st, answerId).value;
    RecordAttemptFacts(st, userId, answerId, now);
    GetAnswerByRowId(st, answerId);
    var i :| 0 <= i < |s.attempts| && s.attempts[i].userId == userId && s.attempts[i].answerId == answerId;
    assert s.answers[answerId - 1] == a;
    assert AttemptedCorrectly(s, userId, a.questionId);
    if GetRandomQuestion(s, userId, filename, pick).Some? {
      RandomQuestionSound(s, userId, filename, pick);
    }
  }
}
