/** Ingestion of one processed row into the question bank (db/utils.py): get or create
    the file's row, insert the question and its answers, check the one-correct-answer
    rule, then commit; on a constraint violation roll back and report a duplicate. */
module DbUtils {
  import opened Outcomes
  import opened DbTypes
  import opened ParserUtils
  import opened Schema
  import opened Seqs

  /** `select(Filename).where(Filename.path == path)`: the position of the first row with
      that path. */
  function FindFilename(fs: seq<Filename>, path: string): (r: Option<nat>)
    ensures r.None? <==> forall i :: 0 <= i < |fs| ==> fs[i].path != path
    ensures r.Some? ==> r.value < |fs| && fs[r.value].path == path
    ensures r.Some? ==> forall i :: 0 <= i < r.value ==> fs[i].path != path
  {
    FindFirst(fs, (f: Filename) => f.path == path)
  }

  /** `select(Question).where(Question.text == text)`: the position of the first question
      with that text. */
  function FindQuestionByText(qs: seq<Question>, text: string): (r: Option<nat>)
    ensures r.None? <==> forall i :: 0 <= i < |qs| ==> qs[i].text != text
    ensures r.Some? ==> r.value < |qs| && qs[r.value].text == text
    ensures r.Some? ==> forall i :: 0 <= i < r.value ==> qs[i].text != text
  {
    FindFirst(qs, (q: Question) => q.text == text)
  }

  /** `_add_filename_if_not_exists`: the id of the row with that path, inserting one when
      there is none. */
  function FilenameGetOrCreate(st: Store, path: string): (Store, nat)
  {
    match FindFilename(st.filenames, path)
    case Some(k) => (st, st.filenames[k].id)
    case None =>
      (st.(filenames := st.filenames + [Filename(|st.filenames| + 1, path)]), |st.filenames| + 1)
  }

  /** In a valid store the id returned is that of the (only) row with the path; a known
      path leaves the store as it was, an unknown one adds exactly that row; the store
      stays valid and only the file table can change. */
  lemma FilenameGetOrCreateFacts(st: Store, path: string)
    requires Valid(st)
    ensures var (s1, fid) := FilenameGetOrCreate(st, path);
      && Valid(s1)
      && 1 <= fid <= |s1.filenames| && s1.filenames[fid - 1].path == path
      && s1 == st.(filenames := s1.filenames)
      && st.filenames <= s1.filenames && |s1.filenames| <= |st.filenames| + 1
      && (FindFilename(st.filenames, path).Some? ==> s1 == st)
      && (FindFilename(st.filenames, path).None? ==>
            s1.filenames == st.filenames + [Filename(|st.filenames| + 1, path)])
  {
    var (s1, fid) := FilenameGetOrCreate(st, path);
    if FindFilename(st.filenames, path).None? {
      assert ForeignKeys(s1);
      assert RowIds(s1);
      assert UniquePaths(s1.filenames);
    }
  }

  /** `_add_filename_if_not_exists` in a session. */
  method AddFilenameIfNotExists(db: Database, filename: string) returns (filenameId: nat)
    modifies db
    ensures (db.session, filenameId) == FilenameGetOrCreate(old(db.session), filename)
    ensures db.committed == old(db.committed)
  {
    var found := FindFilename(db.session.filenames, filename);
    if found.None? {
      filenameId := |db.session.filenames| + 1;
      db.session := db.session.(filenames := db.session.filenames + [Filename(filenameId, filename)]);
    } else {
      filenameId := db.session.filenames[found.value].id;
    }
  }

  /** Some question has this text and explanation. */
  predicate HasQuestion(qs: seq<Question>, text: string, explanation: string) {
    exists i :: 0 <= i < |qs| && qs[i].text == text && qs[i].explanation == explanation
  }

  /** The store with one more question, given the next id. */
  function WithQuestion(st: Store, text: string, explanation: string, filenameId: nat, now: int): Store
  {
    st.(questions := st.questions + [Question(|st.questions| + 1, text, filenameId, now, explanation)])
  }

  /** `_add_question`'s flush: the insert fails with IntegrityError when the question
      (text, explanation) exists or the filename id does not. */
  function InsertQuestion(st: Store, text: string, explanation: string, filenameId: nat, now: int)
    : (r: Result<Store>)
    ensures r.Err? ==> r.error == IntegrityError
    ensures r.Ok? ==> r.value == WithQuestion(st, text, explanation, filenameId, now)
  {
    if HasQuestion(st.questions, text, explanation) || !(1 <= filenameId <= |st.filenames|) then
      Err(IntegrityError)
    else
      Ok(WithQuestion(st, text, explanation, filenameId, now))
  }

  /** The insert succeeds exactly when the store with the new question still satisfies
      every constraint. */
  lemma InsertQuestionIffValid(st: Store, text: string, explanation: string, filenameId: nat, now: int)
    requires Valid(st)
    ensures InsertQuestion(st, text, explanation, filenameId, now).Ok?
        <==> Valid(WithQuestion(st, text, explanation, filenameId, now))
  {
    var s2 := WithQuestion(st, text, explanation, filenameId, now);
    var q := s2.questions[|st.questions|];
    if InsertQuestion(st, text, explanation, filenameId, now).Ok? {
      assert RowIds(s2);
      assert ForeignKeys(s2);
      forall i, j | 0 <= i < j < |s2.questions|
        ensures !(s2.questions[i].text == s2.questions[j].text
                  && s2.questions[i].explanation == s2.questions[j].explanation)
      {
        if j == |st.questions| {
          assert s2.questions[i] == st.questions[i];
        } else {
          assert s2.questions[i] == st.questions[i] && s2.questions[j] == st.questions[j];
        }
      }
    } else if HasQuestion(st.questions, text, explanation) {
      var i :| 0 <= i < |st.questions| && st.questions[i].text == text
        && st.questions[i].explanation == explanation;
      assert s2.questions[i] == st.questions[i] && q.text == text && q.explanation == explanation;
      assert !UniqueQuestions(s2.questions);
    } else {
      assert !(1 <= s2.questions[|st.questions|].filenameId <= |s2.filenames|);
    }
  }

  /** `_add_question`: inserts the question into the session and returns it. */
  method AddQuestion(db: Database, text: string, explanation: string, filenameId: nat, now: int)
    returns (r: Result<Question>)
    modifies db
    ensures InsertQuestion(old(db.session), text, explanation, filenameId, now).Ok? ==>
              db.session == InsertQuestion(old(db.session), text, explanation, filenameId, now).value
              && r == Ok(db.session.questions[|old(db.session.questions)|])
    ensures InsertQuestion(old(db.session), text, explanation, filenameId, now).Err? ==>
              db.session == old(db.session) && r == Err(IntegrityError)
    ensures db.committed == old(db.committed)
  {
    var check := InsertQuestion(db.session, text, explanation, filenameId, now);
    if check.Err? {
      return Err(IntegrityError);
    }
    var question := Question(|db.session.questions| + 1, text, filenameId, now, explanation);
    db.session := db.session.(questions := db.session.questions + [question]);
    return Ok(question);
  }

  /** `Answer(question=question, **answer_type)` for each answer in turn, given the id the
      first of them receives. */
  function NewAnswers(firstId: nat, qid: nat, answers: seq<AnswerType>): (r: seq<Answer>)
    ensures |r| == |answers|
    ensures forall i :: 0 <= i < |r| ==>
              r[i] == Answer(firstId + i, qid, answers[i].isCorrect, answers[i].key, answers[i].text)
    decreases |answers|
  {
    if answers == [] then []
    else
      [Answer(firstId, qid, answers[0].isCorrect, answers[0].key, answers[0].text)]
      + NewAnswers(firstId + 1, qid, answers[1..])
  }

  /** Every new answer references an existing question, and no two answers share
      (key, question). */
  predicate AnswersFit(st: Store, news: seq<Answer>) {
    && UniqueAnswers(st.answers + news)
    && forall i :: 0 <= i < |news| ==> 1 <= news[i].questionId <= |st.questions|
  }

  /** The flush of the pending answers at `s.commit()`: IntegrityError when one breaks a
      constraint. */
  function FlushAnswers(st: Store, news: seq<Answer>): (r: Result<Store>)
    ensures r.Err? ==> r.error == IntegrityError
    ensures r.Ok? ==> r.value == st.(answers := st.answers + news)
  {
    if AnswersFit(st, news) then Ok(st.(answers := st.answers + news)) else Err(IntegrityError)
  }

  /** The outcome of `add_question_and_answers` and the database after it. */
  datatype Ingested = Ingested(store: Store, result: Result<bool>)

  /** The `except IntegrityError` branch: roll back to the committed state, then report a
      duplicate when some question has the same text, and re-raise otherwise. */
  function AfterIntegrityError(committed: Store, text: string): (r: Ingested)
    ensures r.store == committed
    ensures r.result == Ok(false) <==> FindQuestionByText(committed.questions, text).Some?
    ensures r.result != Ok(false) ==> r.result == Err(IntegrityError)
  {
    if FindQuestionByText(committed.questions, text).Some? then Ingested(committed, Ok(false))
    else Ingested(committed, Err(IntegrityError))
  }

  /** `add_question_and_answers(row, filename)` on a database whose committed state is
      `st`, at time `now`. */
  function Ingest(st: Store, row: ProcessedRow, path: string, now: int): Ingested
  {
    var text, explanation := row.question.text, row.question.explanation;
    var (s1, fid) := FilenameGetOrCreate(st, path);
    match InsertQuestion(s1, text, explanation, fid, now)
    case Err(_) => AfterIntegrityError(st, text)
    case Ok(s2) =>
      match ValidateOnlyOneCorrectAnswer(row.answers)
      case Fail(e) => Ingested(st, Err(e))
      case Pass =>
        match FlushAnswers(s2, NewAnswers(|s2.answers| + 1, |s2.questions|, row.answers))
        case Err(_) => AfterIntegrityError(st, text)
        case Ok(s3) => Ingested(s3, Ok(true))
  }

  /** `_get_question_by_text`: rolls the session back, then looks the text up. */
  method GetQuestionByText(db: Database, text: string) returns (q: Option<Question>)
    modifies db
    ensures db.session == old(db.committed) && db.committed == old(db.committed)
    ensures q.None? <==> FindQuestionByText(db.committed.questions, text).None?
    ensures q.Some? ==> q.value == db.committed.questions[FindQuestionByText(db.committed.questions, text).value]
  {
    db.Rollback();
    var k := FindQuestionByText(db.session.questions, text);
    if k.None? {
      return None;
    }
    return Some(db.session.questions[k.value]);
  }

  /** The `except IntegrityError` branch of `add_question_and_answers`. */
  method HandleIntegrityError(db: Database, text: string) returns (added: Result<bool>)
    modifies db
    ensures db.Idle()
    ensures Ingested(db.committed, added) == AfterIntegrityError(old(db.committed), text)
  {
    var duplicate := GetQuestionByText(db, text);
    if duplicate.None? {
      return Err(IntegrityError);
    }
    return Ok(false);
  }

  /** The answers of the row as they are added to the session, one by one. */
  method PendingAnswers(firstId: nat, qid: nat, answers: seq<AnswerType>) returns (pending: seq<Answer>)
    ensures pending == NewAnswers(firstId, qid, answers)
  {
    pending := [];
    for i := 0 to |answers|
      invariant |pending| == i
      invariant forall k :: 0 <= k < i ==>
                  pending[k] == Answer(firstId + k, qid, answers[k].isCorrect, answers[k].key, answers[k].text)
    {
      var a := answers[i];
      pending := pending + [Answer(firstId + i, qid, a.isCorrect, a.key, a.text)];
    }
  }

  /** `add_question_and_answers`: returns Ok(true) when the question was added, Ok(false)
      for a duplicate, and the exception otherwise; only a successful call changes the
      committed database. */
  method AddQuestionAndAnswers(db: Database, row: ProcessedRow, filename: string, now: int)
    returns (added: Result<bool>)
    requires db.Idle()
    modifies db
    ensures db.Idle()
    ensures Ingested(db.committed, added) == Ingest(old(db.committed), row, filename, now)
  {
    var text, explanation := row.question.text, row.question.explanation;
    var answers := row.answers;
    var filenameId := AddFilenameIfNotExists(db, filename);
    var question := AddQuestion(db, text, explanation, filenameId, now);
    if question.Err? {
      added := HandleIntegrityError(db, text);
      return;
    }
    var pending := PendingAnswers(|db.session.answers| + 1, question.value.id, answers);
    var check := ValidateOnlyOneCorrectAnswer(answers);
    if check.Fail? {
      db.Rollback();
      return Err(check.error);
    }
    var flushed := FlushAnswers(db.session, pending);
    if flushed.Err? {
      added := HandleIntegrityError(db, text);
      return;
    }
    db.session := flushed.value;
    db.Commit();
    return Ok(true);
  }

  /** No two answers of the row share a key. */
  predicate DistinctAnswerKeys(answers: seq<AnswerType>) {
    forall i, j :: 0 <= i < j < |answers| ==> answers[i].key != answers[j].key
  }

  /** The answers of a new question fit into a table that satisfies its constraints and
      has no answer for that question yet exactly when their keys are pairwise
      different. */
  lemma NewAnswersFitIff(st: Store, firstId: nat, qid: nat, answers: seq<AnswerType>)
    requires UniqueAnswers(st.answers) && 1 <= qid <= |st.questions|
    requires forall i :: 0 <= i < |st.answers| ==> st.answers[i].questionId < qid
    ensures AnswersFit(st, NewAnswers(firstId, qid, answers)) <==> DistinctAnswerKeys(answers)
  {
    var news := NewAnswers(firstId, qid, answers);
    var all := st.answers + news;
    var n := |st.answers|;
    if DistinctAnswerKeys(answers) {
      forall i, j | 0 <= i < j < |all|
        ensures !(all[i].key == all[j].key && all[i].questionId == all[j].questionId)
      {
        if j < n {
          assert all[i] == st.answers[i] && all[j] == st.answers[j];
        } else if i < n {
          assert all[i] == st.answers[i] && all[j] == news[j - n];
        } else {
          assert all[i] == news[i - n] && all[j] == news[j - n];
        }
      }
    }
    if AnswersFit(st, news) {
      forall i, j | 0 <= i < j < |answers| ensures answers[i].key != answers[j].key {
        assert all[n + i] == news[i] && all[n + j] == news[j];
      }
    }
  }

  /** The question (text, explanation) is already there: the call rolls back and reports
      a duplicate, leaving the database unchanged (a file row it created included). */
  lemma IngestDuplicate(st: Store, row: ProcessedRow, path: string, now: int)
    requires Valid(st)
    requires HasQuestion(st.questions, row.question.text, row.question.explanation)
    ensures Ingest(st, row, path, now) == Ingested(st, Ok(false))
  {
    FilenameGetOrCreateFacts(st, path);
    var i :| 0 <= i < |st.questions| && st.questions[i].text == row.question.text
      && st.questions[i].explanation == row.question.explanation;
    assert FindQuestionByText(st.questions, row.question.text).Some?;
  }

  /** A new question whose answers do not have exactly one correct one: the exception
      propagates and nothing is persisted, not even a file row created on the way. */
  lemma IngestRejectsRow(st: Store, row: ProcessedRow, path: string, now: int)
    requires Valid(st)
    requires !HasQuestion(st.questions, row.question.text, row.question.explanation)
    requires !ExactlyOneCorrect(row.answers)
    ensures Ingest(st, row, path, now)
         == Ingested(st, Err(NoCorrectAnswer(CorrectCount(|CorrectAnswers(row.answers)|))))
  {
    FilenameGetOrCreateFacts(st, path);
    ValidatePassesIffExactlyOne(row.answers);
  }

  /** The answers the call inserts for a new question, and the database it commits. */
  function AddedStore(st: Store, row: ProcessedRow, path: string, now: int): (r: Store)
    ensures r.questions == st.questions + [Question(|st.questions| + 1, row.question.text,
                             FilenameGetOrCreate(st, path).1, now, row.question.explanation)]
    ensures r.answers == st.answers + NewAnswers(|st.answers| + 1, |st.questions| + 1, row.answers)
    ensures r.filenames == FilenameGetOrCreate(st, path).0.filenames
    ensures r.attempts == FilenameGetOrCreate(st, path).0.attempts
    ensures r.users == FilenameGetOrCreate(st, path).0.users
  {
    var (s1, fid) := FilenameGetOrCreate(st, path);
    var s2 := WithQuestion(s1, row.question.text, row.question.explanation, fid, now);
    s2.(answers := s2.answers + NewAnswers(|st.answers| + 1, |st.questions| + 1, row.answers))
  }

  /** A new question with exactly one correct answer and pairwise different keys is
      committed: one question row for the text, the explanation and the file, and one
      answer row per answer of the row. */
  lemma IngestAdds(st: Store, row: ProcessedRow, path: string, now: int)
    requires Valid(st)
    requires !HasQuestion(st.questions, row.question.text, row.question.explanation)
    requires ExactlyOneCorrect(row.answers) && DistinctAnswerKeys(row.answers)
    ensures Ingest(st, row, path, now) == Ingested(AddedStore(st, row, path, now), Ok(true))
  {
    var text, explanation := row.question.text, row.question.explanation;
    FilenameGetOrCreateFacts(st, path);
    var (s1, fid) := FilenameGetOrCreate(st, path);
    InsertQuestionIffValid(s1, text, explanation, fid, now);
    var s2 := WithQuestion(s1, text, explanation, fid, now);
    assert InsertQuestion(s1, text, explanation, fid, now) == Ok(s2);
    ValidatePassesIffExactlyOne(row.answers);
    NewAnswersFitIff(s2, |st.answers| + 1, |st.questions| + 1, row.answers);
  }

  /** Pairwise different keys are needed too: otherwise the commit fails, the call rolls
      back, and it reports a duplicate when some question has the same text (whatever its
      explanation), re-raising the IntegrityError otherwise. */
  lemma IngestKeyClash(st: Store, row: ProcessedRow, path: string, now: int)
    requires Valid(st)
    requires !HasQuestion(st.questions, row.question.text, row.question.explanation)
    requires ExactlyOneCorrect(row.answers) && !DistinctAnswerKeys(row.answers)
    ensures Ingest(st, row, path, now) == AfterIntegrityError(st, row.question.text)
  {
    var text, explanation := row.question.text, row.question.explanation;
    FilenameGetOrCreateFacts(st, path);
    var (s1, fid) := FilenameGetOrCreate(st, path);
    InsertQuestionIffValid(s1, text, explanation, fid, now);
    var s2 := WithQuestion(s1, text, explanation, fid, now);
    assert InsertQuestion(s1, text, explanation, fid, now) == Ok(s2);
    ValidatePassesIffExactlyOne(row.answers);
    NewAnswersFitIff(s2, |st.answers| + 1, |st.questions| + 1, row.answers);
  }

  /** The answers of a new question have as many correct ones among them as the row. */
  lemma {:induction false} NewAnswersCorrect(firstId: nat, qid: nat, answers: seq<AnswerType>)
    ensures |CorrectAnswersOf(NewAnswers(firstId, qid, answers), qid)| == |CorrectAnswers(answers)|
    decreases |answers|
  {
    if answers != [] {
      var head := [Answer(firstId, qid, answers[0].isCorrect, answers[0].key, answers[0].text)];
      var tail := NewAnswers(firstId + 1, qid, answers[1..]);
      assert NewAnswers(firstId, qid, answers) == head + tail;
      CorrectAnswersOfAppend(head, tail, qid);
      assert head == [] + head;
      CorrectAnswersOfAppend([], head, qid);
      NewAnswersCorrect(firstId + 1, qid, answers[1..]);
    }
  }

  /** A call succeeds exactly when the question is new, exactly one of its answers is
      correct and their keys are pairwise different; a successful call commits the
      question and its answers, and any other outcome leaves the database as it was. */
  lemma IngestOutcome(st: Store, row: ProcessedRow, path: string, now: int)
    requires Valid(st)
    ensures Ingest(st, row, path, now).result == Ok(true)
        <==> && !HasQuestion(st.questions, row.question.text, row.question.explanation)
             && ExactlyOneCorrect(row.answers) && DistinctAnswerKeys(row.answers)
    ensures Ingest(st, row, path, now).result == Ok(true) ==>
              Ingest(st, row, path, now).store == AddedStore(st, row, path, now)
    ensures Ingest(st, row, path, now).result != Ok(true) ==> Ingest(st, row, path, now).store == st
  {
    var text, explanation := row.question.text, row.question.explanation;
    if HasQuestion(st.questions, text, explanation) {
      IngestDuplicate(st, row, path, now);
    } else if !ExactlyOneCorrect(row.answers) {
      IngestRejectsRow(st, row, path, now);
    } else if DistinctAnswerKeys(row.answers) {
      IngestAdds(st, row, path, now);
    } else {
      IngestKeyClash(st, row, path, now);
    }
  }

  /** Appending answers that fit, numbered after the last row, keeps every constraint. */
  lemma AppendAnswersValid(s2: Store, news: seq<Answer>)
    requires Valid(s2) && AnswersFit(s2, news)
    requires forall k :: 0 <= k < |news| ==> news[k].id == |s2.answers| + 1 + k
    ensures Valid(s2.(answers := s2.answers + news))
  {
    var s3 := s2.(answers := s2.answers + news);
    var n := |s2.answers|;
    forall i | 0 <= i < |s3.answers|
      ensures s3.answers[i].id == i + 1 && 1 <= s3.answers[i].questionId <= |s3.questions|
    {
      if i < n {
        assert s3.answers[i] == s2.answers[i];
      } else {
        assert s3.answers[i] == news[i - n];
      }
    }
    assert RowIds(s3);
    assert ForeignKeys(s3);
  }

  /** The committed database of a successful call satisfies every constraint. */
  lemma AddedStoreValid(st: Store, row: ProcessedRow, path: string, now: int)
    requires Valid(st)
    requires !HasQuestion(st.questions, row.question.text, row.question.explanation)
    requires DistinctAnswerKeys(row.answers)
    ensures Valid(AddedStore(st, row, path, now))
  {
    var text, explanation := row.question.text, row.question.explanation;
    FilenameGetOrCreateFacts(st, path);
    var (s1, fid) := FilenameGetOrCreate(st, path);
    InsertQuestionIffValid(s1, text, explanation, fid, now);
    var s2 := WithQuestion(s1, text, explanation, fid, now);
    var news := NewAnswers(|st.answers| + 1, |st.questions| + 1, row.answers);
    NewAnswersFitIff(s2, |st.answers| + 1, |st.questions| + 1, row.answers);
    AppendAnswersValid(s2, news);
    assert s2.(answers := s2.answers + news) == AddedStore(st, row, path, now);
  }

  /** Every call leaves the database satisfying every constraint the schema declares. */
  lemma IngestValid(st: Store, row: ProcessedRow, path: string, now: int)
    requires Valid(st)
    ensures Valid(Ingest(st, row, path, now).store)
  {
    IngestOutcome(st, row, path, now);
    if Ingest(st, row, path, now).result == Ok(true) {
      AddedStoreValid(st, row, path, now);
    }
  }

  /** Adding a question whose new answers hold exactly one correct one keeps the rule that
      each question has exactly one correct answer. */
  lemma AddQuestionKeepsOneCorrect(st: Store, s3: Store, news: seq<Answer>)
    requires OneCorrectPerQuestion(st)
    requires forall i :: 0 <= i < |st.questions| ==> st.questions[i].id == i + 1
    requires forall i :: 0 <= i < |st.answers| ==> st.answers[i].questionId <= |st.questions|
    requires |s3.questions| == |st.questions| + 1 && st.questions <= s3.questions
    requires s3.questions[|st.questions|].id == |st.questions| + 1
    requires s3.answers == st.answers + news
    requires forall i :: 0 <= i < |news| ==> news[i].questionId == |st.questions| + 1
    requires |CorrectAnswersOf(news, |st.questions| + 1)| == 1
    ensures OneCorrectPerQuestion(s3)
  {
    var qid := |st.questions| + 1;
    forall i | 0 <= i < |s3.questions|
      ensures |CorrectAnswersOf(s3.answers, s3.questions[i].id)| == 1
    {
      CorrectAnswersOfAppend(st.answers, news, s3.questions[i].id);
      if i < |st.questions| {
        assert s3.questions[i] == st.questions[i];
        CorrectAnswersOfOther(news, i + 1);
      } else {
        CorrectAnswersOfOther(st.answers, qid);
      }
    }
  }

  /** The committed database of a successful call keeps the rule that each question has
      exactly one correct answer. */
  lemma AddedStoreOneCorrect(st: Store, row: ProcessedRow, path: string, now: int)
    requires RowIds(st) && ForeignKeys(st) && OneCorrectPerQuestion(st)
    requires |CorrectAnswers(row.answers)| == 1
    ensures OneCorrectPerQuestion(AddedStore(st, row, path, now))
  {
    var qid := |st.questions| + 1;
    var s3 := AddedStore(st, row, path, now);
    var news := NewAnswers(|st.answers| + 1, qid, row.answers);
    NewAnswersCorrect(|st.answers| + 1, qid, row.answers);
    assert |CorrectAnswersOf(news, qid)| == 1;
    assert s3.questions[|st.questions|].id == qid;
    AddQuestionKeepsOneCorrect(st, s3, news);
  }

  /** Every call keeps the rule that each question has exactly one correct answer. */
  lemma IngestKeepsOneCorrect(st: Store, row: ProcessedRow, path: string, now: int)
    requires Valid(st) && OneCorrectPerQuestion(st)
    ensures OneCorrectPerQuestion(Ingest(st, row, path, now).store)
  {
    IngestOutcome(st, row, path, now);
    if Ingest(st, row, path, now).result == Ok(true) {
      ValidatePassesIffExactlyOne(row.answers);
      AddedStoreOneCorrect(st, row, path, now);
    }
  }

  /** A row a further call cannot add: its question is there already, or it breaks the
      one-correct-answer rule or the key constraint. */
  ghost predicate Settled(st: Store, row: ProcessedRow) {
    || HasQuestion(st.questions, row.question.text, row.question.explanation)
    || !ExactlyOneCorrect(row.answers)
    || !DistinctAnswerKeys(row.answers)
  }

  /** After a call its row is settled, the database stays valid, and questions are only
      ever appended. */
  lemma IngestSettles(st: Store, row: ProcessedRow, path: string, now: int)
    requires Valid(st)
    ensures Settled(Ingest(st, row, path, now).store, row)
    ensures Valid(Ingest(st, row, path, now).store)
    ensures st.questions <= Ingest(st, row, path, now).store.questions
  {
    IngestOutcome(st, row, path, now);
    IngestValid(st, row, path, now);
    var r := Ingest(st, row, path, now);
    if r.result == Ok(true) {
      var qs := r.store.questions;
      assert qs[|st.questions|].text == row.question.text
        && qs[|st.questions|].explanation == row.question.explanation;
    }
  }

  /** A call with a settled row changes nothing. */
  lemma SettledUnchanged(st: Store, row: ProcessedRow, path: string, now: int)
    requires Valid(st) && Settled(st, row)
    ensures Ingest(st, row, path, now).store == st
  {
    IngestOutcome(st, row, path, now);
  }

  /** A row stays settled once more questions are appended. */
  lemma SettledGrows(st: Store, st': Store, row: ProcessedRow)
    requires Settled(st, row) && st.questions <= st'.questions
    ensures Settled(st', row)
  {
    if HasQuestion(st.questions, row.question.text, row.question.explanation) {
      var i :| 0 <= i < |st.questions| && st.questions[i].text == row.question.text
        && st.questions[i].explanation == row.question.explanation;
      assert st'.questions[i] == st.questions[i];
    }
  }

  /** `add_question_and_answers` called on each row in turn, each call on the database the
      previous one left; a call that fails leaves it unchanged, so the rest go on. */
  function IngestEach(st: Store, rows: seq<ProcessedRow>, path: string, now: int): Store
    decreases |rows|
  {
    if rows == [] then st
    else IngestEach(Ingest(st, rows[0], path, now).store, rows[1..], path, now)
  }

  /** After the calls the database is valid, every row is settled and the questions that
      were there come first. */
  lemma {:induction false} IngestEachSettles(st: Store, rows: seq<ProcessedRow>, path: string, now: int)
    requires Valid(st)
    ensures Valid(IngestEach(st, rows, path, now))
    ensures st.questions <= IngestEach(st, rows, path, now).questions
    ensures forall i :: 0 <= i < |rows| ==> Settled(IngestEach(st, rows, path, now), rows[i])
    decreases |rows|
  {
    if rows != [] {
      var s1 := Ingest(st, rows[0], path, now).store;
      IngestSettles(st, rows[0], path, now);
      IngestEachSettles(s1, rows[1..], path, now);
      var f := IngestEach(s1, rows[1..], path, now);
      SettledGrows(s1, f, rows[0]);
      forall i | 1 <= i < |rows| ensures Settled(f, rows[i]) {
        assert rows[i] == rows[1..][i - 1];
      }
    }
  }

  /** Calls on settled rows change nothing. */
  lemma {:induction false} IngestEachSettledUnchanged(st: Store, rows: seq<ProcessedRow>, path: string, now: int)
    requires Valid(st)
    requires forall i :: 0 <= i < |rows| ==> Settled(st, rows[i])
    ensures IngestEach(st, rows, path, now) == st
    decreases |rows|
  {
    if rows != [] {
      SettledUnchanged(st, rows[0], path, now);
      forall i | 0 <= i < |rows[1..]| ensures Settled(st, rows[1..][i]) {
        assert rows[1..][i] == rows[i + 1];
      }
      IngestEachSettledUnchanged(st, rows[1..], path, now);
    }
  }

  /** Adding the same rows a second time changes nothing: the question count stays at the
      value after the first pass. */
  lemma IngestEachTwice(st: Store, rows: seq<ProcessedRow>, path: string, now: int, later: int)
    requires Valid(st)
    ensures IngestEach(IngestEach(st, rows, path, now), rows, path, later)
         == IngestEach(st, rows, path, now)
  {
    IngestEachSettles(st, rows, path, now);
    IngestEachSettledUnchanged(IngestEach(st, rows, path, now), rows, path, later);
  }
}
