/** The five tables of the question bank (db/schema.py) as one store value, the table
    constraints as a validity predicate, and the database the managers work against.
    Tables are kept in rowid order; the tables with an integer key the database assigns
    hold their rows with ids 1, 2, 3, ..., and the user table, whose key is the Telegram
    id, is ordered by that id. */
module Schema {
  import opened Outcomes

  /** `Question`; `added_dt` is the time of the insert. */
  datatype Question = Question(id: nat, text: string, filenameId: nat, addedDt: int, explanation: string)

  /** `Answer`; `key` is the option's ordinal (A is 0, B is 1, ...). */
  datatype Answer = Answer(id: nat, questionId: nat, isCorrect: bool, key: int, text: string)

  /** `Filename`. */
  datatype Filename = Filename(id: nat, path: string)

  /** `Attempt`: a user's choice of an answer, at `attemptDt`. */
  datatype Attempt = Attempt(id: nat, userId: int, answerId: nat, attemptDt: int)

  /** `User`; `id` is the Telegram user id, dates are day numbers. */
  datatype User = User(id: int, joinedDt: int, examDt: int, isScheduled: bool)

  datatype Store = Store(
    questions: seq<Question>,
    answers: seq<Answer>,
    filenames: seq<Filename>,
    attempts: seq<Attempt>,
    users: seq<User>)

  const EmptyStore: Store := Store([], [], [], [], [])

  /** The database assigns ids 1, 2, 3, ... in insertion order (no row is ever deleted). */
  predicate RowIds(st: Store) {
    && (forall i :: 0 <= i < |st.questions| ==> st.questions[i].id == i + 1)
    && (forall i :: 0 <= i < |st.answers| ==> st.answers[i].id == i + 1)
    && (forall i :: 0 <= i < |st.filenames| ==> st.filenames[i].id == i + 1)
    && (forall i :: 0 <= i < |st.attempts| ==> st.attempts[i].id == i + 1)
  }

  /** `UniqueConstraint("text", "explanation")`. */
  predicate UniqueQuestions(qs: seq<Question>) {
    forall i, j :: 0 <= i < j < |qs| ==>
      !(qs[i].text == qs[j].text && qs[i].explanation == qs[j].explanation)
  }

  /** `UniqueConstraint("key", "question_id")`. */
  predicate UniqueAnswers(ans: seq<Answer>) {
    forall i, j :: 0 <= i < j < |ans| ==>
      !(ans[i].key == ans[j].key && ans[i].questionId == ans[j].questionId)
  }

  /** `path` is unique. */
  predicate UniquePaths(fs: seq<Filename>) {
    forall i, j :: 0 <= i < j < |fs| ==> fs[i].path != fs[j].path
  }

  /** `UniqueConstraint("user_id", "answer_id")`. */
  predicate UniqueAttempts(ats: seq<Attempt>) {
    forall i, j :: 0 <= i < j < |ats| ==>
      !(ats[i].userId == ats[j].userId && ats[i].answerId == ats[j].answerId)
  }

  /** The user id is an integer primary key, which SQLite makes the rowid: ids are unique
      and the table is stored, and scanned, in ascending id order. */
  predicate UsersInIdOrder(us: seq<User>) {
    forall i, j :: 0 <= i < j < |us| ==> us[i].id < us[j].id
  }

  /** Some user has this id. */
  predicate HasUser(us: seq<User>, id: int) {
    exists j :: 0 <= j < |us| && us[j].id == id
  }

  /** The foreign keys: each question's filename, each answer's question, each attempt's
      user and answer exist. */
  predicate ForeignKeys(st: Store) {
    && (forall i :: 0 <= i < |st.questions| ==> 1 <= st.questions[i].filenameId <= |st.filenames|)
    && (forall i :: 0 <= i < |st.answers| ==> 1 <= st.answers[i].questionId <= |st.questions|)
    && (forall i :: 0 <= i < |st.attempts| ==> 1 <= st.attempts[i].answerId <= |st.answers|)
    && (forall i :: 0 <= i < |st.attempts| ==> HasUser(st.users, st.attempts[i].userId))
  }

  /** Every constraint the schema declares. */
  predicate Valid(st: Store) {
    && RowIds(st)
    && UniqueQuestions(st.questions)
    && UniqueAnswers(st.answers)
    && UniquePaths(st.filenames)
    && UniqueAttempts(st.attempts)
    && UsersInIdOrder(st.users)
    && ForeignKeys(st)
  }

  /** The empty database satisfies every constraint. */
  lemma EmptyStoreValid()
    ensures Valid(EmptyStore)
  {
  }

  /** The answers of the question with id `qid`, in table order. */
  function AnswersOf(ans: seq<Answer>, qid: nat): (r: seq<Answer>)
    ensures |r| <= |ans|
    ensures forall i :: 0 <= i < |r| ==> r[i].questionId == qid
  {
    if ans == [] then []
    else AnswersOf(ans[..|ans| - 1], qid)
         + (if ans[|ans| - 1].questionId == qid then [ans[|ans| - 1]] else [])
  }

  /** The correct answers of the question with id `qid`, in table order. */
  function CorrectAnswersOf(ans: seq<Answer>, qid: nat): (r: seq<Answer>)
    ensures |r| <= |ans|
    ensures forall i :: 0 <= i < |r| ==> r[i].questionId == qid && r[i].isCorrect
  {
    if ans == [] then []
    else CorrectAnswersOf(ans[..|ans| - 1], qid)
         + (var a := ans[|ans| - 1]; if a.questionId == qid && a.isCorrect then [a] else [])
  }

  /** The correct answers of a question split along a concatenation of tables. */
  lemma {:induction false} CorrectAnswersOfAppend(a: seq<Answer>, b: seq<Answer>, qid: nat)
    ensures CorrectAnswersOf(a + b, qid) == CorrectAnswersOf(a, qid) + CorrectAnswersOf(b, qid)
  {
    if b == [] {
      assert a + b == a;
    } else {
      var c := a + b;
      assert c[..|c| - 1] == a + b[..|b| - 1];
      assert c[|c| - 1] == b[|b| - 1];
      CorrectAnswersOfAppend(a, b[..|b| - 1], qid);
    }
  }

  /** A table with no answer of the question has no correct answer of it. */
  lemma {:induction false} CorrectAnswersOfOther(ans: seq<Answer>, qid: nat)
    requires forall i :: 0 <= i < |ans| ==> ans[i].questionId != qid
    ensures CorrectAnswersOf(ans, qid) == []
  {
    if ans != [] {
      CorrectAnswersOfOther(ans[..|ans| - 1], qid);
    }
  }

  /** The rule ingestion enforces (and the schema does not): every question has exactly
      one correct answer. */
  predicate OneCorrectPerQuestion(st: Store) {
    forall i :: 0 <= i < |st.questions| ==> |CorrectAnswersOf(st.answers, st.questions[i].id)| == 1
  }

  /** A sequence of answers in strictly ascending key order. */
  predicate SortedByKey(ans: seq<Answer>) {
    forall i, j :: 0 <= i < j < |ans| ==> ans[i].key < ans[j].key
  }

  /** Places `a` among answers sorted by key, before the first one with a larger key. */
  function InsertByKey(a: Answer, sorted: seq<Answer>): (r: seq<Answer>)
    ensures multiset(r) == multiset(sorted) + multiset{a}
    ensures |r| == |sorted| + 1
  {
    if sorted == [] || a.key <= sorted[0].key then [a] + sorted
    else
      assert sorted == [sorted[0]] + sorted[1..];
      [sorted[0]] + InsertByKey(a, sorted[1..])
  }

  /** A bound below the inserted key and below every key of the list stays below every
      key after the insertion. */
  lemma {:induction false} InsertByKeyAbove(a: Answer, sorted: seq<Answer>, bound: int)
    requires bound < a.key
    requires forall i :: 0 <= i < |sorted| ==> bound < sorted[i].key
    ensures forall j :: 0 <= j < |InsertByKey(a, sorted)| ==> bound < InsertByKey(a, sorted)[j].key
  {
    if sorted != [] && a.key > sorted[0].key {
      var tail := sorted[1..];
      assert forall i :: 0 <= i < |tail| ==> tail[i] == sorted[i + 1];
      InsertByKeyAbove(a, tail, bound);
      var r := InsertByKey(a, sorted);
      assert r == [sorted[0]] + InsertByKey(a, tail);
    }
  }

  /** Inserting an answer whose key no element has keeps the order strict. */
  lemma {:induction false} InsertByKeySorted(a: Answer, sorted: seq<Answer>)
    requires SortedByKey(sorted)
    requires forall i :: 0 <= i < |sorted| ==> sorted[i].key != a.key
    ensures SortedByKey(InsertByKey(a, sorted))
  {
    if sorted != [] && a.key > sorted[0].key {
      var first, tail := sorted[0], sorted[1..];
      assert forall i :: 0 <= i < |tail| ==> tail[i] == sorted[i + 1];
      InsertByKeySorted(a, tail);
      InsertByKeyAbove(a, tail, first.key);
      var rest := InsertByKey(a, tail);
      var r := [first] + rest;
      assert InsertByKey(a, sorted) == r;
      forall i, j | 0 <= i < j < |r| ensures r[i].key < r[j].key {
        assert r[j] == rest[j - 1];
        if i > 0 {
          assert r[i] == rest[i - 1];
        }
      }
    }
  }

  /** `order_by="Answer.key"`: the answers sorted by key. */
  function SortByKey(ans: seq<Answer>): (r: seq<Answer>)
    ensures multiset(r) == multiset(ans)
  {
    if ans == [] then []
    else
      assert ans == ans[..|ans| - 1] + [ans[|ans| - 1]];
      InsertByKey(ans[|ans| - 1], SortByKey(ans[..|ans| - 1]))
  }

  /** Answers with pairwise different keys, sorted, are in strictly ascending key order. */
  lemma {:induction false} SortByKeySorted(ans: seq<Answer>)
    requires forall i, j :: 0 <= i < j < |ans| ==> ans[i].key != ans[j].key
    ensures SortedByKey(SortByKey(ans))
  {
    if ans != [] {
      var init, last := ans[..|ans| - 1], ans[|ans| - 1];
      SortByKeySorted(init);
      var s := SortByKey(init);
      forall i | 0 <= i < |s| ensures s[i].key != last.key {
        assert s[i] in multiset(init);
        var k :| 0 <= k < |init| && init[k] == s[i];
      }
      InsertByKeySorted(last, s);
    }
  }

  /** `Question.answers`: the question's answers, ordered by key. */
  function QuestionAnswers(st: Store, qid: nat): seq<Answer>
  {
    SortByKey(AnswersOf(st.answers, qid))
  }

  /** An answer is kept exactly when it is in the table and references the question. */
  lemma {:induction false} AnswersOfMembers(ans: seq<Answer>, qid: nat, a: Answer)
    ensures a in AnswersOf(ans, qid) <==> a in ans && a.questionId == qid
  {
    if ans != [] {
      AnswersOfMembers(ans[..|ans| - 1], qid, a);
      assert ans == ans[..|ans| - 1] + [ans[|ans| - 1]];
    }
  }

  /** The answers of one question inherit the uniqueness of (key, question). */
  lemma {:induction false} AnswersOfUnique(ans: seq<Answer>, qid: nat)
    requires UniqueAnswers(ans)
    ensures UniqueAnswers(AnswersOf(ans, qid))
  {
    if ans != [] {
      var init := ans[..|ans| - 1];
      var last := ans[|ans| - 1];
      assert UniqueAnswers(init) by {
        forall i, j | 0 <= i < j < |init|
          ensures !(init[i].key == init[j].key && init[i].questionId == init[j].questionId)
        {
          assert init[i] == ans[i] && init[j] == ans[j];
        }
      }
      AnswersOfUnique(init, qid);
      var prev := AnswersOf(init, qid);
      if last.questionId == qid {
        forall i | 0 <= i < |prev|
          ensures !(prev[i].key == last.key && prev[i].questionId == last.questionId)
        {
          AnswersOfMembers(init, qid, prev[i]);
          var k :| 0 <= k < |init| && init[k] == prev[i];
          assert ans[k] == prev[i];
        }
        var r := prev + [last];
        forall i, j | 0 <= i < j < |r|
          ensures !(r[i].key == r[j].key && r[i].questionId == r[j].questionId)
        {
          if j < |prev| {
            assert r[i] == prev[i] && r[j] == prev[j];
          } else {
            assert r[i] == prev[i] && r[j] == last;
          }
        }
      }
    }
  }

  /** In a valid store a question's answers are listed in strictly ascending key order,
      and they are exactly the answers that reference the question. */
  lemma QuestionAnswersOrdered(st: Store, qid: nat)
    requires UniqueAnswers(st.answers)
    ensures SortedByKey(QuestionAnswers(st, qid))
    ensures forall a :: a in QuestionAnswers(st, qid) <==> a in st.answers && a.questionId == qid
  {
    var own := AnswersOf(st.answers, qid);
    AnswersOfUnique(st.answers, qid);
    forall i, j | 0 <= i < j < |own| ensures own[i].key != own[j].key {
    }
    SortByKeySorted(own);
    forall a ensures a in QuestionAnswers(st, qid) <==> a in st.answers && a.questionId == qid {
      AnswersOfMembers(st.answers, qid, a);
      assert a in QuestionAnswers(st, qid) <==> a in multiset(own);
    }
  }

  /** `User(id=…, exam_dt=…)`: a new user joins now and is scheduled by default. */
  function NewUser(id: int, examDt: int, now: int): (u: User)
    ensures u.id == id && u.examDt == examDt
    ensures u.isScheduled
  {
    User(id, now, examDt, true)
  }

  /** The database: its committed state, and the state a open session sees, with its
      flushed but uncommitted changes. Between operations the two agree. */
  class Database {
    var committed: Store
    var session: Store

    /** No session has uncommitted changes. */
    predicate Idle()
      reads this
    {
      session == committed
    }

    /** A freshly created database: all tables exist and are empty. */
    constructor ()
      ensures committed == EmptyStore && Idle()
    {
      committed := EmptyStore;
      session := EmptyStore;
    }

    /** `sess.commit()`: the session's changes become the database's. */
    method Commit()
      modifies this
      ensures committed == old(session) && session == old(session)
    {
      committed := session;
    }

    /** `sess.rollback()` (and closing a session without committing): the session's
        changes are discarded. */
    method Rollback()
      modifies this
      ensures session == old(committed) && committed == old(committed)
    {
      session := committed;
    }
  }
}
