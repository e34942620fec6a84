/** Recording a user's answer (managers/attempt.py). */
module AttemptManager {
  import opened Outcomes
  import opened Schema
  import opened Seqs

  /** The position of the first attempt of the user on the answer. */
  function FindAttempt(ats: seq<Attempt>, userId: int, answerId: int): (r: Option<nat>)
    ensures r.None? <==> forall i :: 0 <= i < |ats| ==>
                           !(ats[i].userId == userId && ats[i].answerId == answerId)
    ensures r.Some? ==> r.value < |ats| && ats[r.value].userId == userId && ats[r.value].answerId == answerId
  {
    FindFirst(ats, (a: Attempt) => a.userId == userId && a.answerId == answerId)
  }

  /** `add_or_update_user_attempt` at time `now`: nothing changes when the user already
      has an attempt on the answer; otherwise one attempt is inserted and committed, which
      fails with IntegrityError when the answer or the user does not exist. */
  function RecordAttempt(st: Store, userId: int, answerId: int, now: int): (r: Result<Store>)
    ensures r.Ok? <==> FindAttempt(st.attempts, userId, answerId).Some?
                       || (1 <= answerId <= |st.answers| && HasUser(st.users, userId))
    ensures r.Err? ==> r.error == IntegrityError
    ensures FindAttempt(st.attempts, userId, answerId).Some? ==> r == Ok(st)
  {
    if FindAttempt(st.attempts, userId, answerId).Some? then Ok(st)
    else if !(1 <= answerId <= |st.answers|) || !HasUser(st.users, userId) then Err(IntegrityError)
    else Ok(st.(attempts := st.attempts + [Attempt(|st.attempts| + 1, userId, answerId, now)]))
  }

  /** Exactly one attempt of the user on the answer. */
  predicate OneAttemptFor(ats: seq<Attempt>, userId: int, answerId: int) {
    exists i :: 0 <= i < |ats| && ats[i].userId == userId && ats[i].answerId == answerId
      && forall j :: 0 <= j < |ats| && ats[j].userId == userId && ats[j].answerId == answerId ==> j == i
  }

  /** A successful call keeps every constraint, leaves exactly one attempt for the pair,
      keeps every earlier attempt (its timestamp included), and adds nothing for any other
      pair. */
  lemma RecordAttemptFacts(st: Store, userId: int, answerId: int, now: int)
    requires Valid(st) && RecordAttempt(st, userId, answerId, now).Ok?
    ensures var s := RecordAttempt(st, userId, answerId, now).value;
      && Valid(s)
      && OneAttemptFor(s.attempts, userId, answerId)
      && st.attempts <= s.attempts && |s.attempts| <= |st.attempts| + 1
      && (forall i :: |st.attempts| <= i < |s.attempts| ==>
            s.attempts[i].userId == userId && s.attempts[i].answerId == answerId)
      && s == st.(attempts := s.attempts)
  {
    var s := RecordAttempt(st, userId, answerId, now).value;
    var found := FindAttempt(st.attempts, userId, answerId);
    if found.Some? {
      var i := found.value;
      forall j | 0 <= j < |st.attempts| && st.attempts[j].userId == userId && st.attempts[j].answerId == answerId
        ensures j == i
      {
        assert st.attempts[j].userId == st.attempts[i].userId && st.attempts[j].answerId == st.attempts[i].answerId;
      }
    } else {
      var n := |st.attempts|;
      assert s.attempts[n].userId == userId && s.attempts[n].answerId == answerId;
      forall j | 0 <= j < n ensures !(s.attempts[j].userId == userId && s.attempts[j].answerId == answerId) {
        assert s.attempts[j] == st.attempts[j];
      }
      forall i, j | 0 <= i < j < |s.attempts|
        ensures !(s.attempts[i].userId == s.attempts[j].userId && s.attempts[i].answerId == s.attempts[j].answerId)
      {
        assert s.attempts[i] == st.attempts[i];
        if j < n {
          assert s.attempts[j] == st.attempts[j];
        }
      }
      assert RowIds(s);
      assert ForeignKeys(s);
    }
  }

  /** Recording the same attempt again, at any later time, changes nothing. */
  lemma RecordAttemptIdempotent(st: Store, userId: int, answerId: int, now: int, later: int)
    requires RecordAttempt(st, userId, answerId, now).Ok?
    ensures var s := RecordAttempt(st, userId, answerId, now).value;
      RecordAttempt(s, userId, answerId, later) == Ok(s)
  {
    var s := RecordAttempt(st, userId, answerId, now).value;
    if FindAttempt(st.attempts, userId, answerId).None? {
      assert s.attempts[|st.attempts|].userId == userId && s.attempts[|st.attempts|].answerId == answerId;
    } else {
      var i := FindAttempt(st.attempts, userId, answerId).value;
      assert s.attempts[i].userId == userId && s.attempts[i].answerId == answerId;
    }
  }

  /** `add_or_update_user_attempt(user_id, answer_id)`: the lookup, and for a new pair the
      insert and the commit; a failed commit leaves the database as it was. */
  method AddOrUpdateUserAttempt(db: Database, userId: int, answerId: int, now: int)
    returns (r: Outcome)
    requires db.Idle()
    modifies db
    ensures db.Idle()
    ensures RecordAttempt(old(db.committed), userId, answerId, now).Ok? ==>
              r == Pass && db.committed == RecordAttempt(old(db.committed), userId, answerId, now).value
    ensures RecordAttempt(old(db.committed), userId, answerId, now).Err? ==>
              r == Fail(IntegrityError) && db.committed == old(db.committed)
  {
    var attempt := FindAttempt(db.session.attempts, userId, answerId);
    if attempt.None? {
      if !(1 <= answerId <= |db.session.answers|) || !HasUser(db.session.users, userId) {
        db.Rollback();
        return Fail(IntegrityError);
      }
      var added := Attempt(|db.session.attempts| + 1, userId, answerId, now);
      db.session := db.session.(attempts := db.session.attempts + [added]);
      db.Commit();
    }
    return Pass;
  }
}
