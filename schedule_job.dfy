/** The scheduled broadcast (schedule_job.py `_job`): one nudge attempt per scheduled user
    whose exam is still ahead, in the order the users are listed, each failure logged and
    the loop carried on. */
module ScheduleJob {
  import opened Outcomes
  import opened Schema
  import opened UserManager
  import opened SendNudge

  /** What `_job` logs for a user: the info line after `send_nudge` returns (also when it
      decided to skip), or the error line with the exception. */
  datatype LogEntry = NudgeSent(userId: int) | NudgeFailed(userId: int, error: Error)

  /** The outcome of one user's turn: its log line and the messages sent. */
  function Turn(st: Store, user: User, today: int, attemptedOf: int -> int, targetOf: int -> int,
                delivers: int -> bool): (r: (LogEntry, seq<Nudge>))
    ensures r.0.userId == user.id && |r.1| <= 1
    ensures forall n :: n in r.1 ==>
              n.chat == user.id && n.buttonData == user.id && attemptedOf(user.id) < targetOf(user.id)
    ensures user in st.users && r.0.NudgeFailed? ==> r.0.error == DispatchFailure && !delivers(user.id)
  {
    SendFacts(st, user.id, attemptedOf(user.id), targetOf(user.id), today, delivers(user.id));
    assert user in st.users ==> HasUser(st.users, user.id);
    match Send(st, user.id, attemptedOf(user.id), targetOf(user.id), today, delivers(user.id))
    case Err(e) => (NudgeFailed(user.id, e), [])
    case Ok(None) => (NudgeSent(user.id), [])
    case Ok(Some(n)) => (NudgeSent(user.id), [n])
  }

  /** The log lines of the turns of `users`, in order. */
  function JobLog(st: Store, users: seq<User>, today: int, attemptedOf: int -> int,
                  targetOf: int -> int, delivers: int -> bool): seq<LogEntry>
  {
    if users == [] then []
    else JobLog(st, users[..|users| - 1], today, attemptedOf, targetOf, delivers)
         + [Turn(st, users[|users| - 1], today, attemptedOf, targetOf, delivers).0]
  }

  /** The messages the turns of `users` send, in order. */
  function JobNudges(st: Store, users: seq<User>, today: int, attemptedOf: int -> int,
                     targetOf: int -> int, delivers: int -> bool): seq<Nudge>
  {
    if users == [] then []
    else JobNudges(st, users[..|users| - 1], today, attemptedOf, targetOf, delivers)
         + Turn(st, users[|users| - 1], today, attemptedOf, targetOf, delivers).1
  }

  /** One more turn extends the log by its line and the messages by what it sent. */
  lemma JobStep(st: Store, users: seq<User>, i: nat, today: int, attemptedOf: int -> int,
                targetOf: int -> int, delivers: int -> bool)
    requires i < |users|
    ensures var turn := Turn(st, users[i], today, attemptedOf, targetOf, delivers);
      && JobLog(st, users[..i + 1], today, attemptedOf, targetOf, delivers)
         == JobLog(st, users[..i], today, attemptedOf, targetOf, delivers) + [turn.0]
      && JobNudges(st, users[..i + 1], today, attemptedOf, targetOf, delivers)
         == JobNudges(st, users[..i], today, attemptedOf, targetOf, delivers) + turn.1
  {
    assert users[..i + 1][..i] == users[..i];
    assert users[..i + 1][i] == users[i];
  }

  /** `_job()` on day `today`: the users `get_scheduled_users()` lists are nudged one after
      the other; an exception in one turn is logged and the next turn runs. */
  method Job(db: Database, today: int, attemptedOf: int -> int, targetOf: int -> int,
             delivers: int -> bool) returns (log: seq<LogEntry>, sent: seq<Nudge>)
    ensures var users := GetScheduledUsers(db.committed, today, true);
      log == JobLog(db.committed, users, today, attemptedOf, targetOf, delivers)
      && sent == JobNudges(db.committed, users, today, attemptedOf, targetOf, delivers)
  {
    var st := db.committed;
    var users := GetScheduledUsers(st, today, true);
    log, sent := [], [];
    for i := 0 to |users|
      invariant log == JobLog(st, users[..i], today, attemptedOf, targetOf, delivers)
      invariant sent == JobNudges(st, users[..i], today, attemptedOf, targetOf, delivers)
    {
      var user := users[i];
      JobStep(st, users, i, today, attemptedOf, targetOf, delivers);
      ghost var turn := Turn(st, user, today, attemptedOf, targetOf, delivers);
      var r := Send(st, user.id, attemptedOf(user.id), targetOf(user.id), today, delivers(user.id));
      match r {
        case Err(e) =>
          assert turn == (NudgeFailed(user.id, e), []);
          log := log + [NudgeFailed(user.id, e)];
          assert sent == sent + turn.1;
        case Ok(nudge) =>
          if nudge.Some? {
            assert turn == (NudgeSent(user.id), [nudge.value]);
            sent := sent + [nudge.value];
          } else {
            assert turn == (NudgeSent(user.id), []);
            assert sent == sent + turn.1;
          }
          log := log + [NudgeSent(user.id)];
      }
    }
    assert users[..|users|] == users;
  }

  /** Every user gets exactly one log line, in the order of the list, whatever earlier
      turns did: no failure stops the loop. */
  lemma {:induction false} JobLogOnePerUser(st: Store, users: seq<User>, today: int,
                                            attemptedOf: int -> int, targetOf: int -> int,
                                            delivers: int -> bool)
    ensures var log := JobLog(st, users, today, attemptedOf, targetOf, delivers);
      |log| == |users| && forall i :: 0 <= i < |users| ==> log[i].userId == users[i].id
  {
    if users != [] {
      JobLogOnePerUser(st, users[..|users| - 1], today, attemptedOf, targetOf, delivers);
    }
  }

  /** At most one message per user, and every message goes to a listed user who was below
      target, with that user's id on the button. */
  lemma {:induction false} JobNudgesTargets(st: Store, users: seq<User>, today: int,
                                            attemptedOf: int -> int, targetOf: int -> int,
                                            delivers: int -> bool)
    ensures var sent := JobNudges(st, users, today, attemptedOf, targetOf, delivers);
      && |sent| <= |users|
      && forall n :: n in sent ==>
           n.chat == n.buttonData
           && exists u :: u in users && n.chat == u.id && attemptedOf(u.id) < targetOf(u.id)
  {
    if users != [] {
      var init := users[..|users| - 1];
      var u := users[|users| - 1];
      JobNudgesTargets(st, init, today, attemptedOf, targetOf, delivers);
      var prev := JobNudges(st, init, today, attemptedOf, targetOf, delivers);
      var t := Turn(st, u, today, attemptedOf, targetOf, delivers).1;
      forall n: Nudge | n in prev + t
        ensures n.chat == n.buttonData
        ensures exists v :: v in users && n.chat == v.id && attemptedOf(v.id) < targetOf(v.id)
      {
        if n in prev {
          var v :| v in init && n.chat == v.id && attemptedOf(v.id) < targetOf(v.id);
          assert v in users;
        } else {
          assert u in users;
        }
      }
    }
  }

  /** For the users the store lists, the lookup never fails, so the only failures logged
      are failed deliveries. */
  lemma {:induction false} JobFailuresAreDeliveries(st: Store, users: seq<User>, today: int,
                                                    attemptedOf: int -> int, targetOf: int -> int,
                                                    delivers: int -> bool)
    requires forall i :: 0 <= i < |users| ==> users[i] in st.users
    ensures var log := JobLog(st, users, today, attemptedOf, targetOf, delivers);
      forall i :: 0 <= i < |log| && log[i].NudgeFailed? ==>
        log[i].error == DispatchFailure && !delivers(log[i].userId)
  {
    if users != [] {
      var init := users[..|users| - 1];
      assert forall i :: 0 <= i < |init| ==> init[i] == users[i];
      JobFailuresAreDeliveries(st, init, today, attemptedOf, targetOf, delivers);
      assert var log := JobLog(st, init, today, attemptedOf, targetOf, delivers);
        forall i :: 0 <= i < |log| && log[i].NudgeFailed? ==>
          log[i].error == DispatchFailure && !delivers(log[i].userId);
      var u := users[|users| - 1];
      var t := Turn(st, u, today, attemptedOf, targetOf, delivers);
      var prev := JobLog(st, init, today, attemptedOf, targetOf, delivers);
      var log := JobLog(st, users, today, attemptedOf, targetOf, delivers);
      assert log == prev + [t.0];
      assert u in st.users && t.0.userId == u.id;
      forall i | 0 <= i < |log| && log[i].NudgeFailed?
        ensures log[i].error == DispatchFailure && !delivers(log[i].userId)
      {
        if i < |prev| {
          assert log[i] == prev[i];
        } else {
          assert log[i] == t.0;
        }
      }
    }
  }

  /** Only scheduled users whose exam is strictly after today are nudged, and the only
      failures the job logs are failed deliveries. */
  lemma JobScope(st: Store, today: int, attemptedOf: int -> int, targetOf: int -> int,
                 delivers: int -> bool)
    ensures var users := GetScheduledUsers(st, today, true);
      var sent := JobNudges(st, users, today, attemptedOf, targetOf, delivers);
      forall n :: n in sent ==>
        exists u :: u in st.users && u.isScheduled && u.examDt > today && u.id == n.chat
    ensures var log := JobLog(st, GetScheduledUsers(st, today, true), today, attemptedOf, targetOf, delivers);
      forall i :: 0 <= i < |log| && log[i].NudgeFailed? ==> log[i].error == DispatchFailure
  {
    var users := GetScheduledUsers(st, today, true);
    forall i | 0 <= i < |users| ensures users[i] in st.users {
      ScheduledUsersMembers(st, today, true, users[i]);
    }
    JobFailuresAreDeliveries(st, users, today, attemptedOf, targetOf, delivers);
    JobNudgesTargets(st, users, today, attemptedOf, targetOf, delivers);
    var sent := JobNudges(st, users, today, attemptedOf, targetOf, delivers);
    forall n: Nudge | n in sent
      ensures exists u :: u in st.users && u.isScheduled && u.examDt > today && u.id == n.chat
    {
      var v :| v in users && n.chat == v.id && attemptedOf(v.id) < targetOf(v.id);
      ScheduledUsersMembers(st, today, true, v);
      assert v in st.users && v.isScheduled && v.examDt > today && v.id == n.chat;
    }
  }
}
