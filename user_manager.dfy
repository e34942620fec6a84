/** Users and their exam dates (managers/user.py). Dates are day numbers. */
module UserManager {
  import opened Outcomes
  import opened Schema
  import opened Seqs

  /** The position of the user with that id. */
  function FindUser(us: seq<User>, userId: int): (r: Option<nat>)
    ensures r.None? <==> !HasUser(us, userId)
    ensures r.Some? ==> r.value < |us| && us[r.value].id == userId
  {
    if us == [] then None
    else if us[0].id == userId then Some(0)
    else
      match FindUser(us[1..], userId)
      case None => (assert forall j :: 1 <= j < |us| ==> us[j] == us[1..][j - 1]; None)
      case Some(k) => Some(k + 1)
  }

  /** The user table with `u` stored at its id position, as SQLite stores a row whose
      integer primary key is `u.id`. */
  function InsertUserById(us: seq<User>, u: User): (r: seq<User>)
    ensures |r| == |us| + 1 && multiset(r) == multiset(us) + multiset{u}
  {
    if us == [] || u.id < us[0].id then [u] + us
    else
      assert us == [us[0]] + us[1..];
      [us[0]] + InsertUserById(us[1..], u)
  }

  /** `add_user(user_id, exam_dt)` at time `now`: a new user with that exam date when the id
      is unknown, otherwise the existing user with only its exam date replaced. */
  function UpsertUser(st: Store, userId: int, examDt: int, now: int): Store
  {
    match FindUser(st.users, userId)
    case None => st.(users := InsertUserById(st.users, NewUser(userId, examDt, now)))
    case Some(k) => st.(users := st.users[k := st.users[k].(examDt := examDt)])
  }

  /** `get_user`: the user with that id, and ValueError when there is none. */
  function GetUser(st: Store, userId: int): (r: Result<User>)
    ensures r.Err? <==> !HasUser(st.users, userId)
    ensures r.Err? ==> r.error == ValueError
    ensures r.Ok? ==> r.value in st.users && r.value.id == userId
  {
    match FindUser(st.users, userId)
    case None => Err(ValueError)
    case Some(k) => Ok(st.users[k])
  }

  /** `add_user` keeps every constraint and changes only the user table. */
  lemma UpsertUserValid(st: Store, userId: int, examDt: int, now: int)
    requires Valid(st)
    ensures Valid(UpsertUser(st, userId, examDt, now))
    ensures UpsertUser(st, userId, examDt, now) == st.(users := UpsertUser(st, userId, examDt, now).users)
  {
    var s := UpsertUser(st, userId, examDt, now);
    var found := FindUser(st.users, userId);
    if found.None? {
      var u := NewUser(userId, examDt, now);
      InsertUserInOrder(st.users, u);
      UserLookupInsertNew(st.users, u);
      forall other | other != userId ensures HasUser(s.users, other) <==> HasUser(st.users, other) {
        UserLookupInsert(st.users, u, other);
      }
    } else {
      forall i, j | 0 <= i < j < |s.users| ensures s.users[i].id < s.users[j].id {
        assert s.users[i].id == st.users[i].id && s.users[j].id == st.users[j].id;
      }
      forall i | 0 <= i < |st.users| ensures HasUser(s.users, st.users[i].id) {
        assert s.users[i].id == st.users[i].id;
      }
    }
    forall i | 0 <= i < |s.attempts| ensures HasUser(s.users, s.attempts[i].userId) {
      var j :| 0 <= j < |st.users| && st.users[j].id == st.attempts[i].userId;
      assert HasUser(st.users, st.users[j].id);
    }
    assert ForeignKeys(s);
  }

  /** After `add_user(id, d)`, `get_user(id)` returns a user with exam date `d`: a new one
      that joined now and is scheduled, or the existing one with its join date and its
      scheduling flag unchanged; every other user is looked up as before. */
  lemma UpsertUserLookups(st: Store, userId: int, examDt: int, now: int)
    ensures var s := UpsertUser(st, userId, examDt, now);
      && GetUser(s, userId).Ok? && GetUser(s, userId).value.examDt == examDt
      && (GetUser(st, userId).Err? ==> GetUser(s, userId).value == NewUser(userId, examDt, now))
      && (GetUser(st, userId).Ok? ==>
            GetUser(s, userId).value == GetUser(st, userId).value.(examDt := examDt))
      && forall other :: other != userId ==> GetUser(s, other) == GetUser(st, other)
  {
    var s := UpsertUser(st, userId, examDt, now);
    var found := FindUser(st.users, userId);
    if found.None? {
      var u := NewUser(userId, examDt, now);
      UserLookupInsertNew(st.users, u);
      forall other | other != userId ensures GetUser(s, other) == GetUser(st, other) {
        UserLookupInsert(st.users, u, other);
      }
    } else {
      var k := found.value;
      UserLookupUpdate(st.users, k, examDt, userId);
      forall other | other != userId ensures GetUser(s, other) == GetUser(st, other) {
        UserLookupUpdate(st.users, k, examDt, other);
      }
    }
  }

  /** Every id in the table after the insertion is above `bound` when `u.id` and every id
      before it are. */
  lemma InsertUserAbove(us: seq<User>, u: User, bound: int)
    requires bound < u.id && forall i :: 0 <= i < |us| ==> bound < us[i].id
    ensures forall j :: 0 <= j < |InsertUserById(us, u)| ==> bound < InsertUserById(us, u)[j].id
  {
    var r := InsertUserById(us, u);
    forall j | 0 <= j < |r| ensures bound < r[j].id {
      assert r[j] in multiset(r);
      if r[j] != u {
        assert r[j] in multiset(us);
        assert r[j] in us;
      }
    }
  }

  /** Inserting a user under an id the table does not hold keeps it in ascending id order. */
  lemma {:induction false} InsertUserInOrder(us: seq<User>, u: User)
    requires UsersInIdOrder(us) && !HasUser(us, u.id)
    ensures UsersInIdOrder(InsertUserById(us, u))
  {
    if us != [] && u.id >= us[0].id {
      var rest := InsertUserById(us[1..], u);
      assert !HasUser(us[1..], u.id) by {
        forall i | 0 <= i < |us[1..]| ensures us[1..][i].id != u.id {
          assert us[1..][i] == us[i + 1];
        }
      }
      InsertUserInOrder(us[1..], u);
      assert us[0].id < u.id by {
        assert us[0].id != u.id;
      }
      InsertUserAbove(us[1..], u, us[0].id);
      var r := InsertUserById(us, u);
      assert r == [us[0]] + rest;
      forall i, j | 0 <= i < j < |r| ensures r[i].id < r[j].id {
        if i > 0 {
          assert r[i] == rest[i - 1] && r[j] == rest[j - 1];
        } else {
          assert r[j] == rest[j - 1];
        }
      }
    }
  }

  /** Inserting a user with another id does not change what a lookup finds. */
  lemma {:induction false} UserLookupInsert(us: seq<User>, u: User, userId: int)
    requires u.id != userId
    ensures FindUser(InsertUserById(us, u), userId).None? <==> FindUser(us, userId).None?
    ensures FindUser(us, userId).Some? ==>
              InsertUserById(us, u)[FindUser(InsertUserById(us, u), userId).value]
              == us[FindUser(us, userId).value]
  {
    var r := InsertUserById(us, u);
    if us == [] || u.id < us[0].id {
      assert r[1..] == us;
    } else {
      assert r[1..] == InsertUserById(us[1..], u);
      if us[0].id != userId {
        UserLookupInsert(us[1..], u, userId);
      }
    }
  }

  /** A user inserted under an id the table does not hold is what a lookup of that id finds. */
  lemma {:induction false} UserLookupInsertNew(us: seq<User>, u: User)
    requires !HasUser(us, u.id)
    ensures FindUser(InsertUserById(us, u), u.id).Some?
    ensures InsertUserById(us, u)[FindUser(InsertUserById(us, u), u.id).value] == u
  {
    var r := InsertUserById(us, u);
    if us != [] && u.id >= us[0].id {
      assert r[1..] == InsertUserById(us[1..], u);
      assert !HasUser(us[1..], u.id) by {
        forall i | 0 <= i < |us[1..]| ensures us[1..][i].id != u.id {
          assert us[1..][i] == us[i + 1];
        }
      }
      assert us[0].id != u.id;
      UserLookupInsertNew(us[1..], u);
    }
  }

  /** Changing the exam date of one user does not change any lookup by id. */
  lemma {:induction false} UserLookupUpdate(us: seq<User>, k: nat, examDt: int, userId: int)
    requires k < |us|
    ensures FindUser(us[k := us[k].(examDt := examDt)], userId) == FindUser(us, userId)
  {
    if us != [] && k > 0 {
      assert us[k := us[k].(examDt := examDt)][1..] == us[1..][k - 1 := us[k].(examDt := examDt)];
      UserLookupUpdate(us[1..], k - 1, examDt, userId);
    }
  }

  /** `add_user(user_id, exam_dt)`: looks the user up, inserts and flushes a new one when
      absent, sets the exam date and commits, and returns the user. */
  method AddUser(db: Database, userId: int, examDt: int, now: int) returns (user: User)
    requires db.Idle()
    modifies db
    ensures db.Idle()
    ensures db.committed == UpsertUser(old(db.committed), userId, examDt, now)
    ensures GetUser(db.committed, userId) == Ok(user)
  {
    var found := FindUser(db.session.users, userId);
    if found.None? {
      user := NewUser(userId, examDt, now);
      UserLookupInsertNew(db.session.users, user);
      db.session := db.session.(users := InsertUserById(db.session.users, user));
    } else {
      var k := found.value;
      user := db.session.users[k].(examDt := examDt);
      UserLookupUpdate(db.session.users, k, examDt, userId);
      db.session := db.session.(users := db.session.users[k := user]);
    }
    db.Commit();
  }

  /** `get_scheduled_users(exclude_exam_over)` on day `today`: the scheduled users, with
      those whose exam is not strictly after today left out unless told otherwise. */
  function GetScheduledUsers(st: Store, today: int, excludeExamOver: bool): seq<User>
  {
    Filter(st.users, (u: User) => u.isScheduled && (excludeExamOver ==> u.examDt > today))
  }

  /** A user is returned exactly when it is scheduled and, by default, its exam lies
      strictly after today; without the exclusion every scheduled user is returned. */
  lemma ScheduledUsersMembers(st: Store, today: int, excludeExamOver: bool, u: User)
    ensures u in GetScheduledUsers(st, today, excludeExamOver)
        <==> u in st.users && u.isScheduled && (excludeExamOver ==> u.examDt > today)
  {
    FilterMembers(st.users, (u: User) => u.isScheduled && (excludeExamOver ==> u.examDt > today), u);
  }

  /** The query has no ORDER BY, so the users come in table order: ascending by id. */
  lemma {:induction false} ScheduledUsersInIdOrder(st: Store, today: int, excludeExamOver: bool)
    requires UsersInIdOrder(st.users)
    ensures UsersInIdOrder(GetScheduledUsers(st, today, excludeExamOver))
  {
    FilterInIdOrder(st.users, (u: User) => u.isScheduled && (excludeExamOver ==> u.examDt > today));
  }

  /** Selecting from a table in ascending id order keeps that order. */
  lemma {:induction false} FilterInIdOrder(us: seq<User>, p: User -> bool)
    requires UsersInIdOrder(us)
    ensures UsersInIdOrder(Filter(us, p))
  {
    if us != [] {
      var rest := Filter(us[1..], p);
      FilterInIdOrder(us[1..], p);
      var r := Filter(us, p);
      if p(us[0]) {
        assert r == [us[0]] + rest;
        forall i, j | 0 <= i < j < |r| ensures r[i].id < r[j].id {
          assert r[j] == rest[j - 1];
          FilterMembers(us[1..], p, rest[j - 1]);
          if i > 0 {
            assert r[i] == rest[i - 1];
          }
        }
      } else {
        assert r == rest;
      }
    }
  }

  /** Registering a new user puts it into the scheduled list at its id position when it
      qualifies, and leaves the list as it was otherwise. */
  lemma ScheduledUsersInsert(st: Store, u: User, today: int, excludeExamOver: bool)
    requires UsersInIdOrder(st.users) && !HasUser(st.users, u.id)
    ensures var p := (v: User) => v.isScheduled && (excludeExamOver ==> v.examDt > today);
      GetScheduledUsers(st.(users := InsertUserById(st.users, u)), today, excludeExamOver)
      == if p(u) then InsertUserById(GetScheduledUsers(st, today, excludeExamOver), u)
         else GetScheduledUsers(st, today, excludeExamOver)
  {
    FilterInsertUser(st.users, u, (v: User) => v.isScheduled && (excludeExamOver ==> v.examDt > today));
  }

  /** Selection commutes with inserting a user at its id position. */
  lemma {:induction false} FilterInsertUser(us: seq<User>, u: User, p: User -> bool)
    requires UsersInIdOrder(us) && !HasUser(us, u.id)
    ensures Filter(InsertUserById(us, u), p)
         == if p(u) then InsertUserById(Filter(us, p), u) else Filter(us, p)
  {
    var r := InsertUserById(us, u);
    if us == [] {
      assert r == [u] && r[1..] == [];
    } else if u.id < us[0].id {
      assert r[1..] == us;
      var f := Filter(us, p);
      if f != [] {
        FilterMembers(us, p, f[0]);
        assert us[0].id <= f[0].id;
      }
      assert InsertUserById(f, u) == [u] + f;
    } else {
      var tail := us[1..];
      assert r[1..] == InsertUserById(tail, u);
      assert !HasUser(tail, u.id) by {
        forall i | 0 <= i < |tail| ensures tail[i].id != u.id {
          assert tail[i] == us[i + 1];
        }
      }
      assert us[0].id != u.id;
      FilterInsertUser(tail, u, p);
      var f := Filter(tail, p);
      if p(us[0]) {
        assert Filter(us, p) == [us[0]] + f;
        assert ([us[0]] + f)[1..] == f;
      } else {
        assert Filter(us, p) == f;
      }
    }
  }
}
