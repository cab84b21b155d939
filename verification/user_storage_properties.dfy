/** Properties of the user store that relate several calls: the seeding
    read, email uniqueness across creation and deletion, and the life cycle
    of a login session. */
module UserStorageProperties {
  import opened Outcomes
  import opened Seqs
  import opened Text
  import opened UserStorage

  /** After `clearAllData` the next read sees exactly the seeded administrator. */
  lemma ClearThenRead(st: UserState, now: int)
    ensures GetAllUsers(ClearAllData(st), now).out == [DefaultAdmin(now)]
    ensures GetAllUsers(ClearAllData(st), now).out[0].id == "1"
    ensures GetAllUsers(ClearAllData(st), now).out[0].email == "admin@learnflow.com"
    ensures GetAllUsers(ClearAllData(st), now).out[0].role == Admin
  {
  }

  /** Seeding happens once: a second read, at any time, returns what the
      first returned and writes nothing more. */
  lemma ReadIsStable(st: UserState, now: int, later: int)
    ensures var first := GetAllUsers(st, now);
      GetAllUsers(first.next, later) == first
  {
  }

  /** The seeded store satisfies the email invariant. */
  lemma SeededEmailsUnique(st: UserState, now: int)
    requires st.users.Some? ==> EmailsUnique(st.users.value)
    ensures EmailsUnique(GetAllUsers(st, now).out)
  {
  }

  /** A successful `createUser` appends a user whose email differs (up to
      case) from every stored one, so the invariant survives; a failed one
      writes only the seeding read. */
  lemma CreateUserKeepsEmailsUnique(st: UserState, data: UserData, id: string, now: int)
    requires st.users.Some? ==> EmailsUnique(st.users.value)
    ensures var r := CreateUser(st, data, id, now);
      r.next.users.Some? && EmailsUnique(r.next.users.value)
  {
    var users := GetAllUsers(st, now).out;
    SeededEmailsUnique(st, now);
    var r := CreateUser(st, data, id, now);
    if r.out.Success? {
      var all := users + [r.out.value];
      forall i, j | 0 <= i < j < |all|
        ensures EmailKey(all[i]) != EmailKey(all[j])
      {
        if j == |users| {
          assert !SameEmail(users[i].email, data.email);
        } else {
          assert all[i] == users[i] && all[j] == users[j];
        }
      }
    }
  }

  /** Registering the same email twice, in any mix of cases: the second
      attempt fails with "Email already registered" and changes nothing. */
  lemma SecondRegistrationRejected(st: UserState, first: UserData, second: UserData,
                                   id1: string, id2: string, now1: int, now2: int)
    requires CreateUser(st, first, id1, now1).out.Success?
    requires SameEmail(first.email, second.email)
    ensures var mid := CreateUser(st, first, id1, now1).next;
      CreateUser(mid, second, id2, now2) == Step(mid, Failure(EmailTakenMessage))
  {
    var r1 := CreateUser(st, first, id1, now1);
    var users := GetAllUsers(r1.next, now2).out;
    assert users[|users| - 1] == r1.out.value;
    assert SameEmail(users[|users| - 1].email, second.email);
  }

  /** A user who has just registered can log in with the same email,
      password and role, and is the user found. */
  lemma RegisteredUserCanLogIn(st: UserState, data: UserData, id: string, now: int, later: int)
    requires CreateUser(st, data, id, now).out.Success?
    ensures var r := CreateUser(st, data, id, now);
      ValidateCredentials(r.next, data.email, data.password, RoleName(data.role), later).out == Some(r.out.value)
  {
    var r := CreateUser(st, data, id, now);
    var users := GetAllUsers(st, now).out;
    var all := GetAllUsers(r.next, later).out;
    assert all == users + [r.out.value];
    forall j | 0 <= j < |users|
      ensures !CredentialsMatch(all[j], data.email, data.password, RoleName(data.role))
    {
      assert all[j] == users[j];
      assert !SameEmail(users[j].email, data.email);
    }
    assert CredentialsMatch(all[|users|], data.email, data.password, RoleName(data.role));
  }

  /** A user registered under an id no stored user has is the one
      `getUserById` finds for that id. */
  lemma RegisteredUserFoundById(st: UserState, data: UserData, id: string, now: int, later: int)
    requires CreateUser(st, data, id, now).out.Success?
    requires var users := GetAllUsers(st, now).out; forall j :: 0 <= j < |users| ==> users[j].id != id
    ensures var r := CreateUser(st, data, id, now);
      GetUserById(r.next, id, later).out == Some(r.out.value)
  {
    var r := CreateUser(st, data, id, now);
    var users := GetAllUsers(st, now).out;
    var all := GetAllUsers(r.next, later).out;
    assert all == users + [r.out.value];
    assert forall j :: 0 <= j < |users| ==> all[j] == users[j];
    assert all[|users|].id == id;
  }

  /** Deleting users keeps the email invariant. */
  lemma DeleteUserKeepsEmailsUnique(st: UserState, id: string, now: int)
    requires st.users.Some? ==> EmailsUnique(st.users.value)
    ensures var r := DeleteUser(st, id, now);
      r.next.users.Some? && EmailsUnique(r.next.users.value)
  {
    SeededEmailsUnique(st, now);
    var r := DeleteUser(st, id, now);
    if r.out {
      SubsequenceKeepsDistinct(r.next.users.value, GetAllUsers(st, now).out, EmailKey);
    }
  }

  /** `updateUser` does not re-check emails: changing one user's email to
      another user's email in a different case is accepted, and the store
      then holds two users with the same email up to case. */
  lemma UpdateUserCanDuplicateEmail()
    ensures var a := User("1", "a@x.io", "p", Student, "A", "D", 0);
      var b := User("2", "b@x.io", "p", Student, "B", "D", 0);
      var st := UserState(Some([a, b]), map[], None);
      var patch := UserPatch(None, Some("A@x.io"), None, None, None, None, None);
      var r := UpdateUser(st, "2", patch, 0);
      && EmailsUnique(st.users.value)
      && r.out.Some?
      && !EmailsUnique(r.next.users.value)
  {
    var a := User("1", "a@x.io", "p", Student, "A", "D", 0);
    var b := User("2", "b@x.io", "p", Student, "B", "D", 0);
    var st := UserState(Some([a, b]), map[], None);
    assert EmailKey(a) != EmailKey(b) by {
      assert EmailKey(a)[0] == 'a' && EmailKey(b)[0] == 'b';
    }
    assert EmailsUnique(st.users.value);
    var patch := UserPatch(None, Some("A@x.io"), None, None, None, None, None);
    var r := UpdateUser(st, "2", patch, 0);
    var b' := MergeUser(b, patch);
    assert b'.id == "2" && b'.email == "A@x.io";
    assert FindIndex([a, b], (u: User) => u.id == "2") == Some(1) by {
      assert a.id != "2";
    }
    assert r.out == Some(b');
    assert r.next.users.value == [a, b'];
    assert EmailKey(a) == EmailKey(b') by {
      assert |EmailKey(a)| == |EmailKey(b')| == 6;
      assert forall k :: 0 <= k < 6 ==> EmailKey(a)[k] == EmailKey(b')[k];
    }
    assert EmailKey([a, b'][0]) == EmailKey([a, b'][1]);
  }

  /** An empty search query keeps every user, in storage order. */
  lemma EmptySearchKeepsEveryone(st: UserState, now: int)
    ensures SearchUsers(st, "", now).out == GetAllUsers(st, now).out
  {
    var users := GetAllUsers(st, now).out;
    forall i | 0 <= i < |users|
      ensures SearchHit(users[i], "")
    {
      ContainsEmpty(Lower(users[i].name));
    }
    FilterAll(users, (u: User) => SearchHit(u, ""));
  }

  /** A session is honoured up to and including the instant it expires, and
      then answers with whatever `getUserById` finds. */
  lemma SessionValidWithinLifetime(st: UserState, user: User, sessionId: string, created: int, now: int)
    requires created <= now <= created + SessionLifetime
    ensures var st' := CreateAuthSession(st, user, sessionId, created).next;
      ValidateSession(st', sessionId, now) == GetUserById(st', user.id, now)
  {
  }

  /** One millisecond after its lifetime a session is refused and purged. */
  lemma SessionExpires(st: UserState, user: User, sessionId: string, created: int, now: int)
    requires now > created + SessionLifetime
    ensures var st' := CreateAuthSession(st, user, sessionId, created).next;
      var r := ValidateSession(st', sessionId, now);
      r.out.None? && sessionId !in r.next.sessions && r.next.users == st.users
  {
  }

  /** Once purged or removed, a session stays refused. */
  lemma RemovedSessionRefused(st: UserState, sessionId: string, now: int)
    ensures ValidateSession(RemoveSession(st, sessionId), sessionId, now).out.None?
  {
  }

  /** `removeSession` is idempotent. */
  lemma RemoveSessionIdempotent(st: UserState, sessionId: string)
    ensures RemoveSession(RemoveSession(st, sessionId), sessionId) == RemoveSession(st, sessionId)
  {
  }

  /** A session whose user has been deleted validates to null. */
  lemma DeletedUserSessionRefused(st: UserState, id: string, sessionId: string, now: int)
    requires sessionId in st.sessions && st.sessions[sessionId].userId == id
    requires now <= st.sessions[sessionId].expiresAt
    ensures var gone := DeleteUser(st, id, now).next;
      ValidateSession(gone, sessionId, now).out.None?
  {
    var gone := DeleteUser(st, id, now);
    var users := GetAllUsers(st, now).out;
    if gone.out {
      forall j | 0 <= j < |gone.next.users.value|
        ensures gone.next.users.value[j].id != id
      {
        assert gone.next.users.value[j] in gone.next.users.value;
      }
    }
  }

  /** An update that carries no property leaves the user as it was. */
  lemma EmptyPatchIsIdentity(u: User)
    ensures MergeUser(u, UserPatch(None, None, None, None, None, None, None)) == u
  {
  }

  /** Applying the same update twice is applying it once. */
  lemma MergeUserIdempotent(u: User, p: UserPatch)
    ensures MergeUser(MergeUser(u, p), p) == MergeUser(u, p)
  {
  }
}
