/** The user store (src/lib/userStorage.ts): user records under the
    `learnflow_users` key, login sessions under `learnflow_sessions`, and the
    `user` key the authentication layer caches the signed-in user under.

    Every operation reads the whole collection and writes the whole collection
    back. Reading the users seeds a default administrator when the key is
    absent, and that seeding is itself a write, so every operation that reads
    users hands back the seeded state even when it changes nothing else. */
module UserStorage {
  import opened Outcomes
  import opened Seqs
  import opened Text

  datatype Role = Admin | Professor | Student

  /** The role as it is stored and as callers name it. */
  function RoleName(r: Role): string
  {
    match r
    case Admin => "admin"
    case Professor => "professor"
    case Student => "student"
  }

  /** `User`; `createdAt` is the creation time in milliseconds. */
  datatype User = User(
    id: string,
    email: string,
    password: string,
    role: Role,
    name: string,
    department: string,
    createdAt: int)

  /** `Omit<User, 'id' | 'createdAt'>`: what a registration supplies. */
  datatype UserData = UserData(
    email: string,
    password: string,
    role: Role,
    name: string,
    department: string)

  /** `Partial<User>`: `None` is a property the update does not carry. */
  datatype UserPatch = UserPatch(
    id: Option<string>,
    email: Option<string>,
    password: Option<string>,
    role: Option<Role>,
    name: Option<string>,
    department: Option<string>,
    createdAt: Option<int>)

  /** A login session; times in milliseconds. */
  datatype AuthSession = AuthSession(userId: string, createdAt: int, expiresAt: int)

  /** The keys this module owns. `users` is `None` while `learnflow_users` is
      absent; an absent `learnflow_sessions` reads as the empty map. */
  datatype UserState = UserState(
    users: Option<seq<User>>,
    sessions: map<string, AuthSession>,
    currentUser: Option<User>)

  const DefaultAdminId := "1"
  const DefaultAdminEmail := "admin@learnflow.com"
  const DefaultAdminPassword := "admin123"
  const DefaultAdminName := "System Administrator"
  const DefaultAdminDepartment := "School of Computing and Data Science"

  /** 24 hours in milliseconds. */
  const SessionLifetime := 24 * 60 * 60 * 1000

  const EmailTakenMessage := "Email already registered"

  /** The administrator seeded into an empty store at time `now`. */
  function DefaultAdmin(now: int): User
  {
    User(DefaultAdminId, DefaultAdminEmail, DefaultAdminPassword, Admin,
         DefaultAdminName, DefaultAdminDepartment, now)
  }

  /** Emails are compared after lower-casing both sides. */
  predicate SameEmail(a: string, b: string)
  {
    Lower(a) == Lower(b)
  }

  function EmailKey(u: User): string
  {
    Lower(u.email)
  }

  /** The store invariant: no two users share an email up to case. */
  ghost predicate EmailsUnique(users: seq<User>)
  {
    DistinctBy(users, EmailKey)
  }

  /** `getAllUsers`, including `initializeDefaultUsers`: an absent key is
      seeded with the default administrator (and that list is written);
      a present key is returned as stored. */
  function GetAllUsers(st: UserState, now: int): (r: Step<UserState, seq<User>>)
    ensures r.next == st.(users := Some(r.out))
    ensures st.users.Some? ==> r.out == st.users.value
    ensures st.users.None? ==> r.out == [DefaultAdmin(now)]
  {
    match st.users
    case Some(users) => Step(st, users)
    case None => Step(st.(users := Some([DefaultAdmin(now)])), [DefaultAdmin(now)])
  }

  /** `isEmailTaken`. */
  function IsEmailTaken(st: UserState, email: string, now: int): (r: Step<UserState, bool>)
    ensures r.next == GetAllUsers(st, now).next
    ensures var users := GetAllUsers(st, now).out;
      r.out <==> exists i :: 0 <= i < |users| && SameEmail(users[i].email, email)
  {
    var read := GetAllUsers(st, now);
    Step(read.next, Any(read.out, (u: User) => SameEmail(u.email, email)))
  }

  /** `createUser`: rejects an email taken up to case; otherwise appends the
      registration data stamped with `id` and `now`. */
  function CreateUser(st: UserState, data: UserData, id: string, now: int): (r: Step<UserState, Result<User>>)
    ensures var users := GetAllUsers(st, now).out;
      (exists i :: 0 <= i < |users| && SameEmail(users[i].email, data.email)) <==> r.out.Failure?
    ensures r.out.Failure? ==>
      r.out.message == EmailTakenMessage && r.next == GetAllUsers(st, now).next
    ensures r.out.Success? ==>
      && r.out.value == User(id, data.email, data.password, data.role, data.name, data.department, now)
      && r.next == st.(users := Some(GetAllUsers(st, now).out + [r.out.value]))
  {
    var read := GetAllUsers(st, now);
    if IsEmailTaken(read.next, data.email, now).out then
      Step(read.next, Failure(EmailTakenMessage))
    else
      var user := User(id, data.email, data.password, data.role, data.name, data.department, now);
      Step(read.next.(users := Some(read.out + [user])), Success(user))
  }

  /** The login check: email up to case, password and role exactly. */
  predicate CredentialsMatch(u: User, email: string, password: string, role: string)
  {
    SameEmail(u.email, email) && u.password == password && RoleName(u.role) == role
  }

  /** `validateCredentials`: the first user matching all three, or null. */
  function ValidateCredentials(st: UserState, email: string, password: string, role: string, now: int)
    : (r: Step<UserState, Option<User>>)
    ensures r.next == GetAllUsers(st, now).next
    ensures var users := GetAllUsers(st, now).out;
      r.out.None? <==> forall j :: 0 <= j < |users| ==> !CredentialsMatch(users[j], email, password, role)
    ensures var users := GetAllUsers(st, now).out;
      r.out.Some? ==> exists i ::
        (0 <= i < |users| && users[i] == r.out.value
         && CredentialsMatch(users[i], email, password, role)
         && forall j :: 0 <= j < i ==> !CredentialsMatch(users[j], email, password, role))
  {
    var read := GetAllUsers(st, now);
    var found := Find(read.out, (u: User) => CredentialsMatch(u, email, password, role));
    Step(read.next, found)
  }

  /** `getUserById`: the first user with that id, or null. */
  function GetUserById(st: UserState, id: string, now: int): (r: Step<UserState, Option<User>>)
    ensures r.next == GetAllUsers(st, now).next
    ensures var users := GetAllUsers(st, now).out;
      r.out.None? <==> forall j :: 0 <= j < |users| ==> users[j].id != id
    ensures var users := GetAllUsers(st, now).out;
      r.out.Some? ==> exists i ::
        (0 <= i < |users| && users[i] == r.out.value && users[i].id == id
         && forall j :: 0 <= j < i ==> users[j].id != id)
  {
    var read := GetAllUsers(st, now);
    Step(read.next, Find(read.out, (u: User) => u.id == id))
  }

  /** `{ ...user, ...updates }`: every property the update carries wins,
      every other keeps the user's value. */
  function MergeUser(u: User, p: UserPatch): (r: User)
    ensures Spread(p.id, u.id, r.id) && Spread(p.email, u.email, r.email)
    ensures Spread(p.password, u.password, r.password) && Spread(p.role, u.role, r.role)
    ensures Spread(p.name, u.name, r.name) && Spread(p.department, u.department, r.department)
    ensures Spread(p.createdAt, u.createdAt, r.createdAt)
  {
    User(Pick(p.id, u.id), Pick(p.email, u.email), Pick(p.password, u.password),
         Pick(p.role, u.role), Pick(p.name, u.name), Pick(p.department, u.department),
         Pick(p.createdAt, u.createdAt))
  }

  /** `updateUser`: merges the update into the first user with that id and
      leaves every other position alone; null when no user has that id. The
      email is not checked for uniqueness again. */
  function UpdateUser(st: UserState, id: string, patch: UserPatch, now: int): (r: Step<UserState, Option<User>>)
    ensures var users := GetAllUsers(st, now).out;
      r.out.None? <==> forall j :: 0 <= j < |users| ==> users[j].id != id
    ensures r.out.None? ==> r.next == GetAllUsers(st, now).next
    ensures var users := GetAllUsers(st, now).out;
      r.out.Some? ==> exists i ::
        (0 <= i < |users| && users[i].id == id
         && (forall j :: 0 <= j < i ==> users[j].id != id)
         && r.out.value == MergeUser(users[i], patch)
         && r.next == st.(users := Some(users[i := r.out.value])))
  {
    var read := GetAllUsers(st, now);
    match FindIndex(read.out, (u: User) => u.id == id)
    case None => Step(read.next, None)
    case Some(i) =>
      var updated := MergeUser(read.out[i], patch);
      Step(st.(users := Some(read.out[i := updated])), Some(updated))
  }

  /** `deleteUser`: drops every user with that id and reports whether any
      was dropped; nothing beyond the seeding read is written otherwise. */
  function DeleteUser(st: UserState, id: string, now: int): (r: Step<UserState, bool>)
    ensures var users := GetAllUsers(st, now).out;
      r.out <==> exists i :: 0 <= i < |users| && users[i].id == id
    ensures !r.out ==> r.next == GetAllUsers(st, now).next
    ensures r.out ==>
      (r.next.users.Some? && r.next.sessions == st.sessions && r.next.currentUser == st.currentUser)
    ensures var users := GetAllUsers(st, now).out;
      r.out ==> var kept := r.next.users.value;
        && IsSubsequence(kept, users)
        && (forall u :: u in kept <==> u in users && u.id != id)
        && (forall u :: multiset(kept)[u] == if u.id != id then multiset(users)[u] else 0)
  {
    var read := GetAllUsers(st, now);
    var kept := (u: User) => u.id != id;
    var filtered := Filter(read.out, kept);
    FilterFacts(read.out, kept);
    FilterKeepsLength(read.out, kept);
    if |filtered| == |read.out| then Step(read.next, false)
    else Step(st.(users := Some(filtered)), true)
  }

  /** `getUsersByRole`. */
  function GetUsersByRole(st: UserState, role: string, now: int): (r: Step<UserState, seq<User>>)
    ensures r.next == GetAllUsers(st, now).next
    ensures var users := GetAllUsers(st, now).out;
      && IsSubsequence(r.out, users)
      && (forall u :: u in r.out <==> u in users && RoleName(u.role) == role)
      && (forall u :: multiset(r.out)[u] == if RoleName(u.role) == role then multiset(users)[u] else 0)
  {
    var read := GetAllUsers(st, now);
    var hasRole := (u: User) => RoleName(u.role) == role;
    FilterFacts(read.out, hasRole);
    Step(read.next, Filter(read.out, hasRole))
  }

  /** The search criterion: the lower-cased query occurs in the lower-cased
      name, email or department. */
  predicate SearchHit(u: User, query: string)
  {
    var q := Lower(query);
    Contains(Lower(u.name), q) || Contains(Lower(u.email), q) || Contains(Lower(u.department), q)
  }

  /** `searchUsers`. */
  function SearchUsers(st: UserState, query: string, now: int): (r: Step<UserState, seq<User>>)
    ensures r.next == GetAllUsers(st, now).next
    ensures var users := GetAllUsers(st, now).out;
      && IsSubsequence(r.out, users)
      && (forall u :: u in r.out <==> u in users && SearchHit(u, query))
      && (forall u :: multiset(r.out)[u] == if SearchHit(u, query) then multiset(users)[u] else 0)
  {
    var read := GetAllUsers(st, now);
    var hit := (u: User) => SearchHit(u, query);
    FilterFacts(read.out, hit);
    Step(read.next, Filter(read.out, hit))
  }

  /** The auth-session half of `createSession`: records the session under the
      caller-supplied `sessionId` (the original derives it from the clock and
      `Math.random()`), expiring one lifetime after `now`. */
  function CreateAuthSession(st: UserState, user: User, sessionId: string, now: int): (r: Step<UserState, string>)
    ensures r.out == sessionId
    ensures sessionId in r.next.sessions
    ensures r.next.sessions[sessionId].userId == user.id
    ensures r.next.sessions[sessionId].expiresAt - r.next.sessions[sessionId].createdAt == SessionLifetime
    ensures r.next.sessions[sessionId].createdAt == now
    ensures forall k :: k in st.sessions && k != sessionId ==> k in r.next.sessions && r.next.sessions[k] == st.sessions[k]
    ensures r.next.sessions.Keys == st.sessions.Keys + {sessionId}
    ensures r.next.users == st.users && r.next.currentUser == st.currentUser
  {
    var session := AuthSession(user.id, now, now + SessionLifetime);
    Step(st.(sessions := st.sessions[sessionId := session]), sessionId)
  }

  /** `validateSession`: unknown ids are null; a session strictly past its
      expiry is purged and null; otherwise the session's user is looked up,
      which may itself be null. */
  function ValidateSession(st: UserState, sessionId: string, now: int): (r: Step<UserState, Option<User>>)
    ensures sessionId !in st.sessions ==> r == Step(st, None)
    ensures sessionId in st.sessions && now > st.sessions[sessionId].expiresAt ==>
      r.out.None? && r.next == st.(sessions := st.sessions - {sessionId})
    ensures sessionId in st.sessions && now <= st.sessions[sessionId].expiresAt ==>
      r == GetUserById(st, st.sessions[sessionId].userId, now)
  {
    if sessionId !in st.sessions then Step(st, None)
    else
      var session := st.sessions[sessionId];
      if now > session.expiresAt then Step(st.(sessions := st.sessions - {sessionId}), None)
      else GetUserById(st, session.userId, now)
  }

  /** `removeSession`. */
  function RemoveSession(st: UserState, sessionId: string): (r: UserState)
    ensures r.sessions.Keys == st.sessions.Keys - {sessionId}
    ensures forall k :: k in r.sessions ==> r.sessions[k] == st.sessions[k]
    ensures r.users == st.users && r.currentUser == st.currentUser
  {
    st.(sessions := st.sessions - {sessionId})
  }

  /** `clearAllData`: removes the users, the sessions and the cached user. */
  function ClearAllData(st: UserState): (r: UserState)
    ensures r.users.None? && r.sessions == map[] && r.currentUser.None?
  {
    UserState(None, map[], None)
  }
}
