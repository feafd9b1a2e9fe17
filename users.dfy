/** Accounts: the User entity with its persist-time defaults, the UserDto
    projection, and UserService's directory operations over the users table. */
module Users {
  import opened Common

  datatype UserRole = RoleUser | RoleModerator | RoleAdmin | RoleManager

  /** A row of the users table. Managed categories are held by id, as the
      user_managed_categories join table holds them. */
  datatype User = User(
    id: int,
    username: string,
    password: string,
    email: string,
    name: Option<string>,
    nickname: string,
    role: UserRole,
    managedCategories: set<int>,
    enabled: bool,
    locked: bool,
    warningCount: int)

  /** The fields a User is built with before it is first saved. */
  datatype UserDraft = UserDraft(
    username: string,
    password: string,
    email: string,
    name: Option<string>,
    nickname: Option<string>,
    role: Option<UserRole>,
    managedCategories: set<int>)

  /** The persist hook: a null role becomes USER, a null or blank nickname becomes
      the name (even a blank one) or else the username, and the three account
      flags are forced to their defaults whatever the draft said. */
  function OnCreate(d: UserDraft, id: int): (u: User)
    ensures u.role == (if d.role.Some? then d.role.value else RoleUser)
    ensures d.nickname.Some? && !IsBlank(d.nickname.value) ==> u.nickname == d.nickname.value
    ensures d.nickname.None? || IsBlank(d.nickname.value) ==>
              u.nickname == (if d.name.Some? then d.name.value else d.username)
    ensures u.enabled && !u.locked && u.warningCount == 0
    ensures u.id == id && u.username == d.username && u.email == d.email && u.name == d.name
  {
    var nickname :=
      if d.nickname.None? || IsBlank(d.nickname.value) then d.name.GetOr(d.username)
      else d.nickname.value;
    User(id, d.username, d.password, d.email, d.name, nickname, d.role.GetOr(RoleUser),
         d.managedCategories, true, false, 0)
  }

  /** `isModeratorFor`: category-scoped moderation right. */
  predicate IsModeratorFor(u: User, categoryId: int)
    ensures IsModeratorFor(u, categoryId) ==> categoryId in u.managedCategories && !IsAdmin(u) && u.role != RoleManager
  {
    u.role == RoleModerator && categoryId in u.managedCategories
  }

  /** `isAdmin`: exactly the ADMIN role, not MANAGER. */
  predicate IsAdmin(u: User)
    ensures IsAdmin(u) ==> u.role != RoleManager
  {
    u.role == RoleAdmin
  }

  lemma AdminIsNeitherManagerNorModerator(u: User, categoryId: int)
    ensures IsAdmin(u) ==> u.role != RoleManager && !IsModeratorFor(u, categoryId)
    ensures u.role == RoleManager ==> !IsAdmin(u)
  {
  }

  // ---------------------------------------------------------------------------
  // UserDto

  datatype UserDto = UserDto(
    id: int,
    username: string,
    email: string,
    name: Option<string>,
    nickname: string,
    role: UserRole,
    managedCategoryIds: set<int>,
    enabled: bool,
    locked: bool,
    warningCount: int)

  /** `UserDto.fromEntity`: every public column is copied; the password is not. */
  function ToDto(u: User): (d: UserDto)
    ensures d.managedCategoryIds == u.managedCategories
    ensures d.id == u.id && d.username == u.username && d.nickname == u.nickname
    ensures d.role == u.role && d.enabled == u.enabled && d.locked == u.locked
    ensures d.warningCount == u.warningCount
  {
    UserDto(u.id, u.username, u.email, u.name, u.nickname, u.role, u.managedCategories,
            u.enabled, u.locked, u.warningCount)
  }

  /** The projection never depends on the stored password hash. */
  lemma DtoHidesPassword(u: User, password: string)
    ensures ToDto(u.(password := password)) == ToDto(u)
  {
  }

  /** Two accounts with the same projection differ at most in their password. */
  lemma DtoDeterminesAccountUpToPassword(u: User, v: User)
    requires ToDto(u) == ToDto(v)
    ensures u == v.(password := u.password)
  {
  }

  // ---------------------------------------------------------------------------
  // Nickname choice at registration

  /** A nickname that is absent or blank falls back to the name when that has
      text, and to the username otherwise. */
  function FallbackNickname(nickname: Option<string>, name: Option<string>, username: string): (r: string)
    ensures nickname.Some? && !IsBlank(nickname.value) ==> r == nickname.value
    ensures IsBlank(r) ==> r == username
  {
    if nickname.None? || IsBlank(nickname.value) then
      (if name.Some? && !IsBlank(name.value) then name.value else username)
    else nickname.value
  }

  /** The k-th nickname tried for `base`: base itself, then base1, base2, ... */
  function Candidate(base: string, k: nat): string {
    if k == 0 then base else base + NatToString(k)
  }

  /** Only the first candidate can be blank: the others end in a digit. */
  lemma CandidateNotBlank(base: string, k: nat)
    ensures k != 0 ==> !IsBlank(Candidate(base, k))
  {
    if k != 0 {
      var c, d := Candidate(base, k), NatToString(k);
      assert c[|c| - 1] == d[|d| - 1];
    }
  }

  /** Distinct counters give distinct candidates. */
  lemma CandidateInjective(base: string, i: nat, j: nat)
    requires i != j
    ensures Candidate(base, i) != Candidate(base, j)
  {
    if i != 0 && j != 0 && Candidate(base, i) == Candidate(base, j) {
      assert NatToString(i) == Candidate(base, i)[|base|..];
      assert NatToString(j) == Candidate(base, j)[|base|..];
      NatToStringInjective(i, j);
    }
  }

  ghost function FirstCandidates(base: string, k: nat): set<string> {
    set j | 0 <= j < k :: Candidate(base, j)
  }

  /** The first k candidates are k different strings. */
  lemma {:induction false} FirstCandidatesSize(base: string, k: nat)
    ensures |FirstCandidates(base, k)| == k
  {
    if k > 0 {
      var prev, last := FirstCandidates(base, k - 1), Candidate(base, k - 1);
      FirstCandidatesSize(base, k - 1);
      forall j | 0 <= j < k - 1
        ensures Candidate(base, j) != last
      {
        CandidateInjective(base, j, k - 1);
      }
      assert last !in prev;
      forall x
        ensures x in FirstCandidates(base, k) <==> x in prev + {last}
      {
        if x in FirstCandidates(base, k) {
          var j :| 0 <= j < k && x == Candidate(base, j);
          if j < k - 1 { assert x in prev; }
        }
      }
      assert FirstCandidates(base, k) == prev + {last};
    }
  }

  /** A subset is no larger than its superset. */
  lemma {:induction false} SubsetSize<T>(a: set<T>, b: set<T>)
    requires a <= b
    ensures |a| <= |b|
    decreases a
  {
    if a != {} {
      var x :| x in a;
      SubsetSize(a - {x}, b - {x});
    }
  }

  // ---------------------------------------------------------------------------
  // The users table

  function Usernames(m: map<int, User>): set<string> {
    set id | id in m :: m[id].username
  }

  function Emails(m: map<int, User>): set<string> {
    set id | id in m :: m[id].email
  }

  function Nicknames(m: map<int, User>): set<string> {
    set id | id in m :: m[id].nickname
  }

  ghost function Managers(m: map<int, User>): set<int> {
    set id | id in m && m[id].role == RoleManager
  }

  /** The unique columns of the users table. */
  ghost predicate UniqueColumns(m: map<int, User>) {
    forall i, j :: i in m && j in m && i != j ==>
      m[i].username != m[j].username && m[i].email != m[j].email && m[i].nickname != m[j].nickname
  }

  /** Replacing one row by another with the same unique columns keeps them unique. */
  lemma UniqueAfterUpdate(m: map<int, User>, id: int, u: User)
    requires UniqueColumns(m) && id in m
    requires u.username == m[id].username && u.email == m[id].email && u.nickname == m[id].nickname
    ensures UniqueColumns(m[id := u])
  {
  }

  /** A row whose unique columns are all new keeps them unique. */
  lemma {:induction false} UniqueAfterInsert(m: map<int, User>, id: int, u: User)
    requires UniqueColumns(m) && id !in m
    requires u.username !in Usernames(m) && u.email !in Emails(m) && u.nickname !in Nicknames(m)
    ensures UniqueColumns(m[id := u])
  {
    forall i | i in m
      ensures m[i].username != u.username && m[i].email != u.email && m[i].nickname != u.nickname
    {
      assert m[i].username in Usernames(m);
      assert m[i].email in Emails(m);
      assert m[i].nickname in Nicknames(m);
    }
  }

  /** An update that neither grants nor takes away MANAGER leaves the managers as they were. */
  lemma ManagersAfterUpdate(m: map<int, User>, id: int, u: User)
    requires id in m
    requires (u.role == RoleManager) == (m[id].role == RoleManager)
    ensures Managers(m[id := u]) == Managers(m)
  {
  }

  /** Removing a non-manager leaves the managers as they were. */
  lemma ManagersAfterRemoval(m: map<int, User>, id: int)
    requires id in m && m[id].role != RoleManager
    ensures Managers(m - {id}) == Managers(m)
  {
  }

  /** Registration builds the draft with role USER and no managed category. */
  function RegistrationDraft(username: string, passwordHash: string, email: string,
                             name: Option<string>, nickname: string): UserDraft
  {
    UserDraft(username, passwordHash, email, name, Some(nickname), Some(RoleUser), {})
  }

  /** What `registerUser` does to the table `before` when the next id is `id`:
      the username check comes first, then the email check; then the nickname is
      the first free candidate (the k-th) for the fallback nickname; then the
      persist hook runs, and the insert is refused by the unique nickname column
      when the hook replaced the nickname by a taken one. */
  ghost predicate RegisterOutcome(
    before: map<int, User>, id: int, after: map<int, User>,
    username: string, passwordHash: string, email: string,
    name: Option<string>, nickname: Option<string>,
    r: Result<UserDto, UserError>, k: nat)
    ensures RegisterOutcome(before, id, after, username, passwordHash, email, name, nickname, r, k) ==>
              && (r.Failure? ==> after == before)
              && (r.Success? ==> id in after && r.value == ToDto(after[id]) && after - {id} == before - {id})
  {
    && (username in Usernames(before) ==>
          r == Failure(UsernameTaken) && after == before)
    && (username !in Usernames(before) && email in Emails(before) ==>
          r == Failure(EmailTaken) && after == before)
    && (username !in Usernames(before) && email !in Emails(before) ==>
          var base := FallbackNickname(nickname, name, username);
          && Candidate(base, k) !in Nicknames(before)
          && (forall j :: 0 <= j < k ==> Candidate(base, j) in Nicknames(before))
          && var u := OnCreate(RegistrationDraft(username, passwordHash, email, name, Candidate(base, k)), id);
          && (u.nickname in Nicknames(before) ==> r == Failure(NicknameConstraint) && after == before)
          && (u.nickname !in Nicknames(before) ==> r == Success(ToDto(u)) && after == before[id := u]))
  }

  /** The chosen nickname survives the persist hook unless it is blank, and a
      refused insert needs a blank username and a blank name. */
  lemma {:induction false} RegistrationNicknameKept(
    nickname: Option<string>, name: Option<string>, username: string,
    passwordHash: string, email: string, k: nat, id: int)
    ensures var chosen := Candidate(FallbackNickname(nickname, name, username), k);
            var u := OnCreate(RegistrationDraft(username, passwordHash, email, name, chosen), id);
            && (!IsBlank(chosen) ==> u.nickname == chosen)
            && (u.nickname != chosen ==> IsBlank(username) && k == 0 && name.Some? && IsBlank(name.value))
            && u.role == RoleUser && u.enabled && !u.locked && u.warningCount == 0
            && u.managedCategories == {}
  {
    var base := FallbackNickname(nickname, name, username);
    var chosen := Candidate(base, k);
    CandidateNotBlank(base, k);
  }

  datatype UserError =
    | UserNotFound(userId: int)
    | UsernameTaken
    | EmailTaken
    | NicknameConstraint
    | ManagerNotGrantable
    | ManagerRoleFixed
    | NotModerator
    | CategoryNotFound(categoryId: int)
    | CategoryAlreadyAssigned
    | CategoryNotAssigned
    | ManagerNotDeletable
      /** The delete broke a foreign key: refresh_tokens, comments and posts
          each keep a user_id without cascade, so the account stays. */
    | UserStillReferenced

  /** The account after `updateUserRole` sets `role`: a downgrade to USER clears
      the managed categories, any other role keeps them. */
  function WithRole(u: User, role: UserRole): (v: User)
    ensures v.role == role
    ensures v.managedCategories == if role == RoleUser then {} else u.managedCategories
    ensures v.(role := u.role, managedCategories := u.managedCategories) == u
  {
    u.(role := role, managedCategories := if role == RoleUser then {} else u.managedCategories)
  }

  /** The password encoder's two operations, whose algorithm is not part of this model. */
  datatype PasswordEncoder = PasswordEncoder(encode: string -> string, matches: (string, string) -> bool)

  /** The account named `username`; the username column is unique. */
  ghost function ByUsername(m: map<int, User>, username: string): (u: User)
    requires username in Usernames(m)
    ensures u in m.Values && u.username == username
  {
    var id :| id in m && m[id].username == username; m[id]
  }

  /** With unique usernames, the account named `username` is the only one. */
  lemma UsernameDeterminesUser(m: map<int, User>, username: string, u: User)
    requires UniqueColumns(m)
    requires u.id in m && m[u.id] == u && u.username == username
    ensures username in Usernames(m) && ByUsername(m, username) == u
  {
    var i := u.id;
    assert username in Usernames(m);
    var v := ByUsername(m, username);
    var j :| j in m && m[j] == v;
    assert i == j;
  }

  /** UserService over the users table. Category existence is checked against
      the ids of the categories table, passed in by the caller. */
  class UserService {
    var users: map<int, User>
    var nextId: int
    const passwordEncoder: PasswordEncoder

    ghost predicate Valid()
      reads this
    {
      && (forall id :: id in users ==> users[id].id == id && id < nextId)
      && UniqueColumns(users)
    }

    constructor (passwordEncoder: PasswordEncoder)
      ensures Valid() && users == map[] && this.passwordEncoder == passwordEncoder
    {
      users := map[];
      nextId := 1;
      this.passwordEncoder := passwordEncoder;
    }

    /** `findByUsername` */
    method FindByUsername(username: string) returns (r: Option<User>)
      requires Valid()
      ensures r.Some? <==> username in Usernames(users)
      ensures r.Some? ==> r.value.id in users && users[r.value.id] == r.value && r.value.username == username
    {
      if exists id :: id in users && users[id].username == username {
        var id :| id in users && users[id].username == username;
        r := Some(users[id]);
      } else {
        r := None;
      }
    }

    /** `findById` */
    method FindById(id: int) returns (r: Option<User>)
      ensures r.Some? <==> id in users
      ensures r.Some? ==> r.value == users[id]
    {
      r := if id in users then Some(users[id]) else None;
    }

    /** `ensureUniqueNickname`: tries base, base1, base2, ... and returns the first
        one no account holds. The table is finite and the candidates are all
        different, so the search ends. */
    method EnsureUniqueNickname(base: string) returns (nickname: string, ghost k: nat)
      ensures nickname == Candidate(base, k)
      ensures nickname !in Nicknames(users)
      ensures forall j :: 0 <= j < k ==> Candidate(base, j) in Nicknames(users)
    {
      nickname := base;
      var counter := 1;
      k := 0;
      while nickname in Nicknames(users)
        invariant counter == k + 1
        invariant nickname == Candidate(base, k)
        invariant forall j :: 0 <= j < k ==> Candidate(base, j) in Nicknames(users)
        invariant k <= |Nicknames(users)|
        decreases |Nicknames(users)| - k
      {
        nickname := base + NatToString(counter);
        counter := counter + 1;
        k := k + 1;
        FirstCandidatesSize(base, k);
        SubsetSize(FirstCandidates(base, k), Nicknames(users));
      }
    }

    /** `registerUser` */
    method RegisterUser(username: string, password: string, email: string,
                        name: Option<string>, nickname: Option<string>)
      returns (r: Result<UserDto, UserError>, ghost k: nat)
      requires Valid()
      modifies this`users, this`nextId
      ensures Valid()
      ensures RegisterOutcome(old(users), old(nextId), users, username, passwordEncoder.encode(password),
                              email, name, nickname, r, k)
      ensures Managers(users) == Managers(old(users))
    {
      k := 0;
      if username in Usernames(users) {
        return Failure(UsernameTaken), k;
      }
      if email in Emails(users) {
        return Failure(EmailTaken), k;
      }
      var finalNickname := FallbackNickname(nickname, name, username);
      finalNickname, k := EnsureUniqueNickname(finalNickname);
      var u := OnCreate(RegistrationDraft(username, passwordEncoder.encode(password), email, name, finalNickname), nextId);
      if u.nickname in Nicknames(users) {
        return Failure(NicknameConstraint), k;
      }
      UniqueAfterInsert(users, nextId, u);
      users := users[nextId := u];
      nextId := nextId + 1;
      r := Success(ToDto(u));
    }

    /** `updateUserRole` */
    method UpdateUserRole(userId: int, role: UserRole) returns (r: Result<UserDto, UserError>)
      requires Valid()
      modifies this`users
      ensures Valid()
      ensures userId !in old(users) ==> r == Failure(UserNotFound(userId)) && users == old(users)
      ensures userId in old(users) && role == RoleManager ==>
                r == Failure(ManagerNotGrantable) && users == old(users)
      ensures userId in old(users) && role != RoleManager && old(users)[userId].role == RoleManager ==>
                r == Failure(ManagerRoleFixed) && users == old(users)
      ensures userId in old(users) && role != RoleManager && old(users)[userId].role != RoleManager ==>
                && users == old(users)[userId := WithRole(old(users)[userId], role)]
                && r == Success(ToDto(users[userId]))
      ensures Managers(users) == Managers(old(users))
    {
      if userId !in users {
        return Failure(UserNotFound(userId));
      }
      var u := users[userId];
      if role == RoleManager {
        return Failure(ManagerNotGrantable);
      }
      if u.role == RoleManager {
        return Failure(ManagerRoleFixed);
      }
      var v := WithRole(u, role);
      UniqueAfterUpdate(users, userId, v);
      ManagersAfterUpdate(users, userId, v);
      users := users[userId := v];
      r := Success(ToDto(v));
    }

    /** `assignCategoryToModerator` */
    method AssignCategoryToModerator(userId: int, categoryId: int, categoryIds: set<int>)
      returns (r: Result<UserDto, UserError>)
      requires Valid()
      modifies this`users
      ensures Valid()
      ensures userId !in old(users) ==> r == Failure(UserNotFound(userId)) && users == old(users)
      ensures userId in old(users) && old(users)[userId].role != RoleModerator ==>
                r == Failure(NotModerator) && users == old(users)
      ensures userId in old(users) && old(users)[userId].role == RoleModerator && categoryId !in categoryIds ==>
                r == Failure(CategoryNotFound(categoryId)) && users == old(users)
      ensures userId in old(users) && old(users)[userId].role == RoleModerator && categoryId in categoryIds
              && categoryId in old(users)[userId].managedCategories ==>
                r == Failure(CategoryAlreadyAssigned) && users == old(users)
      ensures r.Success? <==>
                userId in old(users) && old(users)[userId].role == RoleModerator && categoryId in categoryIds
                && categoryId !in old(users)[userId].managedCategories
      ensures r.Success? ==>
                var u := old(users)[userId];
                && users == old(users)[userId := u.(managedCategories := u.managedCategories + {categoryId})]
                && r == Success(ToDto(users[userId]))
      ensures Managers(users) == Managers(old(users))
    {
      if userId !in users {
        return Failure(UserNotFound(userId));
      }
      var u := users[userId];
      if u.role != RoleModerator {
        return Failure(NotModerator);
      }
      if categoryId !in categoryIds {
        return Failure(CategoryNotFound(categoryId));
      }
      if categoryId in u.managedCategories {
        return Failure(CategoryAlreadyAssigned);
      }
      var v := u.(managedCategories := u.managedCategories + {categoryId});
      UniqueAfterUpdate(users, userId, v);
      ManagersAfterUpdate(users, userId, v);
      users := users[userId := v];
      r := Success(ToDto(v));
    }

    /** `removeCategoryFromModerator`: no role check, only membership. */
    method RemoveCategoryFromModerator(userId: int, categoryId: int, categoryIds: set<int>)
      returns (r: Result<UserDto, UserError>)
      requires Valid()
      modifies this`users
      ensures Valid()
      ensures userId !in old(users) ==> r == Failure(UserNotFound(userId)) && users == old(users)
      ensures userId in old(users) && categoryId !in categoryIds ==>
                r == Failure(CategoryNotFound(categoryId)) && users == old(users)
      ensures userId in old(users) && categoryId in categoryIds
              && categoryId !in old(users)[userId].managedCategories ==>
                r == Failure(CategoryNotAssigned) && users == old(users)
      ensures r.Success? <==>
                userId in old(users) && categoryId in categoryIds && categoryId in old(users)[userId].managedCategories
      ensures r.Success? ==>
                var u := old(users)[userId];
                && users == old(users)[userId := u.(managedCategories := u.managedCategories - {categoryId})]
                && r == Success(ToDto(users[userId]))
      ensures Managers(users) == Managers(old(users))
    {
      if userId !in users {
        return Failure(UserNotFound(userId));
      }
      var u := users[userId];
      if categoryId !in categoryIds {
        return Failure(CategoryNotFound(categoryId));
      }
      if categoryId !in u.managedCategories {
        return Failure(CategoryNotAssigned);
      }
      var v := u.(managedCategories := u.managedCategories - {categoryId});
      UniqueAfterUpdate(users, userId, v);
      ManagersAfterUpdate(users, userId, v);
      users := users[userId := v];
      r := Success(ToDto(v));
    }

    /** `warnUser` */
    method WarnUser(userId: int) returns (r: Result<UserDto, UserError>)
      requires Valid()
      modifies this`users
      ensures Valid()
      ensures userId !in old(users) ==> r == Failure(UserNotFound(userId)) && users == old(users)
      ensures userId in old(users) ==>
                var u := old(users)[userId];
                && users == old(users)[userId := u.(warningCount := u.warningCount + 1)]
                && r == Success(ToDto(users[userId]))
    {
      if userId !in users {
        return Failure(UserNotFound(userId));
      }
      var u := users[userId];
      var v := u.(warningCount := u.warningCount + 1);
      UniqueAfterUpdate(users, userId, v);
      users := users[userId := v];
      r := Success(ToDto(v));
    }

    /** `lockUser` */
    method LockUser(userId: int, lock: bool) returns (r: Result<UserDto, UserError>)
      requires Valid()
      modifies this`users
      ensures Valid()
      ensures userId !in old(users) ==> r == Failure(UserNotFound(userId)) && users == old(users)
      ensures userId in old(users) ==>
                && users == old(users)[userId := old(users)[userId].(locked := lock)]
                && r == Success(ToDto(users[userId]))
    {
      if userId !in users {
        return Failure(UserNotFound(userId));
      }
      var v := users[userId].(locked := lock);
      UniqueAfterUpdate(users, userId, v);
      users := users[userId := v];
      r := Success(ToDto(v));
    }

    /** `deleteUser`. `referenced` holds the user ids that rows of
        refresh_tokens, comments or posts still point at, tables this service
        cannot see; their foreign keys have no cascade, so the delete of such a
        user fails at commit and the account stays. */
    method DeleteUser(userId: int, referenced: set<int>) returns (r: Result<(), UserError>)
      requires Valid()
      modifies this`users
      ensures Valid()
      ensures userId !in old(users) ==> r == Failure(UserNotFound(userId)) && users == old(users)
      ensures userId in old(users) && old(users)[userId].role == RoleManager ==>
                r == Failure(ManagerNotDeletable) && users == old(users)
      ensures userId in old(users) && old(users)[userId].role != RoleManager && userId in referenced ==>
                r == Failure(UserStillReferenced) && users == old(users)
      ensures userId in old(users) && old(users)[userId].role != RoleManager && userId !in referenced ==>
                r == Success(()) && users == old(users) - {userId}
      ensures Managers(users) == Managers(old(users))
    {
      if userId !in users {
        return Failure(UserNotFound(userId));
      }
      if users[userId].role == RoleManager {
        return Failure(ManagerNotDeletable);
      }
      if userId in referenced {
        return Failure(UserStillReferenced);
      }
      ManagersAfterRemoval(users, userId);
      users := users - {userId};
      r := Success(());
    }
  }
}
