/** AuthService: registration, login, access-token refresh and logout, over the
    users table of UserService and the refresh-token store. The JWT provider's
    signing is not part of this model: `createToken` stands for it and is fixed
    when the service is built, and the fresh UUID of a new refresh token is
    passed in by the caller, as is the current time. */
module Auth {
  import opened Common
  import opened Users
  import opened RefreshTokens

  /** The messages of the BadCredentialsException thrown by login. */
  const MsgBadCredentials := "잘못된 사용자 이름 또는 비밀번호입니다."
  const MsgDisabled := "비활성화된 계정입니다."
  const MsgLocked := "잠긴 계정입니다. 관리자에게 문의하세요."

  datatype AuthError =
    | BadCredentials(message: string)   // login refused
    | InvalidRefreshToken               // no unrevoked row with that string
    | RefreshTokenExpired               // the row was past its expiry date
    | TokenNotStored                    // the new refresh token's string was already stored
    | OwnerNotFound                     // the row's owner is no longer in the users table

  datatype LoginResponse = LoginResponse(accessToken: string, refreshToken: string, user: UserDto)

  datatype TokenRefreshResponse = TokenRefreshResponse(accessToken: string, refreshToken: string)

  /** What login answers for the account `u` when the password check gave `matches`:
      a wrong password and an unknown username read the same to the caller. */
  function LoginRefusal(u: Option<User>, matches: bool): (r: Option<AuthError>)
    ensures r.None? <==> u.Some? && matches && u.value.enabled && !u.value.locked
    ensures r.Some? ==> r.value.BadCredentials?
    ensures u.None? || !matches ==> r == Some(BadCredentials(MsgBadCredentials))
  {
    if u.None? || !matches then Some(BadCredentials(MsgBadCredentials))
    else if !u.value.enabled then Some(BadCredentials(MsgDisabled))
    else if u.value.locked then Some(BadCredentials(MsgLocked))
    else None
  }

  /** An unknown username cannot be told apart from a wrong password: for any
      account and any password outcome, the refusal is the same. */
  lemma UnknownUserLooksLikeWrongPassword(u: User, matches: bool)
    ensures LoginRefusal(None, matches) == LoginRefusal(Some(u), false)
  {
  }

  /** A disabled account is reported as disabled even when it is also locked. */
  lemma DisabledBeforeLocked(u: User)
    requires !u.enabled
    ensures LoginRefusal(Some(u), true) == Some(BadCredentials(MsgDisabled))
  {
  }

  class AuthService {
    const userService: UserService
    const refreshTokenService: RefreshTokenService
    /** JwtTokenProvider.createToken for a principal with that username and role. */
    const createToken: (string, UserRole) -> string

    ghost predicate Valid()
      reads this, userService, refreshTokenService, refreshTokenService.repository
    {
      userService.Valid() && refreshTokenService.Valid()
    }

    constructor (userService: UserService, refreshTokenService: RefreshTokenService,
                 createToken: (string, UserRole) -> string)
      ensures this.userService == userService && this.refreshTokenService == refreshTokenService
      ensures this.createToken == createToken
    {
      this.userService := userService;
      this.refreshTokenService := refreshTokenService;
      this.createToken := createToken;
    }

    /** `register`: hands the request to UserService.registerUser unchanged. */
    method Register(username: string, password: string, email: string,
                    name: Option<string>, nickname: Option<string>)
      returns (r: Result<UserDto, UserError>, ghost k: nat)
      requires Valid()
      modifies userService`users, userService`nextId
      ensures Valid()
      ensures RegisterOutcome(old(userService.users), old(userService.nextId), userService.users, username,
                              userService.passwordEncoder.encode(password), email, name, nickname, r, k)
      ensures refreshTokenService.repository.Contents() == old(refreshTokenService.repository.Contents())
    {
      r, k := userService.RegisterUser(username, password, email, name, nickname);
    }

    /** `login`: the account is looked up by username, then the password, the
        enabled flag and the locked flag are checked in that order; only then is
        an access token minted for the account's username and current role and a
        refresh token stored for it under `newToken`. */
    method Login(username: string, password: string, newToken: string, now: int)
      returns (r: Result<LoginResponse, AuthError>)
      requires Valid()
      modifies refreshTokenService.repository
      ensures Valid()
      ensures username !in Usernames(userService.users) ==>
                && r == Failure(BadCredentials(MsgBadCredentials))
                && refreshTokenService.repository.Contents() == old(refreshTokenService.repository.Contents())
      ensures username in Usernames(userService.users) ==>
                var u := ByUsername(userService.users, username);
                var refusal := LoginRefusal(Some(u), userService.passwordEncoder.matches(password, u.password));
                && (refusal.Some? ==>
                      && r == Failure(refusal.value)
                      && refreshTokenService.repository.Contents() == old(refreshTokenService.repository.Contents()))
                && (refusal.None? && newToken in old(refreshTokenService.repository.rows) ==>
                      && r == Failure(TokenNotStored)
                      && refreshTokenService.repository.Contents() == old(refreshTokenService.repository.Contents()))
                && (refusal.None? && newToken !in old(refreshTokenService.repository.rows) ==>
                      && r == Success(LoginResponse(createToken(u.username, u.role), newToken, ToDto(u)))
                      && refreshTokenService.repository.Contents()
                         == old(refreshTokenService.repository.Contents())[newToken :=
                              TokenRow(u.id, now + refreshTokenService.validitySeconds, now, false)])
    {
      var found := userService.FindByUsername(username);
      if found.None? {
        return Failure(BadCredentials(MsgBadCredentials));
      }
      var user := found.value;
      UsernameDeterminesUser(userService.users, username, user);
      var refusal := LoginRefusal(found, userService.passwordEncoder.matches(password, user.password));
      if refusal.Some? {
        return Failure(refusal.value);
      }
      var accessToken := createToken(user.username, user.role);
      var stored := refreshTokenService.CreateRefreshToken(user.id, newToken, now);
      if stored.Failure? {
        return Failure(TokenNotStored);
      }
      r := Success(LoginResponse(accessToken, stored.value.token, ToDto(user)));
    }

    /** `refreshToken`: only an unrevoked row is accepted; an expired one is
        refused, and the store keeps it, since the delete in `verifyExpiration`
        is rolled back with the exception that follows it; otherwise a new
        access token is minted for the owner's current username and role, and
        the same refresh string is handed back unchanged. Nothing is changed. */
    method Refresh(token: string, now: int) returns (r: Result<TokenRefreshResponse, AuthError>)
      requires Valid()
      ensures var store := refreshTokenService.repository.Contents();
              && (FindActive(store, token).None? ==> r == Failure(InvalidRefreshToken))
              && (FindActive(store, token).Some? && Expired(store[token], now) ==> r == Failure(RefreshTokenExpired))
              && (FindActive(store, token).Some? && !Expired(store[token], now) ==>
                    && (store[token].userId !in userService.users ==> r == Failure(OwnerNotFound))
                    && (store[token].userId in userService.users ==>
                          var owner := userService.users[store[token].userId];
                          r == Success(TokenRefreshResponse(createToken(owner.username, owner.role), token))))
    {
      var found := refreshTokenService.FindByToken(token);
      if found.None? {
        return Failure(InvalidRefreshToken);
      }
      var verified := refreshTokenService.VerifyExpiration(found.value, now);
      if verified.Failure? {
        return Failure(RefreshTokenExpired);
      }
      var owner := userService.FindById(verified.value.userId);
      if owner.None? {
        return Failure(OwnerNotFound);
      }
      var accessToken := createToken(owner.value.username, owner.value.role);
      r := Success(TokenRefreshResponse(accessToken, verified.value.token));
    }

    /** `logout`: revokes the row with that string, if any; never fails. */
    method Logout(token: string)
      requires Valid()
      modifies refreshTokenService.repository.rows.Values
      ensures Valid()
      ensures refreshTokenService.repository.Contents()
              == RevokedOne(old(refreshTokenService.repository.Contents()), token)
    {
      refreshTokenService.RevokeToken(token);
    }
  }
}
