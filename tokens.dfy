/** Refresh tokens: the RefreshToken entity, the refresh_tokens table behind
    RefreshTokenRepository, and RefreshTokenService. Time is a number of seconds
    passed in by the caller as `now`. */
module RefreshTokens {
  import opened Common

  /** Default of `jwt.refresh-token-validity-in-seconds`: seven days. */
  const DefaultValiditySeconds := 604800

  /** The columns of one refresh-token row, keyed elsewhere by its token string. */
  datatype TokenRow = TokenRow(userId: int, expiryDate: int, createdDate: int, isRevoked: bool)

  /** `RefreshToken.isExpired` on a row: strictly after the expiry instant, so a
      token is still good at exactly its expiry date. */
  predicate Expired(row: TokenRow, now: int) {
    now > row.expiryDate
  }

  class RefreshToken {
    const token: string
    const userId: int
    const expiryDate: int
    const createdDate: int
    var isRevoked: bool

    constructor (token: string, userId: int, expiryDate: int, createdDate: int)
      ensures this.token == token && this.userId == userId
      ensures this.expiryDate == expiryDate && this.createdDate == createdDate
      ensures !isRevoked
    {
      this.token := token;
      this.userId := userId;
      this.expiryDate := expiryDate;
      this.createdDate := createdDate;
      isRevoked := false;
    }

    /** `isExpired`: the row test on this token's columns. */
    predicate IsExpired(now: int)
      reads this
    {
      Expired(TokenRow(userId, expiryDate, createdDate, isRevoked), now)
    }

    /** `revoke`: sets the flag and nothing else; a second call changes nothing. */
    method Revoke()
      modifies this`isRevoked
      ensures isRevoked
    {
      isRevoked := true;
    }
  }

  function Row(t: RefreshToken): (row: TokenRow)
    reads t
    ensures forall now :: Expired(row, now) == t.IsExpired(now)
  {
    TokenRow(t.userId, t.expiryDate, t.createdDate, t.isRevoked)
  }

  // ---------------------------------------------------------------------------
  // The table as a value, and what the bulk statements do to it

  type Table = map<string, TokenRow>

  /** `findByTokenAndIsRevokedFalse` on the table. */
  function FindActive(table: Table, token: string): (r: Option<TokenRow>)
    ensures r.Some? <==> token in table && !table[token].isRevoked
    ensures r.Some? ==> r.value == table[token]
  {
    if token in table && !table[token].isRevoked then Some(table[token]) else None
  }

  /** `revokeToken` on the table: marks the named row revoked if there is one. */
  function RevokedOne(table: Table, token: string): (r: Table)
    ensures r.Keys == table.Keys
    ensures token in table ==> r[token] == table[token].(isRevoked := true)
    ensures forall s :: s in table && s != token ==> r[s] == table[s]
  {
    if token in table then table[token := table[token].(isRevoked := true)] else table
  }

  /** Revoking twice leaves the table as revoking once. */
  lemma RevokedOneIdempotent(table: Table, token: string)
    ensures RevokedOne(RevokedOne(table, token), token) == RevokedOne(table, token)
  {
  }

  /** After a revocation the token is no longer found by the active lookup. */
  lemma RevokedOneNotActive(table: Table, token: string)
    ensures FindActive(RevokedOne(table, token), token).None?
  {
  }

  /** The bulk `UPDATE ... SET isRevoked = true WHERE user = :user`. */
  function RevokedAll(table: Table, userId: int): (r: Table)
    ensures r.Keys == table.Keys
    ensures forall s :: s in table && table[s].userId == userId ==> r[s] == table[s].(isRevoked := true)
    ensures forall s :: s in table && table[s].userId != userId ==> r[s] == table[s]
  {
    map s | s in table :: if table[s].userId == userId then table[s].(isRevoked := true) else table[s]
  }

  /** After revoking all of a user's tokens, none of them is active any more and
      every other user's active tokens are still active. */
  lemma RevokedAllEndsSessions(table: Table, userId: int, token: string)
    ensures token in table && table[token].userId == userId ==>
              FindActive(RevokedAll(table, userId), token).None?
    ensures token in table && table[token].userId != userId ==>
              FindActive(RevokedAll(table, userId), token) == FindActive(table, token)
  {
  }

  lemma RevokedAllIdempotent(table: Table, userId: int)
    ensures RevokedAll(RevokedAll(table, userId), userId) == RevokedAll(table, userId)
  {
  }

  /** The bulk `DELETE ... WHERE expiryDate < :now OR isRevoked = true`. */
  function Purged(table: Table, now: int): (r: Table)
    ensures r.Keys <= table.Keys
    ensures forall s :: s in r ==> r[s] == table[s]
    ensures forall s :: s in table ==> (s in r <==> !(table[s].expiryDate < now || table[s].isRevoked))
  {
    map s | s in table && !(table[s].expiryDate < now || table[s].isRevoked) :: table[s]
  }

  /** Every survivor is unrevoked and not yet past its expiry date. */
  lemma PurgedSurvivors(table: Table, now: int, token: string)
    requires token in Purged(table, now)
    ensures !Purged(table, now)[token].isRevoked && Purged(table, now)[token].expiryDate >= now
  {
  }

  /** A second sweep at the same instant deletes nothing. */
  lemma {:induction false} PurgedIdempotent(table: Table, now: int)
    ensures Purged(Purged(table, now), now) == Purged(table, now)
  {
    var once := Purged(table, now);
    assert Purged(once, now).Keys == once.Keys;
  }

  /** The sweep never deletes a token that a refresh at the same instant would
      accept: active and not expired. */
  lemma PurgeKeepsUsableTokens(table: Table, now: int, token: string)
    requires FindActive(table, token).Some? && !Expired(table[token], now)
    ensures FindActive(Purged(table, now), token) == FindActive(table, token)
  {
  }

  datatype TokenError = DuplicateToken | TokenExpired

  /** RefreshTokenRepository: the rows of the refresh_tokens table, keyed by their
      unique, non-null token string. */
  class RefreshTokenRepository {
    var rows: map<string, RefreshToken>

    ghost predicate Valid()
      reads this
    {
      forall s :: s in rows ==> rows[s].token == s
    }

    /** The table's contents as values. */
    ghost function Contents(): Table
      reads this, rows.Values
    {
      map s | s in rows :: Row(rows[s])
    }

    constructor ()
      ensures Valid() && rows == map[]
    {
      rows := map[];
    }

    /** Inserting a new row; the unique column refuses a token string already present. */
    method Insert(t: RefreshToken) returns (r: Result<RefreshToken, TokenError>)
      requires Valid()
      requires forall s :: s in rows ==> rows[s] != t
      modifies this
      ensures Valid()
      ensures t.token in old(rows) ==> r == Failure(DuplicateToken) && rows == old(rows)
      ensures t.token !in old(rows) ==> r == Success(t) && rows == old(rows)[t.token := t]
      ensures Contents() == if t.token in old(rows) then old(Contents()) else old(Contents())[t.token := Row(t)]
    {
      if t.token in rows {
        return Failure(DuplicateToken);
      }
      rows := rows[t.token := t];
      r := Success(t);
    }

    /** `findByToken`: revoked or not. */
    method FindByToken(token: string) returns (r: Option<RefreshToken>)
      requires Valid()
      ensures r.Some? <==> token in rows
      ensures r.Some? ==> r.value == rows[token] && r.value.token == token
    {
      r := if token in rows then Some(rows[token]) else None;
    }

    /** `findByTokenAndIsRevokedFalse`: only an unrevoked row with exactly that string. */
    method FindByTokenAndIsRevokedFalse(token: string) returns (r: Option<RefreshToken>)
      requires Valid()
      ensures r.Some? <==> FindActive(Contents(), token).Some?
      ensures r.Some? ==> r.value == rows[token] && r.value.token == token && !r.value.isRevoked
    {
      r := if token in rows && !rows[token].isRevoked then Some(rows[token]) else None;
    }

    /** `delete`: removes the row if it is stored, and is silent otherwise. */
    method Delete(t: RefreshToken)
      requires Valid()
      modifies this
      ensures Valid()
      ensures Contents() == if t.token in old(rows) && old(rows)[t.token] == t
                            then old(Contents()) - {t.token} else old(Contents())
    {
      if t.token in rows && rows[t.token] == t {
        rows := rows - {t.token};
      }
    }

    /** `revokeAllTokensByUser` */
    method RevokeAllTokensByUser(userId: int)
      requires Valid()
      modifies rows.Values
      ensures Valid()
      ensures Contents() == RevokedAll(old(Contents()), userId)
    {
      forall t | t in rows.Values && t.userId == userId {
        t.isRevoked := true;
      }
    }

    /** `deleteExpiredAndRevokedTokens` */
    method DeleteExpiredAndRevokedTokens(now: int)
      requires Valid()
      modifies this
      ensures Valid()
      ensures Contents() == Purged(old(Contents()), now)
    {
      rows := map s | s in rows && !(rows[s].expiryDate < now || rows[s].isRevoked) :: rows[s];
    }
  }

  /** RefreshTokenService over its repository. */
  class RefreshTokenService {
    const repository: RefreshTokenRepository
    const validitySeconds: int

    ghost predicate Valid()
      reads this, repository
    {
      repository.Valid()
    }

    constructor (repository: RefreshTokenRepository, validitySeconds: int)
      requires repository.Valid()
      ensures Valid()
      ensures this.repository == repository && this.validitySeconds == validitySeconds
    {
      this.repository := repository;
      this.validitySeconds := validitySeconds;
    }

    /** `createRefreshToken`: `token` is the generated UUID string. */
    method CreateRefreshToken(userId: int, token: string, now: int) returns (r: Result<RefreshToken, TokenError>)
      requires Valid()
      modifies repository
      ensures Valid()
      ensures token in old(repository.rows) ==>
                r == Failure(DuplicateToken) && repository.Contents() == old(repository.Contents())
      ensures token !in old(repository.rows) ==>
                && r.Success? && fresh(r.value) && r.value.token == token
                && repository.Contents()
                   == old(repository.Contents())[token := TokenRow(userId, now + validitySeconds, now, false)]
    {
      var t := new RefreshToken(token, userId, now + validitySeconds, now);
      r := repository.Insert(t);
    }

    /** `findByToken`: the active lookup. */
    method FindByToken(token: string) returns (r: Option<RefreshToken>)
      requires Valid()
      ensures r.Some? <==> FindActive(repository.Contents(), token).Some?
      ensures r.Some? ==> r.value == repository.rows[token] && r.value.token == token && !r.value.isRevoked
    {
      r := repository.FindByTokenAndIsRevokedFalse(token);
    }

    /** `verifyExpiration`: an expired token is refused, any other is returned
        as it is. The method deletes an expired token and then throws, and the
        exception rolls its transaction back, so the delete never commits: the
        table is left as it was either way. */
    method VerifyExpiration(t: RefreshToken, now: int) returns (r: Result<RefreshToken, TokenError>)
      ensures r.Failure? <==> t.IsExpired(now)
      ensures r.Failure? ==> r.error == TokenExpired
      ensures r.Success? ==> r.value == t
    {
      if t.IsExpired(now) {
        return Failure(TokenExpired);
      }
      r := Success(t);
    }

    /** `revokeToken`: looks the token up whatever its revoked flag; unknown
        tokens are ignored. */
    method RevokeToken(token: string)
      requires Valid()
      modifies repository.rows.Values
      ensures Valid()
      ensures repository.Contents() == RevokedOne(old(repository.Contents()), token)
    {
      var found := repository.FindByToken(token);
      if found.Some? {
        found.value.Revoke();
      }
    }

    /** `revokeAllUserTokens` */
    method RevokeAllUserTokens(userId: int)
      requires Valid()
      modifies repository.rows.Values
      ensures Valid()
      ensures repository.Contents() == RevokedAll(old(repository.Contents()), userId)
    {
      repository.RevokeAllTokensByUser(userId);
    }
  }
}
