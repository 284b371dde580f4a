/**
 * `AuthServiceImpl`: login (credential check, token issue, session record),
 * registration with the default role, and logout of every session of a user.
 *
 * The account and role stores are the service's view of two JPA
 * repositories: accounts keyed by their generated id, roles by name. The
 * password encoder is a pair of functions the service is given.
 */
module Auth {
  import opened Wrappers
  import opened JavaLang
  import opened Model
  import opened Security
  import opened TokenStore
  import opened Sessions

  const InvalidCredentialsMessage: string := "Invalid username or password"
  const DefaultRoleMissingMessage: string := "Default role not found"
  const DefaultRoleName: string := "ROLE_USER"

  /** The `RuntimeException` the service throws, by its message. */
  datatype AuthError = AuthError(message: string)

  /** The login response map: `token`, `userId` (the numeric id) and `username`. */
  datatype LoginResponse = LoginResponse(token: string, userId: Long, username: string)

  /** Spring Security's `PasswordEncoder`: `matches(raw, encoded)` and `encode(raw)`. */
  datatype PasswordEncoder = PasswordEncoder(matches: (string, string) -> bool, encode: string -> string)

  type Accounts = map<Long, User>

  predicate AccountsKeyed(accounts: Accounts)
  {
    forall id | id in accounts :: accounts[id].id == id
  }

  /** `user` has the given username and the password matches its hash. */
  predicate Authenticates(user: User, username: string, password: string, encoder: PasswordEncoder)
  {
    user.username == username && encoder.matches(password, user.passwordHash)
  }

  predicate HasUsername(accounts: Accounts, username: string)
  {
    exists id | id in accounts :: accounts[id].username == username
  }

  predicate CanAuthenticate(accounts: Accounts, username: string, password: string, encoder: PasswordEncoder)
  {
    exists id | id in accounts :: Authenticates(accounts[id], username, password, encoder)
  }

  predicate UniqueUsername(accounts: Accounts, username: string)
  {
    forall a, b | a in accounts && b in accounts
                  && accounts[a].username == username && accounts[b].username == username :: a == b
  }

  class AuthServiceImpl {
    var accounts: Accounts
    const roles: map<string, Role>
    const tokens: TokenRepository
    const passwordEncoder: PasswordEncoder
    const provider: JwtTokenProvider

    ghost predicate Valid()
      reads this, tokens, provider
    {
      AccountsKeyed(accounts) && tokens.Valid() && provider.Ready()
    }

    constructor (accounts: Accounts, roles: map<string, Role>, tokens: TokenRepository,
                 passwordEncoder: PasswordEncoder, provider: JwtTokenProvider)
      ensures this.accounts == accounts && this.roles == roles && this.tokens == tokens
      ensures this.passwordEncoder == passwordEncoder && this.provider == provider
    {
      this.accounts, this.roles, this.tokens := accounts, roles, tokens;
      this.passwordEncoder, this.provider := passwordEncoder, provider;
    }

    /** `userRepository.findByUsername`: some account with that username, if any. */
    method FindByUsername(username: string) returns (found: Option<User>)
      requires AccountsKeyed(accounts)
      ensures found.None? <==> !HasUsername(accounts, username)
      ensures found.Some? ==> found.value.id in accounts && accounts[found.value.id] == found.value
      ensures found.Some? ==> found.value.username == username
    {
      if id :| id in accounts && accounts[id].username == username {
        found := Some(accounts[id]);
      } else {
        found := None;
      }
    }

    /**
     * `login`: an unknown username and a wrong password fail with the same
     * error and write nothing. A success issues a token for the account and
     * writes exactly one record, under the fresh id `sessionId`, tracking
     * that token with the token lifetime in seconds as ttl; the response
     * carries the same token with the account's id and username.
     */
    method Login(username: string, password: string, now: Long, sessionId: string)
      returns (r: Result<LoginResponse, AuthError>)
      requires Valid()
      modifies tokens
      ensures Valid()
      ensures r.Failure? ==> r.error == AuthError(InvalidCredentialsMessage)
      ensures r.Failure? ==> tokens.records == old(tokens.records)
      ensures !HasUsername(accounts, username) ==> r.Failure?
      ensures !CanAuthenticate(accounts, username, password, passwordEncoder) ==> r.Failure?
      ensures UniqueUsername(accounts, username) ==>
                (r.Success? <==> CanAuthenticate(accounts, username, password, passwordEncoder))
      ensures r.Success? ==> r.value.userId in accounts
                             && Authenticates(accounts[r.value.userId], username, password, passwordEncoder)
      ensures r.Success? ==>
                var user := accounts[r.value.userId];
                && r.value.token == provider.GenerateToken(user, now)
                && r.value.username == user.username
                && tokens.records == old(tokens.records)[sessionId :=
                     FreshRecord(sessionId, LongToString(user.id), r.value.token, provider.GetExpirationInSeconds())]
    {
      var userOpt := FindByUsername(username);
      if userOpt.None? || !passwordEncoder.matches(password, userOpt.value.passwordHash) {
        return Failure(AuthError(InvalidCredentialsMessage));
      }
      var user := userOpt.value;
      var token := provider.GenerateToken(user, now);
      var userToken := new UserToken.Build(sessionId, LongToString(user.id), token,
                                           provider.GetExpirationInSeconds());
      var _ := tokens.Save(userToken);
      r := Success(LoginResponse(token, user.id, user.username));
    }

    /**
     * `register`: the account gets the username, the email, the encoded
     * password, `active` set and exactly the role ROLE_USER, and is saved
     * under the id the store generates (`newId`), which no stored account
     * has. Without ROLE_USER the call fails before anything is saved.
     */
    method Register(username: string, email: string, password: string, newId: Long)
      returns (r: Result<User, AuthError>)
      requires AccountsKeyed(accounts)
      requires newId !in accounts
      modifies this`accounts
      ensures AccountsKeyed(accounts)
      ensures DefaultRoleName !in roles ==>
                r == Failure(AuthError(DefaultRoleMissingMessage)) && accounts == old(accounts)
      ensures DefaultRoleName in roles ==>
                && r == Success(User(newId, username, email, passwordEncoder.encode(password), true,
                                     [roles[DefaultRoleName]]))
                && accounts == old(accounts)[newId := r.value]
                && |accounts| == |old(accounts)| + 1
    {
      var user := User(0, username, "", "", false, []);
      user := user.(email := email);
      user := user.(passwordHash := passwordEncoder.encode(password));
      user := user.(active := true);
      if DefaultRoleName !in roles {
        return Failure(AuthError(DefaultRoleMissingMessage));
      }
      var userRole := roles[DefaultRoleName];
      user := user.(roles := [userRole]);
      user := user.(id := newId);
      accounts := accounts[newId := user];
      r := Success(user);
    }

    /** `logout`: every record of `userId` is removed; other users' records stay as they were. */
    method Logout(userId: string)
      requires Valid()
      modifies tokens
      ensures Valid()
      ensures tokens.records == WithoutUser(old(tokens.records), userId)
    {
      tokens.DeleteByUserId(userId);
    }
  }

  /**
   * Two successful logins of one user, with distinct fresh session ids,
   * leave both session records, each under its own id with its token active,
   * and every earlier record untouched: the registry grows by two.
   */
  lemma TwoLoginsKeepBothSessions(m: Store, userId: string, ttl: Long,
                                  firstId: string, firstToken: string,
                                  secondId: string, secondToken: string)
    requires firstId != secondId && firstId !in m && secondId !in m
    ensures var first, second := FreshRecord(firstId, userId, firstToken, ttl),
                                 FreshRecord(secondId, userId, secondToken, ttl);
            var after := m[firstId := first][secondId := second];
            && after[firstId] == first && after[secondId] == second
            && IsActive(after, firstToken) && IsActive(after, secondToken)
            && |after| == |m| + 2
            && forall id | id in m :: id in after && after[id] == m[id]
  {
    var first, second := FreshRecord(firstId, userId, firstToken, ttl),
                         FreshRecord(secondId, userId, secondToken, ttl);
    var after := m[firstId := first][secondId := second];
    assert after[firstId].token == firstToken && !after[firstId].revoked;
    assert after[secondId].token == secondToken && !after[secondId].revoked;
  }

  /** The record written at login makes its token active in the registry. */
  lemma LoginActivatesToken(m: Store, sessionId: string, userId: string, token: string, ttl: Long)
    ensures IsActive(m[sessionId := FreshRecord(sessionId, userId, token, ttl)], token)
  {
    var after := m[sessionId := FreshRecord(sessionId, userId, token, ttl)];
    assert after[sessionId].token == token && !after[sessionId].revoked;
  }

  /**
   * Against the millisecond `exp` of the claims modelled here, the registry
   * ttl never outlives the token: for a non-negative lifetime without
   * overflow, ttl seconds fall short of the validity window by less than
   * one second.
   */
  lemma SessionTtlWithinTokenLifetime(p: JwtTokenProvider, now: Long)
    requires p.jwtExpirationMs >= 0 && now + p.jwtExpirationMs <= MaxLong
    ensures p.GetExpirationInSeconds() * 1000 <= p.ExpiryFor(now) - now
    ensures p.ExpiryFor(now) - now < p.GetExpirationInSeconds() * 1000 + 1000
  {
  }

  /**
   * The JWT `exp` claim holds whole seconds, so a token issued at `now`
   * validates until the clock passes `(exp / 1000) * 1000`. That window and
   * the record ttl differ by less than one second either way. With a
   * lifetime of whole seconds, such as the default, the record ttl is at
   * least the window, and equal to it exactly when `now` is a whole second.
   */
  lemma WholeSecondTokenWindow(p: JwtTokenProvider, now: Long)
    requires now >= 0 && p.jwtExpirationMs >= 0 && now + p.jwtExpirationMs <= MaxLong
    ensures var window, ttl := DivThousand(p.ExpiryFor(now)) * 1000 - now, p.GetExpirationInSeconds() * 1000;
            ttl - 1000 < window < ttl + 1000
    ensures var window, ttl := DivThousand(p.ExpiryFor(now)) * 1000 - now, p.GetExpirationInSeconds() * 1000;
            p.jwtExpirationMs % 1000 == 0 ==> window <= ttl && (window == ttl <==> now % 1000 == 0)
  {
    var exp := p.ExpiryFor(now);
    var lifetime := p.jwtExpirationMs;
    assert exp == now + lifetime;
    var qExp, qLife := DivThousand(exp), p.GetExpirationInSeconds();
    assert qExp == exp / 1000 && qLife == lifetime / 1000;
    if lifetime % 1000 == 0 {
      assert lifetime == qLife * 1000;
      assert exp % 1000 == now % 1000;
      assert qExp * 1000 == exp - exp % 1000;
    }
  }
}
