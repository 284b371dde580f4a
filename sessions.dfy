/**
 * `TokenService`: records issued tokens in the registry, revokes single
 * tokens and answers whether a token is still tracked and not revoked.
 */
module Sessions {
  import opened Wrappers
  import opened JavaLang
  import opened Model
  import opened Security
  import opened TokenStore

  /** The record `saveToken` writes for a token issued to `userId`. */
  function FreshRecord(id: string, userId: string, token: string, ttl: Long): (r: SessionRecord)
    ensures r.id == id && r.userId == userId && r.token == token && r.ttl == ttl && !r.revoked
  {
    SessionRecord(id, userId, token, ttl, false)
  }

  class TokenService {
    const repo: TokenRepository
    const provider: JwtTokenProvider

    constructor (repo: TokenRepository, provider: JwtTokenProvider)
      ensures this.repo == repo && this.provider == provider
    {
      this.repo, this.provider := repo, provider;
    }

    /**
     * `saveToken`: a new entity under the fresh id `newId` (the random UUID),
     * with the given user and token, the provider's lifetime in seconds as
     * ttl and `revoked` false, is written to the registry and returned.
     */
    method SaveToken(userId: string, tokenValue: string, newId: string) returns (saved: UserToken)
      requires repo.Valid()
      modifies repo
      ensures repo.Valid()
      ensures saved.Snapshot() == FreshRecord(newId, userId, tokenValue, provider.GetExpirationInSeconds())
      ensures repo.records == old(repo.records)[newId := saved.Snapshot()]
      ensures newId !in old(repo.records) ==> |repo.records| == |old(repo.records)| + 1
    {
      var userToken := new UserToken();
      userToken.SetId(newId);
      userToken.SetUserId(userId);
      userToken.SetToken(tokenValue);
      userToken.SetTtl(provider.GetExpirationInSeconds());
      saved := repo.Save(userToken);
    }

    /** `findByToken`: the repository's answer; the registry is not changed. */
    method FindByToken(token: string) returns (found: Option<UserToken>)
      requires repo.Valid()
      ensures found.None? <==> !HasToken(repo.records, token)
      ensures found.Some? ==> fresh(found.value) && found.value.token == token
      ensures found.Some? ==> found.value.id in repo.records
                              && repo.records[found.value.id] == found.value.Snapshot()
    {
      found := repo.FindByToken(token);
    }

    /**
     * `revokeToken`: when a record tracks `token`, that record alone gets
     * `revoked` set; when none does, nothing changes and nothing fails. When
     * every record of the token is already revoked the call changes nothing,
     * so a second revocation of a token is a no-op.
     */
    method RevokeToken(token: string)
      requires repo.Valid()
      modifies repo
      ensures repo.Valid()
      ensures !HasToken(old(repo.records), token) ==> repo.records == old(repo.records)
      ensures HasToken(old(repo.records), token) ==>
                exists id | id in old(repo.records) && old(repo.records)[id].token == token ::
                  repo.records == MarkRevoked(old(repo.records), id)
      ensures AllRevoked(old(repo.records), token) ==> repo.records == old(repo.records)
      ensures UniqueToken(old(repo.records), token) ==>
                AllRevoked(repo.records, token) && !IsActive(repo.records, token)
    {
      var tokenOpt := repo.FindByToken(token);
      if tokenOpt.Some? {
        var userToken := tokenOpt.value;
        ghost var id := userToken.id;
        userToken.SetRevoked(true);
        var _ := repo.Save(userToken);
        assert repo.records == MarkRevoked(old(repo.records), id);
        if UniqueToken(old(repo.records), token) {
          RevokedTokenIsInactive(old(repo.records), id);
        }
      }
    }

    /**
     * `isTokenValid`: true only when a tracking record exists and is not
     * revoked; false when no record tracks the token. When at most one record
     * tracks the token the answer is exactly whether that record is active.
     */
    method IsTokenValid(token: string) returns (valid: bool)
      requires repo.Valid()
      ensures valid ==> IsActive(repo.records, token)
      ensures !HasToken(repo.records, token) ==> !valid
      ensures AllRevoked(repo.records, token) ==> !valid
      ensures UniqueToken(repo.records, token) ==> (valid <==> IsActive(repo.records, token))
    {
      var tokenOpt := repo.FindByToken(token);
      valid := tokenOpt.Some? && !tokenOpt.value.IsRevoked();
    }
  }
}
