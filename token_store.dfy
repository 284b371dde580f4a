/**
 * `TokenRepository`: the Redis registry of session records, keyed by record
 * id, with the derived queries `findByToken` and `deleteByUserId`. The store
 * is a finite map from id to the stored record; the functions in this module
 * are the registry's states and transitions, the class the repository
 * object whose methods perform them.
 */
module TokenStore {
  import opened Wrappers
  import opened Model

  type Store = map<string, SessionRecord>

  /** Every record is stored under its own id. */
  predicate KeyedById(m: Store)
  {
    forall id | id in m :: m[id].id == id
  }

  /** Some record tracks `token`. */
  predicate HasToken(m: Store, token: string)
  {
    exists id | id in m :: m[id].token == token
  }

  /** Some record tracks `token` and is not revoked. */
  predicate IsActive(m: Store, token: string)
  {
    exists id | id in m :: m[id].token == token && !m[id].revoked
  }

  /** Every record that tracks `token` is revoked (vacuously so when there is none). */
  predicate AllRevoked(m: Store, token: string)
  {
    forall id | id in m && m[id].token == token :: m[id].revoked
  }

  /** At most one record tracks `token`. */
  predicate UniqueToken(m: Store, token: string)
  {
    forall a, b | a in m && b in m && m[a].token == token && m[b].token == token :: a == b
  }

  /** The store after the record `id` is flagged revoked. */
  function MarkRevoked(m: Store, id: string): (r: Store)
    requires id in m
    ensures r.Keys == m.Keys
    ensures r[id] == m[id].(revoked := true)
    ensures forall other | other in m && other != id :: r[other] == m[other]
  {
    m[id := m[id].(revoked := true)]
  }

  /** The store without any record of `userId`. */
  function WithoutUser(m: Store, userId: string): (r: Store)
    ensures forall id :: id in r <==> id in m && m[id].userId != userId
    ensures forall id | id in r :: r[id] == m[id]
  {
    map id | id in m && m[id].userId != userId :: m[id]
  }

  /** Flagging a record twice is flagging it once. */
  lemma MarkRevokedIdempotent(m: Store, id: string)
    requires id in m
    ensures MarkRevoked(MarkRevoked(m, id), id) == MarkRevoked(m, id)
  {
  }

  /** After the only record of a token is flagged, the token is no longer active. */
  lemma RevokedTokenIsInactive(m: Store, id: string)
    requires id in m && UniqueToken(m, m[id].token)
    ensures !IsActive(MarkRevoked(m, id), m[id].token)
    ensures AllRevoked(MarkRevoked(m, id), m[id].token)
  {
  }

  /** Removing a user's records twice is removing them once. */
  lemma WithoutUserIdempotent(m: Store, userId: string)
    ensures WithoutUser(WithoutUser(m, userId), userId) == WithoutUser(m, userId)
  {
  }

  /** Logout of one user and logout of another commute. */
  lemma WithoutUserCommutes(m: Store, u: string, v: string)
    ensures WithoutUser(WithoutUser(m, u), v) == WithoutUser(WithoutUser(m, v), u)
  {
  }

  /** Once a user's records are gone, no token held only by that user is active. */
  lemma WithoutUserDeactivates(m: Store, userId: string, token: string)
    requires forall id | id in m && m[id].token == token :: m[id].userId == userId
    ensures !HasToken(WithoutUser(m, userId), token)
    ensures !IsActive(WithoutUser(m, userId), token)
  {
  }

  class TokenRepository {
    var records: Store

    ghost predicate Valid()
      reads this
    {
      KeyedById(records)
    }

    constructor ()
      ensures Valid() && records == map[]
    {
      records := map[];
    }

    /**
     * `save`: stores the entity's fields under its id, replacing a record
     * with that id if there is one; the same entity is returned.
     */
    method Save(entity: UserToken) returns (saved: UserToken)
      requires Valid()
      modifies this
      ensures Valid()
      ensures records == old(records)[entity.id := entity.Snapshot()]
      ensures |records| == |old(records)| + (if entity.id in old(records) then 0 else 1)
      ensures saved == entity
    {
      records := records[entity.id := entity.Snapshot()];
      saved := entity;
    }

    /**
     * `findByToken`: empty exactly when no record tracks `token`; otherwise a
     * fresh entity materialised from one stored record that does. Which one,
     * when several do, is left open.
     */
    method FindByToken(token: string) returns (found: Option<UserToken>)
      requires Valid()
      ensures found.None? <==> !HasToken(records, token)
      ensures found.Some? ==> fresh(found.value)
      ensures found.Some? ==> found.value.id in records && records[found.value.id] == found.value.Snapshot()
      ensures found.Some? ==> found.value.token == token
    {
      if id :| id in records && records[id].token == token {
        var entity := new UserToken.FromRecord(records[id]);
        found := Some(entity);
      } else {
        found := None;
      }
    }

    /** `deleteByUserId`: removes every record of `userId` and nothing else. */
    method DeleteByUserId(userId: string)
      requires Valid()
      modifies this
      ensures Valid()
      ensures records == WithoutUser(old(records), userId)
    {
      records := WithoutUser(records, userId);
    }
  }
}
