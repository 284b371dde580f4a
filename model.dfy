/**
 * The entities of the authentication service: accounts and roles (as the
 * service reads them), and the session record `UserToken` that the Redis
 * registry stores.
 */
module Model {
  import opened JavaLang

  /** A granted role; only its name is used by the token code. */
  datatype Role = Role(name: string)

  /**
   * A user account as the service sees it. `roles` lists the account's role
   * set in its iteration order, which is the order the token provider joins
   * the names in.
   */
  datatype User = User(
    id: Long,
    username: string,
    email: string,
    passwordHash: string,
    active: bool,
    roles: seq<Role>)

  /** `role -> role.getName()` over the user's roles, in iteration order. */
  function RoleNames(roles: seq<Role>): (names: seq<string>)
    ensures |names| == |roles|
    ensures forall i | 0 <= i < |roles| :: names[i] == roles[i].name
  {
    if roles == [] then [] else [roles[0].name] + RoleNames(roles[1..])
  }

  /** The persisted form of a session record: one Redis hash, keyed by `id`. */
  datatype SessionRecord = SessionRecord(
    id: string,
    userId: string,
    token: string,
    ttl: Long,
    revoked: bool)

  /**
   * The mutable session entity. Its string fields are null after the no-argument
   * constructor; the empty string stands for that null here, and no path that
   * saves a record leaves one of them unset.
   */
  class UserToken {
    var id: string
    var userId: string
    var token: string
    var ttl: Long
    var revoked: bool

    /** The field values, as the repository stores them. */
    function Snapshot(): (r: SessionRecord)
      reads this
      ensures r.id == id && r.userId == userId && r.token == token
      ensures r.ttl == ttl && r.revoked == revoked
    {
      SessionRecord(id, userId, token, ttl, revoked)
    }

    /** The no-argument constructor: every field at its Java default. */
    constructor ()
      ensures Snapshot() == SessionRecord("", "", "", 0, false)
    {
      id, userId, token, ttl, revoked := "", "", "", 0, false;
    }

    /** The builder with `id`, `userId`, `token` and `ttl` set; `revoked` keeps its default. */
    constructor Build(id: string, userId: string, token: string, ttl: Long)
      ensures Snapshot() == SessionRecord(id, userId, token, ttl, false)
    {
      this.id, this.userId, this.token, this.ttl, this.revoked := id, userId, token, ttl, false;
    }

    /** The all-arguments constructor, which the repository uses to materialise a stored record. */
    constructor FromRecord(r: SessionRecord)
      ensures Snapshot() == r
    {
      id, userId, token, ttl, revoked := r.id, r.userId, r.token, r.ttl, r.revoked;
    }

    method SetId(id: string)
      modifies this`id
      ensures Snapshot() == old(Snapshot()).(id := id)
    {
      this.id := id;
    }

    method SetUserId(userId: string)
      modifies this`userId
      ensures Snapshot() == old(Snapshot()).(userId := userId)
    {
      this.userId := userId;
    }

    method SetToken(token: string)
      modifies this`token
      ensures Snapshot() == old(Snapshot()).(token := token)
    {
      this.token := token;
    }

    method SetTtl(ttl: Long)
      modifies this`ttl
      ensures Snapshot() == old(Snapshot()).(ttl := ttl)
    {
      this.ttl := ttl;
    }

    method SetRevoked(revoked: bool)
      modifies this`revoked
      ensures Snapshot() == old(Snapshot()).(revoked := revoked)
    {
      this.revoked := revoked;
    }

    predicate IsRevoked()
      reads this
      ensures IsRevoked() <==> Snapshot().revoked
    {
      revoked
    }
  }
}
