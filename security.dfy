/**
 * `JwtTokenProvider`: issues HS384-signed JSON Web Tokens (RFC 7519, compact
 * serialization of section 7.1 of RFC 7515, HS384 of section 3.2 of RFC 7518)
 * and reads their claims back.
 *
 * The JOSE library that signs, encodes and parses the tokens is not modelled:
 * it is the `Codec` value, two functions the provider is given. What the
 * provider relies on the library for is the predicate `Recovers`, which the
 * lemmas below take as a hypothesis rather than as an axiom.
 */
module Security {
  import opened Wrappers
  import opened JavaLang
  import opened Model

  /** HS384 needs a key of at least 384 bits. */
  const MinSecretBytes: nat := 48

  /** The configured default of `app.jwt.secret`. */
  const DefaultSecret: string := "THIS_SECRET_MUST_BE_LONG_ENOUGH_FOR_HS384_PLEASE_CHANGE"

  /** The configured default of `app.jwt.expiration`: one day in milliseconds. */
  const DefaultExpirationMs: Long := 86400000

  const WeakSecretMessage: string := "Secret key must be at least 48 bytes (384 bits) for HS384."

  /** The HMAC key built from the secret's UTF-8 bytes. */
  datatype Key = Key(bytes: seq<byte>)

  /** The claims the provider writes: `sub`, `username`, `roles`, `iat`, `exp` (times in ms). */
  datatype Claims = Claims(
    subject: string,
    username: string,
    roles: string,
    issuedAt: Long,
    expiration: Long)

  /**
   * The exceptions a token operation can raise: the `JwtException` family,
   * and `IllegalArgumentException` from the library (no key) or from
   * `SimpleGrantedAuthority` (a blank role).
   */
  datatype JwtError =
    | ExpiredJwt
    | SignatureMismatch
    | MalformedJwt
    | UnsupportedJwt
    | IllegalArgument

  datatype ConfigError = WeakSecret(message: string)

  /** Spring Security's `SimpleGrantedAuthority`. */
  datatype GrantedAuthority = GrantedAuthority(authority: string)

  /**
   * The signing library: `sign` builds and signs a compact token, `parse`
   * verifies a token against a key at a given time and yields its claims.
   */
  datatype Codec = Codec(
    sign: (Key, Claims) -> string,
    parse: (Key, string, Long) -> Result<Claims, JwtError>)

  /**
   * What the provider assumes of the library: a token signed with a key
   * parses under that key to the claims that were signed, until the current
   * time passes the expiration, after which it is reported expired.
   */
  ghost predicate Recovers(codec: Codec)
  {
    forall k: Key, c: Claims, now: Long ::
      codec.parse(k, codec.sign(k, c), now)
        == if now > c.expiration then Failure(ExpiredJwt) else Success(c)
  }

  class JwtTokenProvider {
    const jwtSecret: string
    const jwtExpirationMs: Long
    const codec: Codec
    var key: Option<Key>

    /** Property injection; `key` stays unset until `Init` runs. */
    constructor (jwtSecret: string, jwtExpirationMs: Long, codec: Codec)
      ensures this.jwtSecret == jwtSecret && this.jwtExpirationMs == jwtExpirationMs
      ensures this.codec == codec && key == None
    {
      this.jwtSecret, this.jwtExpirationMs, this.codec := jwtSecret, jwtExpirationMs, codec;
      key := None;
    }

    /** The provider has a signing key: `Init` ran and accepted the secret. */
    predicate Ready()
      reads this
    {
      key.Some?
    }

    /**
     * The post-construction check: a secret whose UTF-8 encoding is shorter
     * than 48 bytes is refused and no key is set; otherwise the key holds the
     * secret's bytes.
     */
    method Init() returns (r: Outcome<ConfigError>)
      modifies this`key
      ensures r.Fail? <==> |Utf8Encode(jwtSecret)| < MinSecretBytes
      ensures r.Fail? ==> r.error == WeakSecret(WeakSecretMessage) && key == old(key)
      ensures r.Pass? ==> key == Some(Key(Utf8Encode(jwtSecret)))
    {
      var secretBytes := Utf8Encode(jwtSecret);
      if |secretBytes| < MinSecretBytes {
        return Fail(WeakSecret(WeakSecretMessage));
      }
      key := Some(Key(secretBytes));
      r := Pass;
    }

    /** `new Date(now.getTime() + jwtExpirationMs)`, with Java's `long` wrap-around. */
    function ExpiryFor(now: Long): (exp: Long)
      ensures MinLong <= now + jwtExpirationMs <= MaxLong ==> exp == now + jwtExpirationMs
      ensures (exp - (now + jwtExpirationMs)) % TwoTo64 == 0
    {
      WrapLong(now + jwtExpirationMs)
    }

    /** The claims `generateToken` writes for `user` at time `now`. */
    function ClaimsFor(user: User, now: Long): (c: Claims)
      ensures c.subject == LongToString(user.id) && c.username == user.username
      ensures c.roles == Join(RoleNames(user.roles), ',')
      ensures c.issuedAt == now && c.expiration == ExpiryFor(now)
    {
      Claims(LongToString(user.id), user.username, Join(RoleNames(user.roles), ','), now, ExpiryFor(now))
    }

    /**
     * The signed compact token for `user`, issued at `now`. With a library
     * that recovers what it signs, the token parses back to the user's id as
     * subject, the username, the comma-joined role names, `iat == now` and
     * `exp == now + lifetime` up to its expiry, and is reported expired after.
     */
    function GenerateToken(user: User, now: Long): (t: string)
      reads this
      requires Ready()
      ensures Recovers(codec) ==> forall at: Long | at <= ExpiryFor(now) ::
                GetAllClaims(t, at) == Success(Claims(LongToString(user.id), user.username,
                                                      Join(RoleNames(user.roles), ','), now, ExpiryFor(now)))
      ensures Recovers(codec) ==> forall at: Long | at > ExpiryFor(now) ::
                GetAllClaims(t, at) == Failure(ExpiredJwt)
    {
      codec.sign(key.value, ClaimsFor(user, now))
    }

    /**
     * Parse and verify `token` at time `now`: without a key the library
     * refuses with `IllegalArgumentException`, otherwise its verdict under the
     * key is the answer.
     */
    function GetAllClaims(token: string, now: Long): (r: Result<Claims, JwtError>)
      reads this
      ensures !Ready() ==> r == Failure(IllegalArgument)
      ensures Ready() ==> r == codec.parse(key.value, token, now)
    {
      if key.None? then Failure(IllegalArgument) else codec.parse(key.value, token, now)
    }

    function GetUserIdFromToken(token: string, now: Long): (r: Result<string, JwtError>)
      reads this
      ensures r.Success? <==> GetAllClaims(token, now).Success?
      ensures r.Success? ==> r.value == GetAllClaims(token, now).value.subject
      ensures r.Failure? ==> r.error == GetAllClaims(token, now).error
    {
      match GetAllClaims(token, now)
      case Success(c) => Success(c.subject)
      case Failure(e) => Failure(e)
    }

    /**
     * The `roles` claim split at commas, each piece trimmed and made an
     * authority. A parse failure is passed on; a piece that is blank after
     * trimming makes `SimpleGrantedAuthority` throw `IllegalArgumentException`.
     */
    function GetAuthorities(token: string, now: Long): (r: Result<seq<GrantedAuthority>, JwtError>)
      reads this
      ensures GetAllClaims(token, now).Failure? ==> r == Failure(GetAllClaims(token, now).error)
      ensures GetAllClaims(token, now).Success? ==>
                var pieces := Split(GetAllClaims(token, now).value.roles, ',');
                && (r.Success? <==> forall i | 0 <= i < |pieces| :: HasText(Trim(pieces[i])))
                && (r.Failure? ==> r.error == IllegalArgument)
                && (r.Success? ==> |r.value| == |pieces|
                                   && forall i | 0 <= i < |pieces| :: r.value[i] == GrantedAuthority(Trim(pieces[i])))
      ensures r.Success? ==> forall i | 0 <= i < |r.value| :: PlainName(r.value[i].authority) && HasText(r.value[i].authority)
    {
      match GetAllClaims(token, now)
      case Success(c) => Authorities(c.roles)
      case Failure(e) => Failure(e)
    }

    /** `validateToken`: never throws; false exactly when parsing or verification fails. */
    predicate ValidateToken(token: string, now: Long)
      reads this
      ensures ValidateToken(token, now) <==> GetAllClaims(token, now).Success?
      ensures !Ready() ==> !ValidateToken(token, now)
    {
      match GetAllClaims(token, now)
      case Success(_) => true
      case Failure(_) => false
    }

    /** `jwtExpirationMs / 1000`, truncated toward zero as Java's `long` division is. */
    function GetExpirationInSeconds(): (s: Long)
      ensures jwtExpirationMs >= 0 ==> s * 1000 <= jwtExpirationMs < s * 1000 + 1000
      ensures jwtExpirationMs < 0 ==> s * 1000 - 1000 < jwtExpirationMs <= s * 1000
    {
      DivThousand(jwtExpirationMs)
    }
  }

  /** A name without commas and without edge whitespace (so `trim` leaves it alone). */
  predicate PlainName(s: string)
  {
    ',' !in s && (s == [] || (!IsTrimmable(s[0]) && !IsTrimmable(s[|s| - 1])))
  }

  /** `StringUtils.hasText`: some character is not `Character.isWhitespace`. */
  predicate HasText(s: string)
    ensures HasText(s) ==> s != []
  {
    exists i | 0 <= i < |s| :: !IsJavaWhitespace(s[i])
  }

  /** `trim` cannot create text: a trimmed string with text comes from one with text. */
  lemma TrimmedTextIsText(s: string)
    ensures HasText(Trim(s)) ==> HasText(s)
  {
    TrimIsInfix(s);
    if HasText(Trim(s)) {
      var k := |s| - |TrimStart(s)|;
      var i :| 0 <= i < |Trim(s)| && !IsJavaWhitespace(Trim(s)[i]);
      assert s[k + i] == Trim(s)[i];
    }
  }

  /**
   * The converse fails: U+0001 is text for `hasText`, but `trim` removes it,
   * so a role of that character alone is refused.
   */
  lemma ControlCharRoleFails()
    ensures HasText([0x01 as char]) && !HasText(Trim([0x01 as char]))
    ensures Authorities([0x01 as char]) == Failure(IllegalArgument)
  {
    var s: string := [0x01 as char];
    assert !IsJavaWhitespace(s[0]);
    assert TrimStart(s) == TrimStart(s[1..]);
    assert s[1..] == [];
    assert Trim(s) == [];
    assert Split(s, ',') == [s];
  }

  /**
   * The authorities named by a `roles` claim value: split at commas, trim
   * each piece, then one authority per trimmed piece unless one of them has
   * no text.
   */
  function Authorities(roles: string): (r: Result<seq<GrantedAuthority>, JwtError>)
    ensures var pieces := Split(roles, ',');
            && (r.Success? <==> forall i | 0 <= i < |pieces| :: HasText(Trim(pieces[i])))
            && (r.Failure? ==> r.error == IllegalArgument)
            && (r.Success? ==> |r.value| == |pieces|
                               && forall i | 0 <= i < |pieces| :: r.value[i] == GrantedAuthority(Trim(pieces[i])))
    ensures r.Success? ==> forall i | 0 <= i < |r.value| :: PlainName(r.value[i].authority) && HasText(r.value[i].authority)
  {
    GrantAll(Trimmed(Split(roles, ',')))
  }

  /** `map(String::trim)` over comma-free pieces gives comma-free names without edge whitespace. */
  function Trimmed(pieces: seq<string>): (names: seq<string>)
    requires forall i | 0 <= i < |pieces| :: ',' !in pieces[i]
    ensures |names| == |pieces|
    ensures forall i | 0 <= i < |pieces| :: names[i] == Trim(pieces[i]) && PlainName(names[i])
  {
    if pieces == [] then []
    else
      TrimmedIsPlain(pieces[0]);
      [Trim(pieces[0])] + Trimmed(pieces[1..])
  }

  /**
   * `map(SimpleGrantedAuthority::new)`: one authority per name, in order,
   * unless some name has no text, which the constructor refuses.
   */
  function GrantAll(names: seq<string>): (r: Result<seq<GrantedAuthority>, JwtError>)
    ensures r.Success? <==> forall i | 0 <= i < |names| :: HasText(names[i])
    ensures r.Failure? ==> r.error == IllegalArgument
    ensures r.Success? ==> r.value == Named(names)
  {
    if names == [] then Success([])
    else if !HasText(names[0]) then Failure(IllegalArgument)
    else
      match GrantAll(names[1..])
      case Failure(e) => Failure(e)
      case Success(rest) => Success([GrantedAuthority(names[0])] + rest)
  }

  /** Trimming cannot add a comma and cannot leave edge whitespace. */
  lemma TrimmedIsPlain(piece: string)
    requires ',' !in piece
    ensures PlainName(Trim(piece))
  {
    var t := Trim(piece);
    assert t == TrimStart(piece)[..|t|];
  }

  /** One authority per name, in order. */
  function Named(names: seq<string>): (a: seq<GrantedAuthority>)
    ensures |a| == |names| && forall i | 0 <= i < |names| :: a[i] == GrantedAuthority(names[i])
  {
    if names == [] then [] else [GrantedAuthority(names[0])] + Named(names[1..])
  }

  // -----------------------------------------------------------------------
  // Properties of issued tokens

  /** The default secret is 55 ASCII characters, so `Init` accepts it. */
  lemma DefaultSecretIsLongEnough()
    ensures |Utf8Encode(DefaultSecret)| >= MinSecretBytes
  {
    AsciiUtf8Length(DefaultSecret);
  }

  /** With the default lifetime the registry ttl is 86400 seconds. */
  lemma DefaultLifetimeInSeconds(p: JwtTokenProvider)
    requires p.jwtExpirationMs == DefaultExpirationMs
    ensures p.GetExpirationInSeconds() == 86400
  {
  }

  /** A generated token validates exactly until its expiration. */
  lemma ValidateGeneratedToken(p: JwtTokenProvider, user: User, now: Long, at: Long)
    requires p.Ready() && Recovers(p.codec)
    ensures p.ValidateToken(p.GenerateToken(user, now), at) <==> at <= p.ExpiryFor(now)
  {
  }

  /**
   * `getUserIdFromToken` on a live generated token gives `String.valueOf` of
   * the user's id, which determines the id.
   */
  lemma UserIdRoundTrip(p: JwtTokenProvider, user: User, other: User, now: Long, at: Long)
    requires p.Ready() && Recovers(p.codec)
    requires at <= p.ExpiryFor(now)
    ensures p.GetUserIdFromToken(p.GenerateToken(user, now), at) == Success(LongToString(user.id))
    ensures p.GetUserIdFromToken(p.GenerateToken(user, now), at) == Success(LongToString(other.id))
            <==> user.id == other.id
  {
    LongToStringInjective(user.id, other.id);
  }

  /** Role names that survive the `roles` claim unchanged and that `SimpleGrantedAuthority` accepts. */
  predicate PlainRoleNames(names: seq<string>)
  {
    forall i | 0 <= i < |names| :: PlainName(names[i]) && HasText(names[i])
  }

  /** Names without commas or edge whitespace pass through trimming unchanged. */
  lemma {:induction false} TrimmedPlainNames(names: seq<string>)
    requires forall i | 0 <= i < |names| :: ',' !in names[i]
    requires forall i | 0 <= i < |names| :: PlainName(names[i])
    ensures Trimmed(names) == names
  {
    if names != [] {
      TrimmedPlainNames(names[1..]);
      TrimFixpoint(names[0]);
      assert Trimmed(names) == [Trim(names[0])] + Trimmed(names[1..]);
      assert names == [names[0]] + names[1..];
    }
  }

  /**
   * Decoding comma-joined names without commas or edge whitespace gives the
   * names back, in join order, if and only if every name has text.
   */
  lemma AuthoritiesOfJoin(names: seq<string>)
    requires |names| >= 1
    requires forall i | 0 <= i < |names| :: ',' !in names[i]
    requires forall i | 0 <= i < |names| :: PlainName(names[i])
    ensures Authorities(Join(names, ',')) == Success(Named(names))
            <==> forall i | 0 <= i < |names| :: HasText(names[i])
  {
    if |names| >= 2 && names[|names| - 1] == "" {
      DroppedRoleShortens(names);
      assert !HasText(names[|names| - 1]);
    } else {
      JoinedNamesSplitBack(names);
    }
  }

  /** Without a trailing empty name, the join splits back to the names themselves. */
  lemma JoinedNamesSplitBack(names: seq<string>)
    requires |names| == 1 || (|names| >= 2 && names[|names| - 1] != "")
    requires forall i | 0 <= i < |names| :: ',' !in names[i]
    requires forall i | 0 <= i < |names| :: PlainName(names[i])
    ensures Authorities(Join(names, ',')) == GrantAll(names)
  {
    SplitJoin(names, ',');
    TrimmedPlainNames(names);
  }

  /** With a trailing empty name, `split` returns fewer pieces than there were names. */
  lemma DroppedRoleShortens(names: seq<string>)
    requires |names| >= 2 && names[|names| - 1] == ""
    requires forall i | 0 <= i < |names| :: ',' !in names[i]
    ensures Authorities(Join(names, ',')) != Success(Named(names))
  {
    SplitJoinDropsTrailing(names, ',');
  }

  /**
   * `getAuthorities` on a live generated token yields the user's role names
   * in join order, for role names without commas or edge whitespace that all
   * have text.
   */
  lemma AuthoritiesRoundTrip(p: JwtTokenProvider, user: User, now: Long, at: Long)
    requires p.Ready() && Recovers(p.codec)
    requires at <= p.ExpiryFor(now)
    requires |user.roles| >= 1 && PlainRoleNames(RoleNames(user.roles))
    ensures p.GetAuthorities(p.GenerateToken(user, now), at) == Success(Named(RoleNames(user.roles)))
  {
    AuthoritiesOfJoin(RoleNames(user.roles));
  }

  /**
   * A user without roles gets a token whose `roles` claim is "", which splits
   * to [""]: `getAuthorities` on it throws `IllegalArgumentException`.
   */
  lemma NoRolesAuthoritiesFail(p: JwtTokenProvider, user: User, now: Long, at: Long)
    requires p.Ready() && Recovers(p.codec)
    requires at <= p.ExpiryFor(now)
    requires user.roles == []
    ensures p.GetAuthorities(p.GenerateToken(user, now), at) == Failure(IllegalArgument)
  {
    assert Join(RoleNames(user.roles), ',') == "";
    assert Split("", ',') == [""];
    assert Trim("") == "";
  }

  /**
   * A leading empty role name survives the split, and its authority is
   * refused. (With an empty second name, Java's `",".split(",")` is empty.)
   */
  lemma LeadingEmptyRoleFails(name: string)
    requires name != [] && ',' !in name
    ensures Authorities(Join(["", name], ',')) == Failure(IllegalArgument)
  {
    assert Join(["", name], ',') == [','] + name;
    SplitKeepsLeadingEmpty(name, ',');
    assert Trim("") == "";
  }

  /**
   * `trim` keeps U+2003 (EM SPACE), but `Character.isWhitespace` counts it,
   * so a role of only that character is refused.
   */
  lemma EmSpaceRoleFails()
    ensures Authorities([0x2003 as char]) == Failure(IllegalArgument)
  {
    var s: string := [0x2003 as char];
    assert Split(s, ',') == [s];
    TrimFixpoint(s);
    assert Trim(s) == s;
  }

  /**
   * A trailing empty role name is lost: Java's `split` drops trailing empty
   * strings, so `[name, ""]` decodes like `[name]` instead of being refused.
   */
  lemma TrailingEmptyRoleIsDropped(name: string)
    requires ',' !in name && PlainName(name) && HasText(name)
    ensures Authorities(Join([name, ""], ',')) == Success([GrantedAuthority(name)])
  {
    assert Join([name, ""], ',') == name + [','];
    SplitDropsTrailingSep(name, ',');
    TrimmedPlainNames([name]);
    assert Authorities(name + [',']) == GrantAll([name]);
    assert GrantAll([name]) == Success(Named([name]));
    assert Named([name]) == [GrantedAuthority(name)];
  }
}
