# Session tokens and the BM25 index, in Dafny

This project models two parts of the repository and proves properties of them.

**The session-token lifecycle of the Spring service (`com.auth.redis`).**
- `JwtTokenProvider` checks that the signing secret is at least 48 bytes long.
- It issues HS384-signed JSON Web Tokens: RFC 7519 tokens in the compact form of section 7.1 of RFC 7515, signed with HS384 from section 3.2 of RFC 7518.
  - The subject is the user id.
  - The token carries a `username` claim and a comma-joined `roles` claim.
  - It expires `jwtExpirationMs` after issue.
- The provider reads claims back, splits and trims the roles, and answers `validateToken` without throwing.
- The Redis registry of `UserToken` session records is a map from record id to record, behind the `TokenRepository` class.
- `TokenService` writes records, revokes them and checks them.
- `AuthServiceImpl` does three things:
  - it logs a user in, issuing a token and exactly one record;
  - it registers a user with the default role;
  - it logs a user out by deleting all of that user's records.

**The integer part of the Python search server.**
- `BM25Retriever.__init__` builds a term → (document → count) index in nested loops, plus document lengths and document frequencies.
- `get_top_k` takes the first `min(k, n)` ranked indices.
- `search` numbers its results 1, 2, 3, ….

The modules follow the source: `JavaLang` (the `long`, `String` and UTF-8 behaviour the provider relies on), `Model` (`User`, `Role`, the `UserToken` class), `Security`, `TokenStore`, `Sessions`, `Auth`, `Bm25` and `Search`. `Wrappers` holds `Option`, `Result` and `Outcome`.

**How the outside world enters the model.**
- **The signing library.** It is a `Codec` value holding two functions, `sign` and `parse`.
  - The lemmas about issued tokens take `Recovers(codec)` as a hypothesis: a token signed with a key parses back to its claims until it expires, and is reported expired after that.
- **The clock and fresh ids.** The current time, the random record ids and the id the user store generates are all parameters.
- **The password encoder.** It is a pair of functions.
- **Duplicate matches.** When several entries match, `findByUsername` and `findByToken` are modelled as returning any one of them. This over-approximates the repositories: Spring Data's single-result queries may instead throw `IncorrectResultSizeDataAccessException`. Properties that need a single match state that as a premise (`UniqueUsername`, `UniqueToken`).

**Blank role names.** `getAuthorities` builds one `SimpleGrantedAuthority` per trimmed piece of the `roles` claim. That constructor refuses, with `IllegalArgumentException`, a name that is empty or consists only of `Character.isWhitespace` characters (Spring's `StringUtils.hasText`). The model follows this:
- Java's `"".split(",")` is `[""]`, so `getAuthorities` fails on the token of a user without roles (`NoRolesAuthoritiesFail`).
- A leading or inner empty role name also fails (`LeadingEmptyRoleFails`).
- So does a name that `trim` keeps but that is all Unicode whitespace, such as U+2003 (`EmSpaceRoleFails`).
- The two notions of blank differ the other way too: `trim` removes every character up to U+0020, including control characters that `hasText` counts as text, so a role of U+0001 alone also fails (`ControlCharRoleFails`).
- Java's `split` drops trailing empty strings, so a trailing empty role name is silently lost instead (`TrailingEmptyRoleIsDropped`).
- For names without commas or edge whitespace, decoding the joined names gives them back exactly when every name has text (`AuthoritiesOfJoin`).

## Model

| member | source | states |
|---|---|---|
| JavaLang.WrapLong | src/main/java/com/auth/redis/security/JwtTokenProvider.java:44 | `long` addition wraps modulo 2^64 and is exact when the sum is in range |
| JavaLang.DivThousand | src/main/java/com/auth/redis/security/JwtTokenProvider.java:83 | `long` division by 1000 truncates toward zero, for either sign |
| JavaLang.LongToString | src/main/java/com/auth/redis/security/JwtTokenProvider.java:51 | `String.valueOf(long)` is never empty and starts with '-' exactly for a negative id |
| JavaLang.DecimalRoundTrip | src/main/java/com/auth/redis/security/JwtTokenProvider.java:51 | the decimal numeral `String.valueOf` writes reads back to the number |
| JavaLang.LongToStringInjective | src/main/java/com/auth/redis/security/JwtTokenProvider.java:51 | two ids give the same subject string if and only if they are equal |
| JavaLang.Split | src/main/java/com/auth/redis/security/JwtTokenProvider.java:67 | no piece contains the delimiter; a string without the delimiter splits to itself alone |
| JavaLang.SplitAll | src/main/java/com/auth/redis/security/JwtTokenProvider.java:67 | at least one piece, none containing the delimiter |
| JavaLang.DropTrailingEmpty | src/main/java/com/auth/redis/security/JwtTokenProvider.java:67 | the result is the longest prefix that does not end in an empty string; only empty strings are removed |
| JavaLang.SplitAllJoin | src/main/java/com/auth/redis/security/JwtTokenProvider.java:46-67 | splitting a join of delimiter-free parts at every delimiter gives the parts back |
| JavaLang.JoinSplitAll | src/main/java/com/auth/redis/security/JwtTokenProvider.java:46-67 | joining the pieces of any string puts the string back together |
| JavaLang.Join | src/main/java/com/auth/redis/security/JwtTokenProvider.java:48 | `Collectors.joining` puts one separator between neighbours: the length is the parts' total length plus one less than the number of parts |
| JavaLang.JoinEnds | src/main/java/com/auth/redis/security/JwtTokenProvider.java:48 | `joining(",")` of no parts is ""; otherwise the result starts with the first part, followed by the separator when there are two or more, and ends with the last part |
| JavaLang.JoinContainsSep | src/main/java/com/auth/redis/security/JwtTokenProvider.java:48 | a join of delimiter-free parts contains the delimiter if and only if there are at least two parts |
| JavaLang.SplitDropsTrailingSep | src/main/java/com/auth/redis/security/JwtTokenProvider.java:67 | a non-empty piece followed by one delimiter splits to that piece alone |
| JavaLang.SplitJoinDropsTrailing | src/main/java/com/auth/redis/security/JwtTokenProvider.java:46-67 | with a trailing empty part, the split of the join has fewer pieces than there were parts |
| JavaLang.SplitKeepsLeadingEmpty | src/main/java/com/auth/redis/security/JwtTokenProvider.java:67 | a leading delimiter before a non-empty piece gives an empty first piece and that piece |
| JavaLang.SplitJoin | src/main/java/com/auth/redis/security/JwtTokenProvider.java:46-67 | `split` undoes `joining` on delimiter-free parts if and only if there is one part or the last part is not empty |
| JavaLang.TrimStart | src/main/java/com/auth/redis/security/JwtTokenProvider.java:68 | removes exactly the leading characters up to U+0020, leaving a suffix |
| JavaLang.TrimEnd | src/main/java/com/auth/redis/security/JwtTokenProvider.java:68 | removes exactly the trailing characters up to U+0020, leaving a prefix |
| JavaLang.Trim | src/main/java/com/auth/redis/security/JwtTokenProvider.java:68 | the trimmed string has no character up to U+0020 at either edge |
| JavaLang.TrimIsInfix | src/main/java/com/auth/redis/security/JwtTokenProvider.java:68 | `trim` keeps an infix of the string and removes only characters up to U+0020 before and after it |
| JavaLang.TrimFixpoint | src/main/java/com/auth/redis/security/JwtTokenProvider.java:68 | `trim` leaves a string unchanged if and only if it has no edge character up to U+0020 |
| JavaLang.InfixOfSuffix | src/main/java/com/auth/redis/security/JwtTokenProvider.java:68 | a trimmable tail of a suffix is a trimmable tail of the whole string, at the shifted position |
| JavaLang.IsJavaWhitespace | src/main/java/com/auth/redis/security/JwtTokenProvider.java:69 | `Character.isWhitespace`: never one of the no-break spaces U+00A0, U+2007, U+202F, and every ASCII whitespace character is one `trim` removes |
| JavaLang.Utf8Char | src/main/java/com/auth/redis/security/JwtTokenProvider.java:35 | one to four bytes per character, one byte exactly for ASCII |
| JavaLang.Utf8Encode | src/main/java/com/auth/redis/security/JwtTokenProvider.java:35 | the UTF-8 length lies between the character count and four times it |
| JavaLang.AsciiUtf8Length | src/main/java/com/auth/redis/security/JwtTokenProvider.java:35 | the UTF-8 length equals the character count if and only if the string is ASCII |
| Model.RoleNames | src/main/java/com/auth/redis/security/JwtTokenProvider.java:46-47 | one name per role, in the roles' iteration order |
| Model.UserToken.Snapshot | src/main/java/com/auth/redis/model/UserToken.java:19-24 | the stored form holds exactly the fields `id`, `userId`, `token`, `ttl`, `revoked` |
| Model.UserToken.constructor | src/main/java/com/auth/redis/model/UserToken.java:14 | the no-argument constructor leaves every field at its default, with `revoked` false |
| Model.UserToken.Build | src/main/java/com/auth/redis/model/UserToken.java:13-24 | the builder sets `id`, `userId`, `token` and `ttl`, and `revoked` stays false |
| Model.UserToken.FromRecord | src/main/java/com/auth/redis/model/UserToken.java:15 | the all-arguments constructor reproduces a stored record |
| Model.UserToken.SetId | src/main/java/com/auth/redis/model/UserToken.java:12-20 | the generated setter changes `id` and no other field |
| Model.UserToken.SetUserId | src/main/java/com/auth/redis/model/UserToken.java:12-21 | the generated setter changes `userId` and no other field |
| Model.UserToken.SetToken | src/main/java/com/auth/redis/model/UserToken.java:26-28 | changes `token` and no other field |
| Model.UserToken.SetTtl | src/main/java/com/auth/redis/model/UserToken.java:30-32 | changes `ttl` and no other field |
| Model.UserToken.SetRevoked | src/main/java/com/auth/redis/model/UserToken.java:38-40 | sets `revoked` to the argument and changes no other field |
| Model.UserToken.IsRevoked | src/main/java/com/auth/redis/model/UserToken.java:34-36 | returns the current flag |
| Security.JwtTokenProvider.constructor | src/main/java/com/auth/redis/security/JwtTokenProvider.java:25-31 | the injected secret and lifetime are stored and no key is set yet |
| Security.JwtTokenProvider.Init | src/main/java/com/auth/redis/security/JwtTokenProvider.java:33-40 | fails with the weak-secret message, key untouched, if and only if the secret's UTF-8 encoding is shorter than 48 bytes; otherwise the key is those bytes |
| Security.JwtTokenProvider.ExpiryFor | src/main/java/com/auth/redis/security/JwtTokenProvider.java:43-44 | expiry is issue time plus `jwtExpirationMs`, exact without overflow and congruent modulo 2^64 always |
| Security.JwtTokenProvider.ClaimsFor | src/main/java/com/auth/redis/security/JwtTokenProvider.java:46-55 | subject is `String.valueOf(id)`, username is the user's, roles are the names joined by ",", `iat` is now, `exp` is the expiry |
| Security.JwtTokenProvider.GenerateToken | src/main/java/com/auth/redis/security/JwtTokenProvider.java:42-58 | with a library that recovers what it signs, the token parses back to the user's id as subject, the username, the joined role names, `iat` now and `exp` the expiry, up to the expiry, and as expired after it |
| Security.JwtTokenProvider.GetAllClaims | src/main/java/com/auth/redis/security/JwtTokenProvider.java:86-92 | without a key the library refuses with `IllegalArgumentException`; with one, the library's verdict on the token under that key |
| Security.JwtTokenProvider.GetUserIdFromToken | src/main/java/com/auth/redis/security/JwtTokenProvider.java:60-62 | the subject of the parsed claims, failing exactly as parsing fails |
| Security.JwtTokenProvider.GetAuthorities | src/main/java/com/auth/redis/security/JwtTokenProvider.java:64-71 | a parse failure is passed on; after a successful parse it succeeds exactly when every trimmed piece of the split `roles` claim has text, giving one authority per piece named by the trimmed piece, and fails with `IllegalArgumentException` otherwise |
| Security.JwtTokenProvider.ValidateToken | src/main/java/com/auth/redis/security/JwtTokenProvider.java:73-80 | true exactly when parsing and verification succeed, false on every library error, false without a key |
| Security.JwtTokenProvider.GetExpirationInSeconds | src/main/java/com/auth/redis/security/JwtTokenProvider.java:82-84 | `jwtExpirationMs / 1000` truncated toward zero |
| Security.Authorities | src/main/java/com/auth/redis/security/JwtTokenProvider.java:66-70 | succeeds exactly when every trimmed piece of the split roles string has text, with one authority per piece named by the trimmed piece, in order; fails with `IllegalArgumentException` otherwise |
| Security.Trimmed | src/main/java/com/auth/redis/security/JwtTokenProvider.java:68 | one trimmed name per piece, in order, each comma-free without edge whitespace |
| Security.HasText | src/main/java/com/auth/redis/security/JwtTokenProvider.java:69 | `StringUtils.hasText`, as `SimpleGrantedAuthority`'s constructor checks it: a string with text is not empty |
| Security.TrimmedTextIsText | src/main/java/com/auth/redis/security/JwtTokenProvider.java:68-69 | a trimmed piece has text only if the untrimmed piece has text |
| Security.ControlCharRoleFails | src/main/java/com/auth/redis/security/JwtTokenProvider.java:67-69 | the converse fails: a role of U+0001 has text but `trim` removes it, so decoding fails with `IllegalArgumentException` |
| Security.GrantAll | src/main/java/com/auth/redis/security/JwtTokenProvider.java:69 | one authority per name, in order, exactly when every name has text; `IllegalArgumentException` otherwise |
| Security.TrimmedIsPlain | src/main/java/com/auth/redis/security/JwtTokenProvider.java:68 | trimming a comma-free piece gives a comma-free name without edge whitespace |
| Security.DefaultSecretIsLongEnough | src/main/java/com/auth/redis/security/JwtTokenProvider.java:25-36 | the default secret passes the 48-byte check |
| Security.DefaultLifetimeInSeconds | src/main/java/com/auth/redis/security/JwtTokenProvider.java:28-29 | the default lifetime of 86400000 ms gives a ttl of 86400 s |
| Security.ValidateGeneratedToken | src/main/java/com/auth/redis/security/JwtTokenProvider.java:73-80 | a generated token validates if and only if the time has not passed its expiry |
| Security.UserIdRoundTrip | src/main/java/com/auth/redis/security/JwtTokenProvider.java:60-62 | `getUserIdFromToken` on a live generated token is the user's id as a string, and names no other id |
| Security.TrimmedPlainNames | src/main/java/com/auth/redis/security/JwtTokenProvider.java:68 | names without commas or edge whitespace pass through trimming unchanged |
| Security.AuthoritiesOfJoin | src/main/java/com/auth/redis/security/JwtTokenProvider.java:46-70 | decoding joined names without commas or edge whitespace gives the names back if and only if every name has text |
| Security.JoinedNamesSplitBack | src/main/java/com/auth/redis/security/JwtTokenProvider.java:46-70 | without a trailing empty name, the joined names decode as the names themselves |
| Security.DroppedRoleShortens | src/main/java/com/auth/redis/security/JwtTokenProvider.java:46-70 | with a trailing empty name, decoding cannot give the names back |
| Security.AuthoritiesRoundTrip | src/main/java/com/auth/redis/security/JwtTokenProvider.java:46-70 | on a live generated token, `getAuthorities` yields the user's role names in join order, given at least one role and names without commas or edge whitespace that all have text |
| Security.NoRolesAuthoritiesFail | src/main/java/com/auth/redis/security/JwtTokenProvider.java:46-70 | on a live generated token of a user without roles, `getAuthorities` fails with `IllegalArgumentException` |
| Security.LeadingEmptyRoleFails | src/main/java/com/auth/redis/security/JwtTokenProvider.java:46-70 | a leading empty role name before a non-empty one makes decoding fail with `IllegalArgumentException` |
| Security.EmSpaceRoleFails | src/main/java/com/auth/redis/security/JwtTokenProvider.java:67-69 | a role of U+2003 alone survives `trim` but has no text, so decoding fails |
| Security.TrailingEmptyRoleIsDropped | src/main/java/com/auth/redis/security/JwtTokenProvider.java:46-70 | a trailing empty role name is lost on decode and the other name is granted |
| TokenStore.MarkRevoked | src/main/java/com/auth/redis/service/TokenService.java:37-39 | flags the one record revoked; keys and all other records unchanged |
| TokenStore.WithoutUser | src/main/java/com/auth/redis/repository/redis/TokenRepository.java:13 | keeps exactly the records of other users, unchanged |
| TokenStore.MarkRevokedIdempotent | src/main/java/com/auth/redis/service/TokenService.java:35-40 | revoking a record twice is revoking it once |
| TokenStore.RevokedTokenIsInactive | src/main/java/com/auth/redis/service/TokenService.java:35-46 | after the only record of a token is revoked, the token is not active |
| TokenStore.WithoutUserIdempotent | src/main/java/com/auth/redis/repository/redis/TokenRepository.java:13 | a second delete for the same user changes nothing |
| TokenStore.WithoutUserCommutes | src/main/java/com/auth/redis/repository/redis/TokenRepository.java:13 | deletes for two users commute |
| TokenStore.WithoutUserDeactivates | src/main/java/com/auth/redis/repository/redis/TokenRepository.java:13 | after a user's records are deleted, no token held only by that user is tracked or active |
| TokenStore.TokenRepository.constructor | src/main/java/com/auth/redis/repository/redis/TokenRepository.java:11 | the registry starts empty |
| TokenStore.TokenRepository.Save | src/main/java/com/auth/redis/repository/redis/TokenRepository.java:11 | stores the entity's fields under its id, replacing a record with that id and otherwise adding one; returns the entity |
| TokenStore.TokenRepository.FindByToken | src/main/java/com/auth/redis/repository/redis/TokenRepository.java:12 | empty exactly when no record tracks the token; otherwise a fresh entity equal to a stored record with that token |
| TokenStore.TokenRepository.DeleteByUserId | src/main/java/com/auth/redis/repository/redis/TokenRepository.java:13 | removes every record of the user and leaves the others unchanged |
| Sessions.FreshRecord | src/main/java/com/auth/redis/service/TokenService.java:22-26 | the record holds the given id, user, token and ttl, and is not revoked |
| Sessions.TokenService.SaveToken | src/main/java/com/auth/redis/service/TokenService.java:21-29 | writes and returns a record under the fresh id with the user, the token, ttl equal to the lifetime in seconds and `revoked` false; with a fresh id the registry grows by one |
| Sessions.TokenService.FindByToken | src/main/java/com/auth/redis/service/TokenService.java:31-33 | the repository's answer, with the registry unchanged |
| Sessions.TokenService.RevokeToken | src/main/java/com/auth/redis/service/TokenService.java:35-41 | untracked token: registry unchanged; otherwise exactly one matching record flagged revoked; already revoked: unchanged; single record: token revoked everywhere |
| Sessions.TokenService.IsTokenValid | src/main/java/com/auth/redis/service/TokenService.java:43-46 | true only for an active token, false for an untracked or revoked one; exactly "active" when one record tracks the token |
| Auth.AuthServiceImpl.FindByUsername | src/main/java/com/auth/redis/service/AuthServiceImpl.java:30 | empty exactly when no account has the username; otherwise a stored account with it |
| Auth.AuthServiceImpl.Login | src/main/java/com/auth/redis/service/AuthServiceImpl.java:29-54 | unknown user and wrong password fail with the same message and write nothing; success means the credentials match; response token is the generated token; exactly one record is written, with the user's id, that token, the lifetime in seconds and `revoked` false |
| Auth.AuthServiceImpl.Register | src/main/java/com/auth/redis/service/AuthServiceImpl.java:57-70 | with ROLE_USER: an active account with the encoded password and exactly that role, saved under the generated id, so the store grows by one; without it: "Default role not found" and nothing saved |
| Auth.AuthServiceImpl.Logout | src/main/java/com/auth/redis/service/AuthServiceImpl.java:73-75 | every record of the user removed, every other record unchanged |
| Auth.TwoLoginsKeepBothSessions | src/main/java/com/auth/redis/service/AuthServiceImpl.java:39-46 | two logins of one user with distinct fresh session ids leave both session records with their tokens active, and every earlier record unchanged; the registry grows by two |
| Auth.LoginActivatesToken | src/main/java/com/auth/redis/service/AuthServiceImpl.java:39-46 | the record written at login makes its token active |
| Auth.SessionTtlWithinTokenLifetime | src/main/java/com/auth/redis/service/AuthServiceImpl.java:37-43 | against millisecond `exp` claims, the record ttl in seconds is at most the token's validity window, and short of it by under one second |
| Auth.WholeSecondTokenWindow | src/main/java/com/auth/redis/service/AuthServiceImpl.java:37-43 | with `exp` in whole seconds, the token's validity window and the record ttl differ by under one second either way; for a lifetime of whole seconds the ttl is at least the window, equal exactly when the login falls on a whole second |
| Bm25.DocLengths | python-server/server.py:40 | one length per document, equal to its token count |
| Bm25.DocFrequencies | python-server/server.py:54 | same terms as the index, each with the size of its postings |
| Bm25.Bump | python-server/server.py:47-51 | one more occurrence of the term in the document; every other entry unchanged |
| Bm25.CountingStepIsBump | python-server/server.py:47-51 | the loop body's three dictionary updates count one occurrence |
| Bm25.CountDocument | python-server/server.py:46-51 | the inner loop counts every token of the document, in order |
| Bm25.AppendToken | python-server/server.py:46-51 | one more token in the last document is one more counted occurrence of it there |
| Bm25.AppendDocument | python-server/server.py:45-51 | indexing one more document counts each of its tokens under its id |
| Bm25.EmptyDocumentAddsNothing | python-server/server.py:45-46 | an empty document adds nothing to the index |
| Bm25.CountTermFrequencies | python-server/server.py:44-51 | the nested loops build exactly the term-frequency index of the corpus |
| Bm25.FrequencyIsOccurrenceCount | python-server/server.py:44-51 | `term_frequencies[t][d]` is the number of occurrences of `t` in document `d`, present exactly when positive |
| Bm25.IndexTermsAreCorpusTerms | python-server/server.py:45-54 | the terms of the index and of the document frequencies are exactly the corpus's terms |
| Bm25.DocsContainingBound | python-server/server.py:54 | at most as many documents contain a term as there are documents |
| Bm25.DocFrequencyBounds | python-server/server.py:54 | `doc_frequencies[t]` is the number of distinct documents containing `t`, between 1 and the corpus size |
| Bm25.FrequenciesSumToLength | python-server/server.py:40-51 | the sum over all terms of `term_frequencies[t][d]` is the length of document `d` |
| Bm25.BM25Retriever.constructor | python-server/server.py:33-54 | `corpus_size` is the corpus length; lengths, term frequencies and document frequencies are the corpus's |
| Bm25.SliceTo | python-server/server.py:103 | Python's `[:stop]`, with a negative stop counting from the end |
| Bm25.BM25Retriever.GetTopK | python-server/server.py:99-106 | `min(k, corpus_size)` distinct in-range indices, the head of the ranking, each with its own score |
| Search.ZipLength | python-server/server.py:309 | `zip` yields as many pairs as the shorter input |
| Search.ListIndex | python-server/server.py:310 | Python list indexing: valid exactly for `-len <= idx < len`, negative indices from the end |
| Search.ResultFor | python-server/server.py:311-318 | rank `i + 1`, the passage's id, query id and text, the score, and `is_selected` as a boolean |
| Search.MSMarcoSearchEngine.Search | python-server/server.py:308-320 | one result per pair of `zip`, in order, ranked 1, 2, 3, …, with its passage's metadata; the first index outside the metadata raises `IndexError`, and the model records that index in the error value; this happens exactly when some looked-up index is out of range |

## Left out

- HMAC-SHA384 signing, JWS parsing and base64url encoding are left out because the jjwt library does them. They are the two functions of a `Codec`; what the provider needs from the library is the `Recovers` hypothesis, not a proof.
- Token times are milliseconds in the model. The JWT `iat` and `exp` claims hold whole seconds, so a real expiry check is up to one second coarser.
- `new Date()`, `UUID.randomUUID()` and the database-generated user id are parameters (`now`, `sessionId`/`newId`).
- Redis persistence, network failures, timeouts and concurrent access are left out. The registry is a sequential in-memory map, and nothing evicts records, which matches the code: `ttl` carries no time-to-live annotation.
- The password encoder is abstract: any pair of `matches` and `encode` functions.
- `User.java`, `Role.java`, `UserRepository` and `RoleRepository` are not part of this model. Accounts are a map from id to `User` and roles a map from name to `Role`, with only the fields the core reads. A user's role set is a sequence in its iteration order.
- Security.JwtTokenProvider.GenerateToken: requires `Init` to have run. In the service, Spring calls `init` before any bean can be used; an unset key is not modelled on this path.
- Auth.AuthServiceImpl.FindByUsername: with several matching accounts it returns any of them. Spring Data JPA's single-result query would throw `IncorrectResultSizeDataAccessException` instead, so the model over-approximates; `Login`'s if-and-only-if results hold under `UniqueUsername`.
- TokenStore.TokenRepository.FindByToken: with several matching records it returns any of them, and `RevokeToken` then revokes only that one. How Spring Data Redis resolves a duplicate is not modelled; the if-and-only-if results hold under `UniqueToken`.
- Duplicate tokens are reachable: two logins by one user within the same `iat`/`exp` second sign identical claims, so they produce identical JWTs and `UniqueToken` fails for that token.
- Model.User: `User.java` is not part of this model. `setPassword` (AuthServiceImpl.java:61) and `getPasswordHash` (AuthServiceImpl.java:32) are taken to write and read the same field, `passwordHash`.
- Auth.SessionTtlWithinTokenLifetime: holds for the millisecond `exp` of this model. jjwt stores `exp` in whole seconds, so a record's ttl can exceed the token's real validity by up to 999 ms; `WholeSecondTokenWindow` states the real relation.
- TokenStore.TokenRepository.FindByToken and TokenStore.TokenRepository.DeleteByUserId: modelled by their method names as a query on `token` and on `userId`. Whether Spring Data Redis can answer these queries without `@Indexed` on those fields (UserToken.java:21-22) is not modelled.
- Model.UserToken.constructor: Java's `null` string fields are modelled as "", so a null and an empty string cannot be told apart. No modelled path saves a record with one of them unset.
- Security.HasText: `Character.isWhitespace` is written out for the JDK's current Unicode tables; `StringUtils.hasText` checks UTF-16 units, and no supplementary character is whitespace, so the scalar-value model agrees.
- JavaLang.Utf8Encode: Dafny characters are Unicode scalar values, so Java's encoding of unpaired surrogates as `?` is not modelled.
- JavaLang.Split: only the single-character, non-metacharacter delimiter used here (",") is modelled, not regular expressions.
- The HTTP controllers, `ExternalApiService`, the bootstrap and the role seeder are left out: they are framework glue. `Token.java` is left out because no code in the core uses it.
- No file joins the signature check with the registry check, so the model keeps `ValidateToken` and `IsTokenValid` separate.
- Bm25.CountDocument: the inner loop of `__init__` is a method of its own, called once per document by the outer loop, rather than nested inline in one method body.
- BM25 scoring is left out because it is floating point. This covers IDF, the average document length, `get_scores`, TF-IDF/cosine similarity, score normalisation and blending.
- Bm25.BM25Retriever.GetTopK: `np.argsort(scores)[::-1]` is an input `ranking`, a permutation of the document indices; that it orders by score is not stated, since scores are floats.
- Search.MSMarcoSearchEngine.Search: the score is an abstract type; `float(score)` is the identity on it. Query tokenisation (`lower().split()`) and the reranker are left out.
- Dataset loading, the Flask endpoints and `main` are left out because they are I/O.
