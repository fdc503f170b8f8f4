# Refresh-token rotation in MinimalAPIDemo, modelled in Dafny

This project models the token half of `AuthRepository` in MinimalAPIDemo.
The state is the refresh-token table: rows of `RefreshToken` with an id,
owning user id, family id (`JwtTokenId`), opaque value (`RefreshJwtToken`),
validity flag and expiry. Three calls act on it:

- **Login** starts a new family `JTI<guid>` with one valid row. It returns an
  access token whose `jti` claim is that family id, together with the row's value.
- **Refresh** runs its checks in a fixed order: lookup by value, then
  access/refresh binding, then reuse, then expiry. The first failing check
  decides the side effect:
  - nothing changes;
  - the presented row is retired;
  - the presented row's whole family is retired.

  If every check passes, a new valid row is inserted into the same family,
  the presented row is retired, and a new pair is returned.
- **Revoke** runs the same lookup and binding check, then retires every row
  of the family.

Everything is a pure transition function over an immutable sequence of rows:

| file | module | contents |
|---|---|---|
| `wrappers.dfy` | `Wrappers` | `Option` |
| `sequences.dfy` | `Sequences` | `FirstIndex`, the `FirstOrDefault` shape |
| `models.dfy` | `Models` | `User`, `RefreshToken` |
| `jwt.dfy` | `Jwt` | access tokens as claim lists; issuing, and the binding check |
| `token_store.dfy` | `TokenStore` | the table; lookup, insert, retire one row, retire a family; the invariants |
| `auth_repository.dfy` | `AuthRepository` | `Login`, `Refresh` and its rotation step `Rotate`, `Revoke` |
| `rotation.dfy` | `Rotation` | the effect of each branch of refresh and revoke |
| `invariants.dfy` | `Invariants` | invariant preservation and multi-call properties |

The table invariant `Consistent` combines four properties:
- at most one valid row per (user id, family id);
- refresh values are unique;
- a family id belongs to one user;
- identity values are distinct.

Every call preserves it when measured at call boundaries. Inside a rotation
the new row is written before the old one is retired, so between those two
writes the family has two valid rows (`RotationMidpointHasTwoValid`).

Points where the code's behaviour is weaker than a rotation protocol
usually promises. The model follows the code:
- The binding check reads claims with `ReadJwtToken` and verifies neither
  signature nor expiry, so an unsigned token with the right `sub` and `jti`
  passes.
- Family sweeps select rows by (user id, family id), not by family id alone.
  `SweepRetiresWholeFamilyId` shows that in a consistent table such a sweep
  still retires every row sharing the family id.
- Rotation is not atomic:
  - the new row is inserted before the old one is retired;
  - the user is looked up only afterwards;
  - if the user is missing, the caller gets the empty pair, but the
    rotation has already happened.
- Inserting a row has no conflict check on the value. The model instead
  assumes fresh GUIDs.
- Revoke returns nothing, so a rejected revoke looks the same as a
  successful one.

Abstractions:
- The clock is an integer `now`. A row is expired when `ExpireAt < now`,
  strictly. A new row's expiry is `now + lifetime`.
- GUIDs are string parameters, and the transition functions accept any of
  them. The lemmas that need it require the resulting refresh value, and
  for login the family id, to be absent from the table.
- Login's user-by-name lookup and the password check are oracle
  parameters: `found` and `passwordOk`.
- Refresh's user-by-id lookup is `FirstOrDefault` over a `Directory` of
  users. Roles come from the same directory.

## Model

| member | source | states |
|---|---|---|
| Sequences.FirstIndex | MinimalAPIDemo/Repository/AuthRepository.cs:238-239 | the `FirstOrDefault` shape: nothing exactly when no element matches, otherwise a matching position with no match before it |
| TokenStore.RefreshValue | MinimalAPIDemo/Repository/AuthRepository.cs:221 | the first GUID, a hyphen, then the second GUID |
| TokenStore.RefreshValueDeterminesGuids | MinimalAPIDemo/Repository/AuthRepository.cs:221 | with GUIDs of equal width, two refresh values are equal exactly when both GUID pairs are |
| TokenStore.FamilyId | MinimalAPIDemo/Repository/AuthRepository.cs:51 | `JTI` followed by the GUID |
| TokenStore.FamilyIdDeterminesGuid | MinimalAPIDemo/Repository/AuthRepository.cs:51 | two family ids are equal exactly when their GUIDs are |
| TokenStore.ReturnExistingRefreshToken | MinimalAPIDemo/Repository/AuthRepository.cs:275-280 | finds nothing exactly when no row has the value; otherwise returns the first row carrying it |
| TokenStore.IndexOfValue | MinimalAPIDemo/Repository/AuthRepository.cs:277-278 | the first position whose row carries the value, or nothing exactly when no row carries it |
| TokenStore.LookupFindsTheRow | MinimalAPIDemo/Repository/AuthRepository.cs:277-278 | with unique values, looking up a row's value returns that row |
| TokenStore.CreateNewRefreshToken | MinimalAPIDemo/Repository/AuthRepository.cs:213-226 | appends one row and keeps every earlier row. The new row is valid, in the given user's family, expires `lifetime` after `now`, and has value guid-guid. When that value was fresh, a lookup of it finds the new row |
| TokenStore.MarkTokenAsInvalid | MinimalAPIDemo/Repository/AuthRepository.cs:265-269 | the row becomes invalid with its other fields kept; every other row is unchanged |
| TokenStore.SweepChain | MinimalAPIDemo/Repository/AuthRepository.cs:254-258 | rows keep all fields but validity. A row is valid afterwards exactly when it was valid before and is outside the chain |
| TokenStore.MarkAllTokenInChainAsInvalid | MinimalAPIDemo/Repository/AuthRepository.cs:252-259 | no row of the (user, family) chain stays valid; rows outside the chain are unchanged; no row is added |
| TokenStore.SweepDeadChainIsIdentity | MinimalAPIDemo/Repository/AuthRepository.cs:252-259 | sweeping a family that has no valid row leaves the table as it was |
| TokenStore.SweepIdempotent | MinimalAPIDemo/Repository/AuthRepository.cs:252-259 | sweeping a chain twice equals sweeping it once |
| TokenStore.RetiringPreservesConsistency | MinimalAPIDemo/Repository/AuthRepository.cs:265-269 | only clearing validity flags keeps all four table invariants |
| TokenStore.AppendPreservesConsistency | MinimalAPIDemo/Repository/AuthRepository.cs:213-226 | appending a row keeps the table consistent when its id is the next identity, its value is fresh, its family belongs to its user, and, if it is valid, no other row of its family is valid |
| TokenStore.FreshValueCarriesOver | MinimalAPIDemo/Repository/AuthRepository.cs:213-226 | a value absent from the table stays absent after rows are retired and rows with other values are appended |
| TokenStore.PresentedCarriesOver | MinimalAPIDemo/Repository/AuthRepository.cs:275-280 | retiring rows and appending rows behind keeps the first row a lookup finds for a value |
| Jwt.FindClaim | MinimalAPIDemo/Repository/AuthRepository.cs:238-239 | returns nothing exactly when no claim has the type; otherwise the value of the first claim of that type |
| Jwt.GetAccessTokenData | MinimalAPIDemo/Repository/AuthRepository.cs:232-246 | the check passes exactly when the token is readable, its first `sub` claim is the user id and its first `jti` claim is the family id |
| Jwt.RoleClaims | MinimalAPIDemo/Repository/AuthRepository.cs:195 | one role claim per role, in order |
| Jwt.GenerateAccessToken | MinimalAPIDemo/Repository/AuthRepository.cs:188-195 | a readable token whose claims are e-mail, `sub` (user id), name and `jti` (family id), in that order, followed by one role claim per role |
| Jwt.IssuedTokenBindsToIssuer | MinimalAPIDemo/Repository/AuthRepository.cs:188-194 | an issued token passes the binding check for (user id, family id) exactly when they are the user and family it was issued for |
| Jwt.BindingIsFunctional | MinimalAPIDemo/Repository/AuthRepository.cs:240 | a token binds to at most one (user, family) pair |
| Jwt.MissingClaimNeverBinds | MinimalAPIDemo/Repository/AuthRepository.cs:238-245 | a token lacking `sub` or `jti` never binds |
| AuthRepository.FindUser | MinimalAPIDemo/Repository/AuthRepository.cs:146-148 | finds nothing exactly when no user has the id; a found user has that id and is in the directory |
| AuthRepository.Login | MinimalAPIDemo/Repository/AuthRepository.cs:42-60 | on failure: table unchanged and access token "". On success: earlier rows kept, one valid row added in the user's fresh `JTI` family, the returned value names it, and the access token binds to the user and that family id |
| AuthRepository.Refresh | MinimalAPIDemo/Repository/AuthRepository.cs:109-159 | rows are only ever retired, never altered otherwise; at most one row is added. The result is either empty, or a new valid row's value paired with an access token bound to that row's user and family |
| AuthRepository.Rotate | MinimalAPIDemo/Repository/AuthRepository.cs:139-158 | one row is added and the presented row is retired; no other row changes. The new row gets the next id, is valid, is in the presented row's family, carries guid-guid and expires at `now + lifetime`. With no user the result is empty; otherwise it holds the new value and an access token bound to the family |
| AuthRepository.Revoke | MinimalAPIDemo/Repository/AuthRepository.cs:163-174 | never adds a row, never changes anything but validity, and never makes a row valid |
| Rotation.RefreshUnknownValue | MinimalAPIDemo/Repository/AuthRepository.cs:112-116 | an unknown value gives the empty pair and an unchanged table |
| Rotation.RefreshMismatchRetiresPresentedOnly | MinimalAPIDemo/Repository/AuthRepository.cs:118-123 | a binding mismatch, including an unreadable token, retires only the presented row, adds nothing, returns empty |
| Rotation.RefreshReplaySweepsChain | MinimalAPIDemo/Repository/AuthRepository.cs:125-129 | replaying a retired row with a matching token kills its whole family, leaves other rows alone, returns empty, and does so even when the row has expired |
| Rotation.RefreshExpiredRetiresPresentedOnly | MinimalAPIDemo/Repository/AuthRepository.cs:132-136 | a valid row with `ExpireAt < now` is retired alone, nothing is added, the result is empty |
| Rotation.RefreshRotates | MinimalAPIDemo/Repository/AuthRepository.cs:139-158 | the old row is retired and no other earlier row changes. Exactly one valid row is added in the same family, with value guid-guid and expiry `now + lifetime`. The new value and a bound access token are returned when the user exists; otherwise the result is empty but the rotation stands |
| Rotation.RevokeRejectedChangesNothing | MinimalAPIDemo/Repository/AuthRepository.cs:165-172 | revoke with an unknown value or a binding mismatch leaves the table unchanged |
| Rotation.RevokeSweepsChain | MinimalAPIDemo/Repository/AuthRepository.cs:173 | a matching revoke kills the family whatever the row's validity or expiry, and leaves other rows alone |
| Rotation.RevokeIdempotent | MinimalAPIDemo/Repository/AuthRepository.cs:163-174 | revoking the same pair twice equals revoking it once |
| Invariants.SingleActivePerFamilyId | MinimalAPIDemo/Repository/AuthRepository.cs:51 | in a consistent table two valid rows with the same family id are the same row |
| Invariants.SweepRetiresWholeFamilyId | MinimalAPIDemo/Repository/AuthRepository.cs:252-259 | in a consistent table, sweeping a row's (user, family) chain leaves no valid row with that family id |
| Invariants.RotationMidpointHasTwoValid | MinimalAPIDemo/Repository/AuthRepository.cs:139-143 | between inserting the new row and retiring the old one, the family has two valid rows |
| Invariants.RotatePreservesConsistency | MinimalAPIDemo/Repository/AuthRepository.cs:139-158 | inserting a row with a fresh value and then retiring the valid presented row keeps the table consistent, whether or not the user is found |
| Invariants.RefreshPreservesConsistency | MinimalAPIDemo/Repository/AuthRepository.cs:109-159 | refresh keeps the table consistent on every branch |
| Invariants.RevokePreservesConsistency | MinimalAPIDemo/Repository/AuthRepository.cs:163-174 | revoke keeps the table consistent |
| Invariants.LoginPreservesConsistency | MinimalAPIDemo/Repository/AuthRepository.cs:42-60 | login with a fresh family id and value keeps the table consistent |
| Invariants.ReplayAfterRotationKillsFamily | MinimalAPIDemo/Repository/AuthRepository.cs:125-143 | after a rotation, replaying the consumed pair returns empty, adds nothing, and leaves no valid row in the family, including the one just issued |
| Invariants.RefreshAfterRevokeIsReplay | MinimalAPIDemo/Repository/AuthRepository.cs:125-129 | after a matching revoke the family is dead, and refreshing with the same pair returns empty and changes nothing |
| Invariants.DeadChainStaysDeadOnRefresh | MinimalAPIDemo/Repository/AuthRepository.cs:125-143 | refresh never makes a row of a dead family valid, and refreshing with one of its rows returns empty |
| Invariants.DeadChainStaysDeadOnRevoke | MinimalAPIDemo/Repository/AuthRepository.cs:252-259 | revoke never makes a row of a dead family valid |
| Invariants.RotateReplayLate | MinimalAPIDemo/Repository/AuthRepository.cs:125-158 | from a valid, unexpired, bound row: the rotation returns a new value in the same family; replaying the old pair and then using the new pair both return empty, and the family ends with no valid row |
| Invariants.LoginRotateReplayTrace | MinimalAPIDemo/Repository/AuthRepository.cs:42-159 | login, then rotate, then replay the first pair, then use the second pair. The rotation returns a new value in the same family; the replay and the late use both return empty; the family ends with no valid row |

## Left out

- Jwt.GenerateAccessToken: models only the claim list (e-mail, sub, name, jti, roles). HMAC-SHA256 signing, issuer, audience and the one-minute access-token expiry belong to a foreign JWT library. Its contract states the claims in order; what the binding check makes of them is stated by `IssuedTokenBindsToIssuer`.
- TokenStore.ReturnExistingRefreshToken: value comparisons, here and in the family sweep, are exact and ordinal, and among duplicate values the earliest row is found. The code's queries run on SQL Server, whose usual collation compares case-insensitively, and `FirstOrDefaultAsync` without an ordering may return any of several matching rows.
- A user without an e-mail address: `user.Email!` makes access-token issuing throw. In Login that happens before the row is written, so the call fails with no row; in Refresh it happens after the rotation is saved, so the rotation stands and the call fails instead of returning a pair. `User.email` is a plain string here, so this exception path is not modelled.
- Signature verification of presented tokens: the code reads claims with `ReadJwtToken` and checks nothing else, so the model does not check anything else either.
- Login's case-insensitive user-name query and `CheckPasswordAsync`: identity-provider calls. They are the oracle parameters `found` and `passwordOk`.
- AuthRepository.RolesOf: stands in for role lookup (`GetRolesAsync`), an identity-provider call. It reads a map in `Directory`, with no roles for a user the map does not list.
- `RegisterAsync` and `IsUniqueUser`: identity-provider calls with no refresh-token state.
- GUID generation: the GUIDs are parameters. The consistency and trace lemmas require the resulting value, and for login the family id, to be absent from the table; the code relies on the GUIDs being unique.
- The clock: one `now` per call. The code reads the clock separately for the expiry check and for the new row's expiry; these readings are taken to be equal.
- The refresh lifetime (two minutes in the code) is the parameter `lifetime`.
- The default field values of an empty `TokenDto`: the source of the C# `TokenDto` class is not part of this model, so its defaults are unknown. The empty pair is modelled as a blank access token and an empty refresh value.
- Entity Framework mechanics: change tracking, `SaveChangesAsync`, `ExecuteUpdateAsync`, database failures. The table is an in-memory sequence, and a retired row is addressed by its position.
- Concurrent refreshes: the code has no transaction or lock, so only sequential calls are modelled.
- HTTP endpoints, response envelopes, request validators, coupon storage and configuration: routing and plumbing with no token state.
