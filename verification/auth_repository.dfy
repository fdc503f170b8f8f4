/** The repository's token operations: login, refresh (rotation) and revoke,
    as transitions over the refresh-token table. The clock, the GUID source,
    the identity provider's user and role lookups and its password check are
    parameters. */
module AuthRepository {
  import opened Wrappers
  import opened Sequences
  import opened Models
  import opened Jwt
  import opened TokenStore

  /** The access/refresh pair exchanged with the client. */
  datatype TokenDto = TokenDto(accessToken: AccessToken, refreshToken: string)

  /** The empty pair every failure returns. */
  const EmptyTokenDto := TokenDto(Blank, "")

  /** What the identity provider answers: its users in table order and the
      roles of each user id. */
  datatype Directory = Directory(users: seq<User>, roles: map<string, seq<string>>)

  /** The store after a call together with the pair it returns. */
  datatype Step = Step(store: Store, dto: TokenDto)

  /** The first user with the given id, or `None`. */
  function FindUser(d: Directory, userId: string): (r: Option<User>)
    ensures r.None? <==> forall k :: 0 <= k < |d.users| ==> d.users[k].id != userId
    ensures r.Some? ==> r.value.id == userId && r.value in d.users
  {
    match FirstIndex(d.users, (u: User) => u.id == userId)
    case None => None
    case Some(k) => Some(d.users[k])
  }

  /** The roles the directory records for a user; none when it has no entry. */
  function RolesOf(d: Directory, userId: string): seq<string>
  {
    if userId in d.roles then d.roles[userId] else []
  }

  /** Login. `found` is the user the name lookup returned and `passwordOk`
      the password check's verdict. On success a new family `JTI<guid>` is
      started with one valid row, and the access token carries that family
      id as its `jti`. */
  function Login(s: Store, d: Directory, found: Option<User>, passwordOk: bool,
                 familyGuid: string, guid1: string, guid2: string, now: int, lifetime: int): (r: Step)
    ensures found.None? || !passwordOk ==> r.store == s && r.dto.accessToken == Blank
    ensures found.Some? && passwordOk ==>
              && r.dto.accessToken != Blank
              && |r.store.records| == |s.records| + 1 && r.store.nextId == s.nextId + 1
              && (forall k :: 0 <= k < |s.records| ==> r.store.records[k] == s.records[k])
              && var t := r.store.records[|s.records|];
                 && t.id == s.nextId && t.isValid && t.userId == found.value.id && t.jwtTokenId == FamilyId(familyGuid)
                 && t.expireAt == now + lifetime
                 && t.refreshJwtToken == r.dto.refreshToken == RefreshValue(guid1, guid2)
                 && GetAccessTokenData(r.dto.accessToken, found.value.id, FamilyId(familyGuid))
  {
    if found.None? || !passwordOk then
      Step(s, EmptyTokenDto)
    else
      var user := found.value;
      var jti := FamilyId(familyGuid);
      var accessToken := GenerateAccessToken(user, RolesOf(d, user.id), jti);
      IssuedTokenBindsToIssuer(user, RolesOf(d, user.id), jti, user.id, jti);
      var created := CreateNewRefreshToken(s, user.id, jti, guid1, guid2, now, lifetime);
      Step(created.store, TokenDto(accessToken, created.value))
  }

  /** Refresh. The checks run in a fixed order: lookup, binding, reuse,
      expiry; the first that fails decides the side effect and the result is
      empty. Past all four, a new row is inserted in the same family, the
      presented row is retired, and a new access token is issued if the user
      still exists. */
  function Refresh(s: Store, d: Directory, presented: TokenDto,
                   guid1: string, guid2: string, now: int, lifetime: int): (r: Step)
    ensures Evolves(s.records, r.store.records) && |r.store.records| <= |s.records| + 1
    ensures |r.store.records| == |s.records| + 1 ==>
              r.store.records[|s.records|].refreshJwtToken == RefreshValue(guid1, guid2)
    ensures r.dto == EmptyTokenDto
            || (&& |r.store.records| == |s.records| + 1
                && var t := r.store.records[|s.records|];
                   && t.isValid && t.refreshJwtToken == r.dto.refreshToken
                   && GetAccessTokenData(r.dto.accessToken, t.userId, t.jwtTokenId))
  {
    match ReturnExistingRefreshToken(s, presented.refreshToken)
    case None => Step(s, EmptyTokenDto)
    case Some(i) =>
      var existing := s.records[i];
      if !GetAccessTokenData(presented.accessToken, existing.userId, existing.jwtTokenId) then
        Step(MarkTokenAsInvalid(s, i), EmptyTokenDto)
      else if !existing.isValid then
        Step(MarkAllTokenInChainAsInvalid(s, existing.userId, existing.jwtTokenId), EmptyTokenDto)
      else if existing.expireAt < now then
        Step(MarkTokenAsInvalid(s, i), EmptyTokenDto)
      else
        Rotate(s, d, i, guid1, guid2, now, lifetime)
  }

  /** The rotation, once every check has passed: a new row is inserted in
      the presented row's family, then the presented row is retired, then
      the user is looked up and the new pair issued. A missing user gives
      the empty pair after the table has already changed. */
  function Rotate(s: Store, d: Directory, i: nat,
                  guid1: string, guid2: string, now: int, lifetime: int): (r: Step)
    requires i < |s.records|
    ensures |r.store.records| == |s.records| + 1 && r.store.nextId == s.nextId + 1
    ensures r.store.records[i] == s.records[i].(isValid := false)
    ensures forall k :: 0 <= k < |s.records| && k != i ==> r.store.records[k] == s.records[k]
    ensures var t := r.store.records[|s.records|];
            && t.id == s.nextId && t.isValid && InChain(t, s.records[i].userId, s.records[i].jwtTokenId)
            && t.refreshJwtToken == RefreshValue(guid1, guid2) && t.expireAt == now + lifetime
    ensures FindUser(d, s.records[i].userId).None? ==> r.dto == EmptyTokenDto
    ensures FindUser(d, s.records[i].userId).Some? ==>
              && r.dto.refreshToken == RefreshValue(guid1, guid2)
              && GetAccessTokenData(r.dto.accessToken, s.records[i].userId, s.records[i].jwtTokenId)
  {
    var existing := s.records[i];
    var created := CreateNewRefreshToken(s, existing.userId, existing.jwtTokenId, guid1, guid2, now, lifetime);
    var rotated := MarkTokenAsInvalid(created.store, i);
    match FindUser(d, existing.userId)
    case None => Step(rotated, EmptyTokenDto)
    case Some(user) =>
      var roles := RolesOf(d, user.id);
      IssuedTokenBindsToIssuer(user, roles, existing.jwtTokenId, existing.userId, existing.jwtTokenId);
      Step(rotated, TokenDto(GenerateAccessToken(user, roles, existing.jwtTokenId), created.value))
  }

  /** Revoke. Lookup and binding as in `Refresh`, but a failure of either
      changes nothing; past them, the whole chain of the presented row is
      invalidated whatever that row's validity or expiry. */
  function Revoke(s: Store, presented: TokenDto): (r: Store)
    ensures |r.records| == |s.records| && r.nextId == s.nextId
    ensures forall k :: 0 <= k < |s.records| ==> Retires(s.records[k], r.records[k])
  {
    match ReturnExistingRefreshToken(s, presented.refreshToken)
    case None => s
    case Some(i) =>
      var existing := s.records[i];
      if !GetAccessTokenData(presented.accessToken, existing.userId, existing.jwtTokenId) then s
      else MarkAllTokenInChainAsInvalid(s, existing.userId, existing.jwtTokenId)
  }
}
