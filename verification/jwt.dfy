/** Access tokens as the refresh protocol sees them: a list of claims.
    Signing and the token's own expiry are not modelled; the binding check
    reads claims only and checks neither. */
module Jwt {
  import opened Wrappers
  import opened Sequences
  import opened Models

  /** The registered claim names the code writes (`email`, `sub`, `name`,
      `jti`) and the role claim type. */
  datatype ClaimType = Email | Sub | Name | Jti | Role

  datatype Claim = Claim(kind: ClaimType, value: string)

  /** A presented access-token string. `Blank` is the empty string,
      `Unreadable` any other text the token reader rejects, `Jwt` a readable
      token with its claims in order. */
  datatype AccessToken = Blank | Unreadable | Jwt(claims: seq<Claim>)

  /** Value of the first claim of the given type, `None` when there is none
      (where the code's `FirstOrDefault(...)!.Value` throws). */
  function FindClaim(claims: seq<Claim>, kind: ClaimType): (r: Option<string>)
    ensures r.None? <==> forall k :: 0 <= k < |claims| ==> claims[k].kind != kind
    ensures r.Some? ==> exists k :: 0 <= k < |claims| && claims[k] == Claim(kind, r.value)
                                    && forall m :: 0 <= m < k ==> claims[m].kind != kind
  {
    match FirstIndex(claims, (c: Claim) => c.kind == kind)
    case None => None
    case Some(k) => Some(claims[k].value)
  }

  /** The binding check: the presented token is readable, carries both a
      `jti` and a `sub` claim, and the first of each equals the record's
      family id and user id. Any failure to read counts as a mismatch. */
  function GetAccessTokenData(token: AccessToken, expectedUserId: string, expectedTokenId: string): (ok: bool)
    ensures ok <==> && token.Jwt?
                    && FindClaim(token.claims, Sub) == Some(expectedUserId)
                    && FindClaim(token.claims, Jti) == Some(expectedTokenId)
  {
    match token
    case Blank => false
    case Unreadable => false
    case Jwt(claims) =>
      match (FindClaim(claims, Jti), FindClaim(claims, Sub))
      case (Some(jti), Some(sub)) => sub == expectedUserId && jti == expectedTokenId
      case _ => false
  }

  /** One role claim per role, in the order the identity provider lists them. */
  function RoleClaims(roles: seq<string>): (cs: seq<Claim>)
    ensures |cs| == |roles|
    ensures forall k :: 0 <= k < |cs| ==> cs[k] == Claim(Role, roles[k])
  {
    seq(|roles|, k requires 0 <= k < |roles| => Claim(Role, roles[k]))
  }

  /** The claim set of a freshly issued access token for `user` in the family
      `tokenId`. Signing, issuer, audience and expiry are not modelled. */
  function GenerateAccessToken(user: User, roles: seq<string>, tokenId: string): (t: AccessToken)
    ensures t.Jwt? && |t.claims| == 4 + |roles|
    ensures t.claims[0] == Claim(Email, user.email) && t.claims[1] == Claim(Sub, user.id)
    ensures t.claims[2] == Claim(Name, user.name) && t.claims[3] == Claim(Jti, tokenId)
    ensures forall k :: 0 <= k < |roles| ==> t.claims[4 + k] == Claim(Role, roles[k])
  {
    Jwt([Claim(Email, user.email), Claim(Sub, user.id), Claim(Name, user.name), Claim(Jti, tokenId)]
        + RoleClaims(roles))
  }

  /** An issued token binds to exactly the user and family it was issued
      for, whatever the user's e-mail, name and roles are. */
  lemma IssuedTokenBindsToIssuer(user: User, roles: seq<string>, tokenId: string,
                                 userId: string, familyId: string)
    ensures GetAccessTokenData(GenerateAccessToken(user, roles, tokenId), userId, familyId)
            <==> userId == user.id && familyId == tokenId
  {
  }

  /** A token binds to at most one (user, family) pair. */
  lemma BindingIsFunctional(token: AccessToken, u1: string, f1: string, u2: string, f2: string)
    requires GetAccessTokenData(token, u1, f1) && GetAccessTokenData(token, u2, f2)
    ensures u1 == u2 && f1 == f2
  {
  }

  /** A token without a `sub` or without a `jti` claim never binds. */
  lemma MissingClaimNeverBinds(claims: seq<Claim>, userId: string, familyId: string)
    requires FindClaim(claims, Sub).None? || FindClaim(claims, Jti).None?
    ensures !GetAccessTokenData(Jwt(claims), userId, familyId)
  {
  }
}
