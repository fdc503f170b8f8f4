/** The outcome of each branch of refresh and revoke, stated in terms
    of the presented row's fields rather than of the branch structure. */
module Rotation {
  import opened Wrappers
  import opened Models
  import opened Jwt
  import opened TokenStore
  import opened AuthRepository

  /** An unknown refresh value: empty result, table untouched. */
  lemma RefreshUnknownValue(s: Store, d: Directory, presented: TokenDto,
                            guid1: string, guid2: string, now: int, lifetime: int)
    requires FreshValue(s, presented.refreshToken)
    ensures Refresh(s, d, presented, guid1, guid2, now, lifetime) == Step(s, EmptyTokenDto)
  {
  }

  /** A binding mismatch, including an unreadable access token: only the
      presented row is invalidated, nothing is added, the result is empty.
      This holds whether the row was valid, invalid or expired. */
  lemma RefreshMismatchRetiresPresentedOnly(s: Store, d: Directory, presented: TokenDto, i: nat,
                                            guid1: string, guid2: string, now: int, lifetime: int)
    requires Presented(s, presented.refreshToken, i)
    requires !GetAccessTokenData(presented.accessToken, s.records[i].userId, s.records[i].jwtTokenId)
    ensures var r := Refresh(s, d, presented, guid1, guid2, now, lifetime);
            && r.dto == EmptyTokenDto
            && r.store.nextId == s.nextId
            && r.store.records == s.records[i := s.records[i].(isValid := false)]
  {
    assert ReturnExistingRefreshToken(s, presented.refreshToken) == Some(i);
  }

  /** Replay of a retired row with a matching access token: every row of
      that user's family becomes invalid, all other rows are unchanged,
      nothing is added, the result is empty. Expiry plays no part, so a
      retired row replayed after it expired still sweeps the family. */
  lemma RefreshReplaySweepsChain(s: Store, d: Directory, presented: TokenDto, i: nat,
                                 guid1: string, guid2: string, now: int, lifetime: int)
    requires Presented(s, presented.refreshToken, i)
    requires GetAccessTokenData(presented.accessToken, s.records[i].userId, s.records[i].jwtTokenId)
    requires !s.records[i].isValid
    ensures var r := Refresh(s, d, presented, guid1, guid2, now, lifetime);
            && r.dto == EmptyTokenDto
            && |r.store.records| == |s.records| && r.store.nextId == s.nextId
            && ChainDead(r.store, s.records[i].userId, s.records[i].jwtTokenId)
            && (forall k :: 0 <= k < |s.records| && InChain(s.records[k], s.records[i].userId, s.records[i].jwtTokenId)
                 ==> r.store.records[k] == s.records[k].(isValid := false))
            && (forall k :: 0 <= k < |s.records| && !InChain(s.records[k], s.records[i].userId, s.records[i].jwtTokenId)
                 ==> r.store.records[k] == s.records[k])
  {
    assert ReturnExistingRefreshToken(s, presented.refreshToken) == Some(i);
  }

  /** A still-valid row past its expiry (strictly before `now`) is
      invalidated on its own; no row is added, no other row changes, and
      the result is empty. */
  lemma RefreshExpiredRetiresPresentedOnly(s: Store, d: Directory, presented: TokenDto, i: nat,
                                           guid1: string, guid2: string, now: int, lifetime: int)
    requires Presented(s, presented.refreshToken, i)
    requires GetAccessTokenData(presented.accessToken, s.records[i].userId, s.records[i].jwtTokenId)
    requires s.records[i].isValid && s.records[i].expireAt < now
    ensures var r := Refresh(s, d, presented, guid1, guid2, now, lifetime);
            && r.dto == EmptyTokenDto
            && r.store.nextId == s.nextId
            && r.store.records == s.records[i := s.records[i].(isValid := false)]
  {
    assert ReturnExistingRefreshToken(s, presented.refreshToken) == Some(i);
  }

  /** A successful rotation: the presented row is retired, exactly one row
      is appended (valid, same user and family, the value built from the two
      GUIDs, which no earlier row has when they are fresh, expiring
      `lifetime` after `now`), no other row changes, and the new
      value is returned with an access token bound to the same family when
      the user still exists. When the user is gone the result is empty but
      the rotation has happened. */
  lemma RefreshRotates(s: Store, d: Directory, presented: TokenDto, i: nat,
                       guid1: string, guid2: string, now: int, lifetime: int)
    requires Presented(s, presented.refreshToken, i)
    requires GetAccessTokenData(presented.accessToken, s.records[i].userId, s.records[i].jwtTokenId)
    requires s.records[i].isValid && !(s.records[i].expireAt < now)
    ensures var r := Refresh(s, d, presented, guid1, guid2, now, lifetime);
            var e := s.records[i];
            && |r.store.records| == |s.records| + 1
            && r.store.records[i] == e.(isValid := false)
            && (forall k :: 0 <= k < |s.records| && k != i ==> r.store.records[k] == s.records[k])
            && var t := r.store.records[|s.records|];
               && t.isValid && InChain(t, e.userId, e.jwtTokenId)
               && t.expireAt == now + lifetime
               && t.refreshJwtToken == RefreshValue(guid1, guid2)
               && (FindUser(d, e.userId).Some? ==>
                     r.dto.refreshToken == t.refreshJwtToken
                     && GetAccessTokenData(r.dto.accessToken, e.userId, e.jwtTokenId))
               && (FindUser(d, e.userId).None? ==> r.dto == EmptyTokenDto)
  {
    assert ReturnExistingRefreshToken(s, presented.refreshToken) == Some(i);
    var u := FindUser(d, s.records[i].userId);
    if u.Some? {
      IssuedTokenBindsToIssuer(u.value, RolesOf(d, u.value.id), s.records[i].jwtTokenId,
                               s.records[i].userId, s.records[i].jwtTokenId);
    }
  }

  /** Revoke with an unknown value or a mismatching access token changes
      nothing; unlike refresh, a mismatch does not retire the row. */
  lemma RevokeRejectedChangesNothing(s: Store, presented: TokenDto)
    requires || FreshValue(s, presented.refreshToken)
             || (exists i: nat :: Presented(s, presented.refreshToken, i)
                   && !GetAccessTokenData(presented.accessToken, s.records[i].userId, s.records[i].jwtTokenId))
    ensures Revoke(s, presented) == s
  {
    if !FreshValue(s, presented.refreshToken) {
      var i: nat :| Presented(s, presented.refreshToken, i)
                    && !GetAccessTokenData(presented.accessToken, s.records[i].userId, s.records[i].jwtTokenId);
      var j := ReturnExistingRefreshToken(s, presented.refreshToken);
      assert j == Some(i);
    }
  }

  /** Revoke with a matching pair invalidates every row of the family,
      whatever the presented row's validity or expiry, and leaves every
      other row as it was. */
  lemma RevokeSweepsChain(s: Store, presented: TokenDto, i: nat)
    requires Presented(s, presented.refreshToken, i)
    requires GetAccessTokenData(presented.accessToken, s.records[i].userId, s.records[i].jwtTokenId)
    ensures var r := Revoke(s, presented);
            && ChainDead(r, s.records[i].userId, s.records[i].jwtTokenId)
            && forall k :: 0 <= k < |s.records| && !InChain(s.records[k], s.records[i].userId, s.records[i].jwtTokenId)
                 ==> r.records[k] == s.records[k]
  {
    assert ReturnExistingRefreshToken(s, presented.refreshToken) == Some(i);
  }

  /** Revoking the same pair twice is the same as revoking it once. */
  lemma {:induction false} RevokeIdempotent(s: Store, presented: TokenDto)
    ensures Revoke(Revoke(s, presented), presented) == Revoke(s, presented)
  {
    var once := Revoke(s, presented);
    var v := presented.refreshToken;
    assert ReturnExistingRefreshToken(once, v) == ReturnExistingRefreshToken(s, v);
    match ReturnExistingRefreshToken(s, v)
    case None =>
    case Some(i) =>
      var e := s.records[i];
      assert once.records[i].userId == e.userId && once.records[i].jwtTokenId == e.jwtTokenId;
      if GetAccessTokenData(presented.accessToken, e.userId, e.jwtTokenId) {
        SweepIdempotent(s, e.userId, e.jwtTokenId);
      }
  }
}
