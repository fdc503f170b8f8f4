/** The per-family invariant and its preservation by every repository call,
    and the multi-call consequences: replay after rotation, refresh after
    revoke, and dead families staying dead. */
module Invariants {
  import opened Wrappers
  import opened Models
  import opened Jwt
  import opened TokenStore
  import opened AuthRepository
  import opened Rotation

  /** With families owned by one user, "at most one valid row per (user,
      family)" is "at most one valid row per family id". */
  lemma SingleActivePerFamilyId(s: Store, i: nat, j: nat)
    requires Consistent(s)
    requires i < |s.records| && j < |s.records|
    requires s.records[i].isValid && s.records[j].isValid
    requires s.records[i].jwtTokenId == s.records[j].jwtTokenId
    ensures i == j
  {
    assert InChain(s.records[j], s.records[i].userId, s.records[i].jwtTokenId);
  }

  /** In a consistent table, sweeping a row's (user, family) chain retires
      every row that shares its family id, whoever it is recorded for. */
  lemma SweepRetiresWholeFamilyId(s: Store, i: nat)
    requires Consistent(s) && i < |s.records|
    ensures var e := s.records[i];
            var r := MarkAllTokenInChainAsInvalid(s, e.userId, e.jwtTokenId);
            forall k :: 0 <= k < |s.records| && s.records[k].jwtTokenId == e.jwtTokenId ==> !r.records[k].isValid
  {
  }

  /** Inside a rotation the new row exists before the old one is retired, so
      between the two writes the family has two valid rows: the invariant
      holds only at call boundaries. */
  lemma RotationMidpointHasTwoValid(s: Store, i: nat, guid1: string, guid2: string, now: int, lifetime: int)
    requires i < |s.records| && s.records[i].isValid
    ensures !SingleActive(CreateNewRefreshToken(s, s.records[i].userId, s.records[i].jwtTokenId,
                                                guid1, guid2, now, lifetime).store.records)
  {
    var rs := CreateNewRefreshToken(s, s.records[i].userId, s.records[i].jwtTokenId,
                                    guid1, guid2, now, lifetime).store.records;
    assert rs[i].isValid && rs[|s.records|].isValid;
    assert InChain(rs[|s.records|], rs[i].userId, rs[i].jwtTokenId);
  }

  /** A rotation of a valid row keeps a consistent store consistent, given
      a fresh value: the store ends as if the old row had been retired first
      and the new row appended to a family with no valid row left. */
  lemma RotatePreservesConsistency(s: Store, d: Directory, i: nat,
                                   guid1: string, guid2: string, now: int, lifetime: int)
    requires Consistent(s)
    requires i < |s.records| && s.records[i].isValid
    requires FreshValue(s, RefreshValue(guid1, guid2))
    ensures Consistent(Rotate(s, d, i, guid1, guid2, now, lifetime).store)
  {
    var e := s.records[i];
    var r := Rotate(s, d, i, guid1, guid2, now, lifetime).store;
    var n := |s.records|;
    var t := r.records[n];
    var m := MarkTokenAsInvalid(s, i);
    RetiringPreservesConsistency(s, m);
    assert ChainDead(m, e.userId, e.jwtTokenId) by {
      forall k | 0 <= k < |m.records| && InChain(m.records[k], e.userId, e.jwtTokenId) && k != i
        ensures !m.records[k].isValid
      {
        assert InChain(s.records[k], e.userId, e.jwtTokenId);
      }
    }
    assert r.records == m.records + [t];
    AppendPreservesConsistency(m, t);
  }

  /** Refresh preserves the invariants, whichever branch it takes. */
  lemma RefreshPreservesConsistency(s: Store, d: Directory, presented: TokenDto,
                                    guid1: string, guid2: string, now: int, lifetime: int)
    requires Consistent(s)
    requires FreshValue(s, RefreshValue(guid1, guid2))
    ensures Consistent(Refresh(s, d, presented, guid1, guid2, now, lifetime).store)
  {
    var r := Refresh(s, d, presented, guid1, guid2, now, lifetime);
    match ReturnExistingRefreshToken(s, presented.refreshToken)
    case None =>
    case Some(i) =>
      var e := s.records[i];
      if !GetAccessTokenData(presented.accessToken, e.userId, e.jwtTokenId) || !e.isValid || e.expireAt < now {
        RetiringPreservesConsistency(s, r.store);
      } else {
        RotatePreservesConsistency(s, d, i, guid1, guid2, now, lifetime);
      }
  }

  /** Revoke preserves the invariants. */
  lemma RevokePreservesConsistency(s: Store, presented: TokenDto)
    requires Consistent(s)
    ensures Consistent(Revoke(s, presented))
  {
    RetiringPreservesConsistency(s, Revoke(s, presented));
  }

  /** Login preserves the invariants: its one new valid row starts a family
      no row had before. */
  lemma LoginPreservesConsistency(s: Store, d: Directory, found: Option<User>, passwordOk: bool,
                                  familyGuid: string, guid1: string, guid2: string, now: int, lifetime: int)
    requires Consistent(s)
    requires FreshFamily(s, FamilyId(familyGuid))
    requires FreshValue(s, RefreshValue(guid1, guid2))
    ensures Consistent(Login(s, d, found, passwordOk, familyGuid, guid1, guid2, now, lifetime).store)
  {
    var r := Login(s, d, found, passwordOk, familyGuid, guid1, guid2, now, lifetime);
    if found.Some? && passwordOk {
      AppendPreservesConsistency(s, r.store.records[|s.records|]);
      assert r.store.records == s.records + [r.store.records[|s.records|]];
    }
  }

  /** Replaying the refresh value a successful rotation consumed (with the
      same access token) sweeps the family: afterwards no row of it is
      valid, including the row the rotation just created, no row is added,
      and the result is empty. */
  lemma ReplayAfterRotationKillsFamily(s: Store, d: Directory, presented: TokenDto, i: nat,
                                       guid1: string, guid2: string, now: int, lifetime: int,
                                       d': Directory, guid3: string, guid4: string, now': int, lifetime': int)
    requires Presented(s, presented.refreshToken, i)
    requires |Refresh(s, d, presented, guid1, guid2, now, lifetime).store.records| == |s.records| + 1
    ensures var first := Refresh(s, d, presented, guid1, guid2, now, lifetime);
            var second := Refresh(first.store, d', presented, guid3, guid4, now', lifetime');
            && second.dto == EmptyTokenDto
            && |second.store.records| == |first.store.records|
            && ChainDead(second.store, s.records[i].userId, s.records[i].jwtTokenId)
  {
    var e := s.records[i];
    assert ReturnExistingRefreshToken(s, presented.refreshToken) == Some(i);
    assert GetAccessTokenData(presented.accessToken, e.userId, e.jwtTokenId) && e.isValid && !(e.expireAt < now);
    RefreshRotates(s, d, presented, i, guid1, guid2, now, lifetime);
    var first := Refresh(s, d, presented, guid1, guid2, now, lifetime);
    assert Presented(first.store, presented.refreshToken, i);
    RefreshReplaySweepsChain(first.store, d', presented, i, guid3, guid4, now', lifetime');
  }

  /** After a successful revoke, refreshing with the same pair takes the
      replay path: the family is already dead, the sweep changes nothing,
      and the result is empty. */
  lemma RefreshAfterRevokeIsReplay(s: Store, d: Directory, presented: TokenDto, i: nat,
                                   guid1: string, guid2: string, now: int, lifetime: int)
    requires Presented(s, presented.refreshToken, i)
    requires GetAccessTokenData(presented.accessToken, s.records[i].userId, s.records[i].jwtTokenId)
    ensures ChainDead(Revoke(s, presented), s.records[i].userId, s.records[i].jwtTokenId)
    ensures Refresh(Revoke(s, presented), d, presented, guid1, guid2, now, lifetime)
            == Step(Revoke(s, presented), EmptyTokenDto)
  {
    var e := s.records[i];
    var revoked := Revoke(s, presented);
    RevokeSweepsChain(s, presented, i);
    PresentedCarriesOver(s, revoked, presented.refreshToken, i);
    assert ReturnExistingRefreshToken(revoked, presented.refreshToken) == Some(i);
    SweepDeadChainIsIdentity(revoked, e.userId, e.jwtTokenId);
  }

  /** A family with no valid row never comes back through refresh: no row
      of it becomes valid, and refreshing with one of its rows returns the
      empty pair. */
  lemma DeadChainStaysDeadOnRefresh(s: Store, d: Directory, presented: TokenDto,
                                    guid1: string, guid2: string, now: int, lifetime: int,
                                    userId: string, tokenId: string)
    requires ChainDead(s, userId, tokenId)
    ensures ChainDead(Refresh(s, d, presented, guid1, guid2, now, lifetime).store, userId, tokenId)
    ensures forall i: nat :: Presented(s, presented.refreshToken, i) && InChain(s.records[i], userId, tokenId)
              ==> Refresh(s, d, presented, guid1, guid2, now, lifetime).dto == EmptyTokenDto
  {
    match ReturnExistingRefreshToken(s, presented.refreshToken)
    case None =>
    case Some(i) =>
      var e := s.records[i];
      if GetAccessTokenData(presented.accessToken, e.userId, e.jwtTokenId) && e.isValid && !(e.expireAt < now) {
        RefreshRotates(s, d, presented, i, guid1, guid2, now, lifetime);
      }
  }

  /** Revoke never makes a row of a dead family valid again. */
  lemma DeadChainStaysDeadOnRevoke(s: Store, presented: TokenDto, userId: string, tokenId: string)
    requires ChainDead(s, userId, tokenId)
    ensures ChainDead(Revoke(s, presented), userId, tokenId)
  {
  }

  /** From a valid, unexpired row presented with a bound access token:
      the rotation returns (A2, r2) in the same family, replaying the
      original pair then kills the family, and (A2, r2) fails afterwards. */
  lemma RotateReplayLate(s: Store, d: Directory, presented: TokenDto, i: nat,
                         g3: string, g4: string, g5: string, g6: string, g7: string, g8: string,
                         t1: int, t2: int, t3: int, lifetime: int)
    requires Presented(s, presented.refreshToken, i)
    requires GetAccessTokenData(presented.accessToken, s.records[i].userId, s.records[i].jwtTokenId)
    requires s.records[i].isValid && !(s.records[i].expireAt < t1)
    requires FreshValue(s, RefreshValue(g3, g4))
    requires FindUser(d, s.records[i].userId).Some?
    ensures var rotate := Refresh(s, d, presented, g3, g4, t1, lifetime);
            var replay := Refresh(rotate.store, d, presented, g5, g6, t2, lifetime);
            var late := Refresh(replay.store, d, rotate.dto, g7, g8, t3, lifetime);
            && rotate.dto.refreshToken == RefreshValue(g3, g4)
            && GetAccessTokenData(rotate.dto.accessToken, s.records[i].userId, s.records[i].jwtTokenId)
            && replay.dto == EmptyTokenDto
            && late.dto == EmptyTokenDto
            && ChainDead(late.store, s.records[i].userId, s.records[i].jwtTokenId)
  {
    var e := s.records[i];
    var n := |s.records|;
    var rotate := Refresh(s, d, presented, g3, g4, t1, lifetime);
    var replay := Refresh(rotate.store, d, presented, g5, g6, t2, lifetime);
    assert && rotate.dto.refreshToken == RefreshValue(g3, g4)
           && GetAccessTokenData(rotate.dto.accessToken, e.userId, e.jwtTokenId)
           && Presented(rotate.store, rotate.dto.refreshToken, n) by {
      RefreshRotates(s, d, presented, i, g3, g4, t1, lifetime);
    }
    assert replay.dto == EmptyTokenDto && ChainDead(replay.store, e.userId, e.jwtTokenId) by {
      ReplayAfterRotationKillsFamily(s, d, presented, i, g3, g4, t1, lifetime, d, g5, g6, t2, lifetime);
    }
    assert Presented(replay.store, rotate.dto.refreshToken, n) by {
      PresentedCarriesOver(rotate.store, replay.store, rotate.dto.refreshToken, n);
    }
    DeadChainStaysDeadOnRefresh(replay.store, d, rotate.dto, g7, g8, t3, lifetime, e.userId, e.jwtTokenId);
  }

  /** The life of one family: login issues (A1, r1); refreshing with it
      rotates to (A2, r2) in the same family; replaying (A1, r1) kills the
      family; refreshing with (A2, r2) afterwards fails as well. */
  lemma LoginRotateReplayTrace(s: Store, d: Directory, user: User, familyGuid: string,
                               g1: string, g2: string, g3: string, g4: string,
                               g5: string, g6: string, g7: string, g8: string,
                               t0: int, t1: int, t2: int, t3: int, lifetime: int)
    requires FreshValue(s, RefreshValue(g1, g2)) && FreshValue(s, RefreshValue(g3, g4))
    requires RefreshValue(g3, g4) != RefreshValue(g1, g2)
    requires FindUser(d, user.id).Some?
    requires t1 <= t0 + lifetime
    ensures var login := Login(s, d, Some(user), true, familyGuid, g1, g2, t0, lifetime);
            var rotate := Refresh(login.store, d, login.dto, g3, g4, t1, lifetime);
            var replay := Refresh(rotate.store, d, login.dto, g5, g6, t2, lifetime);
            var late := Refresh(replay.store, d, rotate.dto, g7, g8, t3, lifetime);
            && rotate.dto.refreshToken == RefreshValue(g3, g4)
            && GetAccessTokenData(rotate.dto.accessToken, user.id, FamilyId(familyGuid))
            && replay.dto == EmptyTokenDto
            && late.dto == EmptyTokenDto
            && ChainDead(late.store, user.id, FamilyId(familyGuid))
  {
    var n := |s.records|;
    var login := Login(s, d, Some(user), true, familyGuid, g1, g2, t0, lifetime);
    FreshValueCarriesOver(s, login.store, RefreshValue(g3, g4));
    assert Presented(login.store, login.dto.refreshToken, n);
    RotateReplayLate(login.store, d, login.dto, n, g3, g4, g5, g6, g7, g8, t1, t2, t3, lifetime);
  }
}
