/** The refresh-token table and the four primitive operations the
    repository performs on it, with the invariants the protocol relies on. */
module TokenStore {
  import opened Wrappers
  import opened Sequences
  import opened Models

  /** The table's rows in insertion order, and the next identity value the
      database will assign. */
  datatype Store = Store(records: seq<RefreshToken>, nextId: int)

  /** A newly inserted store together with the value of the inserted row. */
  datatype Created = Created(store: Store, value: string)

  /** A refresh value is two GUIDs joined by a hyphen. */
  function RefreshValue(guid1: string, guid2: string): (v: string)
    ensures |v| == |guid1| + 1 + |guid2|
    ensures v[..|guid1|] == guid1 && v[|guid1|] == '-' && v[|guid1| + 1..] == guid2
  {
    guid1 + "-" + guid2
  }

  /** A family id is a GUID behind the prefix `JTI`. */
  function FamilyId(guid: string): (f: string)
    ensures |f| == 3 + |guid| && f[..3] == "JTI" && f[3..] == guid
  {
    "JTI" + guid
  }

  /** GUIDs print at a fixed width, so a refresh value names the pair it
      was built from. */
  lemma RefreshValueDeterminesGuids(g1: string, g2: string, h1: string, h2: string)
    requires |g1| == |h1|
    ensures RefreshValue(g1, g2) == RefreshValue(h1, h2) <==> g1 == h1 && g2 == h2
  {
  }

  /** Distinct GUIDs give distinct family ids. */
  lemma FamilyIdDeterminesGuid(g: string, h: string)
    ensures FamilyId(g) == FamilyId(h) <==> g == h
  {
  }

  /** `t` belongs to the chain of `userId` and `tokenId`: the rows the code's
      chain-wide update selects. */
  predicate InChain(t: RefreshToken, userId: string, tokenId: string)
  {
    t.userId == userId && t.jwtTokenId == tokenId
  }

  /** No row carries `value`. */
  predicate FreshValue(s: Store, value: string)
  {
    forall k :: 0 <= k < |s.records| ==> s.records[k].refreshJwtToken != value
  }

  /** No row belongs to the family `tokenId`. */
  predicate FreshFamily(s: Store, tokenId: string)
  {
    forall k :: 0 <= k < |s.records| ==> s.records[k].jwtTokenId != tokenId
  }

  /** Row `i` is the one a lookup of `value` returns: the first row with it. */
  predicate Presented(s: Store, value: string, i: nat)
  {
    && i < |s.records|
    && s.records[i].refreshJwtToken == value
    && forall k :: 0 <= k < i ==> s.records[k].refreshJwtToken != value
  }

  /** No row of the chain is valid. */
  predicate ChainDead(s: Store, userId: string, tokenId: string)
  {
    forall k :: 0 <= k < |s.records| && InChain(s.records[k], userId, tokenId) ==> !s.records[k].isValid
  }

  /** `after` is `before` with at most its validity changed, and validity
      only ever goes from true to false. */
  predicate Retires(before: RefreshToken, after: RefreshToken)
  {
    after == before.(isValid := after.isValid) && (after.isValid ==> before.isValid)
  }

  /** `b` keeps every row of `a` (possibly retired) and may add rows behind. */
  predicate Evolves(a: seq<RefreshToken>, b: seq<RefreshToken>)
  {
    |a| <= |b| && forall k :: 0 <= k < |a| ==> Retires(a[k], b[k])
  }

  // ---------------------------------------------------------------------
  // Invariants, measured between repository calls
  // ---------------------------------------------------------------------

  /** At most one valid row per (user id, family id). */
  predicate SingleActive(rs: seq<RefreshToken>)
  {
    forall i, j ::
      (0 <= i < |rs| && 0 <= j < |rs| && rs[i].isValid && rs[j].isValid
       && InChain(rs[j], rs[i].userId, rs[i].jwtTokenId)) ==> i == j
  }

  /** Refresh values are unique across the table. */
  predicate ValuesUnique(rs: seq<RefreshToken>)
  {
    forall i, j :: 0 <= i < |rs| && 0 <= j < |rs| && rs[i].refreshJwtToken == rs[j].refreshJwtToken ==> i == j
  }

  /** A family id belongs to one user only. */
  predicate FamiliesOwned(rs: seq<RefreshToken>)
  {
    forall i, j :: 0 <= i < |rs| && 0 <= j < |rs| && rs[i].jwtTokenId == rs[j].jwtTokenId ==> rs[i].userId == rs[j].userId
  }

  /** Identity values are distinct and below the next one to be assigned. */
  predicate IdsAssigned(s: Store)
  {
    && (forall k :: 0 <= k < |s.records| ==> s.records[k].id < s.nextId)
    && (forall i, j :: 0 <= i < |s.records| && 0 <= j < |s.records| && s.records[i].id == s.records[j].id ==> i == j)
  }

  predicate Consistent(s: Store)
  {
    SingleActive(s.records) && ValuesUnique(s.records) && FamiliesOwned(s.records) && IdsAssigned(s)
  }

  // ---------------------------------------------------------------------
  // Primitive operations
  // ---------------------------------------------------------------------

  /** Look a refresh value up: the index of the first row carrying it. */
  function ReturnExistingRefreshToken(s: Store, value: string): (r: Option<nat>)
    ensures r.None? <==> FreshValue(s, value)
    ensures r.Some? ==> Presented(s, value, r.value)
  {
    IndexOfValue(s.records, value)
  }

  /** The first-match search specialised to refresh values; the generic
      `FirstIndex` with a lambda is markedly costlier for the solver in the
      multi-call proofs. */
  function IndexOfValue(rs: seq<RefreshToken>, value: string): (r: Option<nat>)
    ensures r.None? <==> forall k :: 0 <= k < |rs| ==> rs[k].refreshJwtToken != value
    ensures r.Some? ==> r.value < |rs| && rs[r.value].refreshJwtToken == value
    ensures r.Some? ==> forall k :: 0 <= k < r.value ==> rs[k].refreshJwtToken != value
  {
    if |rs| == 0 then None
    else if rs[0].refreshJwtToken == value then Some(0)
    else
      match IndexOfValue(rs[1..], value)
      case None => None
      case Some(k) => Some(k + 1)
  }

  /** Insert a valid row for the given user and family, expiring `lifetime`
      after `now`, and return its value. */
  function CreateNewRefreshToken(s: Store, userId: string, tokenId: string,
                                 guid1: string, guid2: string, now: int, lifetime: int): (c: Created)
    ensures c.value == RefreshValue(guid1, guid2)
    ensures |c.store.records| == |s.records| + 1 && c.store.nextId == s.nextId + 1
    ensures forall k :: 0 <= k < |s.records| ==> c.store.records[k] == s.records[k]
    ensures var t := c.store.records[|s.records|];
            t.id == s.nextId && t.isValid && InChain(t, userId, tokenId)
            && t.refreshJwtToken == c.value && t.expireAt == now + lifetime
    ensures FreshValue(s, c.value) ==> ReturnExistingRefreshToken(c.store, c.value) == Some(|s.records|)
  {
    var value := RefreshValue(guid1, guid2);
    var t := RefreshToken(s.nextId, userId, tokenId, value, true, now + lifetime);
    var s' := Store(s.records + [t], s.nextId + 1);
    assert s'.records[|s.records|].refreshJwtToken == value;
    Created(s', value)
  }

  /** Set one row's validity to false. */
  function MarkTokenAsInvalid(s: Store, i: nat): (r: Store)
    requires i < |s.records|
    ensures |r.records| == |s.records| && r.nextId == s.nextId
    ensures !r.records[i].isValid && Retires(s.records[i], r.records[i])
    ensures forall k :: 0 <= k < |s.records| && k != i ==> r.records[k] == s.records[k]
  {
    Store(s.records[i := s.records[i].(isValid := false)], s.nextId)
  }

  /** Set validity to false on every row of one chain, row by row. */
  function SweepChain(rs: seq<RefreshToken>, userId: string, tokenId: string): (out: seq<RefreshToken>)
    ensures |out| == |rs|
    ensures forall k :: 0 <= k < |rs| ==> Retires(rs[k], out[k])
    ensures forall k :: 0 <= k < |rs| ==> (out[k].isValid <==> rs[k].isValid && !InChain(rs[k], userId, tokenId))
  {
    if rs == [] then []
    else
      var head := if InChain(rs[0], userId, tokenId) then rs[0].(isValid := false) else rs[0];
      [head] + SweepChain(rs[1..], userId, tokenId)
  }

  /** The chain-wide update: every row of the chain becomes invalid, every
      other row is left as it was, and no row is added. */
  function MarkAllTokenInChainAsInvalid(s: Store, userId: string, tokenId: string): (r: Store)
    ensures |r.records| == |s.records| && r.nextId == s.nextId
    ensures ChainDead(r, userId, tokenId)
    ensures forall k :: 0 <= k < |s.records| && InChain(s.records[k], userId, tokenId) ==>
              r.records[k] == s.records[k].(isValid := false)
    ensures forall k :: 0 <= k < |s.records| && !InChain(s.records[k], userId, tokenId) ==>
              r.records[k] == s.records[k]
  {
    Store(SweepChain(s.records, userId, tokenId), s.nextId)
  }

  // ---------------------------------------------------------------------
  // Facts about the primitives
  // ---------------------------------------------------------------------

  /** With unique values, a lookup finds the one row carrying the value. */
  lemma LookupFindsTheRow(s: Store, i: nat)
    requires ValuesUnique(s.records) && i < |s.records|
    ensures ReturnExistingRefreshToken(s, s.records[i].refreshJwtToken) == Some(i)
  {
  }

  /** Sweeping a family that has no valid row changes nothing. */
  lemma SweepDeadChainIsIdentity(s: Store, userId: string, tokenId: string)
    requires ChainDead(s, userId, tokenId)
    ensures MarkAllTokenInChainAsInvalid(s, userId, tokenId) == s
  {
    var r := MarkAllTokenInChainAsInvalid(s, userId, tokenId);
    assert r.records == s.records;
  }

  /** The chain-wide update is idempotent. */
  lemma {:induction false} SweepIdempotent(s: Store, userId: string, tokenId: string)
    ensures var once := MarkAllTokenInChainAsInvalid(s, userId, tokenId);
            MarkAllTokenInChainAsInvalid(once, userId, tokenId) == once
  {
  }

  /** Retiring rows without adding any keeps a consistent store consistent. */
  lemma RetiringPreservesConsistency(s: Store, r: Store)
    requires Consistent(s)
    requires |r.records| == |s.records| && r.nextId == s.nextId
    requires forall k :: 0 <= k < |s.records| ==> Retires(s.records[k], r.records[k])
    ensures Consistent(r)
  {
  }

  /** A value absent from a table stays absent after rows are retired and
      rows with other values are appended. */
  lemma FreshValueCarriesOver(s: Store, r: Store, value: string)
    requires FreshValue(s, value) && Evolves(s.records, r.records)
    requires forall k :: |s.records| <= k < |r.records| ==> r.records[k].refreshJwtToken != value
    ensures FreshValue(r, value)
  {
  }

  /** Appending a row keeps a consistent store consistent when the row takes
      the next identity value, carries a fresh value, joins no family that
      still has a valid row (if it is valid itself), and joins only a family
      of its own user. */
  lemma AppendPreservesConsistency(s: Store, t: RefreshToken)
    requires Consistent(s)
    requires t.id == s.nextId
    requires FreshValue(s, t.refreshJwtToken)
    requires t.isValid ==> ChainDead(s, t.userId, t.jwtTokenId)
    requires forall k :: 0 <= k < |s.records| && s.records[k].jwtTokenId == t.jwtTokenId ==> s.records[k].userId == t.userId
    ensures Consistent(Store(s.records + [t], s.nextId + 1))
  {
    var rs := s.records + [t];
    var n := |s.records|;
    forall a, b | 0 <= a < |rs| && 0 <= b < |rs| && rs[a].isValid && rs[b].isValid
                  && InChain(rs[b], rs[a].userId, rs[a].jwtTokenId)
      ensures a == b
    {
    }
  }

  /** Retiring rows and appending rows behind keeps the row a lookup finds. */
  lemma PresentedCarriesOver(a: Store, b: Store, value: string, i: nat)
    requires Presented(a, value, i) && Evolves(a.records, b.records)
    ensures Presented(b, value, i)
  {
  }
}
