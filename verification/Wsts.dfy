/** The signing parties and the aggregator (wsts/src/v2.rs). */
module Wsts {
  import opened Basics
  import opened ModArith
  import opened Interpolation
  import opened Secp
  import opened Ownership
  import opened Dkg
  import opened Signing

  datatype Nonce = Nonce(d: int, e: int)

  datatype DkgError =
    | BadPublicShares(ids: seq<u32>)
    | MissingPrivateShares(pairs: seq<(u32, u32)>)
    | BadPrivateShares(senders: seq<u32>)
    | PointFailed

  datatype AggregatorError =
    | MissingNonce
    | NotInitialized
    | BadPolynomialDegree(expected: nat, received: nat)
    | InvalidPolynomial
    | BadNonceLen(nonces: nat, shares: nat)
    | BadPartyKeys(ids: seq<u32>)
    | BadPartySigs(ids: seq<u32>)
    | BadGroupSig

  function PublicNonceOf(s: Suite, n: Nonce): PublicNonce
    requires s.q > 1
  {
    PublicNonce(s.Times(n.d, G), s.Times(n.e, G))
  }

  type PrivateShares = map<u32, map<u32, int>>

  /** The share of a committed sender for key `dst` is missing. */
  ghost predicate Missing(shares: PrivateShares, comms: Commitments, dst: u32, src: u32) {
    src in comms && (dst !in shares || src !in shares[dst])
  }

  /** No share of a committed sender is missing for key `dst`. */
  ghost predicate HasAllShares(shares: PrivateShares, comms: Commitments, dst: u32) {
    forall i :: i in comms ==> dst in shares && i in shares[dst]
  }

  /** The check of the share of `src` for `dst` cannot be made. */
  ghost predicate CheckFails(s: Suite, shares: PrivateShares, comms: Commitments, dst: u32, src: u32)
    requires s.q > 1
  {
    dst in shares && src in shares[dst] && src in comms && PolyFails(s, dst, comms[src].poly)
  }

  /** What a failed `compute_secret` reports: of the first check that does not pass, exactly what
      is wrong. */
  ghost predicate ReportsWhy(s: Suite, threshold: nat, keyIds: seq<u32>, shares: PrivateShares, comms: Commitments,
                             e: DkgError)
    requires s.q > 1
  {
    var allGood := forall i :: i in comms ==> |comms[i].poly| == threshold && Owns(s, comms[i].id, comms[i].poly[0]);
    var allThere := forall k :: k in keyIds ==> HasAllShares(shares, comms, k);
    var checked := forall k, i :: k in keyIds ==> !CheckFails(s, shares, comms, k, i);
    match e
    case BadPublicShares(ids) =>
      && ids != []
      && forall i :: i in ids <==>
           i in comms && (|comms[i].poly| != threshold || !Owns(s, comms[i].id, comms[i].poly[0]))
    case MissingPrivateShares(pairs) =>
      && allGood && pairs != []
      && forall k: u32, i: u32 :: (k, i) in pairs <==> k in keyIds && Missing(shares, comms, k, i)
    case PointFailed =>
      allGood && allThere && !checked
    case BadPrivateShares(senders) =>
      && allGood && allThere && checked && senders != []
      && forall i :: i in senders <==> exists k :: k in keyIds && BadShare(s, shares, comms, k, i)
  }

  ghost predicate BadShare(s: Suite, shares: PrivateShares, comms: Commitments, dst: u32, src: u32)
    requires s.q > 1
  {
    dst in shares && src in shares[dst] && src in comms && s.Times(shares[dst][src], G) != Poly(s, dst, comms[src].poly)
  }

  function ByKey(sent: map<u32, map<u32, int>>, keyIds: seq<u32>): (r: PrivateShares)
    ensures forall k :: k in r <==> k in keyIds
  {
    map k | k in keyIds :: map i | i in sent && k in sent[i] :: sent[i][k]
  }

  ghost function GoodOnes(s: Suite, comms: Commitments, threshold: nat): Commitments
    requires s.q > 1
  {
    map i | i in comms && |comms[i].poly| == threshold && Owns(s, comms[i].id, comms[i].poly[0]) :: comms[i]
  }

  class Party {
    const s: Suite
    const partyId: u32
    const keyIds: seq<u32>
    const numKeys: u32
    const threshold: nat
    var f: Option<seq<int>>
    var privateKeys: map<u32, int>
    var groupKey: Point
    var nonce: Option<Nonce>

    constructor (s: Suite, partyId: u32, keyIds: seq<u32>, numKeys: u32, threshold: nat, poly: seq<int>)
      requires s.q > 1 && |poly| == threshold
      ensures this.s == s && this.partyId == partyId && this.keyIds == keyIds && this.numKeys == numKeys
      ensures this.threshold == threshold && f == Some(poly) && privateKeys == map[] && nonce == None
    {
      this.s, this.partyId, this.keyIds, this.numKeys, this.threshold := s, partyId, keyIds, numKeys, threshold;
      f, privateKeys, groupKey, nonce := Some(poly), map[], Point(0), None;
    }

    method GenNonce(n: Nonce) returns (r: PublicNonce)
      requires s.q > 1
      modifies this`nonce
      ensures nonce == Some(n) && r == PublicNonceOf(s, n)
    {
      r := PublicNonceOf(s, n);
      nonce := Some(n);
    }

    /** `get_poly_commitment`, with the random number of the proof: a commitment that every receiver
        accepts, nothing once the polynomial is cleared or when it has no coefficients. */
    method GetPolyCommitment(k: int) returns (r: Option<PolyCommitment>)
      requires s.q > 1
      ensures r.None? <==> f.None? || f.value == []
      ensures r.Some? ==> r.value.poly == CommitTo(s, f.value) && Owns(s, r.value.id, r.value.poly[0])
      ensures r.Some? ==> r.value.id == NewId(s, partyId, f.value[0], k)
    {
      if f.None? || f.value == [] {
        return None;
      }
      hide Owns, NewId, Suite.Times;
      NewIdOwns(s, partyId, f.value[0], k);
      r := Some(Commitment(CommitTo(s, f.value), NewId(s, partyId, f.value[0], k)));
    }

    /** The value of the secret polynomial at every key id; nothing once it is cleared. */
    method GetShares() returns (shares: map<u32, int>)
      requires s.q > 1
      ensures f.None? ==> shares == map[]
      ensures f.Some? ==> forall i :: i in shares <==> 1 <= i <= numKeys
      ensures f.Some? ==> forall i :: i in shares ==> shares[i] == Eval(s.q, f.value, i)
    {
      shares := map[];
      if f.Some? {
        var i: int := 1;
        while i <= numKeys
          invariant 1 <= i
          invariant forall j :: j in shares <==> 1 <= j < i && j <= numKeys
          invariant forall j :: j in shares ==> shares[j] == Eval(s.q, f.value, j)
        {
          shares := shares[i := Eval(s.q, f.value, i)];
          i := i + 1;
        }
      }
    }

    /** First stage of `compute_secret`: add up constant terms, collect bad commitments. */
    method CheckCommitments(comms: Commitments) returns (bad: seq<u32>)
      requires s.q > 0x1_0000_0000
      modifies this`groupKey
      ensures forall i :: i in bad <==>
                i in comms && (|comms[i].poly| != threshold || !Owns(s, comms[i].id, comms[i].poly[0]))
      ensures groupKey == GroupKey(s, GoodOnes(s, comms, threshold))
      ensures bad == [] ==> GoodOnes(s, comms, threshold) == comms
    {
      hide Owns;
      bad := [];
      groupKey := Point(0);
      var todo := comms.Keys;
      ghost var good: Commitments := map[];
      EmptyGroupKey(s);
      while todo != {}
        invariant todo <= comms.Keys && good.Keys !! todo
        invariant forall i :: i in good ==> i in comms && good[i] == comms[i]
        invariant forall i :: i in bad <==> i in comms && i !in todo && i !in good
        invariant forall i :: i in comms && i !in todo ==> (i in good <==> GoodCommitment(s, comms[i], threshold))
        invariant groupKey == GroupKey(s, good)
        decreases |todo|
      {
        var i :| i in todo;
        todo := todo - {i};
        if !GoodCommitment(s, comms[i], threshold) {
          bad := bad + [i];
        } else {
          GroupKeyInsert(s, good, i, comms[i]);
          groupKey := s.Plus(groupKey, comms[i].poly[0]);
          good := good[i := comms[i]];
        }
      }
      assert good == GoodOnes(s, comms, threshold);
      assert bad == [] ==> forall i :: i in comms ==> i in good;
    }

    /** Second stage: which (key, sender) pairs lack a share. */
    method FindMissing(shares: PrivateShares, comms: Commitments) returns (missing: seq<(u32, u32)>)
      ensures forall k: u32, i: u32 :: (k, i) in missing <==> k in keyIds && Missing(shares, comms, k, i)
      ensures missing == [] <==> forall k :: k in keyIds ==> HasAllShares(shares, comms, k)
    {
      missing := [];
      for n := 0 to |keyIds|
        invariant forall k: u32, i: u32 :: (k, i) in missing <==> k in keyIds[..n] && Missing(shares, comms, k, i)
      {
        var dst := keyIds[n];
        var senders := FindMissingFor(shares, comms, dst);
        var pairs := seq(|senders|, i requires 0 <= i < |senders| => (dst, senders[i]));
        forall k: u32, i: u32
          ensures (k, i) in pairs <==> k == dst && Missing(shares, comms, k, i)
        {
          if k == dst && Missing(shares, comms, k, i) {
            var p :| 0 <= p < |senders| && senders[p] == i;
            assert pairs[p] == (k, i);
          }
        }
        missing := missing + pairs;
        assert keyIds[..n + 1] == keyIds[..n] + [dst];
      }
      assert keyIds[..|keyIds|] == keyIds;
      MissingNone(shares, comms, keyIds, missing);
    }

    /** The committed senders without a share for one key. */
    method FindMissingFor(shares: PrivateShares, comms: Commitments, dst: u32) returns (senders: seq<u32>)
      ensures forall i :: i in senders <==> Missing(shares, comms, dst, i)
    {
      senders := [];
      var todo := comms.Keys;
      while todo != {}
        invariant todo <= comms.Keys
        invariant forall i :: i in senders <==> i !in todo && Missing(shares, comms, dst, i)
        decreases |todo|
      {
        var src :| src in todo;
        todo := todo - {src};
        if dst !in shares || src !in shares[dst] {
          senders := senders + [src];
        }
      }
    }

    /** Third stage: which committed senders sent a share off their polynomial; nothing when
        some check cannot be made. */
    method FindBad(shares: PrivateShares, comms: Commitments) returns (bad: Option<seq<u32>>)
      requires s.q > 1
      ensures bad.Some? <==> forall k, i :: k in keyIds ==> !CheckFails(s, shares, comms, k, i)
      ensures bad.Some? ==> forall i :: i in bad.value <==> exists k :: k in keyIds && BadShare(s, shares, comms, k, i)
    {
      hide BadShare, CheckFails;
      var found: seq<u32> := [];
      for n := 0 to |keyIds|
        invariant forall k, i :: k in keyIds[..n] ==> !CheckFails(s, shares, comms, k, i)
        invariant forall i :: i in found <==> exists k :: k in keyIds[..n] && BadShare(s, shares, comms, k, i)
      {
        var dst := keyIds[n];
        assert keyIds[..n + 1] == keyIds[..n] + [dst];
        var senders := FindBadFor(shares, comms, dst);
        if senders.None? {
          assert dst in keyIds;
          return None;
        }
        found := found + senders.value;
      }
      assert keyIds[..|keyIds|] == keyIds;
      bad := Some(found);
    }

    /** The senders of bad shares for one key. */
    method FindBadFor(shares: PrivateShares, comms: Commitments, dst: u32) returns (bad: Option<seq<u32>>)
      requires s.q > 1
      ensures bad.Some? <==> forall i :: !CheckFails(s, shares, comms, dst, i)
      ensures bad.Some? ==> forall i :: i in bad.value <==> BadShare(s, shares, comms, dst, i)
    {
      hide Poly, PolyFails, Suite.Times;
      if dst !in shares {
        return Some([]);
      }
      var found: seq<u32> := [];
      var todo := shares[dst].Keys;
      while todo != {}
        invariant todo <= shares[dst].Keys
        invariant forall i :: i in shares[dst] && i !in todo ==> !CheckFails(s, shares, comms, dst, i)
        invariant forall i :: i in found <==> i !in todo && BadShare(s, shares, comms, dst, i)
        decreases |todo|
      {
        var src :| src in todo;
        todo := todo - {src};
        if src in comms {
          var expected := ComputePoly(s, dst, comms[src].poly);
          if expected.None? {
            assert CheckFails(s, shares, comms, dst, src);
            return None;
          }
          if s.Times(shares[dst][src], G) != expected.value {
            found := found + [src];
          }
        }
      }
      bad := Some(found);
    }

    /** Sum of all shares received for one key, whoever sent them. */
    method SumOfShares(shares: map<u32, int>) returns (sum: int)
      requires s.q > 0x1_0000_0000
      ensures sum == Mod(s.q, MapSum(s.q, shares))
    {
      sum := 0;
      var todo := shares.Keys;
      ghost var done: map<u32, int> := map[];
      SumEmpty(s.q);
      while todo != {}
        invariant todo <= shares.Keys && done == map i | i in shares && i !in todo :: shares[i]
        invariant sum == Mod(s.q, MapSum(s.q, done))
        decreases |todo|
      {
        var i :| i in todo;
        todo := todo - {i};
        SumInsert(done, i, shares[i], s.q);
        ModAdd(s.q, MapSum(s.q, done), shares[i]);
        sum := Mod(s.q, sum + shares[i]);
        done := done[i := shares[i]];
      }
      assert done == shares;
    }

    /** `compute_secret` */
    method ComputeSecret(shares: PrivateShares, comms: Commitments) returns (r: Result<(), DkgError>)
      requires s.q > 0x1_0000_0000
      modifies this`privateKeys, this`groupKey
      ensures r.Ok? <==>
              && (forall i :: i in comms ==> |comms[i].poly| == threshold && Owns(s, comms[i].id, comms[i].poly[0]))
              && (forall k :: k in keyIds ==> HasAllShares(shares, comms, k))
              && (forall k, i :: k in keyIds ==> !CheckFails(s, shares, comms, k, i))
              && (forall k, i :: k in keyIds ==> !BadShare(s, shares, comms, k, i))
      ensures r.Err? ==> privateKeys == map[] && ReportsWhy(s, threshold, keyIds, shares, comms, r.error)
      ensures groupKey == GroupKey(s, GoodOnes(s, comms, threshold))
      ensures r.Ok? ==> groupKey == GroupKey(s, comms)
      ensures r.Ok? ==> forall k :: k in privateKeys <==> k in keyIds
      ensures r.Ok? ==> forall k :: k in keyIds ==>
                privateKeys[k] == if k in shares then Mod(s.q, MapSum(s.q, shares[k])) else 0
    {
      hide CheckFails, BadShare, MapSum, GroupKey, GoodOnes, Owns;
      privateKeys := map[];
      var badIds := CheckCommitments(comms);
      if badIds != [] {
        assert badIds[0] in badIds;
        return Err(BadPublicShares(badIds));
      }
      assert forall i :: i in comms ==> |comms[i].poly| == threshold && Owns(s, comms[i].id, comms[i].poly[0]);
      var missing := FindMissing(shares, comms);
      if missing != [] {
        return Err(MissingPrivateShares(missing));
      }
      var bad := FindBad(shares, comms);
      if bad.None? {
        return Err(PointFailed);
      }
      if bad.value != [] {
        assert bad.value[0] in bad.value;
        return Err(BadPrivateShares(bad.value));
      }
      forall k, i | k in keyIds ensures !BadShare(s, shares, comms, k, i) {
        assert i !in bad.value;
      }
      for n := 0 to |keyIds|
        invariant groupKey == GroupKey(s, GoodOnes(s, comms, threshold))
        invariant forall k :: k in privateKeys <==> k in keyIds[..n]
        invariant forall k :: k in privateKeys ==>
                    privateKeys[k] == if k in shares then Mod(s.q, MapSum(s.q, shares[k])) else 0
      {
        var k := keyIds[n];
        assert keyIds[..n + 1] == keyIds[..n] + [k];
        privateKeys := privateKeys[k := 0];
        if k in shares {
          var secret := SumOfShares(shares[k]);
          privateKeys := privateKeys[k := secret];
        }
      }
      assert keyIds[..|keyIds|] == keyIds;
      r := Ok(());
    }

    /** `compute_secrets`: regroup what each sender sent by destination key first; an error is
        filed under this party. */
    method ComputeSecrets(sent: map<u32, map<u32, int>>, comms: Commitments)
      returns (r: Result<(), map<u32, DkgError>>)
      requires s.q > 0x1_0000_0000
      modifies this`privateKeys, this`groupKey
      ensures var shares := ByKey(sent, keyIds);
              && (r.Ok? <==>
                  && (forall i :: i in comms ==> |comms[i].poly| == threshold && Owns(s, comms[i].id, comms[i].poly[0]))
                  && (forall k :: k in keyIds ==> HasAllShares(shares, comms, k))
                  && (forall k, i :: k in keyIds ==> !CheckFails(s, shares, comms, k, i))
                  && (forall k, i :: k in keyIds ==> !BadShare(s, shares, comms, k, i)))
              && (r.Err? ==> privateKeys == map[] && r.error.Keys == {partyId}
                             && ReportsWhy(s, threshold, keyIds, shares, comms, r.error[partyId]))
              && (r.Ok? ==> groupKey == GroupKey(s, comms))
              && (r.Ok? ==> forall k :: k in keyIds ==>
                    k in privateKeys && privateKeys[k] == Mod(s.q, MapSum(s.q, shares[k])))
    {
      var secret := ComputeSecret(ByKey(sent, keyIds), comms);
      r := if secret.Ok? then Ok(()) else Err(map[partyId := secret.error]);
    }

    /** `sign_with_tweak`: the nonce is consumed, so it signs at most once. */
    method SignWithTweak(msg: Bytes, partyIds: seq<u32>, allKeyIds: seq<u32>, nonces: seq<PublicNonce>,
                         tweak: Option<int>)
      returns (r: Result<SignatureShare, AggregatorError>)
      requires s.q > 1
      requires nonce.Some? ==> forall k :: k in keyIds ==> k in privateKeys
      requires nonce.Some? && tweak.Some? && tweak.value != 0 ==> s.LiftX(s.X(groupKey)).Some?
      modifies this`nonce
      ensures nonce == None
      ensures old(nonce).None? ==> r == Err(MissingNonce)
      ensures old(nonce).Some? ==>
                var R := SumPoints(s, BoundNonces(s, msg, partyIds, nonces));
                var c := s.Challenge(SigningKey(s, groupKey, tweak), R, msg);
                r == Ok(SignatureShare(partyId,
                        ShareScalar(s, groupKey, R, tweak, Binding(s, partyId, nonces, msg), old(nonce).value.d,
                                    old(nonce).value.e, KeySum(s, c, allKeyIds, keyIds, privateKeys)), keyIds))
    {
      if nonce.None? {
        return Err(MissingNonce);
      }
      var n := nonce.value;
      nonce := None;
      var tweakedKey, cxSign := ParityAdjustment(tweak);
      var _, R := Intermediate(s, msg, partyIds, nonces);
      hide KeySign, SigningKey, Suite.Challenge, KeySum, ShareScalar, Binding, BoundNonces, SumPoints;
      var c := s.Challenge(tweakedKey, R, msg);
      var rho := ComputeBinding(s, partyId, nonces, msg);
      var cx := KeyShare(c, allKeyIds);
      var z := Respond(n, rho, R, tweak, cxSign, cx);
      r := Ok(SignatureShare(partyId, z, keyIds));
    }

    /** The key to sign for, and the factor on this party's key term. */
    method ParityAdjustment(tweak: Option<int>) returns (key: Point, cxSign: int)
      requires s.q > 1 && (tweak.Some? && tweak.value != 0 ==> s.LiftX(s.X(groupKey)).Some?)
      ensures key == SigningKey(s, groupKey, tweak) && cxSign == KeySign(s, groupKey, tweak)
    {
      cxSign := 1;
      key := groupKey;
      if tweak.Some? {
        if tweak.value != 0 {
          key := s.TweakedPublicKey(groupKey, tweak.value);
          if s.HasEvenY(key) != s.HasEvenY(groupKey) { cxSign := s.Neg(1); }
        } else if !s.HasEvenY(groupKey) {
          cxSign := s.Neg(1);
        }
      }
    }

    /** The share: nonce part, negated for odd R, plus the signed key part. */
    method Respond(n: Nonce, rho: int, R: Point, tweak: Option<int>, cxSign: int, cx: int) returns (z: int)
      requires s.q > 1 && (tweak.Some? && tweak.value != 0 ==> s.LiftX(s.X(groupKey)).Some?)
      requires cxSign == KeySign(s, groupKey, tweak)
      ensures z == ShareScalar(s, groupKey, R, tweak, rho, n.d, n.e, cx)
    {
      var r := Mod(s.q, n.d + n.e * rho);
      if tweak.Some? && !s.HasEvenY(R) { r := s.Neg(r); }
      z := Mod(s.q, r + Mod(s.q, cxSign * cx));
    }

    method KeyShare(c: int, allKeyIds: seq<u32>) returns (cx: int)
      requires s.q > 1 && forall k :: k in keyIds ==> k in privateKeys
      ensures cx == KeySum(s, c, allKeyIds, keyIds, privateKeys)
    {
      cx := 0;
      for n := 0 to |keyIds|
        invariant forall k :: k in keyIds[..n] ==> k in privateKeys
        invariant cx == KeySum(s, c, allKeyIds, keyIds[..n], privateKeys)
      {
        assert keyIds[..n + 1][..n] == keyIds[..n];
        assert keyIds[n] in keyIds;
        var lambda := ComputeLambda(s.q, keyIds[n], allKeyIds);
        cx := Mod(s.q, cx + c * privateKeys[keyIds[n]] * lambda);
      }
      assert keyIds[..|keyIds|] == keyIds;
    }
  }

  lemma MissingNone(shares: PrivateShares, comms: Commitments, keyIds: seq<u32>, missing: seq<(u32, u32)>)
    requires forall k: u32, i: u32 :: (k, i) in missing <==> k in keyIds && Missing(shares, comms, k, i)
    ensures missing == [] <==> forall k :: k in keyIds ==> HasAllShares(shares, comms, k)
  {
    if missing == [] {
      forall k | k in keyIds ensures HasAllShares(shares, comms, k) {
        forall i | i in comms ensures k in shares && i in shares[k] {
          assert (k, i) !in missing;
        }
      }
    } else {
      var (k, i) := missing[0];
      assert (k, i) in missing;
      assert !HasAllShares(shares, comms, k);
    }
  }

  lemma ModAdd(q: int, a: int, b: int)
    requires q > 0
    ensures Mod(q, Mod(q, a) + b) == Mod(q, a + b)
  {
    CongMod(q, a);
    CongAdd(q, Mod(q, a), a, b, b);
  }

  lemma EmptyGroupKey(s: Suite)
    requires s.q > 1
    ensures GroupKey(s, map[]) == Point(0)
  {
    assert ConstantTerms(map[]) == map[];
    SumEmpty(s.q);
  }

  lemma GroupKeyInsert(s: Suite, comms: Commitments, i: u32, c: PolyCommitment)
    requires s.q > 0x1_0000_0000 && i !in comms
    ensures GroupKey(s, comms[i := c]) == s.Plus(GroupKey(s, comms), c.poly[0])
  {
    assert ConstantTerms(comms[i := c]) == ConstantTerms(comms)[i := c.poly[0].k];
    SumInsert(ConstantTerms(comms), i, c.poly[0].k, s.q);
    ModAdd(s.q, MapSum(s.q, ConstantTerms(comms)), c.poly[0].k);
  }

  lemma EmptyGroupPoly(s: Suite, threshold: nat)
    requires s.q > 1
    ensures forall j :: 0 <= j < threshold ==> GroupPoly(s, map[], threshold)[j] == Point(0)
  {
    SumEmpty(s.q);
    forall j | 0 <= j < threshold
      ensures GroupPoly(s, map[], threshold)[j] == Point(0)
    {
      assert Column(CommitmentLogs(map[]), j) == map[];
      assert Logs(GroupPoly(s, map[], threshold))[j] == Mod(s.q, 0);
    }
  }

  lemma GroupPolyInsert(s: Suite, comms: Commitments, i: u32, c: PolyCommitment, threshold: nat, j: nat)
    requires s.q > 0x1_0000_0000 && i !in comms && AllDegrees(comms, threshold) && |c.poly| == threshold
    requires j < threshold
    ensures GroupPoly(s, comms[i := c], threshold)[j] == s.Plus(GroupPoly(s, comms, threshold)[j], c.poly[j])
  {
    var before, after := Column(CommitmentLogs(comms), j), Column(CommitmentLogs(comms[i := c]), j);
    assert after == before[i := c.poly[j].k];
    SumInsert(before, i, c.poly[j].k, s.q);
    ModAdd(s.q, MapSum(s.q, before), c.poly[j].k);
    assert Logs(GroupPoly(s, comms, threshold))[j] == Mod(s.q, MapSum(s.q, before));
    assert Logs(GroupPoly(s, comms[i := c], threshold))[j] == Mod(s.q, MapSum(s.q, after));
  }

  function PointwiseSum(s: Suite, a: seq<Point>, b: seq<Point>): (r: seq<Point>)
    requires s.q > 1 && |a| == |b|
    ensures |r| == |a| && forall j :: 0 <= j < |a| ==> r[j] == s.Plus(a[j], b[j])
  {
    seq(|a|, j requires 0 <= j < |a| => s.Plus(a[j], b[j]))
  }

  lemma AddCoefficients(s: Suite, comms: Commitments, i: u32, c: PolyCommitment, threshold: nat)
    requires s.q > 0x1_0000_0000 && i !in comms && AllDegrees(comms, threshold) && |c.poly| == threshold
    ensures AllDegrees(comms[i := c], threshold)
    ensures GroupPoly(s, comms[i := c], threshold) == PointwiseSum(s, GroupPoly(s, comms, threshold), c.poly)
  {
    forall j: nat | j < threshold
      ensures GroupPoly(s, comms[i := c], threshold)[j] == PointwiseSum(s, GroupPoly(s, comms, threshold), c.poly)[j]
    {
      GroupPolyInsert(s, comms, i, c, threshold, j);
    }
  }

  lemma NoDegrees(threshold: nat)
    ensures AllDegrees(map[], threshold)
  {}

  lemma WrongDegree(comms: Commitments, i: u32, threshold: nat)
    requires i in comms && |comms[i].poly| != threshold
    ensures !AllDegrees(comms, threshold)
  {}

  /** The ids of the shares that fail the test, in order. */
  ghost function FailingIds(s: Suite, f: seq<Point>, bound: seq<Point>, R: Point, keyIds: seq<u32>, tweak: Option<int>,
                            msg: Bytes, shares: seq<SignatureShare>): (r: seq<u32>)
    requires s.q > 1 && f != [] && (tweak.Some? && tweak.value != 0 ==> s.LiftX(s.X(f[0])).Some?)
    requires |bound| == |shares|
    ensures r == [] <==> SharesPass(s, f, bound, R, keyIds, tweak, msg, shares)
    decreases |shares|
  {
    if shares == [] then []
    else
      var n := |shares| - 1;
      var rest := FailingIds(s, f, bound[..n], R, keyIds, tweak, msg, shares[..n]);
      assert SharesPass(s, f, bound, R, keyIds, tweak, msg, shares) <==>
             SharesPass(s, f, bound[..n], R, keyIds, tweak, msg, shares[..n])
             && SharePasses(s, f, bound[n], R, keyIds, tweak, msg, shares[n]) by {
        hide SharePasses;
      }
      if SharePasses(s, f, bound[n], R, keyIds, tweak, msg, shares[n]) then rest else rest + [shares[n].id]
  }

  lemma FailingNone(s: Suite, f: seq<Point>, R: Point, keyIds: seq<u32>, tweak: Option<int>, msg: Bytes)
    requires s.q > 1 && f != [] && (tweak.Some? && tweak.value != 0 ==> s.LiftX(s.X(f[0])).Some?)
    ensures FailingIds(s, f, [], R, keyIds, tweak, msg, []) == []
  {
  }

  lemma FailingNext(s: Suite, f: seq<Point>, bound: seq<Point>, R: Point, keyIds: seq<u32>, tweak: Option<int>,
                    msg: Bytes, shares: seq<SignatureShare>, n: nat)
    requires s.q > 1 && f != [] && (tweak.Some? && tweak.value != 0 ==> s.LiftX(s.X(f[0])).Some?)
    requires |bound| == |shares| && n < |shares|
    ensures FailingIds(s, f, bound[..n + 1], R, keyIds, tweak, msg, shares[..n + 1])
         == FailingIds(s, f, bound[..n], R, keyIds, tweak, msg, shares[..n])
            + if SharePasses(s, f, bound[n], R, keyIds, tweak, msg, shares[n]) then [] else [shares[n].id]
  {
    hide SharePasses, SharesPass;
    assert shares[..n + 1][..n] == shares[..n] && bound[..n + 1][..n] == bound[..n];
  }

  /** The id of a share, once for every key whose public key cannot be computed. */
  ghost function FailedOf(s: Suite, f: seq<Point>, id: u32, own: seq<u32>): seq<u32>
    requires s.q > 1
  {
    if own == [] then []
    else
      var n := |own| - 1;
      FailedOf(s, f, id, own[..n]) + if PolyFails(s, own[n], f) then [id] else []
  }

  ghost function FailedKeys(s: Suite, f: seq<Point>, shares: seq<SignatureShare>): seq<u32>
    requires s.q > 1
  {
    if shares == [] then []
    else
      var n := |shares| - 1;
      FailedKeys(s, f, shares[..n]) + FailedOf(s, f, shares[n].id, shares[n].keyIds)
  }

  /** Why an aggregate is refused: keys that could not be computed, shares that fail, or else the
      signature as a whole. */
  function Blame(failedKeys: seq<u32>, failing: seq<u32>): AggregatorError {
    if failedKeys != [] then BadPartyKeys(failedKeys)
    else if failing != [] then BadPartySigs(failing)
    else BadGroupSig
  }

  /** What an aggregate is refused for: every share with a key whose public key cannot be computed;
      if there is none, every share that fails its test; if there is none either, the signature
      as a whole. */
  ghost predicate Blames(s: Suite, f: seq<Point>, bound: seq<Point>, keyIds: seq<u32>, tweak: Option<int>, msg: Bytes,
                         shares: seq<SignatureShare>, e: AggregatorError)
    requires s.q > 1 && f != [] && (tweak.Some? && tweak.value != 0 ==> s.LiftX(s.X(f[0])).Some?)
    requires |bound| == |shares|
  {
    var R := SumPoints(s, bound);
    var noKeyFails := forall n :: 0 <= n < |shares| ==> !KeyFails(s, f, shares[n]);
    match e
    case BadPartyKeys(ids) =>
      && ids != []
      && forall id :: id in ids <==> exists n :: 0 <= n < |shares| && shares[n].id == id && KeyFails(s, f, shares[n])
    case BadPartySigs(ids) =>
      && noKeyFails && ids != []
      && forall id :: id in ids <==>
           exists n :: 0 <= n < |shares| && shares[n].id == id
                    && !SharePasses(s, f, bound[n], R, keyIds, tweak, msg, shares[n])
    case BadGroupSig =>
      && noKeyFails
      && forall n :: 0 <= n < |shares| ==> SharePasses(s, f, bound[n], R, keyIds, tweak, msg, shares[n])
    case _ => false
  }

  /** The public key of some key of this share cannot be computed. */
  ghost predicate KeyFails(s: Suite, f: seq<Point>, share: SignatureShare)
    requires s.q > 1
  {
    exists k :: k in share.keyIds && PolyFails(s, k, f)
  }

  lemma {:induction false} FailedOfExactly(s: Suite, f: seq<Point>, id: u32, own: seq<u32>)
    requires s.q > 1
    ensures forall x :: x in FailedOf(s, f, id, own) <==> x == id && exists k :: k in own && PolyFails(s, k, f)
  {
    hide PolyFails;
    if own != [] {
      var n := |own| - 1;
      FailedOfExactly(s, f, id, own[..n]);
      assert own == own[..n] + [own[n]];
    }
  }

  lemma {:induction false} FailedKeysExactly(s: Suite, f: seq<Point>, shares: seq<SignatureShare>)
    requires s.q > 1
    ensures forall id :: id in FailedKeys(s, f, shares) <==>
              exists n :: 0 <= n < |shares| && shares[n].id == id && KeyFails(s, f, shares[n])
  {
    hide FailedOf, PolyFails;
    if shares != [] {
      var n := |shares| - 1;
      FailedKeysExactly(s, f, shares[..n]);
      FailedOfExactly(s, f, shares[n].id, shares[n].keyIds);
      forall id ensures id in FailedKeys(s, f, shares) <==>
                        exists n :: 0 <= n < |shares| && shares[n].id == id && KeyFails(s, f, shares[n])
      {
        if id in FailedOf(s, f, shares[n].id, shares[n].keyIds) {
          assert shares[n].id == id && KeyFails(s, f, shares[n]);
        } else if id in FailedKeys(s, f, shares[..n]) {
          var m :| 0 <= m < n && shares[..n][m].id == id && KeyFails(s, f, shares[..n][m]);
          assert shares[m].id == id && KeyFails(s, f, shares[m]);
        } else {
          forall m | 0 <= m < |shares| && shares[m].id == id ensures !KeyFails(s, f, shares[m]) {
            assert m < n ==> shares[..n][m] == shares[m];
          }
        }
      }
    }
  }

  lemma {:induction false} FailingIdsExactly(s: Suite, f: seq<Point>, bound: seq<Point>, R: Point, keyIds: seq<u32>,
                                             tweak: Option<int>, msg: Bytes, shares: seq<SignatureShare>)
    requires s.q > 1 && f != [] && (tweak.Some? && tweak.value != 0 ==> s.LiftX(s.X(f[0])).Some?)
    requires |bound| == |shares|
    ensures forall id :: id in FailingIds(s, f, bound, R, keyIds, tweak, msg, shares) <==>
              exists n :: 0 <= n < |shares| && shares[n].id == id
                       && !SharePasses(s, f, bound[n], R, keyIds, tweak, msg, shares[n])
    decreases |shares|
  {
    hide SharePasses, SharesPass;
    if shares != [] {
      var n := |shares| - 1;
      FailingIdsExactly(s, f, bound[..n], R, keyIds, tweak, msg, shares[..n]);
      var rest := FailingIds(s, f, bound[..n], R, keyIds, tweak, msg, shares[..n]);
      forall id
        ensures id in FailingIds(s, f, bound, R, keyIds, tweak, msg, shares) <==>
                exists n :: 0 <= n < |shares| && shares[n].id == id
                         && !SharePasses(s, f, bound[n], R, keyIds, tweak, msg, shares[n])
      {
        if id in rest {
          var m :| 0 <= m < n && shares[..n][m].id == id
                && !SharePasses(s, f, bound[..n][m], R, keyIds, tweak, msg, shares[..n][m]);
          assert shares[m].id == id && !SharePasses(s, f, bound[m], R, keyIds, tweak, msg, shares[m]);
        } else {
          forall m | 0 <= m < n && shares[m].id == id
            ensures SharePasses(s, f, bound[m], R, keyIds, tweak, msg, shares[m])
          {
            assert shares[..n][m] == shares[m] && bound[..n][m] == bound[m];
          }
        }
      }
    }
  }

  lemma {:induction false} BlameExactly(s: Suite, f: seq<Point>, bound: seq<Point>, keyIds: seq<u32>,
                                        tweak: Option<int>, msg: Bytes, shares: seq<SignatureShare>)
    requires s.q > 1 && f != [] && (tweak.Some? && tweak.value != 0 ==> s.LiftX(s.X(f[0])).Some?)
    requires |bound| == |shares|
    ensures var failing := FailingIds(s, f, bound, SumPoints(s, bound), keyIds, tweak, msg, shares);
            Blames(s, f, bound, keyIds, tweak, msg, shares, Blame(FailedKeys(s, f, shares), failing))
  {
    hide FailingIds, FailedKeys, SharePasses, KeyFails, SumPoints;
    FailedKeysExactly(s, f, shares);
    FailingIdsExactly(s, f, bound, SumPoints(s, bound), keyIds, tweak, msg, shares);
    var failed := FailedKeys(s, f, shares);
    var failing := FailingIds(s, f, bound, SumPoints(s, bound), keyIds, tweak, msg, shares);
    if failed != [] {
      assert failed[0] in failed;
    } else {
      forall n | 0 <= n < |shares| ensures !KeyFails(s, f, shares[n]) {
        assert shares[n].id !in failed;
      }
      if failing != [] {
        assert failing[0] in failing;
      } else {
        forall n | 0 <= n < |shares|
          ensures SharePasses(s, f, bound[n], SumPoints(s, bound), keyIds, tweak, msg, shares[n])
        {
          assert shares[n].id !in failing;
        }
      }
    }
  }

  ghost function Ids(shares: seq<SignatureShare>): (r: seq<u32>)
    ensures |r| == |shares| && forall i :: 0 <= i < |r| ==> r[i] == shares[i].id
  {
    seq(|shares|, i requires 0 <= i < |shares| => shares[i].id)
  }

  /** Everything the aggregator combines: the nonce commitments and their sum. */
  ghost function RoundNonces(s: Suite, msg: Bytes, nonces: seq<PublicNonce>, shares: seq<SignatureShare>): seq<Point>
    requires s.q > 1
  {
    BoundNonces(s, msg, Ids(shares), nonces)
  }

  /** Enough distinct keys, each contributed by exactly one share. */
  ghost predicate Quorum(f: seq<Point>, keyIds: seq<u32>, shares: seq<SignatureShare>) {
    Distinct(keyIds) && multiset(AllKeyIds(shares)) == multiset(keyIds) && |f| <= |keyIds|
  }

  class Aggregator {
    const s: Suite
    const threshold: nat
    var poly: Option<seq<Point>>

    ghost predicate Valid()
      reads this
    {
      && s.Valid()
      && (poly.Some? ==> poly.value != [] && forall P :: P in poly.value ==> s.IsPoint(P))
    }

    constructor (s: Suite, threshold: nat)
      requires s.Valid()
      ensures Valid() && this.s == s && this.threshold == threshold && poly == None
    {
      this.s, this.threshold := s, threshold;
      poly := None;
    }

    /** `init`: add the committed polynomials up, whatever order the map yields them in. */
    method Init(comms: Commitments) returns (r: Result<(), AggregatorError>)
      requires Valid()
      modifies this`poly
      ensures Valid()
      ensures r.Ok? <==> AllDegrees(comms, threshold) && threshold > 0
      ensures r.Ok? ==> poly == Some(GroupPoly(s, comms, threshold))
      ensures r.Err? ==> poly == old(poly)
      ensures r.Err? && AllDegrees(comms, threshold) ==> r.error == InvalidPolynomial
      ensures r.Err? && !AllDegrees(comms, threshold) ==>
                exists i :: i in comms && |comms[i].poly| != threshold
                         && r.error == BadPolynomialDegree(threshold, |comms[i].poly|)
    {
      hide GroupPoly, Suite.Plus, AllDegrees;
      var coefficients := seq(threshold, _ => Point(0));
      var todo := comms.Keys;
      ghost var done: Commitments := map[];
      NoDegrees(threshold);
      EmptyGroupPoly(s, threshold);
      assert coefficients == GroupPoly(s, done, threshold);
      while todo != {}
        invariant todo <= comms.Keys && done == map i | i in comms && i !in todo :: comms[i]
        invariant AllDegrees(done, threshold) && coefficients == GroupPoly(s, done, threshold)
        invariant poly == old(poly)
        decreases |todo|
      {
        var i :| i in todo;
        todo := todo - {i};
        var c := comms[i];
        if |c.poly| != threshold {
          WrongDegree(comms, i, threshold);
          return Err(BadPolynomialDegree(threshold, |c.poly|));
        }
        AddCoefficients(s, done, i, c, threshold);
        coefficients := PointwiseSum(s, coefficients, c.poly);
        done := done[i := c];
      }
      assert done == comms;
      if coefficients == [] {
        return Err(InvalidPolynomial);
      }
      poly := Some(coefficients);
      assert forall P :: P in coefficients ==> exists j :: 0 <= j < threshold && coefficients[j] == P;
      r := Ok(());
    }

    /** `sign_with_tweak`: sum of the shares plus the tweak term, nothing checked. */
    method SignWithTweak(msg: Bytes, nonces: seq<PublicNonce>, shares: seq<SignatureShare>, tweak: Option<int>)
      returns (r: Result<(Point, Signature), AggregatorError>)
      requires Valid()
      requires poly.Some? && tweak.Some? && tweak.value != 0 ==> s.LiftX(s.X(poly.value[0])).Some?
      ensures |nonces| != |shares| ==> r == Err(BadNonceLen(|nonces|, |shares|))
      ensures |nonces| == |shares| && poly.None? ==> r == Err(NotInitialized)
      ensures |nonces| == |shares| && poly.Some? ==>
                && r.Ok?
                && var (key, sig) := r.value;
                && key == SigningKey(s, poly.value[0], tweak)
                && sig.R == SumPoints(s, RoundNonces(s, msg, nonces, shares))
                && Cong(s.q, sig.z,
                        SumShares(shares) + TweakTerm(s, poly.value[0], tweak, s.Challenge(key, sig.R, msg)))
    {
      hide Cong, TweakTerm, SigningKey, Suite.Challenge, SumPoints;
      if |nonces| != |shares| {
        return Err(BadNonceLen(|nonces|, |shares|));
      }
      var ids := seq(|shares|, i requires 0 <= i < |shares| => shares[i].id);
      var _, R := Intermediate(s, msg, ids, nonces);
      if poly.None? {
        return Err(NotInitialized);
      }
      var key := SigningKey(s, poly.value[0], tweak);
      var z := SumOf(shares);
      z := AddTweak(poly.value[0], tweak, s.Challenge(key, R, msg), z, SumShares(shares));
      assert ids == Ids(shares);
      r := Ok((key, Signature(R, z)));
    }

    /** The tweak term, negated when the tweaked key is odd. */
    method AddTweak(groupKey: Point, tweak: Option<int>, c: int, sum: int, ghost total: int) returns (z: int)
      requires Valid() && Cong(s.q, sum, total)
      requires tweak.Some? && tweak.value != 0 ==> s.LiftX(s.X(groupKey)).Some?
      ensures Cong(s.q, z, total + TweakTerm(s, groupKey, tweak, c))
    {
      hide Cong, Suite.TweakedPublicKey;
      z := sum;
      if tweak.Some? {
        var sign := 1;
        if tweak.value != 0 && !s.HasEvenY(s.TweakedPublicKey(groupKey, tweak.value)) { sign := s.Neg(1); }
        var term := sign * c * tweak.value;
        assert term == TweakTerm(s, groupKey, tweak, c);
        CongRefl(s.q, term);
        CongAdd(s.q, sum, total, term, term);
        CongMod(s.q, sum + term);
        CongTrans(s.q, Mod(s.q, sum + term), sum + term, total + term);
        z := Mod(s.q, sum + term);
      }
    }

    method SumOf(shares: seq<SignatureShare>) returns (z: int)
      requires Valid()
      ensures Cong(s.q, z, SumShares(shares))
    {
      z := 0;
      for n := 0 to |shares|
        invariant Cong(s.q, z, SumShares(shares[..n]))
      {
        assert shares[..n + 1][..n] == shares[..n];
        CongAdd(s.q, z, SumShares(shares[..n]), shares[n].z, shares[n].z);
        CongMod(s.q, z + shares[n].z);
        z := Mod(s.q, z + shares[n].z);
      }
      assert shares[..|shares|] == shares;
    }

    /** `check_signature_shares`: blame exactly the shares that fail the test. */
    method CheckSignatureShares(msg: Bytes, nonces: seq<PublicNonce>, shares: seq<SignatureShare>, keyIds: seq<u32>,
                                tweak: Option<int>) returns (e: AggregatorError)
      requires Valid()
      requires poly.Some? && tweak.Some? && tweak.value != 0 ==> s.LiftX(s.X(poly.value[0])).Some?
      ensures |nonces| != |shares| ==> e == BadNonceLen(|nonces|, |shares|)
      ensures |nonces| == |shares| && poly.None? ==> e == NotInitialized
      ensures |nonces| == |shares| && poly.Some? ==>
                Blames(s, poly.value, RoundNonces(s, msg, nonces, shares), keyIds, tweak, msg, shares, e)
    {
      hide Blames, SumPoints, FailingIds, FailedKeys, BoundNonces;
      if |nonces| != |shares| {
        return BadNonceLen(|nonces|, |shares|);
      }
      if poly.None? {
        return NotInitialized;
      }
      var ids := seq(|shares|, i requires 0 <= i < |shares| => shares[i].id);
      assert ids == Ids(shares);
      var bound, R := Intermediate(s, msg, ids, nonces);
      var badKeys, bad := CheckAll(poly.value, bound, R, keyIds, tweak, msg, shares);
      e := if badKeys != [] then BadPartyKeys(badKeys) else if bad != [] then BadPartySigs(bad) else BadGroupSig;
      BlameExactly(s, poly.value, bound, keyIds, tweak, msg, shares);
    }

    /** The loop over the shares: ids for keys that cannot be computed, ids of failing shares. */
    method CheckAll(f: seq<Point>, bound: seq<Point>, R: Point, keyIds: seq<u32>, tweak: Option<int>, msg: Bytes,
                    shares: seq<SignatureShare>) returns (badKeys: seq<u32>, bad: seq<u32>)
      requires s.q > 1 && f != [] && |bound| == |shares|
      requires tweak.Some? && tweak.value != 0 ==> s.LiftX(s.X(f[0])).Some?
      ensures badKeys == FailedKeys(s, f, shares)
      ensures badKeys == [] ==> bad == FailingIds(s, f, bound, R, keyIds, tweak, msg, shares)
    {
      var key := SigningKey(s, f[0], tweak);
      var c := s.Challenge(key, R, msg);
      var rSign, cxSign := NonceSign(s, R, tweak), KeySign(s, f[0], tweak);
      badKeys, bad := [], [];
      hide Suite.Challenge, SigningKey, NonceSign, KeySign, CheckSum, FailingIds, FailedOf, Suite.Times, Suite.Plus;
      FailingNone(s, f, R, keyIds, tweak, msg);
      for n := 0 to |shares|
        invariant badKeys == FailedKeys(s, f, shares[..n])
        invariant badKeys == [] ==> bad == FailingIds(s, f, bound[..n], R, keyIds, tweak, msg, shares[..n])
      {
        var passes, failed := CheckShare(f, c, rSign, cxSign, bound[n], keyIds, shares[n]);
        FailingNext(s, f, bound, R, keyIds, tweak, msg, shares, n);
        assert shares[..n + 1][..n] == shares[..n];
        badKeys := badKeys + failed;
        if !passes {
          bad := bad + [shares[n].id];
        }
      }
      assert shares[..|shares|] == shares && bound[..|shares|] == bound;
    }

    /** The test of one share, and its id for every key that could not be computed. */
    method CheckShare(f: seq<Point>, c: int, rSign: int, cxSign: int, bound: Point, keyIds: seq<u32>,
                      share: SignatureShare) returns (passes: bool, failed: seq<u32>)
      requires s.q > 1
      ensures failed == FailedOf(s, f, share.id, share.keyIds)
      ensures failed == [] ==>
                (passes <==> s.Times(share.z, G) == s.Plus(s.Times(rSign, bound),
                                                           s.Times(cxSign, CheckSum(s, c, keyIds, share.keyIds, f))))
    {
      hide CheckSum, FailedOf, Suite.Times, Suite.Plus;
      var cx;
      cx, failed := ExpectedKeyPart(f, c, keyIds, share.id, share.keyIds);
      passes := s.Times(share.z, G) == s.Plus(s.Times(rSign, bound), s.Times(cxSign, cx));
    }

    /** What the key part of a share commits to; a public key that cannot be computed counts as
        the identity, and the share's id is noted. */
    method ExpectedKeyPart(f: seq<Point>, c: int, keyIds: seq<u32>, id: u32, own: seq<u32>)
      returns (cx: Point, failed: seq<u32>)
      requires s.q > 1
      ensures failed == FailedOf(s, f, id, own)
      ensures failed == [] ==> cx == CheckSum(s, c, keyIds, own, f)
    {
      hide PolyFails, Poly, Suite.Plus, Suite.Times;
      cx, failed := Point(0), [];
      for n := 0 to |own|
        invariant failed == FailedOf(s, f, id, own[..n])
        invariant failed == [] ==> cx == CheckSum(s, c, keyIds, own[..n], f)
      {
        assert own[..n + 1][..n] == own[..n];
        var publicKey := ComputePoly(s, own[n], f);
        if publicKey.None? {
          failed := failed + [id];
        }
        var key := if publicKey.Some? then publicKey.value else Point(0);
        var lambda := ComputeLambda(s.q, own[n], keyIds);
        cx := s.Plus(cx, s.Times(Mod(s.q, lambda * c), key));
      }
      assert own[..|own|] == own;
    }

    /** `sign`: a plain signature that verifies, or the reason why not. For a quorum of
        distinct keys the reason is never the signature as a whole. */
    method Sign(msg: Bytes, nonces: seq<PublicNonce>, shares: seq<SignatureShare>, keyIds: seq<u32>)
      returns (r: Result<Signature, AggregatorError>)
      requires Valid()
      ensures r.Ok? ==> poly.Some? && SignatureVerifies(s, r.value, poly.value[0], msg)
      ensures |nonces| == |shares| && poly.Some? && Quorum(poly.value, keyIds, shares) ==>
                var bound := RoundNonces(s, msg, nonces, shares);
                var pass := SharesPass(s, poly.value, bound, SumPoints(s, bound), keyIds, None, msg, shares);
                (pass ==> r.Ok?) && (r.Err? ==> Blames(s, poly.value, bound, keyIds, None, msg, shares, r.error))
    {
      hide SignatureVerifies, Cong, SumPoints, Suite.Challenge, Blames;
      var signed := SignWithTweak(msg, nonces, shares, None);
      if signed.Err? {
        return Err(signed.error);
      }
      var (key, sig) := signed.value;
      ghost var bound := RoundNonces(s, msg, nonces, shares);
      assert Quorum(poly.value, keyIds, shares)
             && SharesPass(s, poly.value, bound, sig.R, keyIds, None, msg, shares) ==>
             SignatureVerifies(s, sig, key, msg) by {
        if Quorum(poly.value, keyIds, shares) && SharesPass(s, poly.value, bound, sig.R, keyIds, None, msg, shares) {
          PassingSharesVerify(s, poly.value, bound, keyIds, None, msg, shares, sig.z);
        }
      }
      if SignatureVerifies(s, sig, key, msg) {
        r := Ok(sig);
      } else {
        var e := CheckSignatureShares(msg, nonces, shares, keyIds, None);
        r := Err(e);
      }
    }

    /** The BIP-340 forms: `sign_schnorr` with tweak zero, `sign_taproot` with the key's
        own tweak. The proof verifies under the signing key's x-coordinate. */
    method SignProof(msg: Bytes, nonces: seq<PublicNonce>, shares: seq<SignatureShare>, keyIds: seq<u32>, tweak: int)
      returns (r: Result<SchnorrProof, AggregatorError>)
      requires Valid()
      requires poly.Some? && tweak != 0 ==> s.LiftX(s.X(poly.value[0])).Some?
      ensures r.Ok? ==> poly.Some? && ProofVerifies(s, r.value, s.X(SigningKey(s, poly.value[0], Some(tweak))), msg)
      ensures |nonces| == |shares| && poly.Some? && Quorum(poly.value, keyIds, shares) ==>
                var bound := RoundNonces(s, msg, nonces, shares);
                var R, Q := SumPoints(s, bound), SigningKey(s, poly.value[0], Some(tweak));
                var pass := SharesPass(s, poly.value, bound, R, keyIds, Some(tweak), msg, shares);
                R.k != 0 && Q.k != 0 ==>
                  && (pass ==> r.Ok?)
                  && (r.Err? ==> Blames(s, poly.value, bound, keyIds, Some(tweak), msg, shares, r.error))
    {
      hide ProofVerifies, Cong, SumPoints, Suite.Challenge, SigningKey, Quorum, RoundNonces, SharesPass;
      hide TweakTerm, Blames;
      var signed := SignWithTweak(msg, nonces, shares, Some(tweak));
      if signed.Err? {
        return Err(signed.error);
      }
      var (key, sig) := signed.value;
      var proof := ToProof(s, sig);
      QuorumVerifies(s, poly.value, RoundNonces(s, msg, nonces, shares), keyIds, tweak, msg, shares, sig.z);
      if ProofVerifies(s, proof, s.X(key), msg) {
        r := Ok(proof);
      } else {
        var e := CheckSignatureShares(msg, nonces, shares, keyIds, Some(tweak));
        r := Err(e);
      }
    }
  }

  lemma {:induction false} QuorumVerifies(s: Suite, f: seq<Point>, bound: seq<Point>, keyIds: seq<u32>, tweak: int,
                                          msg: Bytes, shares: seq<SignatureShare>, z: int)
    requires s.Valid() && f != [] && (forall P :: P in f ==> s.IsPoint(P))
    requires tweak != 0 ==> s.LiftX(s.X(f[0])).Some?
    requires var c := s.Challenge(SigningKey(s, f[0], Some(tweak)), SumPoints(s, bound), msg);
             Cong(s.q, z, SumShares(shares) + TweakTerm(s, f[0], Some(tweak), c))
    ensures var R, Q := SumPoints(s, bound), SigningKey(s, f[0], Some(tweak));
            Quorum(f, keyIds, shares) && R.k != 0 && Q.k != 0
            && SharesPass(s, f, bound, R, keyIds, Some(tweak), msg, shares) ==>
              ProofVerifies(s, ToProof(s, Signature(R, z)), s.X(Q), msg)
  {
    hide ProofVerifies, Cong, SumPoints, SharesPass, Suite.Challenge, TweakTerm;
    if Quorum(f, keyIds, shares) && SigningKey(s, f[0], Some(tweak)).k != 0
       && SharesPass(s, f, bound, SumPoints(s, bound), keyIds, Some(tweak), msg, shares) {
      if tweak != 0 {
        LiftsNonZero(s, f[0]);
      }
      PassingSharesVerify(s, f, bound, keyIds, Some(tweak), msg, shares, z);
    }
  }

  lemma LiftsNonZero(s: Suite, P: Point)
    requires s.Valid() && s.LiftX(s.X(P)).Some?
    ensures P.k != 0
  {
  }
}
