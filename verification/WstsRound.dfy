/** Whole rounds: key generation followed by a taproot signature
    (wsts/src/taproot.rs, the `dkg` and `sign` helpers and `taproot_sign_verify_v2`). */
module WstsRound {
  import opened Basics
  import opened ModArith
  import opened Interpolation
  import opened Secp
  import opened Ownership
  import opened Sequences
  import opened Dkg
  import opened Signing
  import opened Wsts

  // ---------------------------------------------------------------------
  // Key generation
  // ---------------------------------------------------------------------

  /** Coefficients may be replaced by congruent ones. */
  lemma {:induction false} EvalCong(q: int, f: seq<int>, g: seq<int>, x: int)
    requires q > 1 && |f| == |g| && forall i :: 0 <= i < |f| ==> Cong(q, f[i], g[i])
    ensures Eval(q, f, x) == Eval(q, g, x)
  {
    if f != [] {
      EvalCong(q, f[1..], g[1..], x);
      CongAdd(q, f[0], g[0], x * Eval(q, f[1..], x), x * Eval(q, g[1..], x));
    }
  }

  /** What an honest party sends for a key lies on the polynomial it committed to, so no
      receiver blames it. */
  lemma HonestShareConsistent(s: Suite, f: seq<int>, key: u32)
    requires s.q > 1
    ensures s.Times(Eval(s.q, f, key), G) == Poly(s, key, CommitTo(s, f))
  {
    var q, logs := s.q, Logs(CommitTo(s, f));
    forall i | 0 <= i < |f|
      ensures Cong(q, f[i], logs[i])
    {
      TimesLog(s, f[i], G);
    }
    EvalCong(q, f, logs, key);
    ModUnique(q, Eval(q, f, key), 0, Eval(q, f, key));
  }

  /** A party whose key generation succeeded, with no share from outside the group,
      holds keys on the group polynomial and the group key. */
  lemma SecretsReady(s: Suite, shares: PrivateShares, comms: Commitments, threshold: nat, keyIds: seq<u32>,
                     keys: map<u32, int>)
    requires s.q > 0x1_0000_0000 && threshold > 0 && comms.Keys != {}
    requires AllDegrees(comms, threshold)
    requires forall k :: k in keyIds ==> HasAllShares(shares, comms, k)
    requires forall k, i :: k in keyIds ==> !BadShare(s, shares, comms, k, i)
    requires forall k :: k in keyIds && k in shares ==> shares[k].Keys <= comms.Keys
    requires forall k :: k in keyIds ==>
               k in keys && keys[k] == if k in shares then Mod(s.q, MapSum(s.q, shares[k])) else 0
    ensures KeysOnPolynomial(s, keyIds, keys, GroupPoly(s, comms, threshold))
    ensures GroupKey(s, comms) == GroupPoly(s, comms, threshold)[0]
  {
    GroupKeyIsConstantTerm(s, comms, threshold);
    var f := GroupPoly(s, comms, threshold);
    forall k | k in keyIds
      ensures k in keys && Cong(s.q, keys[k], Poly(s, k, f).k)
    {
      var i :| i in comms.Keys;
      assert HasAllShares(shares, comms, k);
      assert forall j :: j in comms ==> !BadShare(s, shares, comms, k, j);
      SecretOnGroupPolynomial(s, shares[k], comms, threshold, k);
      assert Unknown(shares[k], comms) == map[];
      assert MapSum(s.q, shares[k]) * 1 == MapSum(s.q, shares[k]);
      assert s.Times(MapSum(s.q, shares[k]), G).k == keys[k];
    }
  }

  ghost predicate Fresh(p: Party, s: Suite, threshold: nat, numKeys: u32)
    reads p
  {
    && p.s == s && p.threshold == threshold && p.numKeys == numKeys
    && p.f.Some? && |p.f.value| == threshold
    && forall k :: k in p.keyIds ==> 1 <= k <= numKeys
  }

  ghost predicate DistinctIds(parties: seq<Party>) {
    forall i, j :: 0 <= i < j < |parties| ==> parties[i].partyId != parties[j].partyId
  }

  /** The commitment to `f`, with a proof that is accepted. */
  ghost predicate Honest(s: Suite, c: PolyCommitment, f: seq<int>)
    requires s.q > 1
  {
    c.poly == CommitTo(s, f) && Owns(s, c.id, c.poly[0])
  }

  /** The commitment and the shares of a sender with polynomial `f` were broadcast. */
  ghost predicate Sent(s: Suite, comms: Commitments, sent: map<u32, map<u32, int>>, id: u32, f: seq<int>, numKeys: u32)
    requires s.q > 1
  {
    && id in sent && id in comms && Honest(s, comms[id], f)
    && forall k :: 1 <= k <= numKeys ==> k in sent[id] && sent[id][k] == Eval(s.q, f, k)
  }

  /** Everyone's commitment, and everyone's shares by sender. */
  ghost predicate Broadcast(s: Suite, ids: seq<u32>, polys: seq<seq<int>>, threshold: nat, numKeys: u32,
                            comms: Commitments, sent: map<u32, map<u32, int>>)
    requires s.q > 1
  {
    && |ids| == |polys| && comms.Keys == sent.Keys
    && (forall i :: i in comms ==> i in ids)
    && forall j :: 0 <= j < |ids| ==> |polys[j]| == threshold && Sent(s, comms, sent, ids[j], polys[j], numKeys)
  }

  lemma BroadcastMore(s: Suite, ids: seq<u32>, polys: seq<seq<int>>, threshold: nat, numKeys: u32, comms: Commitments,
                      sent: map<u32, map<u32, int>>, id: u32, f: seq<int>, shares: map<u32, int>, c: PolyCommitment)
    requires s.q > 1 && threshold > 0 && Honest(s, c, f) && Broadcast(s, ids, polys, threshold, numKeys, comms, sent)
    requires id !in ids && |f| == threshold
    requires forall k :: 1 <= k <= numKeys ==> k in shares && shares[k] == Eval(s.q, f, k)
    ensures Broadcast(s, ids + [id], polys + [f], threshold, numKeys, comms[id := c], sent[id := shares])
  {
    hide Honest, Eval, Sent;
    var comms', sent' := comms[id := c], sent[id := shares];
    forall j | 0 <= j < |ids + [id]|
      ensures |(polys + [f])[j]| == threshold && Sent(s, comms', sent', (ids + [id])[j], (polys + [f])[j], numKeys)
    {
      if j < |ids| {
        SentKept(s, comms, sent, ids[j], polys[j], numKeys, id, shares, c);
      } else {
        SentNow(s, comms, sent, id, f, shares, numKeys, c);
      }
    }
    assert forall i :: i in comms' ==> i in ids + [id];
  }

  lemma SentKept(s: Suite, comms: Commitments, sent: map<u32, map<u32, int>>, old_: u32, g: seq<int>, numKeys: u32,
                 id: u32, shares: map<u32, int>, c: PolyCommitment)
    requires s.q > 1 && Sent(s, comms, sent, old_, g, numKeys) && id != old_
    ensures Sent(s, comms[id := c], sent[id := shares], old_, g, numKeys)
  {
    hide Honest, Eval;
  }

  lemma SentNow(s: Suite, comms: Commitments, sent: map<u32, map<u32, int>>, id: u32, f: seq<int>,
                shares: map<u32, int>, numKeys: u32, c: PolyCommitment)
    requires s.q > 1 && Honest(s, c, f)
    requires forall k :: 1 <= k <= numKeys ==> k in shares && shares[k] == Eval(s.q, f, k)
    ensures Sent(s, comms[id := c], sent[id := shares], id, f, numKeys)
  {
    hide Honest, Eval;
  }

  /** The secret polynomials. */
  ghost function Polys(parties: seq<Party>): (r: seq<seq<int>>)
    reads parties`f
    ensures |r| == |parties|
    ensures forall i :: 0 <= i < |r| && parties[i].f.Some? ==> r[i] == parties[i].f.value
  {
    if parties == [] then []
    else
      var last := parties[|parties| - 1];
      Polys(parties[..|parties| - 1]) + [if last.f.Some? then last.f.value else []]
  }

  /** `ks`: the random numbers of the proofs of ownership. */
  method BroadcastShares(s: Suite, parties: seq<Party>, threshold: nat, numKeys: u32, ks: seq<int>)
    returns (comms: Commitments, sent: map<u32, map<u32, int>>, ghost polys: seq<seq<int>>)
    requires s.q > 1 && threshold > 0 && DistinctIds(parties) && |ks| == |parties|
    requires forall i :: 0 <= i < |parties| ==> Fresh(parties[i], s, threshold, numKeys)
    ensures Broadcast(s, PartyIds(parties), polys, threshold, numKeys, comms, sent)
    ensures polys == Polys(parties)
  {
    hide Broadcast, Honest, Owns, NewId, CommitTo, Eval;
    comms, sent, polys := map[], map[], [];
    BroadcastNone(s, threshold, numKeys);
    for n := 0 to |parties|
      invariant Broadcast(s, PartyIds(parties)[..n], polys, threshold, numKeys, comms, sent)
      invariant polys == Polys(parties)[..n]
    {
      var p := parties[n];
      assert Fresh(p, s, threshold, numKeys);
      var shares := p.GetShares();
      var commitment := p.GetPolyCommitment(ks[n]);
      assert p.partyId !in PartyIds(parties)[..n];
      IsHonest(s, commitment.value, p.f.value);
      BroadcastMore(s, PartyIds(parties)[..n], polys, threshold, numKeys, comms, sent, p.partyId, p.f.value, shares,
                    commitment.value);
      comms := comms[p.partyId := commitment.value];
      sent := sent[p.partyId := shares];
      polys := polys + [p.f.value];
      assert PartyIds(parties)[..n + 1] == PartyIds(parties)[..n] + [p.partyId];
    }
    assert PartyIds(parties)[..|parties|] == PartyIds(parties);
  }

  lemma IsHonest(s: Suite, c: PolyCommitment, f: seq<int>)
    requires s.q > 1 && c.poly == CommitTo(s, f) && Owns(s, c.id, c.poly[0])
    ensures Honest(s, c, f)
  {}

  lemma BroadcastNone(s: Suite, threshold: nat, numKeys: u32)
    requires s.q > 1
    ensures Broadcast(s, [], [], threshold, numKeys, map[], map[])
  {
  }

  lemma BroadcastConsistent(s: Suite, ids: seq<u32>, polys: seq<seq<int>>, threshold: nat, numKeys: u32,
                            comms: Commitments, sent: map<u32, map<u32, int>>, i: u32, k: u32)
    requires s.q > 1 && Broadcast(s, ids, polys, threshold, numKeys, comms, sent) && i in comms && 1 <= k <= numKeys
    ensures |comms[i].poly| == threshold && Owns(s, comms[i].id, comms[i].poly[0])
    ensures k in sent[i] && s.Times(sent[i][k], G) == Poly(s, k, comms[i].poly)
  {
    var j :| 0 <= j < |ids| && ids[j] == i;
    assert Sent(s, comms, sent, ids[j], polys[j], numKeys);
    HonestShareConsistent(s, polys[j], k);
  }

  /** On an honest broadcast all three checks of `compute_secret` pass. */
  lemma BroadcastPasses(s: Suite, ids: seq<u32>, polys: seq<seq<int>>, threshold: nat, numKeys: u32,
                        comms: Commitments, sent: map<u32, map<u32, int>>, keyIds: seq<u32>)
    requires s.q > 1 && numKeys >= 1 && ids != [] && Broadcast(s, ids, polys, threshold, numKeys, comms, sent)
    requires forall k :: k in keyIds ==> 1 <= k <= numKeys
    ensures comms.Keys != {}
    ensures forall i :: i in comms ==> |comms[i].poly| == threshold && Owns(s, comms[i].id, comms[i].poly[0])
    ensures forall k :: k in keyIds ==> HasAllShares(ByKey(sent, keyIds), comms, k)
    ensures forall k :: k in keyIds ==> ByKey(sent, keyIds)[k].Keys <= comms.Keys
    ensures forall k, i :: k in keyIds ==> !BadShare(s, ByKey(sent, keyIds), comms, k, i)
  {
    hide Poly, Suite.Times, CommitTo, Eval;
    var shares := ByKey(sent, keyIds);
    assert Sent(s, comms, sent, ids[0], polys[0], numKeys);
    forall i | i in comms
      ensures |comms[i].poly| == threshold && Owns(s, comms[i].id, comms[i].poly[0])
    {
      BroadcastConsistent(s, ids, polys, threshold, numKeys, comms, sent, i, 1);
    }
    forall k | k in keyIds
      ensures HasAllShares(shares, comms, k) && shares[k].Keys <= comms.Keys
    {
      forall i | i in comms
        ensures i in shares[k]
      {
        BroadcastConsistent(s, ids, polys, threshold, numKeys, comms, sent, i, k);
      }
    }
    forall k, i | k in keyIds
      ensures !BadShare(s, shares, comms, k, i)
    {
      if i in comms { BroadcastConsistent(s, ids, polys, threshold, numKeys, comms, sent, i, k); }
    }
  }

  lemma BroadcastDegrees(s: Suite, ids: seq<u32>, polys: seq<seq<int>>, threshold: nat, numKeys: u32,
                         comms: Commitments, sent: map<u32, map<u32, int>>)
    requires s.q > 1 && numKeys >= 1 && ids != [] && Broadcast(s, ids, polys, threshold, numKeys, comms, sent)
    ensures AllDegrees(comms, threshold)
  {
    hide Broadcast, HasAllShares, BadShare, ByKey;
    BroadcastPasses(s, ids, polys, threshold, numKeys, comms, sent, []);
  }

  /** The commitments are those of the given senders to the given polynomials. */
  ghost predicate Commits(s: Suite, ids: seq<u32>, polys: seq<seq<int>>, comms: Commitments)
    requires s.q > 1
  {
    && |ids| == |polys| && (forall id :: id in comms <==> id in ids)
    && forall i :: 0 <= i < |ids| ==> ids[i] in comms && comms[ids[i]].poly == CommitTo(s, polys[i])
  }

  lemma BroadcastCommits(s: Suite, ids: seq<u32>, polys: seq<seq<int>>, threshold: nat, numKeys: u32,
                         comms: Commitments, sent: map<u32, map<u32, int>>)
    requires s.q > 1 && Broadcast(s, ids, polys, threshold, numKeys, comms, sent)
    ensures Commits(s, ids, polys, comms)
  {
    forall i | 0 <= i < |ids| ensures ids[i] in comms && comms[ids[i]].poly == CommitTo(s, polys[i]) {
      assert Sent(s, comms, sent, ids[i], polys[i], numKeys);
    }
  }

  /** The sum of the secret constant terms. */
  ghost function SumConstants(polys: seq<seq<int>>): int {
    if polys == [] then 0
    else
      var last := polys[|polys| - 1];
      SumConstants(polys[..|polys| - 1]) + if last == [] then 0 else last[0]
  }

  lemma CommitsPrefix(s: Suite, ids: seq<u32>, polys: seq<seq<int>>, comms: Commitments)
    requires s.q > 1 && Distinct(ids) && Commits(s, ids, polys, comms) && ids != []
    ensures var n := |ids| - 1;
            && ids[n] in comms && polys[n] != [] && comms[ids[n]].poly[0] == s.Times(polys[n][0], G)
            && Commits(s, ids[..n], polys[..n], comms - {ids[n]})
            && ConstantTerms(comms) == ConstantTerms(comms - {ids[n]})[ids[n] := comms[ids[n]].poly[0].k]
            && ids[n] !in ConstantTerms(comms - {ids[n]})
  {
    hide Suite.Times;
    var n := |ids| - 1;
    assert |comms[ids[n]].poly| == |polys[n]|;
    var less := comms - {ids[n]};
    forall i | 0 <= i < n ensures ids[..n][i] in less && less[ids[..n][i]].poly == CommitTo(s, polys[..n][i]) {}
    forall id ensures id in less <==> id in ids[..n] {
      if id in less {
        var i :| 0 <= i < |ids| && ids[i] == id;
        assert ids[..n][i] == id;
      }
    }
  }

  lemma {:induction false} ConstantsAddUp(s: Suite, ids: seq<u32>, polys: seq<seq<int>>, comms: Commitments)
    requires s.q > 0x1_0000_0000 && Distinct(ids) && Commits(s, ids, polys, comms)
    ensures Cong(s.q, MapSum(s.q, ConstantTerms(comms)), SumConstants(polys))
    decreases |ids|
  {
    hide Cong, Commits, ConstantTerms, Suite.Times;
    if ids == [] {
      NoCommits(s, polys, comms);
      SumEmpty(s.q);
      CongRefl(s.q, 0);
    } else {
      var n := |ids| - 1;
      CommitsPrefix(s, ids, polys, comms);
      SameLength(s, ids, polys, comms);
      var less, term := comms - {ids[n]}, comms[ids[n]].poly[0].k;
      ConstantsAddUp(s, ids[..n], polys[..n], less);
      SumInsert(ConstantTerms(less), ids[n], term, s.q);
      TimesLog(s, polys[n][0], G);
      CongAdd(s.q, MapSum(s.q, ConstantTerms(less)), SumConstants(polys[..n]), term, polys[n][0] * 1);
    }
  }

  lemma NoCommits(s: Suite, polys: seq<seq<int>>, comms: Commitments)
    requires s.q > 1 && Commits(s, [], polys, comms)
    ensures polys == [] && ConstantTerms(comms) == map[]
  {
    assert comms == map[];
  }

  lemma SameLength(s: Suite, ids: seq<u32>, polys: seq<seq<int>>, comms: Commitments)
    requires s.q > 1 && Commits(s, ids, polys, comms)
    ensures |polys| == |ids|
  {}

  /** The group key is the public key of the sum of everyone's secrets. */
  lemma GroupKeyOfSecrets(s: Suite, ids: seq<u32>, polys: seq<seq<int>>, comms: Commitments, threshold: nat)
    requires s.q > 0x1_0000_0000 && threshold > 0 && AllDegrees(comms, threshold)
    requires Distinct(ids) && Commits(s, ids, polys, comms)
    ensures GroupPoly(s, comms, threshold)[0] == s.Times(SumConstants(polys), G)
  {
    hide Cong, Commits, GroupPoly, AllDegrees;
    GroupKeyIsConstantTerm(s, comms, threshold);
    ConstantsAddUp(s, ids, polys, comms);
    var sum, secret := MapSum(s.q, ConstantTerms(comms)), SumConstants(polys);
    CongMod(s.q, sum);
    CongMod(s.q, secret * 1);
    CongTrans(s.q, Mod(s.q, sum), sum, secret);
    CongSym(s.q, Mod(s.q, secret * 1), secret);
    CongTrans(s.q, Mod(s.q, sum), secret, Mod(s.q, secret * 1));
    CongCanonical(s.q, Mod(s.q, sum), Mod(s.q, secret * 1));
  }

  ghost predicate NeverFails(s: Suite) {
    forall scalars, points :: !s.multimultFails(scalars, points)
  }

  /** On an honest broadcast the only error is a point operation that fails. */
  lemma OnlyPointFails(s: Suite, threshold: nat, keyIds: seq<u32>, shares: PrivateShares, comms: Commitments,
                       e: DkgError)
    requires s.q > 1 && ReportsWhy(s, threshold, keyIds, shares, comms, e)
    requires forall i :: i in comms ==> |comms[i].poly| == threshold && Owns(s, comms[i].id, comms[i].poly[0])
    requires forall k :: k in keyIds ==> HasAllShares(shares, comms, k)
    requires forall k, i :: k in keyIds ==> !BadShare(s, shares, comms, k, i)
    ensures e == PointFailed && !NeverFails(s)
  {
    hide BadShare, PolyFails;
    match e
    case BadPublicShares(ids) => SomeElement(ids);
    case MissingPrivateShares(pairs) => MissingNone(shares, comms, keyIds, pairs);
    case PointFailed =>
      var k, i :| k in keyIds && CheckFails(s, shares, comms, k, i);
      FailureSeen(s, k, comms[i].poly);
    case BadPrivateShares(senders) => SomeElement(senders);
  }

  lemma FailureSeen(s: Suite, x: int, f: seq<Point>)
    requires s.q > 1 && PolyFails(s, x, f)
    ensures !NeverFails(s)
  {}

  /** One party's part in the round. */
  method PartySecrets(s: Suite, p: Party, threshold: nat, numKeys: u32, comms: Commitments,
                      sent: map<u32, map<u32, int>>, ghost ids: seq<u32>, ghost polys: seq<seq<int>>)
    returns (errors: map<u32, DkgError>)
    requires s.q > 0x1_0000_0000 && threshold > 0 && numKeys >= 1 && ids != []
    requires Fresh(p, s, threshold, numKeys) && AllDegrees(comms, threshold)
    requires Broadcast(s, ids, polys, threshold, numKeys, comms, sent)
    modifies p`privateKeys, p`groupKey
    ensures errors == map[] ==> Ready(p, s, GroupPoly(s, comms, threshold))
    ensures forall id :: id in errors ==> errors[id] == PointFailed
    ensures NeverFails(s) ==> errors == map[]
  {
    hide KeysOnPolynomial, Broadcast, GroupPoly, MapSum, HasAllShares, BadShare, CheckFails, ReportsWhy, NeverFails;
    BroadcastPasses(s, ids, polys, threshold, numKeys, comms, sent, p.keyIds);
    var secrets := p.ComputeSecrets(sent, comms);
    if secrets.Err? {
      OnlyPointFails(s, threshold, p.keyIds, ByKey(sent, p.keyIds), comms, secrets.error[p.partyId]);
      return secrets.error;
    }
    SecretsReady(s, ByKey(sent, p.keyIds), comms, threshold, p.keyIds, p.privateKeys);
    errors := map[];
  }

  /** A key generation round among honest parties leaves each ready to sign under the same group
      polynomial; the only thing that can go wrong for a party is a point operation of the
      library. */
  method DkgRound(s: Suite, parties: seq<Party>, threshold: nat, numKeys: u32, ks: seq<int>)
    returns (r: Result<Commitments, map<u32, DkgError>>)
    requires s.q > 0x1_0000_0000 && threshold > 0 && numKeys >= 1 && parties != []
    requires Distinct(parties) && DistinctIds(parties) && |ks| == |parties|
    requires forall i :: 0 <= i < |parties| ==> Fresh(parties[i], s, threshold, numKeys)
    modifies parties`privateKeys, parties`groupKey
    ensures r.Ok? ==> AllDegrees(r.value, threshold)
    ensures r.Ok? ==> Commits(s, PartyIds(parties), Polys(parties), r.value)
    ensures r.Ok? ==> forall i :: 0 <= i < |parties| ==> Ready(parties[i], s, GroupPoly(s, r.value, threshold))
    ensures r.Err? ==> r.error != map[] && forall id :: id in r.error ==> r.error[id] == PointFailed
    ensures NeverFails(s) ==> r.Ok?
  {
    hide KeysOnPolynomial, Broadcast, GroupPoly, NeverFails, AllDegrees, Fresh, Commits, Polys, PartyIds;
    var comms, sent;
    ghost var polys;
    comms, sent, polys := BroadcastShares(s, parties, threshold, numKeys, ks);
    ghost var ids := PartyIds(parties);
    BroadcastDegrees(s, ids, polys, threshold, numKeys, comms, sent);
    BroadcastCommits(s, ids, polys, threshold, numKeys, comms, sent);
    var errors := AllSecrets(s, parties, threshold, numKeys, comms, sent, ids, polys);
    r := if errors == map[] then Ok(comms) else Err(errors);
  }

  /** Everyone computes its secret; the errors by party. */
  method AllSecrets(s: Suite, parties: seq<Party>, threshold: nat, numKeys: u32, comms: Commitments,
                    sent: map<u32, map<u32, int>>, ghost ids: seq<u32>, ghost polys: seq<seq<int>>)
    returns (errors: map<u32, DkgError>)
    requires s.q > 0x1_0000_0000 && threshold > 0 && numKeys >= 1 && ids != [] && Distinct(parties)
    requires forall i :: 0 <= i < |parties| ==> Fresh(parties[i], s, threshold, numKeys)
    requires AllDegrees(comms, threshold) && Broadcast(s, ids, polys, threshold, numKeys, comms, sent)
    modifies parties`privateKeys, parties`groupKey
    ensures errors == map[] ==>
              forall j :: 0 <= j < |parties| ==> Ready(parties[j], s, GroupPoly(s, comms, threshold))
    ensures forall id :: id in errors ==> errors[id] == PointFailed
    ensures NeverFails(s) ==> errors == map[]
  {
    hide KeysOnPolynomial, Broadcast, GroupPoly, NeverFails, AllDegrees, Fresh;
    errors := map[];
    for n := 0 to |parties|
      invariant forall i :: n <= i < |parties| ==> Fresh(parties[i], s, threshold, numKeys)
      invariant errors == map[] ==> forall j :: 0 <= j < n ==> Ready(parties[j], s, GroupPoly(s, comms, threshold))
      invariant forall id :: id in errors ==> errors[id] == PointFailed
      invariant NeverFails(s) ==> errors == map[]
    {
      var failed := PartySecrets(s, parties[n], threshold, numKeys, comms, sent, ids, polys);
      errors := errors + failed;
      assert failed.Keys <= errors.Keys;
    }
  }

  // ---------------------------------------------------------------------
  // Signing
  // ---------------------------------------------------------------------

  ghost function PartyIds(parties: seq<Party>): (r: seq<u32>)
    ensures |r| == |parties| && forall i :: 0 <= i < |r| ==> r[i] == parties[i].partyId
  {
    seq(|parties|, i requires 0 <= i < |parties| => parties[i].partyId)
  }

  function PublicNonces(s: Suite, nonces: seq<Nonce>): (r: seq<PublicNonce>)
    requires s.q > 1
    ensures |r| == |nonces| && forall i :: 0 <= i < |r| ==> r[i] == PublicNonceOf(s, nonces[i])
  {
    seq(|nonces|, i requires 0 <= i < |nonces| => PublicNonceOf(s, nonces[i]))
  }

  function PartyKeyIds(parties: seq<Party>): seq<u32> {
    if parties == [] then [] else PartyKeyIds(parties[..|parties| - 1]) + parties[|parties| - 1].keyIds
  }

  ghost predicate Ready(p: Party, s: Suite, f: seq<Point>)
    requires s.q > 1 && f != []
    reads p`privateKeys, p`groupKey
  {
    p.s == s && p.groupKey == f[0] && KeysOnPolynomial(s, p.keyIds, p.privateKeys, f)
  }

  lemma {:induction false} SameKeyIds(parties: seq<Party>, shares: seq<SignatureShare>)
    requires |parties| == |shares| && forall i :: 0 <= i < |shares| ==> shares[i].keyIds == parties[i].keyIds
    ensures AllKeyIds(shares) == PartyKeyIds(parties)
  {
    if parties != [] { SameKeyIds(parties[..|parties| - 1], shares[..|shares| - 1]); }
  }

  /** The share party `p` makes from nonce `n` in a round with the given commitments. */
  ghost function ShareOf(p: Party, n: Nonce, msg: Bytes, partyIds: seq<u32>, keyIds: seq<u32>,
                         nonces: seq<PublicNonce>, tweak: Option<int>): SignatureShare
    requires p.s.q > 1 && (forall k :: k in p.keyIds ==> k in p.privateKeys)
    requires tweak.Some? && tweak.value != 0 ==> p.s.LiftX(p.s.X(p.groupKey)).Some?
    reads p
  {
    var s := p.s;
    var R := SumPoints(s, BoundNonces(s, msg, partyIds, nonces));
    var c := s.Challenge(SigningKey(s, p.groupKey, tweak), R, msg);
    SignatureShare(p.partyId, ShareScalar(s, p.groupKey, R, tweak, Binding(s, p.partyId, nonces, msg), n.d, n.e,
                                          KeySum(s, c, keyIds, p.keyIds, p.privateKeys)), p.keyIds)
  }

  /** A signing round among parties that hold keys on the group polynomial, together at
      least as many distinct keys as the polynomial has coefficients, ends in a proof that
      verifies under the tweaked key; the nonces are spent. */
  method SignTaprootRound(s: Suite, f: seq<Point>, parties: seq<Party>, nonces: seq<Nonce>, agg: Aggregator, msg: Bytes,
                          merkleRoot: Option<Bytes>)
    returns (r: Result<SchnorrProof, AggregatorError>)
    requires s.Valid() && f != [] && s.LiftX(s.X(f[0])).Some?
    requires agg.Valid() && agg.s == s && agg.poly == Some(f)
    requires Distinct(parties) && |nonces| == |parties|
    requires forall i :: 0 <= i < |parties| ==> Ready(parties[i], s, f)
    requires Distinct(PartyKeyIds(parties)) && |f| <= |PartyKeyIds(parties)|
    modifies parties`nonce
    ensures forall i :: 0 <= i < |parties| ==> parties[i].nonce == None
    ensures var R := SumPoints(s, BoundNonces(s, msg, PartyIds(parties), PublicNonces(s, nonces)));
            var Q := s.TweakedPublicKey(f[0], s.Tweak(f[0], merkleRoot));
            R.k != 0 && Q.k != 0 ==> r.Ok? && ProofVerifies(s, r.value, s.X(Q), msg)
  {
    hide ProofVerifies, SumPoints, SharesPass, BoundNonces, SigningKey, KeysOnPolynomial, ShareOf;
    hide Suite.TweakedPublicKey;
    var tweak := s.Tweak(f[0], merkleRoot);
    var ids := seq(|parties|, i requires 0 <= i < |parties| => parties[i].partyId);
    var keyIds := PartyKeyIds(parties);
    var pubs := CommitNonces(s, parties, nonces);
    assert ids == PartyIds(parties) && pubs == PublicNonces(s, nonces);
    var shares := CollectShares(s, f, parties, nonces, msg, ids, keyIds, pubs, Some(tweak));
    HonestRound(s, f, parties, nonces, msg, ids, keyIds, pubs, Some(tweak), shares);
    SameKeyIds(parties, shares);
    assert Ids(shares) == ids;
    ZeroTweak(s, f[0], tweak);
    assert Quorum(f, keyIds, shares);
    r := Aggregate(s, f, agg, msg, pubs, shares, keyIds, tweak);
  }

  /** From fresh parties to a signature: key generation among all of them, then a round of any of
      them that together hold at least threshold distinct keys. Unless the library fails, or
      the group key, the nonce sum or the tweaked key is the identity, the proof verifies
      under the tweaked group key. */
  method TaprootFromScratch(s: Suite, parties: seq<Party>, signers: seq<Party>, threshold: nat, numKeys: u32,
                            ks: seq<int>, nonces: seq<Nonce>, msg: Bytes, merkleRoot: Option<Bytes>)
    returns (groupKey: Option<Point>, proof: Option<SchnorrProof>)
    requires s.Valid() && threshold > 0 && numKeys >= 1 && parties != []
    requires Distinct(parties) && DistinctIds(parties) && |ks| == |parties|
    requires forall i :: 0 <= i < |parties| ==> Fresh(parties[i], s, threshold, numKeys)
    requires Distinct(signers) && (forall p :: p in signers ==> p in parties) && |nonces| == |signers|
    requires Distinct(PartyKeyIds(signers)) && threshold <= |PartyKeyIds(signers)|
    modifies parties`privateKeys, parties`groupKey, signers`nonce
    ensures NeverFails(s) ==> groupKey.Some?
    ensures groupKey.Some? ==> groupKey.value == s.Times(SumConstants(Polys(parties)), G)
    ensures groupKey.Some? && groupKey.value.k != 0 ==>
              var R := SumPoints(s, BoundNonces(s, msg, PartyIds(signers), PublicNonces(s, nonces)));
              && s.LiftX(s.X(groupKey.value)).Some?
              && var Q := s.TweakedPublicKey(groupKey.value, s.Tweak(groupKey.value, merkleRoot));
                 R.k != 0 && Q.k != 0 ==> proof.Some? && ProofVerifies(s, proof.value, s.X(Q), msg)
  {
    hide ProofVerifies, SumPoints, BoundNonces, KeysOnPolynomial, NeverFails, Suite.TweakedPublicKey, Suite.Tweak;
    hide Polys, SumConstants;
    groupKey, proof := None, None;
    var agg, ok := SetUp(s, parties, threshold, numKeys, ks);
    if !ok {
      return;
    }
    var f := agg.poly.value;
    groupKey := Some(f[0]);
    if f[0].k == 0 {
      return;
    }
    LiftedPoint(s, f[0]);
    var signed := SignTaprootRound(s, f, signers, nonces, agg, msg, merkleRoot);
    proof := if signed.Ok? then Some(signed.value) else None;
  }

  /** Key generation, and an aggregator for what it produced. */
  method SetUp(s: Suite, parties: seq<Party>, threshold: nat, numKeys: u32, ks: seq<int>)
    returns (agg: Aggregator, ok: bool)
    requires s.Valid() && threshold > 0 && numKeys >= 1 && parties != []
    requires Distinct(parties) && DistinctIds(parties) && |ks| == |parties|
    requires forall i :: 0 <= i < |parties| ==> Fresh(parties[i], s, threshold, numKeys)
    modifies parties`privateKeys, parties`groupKey
    ensures fresh(agg) && agg.Valid() && agg.s == s
    ensures NeverFails(s) ==> ok
    ensures ok ==> agg.poly.Some? && |agg.poly.value| == threshold && s.IsPoint(agg.poly.value[0])
    ensures ok ==> forall p :: p in parties ==> Ready(p, s, agg.poly.value)
    ensures ok ==> agg.poly.value[0] == s.Times(SumConstants(Polys(parties)), G)
  {
    hide KeysOnPolynomial, GroupPoly, AllDegrees, NeverFails, Commits, Polys, SumConstants;
    var comms := DkgRound(s, parties, threshold, numKeys, ks);
    agg := new Aggregator(s, threshold);
    ok := comms.Ok?;
    if ok {
      GroupKeyOfSecrets(s, PartyIds(parties), Polys(parties), comms.value, threshold);
      var _ := agg.Init(comms.value);
    }
  }

  /** The aggregator's part, on shares that all pass. */
  method Aggregate(s: Suite, f: seq<Point>, agg: Aggregator, msg: Bytes, pubs: seq<PublicNonce>,
                   shares: seq<SignatureShare>, keyIds: seq<u32>, tweak: int)
    returns (r: Result<SchnorrProof, AggregatorError>)
    requires s.Valid() && f != [] && s.LiftX(s.X(f[0])).Some?
    requires agg.Valid() && agg.s == s && agg.poly == Some(f) && |pubs| == |shares|
    requires Quorum(f, keyIds, shares)
    requires var bound := RoundNonces(s, msg, pubs, shares);
             SharesPass(s, f, bound, SumPoints(s, bound), keyIds, Some(tweak), msg, shares)
    ensures SumPoints(s, RoundNonces(s, msg, pubs, shares)).k != 0 && SigningKey(s, f[0], Some(tweak)).k != 0 ==>
              r.Ok? && ProofVerifies(s, r.value, s.X(SigningKey(s, f[0], Some(tweak))), msg)
  {
    hide ProofVerifies, SumPoints, SharesPass, RoundNonces, SigningKey, Suite.X;
    r := agg.SignProof(msg, pubs, shares, keyIds, tweak);
  }

  method CommitNonces(s: Suite, parties: seq<Party>, nonces: seq<Nonce>) returns (pubs: seq<PublicNonce>)
    requires s.q > 1 && Distinct(parties) && |nonces| == |parties|
    requires forall i :: 0 <= i < |parties| ==> parties[i].s == s
    modifies parties`nonce
    ensures pubs == PublicNonces(s, nonces)
    ensures forall i :: 0 <= i < |parties| ==> parties[i].nonce == Some(nonces[i])
  {
    pubs := [];
    for n := 0 to |parties|
      invariant pubs == PublicNonces(s, nonces)[..n]
      invariant forall i :: 0 <= i < n ==> parties[i].nonce == Some(nonces[i])
    {
      var pub := parties[n].GenNonce(nonces[n]);
      pubs := pubs + [pub];
    }
  }

  method CollectShares(s: Suite, f: seq<Point>, parties: seq<Party>, nonces: seq<Nonce>, msg: Bytes, ids: seq<u32>,
                       keyIds: seq<u32>, pubs: seq<PublicNonce>, tweak: Option<int>)
    returns (shares: seq<SignatureShare>)
    requires s.q > 1 && f != [] && Distinct(parties) && |nonces| == |parties|
    requires s.LiftX(s.X(f[0])).Some?
    requires forall i :: 0 <= i < |parties| ==> Ready(parties[i], s, f) && parties[i].nonce == Some(nonces[i])
    modifies parties`nonce
    ensures |shares| == |parties| && forall i :: 0 <= i < |parties| ==>
              Ready(parties[i], s, f) && parties[i].nonce == None
              && shares[i].id == parties[i].partyId && shares[i].keyIds == parties[i].keyIds
              && shares[i] == ShareOf(parties[i], nonces[i], msg, ids, keyIds, pubs, tweak)
  {
    shares := [];
    hide ShareScalar, KeySum, SumPoints, KeysOnPolynomial, Suite.Challenge, SigningKey, BoundNonces, Binding;
    assert forall i :: 0 <= i < |parties| ==> forall k :: k in parties[i].keyIds ==> k in parties[i].privateKeys by {
      KeysPresent(s, f, parties);
    }
    for n := 0 to |parties|
      invariant |shares| == n
      invariant forall i :: 0 <= i < |parties| ==> Ready(parties[i], s, f)
      invariant forall i :: 0 <= i < n ==>
                  parties[i].nonce == None && shares[i] == ShareOf(parties[i], nonces[i], msg, ids, keyIds, pubs, tweak)
      invariant forall i :: n <= i < |parties| ==> parties[i].nonce == Some(nonces[i])
    {
      var share := parties[n].SignWithTweak(msg, ids, keyIds, pubs, tweak);
      shares := shares + [share.value];
    }
  }

  lemma KeysPresent(s: Suite, f: seq<Point>, parties: seq<Party>)
    requires s.q > 1 && f != [] && forall i :: 0 <= i < |parties| ==> Ready(parties[i], s, f)
    ensures forall i :: 0 <= i < |parties| ==> forall k :: k in parties[i].keyIds ==> k in parties[i].privateKeys
  {
  }

  lemma HonestRound(s: Suite, f: seq<Point>, parties: seq<Party>, nonces: seq<Nonce>, msg: Bytes, ids: seq<u32>,
                    keyIds: seq<u32>, pubs: seq<PublicNonce>, tweak: Option<int>, shares: seq<SignatureShare>)
    requires s.q > 1 && f != [] && s.LiftX(s.X(f[0])).Some? && |nonces| == |parties| == |shares|
    requires ids == PartyIds(parties) && pubs == PublicNonces(s, nonces)
    requires forall i :: 0 <= i < |parties| ==>
               Ready(parties[i], s, f) && shares[i] == ShareOf(parties[i], nonces[i], msg, ids, keyIds, pubs, tweak)
    ensures var bound := BoundNonces(s, msg, ids, pubs);
            SharesPass(s, f, bound, SumPoints(s, bound), keyIds, tweak, msg, shares)
  {
    hide SharePasses, SumPoints, ShareOf, Ready, Binding;
    var bound := BoundNonces(s, msg, ids, pubs);
    forall i | 0 <= i < |shares|
      ensures SharePasses(s, f, bound[i], SumPoints(s, bound), keyIds, tweak, msg, shares[i])
    {
      HonestPartyPasses(s, f, parties[i], nonces[i], msg, ids, keyIds, pubs, tweak, shares[i]);
    }
  }

  lemma HonestPartyPasses(s: Suite, f: seq<Point>, p: Party, n: Nonce, msg: Bytes, ids: seq<u32>, keyIds: seq<u32>,
                          pubs: seq<PublicNonce>, tweak: Option<int>, share: SignatureShare)
    requires s.q > 1 && f != [] && s.LiftX(s.X(f[0])).Some? && Ready(p, s, f)
    requires share == ShareOf(p, n, msg, ids, keyIds, pubs, tweak)
    ensures SharePasses(s, f, BoundNonce(s, msg, p.partyId, pubs, PublicNonceOf(s, n)),
                        SumPoints(s, BoundNonces(s, msg, ids, pubs)), keyIds, tweak, msg, share)
  {
    hide SharePasses, ShareScalar, KeySum, SumPoints, KeysOnPolynomial, Binding;
    HonestSharePasses(s, f, SumPoints(s, BoundNonces(s, msg, ids, pubs)), keyIds, tweak, msg,
                      Binding(s, p.partyId, pubs, msg), n.d, n.e, p.privateKeys, share,
                      BoundNonce(s, msg, p.partyId, pubs, PublicNonceOf(s, n)));
  }

  /** With tweak zero the signing key is the group key itself; it has the tweaked key's
      x-coordinate all the same. */
  lemma ZeroTweak(s: Suite, P: Point, tweak: int)
    requires s.Valid() && s.IsPoint(P) && s.LiftX(s.X(P)).Some?
    ensures s.X(SigningKey(s, P, Some(tweak))) == s.X(s.TweakedPublicKey(P, tweak))
    ensures SigningKey(s, P, Some(tweak)).k != 0 <==> s.TweakedPublicKey(P, tweak).k != 0
  {
    if tweak == 0 {
      LiftsNonZero(s, P);
      LiftedPoint(s, P);
      var Y := s.LiftX(s.X(P)).value;
      ModUnique(s.q, 0, 0, 0);
      ModUnique(s.q, Y.k, 0, Y.k);
      assert 0 * G.k == 0;
      assert s.TweakedPublicKey(P, 0) == Y;
    }
  }
}
