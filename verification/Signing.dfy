/** Threshold signatures: shares, aggregation, share checking and verification
    (wsts/src/v2.rs, wsts/src/taproot.rs, wsts/src/common.rs). */
module Signing {
  import opened Basics
  import opened ModArith
  import opened Interpolation
  import opened Secp
  import opened Sequences

  datatype SignatureShare = SignatureShare(id: u32, z: int, keyIds: seq<u32>)

  datatype Signature = Signature(R: Point, z: int)

  datatype SchnorrProof = SchnorrProof(r: FieldElement, s: int)

  predicate SignatureVerifies(s: Suite, sig: Signature, publicKey: Point, msg: Bytes)
    requires s.q > 1
  {
    var c := s.Challenge(publicKey, sig.R, msg);
    s.Plus(s.Times(sig.z, G), s.Times(s.Neg(c), publicKey)) == sig.R
  }

  predicate ProofVerifies(s: Suite, proof: SchnorrProof, publicKey: FieldElement, msg: Bytes)
    requires s.q > 1
  {
    match (s.LiftX(publicKey), s.LiftX(proof.r))
    case (Some(Y), Some(R)) =>
      var c := s.Challenge(Y, R, msg);
      var Rp := s.Minus(s.Times(proof.s, G), s.Times(c, Y));
      s.HasEvenY(Rp) && s.X(Rp) == proof.r
    case _ => false
  }

  function ToProof(s: Suite, sig: Signature): SchnorrProof {
    SchnorrProof(s.X(sig.R), sig.z)
  }

  // ---------------------------------------------------------------------
  // Parity
  // ---------------------------------------------------------------------

  /** The key a signature with this tweak is for: the group key itself without a tweak or
      with tweak zero, the tweaked key otherwise. */
  function SigningKey(s: Suite, groupKey: Point, tweak: Option<int>): Point
    requires s.q > 1 && (tweak.Some? && tweak.value != 0 ==> s.LiftX(s.X(groupKey)).Some?)
  {
    if tweak.Some? && tweak.value != 0 then s.TweakedPublicKey(groupKey, tweak.value) else groupKey
  }

  /** Factor on the key term of a share: minus one when exactly one of the group key and
      the tweaked key is odd, or when the untweaked key of a BIP-340 signature is odd. */
  function KeySign(s: Suite, groupKey: Point, tweak: Option<int>): int
    requires s.q > 1 && (tweak.Some? && tweak.value != 0 ==> s.LiftX(s.X(groupKey)).Some?)
  {
    if tweak.Some? then
      if tweak.value != 0 then
        if s.HasEvenY(s.TweakedPublicKey(groupKey, tweak.value)) != s.HasEvenY(groupKey) then s.Neg(1) else 1
      else if !s.HasEvenY(groupKey) then s.Neg(1) else 1
    else 1
  }

  /** Factor on the nonce term of a share. */
  function NonceSign(s: Suite, R: Point, tweak: Option<int>): int
    requires s.q > 1
  {
    if tweak.Some? && !s.HasEvenY(R) then s.Neg(1) else 1
  }

  /** What the aggregator adds to the summed shares. */
  function TweakTerm(s: Suite, groupKey: Point, tweak: Option<int>, c: int): int
    requires s.q > 1 && (tweak.Some? && tweak.value != 0 ==> s.LiftX(s.X(groupKey)).Some?)
  {
    match tweak
    case None => 0
    case Some(t) =>
      var sign := if t != 0 && !s.HasEvenY(s.TweakedPublicKey(groupKey, t)) then s.Neg(1) else 1;
      sign * c * t
  }

  lemma NegOne(s: Suite)
    requires s.q > 1
    ensures Cong(s.q, s.Neg(1), -1)
  {
    CongMod(s.q, -1);
  }

  /** The key terms and the tweak term together commit to the signing key, with even y. */
  lemma KeyTerms(s: Suite, P: Point, tweak: Option<int>, c: int)
    requires s.Valid() && s.IsPoint(P) && (tweak.Some? ==> P.k != 0)
    requires tweak.Some? && tweak.value != 0 ==> s.LiftX(s.X(P)).Some?
    ensures var Q := SigningKey(s, P, tweak);
            Cong(s.q, KeySign(s, P, tweak) * (c * P.k) + TweakTerm(s, P, tweak, c),
                 if tweak.Some? then c * (Sign(s, Q) * Q.k) else c * Q.k)
  {
    hide Cong, Suite.Times, Suite.Plus;
    var q, sp := s.q, Sign(s, P);
    NegOne(s);
    match tweak {
      case None =>
        assert 1 * (c * P.k) + 0 == c * P.k;
        CongRefl(q, c * P.k);
      case Some(t) =>
        var Q := SigningKey(s, P, tweak);
        var sq := Sign(s, Q);
        if t == 0 {
          CongRefl(q, sq);
          assert Cong(q, KeySign(s, P, tweak), sq);
          CongRefl(q, c * P.k);
          assert TweakTerm(s, P, tweak, c) == 1 * c * 0 == 0;
          CongMul(q, KeySign(s, P, tweak), sq, c * P.k, c * P.k);
          assert sq * (c * P.k) == c * (sq * Q.k);
        } else {
          LiftedPoint(s, P);
          var Y := s.LiftX(s.X(P)).value;
          TimesLog(s, t, G);
          PlusLog(s, Y, s.Times(t, G));
          CongRefl(q, sq * sp);
          CongRefl(q, sq);
          assert Cong(q, KeySign(s, P, tweak), sq * sp);
          var ts := if !s.HasEvenY(Q) then s.Neg(1) else 1;
          TweakedTerms(q, KeySign(s, P, tweak), ts, sq, sp, c, P.k, t, Y.k, s.Times(t, G).k, Q.k);
        }
    }
  }

  lemma TweakedTerms(q: int, ks: int, ts: int, sq: int, sp: int, c: int, p: int, t: int, y: int, tg: int, k: int)
    requires q > 0 && Cong(q, ks, sq * sp) && Cong(q, ts, sq)
    requires Cong(q, y, sp * p) && Cong(q, tg, t * 1) && Cong(q, k, y + tg)
    ensures Cong(q, ks * (c * p) + ts * c * t, c * (sq * k))
  {
    hide Cong;
    CongScale(q, c * p, ks, sq * sp);
    CongScale(q, c * t, ts, sq);
    CongAdd(q, c * p * ks, c * p * (sq * sp), c * t * ts, c * t * sq);
    CongAdd(q, y, sp * p, tg, t);
    CongTrans(q, k, y + tg, sp * p + t);
    CongScale(q, c * sq, k, sp * p + t);
    assert ks * (c * p) + ts * c * t == c * p * ks + c * t * ts;
    assert c * p * (sq * sp) + c * t * sq == c * sq * (sp * p + t);
    assert c * sq * k == c * (sq * k);
    CongSym(q, c * sq * k, c * sq * (sp * p + t));
    CongTrans(q, ks * (c * p) + ts * c * t, c * sq * (sp * p + t), c * (sq * k));
  }

  /** A response that answers for even-y R and even-y key is accepted, and only such a one. */
  lemma ResponseAccepted(s: Suite, z: int, R: Point, Q: Point, msg: Bytes)
    requires s.Valid() && s.IsPoint(R) && R.k != 0 && s.IsPoint(Q) && Q.k != 0
    ensures ProofVerifies(s, SchnorrProof(s.X(R), z), s.X(Q), msg)
       <==> Cong(s.q, z, Sign(s, R) * R.k + s.Challenge(Q, R, msg) * (Sign(s, Q) * Q.k))
  {
    hide Cong, Suite.Times, Suite.Minus;
    LiftedPoint(s, Q);
    LiftedPoint(s, R);
    var Y, E := s.LiftX(s.X(Q)).value, s.LiftX(s.X(R)).value;
    var c := s.Challenge(Q, R, msg);
    assert s.Challenge(Y, E, msg) == c;
    var Rp := s.Minus(s.Times(z, G), s.Times(c, Y));
    MinusLog(s, z, c, Y);
    EvenPoint(s, Rp, R);
    assert ProofVerifies(s, SchnorrProof(s.X(R), z), s.X(Q), msg) <==> Rp == E;
    ResponseLog(s.q, z, c, Y.k, E.k, Rp.k, Sign(s, R) * R.k, Sign(s, Q) * Q.k);
  }

  lemma MinusLog(s: Suite, z: int, c: int, Y: Point)
    requires s.q > 1
    ensures var Rp := s.Minus(s.Times(z, G), s.Times(c, Y)); s.IsPoint(Rp) && Cong(s.q, Rp.k, z - c * Y.k)
  {
    TimesLog(s, z, G);
    TimesLog(s, c, Y);
    CongMod(s.q, s.Times(z, G).k - s.Times(c, Y).k);
    CongSub(s.q, s.Times(z, G).k, z * 1, s.Times(c, Y).k, c * Y.k);
  }

  lemma EvenPoint(s: Suite, Rp: Point, R: Point)
    requires s.Valid() && s.q > 1 && 0 <= Rp.k < s.q && s.IsPoint(R) && R.k != 0
    ensures s.LiftX(s.X(R)).Some?
    ensures s.HasEvenY(Rp) && s.X(Rp) == s.X(R) <==> Rp == s.LiftX(s.X(R)).value
  {
    LiftedPoint(s, R);
    assert s.evenY(R.k) != s.evenY(s.q - R.k);
  }

  lemma ResponseLog(q: int, z: int, c: int, y: int, e: int, rp: int, sr: int, sy: int)
    requires q > 0 && 0 <= e < q && 0 <= rp < q && Cong(q, rp, z - c * y)
    requires Cong(q, e, sr) && Cong(q, y, sy)
    ensures rp == e <==> Cong(q, z, sr + c * sy)
  {
    CongMul(q, c, c, y, sy);
    CongSub(q, z, z, c * y, c * sy);
    if rp == e {
      CongAdd(q, z - c * sy, sr, c * sy, c * sy);
    }
    if Cong(q, z, sr + c * sy) {
      CongSub(q, z, sr + c * sy, c * sy, c * sy);
      CongCanonical(q, rp, e);
    }
  }

  // ---------------------------------------------------------------------
  // Shares
  // ---------------------------------------------------------------------

  /** The key part of a party's share: `c * key * lambda` over the party's key ids. */
  ghost function KeySum(s: Suite, c: int, keyIds: seq<u32>, own: seq<u32>, keys: map<u32, int>): (r: int)
    requires s.q > 1 && forall k :: k in own ==> k in keys
    ensures 0 <= r < s.q
  {
    if own == [] then 0
    else
      var k := own[|own| - 1];
      Mod(s.q, KeySum(s, c, keyIds, own[..|own| - 1], keys) + c * keys[k] * Lambda(s.q, k, keyIds))
  }

  /** What the aggregator expects that part to commit to, from the group polynomial. */
  ghost function CheckSum(s: Suite, c: int, keyIds: seq<u32>, own: seq<u32>, f: seq<Point>): (r: Point)
    requires s.q > 1
    ensures s.IsPoint(r)
  {
    if own == [] then Point(0)
    else
      var k := own[|own| - 1];
      s.Plus(CheckSum(s, c, keyIds, own[..|own| - 1], f),
             s.Times(Mod(s.q, Lambda(s.q, k, keyIds) * c), Poly(s, k, f)))
  }

  ghost predicate KeysOnPolynomial(s: Suite, own: seq<u32>, keys: map<u32, int>, f: seq<Point>)
    requires s.q > 1
  {
    forall k :: k in own ==> k in keys && Cong(s.q, keys[k], Poly(s, k, f).k)
  }

  lemma {:induction false} KeySumLog(s: Suite, c: int, keyIds: seq<u32>, own: seq<u32>, keys: map<u32, int>,
                                     f: seq<Point>)
    requires s.q > 1 && KeysOnPolynomial(s, own, keys, f)
    ensures Cong(s.q, KeySum(s, c, keyIds, own, keys), c * WeightedSum(s.q, keyIds, own, Logs(f)))
  {
    if own == [] {
      assert c * 0 == 0;
    } else {
      var rest, k := own[..|own| - 1], own[|own| - 1];
      KeySumLog(s, c, keyIds, rest, keys, f);
      assert k in own;
      var sum := KeySum(s, c, keyIds, rest, keys);
      CongMod(s.q, sum + c * keys[k] * Lambda(s.q, k, keyIds));
      KeyTerm(s.q, c, sum, WeightedSum(s.q, keyIds, rest, Logs(f)), keys[k], Poly(s, k, f).k, Lambda(s.q, k, keyIds),
              KeySum(s, c, keyIds, own, keys));
    }
  }

  lemma KeyTerm(q: int, c: int, sum: int, w: int, key: int, value: int, l: int, total: int)
    requires q > 0 && Cong(q, sum, c * w) && Cong(q, key, value) && Cong(q, total, sum + c * key * l)
    ensures Cong(q, total, c * (w + l * value))
  {
    CongMul(q, key, value, c * l, c * l);
    CongAdd(q, sum, c * w, key * (c * l), value * (c * l));
    assert key * (c * l) == c * key * l;
    assert c * w + value * (c * l) == c * (w + l * value);
  }

  lemma {:induction false} CheckSumLog(s: Suite, c: int, keyIds: seq<u32>, own: seq<u32>, f: seq<Point>)
    requires s.q > 1
    ensures Cong(s.q, CheckSum(s, c, keyIds, own, f).k, c * WeightedSum(s.q, keyIds, own, Logs(f)))
  {
    if own == [] {
      assert c * 0 == 0;
    } else {
      var rest, k := own[..|own| - 1], own[|own| - 1];
      CheckSumLog(s, c, keyIds, rest, f);
      var sum, l, value := CheckSum(s, c, keyIds, rest, f), Lambda(s.q, k, keyIds), Poly(s, k, f);
      CongMod(s.q, l * c);
      TimesLog(s, Mod(s.q, l * c), value);
      PlusLog(s, sum, s.Times(Mod(s.q, l * c), value));
      CheckTerm(s.q, c, sum.k, WeightedSum(s.q, keyIds, rest, Logs(f)), value.k, l, Mod(s.q, l * c),
                s.Times(Mod(s.q, l * c), value).k, CheckSum(s, c, keyIds, own, f).k);
    }
  }

  lemma CheckTerm(q: int, c: int, sum: int, w: int, value: int, l: int, lc: int, term: int, total: int)
    requires q > 0 && Cong(q, sum, c * w) && Cong(q, lc, l * c) && Cong(q, term, lc * value)
    requires Cong(q, total, sum + term)
    ensures Cong(q, total, c * (w + l * value))
  {
    CongMul(q, lc, l * c, value, value);
    CongAdd(q, sum, c * w, term, l * c * value);
    assert c * w + l * c * value == c * (w + l * value);
  }

  /** `check_signature_shares`: the test of one share against its bound nonce. */
  ghost predicate SharePasses(s: Suite, f: seq<Point>, bound: Point, R: Point, keyIds: seq<u32>, tweak: Option<int>,
                              msg: Bytes, share: SignatureShare)
    requires s.q > 1 && f != [] && (tweak.Some? && tweak.value != 0 ==> s.LiftX(s.X(f[0])).Some?)
  {
    var c := s.Challenge(SigningKey(s, f[0], tweak), R, msg);
    s.Times(share.z, G) == s.Plus(s.Times(NonceSign(s, R, tweak), bound),
                                  s.Times(KeySign(s, f[0], tweak), CheckSum(s, c, keyIds, share.keyIds, f)))
  }

  lemma SharePassesLog(s: Suite, f: seq<Point>, bound: Point, R: Point, keyIds: seq<u32>, tweak: Option<int>,
                       msg: Bytes, share: SignatureShare)
    requires s.q > 1 && f != [] && (tweak.Some? && tweak.value != 0 ==> s.LiftX(s.X(f[0])).Some?)
    ensures SharePasses(s, f, bound, R, keyIds, tweak, msg, share)
       <==> Cong(s.q, share.z, NonceSign(s, R, tweak) * bound.k + KeySign(s, f[0], tweak)
                 * (s.Challenge(SigningKey(s, f[0], tweak), R, msg) * WeightedSum(s.q, keyIds, share.keyIds, Logs(f))))
  {
    hide Cong, Suite.Times, Suite.Plus, KeySign, NonceSign, WeightedSum, CheckSum, Suite.Challenge, SigningKey;
    var c := s.Challenge(SigningKey(s, f[0], tweak), R, msg);
    var rs, ks, check := NonceSign(s, R, tweak), KeySign(s, f[0], tweak), CheckSum(s, c, keyIds, share.keyIds, f);
    CheckSumLog(s, c, keyIds, share.keyIds, f);
    TimesLog(s, share.z, G);
    TimesLog(s, rs, bound);
    TimesLog(s, ks, check);
    PlusLog(s, s.Times(rs, bound), s.Times(ks, check));
    ShareLog(s.q, share.z, rs * bound.k, ks, check.k, c * WeightedSum(s.q, keyIds, share.keyIds, Logs(f)),
             s.Times(share.z, G).k, s.Times(rs, bound).k, s.Times(ks, check).k,
             s.Plus(s.Times(rs, bound), s.Times(ks, check)).k);
  }

  lemma ShareLog(q: int, z: int, r: int, ks: int, check: int, w: int, zg: int, rb: int, kc: int, total: int)
    requires q > 0 && 0 <= zg < q && 0 <= total < q
    requires Cong(q, zg, z * 1) && Cong(q, rb, r) && Cong(q, kc, ks * check) && Cong(q, check, w)
    requires Cong(q, total, rb + kc)
    ensures zg == total <==> Cong(q, z, r + ks * w)
  {
    CongMul(q, ks, ks, check, w);
    CongAdd(q, rb, r, kc, ks * w);
    if Cong(q, z, r + ks * w) { CongCanonical(q, zg, total); }
  }

  /** The share that `sign_with_tweak` returns, from its private inputs. */
  ghost function ShareScalar(s: Suite, groupKey: Point, R: Point, tweak: Option<int>, rho: int,
                             d: int, e: int, keySum: int): int
    requires s.q > 1 && (tweak.Some? && tweak.value != 0 ==> s.LiftX(s.X(groupKey)).Some?)
  {
    var r := Mod(s.q, d + e * rho);
    var signed := if tweak.Some? && !s.HasEvenY(R) then s.Neg(r) else r;
    Mod(s.q, signed + Mod(s.q, KeySign(s, groupKey, tweak) * keySum))
  }

  /** An honest share passes the aggregator's test. */
  lemma HonestSharePasses(s: Suite, f: seq<Point>, R: Point, keyIds: seq<u32>, tweak: Option<int>, msg: Bytes,
                          rho: int, d: int, e: int, keys: map<u32, int>, share: SignatureShare, bound: Point)
    requires s.q > 1 && f != [] && (tweak.Some? && tweak.value != 0 ==> s.LiftX(s.X(f[0])).Some?)
    requires KeysOnPolynomial(s, share.keyIds, keys, f)
    requires bound == s.Plus(s.Times(d, G), s.Times(rho, s.Times(e, G)))
    requires var c := s.Challenge(SigningKey(s, f[0], tweak), R, msg);
             share.z == ShareScalar(s, f[0], R, tweak, rho, d, e, KeySum(s, c, keyIds, share.keyIds, keys))
    ensures SharePasses(s, f, bound, R, keyIds, tweak, msg, share)
  {
    hide Cong, Suite.Times, Suite.Plus, KeySign, WeightedSum, CheckSum, KeySum, Suite.Challenge, SigningKey;
    hide SharePasses;
    var q, c := s.q, s.Challenge(SigningKey(s, f[0], tweak), R, msg);
    var keySum, ks := KeySum(s, c, keyIds, share.keyIds, keys), KeySign(s, f[0], tweak);
    KeySumLog(s, c, keyIds, share.keyIds, keys, f);
    BoundLog(s, d, e, rho);
    var r := Mod(q, d + e * rho);
    CongMod(q, d + e * rho);
    var signed := if tweak.Some? && !s.HasEvenY(R) then s.Neg(r) else r;
    CongMod(q, -r);
    CongMod(q, ks * keySum);
    CongMod(q, signed + Mod(q, ks * keySum));
    NegOne(s);
    CongRefl(q, r);
    CongRefl(q, 1);
    CongNeg(q, r, r);
    HonestLog(q, tweak.Some? && !s.HasEvenY(R), r, d + e * rho, signed, NonceSign(s, R, tweak), bound.k, ks, keySum,
              c * WeightedSum(q, keyIds, share.keyIds, Logs(f)), Mod(q, ks * keySum), share.z);
    SharePassesLog(s, f, bound, R, keyIds, tweak, msg, share);
  }

  lemma BoundLog(s: Suite, d: int, e: int, rho: int)
    requires s.q > 1
    ensures Cong(s.q, s.Plus(s.Times(d, G), s.Times(rho, s.Times(e, G))).k, d + e * rho)
  {
    hide Suite.Times, Suite.Plus, Cong;
    var D, E := s.Times(d, G), s.Times(e, G);
    TimesLog(s, d, G);
    TimesLog(s, e, G);
    TimesLog(s, rho, E);
    PlusLog(s, D, s.Times(rho, E));
    BoundStep(s.q, d, e, rho, D.k, E.k, s.Times(rho, E).k, s.Plus(D, s.Times(rho, E)).k);
  }

  lemma BoundStep(q: int, d: int, e: int, rho: int, dg: int, eg: int, re: int, total: int)
    requires q > 0 && Cong(q, dg, d * 1) && Cong(q, eg, e * 1) && Cong(q, re, rho * eg) && Cong(q, total, dg + re)
    ensures Cong(q, total, d + e * rho)
  {
    CongMul(q, rho, rho, eg, e);
    CongAdd(q, dg, d, re, rho * e);
    assert rho * e == e * rho;
  }

  lemma HonestLog(q: int, odd: bool, r: int, r0: int, signed: int, rs: int, bound: int, ks: int, keySum: int, w: int,
                  kk: int, z: int)
    requires q > 0 && Cong(q, r, r0) && Cong(q, bound, r0) && Cong(q, keySum, w) && Cong(q, kk, ks * keySum)
    requires Cong(q, signed, if odd then -r else r) && Cong(q, rs, if odd then -1 else 1)
    requires Cong(q, z, signed + kk)
    ensures Cong(q, z, rs * bound + ks * w)
  {
    CongMul(q, ks, ks, keySum, w);
    CongMul(q, rs, if odd then -1 else 1, bound, r0);
    CongNeg(q, r, r0);
    CongAdd(q, signed, rs * bound, kk, ks * w);
  }

  // ---------------------------------------------------------------------
  // Aggregation
  // ---------------------------------------------------------------------

  ghost function SumShares(shares: seq<SignatureShare>): int {
    if shares == [] then 0 else SumShares(shares[..|shares| - 1]) + shares[|shares| - 1].z
  }

  ghost function AllKeyIds(shares: seq<SignatureShare>): seq<u32> {
    if shares == [] then [] else AllKeyIds(shares[..|shares| - 1]) + shares[|shares| - 1].keyIds
  }

  lemma {:induction false} WeightedSumAppend(q: int, ids: seq<u32>, a: seq<u32>, b: seq<u32>, f: seq<int>)
    requires q > 1
    ensures WeightedSum(q, ids, a + b, f) == WeightedSum(q, ids, a, f) + WeightedSum(q, ids, b, f)
  {
    if b == [] {
      assert a + b == a;
    } else {
      WeightedSumAppend(q, ids, a, b[..|b| - 1], f);
      assert (a + b)[..|a + b| - 1] == a + b[..|b| - 1];
    }
  }

  /** The sum does not depend on the order of the ids. */
  lemma {:induction false} WeightedSumPermuted(q: int, ids: seq<u32>, a: seq<u32>, b: seq<u32>, f: seq<int>)
    requires q > 1 && multiset(a) == multiset(b)
    ensures WeightedSum(q, ids, a, f) == WeightedSum(q, ids, b, f)
  {
    hide WeightedSum;
    if a == [] {
      assert |multiset(b)| == 0;
    } else {
      var rest, x := a[..|a| - 1], a[|a| - 1];
      var b1, b2 := FindLast(a, b);
      WeightedSumPermuted(q, ids, rest, b1 + b2, f);
      WeightedSumAppend(q, ids, b1, b2, f);
      WeightedSumAppend(q, ids, b1, [x] + b2, f);
      WeightedSumAppend(q, ids, [x], b2, f);
      WeightedSumAppend(q, ids, rest, [x], f);
      assert a == rest + [x];
    }
  }

  lemma {:induction false} LambdaInsert(q: int, i: u32, a: seq<u32>, x: u32, b: seq<u32>)
    requires q > 1
    ensures Cong(q, Lambda(q, i, a + ([x] + b)), Lambda(q, i, a + b) * Factor(q, i, x))
  {
    hide Factor, Cong;
    if b == [] {
      assert a + ([x] + b) == a + [x] && a + b == a && (a + [x])[..|a|] == a;
      CongMod(q, Lambda(q, i, a) * Factor(q, i, x));
    } else {
      var rest, y := b[..|b| - 1], b[|b| - 1];
      LambdaInsert(q, i, a, x, rest);
      assert (a + ([x] + b))[..|a + ([x] + b)| - 1] == a + ([x] + rest);
      assert (a + b)[..|a + b| - 1] == a + rest;
      var fx, fy := Factor(q, i, x), Factor(q, i, y);
      var with, without := Lambda(q, i, a + ([x] + rest)), Lambda(q, i, a + rest);
      CongMod(q, with * fy);
      CongMod(q, without * fy);
      SwapFactors(q, with, without, fx, fy, Mod(q, with * fy), Mod(q, without * fy));
    }
  }

  lemma SwapFactors(q: int, with: int, without: int, fx: int, fy: int, with': int, without': int)
    requires q > 0 && Cong(q, with, without * fx) && Cong(q, with', with * fy) && Cong(q, without', without * fy)
    ensures Cong(q, with', without' * fx)
  {
    hide Cong;
    CongScale(q, fy, with, without * fx);
    assert with * fy == fy * with;
    CongTrans(q, with', with * fy, fy * (without * fx));
    CongScale(q, fx, without', without * fy);
    CongSym(q, fx * without', fx * (without * fy));
    assert fy * (without * fx) == fx * (without * fy) && fx * without' == without' * fx;
    CongTrans(q, with', fx * (without * fy), without' * fx);
  }

  /** Neither do the coefficients. */
  lemma {:induction false} LambdaPermuted(q: int, i: u32, a: seq<u32>, b: seq<u32>)
    requires q > 1 && multiset(a) == multiset(b)
    ensures Lambda(q, i, a) == Lambda(q, i, b)
  {
    hide Lambda, Cong;
    if a == [] {
      assert |multiset(b)| == 0;
    } else {
      var rest, x := a[..|a| - 1], a[|a| - 1];
      var b1, b2 := FindLast(a, b);
      LambdaPermuted(q, i, rest, b1 + b2);
      LambdaInsert(q, i, b1, x, b2);
      LambdaInsert(q, i, rest, x, []);
      assert rest + ([x] + []) == a && rest + [] == rest;
      var product := Lambda(q, i, rest) * Factor(q, i, x);
      CongSym(q, Lambda(q, i, b), product);
      CongTrans(q, Lambda(q, i, a), product, Lambda(q, i, b));
      CongCanonical(q, Lambda(q, i, a), Lambda(q, i, b));
    }
  }

  /** Interpolation gives the same whatever the order of the ids. */
  lemma {:induction false} InterpolationOrder(q: int, a: seq<u32>, b: seq<u32>, over: seq<u32>, f: seq<int>)
    requires q > 1 && multiset(a) == multiset(b)
    ensures WeightedSum(q, a, over, f) == WeightedSum(q, b, over, f)
    ensures WeightedSum(q, a, a, f) == WeightedSum(q, b, b, f)
  {
    SameWeights(q, a, b, over, f);
    SameWeights(q, a, b, b, f);
    WeightedSumPermuted(q, a, a, b, f);
  }

  lemma {:induction false} SameWeights(q: int, a: seq<u32>, b: seq<u32>, over: seq<u32>, f: seq<int>)
    requires q > 1 && multiset(a) == multiset(b)
    ensures WeightedSum(q, a, over, f) == WeightedSum(q, b, over, f)
  {
    hide Lambda, Eval;
    if over != [] {
      SameWeights(q, a, b, over[..|over| - 1], f);
      LambdaPermuted(q, over[|over| - 1], a, b);
    }
  }

  lemma FindLast(a: seq<u32>, b: seq<u32>) returns (b1: seq<u32>, b2: seq<u32>)
    requires a != [] && multiset(a) == multiset(b)
    ensures b == b1 + ([a[|a| - 1]] + b2) && multiset(a[..|a| - 1]) == multiset(b1 + b2)
  {
    var rest, x := a[..|a| - 1], a[|a| - 1];
    assert a == rest + ([x] + []) && rest + [] == rest;
    b1, b2 := TakeOut(rest, x, [], b);
  }

  /** Every share passes the aggregator's test against its own bound nonce. */
  ghost predicate SharesPass(s: Suite, f: seq<Point>, bound: seq<Point>, R: Point, keyIds: seq<u32>,
                             tweak: Option<int>, msg: Bytes, shares: seq<SignatureShare>)
    requires s.q > 1 && f != [] && (tweak.Some? && tweak.value != 0 ==> s.LiftX(s.X(f[0])).Some?)
  {
    && |bound| == |shares|
    && forall i :: 0 <= i < |shares| ==> SharePasses(s, f, bound[i], R, keyIds, tweak, msg, shares[i])
  }

  /** Passing shares add up to the signed sum of nonces and keys. */
  lemma {:induction false} SharesAddUp(s: Suite, f: seq<Point>, bound: seq<Point>, R: Point, keyIds: seq<u32>,
                                       tweak: Option<int>, msg: Bytes, shares: seq<SignatureShare>)
    requires s.q > 1 && f != [] && (tweak.Some? && tweak.value != 0 ==> s.LiftX(s.X(f[0])).Some?)
    requires SharesPass(s, f, bound, R, keyIds, tweak, msg, shares)
    ensures Cong(s.q, SumShares(shares), NonceSign(s, R, tweak) * SumPoints(s, bound).k + KeySign(s, f[0], tweak)
                 * (s.Challenge(SigningKey(s, f[0], tweak), R, msg)
                    * WeightedSum(s.q, keyIds, AllKeyIds(shares), Logs(f))))
  {
    hide Cong, Suite.Times, Suite.Plus, KeySign, NonceSign, WeightedSum, Suite.Challenge, SigningKey, SharePasses;
    var q := s.q;
    var rs, ks, c := NonceSign(s, R, tweak), KeySign(s, f[0], tweak), s.Challenge(SigningKey(s, f[0], tweak), R, msg);
    if shares == [] {
      assert WeightedSum(q, keyIds, [], Logs(f)) == 0 by { EmptyWeightedSum(q, keyIds, Logs(f)); }
      assert rs * 0 == 0 && c * 0 == 0 && ks * 0 == 0;
      CongRefl(q, 0);
    } else {
      var n := |shares| - 1;
      SharesAddUp(s, f, bound[..n], R, keyIds, tweak, msg, shares[..n]);
      SharePassesLog(s, f, bound[n], R, keyIds, tweak, msg, shares[n]);
      PlusLog(s, SumPoints(s, bound[..n]), bound[n]);
      WeightedSumAppend(q, keyIds, AllKeyIds(shares[..n]), shares[n].keyIds, Logs(f));
      AddShare(q, rs, ks, c, SumShares(shares[..n]), SumPoints(s, bound[..n]).k,
               WeightedSum(q, keyIds, AllKeyIds(shares[..n]), Logs(f)), shares[n].z, bound[n].k,
               WeightedSum(q, keyIds, shares[n].keyIds, Logs(f)), SumPoints(s, bound).k);
    }
  }

  lemma EmptyWeightedSum(q: int, ids: seq<u32>, f: seq<int>)
    requires q > 1
    ensures WeightedSum(q, ids, [], f) == 0
  {
  }

  lemma AddShare(q: int, rs: int, ks: int, c: int, sum: int, b: int, w: int, z: int, bn: int, wn: int, total: int)
    requires q > 0 && Cong(q, sum, rs * b + ks * (c * w)) && Cong(q, z, rs * bn + ks * (c * wn))
    requires Cong(q, total, b + bn)
    ensures Cong(q, sum + z, rs * total + ks * (c * (w + wn)))
  {
    hide Cong;
    CongAdd(q, sum, rs * b + ks * (c * w), z, rs * bn + ks * (c * wn));
    CongRefl(q, rs);
    CongRefl(q, ks * (c * (w + wn)));
    CongMul(q, rs, rs, total, b + bn);
    CongAdd(q, rs * total, rs * (b + bn), ks * (c * (w + wn)), ks * (c * (w + wn)));
    assert rs * b + ks * (c * w) + (rs * bn + ks * (c * wn)) == rs * (b + bn) + ks * (c * (w + wn));
    CongTrans(q, sum + z, rs * (b + bn) + ks * (c * (w + wn)), rs * total + ks * (c * (w + wn)));
  }

  /** The aggregate of shares that all pass the test verifies: as a plain Schnorr signature
      without a tweak, as a BIP-340 proof under the signing key's x-coordinate with one. */
  lemma {:induction false} PassingSharesVerify(s: Suite, f: seq<Point>, bound: seq<Point>, keyIds: seq<u32>,
                                               tweak: Option<int>, msg: Bytes, shares: seq<SignatureShare>, z: int)
    requires s.Valid() && 0 < |f| <= |keyIds| && (forall P :: P in f ==> s.IsPoint(P))
    requires Distinct(keyIds) && multiset(AllKeyIds(shares)) == multiset(keyIds)
    requires tweak.Some? ==> f[0].k != 0
    requires tweak.Some? && tweak.value != 0 ==> s.LiftX(s.X(f[0])).Some?
    requires var R := SumPoints(s, bound);
             && SharesPass(s, f, bound, R, keyIds, tweak, msg, shares)
             && Cong(s.q, z, SumShares(shares)
                             + TweakTerm(s, f[0], tweak, s.Challenge(SigningKey(s, f[0], tweak), R, msg)))
    ensures var R, Q := SumPoints(s, bound), SigningKey(s, f[0], tweak);
            && (tweak.None? ==> SignatureVerifies(s, Signature(R, z), Q, msg))
            && (tweak.Some? && R.k != 0 && Q.k != 0 ==> ProofVerifies(s, ToProof(s, Signature(R, z)), s.X(Q), msg))
  {
    hide Cong, Suite.Times, KeySign, WeightedSum, Suite.Challenge, SharePasses, ProofVerifies, TweakTerm;
    hide SignatureVerifies;
    var q, R, Q := s.q, SumPoints(s, bound), SigningKey(s, f[0], tweak);
    var c := s.Challenge(Q, R, msg);
    SharesAddUp(s, f, bound, R, keyIds, tweak, msg, shares);
    WeightedSumPermuted(q, keyIds, AllKeyIds(shares), keyIds, Logs(f));
    Interpolate(q, keyIds, Logs(f));
    EvalAtZero(q, Logs(f));
    assert f[0] in f;
    KeyTerms(s, f[0], tweak, c);
    var rs, ks, w := NonceSign(s, R, tweak), KeySign(s, f[0], tweak), WeightedSum(q, keyIds, keyIds, Logs(f));
    CongTrans(q, w, Eval(q, Logs(f), 0), f[0].k);
    var keyTerm := if tweak.Some? then c * (Sign(s, Q) * Q.k) else c * Q.k;
    AggregateLog(q, z, SumShares(shares), rs * R.k, ks, c, w, f[0].k, TweakTerm(s, f[0], tweak, c), keyTerm);
    if tweak.None? {
      assert 1 * R.k == R.k;
      SignatureLog(s, Signature(R, z), Q, msg);
    } else if R.k != 0 && Q.k != 0 {
      NonceSignLog(s, R, tweak);
      CongRefl(q, R.k);
      CongMul(q, rs, Sign(s, R), R.k, R.k);
      CongRefl(q, keyTerm);
      CongAdd(q, rs * R.k, Sign(s, R) * R.k, keyTerm, keyTerm);
      CongTrans(q, z, rs * R.k + keyTerm, Sign(s, R) * R.k + keyTerm);
      ResponseAccepted(s, z, R, Q, msg);
    }
  }

  lemma NonceSignLog(s: Suite, R: Point, tweak: Option<int>)
    requires s.q > 1 && tweak.Some?
    ensures Cong(s.q, NonceSign(s, R, tweak), Sign(s, R))
  {
    NegOne(s);
  }

  lemma AggregateLog(q: int, z: int, sum: int, r: int, ks: int, c: int, w: int, p: int, tt: int, keyTerm: int)
    requires q > 0 && Cong(q, z, sum + tt) && Cong(q, sum, r + ks * (c * w)) && Cong(q, w, p)
    requires Cong(q, ks * (c * p) + tt, keyTerm)
    ensures Cong(q, z, r + keyTerm)
  {
    hide Cong;
    assert Cong(q, ks * (c * w), ks * (c * p)) by {
      CongRefl(q, c);
      CongRefl(q, ks);
      CongMul(q, c, c, w, p);
      CongMul(q, ks, ks, c * w, c * p);
    }
    CongRefl(q, r);
    CongRefl(q, tt);
    CongAdd(q, sum, r + ks * (c * w), tt, tt);
    CongAdd(q, ks * (c * w), ks * (c * p), tt, tt);
    CongTrans(q, ks * (c * w) + tt, ks * (c * p) + tt, keyTerm);
    CongAdd(q, r, r, ks * (c * w) + tt, keyTerm);
    CongTrans(q, z, sum + tt, r + ks * (c * w) + tt);
    CongTrans(q, z, r + ks * (c * w) + tt, r + keyTerm);
  }

  lemma SignatureLog(s: Suite, sig: Signature, P: Point, msg: Bytes)
    requires s.q > 1 && s.IsPoint(sig.R)
    ensures SignatureVerifies(s, sig, P, msg) <==> Cong(s.q, sig.z, sig.R.k + s.Challenge(P, sig.R, msg) * P.k)
  {
    hide Cong, Suite.Challenge, Suite.Times, Suite.Plus;
    var q, c := s.q, s.Challenge(P, sig.R, msg);
    TimesLog(s, sig.z, G);
    TimesLog(s, s.Neg(c), P);
    CongMod(q, -c);
    var total := s.Plus(s.Times(sig.z, G), s.Times(s.Neg(c), P));
    PlusLog(s, s.Times(sig.z, G), s.Times(s.Neg(c), P));
    VerifyLog(q, sig.z, sig.R.k, c, P.k, s.Neg(c), s.Times(sig.z, G).k, s.Times(s.Neg(c), P).k, total.k);
  }

  lemma VerifyLog(q: int, z: int, r: int, c: int, k: int, nc: int, zg: int, nk: int, total: int)
    requires q > 0 && 0 <= r < q && 0 <= total < q
    requires Cong(q, zg, z * 1) && Cong(q, nc, -c) && Cong(q, nk, nc * k) && Cong(q, total, zg + nk)
    ensures total == r <==> Cong(q, z, r + c * k)
  {
    hide Cong;
    CongScale(q, k, nc, -c);
    assert nc * k == k * nc && k * -c == -(c * k);
    CongTrans(q, nk, nc * k, -(c * k));
    CongAdd(q, zg, z, nk, -(c * k));
    CongTrans(q, total, zg + nk, z - c * k);
    CongRefl(q, c * k);
    if total == r {
      CongSym(q, r, z - c * k);
      CongAdd(q, z - c * k, r, c * k, c * k);
    }
    if Cong(q, z, r + c * k) {
      CongSub(q, z, r + c * k, c * k, c * k);
      CongTrans(q, total, z - c * k, r);
      CongCanonical(q, total, r);
    }
  }
}
