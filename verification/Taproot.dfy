/** One signer's parity cases, and plain signatures as BIP-340 proofs
    (wsts/src/taproot.rs, the `key_tweaks` test; wsts/src/common.rs, `Signature::verify`). */
module Taproot {
  import opened Basics
  import opened ModArith
  import opened Secp
  import opened Signing

  /** The secret for the tweaked key: negate for an odd key, then add the tweak. */
  function TweakedSecret(s: Suite, d: int, t: int): int
    requires s.q > 1
  {
    Mod(s.q, Sign(s, s.Times(d, G)) * d + t)
  }

  /** The response: nonce and tweaked secret, each negated when its point is odd. */
  function Respond(s: Suite, d: int, r: int, t: int, msg: Bytes): int
    requires s.q > 1
  {
    var d', R := TweakedSecret(s, d, t), s.Times(r, G);
    var Q := s.Times(d', G);
    Sign(s, R) * r + s.Challenge(Q, R, msg) * (Sign(s, Q) * d')
  }

  /** Negating for odd P, then for odd tweaked Q, and the nonce for odd R, gives the secret
      of the tweaked key and a proof accepted under its x-coordinate. */
  lemma TweakedSignatureVerifies(s: Suite, d: int, r: int, t: int, msg: Bytes)
    requires s.Valid() && s.Times(d, G).k != 0 && s.Times(r, G).k != 0
    ensures s.LiftX(s.X(s.Times(d, G))).Some?
    ensures s.Times(TweakedSecret(s, d, t), G) == s.TweakedPublicKey(s.Times(d, G), t)
    ensures var Q := s.TweakedPublicKey(s.Times(d, G), t);
            Q.k != 0 ==> ProofVerifies(s, SchnorrProof(s.X(s.Times(r, G)), Respond(s, d, r, t, msg)), s.X(Q), msg)
  {
    SecretOfTweakedKey(s, d, t);
    var d', R, Q := TweakedSecret(s, d, t), s.Times(r, G), s.TweakedPublicKey(s.Times(d, G), t);
    var c := s.Challenge(Q, R, msg);
    hide Cong, Suite.Times, ProofVerifies, TweakedSecret, Suite.TweakedPublicKey, Suite.Challenge;
    if Q.k != 0 {
      TimesLog(s, d', G);
      TimesLog(s, r, G);
      CongSym(s.q, Q.k, d');
      CongSym(s.q, R.k, r);
      CongScale(s.q, Sign(s, R), r, R.k);
      CongScale(s.q, Sign(s, Q), d', Q.k);
      CongScale(s.q, c, Sign(s, Q) * d', Sign(s, Q) * Q.k);
      CongAdd(s.q, Sign(s, R) * r, Sign(s, R) * R.k, c * (Sign(s, Q) * d'), c * (Sign(s, Q) * Q.k));
      ResponseAccepted(s, Respond(s, d, r, t, msg), R, Q, msg);
    }
  }

  lemma SecretOfTweakedKey(s: Suite, d: int, t: int)
    requires s.Valid() && s.Times(d, G).k != 0
    ensures s.LiftX(s.X(s.Times(d, G))).Some?
    ensures s.Times(TweakedSecret(s, d, t), G) == s.TweakedPublicKey(s.Times(d, G), t)
  {
    hide Cong, Suite.Times, Suite.Plus;
    var q, P, d' := s.q, s.Times(d, G), TweakedSecret(s, d, t);
    TimesLog(s, d, G);
    LiftedPoint(s, P);
    var Y, sp := s.LiftX(s.X(P)).value, Sign(s, P);
    TimesLog(s, t, G);
    PlusLog(s, Y, s.Times(t, G));
    TimesLog(s, d', G);
    CongMod(q, sp * d + t);
    SecretLog(q, sp, d, t, P.k, Y.k, s.Times(t, G).k, s.Plus(Y, s.Times(t, G)).k, d', s.Times(d', G).k);
  }

  lemma SecretLog(q: int, sp: int, d: int, t: int, p: int, y: int, tg: int, k: int, d': int, dg: int)
    requires q > 0 && 0 <= k < q && 0 <= dg < q
    requires Cong(q, p, d * 1) && Cong(q, y, sp * p) && Cong(q, tg, t * 1) && Cong(q, k, y + tg)
    requires Cong(q, d', sp * d + t) && Cong(q, dg, d' * 1)
    ensures dg == k
  {
    hide Cong;
    CongScale(q, sp, p, d);
    CongTrans(q, y, sp * p, sp * d);
    CongAdd(q, y, sp * d, tg, t);
    CongTrans(q, k, y + tg, sp * d + t);
    CongSym(q, k, sp * d + t);
    CongTrans(q, dg, d', sp * d + t);
    CongTrans(q, dg, sp * d + t, k);
    CongCanonical(q, dg, k);
  }

  /** A plain signature with even nonce point and even key verifies exactly when its
      conversion verifies as a BIP-340 proof. */
  lemma EvenSignatureIsProof(s: Suite, sig: Signature, P: Point, msg: Bytes)
    requires s.Valid() && s.IsPoint(sig.R) && sig.R.k != 0 && s.IsPoint(P) && P.k != 0
    requires s.HasEvenY(sig.R) && s.HasEvenY(P)
    ensures SignatureVerifies(s, sig, P, msg) <==> ProofVerifies(s, ToProof(s, sig), s.X(P), msg)
  {
    hide Cong, SignatureVerifies, ProofVerifies, Suite.Challenge;
    SignatureLog(s, sig, P, msg);
    ResponseAccepted(s, sig.z, sig.R, P, msg);
    assert 1 * sig.R.k == sig.R.k && 1 * P.k == P.k;
  }
}
