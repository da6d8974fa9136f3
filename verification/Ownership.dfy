/** The Schnorr proof that a sender knows the constant term it commits to (wsts/src/schnorr.rs). */
module Ownership {
  import opened Basics
  import opened ModArith
  import opened Secp

  datatype ID = ID(id: int, kG: Point, kca: int)

  // ASCII of "WSTS/polynomial-constant".
  const CONSTANT_TAG: Bytes :=
    [87, 83, 84, 83, 47, 112, 111, 108, 121, 110, 111, 109, 105, 97, 108, 45, 99, 111, 110, 115, 116, 97, 110, 116]

  function IdChallenge(s: Suite, id: int, K: Point, A: Point): int
    requires s.q > 1
  {
    s.HashToScalar(CONSTANT_TAG + s.scalarBytes(id) + s.compress(K) + s.compress(A))
  }

  /** `ID::new`, from the random `k`. */
  function NewId(s: Suite, id: int, a: int, k: int): ID
    requires s.q > 1
  {
    var c := IdChallenge(s, id, s.Times(k, G), s.Times(a, G));
    ID(id, s.Times(k, G), Mod(s.q, k + c * a))
  }

  /** `ID::verify` */
  predicate Owns(s: Suite, proof: ID, A: Point)
    requires s.q > 1
  {
    s.Times(proof.kca, G) == s.Plus(proof.kG, s.Times(IdChallenge(s, proof.id, proof.kG, A), A))
  }

  /** A proof is accepted exactly when its response is k + c a, where c is the hash of the tag, the
      id and the two points. */
  lemma OwnsExactly(s: Suite, proof: ID, A: Point)
    requires s.q > 1
    ensures Owns(s, proof, A) <==>
            var data := [87, 83, 84, 83, 47, 112, 111, 108, 121, 110, 111, 109, 105, 97, 108, 45,
                         99, 111, 110, 115, 116, 97, 110, 116]
                        + s.scalarBytes(proof.id) + s.compress(proof.kG) + s.compress(A);
            Cong(s.q, proof.kca, proof.kG.k + s.fromDigest(s.sha256(data)) * A.k)
  {
    hide Cong, Suite.Times, Suite.Plus;
    var c := IdChallenge(s, proof.id, proof.kG, A);
    var digest := s.fromDigest(s.sha256(CONSTANT_TAG + s.scalarBytes(proof.id) + s.compress(proof.kG) + s.compress(A)));
    CongMod(s.q, digest);
    TimesLog(s, proof.kca, G);
    TimesLog(s, c, A);
    PlusLog(s, proof.kG, s.Times(c, A));
    OwnsLog(s.q, proof.kca, proof.kG.k, c, digest, A.k, s.Times(proof.kca, G).k, s.Times(c, A).k,
            s.Plus(proof.kG, s.Times(c, A)).k);
  }

  lemma OwnsLog(q: int, kca: int, k: int, c: int, digest: int, a: int, left: int, term: int, right: int)
    requires q > 0 && 0 <= left < q && 0 <= right < q && Cong(q, c, digest)
    requires Cong(q, left, kca * 1) && Cong(q, term, c * a) && Cong(q, right, k + term)
    ensures left == right <==> Cong(q, kca, k + digest * a)
  {
    CongMul(q, c, digest, a, a);
    CongAdd(q, k, k, term, digest * a);
    if Cong(q, kca, k + digest * a) { CongCanonical(q, left, right); }
  }

  /** Who knows the constant term makes an accepted proof, whatever the random number. */
  lemma NewIdOwns(s: Suite, id: int, a: int, k: int)
    requires s.q > 1
    ensures Owns(s, NewId(s, id, a, k), s.Times(a, G))
  {
    hide Cong, Suite.Times, Suite.Plus, IdChallenge;
    var K, A := s.Times(k, G), s.Times(a, G);
    var c := IdChallenge(s, id, K, A);
    var kca := Mod(s.q, k + c * a);
    CongMod(s.q, k + c * a);
    TimesLog(s, k, G);
    TimesLog(s, a, G);
    TimesLog(s, kca, G);
    TimesLog(s, c, A);
    PlusLog(s, K, s.Times(c, A));
    NewIdLog(s.q, k, a, c, kca, K.k, A.k, s.Times(kca, G).k, s.Times(c, A).k, s.Plus(K, s.Times(c, A)).k);
  }

  lemma NewIdLog(q: int, k: int, a: int, c: int, kca: int, kg: int, ag: int, left: int, term: int, right: int)
    requires q > 0 && 0 <= left < q && 0 <= right < q && Cong(q, kca, k + c * a)
    requires Cong(q, kg, k * 1) && Cong(q, ag, a * 1) && Cong(q, left, kca * 1)
    requires Cong(q, term, c * ag) && Cong(q, right, kg + term)
    ensures left == right
  {
    CongMul(q, c, c, ag, a);
    CongAdd(q, kg, k, term, c * a);
    CongCanonical(q, left, right);
  }
}
