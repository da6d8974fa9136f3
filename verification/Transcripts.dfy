/** What the hashes of the signature scheme cover (wsts/src/compute.rs, `challenge`, `binding` and
    `tweak`): the laws of verification, nonces and tweaked keys with the hashed bytes spelled out. */
module Transcripts {
  import opened Basics
  import opened ModArith
  import opened Interpolation
  import opened Secp
  import opened Signing

  /** A point other than the identity, with even y. */
  ghost predicate EvenUnit(s: Suite, P: Point) {
    0 < P.k < s.q && s.evenY(P.k)
  }

  // ---------------------------------------------------------------------
  // Challenges
  // ---------------------------------------------------------------------

  /** What comes before the message: the hash of "BIP0340/challenge" twice, then both x-coordinates. */
  ghost function BeforeMessage(s: Suite, R: FieldElement, key: FieldElement): Bytes {
    var tag := s.sha256([66, 73, 80, 48, 51, 52, 48, 47, 99, 104, 97, 108, 108, 101, 110, 103, 101]);
    tag + tag + s.xBytes(R) + s.xBytes(key)
  }

  ghost function Digest(s: Suite, data: Bytes): int {
    s.fromDigest(s.sha256(data))
  }

  lemma ChallengeDigest(s: Suite, Q: Point, R: Point, msg: Bytes)
    requires s.q > 1
    ensures Cong(s.q, s.Challenge(Q, R, msg), Digest(s, BeforeMessage(s, s.X(R), s.X(Q)) + msg))
  {
    CongMod(s.q, Digest(s, BeforeMessage(s, s.X(R), s.X(Q)) + msg));
  }

  lemma ReplaceChallenge(q: int, z: int, r: int, c: int, d: int, k: int)
    requires q > 0 && Cong(q, c, d)
    ensures Cong(q, z, r + c * k) <==> Cong(q, z, r + d * k)
  {
    CongMul(q, c, d, k, k);
    CongAdd(q, r, r, c * k, d * k);
  }

  /** The verification equation of BIP-340: a proof is accepted exactly when its two x-coordinates
      are those of points R and Q with even y and the response is r + e q, where e is the tagged
      hash of R, Q and the message. */
  lemma ProofAcceptedExactly(s: Suite, proof: SchnorrProof, key: FieldElement, msg: Bytes)
    requires s.Valid()
    ensures ProofVerifies(s, proof, key, msg) <==>
            exists R, Q :: EvenUnit(s, R) && EvenUnit(s, Q) && s.X(R) == proof.r && s.X(Q) == key
                        && Cong(s.q, proof.s, R.k + Digest(s, BeforeMessage(s, proof.r, key) + msg) * Q.k)
  {
    hide Cong, Suite.Challenge, BeforeMessage, Digest;
    forall R, Q | EvenUnit(s, R) && EvenUnit(s, Q) && s.X(R) == proof.r && s.X(Q) == key
      ensures ProofVerifies(s, proof, key, msg) <==>
              Cong(s.q, proof.s, R.k + Digest(s, BeforeMessage(s, proof.r, key) + msg) * Q.k)
    {
      EvenProof(s, proof.s, R, Q, msg);
    }
    if ProofVerifies(s, proof, key, msg) {
      var Q, R := s.LiftX(key).value, s.LiftX(proof.r).value;
      assert EvenUnit(s, R) && EvenUnit(s, Q) && s.X(R) == proof.r && s.X(Q) == key;
    }
  }

  lemma EvenProof(s: Suite, z: int, R: Point, Q: Point, msg: Bytes)
    requires s.Valid() && EvenUnit(s, R) && EvenUnit(s, Q)
    ensures ProofVerifies(s, SchnorrProof(s.X(R), z), s.X(Q), msg) <==>
            Cong(s.q, z, R.k + Digest(s, BeforeMessage(s, s.X(R), s.X(Q)) + msg) * Q.k)
  {
    hide ProofVerifies, Cong, Suite.Challenge;
    ResponseAccepted(s, z, R, Q, msg);
    assert Sign(s, R) * R.k == R.k && Sign(s, Q) * Q.k == Q.k;
    ChallengeDigest(s, Q, R, msg);
    ReplaceChallenge(s.q, z, R.k, s.Challenge(Q, R, msg), Digest(s, BeforeMessage(s, s.X(R), s.X(Q)) + msg), Q.k);
  }

  /** The same for a plain signature, where no parity is looked at. */
  lemma SignatureAcceptedExactly(s: Suite, sig: Signature, P: Point, msg: Bytes)
    requires s.Valid() && s.IsPoint(sig.R)
    ensures SignatureVerifies(s, sig, P, msg) <==>
            Cong(s.q, sig.z, sig.R.k + Digest(s, BeforeMessage(s, s.X(sig.R), s.X(P)) + msg) * P.k)
  {
    hide SignatureVerifies, Cong, Suite.Challenge;
    SignatureLog(s, sig, P, msg);
    ChallengeDigest(s, P, sig.R, msg);
    ReplaceChallenge(s.q, sig.z, sig.R.k, s.Challenge(P, sig.R, msg),
                     Digest(s, BeforeMessage(s, s.X(sig.R), s.X(P)) + msg), P.k);
  }

  lemma SameResponse(q: int, z: int, r: int, c: int, d: int, k: int)
    requires IsPrime(q) && Mod(q, k) != 0 && Cong(q, z, r + c * k)
    ensures Cong(q, z, r + d * k) <==> Cong(q, c, d)
  {
    hide IsPrime;
    if Cong(q, c, d) { ReplaceChallenge(q, z, r, c, d, k); }
    if Cong(q, z, r + d * k) {
      CongSub(q, r + c * k, r + d * k, r, r);
      assert k * c == c * k && k * d == d * k;
      CancelNonZero(q, k, c, d);
    }
  }

  /** A proof for one message is a proof for another, under the same key, exactly when the two
      messages hash to the same scalar. */
  lemma ProofAcrossMessages(s: Suite, z: int, R: Point, Q: Point, msg: Bytes, other: Bytes)
    requires s.Valid() && s.IsPoint(R) && R.k != 0 && s.IsPoint(Q) && Q.k != 0
    requires ProofVerifies(s, SchnorrProof(s.X(R), z), s.X(Q), msg)
    ensures ProofVerifies(s, SchnorrProof(s.X(R), z), s.X(Q), other) <==>
            var before := BeforeMessage(s, s.X(R), s.X(Q));
            Cong(s.q, Digest(s, before + msg), Digest(s, before + other))
  {
    hide ProofVerifies, Cong, Digest, BeforeMessage;
    LiftedPoint(s, R);
    LiftedPoint(s, Q);
    var E, Y := s.LiftX(s.X(R)).value, s.LiftX(s.X(Q)).value;
    EvenProof(s, z, E, Y, msg);
    EvenProof(s, z, E, Y, other);
    var before := BeforeMessage(s, s.X(R), s.X(Q));
    ModUnique(s.q, Y.k, 0, Y.k);
    SameResponse(s.q, z, E.k, Digest(s, before + msg), Digest(s, before + other), Y.k);
  }

  lemma SignatureAcrossMessages(s: Suite, sig: Signature, P: Point, msg: Bytes, other: Bytes)
    requires s.Valid() && s.IsPoint(sig.R) && s.IsPoint(P) && P.k != 0 && SignatureVerifies(s, sig, P, msg)
    ensures SignatureVerifies(s, sig, P, other) <==>
            var before := BeforeMessage(s, s.X(sig.R), s.X(P));
            Cong(s.q, Digest(s, before + msg), Digest(s, before + other))
  {
    hide SignatureVerifies, Cong, Digest, BeforeMessage;
    SignatureAcceptedExactly(s, sig, P, msg);
    SignatureAcceptedExactly(s, sig, P, other);
    var before := BeforeMessage(s, s.X(sig.R), s.X(P));
    ModUnique(s.q, P.k, 0, P.k);
    SameResponse(s.q, sig.z, sig.R.k, Digest(s, before + msg), Digest(s, before + other), P.k);
  }

  /** There is a suite with a proof and a signature that are accepted for one message alone. */
  lemma MessagesMatter() returns (s: Suite, proof: SchnorrProof, sig: Signature, key: Point)
    ensures s.Valid() && s.IsPoint(sig.R) && s.IsPoint(key)
    ensures ProofVerifies(s, proof, s.X(key), []) && !ProofVerifies(s, proof, s.X(key), [0])
    ensures SignatureVerifies(s, sig, key, []) && !SignatureVerifies(s, sig, key, [0])
  {
    var q := PrimeAbove(0x1_0000_0000);
    s := LengthSuite(q);
    LengthSuiteValid(q);
    key := Point(2);
    sig := Signature(Point(2), 2 + 34 * 2);
    proof := ToProof(s, sig);
    ForEmpty(s, 2 + 34 * 2, key);
    LengthsDiffer(s, s.X(key));
    ProofAcrossMessages(s, 2 + 34 * 2, key, key, [], [0]);
    SignatureAcrossMessages(s, sig, key, [], [0]);
  }

  /** Residue parity as y-parity, and the length of the data as its digest. */
  function LengthSuite(q: int): Suite {
    Suite(q, k => k % 2 == 0, NotOnCurve(0), data => data, data => |data|, _ => [], _ => [], _ => [],
          (_, _) => false, (_, _) => None)
  }

  lemma LengthSuiteValid(q: int)
    requires ScalarField(q)
    ensures LengthSuite(q).Valid()
  {
    var s := LengthSuite(q);
    assert q % 2 != 0;
    forall k | 0 < k < q ensures s.evenY(k) != s.evenY(q - k) {}
  }

  lemma LengthsDiffer(s: Suite, x: FieldElement)
    requires ScalarField(s.q) && s == LengthSuite(s.q)
    ensures Digest(s, BeforeMessage(s, x, x) + []) == 34
    ensures !Cong(s.q, Digest(s, BeforeMessage(s, x, x) + []), Digest(s, BeforeMessage(s, x, x) + [0]))
  {
    ModUnique(s.q, 34, 0, 34);
    ModUnique(s.q, 35, 0, 35);
  }

  lemma ForEmpty(s: Suite, z: int, key: Point)
    requires s.Valid() && s == LengthSuite(s.q) && z == 2 + 34 * 2 && key == Point(2)
    ensures ProofVerifies(s, SchnorrProof(s.X(key), z), s.X(key), [])
    ensures SignatureVerifies(s, Signature(key, z), key, [])
  {
    hide ProofVerifies, SignatureVerifies;
    LengthsDiffer(s, s.X(key));
    EvenProof(s, z, key, key, []);
    SignatureAcceptedExactly(s, Signature(key, z), key, []);
  }

  // ---------------------------------------------------------------------
  // Binding values
  // ---------------------------------------------------------------------

  function Concat(parts: seq<Bytes>): Bytes {
    if parts == [] then [] else parts[0] + Concat(parts[1..])
  }

  lemma {:induction false} ConcatSnoc(parts: seq<Bytes>, last: Bytes)
    ensures Concat(parts + [last]) == Concat(parts) + last
  {
    if parts == [] {
      assert ([] + [last])[1..] == [];
    } else {
      assert (parts + [last])[1..] == parts[1..] + [last];
      ConcatSnoc(parts[1..], last);
    }
  }

  /** Every nonce as two compressed points, hiding one first, in list order. */
  ghost function Compressed(s: Suite, nonces: seq<PublicNonce>): seq<Bytes> {
    seq(2 * |nonces|, i requires 0 <= i < 2 * |nonces| =>
      if i % 2 == 0 then s.compress(nonces[i / 2].D) else s.compress(nonces[i / 2].E))
  }

  lemma {:induction false} NoncesJoined(s: Suite, nonces: seq<PublicNonce>)
    ensures NonceBytes(s, nonces) == Concat(Compressed(s, nonces))
  {
    if nonces == [] {
      assert Compressed(s, nonces) == [];
    } else {
      var before, n := nonces[..|nonces| - 1], nonces[|nonces| - 1];
      NoncesJoined(s, before);
      assert Compressed(s, nonces) == Compressed(s, before) + [s.compress(n.D)] + [s.compress(n.E)];
      ConcatSnoc(Compressed(s, before), s.compress(n.D));
      ConcatSnoc(Compressed(s, before) + [s.compress(n.D)], s.compress(n.E));
    }
  }

  /** Before the message: "WSTS/binding", the party's id, and everyone's nonces. */
  ghost function BeforeBound(s: Suite, id: int, nonces: seq<PublicNonce>): Bytes {
    [87, 83, 84, 83, 47, 98, 105, 110, 100, 105, 110, 103] + s.scalarBytes(id) + Concat(Compressed(s, nonces))
  }

  /** A party's bound nonce is D + rho E, where rho is the hash of the id, of all nonces in order
      and of the message. */
  lemma BoundNonceExactly(s: Suite, msg: Bytes, id: u32, nonces: seq<PublicNonce>, own: PublicNonce)
    requires s.q > 1
    ensures var b := BoundNonce(s, msg, id, nonces, own);
            s.IsPoint(b) && Cong(s.q, b.k, own.D.k + Digest(s, BeforeBound(s, id, nonces) + msg) * own.E.k)
  {
    hide Cong, Suite.Plus, Suite.Times, Concat, NonceBytes;
    NoncesJoined(s, nonces);
    var rho, digest := Binding(s, id, nonces, msg), Digest(s, BeforeBound(s, id, nonces) + msg);
    CongMod(s.q, digest);
    TimesLog(s, rho, own.E);
    PlusLog(s, own.D, s.Times(rho, own.E));
    BoundLog(s.q, own.D.k, own.E.k, rho, digest, s.Times(rho, own.E).k,
             s.Plus(own.D, s.Times(rho, own.E)).k);
  }

  lemma BoundLog(q: int, d: int, e: int, rho: int, digest: int, term: int, total: int)
    requires q > 0 && Cong(q, rho, digest) && Cong(q, term, rho * e) && Cong(q, total, d + term)
    ensures Cong(q, total, d + digest * e)
  {
    CongMul(q, rho, digest, e, e);
    CongAdd(q, d, d, term, digest * e);
  }

  /** Two messages bind a nonce alike exactly when they hash to the same scalar; so do two lists of
      nonces. */
  lemma BoundAcross(s: Suite, id: u32, own: PublicNonce, msg: Bytes, nonces: seq<PublicNonce>, other: Bytes,
                    others: seq<PublicNonce>)
    requires s.Valid() && s.IsPoint(own.E) && own.E.k != 0
    ensures BoundNonce(s, msg, id, nonces, own) == BoundNonce(s, other, id, others, own) <==>
            Cong(s.q, Digest(s, BeforeBound(s, id, nonces) + msg), Digest(s, BeforeBound(s, id, others) + other))
  {
    hide Cong, BoundNonce, Digest, BeforeBound;
    BoundNonceExactly(s, msg, id, nonces, own);
    BoundNonceExactly(s, other, id, others, own);
    ModUnique(s.q, own.E.k, 0, own.E.k);
    SamePoint(s.q, BoundNonce(s, msg, id, nonces, own).k, BoundNonce(s, other, id, others, own).k, own.D.k,
              Digest(s, BeforeBound(s, id, nonces) + msg), Digest(s, BeforeBound(s, id, others) + other), own.E.k);
  }

  lemma SamePoint(q: int, a: int, b: int, base: int, c: int, d: int, k: int)
    requires IsPrime(q) && Mod(q, k) != 0 && 0 <= a < q && 0 <= b < q
    requires Cong(q, a, base + c * k) && Cong(q, b, base + d * k)
    ensures a == b <==> Cong(q, c, d)
  {
    SameResponse(q, a, base, c, d, k);
    if Cong(q, c, d) { CongCanonical(q, a, b); }
  }

  // ---------------------------------------------------------------------
  // Tweaked keys
  // ---------------------------------------------------------------------

  /** The hash of "TapTweak" twice, the x-coordinate of the key, and the merkle root if there is one. */
  ghost function TweakData(s: Suite, P: Point, merkleRoot: Option<Bytes>): Bytes {
    var tag := s.sha256([84, 97, 112, 84, 119, 101, 97, 107]);
    tag + tag + s.xBytes(s.X(P)) + (if merkleRoot.Some? then merkleRoot.value else [])
  }

  /** The output key of BIP-341: the even form of the key plus the tagged hash of it and the root;
      two roots give one output key exactly when they hash to the same scalar. */
  lemma TweakedKeyExactly(s: Suite, P: Point, root: Option<Bytes>, other: Option<Bytes>)
    requires s.Valid() && s.IsPoint(P) && P.k != 0
    ensures s.LiftX(s.X(P)).Some?
    ensures var Q := s.TweakedPublicKey(P, s.Tweak(P, root));
            && s.IsPoint(Q)
            && Cong(s.q, Q.k, (if s.evenY(P.k) then P.k else -P.k) + Digest(s, TweakData(s, P, root)))
    ensures s.TweakedPublicKey(P, s.Tweak(P, root)) == s.TweakedPublicKey(P, s.Tweak(P, other)) <==>
            Cong(s.q, Digest(s, TweakData(s, P, root)), Digest(s, TweakData(s, P, other)))
  {
    hide Cong;
    OutputKey(s, P, root);
    OutputKey(s, P, other);
    hide Suite.TweakedPublicKey, Suite.Tweak, TweakData, Digest;
    var even := if s.evenY(P.k) then P.k else -P.k;
    var Q, Q' := s.TweakedPublicKey(P, s.Tweak(P, root)), s.TweakedPublicKey(P, s.Tweak(P, other));
    var d, d' := Digest(s, TweakData(s, P, root)), Digest(s, TweakData(s, P, other));
    ModUnique(s.q, 1, 0, 1);
    assert d * 1 == d && d' * 1 == d';
    SamePoint(s.q, Q.k, Q'.k, even, d, d', 1);
  }

  lemma OutputKey(s: Suite, P: Point, root: Option<Bytes>)
    requires s.Valid() && s.IsPoint(P) && P.k != 0
    ensures s.LiftX(s.X(P)).Some?
    ensures var Q := s.TweakedPublicKey(P, s.Tweak(P, root));
            && s.IsPoint(Q)
            && Cong(s.q, Q.k, (if s.evenY(P.k) then P.k else -P.k) + Digest(s, TweakData(s, P, root)))
  {
    hide Cong, Suite.Plus, Suite.Times;
    LiftedPoint(s, P);
    var Y, t, digest := s.LiftX(s.X(P)).value, s.Tweak(P, root), Digest(s, TweakData(s, P, root));
    CongMod(s.q, digest);
    TimesLog(s, t, G);
    PlusLog(s, Y, s.Times(t, G));
    OutputLog(s.q, Y.k, Sign(s, P) * P.k, t, digest, s.Times(t, G).k, s.Plus(Y, s.Times(t, G)).k);
  }

  lemma OutputLog(q: int, y: int, even: int, t: int, digest: int, tg: int, k: int)
    requires q > 0 && Cong(q, y, even) && Cong(q, t, digest) && Cong(q, tg, t * 1) && Cong(q, k, y + tg)
    ensures Cong(q, k, even + digest)
  {
    CongAdd(q, y, even, tg, digest);
  }
}
