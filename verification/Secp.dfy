/** The group and the hashes the signature scheme is built from.

    The curve is a cyclic group of prime order `q` with generator G, so every point is
    `k * G` for exactly one residue `k`; a point is represented by that `k`. What the
    curve adds to the group is the y-parity, which is opposite for a point and its
    negative, and the x-coordinate, which the two share. */
module Secp {
  import opened Basics
  import opened ModArith
  import opened Interpolation

  datatype Point = Point(k: int)

  const G := Point(1)

  /** An x-coordinate: of the points `k * G` and `-k * G`, where `k * G` is the one with
      even y, or of no point at all. */
  datatype FieldElement = XOf(k: int) | NotOnCurve(v: int)

  datatype Suite = Suite(
    q: int,
    evenY: int -> bool,
    xOfIdentity: FieldElement,
    sha256: Bytes -> Bytes,
    fromDigest: Bytes -> int,
    scalarBytes: int -> Bytes,
    compress: Point -> Bytes,
    xBytes: FieldElement -> Bytes,
    multimultFails: (seq<int>, seq<Point>) -> bool,
    multimultUnequal: (seq<int>, seq<Point>) -> Option<Point>)
  {
    ghost predicate Valid() {
      && ScalarField(q)
      && xOfIdentity.NotOnCurve?
      && forall k {:trigger evenY(k)} :: 0 < k < q ==> evenY(k) != evenY(q - k)
    }

    predicate IsPoint(P: Point) { 0 <= P.k < q }

    function Plus(P: Point, Q: Point): Point
      requires q > 1
    {
      Point(Mod(q, P.k + Q.k))
    }

    function Minus(P: Point, Q: Point): Point
      requires q > 1
    {
      Point(Mod(q, P.k - Q.k))
    }

    function Times(a: int, P: Point): Point
      requires q > 1
    {
      Point(Mod(q, a * P.k))
    }

    function Neg(a: int): int
      requires q > 1
    {
      Mod(q, -a)
    }

    predicate HasEvenY(P: Point) { evenY(P.k) }

    function X(P: Point): FieldElement {
      if P.k == 0 then xOfIdentity else if evenY(P.k) then XOf(P.k) else XOf(q - P.k)
    }

    function LiftX(x: FieldElement): Option<Point> {
      match x
      case XOf(k) => if 0 < k < q && evenY(k) then Some(Point(k)) else None
      case NotOnCurve(_) => None
    }

    function HashToScalar(data: Bytes): int
      requires q > 1
    {
      Mod(q, fromDigest(sha256(data)))
    }

    /** A tagged hasher starts with the hashed tag, twice. */
    function Tagged(tag: Bytes): Bytes { sha256(tag) + sha256(tag) }

    function Challenge(publicKey: Point, R: Point, msg: Bytes): int
      requires q > 1
    {
      HashToScalar(Tagged(CHALLENGE_TAG) + xBytes(X(R)) + xBytes(X(publicKey)) + msg)
    }

    function Tweak(publicKey: Point, merkleRoot: Option<Bytes>): int
      requires q > 1
    {
      HashToScalar(Tagged(TWEAK_TAG) + xBytes(X(publicKey))
                   + match merkleRoot case Some(root) => root case None => [])
    }

    /** The tweaked key of a tweak scalar; the key's own x-coordinate must lift, as the
        `unwrap` in the source demands. */
    function TweakedPublicKey(publicKey: Point, tweak: int): Point
      requires q > 1 && LiftX(X(publicKey)).Some?
    {
      Plus(LiftX(X(publicKey)).value, Times(tweak, G))
    }
  }

  /** There is a group to speak of: a prime above 2^32 with the parity of residues. */
  lemma SuiteExists() returns (s: Suite)
    ensures s.Valid()
  {
    var q := PrimeAbove(0x1_0000_0000);
    s := Suite(q, k => k % 2 == 0, NotOnCurve(0), data => data, _ => 0, _ => [], _ => [], _ => [],
               (_, _) => false, (_, _) => None);
    assert q % 2 != 0;
    forall k | 0 < k < q ensures s.evenY(k) != s.evenY(q - k) {}
  }

  // ASCII of "BIP0340/challenge", "TapTweak" and "WSTS/binding".
  const CHALLENGE_TAG: Bytes := [66, 73, 80, 48, 51, 52, 48, 47, 99, 104, 97, 108, 108, 101, 110, 103, 101]
  const TWEAK_TAG: Bytes := [84, 97, 112, 84, 119, 101, 97, 107]
  const BINDING_TAG: Bytes := [87, 83, 84, 83, 47, 98, 105, 110, 100, 105, 110, 103]

  /** The parity sign of a point: +1 for even y, -1 for odd y. */
  function Sign(s: Suite, P: Point): int {
    if s.HasEvenY(P) then 1 else -1
  }

  /** Lifting the x-coordinate of a point gives the point or its negative, whichever has
      even y; and only these two points share an x-coordinate. */
  lemma LiftedPoint(s: Suite, P: Point)
    requires s.Valid() && s.IsPoint(P) && P.k != 0
    ensures s.LiftX(s.X(P)).Some?
    ensures var Y := s.LiftX(s.X(P)).value;
            && s.IsPoint(Y) && Y.k != 0 && s.HasEvenY(Y) && s.X(Y) == s.X(P)
            && Cong(s.q, Y.k, Sign(s, P) * P.k)
    ensures forall Q :: s.IsPoint(Q) && Q.k != 0 ==>
              (s.X(Q) == s.X(P) <==> Q == P || Q == Point(s.q - P.k))
  {
    var Y := s.LiftX(s.X(P)).value;
    assert s.evenY(P.k) != s.evenY(s.q - P.k);
    if s.HasEvenY(P) {
      assert 1 * P.k == P.k;
    } else {
      assert -1 * P.k == -P.k;
      CongByMultiple(s.q, s.q - P.k, -P.k, 1);
    }
    forall Q | s.IsPoint(Q) && Q.k != 0
      ensures s.X(Q) == s.X(P) <==> Q == P || Q == Point(s.q - P.k)
    {
      assert s.evenY(Q.k) != s.evenY(s.q - Q.k);
      assert s.evenY(s.q - P.k) != s.evenY(s.q - (s.q - P.k));
    }
  }

  // ---------------------------------------------------------------------
  // Multi-multiplication and committed polynomials
  // ---------------------------------------------------------------------

  function MultiMult(s: Suite, scalars: seq<int>, points: seq<Point>): (r: Point)
    requires s.q > 1 && |scalars| == |points|
    ensures s.IsPoint(r)
  {
    if scalars == [] then Point(0)
    else s.Plus(s.Times(scalars[0], points[0]), MultiMult(s, scalars[1..], points[1..]))
  }

  /** `Point::multimult`, whose inside is not seen: it may fail, and what it does with lists of
      different length is left open. */
  function MultiMultOf(s: Suite, scalars: seq<int>, points: seq<Point>): Option<Point>
    requires s.q > 1
  {
    if |scalars| != |points| then s.multimultUnequal(scalars, points)
    else if s.multimultFails(scalars, points) then None
    else Some(MultiMult(s, scalars, points))
  }

  function Logs(points: seq<Point>): (r: seq<int>)
    ensures |r| == |points| && forall i :: 0 <= i < |r| ==> r[i] == points[i].k
  {
    seq(|points|, i requires 0 <= i < |points| => points[i].k)
  }

  /** The committed polynomial at `x`: the commitment to the polynomial's value at `x`. */
  function Poly(s: Suite, x: int, f: seq<Point>): (r: Point)
    requires s.q > 1
    ensures s.IsPoint(r)
  {
    Point(Eval(s.q, Logs(f), x))
  }

  ghost function Powers(s: Suite, x: int, p: int, n: nat): (r: seq<int>)
    requires s.q > 1
    ensures |r| == n
    decreases n
  {
    if n == 0 then [] else [p] + Powers(s, x, Mod(s.q, p * x), n - 1)
  }

  ghost function Power(s: Suite, x: int, p: int, n: nat): int
    requires s.q > 1
    decreases n
  {
    if n == 0 then p else Power(s, x, Mod(s.q, p * x), n - 1)
  }

  lemma {:induction false} PowersSnoc(s: Suite, x: int, p: int, n: nat)
    requires s.q > 1
    ensures Powers(s, x, p, n + 1) == Powers(s, x, p, n) + [Power(s, x, p, n)]
    ensures Power(s, x, p, n + 1) == Mod(s.q, Power(s, x, p, n) * x)
    decreases n
  {
    if n > 0 { PowersSnoc(s, x, Mod(s.q, p * x), n - 1); }
  }

  lemma {:induction false} MultiMultPowers(s: Suite, x: int, p: int, f: seq<Point>)
    requires s.q > 1
    ensures Cong(s.q, MultiMult(s, Powers(s, x, p, |f|), f).k, p * Eval(s.q, Logs(f), x))
    decreases |f|
  {
    var q := s.q;
    if f != [] {
      var p' := Mod(q, p * x);
      MultiMultPowers(s, x, p', f[1..]);
      assert Powers(s, x, p, |f|)[1..] == Powers(s, x, p', |f| - 1);
      assert Logs(f)[1..] == Logs(f[1..]);
      var rest, e := MultiMult(s, Powers(s, x, p', |f| - 1), f[1..]).k, Eval(q, Logs(f[1..]), x);
      CongMod(q, f[0].k + x * e);
      CongMod(q, p * x);
      CongMod(q, p * f[0].k);
      CongMod(q, Mod(q, p * f[0].k) + rest);
      PolyStep(q, p, p', x, f[0].k, e, Eval(q, Logs(f), x), rest, Mod(q, p * f[0].k),
               MultiMult(s, Powers(s, x, p, |f|), f).k);
    } else {
      assert p * 0 == 0;
    }
  }

  lemma PolyStep(q: int, p: int, p': int, x: int, c: int, e: int, value: int, rest: int, head: int, total: int)
    requires q > 0 && Cong(q, value, c + x * e) && Cong(q, p', p * x) && Cong(q, rest, p' * e)
    requires Cong(q, head, p * c) && Cong(q, total, head + rest)
    ensures Cong(q, total, p * value)
  {
    CongMul(q, p', p * x, e, e);
    CongAdd(q, head, p * c, rest, p * x * e);
    CongMul(q, p, p, value, c + x * e);
    assert p * (c + x * e) == p * c + p * x * e;
  }

  /** The multi-multiplication of `poly` fails. */
  ghost predicate PolyFails(s: Suite, x: int, f: seq<Point>)
    requires s.q > 1
  {
    s.multimultFails(Powers(s, x, 1, |f|), f)
  }

  /** `poly`: collect the powers of `x`, then multi-multiply. */
  method ComputePoly(s: Suite, x: int, f: seq<Point>) returns (r: Option<Point>)
    requires s.q > 1
    ensures r == if PolyFails(s, x, f) then None else Some(Poly(s, x, f))
  {
    var powers: seq<int> := [];
    var pow := 1;
    for n := 0 to |f|
      invariant powers == Powers(s, x, 1, n) && pow == Power(s, x, 1, n)
    {
      PowersSnoc(s, x, 1, n);
      powers := powers + [pow];
      pow := Mod(s.q, pow * x);
    }
    r := MultiMultOf(s, powers, f);
    MultiMultPowers(s, x, 1, f);
    CongCanonical(s.q, MultiMult(s, powers, f).k, Eval(s.q, Logs(f), x));
  }

  /** On commitments, the weighted evaluations of distinct ids add up to the constant term. */
  ghost function WeightedCommitments(s: Suite, ids: seq<u32>, over: seq<u32>, f: seq<Point>): (r: Point)
    requires s.q > 1
  {
    if over == [] then Point(0)
    else
      var i := over[|over| - 1];
      s.Plus(WeightedCommitments(s, ids, over[..|over| - 1], f), s.Times(Lambda(s.q, i, ids), Poly(s, i, f)))
  }

  lemma {:induction false} WeightedCommitmentsLog(s: Suite, ids: seq<u32>, over: seq<u32>, f: seq<Point>)
    requires s.q > 1
    ensures s.IsPoint(WeightedCommitments(s, ids, over, f))
    ensures Cong(s.q, WeightedCommitments(s, ids, over, f).k, WeightedSum(s.q, ids, over, Logs(f)))
  {
    if over != [] {
      var rest, i := over[..|over| - 1], over[|over| - 1];
      WeightedCommitmentsLog(s, ids, rest, f);
      var term := Lambda(s.q, i, ids) * Poly(s, i, f).k;
      CongMod(s.q, term);
      CongMod(s.q, WeightedCommitments(s, ids, rest, f).k + Mod(s.q, term));
      CongAdd(s.q, WeightedCommitments(s, ids, rest, f).k, WeightedSum(s.q, ids, rest, Logs(f)), Mod(s.q, term), term);
    }
  }

  lemma InterpolateCommitments(s: Suite, ids: seq<u32>, f: seq<Point>)
    requires s.Valid() && Distinct(ids) && 0 < |f| <= |ids| && forall P :: P in f ==> s.IsPoint(P)
    ensures WeightedCommitments(s, ids, ids, f) == f[0]
  {
    WeightedCommitmentsLog(s, ids, ids, f);
    Interpolate(s.q, ids, Logs(f));
    EvalAtZero(s.q, Logs(f));
    assert f[0] in f;
    CongCanonical(s.q, WeightedCommitments(s, ids, ids, f).k, f[0].k);
  }

  // ---------------------------------------------------------------------
  // Nonces
  // ---------------------------------------------------------------------

  datatype PublicNonce = PublicNonce(D: Point, E: Point)

  /** Everything hashed between the party id and the message. */
  ghost function NonceBytes(s: Suite, nonces: seq<PublicNonce>): Bytes {
    if nonces == [] then []
    else
      var n := nonces[|nonces| - 1];
      NonceBytes(s, nonces[..|nonces| - 1]) + s.compress(n.D) + s.compress(n.E)
  }

  ghost function Binding(s: Suite, id: int, nonces: seq<PublicNonce>, msg: Bytes): int
    requires s.q > 1
  {
    s.HashToScalar(BINDING_TAG + s.scalarBytes(id) + NonceBytes(s, nonces) + msg)
  }

  method ComputeBinding(s: Suite, id: int, nonces: seq<PublicNonce>, msg: Bytes) returns (r: int)
    requires s.q > 1
    ensures r == Binding(s, id, nonces, msg)
  {
    var hasher := BINDING_TAG + s.scalarBytes(id);
    for n := 0 to |nonces|
      invariant hasher == BINDING_TAG + s.scalarBytes(id) + NonceBytes(s, nonces[..n])
    {
      assert nonces[..n + 1][..n] == nonces[..n];
      hasher := hasher + s.compress(nonces[n].D);
      hasher := hasher + s.compress(nonces[n].E);
    }
    assert nonces[..|nonces|] == nonces;
    r := s.HashToScalar(hasher + msg);
  }

  /** The binding value over nonces compressed beforehand is the same one. */
  method ComputeBindingCompressed(s: Suite, id: int, nonces: seq<PublicNonce>, compressed: seq<(Bytes, Bytes)>,
                                  msg: Bytes) returns (r: int)
    requires s.q > 1 && |compressed| == |nonces|
    requires forall i :: 0 <= i < |nonces| ==> compressed[i] == (s.compress(nonces[i].D), s.compress(nonces[i].E))
    ensures r == Binding(s, id, nonces, msg)
  {
    var hasher := BINDING_TAG + s.scalarBytes(id);
    for n := 0 to |compressed|
      invariant hasher == BINDING_TAG + s.scalarBytes(id) + NonceBytes(s, nonces[..n])
    {
      assert nonces[..n + 1][..n] == nonces[..n];
      hasher := hasher + compressed[n].0;
      hasher := hasher + compressed[n].1;
    }
    assert nonces[..|nonces|] == nonces;
    r := s.HashToScalar(hasher + msg);
  }

  function Min(a: nat, b: nat): nat { if a <= b then a else b }

  /** The commitment of one party, bound to the message and to everyone's nonces. */
  ghost function BoundNonce(s: Suite, msg: Bytes, id: u32, nonces: seq<PublicNonce>, own: PublicNonce): Point
    requires s.q > 1
  {
    s.Plus(own.D, s.Times(Binding(s, id, nonces, msg), own.E))
  }

  ghost function BoundNonces(s: Suite, msg: Bytes, partyIds: seq<u32>, nonces: seq<PublicNonce>): (r: seq<Point>)
    requires s.q > 1
    ensures |r| == Min(|partyIds|, |nonces|)
    ensures forall i :: 0 <= i < |r| ==> r[i] == BoundNonce(s, msg, partyIds[i], nonces, nonces[i])
  {
    seq(Min(|partyIds|, |nonces|),
        i requires 0 <= i < Min(|partyIds|, |nonces|) => BoundNonce(s, msg, partyIds[i], nonces, nonces[i]))
  }

  ghost function SumPoints(s: Suite, points: seq<Point>): (r: Point)
    requires s.q > 1
    ensures s.IsPoint(r)
  {
    if points == [] then Point(0) else s.Plus(SumPoints(s, points[..|points| - 1]), points[|points| - 1])
  }

  /** `intermediate`: the bound nonces of the parties that have both an id and a nonce,
      and their sum. */
  method Intermediate(s: Suite, msg: Bytes, partyIds: seq<u32>, nonces: seq<PublicNonce>)
    returns (rs: seq<Point>, R: Point)
    requires s.q > 1
    ensures rs == BoundNonces(s, msg, partyIds, nonces) && R == SumPoints(s, rs)
  {
    hide Binding, Suite.Plus, Suite.Times;
    var rhos: seq<int> := [];
    for n := 0 to |partyIds|
      invariant |rhos| == n && forall i :: 0 <= i < n ==> rhos[i] == Binding(s, partyIds[i], nonces, msg)
    {
      var rho := ComputeBinding(s, partyIds[n], nonces, msg);
      rhos := rhos + [rho];
    }
    rs := [];
    R := Point(0);
    for n := 0 to Min(|partyIds|, |nonces|)
      invariant rs == BoundNonces(s, msg, partyIds, nonces)[..n] && R == SumPoints(s, rs)
    {
      var r := s.Plus(nonces[n].D, s.Times(rhos[n], nonces[n].E));
      R := s.Plus(R, r);
      rs := rs + [r];
      assert rs[..|rs| - 1] == BoundNonces(s, msg, partyIds, nonces)[..n];
    }
  }

  /** The scalars `1, rho_i` of the ids, interleaved. */
  ghost function NonceScalars(s: Suite, msg: Bytes, partyIds: seq<u32>, nonces: seq<PublicNonce>): seq<int>
    requires s.q > 1
  {
    if partyIds == [] then []
    else
      var n := |partyIds| - 1;
      NonceScalars(s, msg, partyIds[..n], nonces) + [1, Binding(s, partyIds[n], nonces, msg)]
  }

  /** The points `D_i, E_i` of the nonces, interleaved. */
  ghost function NoncePoints(nonces: seq<PublicNonce>): seq<Point> {
    if nonces == [] then []
    else
      var n := |nonces| - 1;
      NoncePoints(nonces[..n]) + [nonces[n].D, nonces[n].E]
  }

  lemma {:induction false} ScalarsLength(s: Suite, msg: Bytes, partyIds: seq<u32>, nonces: seq<PublicNonce>)
    requires s.q > 1
    ensures |NonceScalars(s, msg, partyIds, nonces)| == 2 * |partyIds|
  {
    if partyIds != [] {
      ScalarsLength(s, msg, partyIds[..|partyIds| - 1], nonces);
    }
  }

  lemma {:induction false} PointsLength(nonces: seq<PublicNonce>)
    ensures |NoncePoints(nonces)| == 2 * |nonces|
  {
    if nonces != [] {
      PointsLength(nonces[..|nonces| - 1]);
    }
  }

  /** On lists of one length, the interleaved multi-multiplication is the sum that
      `intermediate` folds. */
  lemma {:induction false} InterleavedSum(s: Suite, msg: Bytes, partyIds: seq<u32>, nonces: seq<PublicNonce>, n: nat)
    requires s.q > 1 && n <= |partyIds| && n <= |nonces|
    ensures |NonceScalars(s, msg, partyIds[..n], nonces)| == |NoncePoints(nonces[..n])|
    ensures MultiMult(s, NonceScalars(s, msg, partyIds[..n], nonces), NoncePoints(nonces[..n]))
         == SumPoints(s, BoundNonces(s, msg, partyIds, nonces)[..n])
  {
    ScalarsLength(s, msg, partyIds[..n], nonces);
    PointsLength(nonces[..n]);
    if n > 0 {
      hide Binding, Suite.Plus, Suite.Times, MultiMult;
      var i := n - 1;
      var bound := BoundNonces(s, msg, partyIds, nonces);
      InterleavedSum(s, msg, partyIds, nonces, i);
      InterleavedPrefix(s, msg, partyIds, nonces, i);
      InterleavedTerm(s, NonceScalars(s, msg, partyIds[..i], nonces), NoncePoints(nonces[..i]),
                      Binding(s, partyIds[i], nonces, msg), nonces[i].D, nonces[i].E);
      assert bound[..n][..i] == bound[..i];
    }
  }

  lemma InterleavedPrefix(s: Suite, msg: Bytes, partyIds: seq<u32>, nonces: seq<PublicNonce>, i: nat)
    requires s.q > 1 && i < |partyIds| && i < |nonces|
    ensures NonceScalars(s, msg, partyIds[..i + 1], nonces)
         == NonceScalars(s, msg, partyIds[..i], nonces) + [1, Binding(s, partyIds[i], nonces, msg)]
    ensures NoncePoints(nonces[..i + 1]) == NoncePoints(nonces[..i]) + [nonces[i].D, nonces[i].E]
  {
    assert partyIds[..i + 1][..i] == partyIds[..i] && nonces[..i + 1][..i] == nonces[..i];
  }

  /** `aggregate_nonce`: one multi-multiplication over the interleaved scalars and points. With
      as many ids as nonces it gives, unless it fails, the sum that `intermediate` folds; with
      lists of different length it is whatever the library makes of them. */
  method AggregateNonce(s: Suite, msg: Bytes, partyIds: seq<u32>, nonces: seq<PublicNonce>)
    returns (R: Option<Point>)
    requires s.q > 1
    ensures R == MultiMultOf(s, NonceScalars(s, msg, partyIds, nonces), NoncePoints(nonces))
    ensures |partyIds| == |nonces| && R.Some? ==> R.value == SumPoints(s, BoundNonces(s, msg, partyIds, nonces))
  {
    var compressed: seq<(Bytes, Bytes)> := [];
    for n := 0 to |nonces|
      invariant |compressed| == n
      invariant forall i :: 0 <= i < n ==> compressed[i] == (s.compress(nonces[i].D), s.compress(nonces[i].E))
    {
      compressed := compressed + [(s.compress(nonces[n].D), s.compress(nonces[n].E))];
    }
    var scalars: seq<int>, points: seq<Point> := [], [];
    for n := 0 to |partyIds|
      invariant scalars == NonceScalars(s, msg, partyIds[..n], nonces)
    {
      var rho := ComputeBindingCompressed(s, partyIds[n], nonces, compressed, msg);
      assert partyIds[..n + 1][..n] == partyIds[..n];
      scalars := scalars + [1, rho];
    }
    for n := 0 to |nonces|
      invariant points == NoncePoints(nonces[..n])
    {
      assert nonces[..n + 1][..n] == nonces[..n];
      points := points + [nonces[n].D, nonces[n].E];
    }
    assert partyIds[..|partyIds|] == partyIds && nonces[..|nonces|] == nonces;
    R := MultiMultOf(s, scalars, points);
    if |partyIds| == |nonces| {
      InterleavedSum(s, msg, partyIds, nonces, |nonces|);
      assert BoundNonces(s, msg, partyIds, nonces)[..|nonces|] == BoundNonces(s, msg, partyIds, nonces);
    }
  }

  lemma {:induction false} MultiMultAppend(s: Suite, scalars: seq<int>, points: seq<Point>, a: int, P: Point)
    requires s.q > 1 && |scalars| == |points|
    ensures Cong(s.q, MultiMult(s, scalars + [a], points + [P]).k, MultiMult(s, scalars, points).k + a * P.k)
  {
    var q := s.q;
    if scalars == [] {
      assert MultiMult(s, (scalars + [a])[1..], (points + [P])[1..]) == Point(0);
      CongMod(q, a * P.k);
      CongMod(q, Mod(q, a * P.k) + 0);
    } else {
      MultiMultAppend(s, scalars[1..], points[1..], a, P);
      assert (scalars + [a])[1..] == scalars[1..] + [a] && (points + [P])[1..] == points[1..] + [P];
      var head := Mod(q, scalars[0] * points[0].k);
      var rest := MultiMult(s, scalars[1..], points[1..]).k;
      var longer := MultiMult(s, scalars[1..] + [a], points[1..] + [P]).k;
      CongMod(q, head + rest);
      CongMod(q, head + longer);
      CongAdd(q, head, head, longer, rest + a * P.k);
      CongAdd(q, MultiMult(s, scalars, points).k, head + rest, a * P.k, a * P.k);
    }
  }

  lemma InterleavedTerm(s: Suite, scalars: seq<int>, points: seq<Point>, rho: int, D: Point, E: Point)
    requires s.q > 1 && |scalars| == |points|
    ensures MultiMult(s, scalars + [1, rho], points + [D, E])
         == s.Plus(MultiMult(s, scalars, points), s.Plus(D, s.Times(rho, E)))
  {
    hide MultiMult, Cong, Suite.Plus, Suite.Times;
    assert scalars + [1, rho] == scalars + [1] + [rho] && points + [D, E] == points + [D] + [E];
    MultiMultAppend(s, scalars, points, 1, D);
    MultiMultAppend(s, scalars + [1], points + [D], rho, E);
    TwoTerms(s, MultiMult(s, scalars, points), MultiMult(s, scalars + [1], points + [D]),
             MultiMult(s, scalars + [1, rho], points + [D, E]), rho, D, E);
  }

  lemma PlusLog(s: Suite, P: Point, Q: Point)
    requires s.q > 1
    ensures s.IsPoint(s.Plus(P, Q)) && Cong(s.q, s.Plus(P, Q).k, P.k + Q.k)
  {
    CongMod(s.q, P.k + Q.k);
  }

  lemma TimesLog(s: Suite, a: int, P: Point)
    requires s.q > 1
    ensures s.IsPoint(s.Times(a, P)) && Cong(s.q, s.Times(a, P).k, a * P.k)
  {
    CongMod(s.q, a * P.k);
  }

  lemma TwoTerms(s: Suite, m: Point, mid: Point, total: Point, rho: int, D: Point, E: Point)
    requires s.q > 1 && s.IsPoint(total)
    requires Cong(s.q, mid.k, m.k + 1 * D.k) && Cong(s.q, total.k, mid.k + rho * E.k)
    ensures total == s.Plus(m, s.Plus(D, s.Times(rho, E)))
  {
    var scaled := s.Times(rho, E);
    var term := s.Plus(D, scaled);
    TimesLog(s, rho, E);
    PlusLog(s, D, scaled);
    PlusLog(s, m, term);
    TwoTermsLog(s.q, m.k, mid.k, total.k, D.k, rho * E.k, scaled.k, term.k, s.Plus(m, term).k);
  }

  lemma TwoTermsLog(q: int, m: int, mid: int, total: int, d: int, e: int, scaled: int, term: int, sum: int)
    requires q > 0 && 0 <= total < q && 0 <= sum < q
    requires Cong(q, mid, m + 1 * d) && Cong(q, total, mid + e)
    requires Cong(q, scaled, e) && Cong(q, term, d + scaled) && Cong(q, sum, m + term)
    ensures total == sum
  {
    CongAdd(q, mid, m + 1 * d, e, e);
    CongAdd(q, d, d, scaled, e);
    CongAdd(q, m, m, term, d + e);
    CongCanonical(q, total, sum);
  }
}
