/** How signers are numbered (signer/src/wsts_state_machine.rs). Keys are ordered; a map's
    values come in any order. */
module SignerNumbering {
  import opened Sequences

  type Key = int

  /** What the constructors hand to WSTS. */
  datatype Config = Config(signers: map<nat, Key>, keyIds: map<nat, set<nat>>)

  /** Enumerate the signers in the order they come. */
  function Enumerate(signers: seq<Key>, n: nat): (m: map<nat, Key>)
    requires n <= |signers|
    ensures |m| == n && forall id :: id in m <==> 0 <= id < n
    ensures forall id :: id in m ==> m[id] == signers[id]
  {
    if n == 0 then map[]
    else
      var before := Enumerate(signers, n - 1);
      assert n - 1 !in before;
      before[n - 1 := signers[n - 1]]
  }

  /** The key ids of the signers with ids below `n`. */
  function KeyRange(n: nat): (m: map<nat, set<nat>>)
    ensures forall id :: id in m <==> 0 <= id < n
    ensures forall id :: id in m ==> m[id] == {id + 1}
  {
    if n == 0 then map[] else KeyRange(n - 1)[n - 1 := {n}]
  }

  /** `FireCoordinator::new` and `FrostCoordinator::new`: key ids for the range of the ids. */
  function CoordinatorConfig(signers: seq<Key>): Config {
    var keys := Enumerate(signers, |signers|);
    Config(keys, KeyRange(|keys|))
  }

  /** `SignerStateMachine::new`: key ids for the entries of the map. */
  function SignerConfig(signers: seq<Key>): Config {
    var keys := Enumerate(signers, |signers|);
    Config(keys, map id | id in keys :: {id + 1})
  }

  /** The constructors agree: ids are the positions, and the key ids of the signers are
      disjoint and together 1..n. */
  lemma SameNumbering(signers: seq<Key>)
    ensures CoordinatorConfig(signers) == SignerConfig(signers)
    ensures var c := CoordinatorConfig(signers);
            && (forall id :: id in c.signers <==> 0 <= id < |signers|)
            && (forall id :: id in c.keyIds <==> 0 <= id < |signers|)
            && (forall id, k :: id in c.keyIds && k in c.keyIds[id] ==> 1 <= k <= |signers|)
            && (forall id: nat :: id < |signers| ==> id + 1 in c.keyIds[id])
            && (forall a, b, k :: a in c.keyIds && b in c.keyIds && k in c.keyIds[a] && k in c.keyIds[b] ==> a == b)
  {
    assert CoordinatorConfig(signers).keyIds == SignerConfig(signers).keyIds;
  }

  ghost predicate NoDuplicates(s: seq<Key>) {
    forall i, j :: 0 <= i < j < |s| ==> s[i] != s[j]
  }

  /** Without duplicates ids and keys are in bijection, so a signer's own id is determined
      however the map is searched. */
  lemma OwnId(signers: seq<Key>, id: nat, other: nat)
    requires NoDuplicates(signers)
    requires id in SignerConfig(signers).signers && other in SignerConfig(signers).signers
    ensures SignerConfig(signers).signers[id] == SignerConfig(signers).signers[other] <==> id == other
  {}

  // ---------------------------------------------------------------------
  // Storing and loading
  // ---------------------------------------------------------------------

  predicate Sorted(s: seq<Key>) {
    forall i, j :: 0 <= i < j < |s| ==> s[i] <= s[j]
  }

  lemma Behead(a: seq<Key>)
    requires a != []
    ensures multiset(a[1..]) == multiset(a) - multiset{a[0]}
  {
    assert a == [a[0]] + a[1..];
  }

  lemma FirstIsLeast(a: seq<Key>, k: Key)
    requires Sorted(a) && k in multiset(a)
    ensures a != [] && a[0] <= k && a[0] in multiset(a) && Sorted(a[1..])
  {
    var i :| 0 <= i < |a| && a[i] == k;
  }

  lemma SameFirst(a: seq<Key>, b: seq<Key>)
    requires Sorted(a) && Sorted(b) && multiset(a) == multiset(b) && a != []
    ensures b != [] && a[0] == b[0] && Sorted(a[1..]) && Sorted(b[1..])
  {
    hide Sorted;
    FirstIsLeast(b, a[0]);
    FirstIsLeast(a, b[0]);
  }

  lemma Rejoin(a: seq<Key>, b: seq<Key>)
    requires a != [] && b != [] && a[0] == b[0] && a[1..] == b[1..]
    ensures a == b
  {
    assert a == [a[0]] + a[1..];
    assert b == [b[0]] + b[1..];
  }

  /** A sorted arrangement is unique. */
  lemma {:induction false} SortedUnique(a: seq<Key>, b: seq<Key>)
    requires Sorted(a) && Sorted(b) && multiset(a) == multiset(b)
    ensures a == b
  {
    hide Sorted;
    if a == [] {
      assert |multiset(b)| == 0;
    } else {
      SameFirst(a, b);
      Behead(a);
      Behead(b);
      SortedUnique(a[1..], b[1..]);
      Rejoin(a, b);
    }
  }

  lemma SameSigners(a: seq<Key>, b: seq<Key>)
    requires SignerConfig(a) == SignerConfig(b)
    ensures a == b
  {
    assert |SignerConfig(a).signers| == |a| && |SignerConfig(b).signers| == |b|;
    forall i | 0 <= i < |a| ensures a[i] == b[i] {
      assert i in SignerConfig(a).signers;
    }
  }

  // ---------------------------------------------------------------------
  // Values of a map, in any order
  // ---------------------------------------------------------------------

  predicate Known(signers: map<nat, Key>, order: seq<nat>) {
    forall i :: 0 <= i < |order| ==> order[i] in signers
  }

  /** The values at the given ids, in this order. */
  function Listed(signers: map<nat, Key>, order: seq<nat>): (values: seq<Key>)
    requires Known(signers, order)
    ensures |values| == |order| && forall i :: 0 <= i < |order| ==> values[i] == signers[order[i]]
  {
    seq(|order|, i requires 0 <= i < |order| => signers[order[i]])
  }

  function Ids(n: nat): (ids: seq<nat>)
    ensures |ids| == n && forall i :: 0 <= i < n ==> ids[i] == i
  {
    seq(n, i => i)
  }

  lemma ListedSplit(signers: map<nat, Key>, b1: seq<nat>, x: nat, b2: seq<nat>)
    requires Known(signers, b1 + ([x] + b2))
    ensures x in signers && Known(signers, b1 + b2)
    ensures multiset(Listed(signers, b1 + ([x] + b2))) == multiset(Listed(signers, b1 + b2)) + multiset{signers[x]}
  {
    var n := |b1|;
    assert (b1 + ([x] + b2))[n] == x;
    forall i | 0 <= i < |b1 + b2| ensures (b1 + b2)[i] in signers {
      assert (b1 + b2)[i] == (b1 + ([x] + b2))[if i < n then i else i + 1];
    }
    var all, rest := Listed(signers, b1 + ([x] + b2)), Listed(signers, b1 + b2);
    assert all == all[..n] + ([signers[x]] + all[n + 1..]);
    assert rest == rest[..n] + rest[n..];
    assert all[..n] == rest[..n] && all[n + 1..] == rest[n..];
  }

  /** Listing the ids in another order permutes the values. */
  lemma {:induction false} ListedPermuted(signers: map<nat, Key>, a: seq<nat>, b: seq<nat>)
    requires multiset(a) == multiset(b) && Known(signers, a) && Known(signers, b)
    ensures multiset(Listed(signers, a)) == multiset(Listed(signers, b))
  {
    hide Known;
    if a == [] {
      assert |multiset(b)| == 0;
      assert a == b;
    } else {
      assert a == [] + ([a[0]] + a[1..]) && [] + a[1..] == a[1..];
      var b1, b2 := TakeOut([], a[0], a[1..], b);
      ListedSplit(signers, b1, a[0], b2);
      ListedSplit(signers, [], a[0], a[1..]);
      ListedPermuted(signers, a[1..], b1 + b2);
    }
  }

  // ---------------------------------------------------------------------
  // The stored keys as an ordered set
  // ---------------------------------------------------------------------

  predicate Increasing(s: seq<Key>) {
    forall i, j :: 0 <= i < j < |s| ==> s[i] < s[j]
  }

  /** The keys of a sorted sequence as a BTreeSet yields them: each once, in order. */
  function SetOf(s: seq<Key>): (r: seq<Key>)
    requires Sorted(s)
    ensures Increasing(r) && forall k :: k in r <==> k in s
    ensures s != [] ==> r != [] && r[0] == s[0]
  {
    if |s| <= 1 then s
    else
      var rest := SetOf(s[1..]);
      assert forall k :: k in s <==> k == s[0] || k in s[1..];
      if s[0] == s[1] then rest else [s[0]] + rest
  }

  /** An increasing sequence is its own set. */
  lemma {:induction false} SetOfIncreasing(s: seq<Key>)
    requires Increasing(s)
    ensures Sorted(s) && SetOf(s) == s
  {
    if |s| > 1 {
      SetOfIncreasing(s[1..]);
      assert s == [s[0]] + s[1..];
    }
  }

  /** What is stored is the values of the map in the order of its iteration, whatever that is,
      then sorted; loading numbers the set of the stored keys. The numbering is the same
      exactly when the signers came without duplicates and in order. */
  lemma StoredNumbering(signers: seq<Key>, order: seq<nat>, stored: seq<Key>)
    requires multiset(order) == multiset(Ids(|signers|)) && Known(SignerConfig(signers).signers, order)
    requires Sorted(stored) && multiset(stored) == multiset(Listed(SignerConfig(signers).signers, order))
    ensures SignerConfig(SetOf(stored)) == SignerConfig(signers) <==> Increasing(signers)
  {
    var numbered := SignerConfig(signers).signers;
    ListedPermuted(numbered, order, Ids(|signers|));
    assert Listed(numbered, Ids(|signers|)) == signers;
    if Increasing(signers) {
      SortedUnique(stored, signers);
      SetOfIncreasing(signers);
    }
    if SignerConfig(SetOf(stored)) == SignerConfig(signers) {
      SameSigners(SetOf(stored), signers);
    }
  }

  lemma DifferentSigners(a: seq<Key>, b: seq<Key>)
    requires a != b
    ensures SignerConfig(a) != SignerConfig(b)
  {
    if SignerConfig(a) == SignerConfig(b) {
      SameSigners(a, b);
    }
  }

  /** Signers out of order, or the same twice, are numbered differently after loading. */
  lemma UnorderedChanges(a: Key, b: Key)
    requires a < b
    ensures SignerConfig(SetOf([a, b])) != SignerConfig([b, a])
    ensures SignerConfig(SetOf([a, a])) != SignerConfig([a, a])
  {
    hide SignerConfig;
    SetOfIncreasing([a, b]);
    DifferentSigners([a, b], [b, a]);
    var once := SetOf([a, a]);
    assert once != [a, a] by { assert |once| == 2 ==> once[0] < once[1]; }
    DifferentSigners(once, [a, a]);
  }
}
