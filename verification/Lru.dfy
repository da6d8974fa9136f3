/** A cache that forgets its least recently used entry, as the signer uses it: most recent
    entry first. */
module Lru {
  import opened Basics

  datatype Entry<K, V> = Entry(key: K, value: V)

  type Cache<K, V> = seq<Entry<K, V>>

  function Lookup<K(==), V>(c: Cache<K, V>, k: K): Option<V> {
    if c == [] then None else if c[0].key == k then Some(c[0].value) else Lookup(c[1..], k)
  }

  predicate Has<K(==), V>(c: Cache<K, V>, k: K) {
    Lookup(c, k).Some?
  }

  function Pop<K(==), V>(c: Cache<K, V>, k: K): Cache<K, V> {
    if c == [] then [] else if c[0].key == k then c[1..] else [c[0]] + Pop(c[1..], k)
  }

  /** `get` and `get_mut`: an entry that is found becomes the most recent one. */
  function Touch<K(==), V>(c: Cache<K, V>, k: K): Cache<K, V> {
    if Has(c, k) then [Entry(k, Lookup(c, k).value)] + Pop(c, k) else c
  }

  /** `get_mut`, and a change of the value that is found. */
  function Modify<K(==), V>(c: Cache<K, V>, k: K, v: V): Cache<K, V> {
    if Has(c, k) then [Entry(k, v)] + Pop(c, k) else c
  }

  /** `put`: the entry becomes the most recent one; the oldest goes when there are too many. */
  function Put<K(==), V>(c: Cache<K, V>, capacity: nat, k: K, v: V): Cache<K, V>
    requires capacity > 0
  {
    var rest := Pop(c, k);
    [Entry(k, v)] + if |rest| < capacity then rest else rest[..capacity - 1]
  }

  predicate Distinct<K(==), V>(c: Cache<K, V>) {
    c != [] ==> !Has(c[1..], c[0].key) && Distinct(c[1..])
  }

  lemma {:induction false} PopLookup<K, V>(c: Cache<K, V>, k: K, x: K)
    requires Distinct(c)
    ensures Lookup(Pop(c, k), x) == if x == k then None else Lookup(c, x)
  {
    if c != [] && c[0].key != k {
      assert Pop(c, k)[1..] == Pop(c[1..], k);
      PopLookup(c[1..], k, x);
    }
  }

  lemma {:induction false} PopDistinct<K, V>(c: Cache<K, V>, k: K)
    requires Distinct(c)
    ensures Distinct(Pop(c, k)) && |Pop(c, k)| == if Has(c, k) then |c| - 1 else |c|
  {
    if c != [] && c[0].key != k {
      assert Pop(c, k)[1..] == Pop(c[1..], k);
      PopLookup(c[1..], k, c[0].key);
      PopDistinct(c[1..], k);
    }
  }

  /** Dropping entries at the end forgets keys and changes no other. */
  lemma {:induction false} TakeLookup<K, V>(c: Cache<K, V>, n: nat, x: K)
    requires Distinct(c) && n <= |c|
    ensures Distinct(c[..n])
    ensures Lookup(c[..n], x) == None || Lookup(c[..n], x) == Lookup(c, x)
  {
    if n > 0 {
      assert c[..n][1..] == c[1..][..n - 1];
      TakeLookup(c[1..], n - 1, x);
      TakeLookup(c[1..], n - 1, c[0].key);
    }
  }

  /** A touched cache has the same contents. */
  lemma TouchLookup<K, V>(c: Cache<K, V>, k: K, x: K)
    requires Distinct(c)
    ensures Distinct(Touch(c, k)) && |Touch(c, k)| == |c| && Lookup(Touch(c, k), x) == Lookup(c, x)
  {
    if Has(c, k) {
      assert Touch(c, k)[1..] == Pop(c, k);
      PopDistinct(c, k);
      PopLookup(c, k, k);
      PopLookup(c, k, x);
    }
  }

  /** Only the value of a key that was there changes. */
  lemma ModifyLookup<K, V>(c: Cache<K, V>, k: K, v: V, x: K)
    requires Distinct(c)
    ensures Distinct(Modify(c, k, v)) && |Modify(c, k, v)| == |c|
    ensures Lookup(Modify(c, k, v), x) == if x == k && Has(c, k) then Some(v) else Lookup(c, x)
  {
    if Has(c, k) {
      assert Modify(c, k, v)[1..] == Pop(c, k);
      PopDistinct(c, k);
      PopLookup(c, k, k);
      PopLookup(c, k, x);
    }
  }

  /** After a put the key has its new value, and every other key its old value or none. */
  lemma PutLookup<K, V>(c: Cache<K, V>, capacity: nat, k: K, v: V, x: K)
    requires capacity > 0 && Distinct(c) && |c| <= capacity
    ensures var r := Put(c, capacity, k, v);
            && Distinct(r) && |r| <= capacity && Lookup(r, k) == Some(v)
            && (x != k ==> Lookup(r, x) == None || Lookup(r, x) == Lookup(c, x))
  {
    var rest := Pop(c, k);
    PopDistinct(c, k);
    PopLookup(c, k, k);
    PopLookup(c, k, x);
    if |rest| >= capacity {
      TakeLookup(rest, capacity - 1, k);
      TakeLookup(rest, capacity - 1, x);
    }
    var r := Put(c, capacity, k, v);
    assert r[1..] == if |rest| < capacity then rest else rest[..capacity - 1];
  }

  lemma {:induction false} LookupAppend<K, V>(c: Cache<K, V>, last: Entry<K, V>, x: K)
    requires Distinct(c + [last])
    ensures Distinct(c) && Has(c + [last], last.key)
    ensures Lookup(c, x) == if x == last.key then None else Lookup(c + [last], x)
  {
    if c == [] {
      assert c + [last] == [last] && [last][1..] == [];
    } else {
      assert (c + [last])[1..] == c[1..] + [last];
      LookupAppend(c[1..], last, x);
      LookupAppend(c[1..], last, c[0].key);
    }
  }

  lemma {:induction false} PopAbsent<K, V>(c: Cache<K, V>, k: K)
    requires !Has(c, k)
    ensures Pop(c, k) == c
  {
    if c != [] { PopAbsent(c[1..], k); }
  }

  /** A put to a full cache without the key forgets the least recently used entry, which is the last
      one; otherwise nothing is forgotten. */
  lemma PutExactly<K, V>(c: Cache<K, V>, capacity: nat, k: K, v: V, x: K)
    requires capacity > 0 && Distinct(c) && |c| <= capacity
    ensures Lookup(Put(c, capacity, k, v), x) ==
            if x == k then Some(v)
            else if |c| == capacity && !Has(c, k) && x == c[|c| - 1].key then None
            else Lookup(c, x)
  {
    PopDistinct(c, k);
    if Has(c, k) || |c| < capacity {
      PopLookup(c, k, x);
      assert Put(c, capacity, k, v)[1..] == Pop(c, k);
    } else {
      PutFull(c, k, v, x);
    }
  }

  lemma PutFull<K, V>(c: Cache<K, V>, k: K, v: V, x: K)
    requires c != [] && Distinct(c) && !Has(c, k)
    ensures Lookup(Put(c, |c|, k, v), x) ==
            if x == k then Some(v) else if x == c[|c| - 1].key then None else Lookup(c, x)
  {
    PopAbsent(c, k);
    var n := |c| - 1;
    assert c == c[..n] + [c[n]];
    LookupAppend(c[..n], c[n], x);
    hide Distinct, Pop;
    assert Put(c, |c|, k, v)[1..] == c[..n];
  }
}
