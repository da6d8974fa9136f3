/** How the block observer copies the bitcoin chain into its database
    (signer/src/block_observer.rs): a walk back over headers, a replay forward with one
    transaction per block, and the update of the canonical chain. Every remote call and
    every query may fail; which ones do is a parameter of each step. */
module BlockObserver {
  import opened Basics

  type Hash = int

  datatype Header = Header(hash: Hash, height: nat, parent: Hash)

  /** What a block hash stands for. Bitcoin-core may or may not answer when asked, but it
      never gives two answers for one hash. */
  datatype Chain = Chain(header: Hash -> Header) {
    ghost predicate Linked(h: Hash) {
      header(h).hash == h && (header(h).height > 0 ==> header(header(h).parent).height == header(h).height - 1)
    }

    ghost predicate Valid() {
      forall h :: Linked(h)
    }

    function Height(h: Hash): nat {
      header(h).height
    }

    function Parent(h: Hash): Hash {
      header(h).parent
    }

    /** The block `n` generations above `h`. */
    function Ancestor(h: Hash, n: nat): Hash
      decreases n
    {
      if n == 0 then h else Ancestor(Parent(h), n - 1)
    }

    predicate Descends(h: Hash, from: Hash) {
      Height(from) <= Height(h) && Ancestor(h, Height(h) - Height(from)) == from
    }
  }

  /** One block per height is a chain. */
  lemma ChainExists()
    ensures Chain(h => if h > 0 then Header(h, h, h - 1) else Header(h, 0, h)).Valid()
  {
    var chain := Chain(h => if h > 0 then Header(h, h, h - 1) else Header(h, 0, h));
    assert forall h :: chain.Linked(h);
  }

  lemma HashOfHeader(chain: Chain, h: Hash)
    requires chain.Valid()
    ensures chain.header(h).hash == h
  {
    assert chain.Linked(h);
  }

  lemma {:induction false} AncestorHeight(chain: Chain, h: Hash, n: nat)
    requires chain.Valid() && n <= chain.Height(h)
    ensures chain.Height(chain.Ancestor(h, n)) == chain.Height(h) - n
    decreases n
  {
    if n > 0 {
      assert chain.Linked(h);
      AncestorHeight(chain, chain.Parent(h), n - 1);
    }
  }

  lemma AncestorStep(chain: Chain, h: Hash, n: nat)
    ensures chain.Ancestor(h, 0) == h && chain.Ancestor(h, n + 1) == chain.Ancestor(chain.Parent(h), n)
  {}

  lemma {:induction false} AncestorSplit(chain: Chain, h: Hash, n: nat, m: nat)
    ensures chain.Ancestor(h, n + m) == chain.Ancestor(chain.Ancestor(h, n), m)
    decreases n
  {
    if n > 0 {
      AncestorSplit(chain, chain.Parent(h), n - 1, m);
    }
  }

  /** Below an ancestor, descent from the ancestor and from the descendant are the same. */
  lemma DescendsThrough(chain: Chain, h: Hash, mid: Hash, low: Hash)
    requires chain.Valid() && chain.Descends(h, mid) && chain.Height(low) <= chain.Height(mid)
    ensures chain.Descends(h, low) <==> chain.Descends(mid, low)
  {
    AncestorSplit(chain, h, chain.Height(h) - chain.Height(mid), chain.Height(mid) - chain.Height(low));
  }

  // ---------------------------------------------------------------------
  // The database
  // ---------------------------------------------------------------------

  /** A row of the bitcoin_blocks table; `canonical` is a nullable column. */
  datatype Row = Row(height: nat, parent: Hash, canonical: Option<bool>)

  /** `extracted` holds the blocks whose sBTC transactions have been written; `start` is
      the lowest height that is ever stored. */
  datatype Db = Db(start: nat, rows: map<Hash, Row>, extracted: set<Hash>)

  /** The stored blocks are blocks of the chain, from the start height up, and with each
      block above the start height its parent is there. */
  ghost predicate Closed(chain: Chain, db: Db) {
    forall h :: h in db.rows ==>
      && db.rows[h].height == chain.Height(h) >= db.start
      && db.rows[h].parent == chain.Parent(h)
      && (chain.Height(h) > db.start ==> chain.Parent(h) in db.rows)
  }

  /** The whole ancestry of `h` down to the start height is stored. */
  ghost predicate AncestryStored(chain: Chain, db: Db, h: Hash) {
    forall n: nat :: db.start + n <= chain.Height(h) ==> chain.Ancestor(h, n) in db.rows
  }

  lemma {:induction false} ClosedAncestor(chain: Chain, db: Db, h: Hash, n: nat)
    requires chain.Valid() && Closed(chain, db) && h in db.rows && db.start + n <= chain.Height(h)
    ensures chain.Ancestor(h, n) in db.rows
    decreases n
  {
    if n > 0 {
      assert chain.Linked(h);
      ClosedAncestor(chain, db, chain.Parent(h), n - 1);
    }
  }

  lemma ClosedAncestry(chain: Chain, db: Db, h: Hash)
    requires chain.Valid() && Closed(chain, db) && h in db.rows
    ensures AncestryStored(chain, db, h)
  {
    forall n: nat | db.start + n <= chain.Height(h) ensures chain.Ancestor(h, n) in db.rows {
      ClosedAncestor(chain, db, h, n);
    }
  }

  // ---------------------------------------------------------------------
  // The walk back
  // ---------------------------------------------------------------------

  datatype Error = StorageError | ClientError | UnknownBlockHeader(hash: Hash)

  /** What happens when the walk asks about a hash: its database first, then bitcoin-core. */
  datatype Lookup = StorageFails | ClientFails | NotFound | Answers

  /** `next_headers_to_process`: what the walk from `h` returns. */
  function Walk(chain: Chain, db: Db, lookup: Hash -> Lookup, h: Hash): Result<seq<Header>, Error>
    requires chain.Valid()
    decreases chain.Height(h)
  {
    assert chain.Linked(h);
    if lookup(h).StorageFails? then Err(StorageError)
    else if h in db.rows then Ok([])
    else if lookup(h).ClientFails? then Err(ClientError)
    else if lookup(h).NotFound? then Err(UnknownBlockHeader(h))
    else if chain.Height(h) < db.start then Ok([])
    else if chain.Height(h) == db.start then Ok([chain.header(h)])
    else Extend(Walk(chain, db, lookup, chain.Parent(h)), [chain.header(h)])
  }

  function Extend(r: Result<seq<Header>, Error>, headers: seq<Header>): Result<seq<Header>, Error> {
    match r
    case Ok(below) => Ok(below + headers)
    case Err(e) => Err(e)
  }

  /** `headers` is a stretch of unknown blocks from the lowest to the highest, that can be
      stored in this order without leaving a gap. */
  ghost predicate Replayable(chain: Chain, db: Db, headers: seq<Header>) {
    && (forall i :: 0 <= i < |headers| ==>
          headers[i] == chain.header(headers[i].hash) && headers[i].hash !in db.rows && headers[i].height >= db.start)
    && (forall i :: 0 < i < |headers| ==>
          headers[i].parent == headers[i - 1].hash && headers[i].height == headers[i - 1].height + 1)
    && (headers != [] ==> headers[0].height == db.start || headers[0].parent in db.rows)
  }

  lemma {:induction false} WalkReplayable(chain: Chain, db: Db, lookup: Hash -> Lookup, h: Hash)
    requires chain.Valid() && Walk(chain, db, lookup, h).Ok?
    ensures var headers := Walk(chain, db, lookup, h).value;
            && Replayable(chain, db, headers)
            && (headers == [] <==> h in db.rows || chain.Height(h) < db.start)
            && (headers != [] ==> headers[|headers| - 1] == chain.header(h))
    decreases chain.Height(h)
  {
    assert chain.Linked(h);
    if !(h in db.rows || chain.Height(h) <= db.start) {
      assert chain.Linked(chain.Parent(h));
      WalkReplayable(chain, db, lookup, chain.Parent(h));
    }
  }

  /** The walk from `h` asks about its `n`-th ancestor. */
  ghost predicate Asked(chain: Chain, db: Db, h: Hash, n: nat) {
    (n == 0 || db.start + n <= chain.Height(h)) && forall m: nat :: m < n ==> chain.Ancestor(h, m) !in db.rows
  }

  ghost predicate Answered(db: Db, lookup: Hash -> Lookup, h: Hash) {
    lookup(h).Answers? || (!lookup(h).StorageFails? && h in db.rows)
  }

  /** The walk succeeds exactly when every question it asks is answered. */
  lemma {:induction false} WalkSucceeds(chain: Chain, db: Db, lookup: Hash -> Lookup, h: Hash)
    requires chain.Valid()
    ensures Walk(chain, db, lookup, h).Ok? <==>
            forall n: nat :: Asked(chain, db, h, n) ==> Answered(db, lookup, chain.Ancestor(h, n))
    decreases chain.Height(h)
  {
    assert chain.Linked(h);
    assert Asked(chain, db, h, 0) && chain.Ancestor(h, 0) == h;
    if h in db.rows || chain.Height(h) <= db.start {
      forall n: nat | Asked(chain, db, h, n) ensures n == 0 {
        assert n > 0 ==> chain.Ancestor(h, 0) !in db.rows;
      }
    } else {
      var parent := chain.Parent(h);
      WalkSucceeds(chain, db, lookup, parent);
      forall n: nat ensures Asked(chain, db, parent, n) <==> Asked(chain, db, h, n + 1) {
        AskedShift(chain, db, h, n);
      }
      forall n: nat | Asked(chain, db, h, n) && n > 0
        ensures Asked(chain, db, parent, n - 1) && chain.Ancestor(parent, n - 1) == chain.Ancestor(h, n)
      {
        AskedShift(chain, db, h, n - 1);
      }
    }
  }

  /** A walk that fails does so at the first question without an answer, and says which it was. */
  lemma {:induction false} WalkFails(chain: Chain, db: Db, lookup: Hash -> Lookup, h: Hash) returns (n: nat)
    requires chain.Valid() && Walk(chain, db, lookup, h).Err?
    ensures Asked(chain, db, h, n) && forall m: nat :: m < n ==> Answered(db, lookup, chain.Ancestor(h, m))
    ensures var b := chain.Ancestor(h, n);
            match lookup(b)
            case StorageFails => Walk(chain, db, lookup, h) == Err(StorageError)
            case ClientFails => b !in db.rows && Walk(chain, db, lookup, h) == Err(ClientError)
            case NotFound => b !in db.rows && Walk(chain, db, lookup, h) == Err(UnknownBlockHeader(b))
            case Answers => false
    decreases chain.Height(h)
  {
    assert chain.Linked(h);
    AncestorStep(chain, h, 0);
    if lookup(h).Answers? {
      var parent := chain.Parent(h);
      n := WalkFails(chain, db, lookup, parent);
      AskedShift(chain, db, h, n);
      AncestorStep(chain, h, n);
      forall m: nat | m < n + 1 ensures Answered(db, lookup, chain.Ancestor(h, m)) {
        if m > 0 { AncestorStep(chain, h, m - 1); }
      }
      n := n + 1;
    } else {
      n := 0;
    }
  }

  lemma AskedShift(chain: Chain, db: Db, h: Hash, n: nat)
    requires chain.Valid() && h !in db.rows && chain.Height(h) > db.start
    ensures Asked(chain, db, chain.Parent(h), n) <==> Asked(chain, db, h, n + 1)
  {
    assert chain.Linked(h);
    if Asked(chain, db, h, n + 1) {
      forall m: nat | m < n ensures chain.Ancestor(chain.Parent(h), m) !in db.rows {
        assert chain.Ancestor(h, m + 1) !in db.rows;
      }
    }
    if Asked(chain, db, chain.Parent(h), n) {
      forall m: nat | m < n + 1 ensures chain.Ancestor(h, m) !in db.rows {
        assert m > 0 ==> chain.Ancestor(chain.Parent(h), m - 1) !in db.rows;
      }
    }
  }

  // ---------------------------------------------------------------------
  // The replay forward
  // ---------------------------------------------------------------------

  /** How far the processing of one block gets. All but the last leave the database as it
      was: the transaction is dropped without a commit. */
  datatype Fate = GetBlockFails | BlockMissing | BeginFails | WriteFails | ExtractionFails | CommitFails | Commits

  function InsertBlock(rows: map<Hash, Row>, header: Header): map<Hash, Row> {
    if header.hash in rows then rows else rows[header.hash := Row(header.height, header.parent, None)]
  }

  function StoreBlock(db: Db, header: Header): Db {
    db.(rows := InsertBlock(db.rows, header), extracted := db.extracted + {header.hash})
  }

  /** The database after the blocks are processed in order up to the first failure, and
      how many were stored. */
  function Replay(db: Db, headers: seq<Header>, fate: Hash -> Fate): (r: (Db, nat))
    ensures r.1 <= |headers|
    decreases |headers|
  {
    if headers == [] || !fate(headers[0].hash).Commits? then (db, 0)
    else var (after, n) := Replay(StoreBlock(db, headers[0]), headers[1..], fate); (after, n + 1)
  }

  /** Storing the lowest block of a replayable stretch keeps the database without gaps and
      leaves the rest replayable. */
  lemma StoreReplayable(chain: Chain, db: Db, headers: seq<Header>)
    requires chain.Valid() && Closed(chain, db) && headers != [] && Replayable(chain, db, headers)
    ensures Closed(chain, StoreBlock(db, headers[0]))
    ensures Replayable(chain, StoreBlock(db, headers[0]), headers[1..])
  {
    var h := headers[0].hash;
    assert chain.Linked(h);
    forall i | 0 < i < |headers| ensures headers[i].hash != h {
      HeightsRise(chain, db, headers, i);
    }
  }

  lemma {:induction false} HeightsRise(chain: Chain, db: Db, headers: seq<Header>, i: nat)
    requires chain.Valid() && i < |headers| && Replayable(chain, db, headers)
    ensures headers[i].height == headers[0].height + i
  {
    if i > 0 {
      HeightsRise(chain, db, headers, i - 1);
    }
  }

  /** Whatever fails, the database stays without gaps, and the blocks not yet stored can
      still be stored. */
  lemma {:induction false} ReplayCloses(chain: Chain, db: Db, headers: seq<Header>, fate: Hash -> Fate)
    requires chain.Valid() && Closed(chain, db) && Replayable(chain, db, headers)
    ensures var (after, n) := Replay(db, headers, fate);
            Closed(chain, after) && Replayable(chain, after, headers[n..])
    decreases |headers|
  {
    hide Chain.Valid, Closed, Replayable;
    if headers == [] || !fate(headers[0].hash).Commits? {
      assert headers[0..] == headers;
    } else {
      StoreReplayable(chain, db, headers);
      var db' := StoreBlock(db, headers[0]);
      ReplayCloses(chain, db', headers[1..], fate);
      assert headers[1..][Replay(db', headers[1..], fate).1..] == headers[Replay(db, headers, fate).1..];
    }
  }

  /** The replay adds exactly the blocks before the first failure, with their transactions
      extracted, and changes nothing that was stored before. */
  lemma {:induction false} ReplayStores(db: Db, headers: seq<Header>, fate: Hash -> Fate)
    requires db.rows.Keys <= db.extracted
    ensures var (after, n) := Replay(db, headers, fate);
            && after.start == db.start && after.rows.Keys <= after.extracted
            && (forall h :: h in db.rows ==> h in after.rows && after.rows[h] == db.rows[h])
            && (forall h :: h in after.rows && h !in db.rows ==> after.rows[h].canonical.None?)
            && (forall h :: h in after.rows <==> h in db.rows || exists i :: 0 <= i < n && headers[i].hash == h)
            && (forall i :: 0 <= i < n ==> fate(headers[i].hash).Commits?)
            && (n < |headers| ==> !fate(headers[n].hash).Commits?)
    decreases |headers|
  {
    if headers != [] && fate(headers[0].hash).Commits? {
      var db' := StoreBlock(db, headers[0]);
      ReplayStores(db', headers[1..], fate);
      var (after, n) := Replay(db, headers, fate);
      assert forall i :: 0 < i < n ==> headers[1..][i - 1] == headers[i];
      forall h | h in after.rows && h !in db.rows ensures exists i :: 0 <= i < n && headers[i].hash == h {
        if h != headers[0].hash {
          var i :| 0 <= i < n - 1 && headers[1..][i].hash == h;
          assert headers[i + 1].hash == h;
        }
      }
      forall i | 0 <= i < n ensures headers[i].hash in after.rows {
        assert i > 0 ==> headers[1..][i - 1].hash in after.rows;
      }
    }
  }

  /** And it extracts the transactions of exactly these blocks. */
  lemma {:induction false} ReplayExtracts(db: Db, headers: seq<Header>, fate: Hash -> Fate, h: Hash)
    ensures var (after, n) := Replay(db, headers, fate);
            h in after.extracted <==> h in db.extracted || exists i :: 0 <= i < n && headers[i].hash == h
    decreases |headers|
  {
    if headers != [] && fate(headers[0].hash).Commits? {
      ReplayExtracts(StoreBlock(db, headers[0]), headers[1..], fate, h);
      var n := Replay(db, headers, fate).1;
      assert forall i :: 0 < i < n ==> headers[1..][i - 1] == headers[i];
      if i :| 0 <= i < n - 1 && headers[1..][i].hash == h {
        assert headers[i + 1].hash == h;
      }
    }
  }

  /** Below the last block a stretch goes on exactly when the parent is still missing. */
  lemma StretchGoesOn(chain: Chain, db: Db, a: seq<Header>)
    requires Replayable(chain, db, a) && a != []
    ensures var last := a[|a| - 1];
            && (|a| > 1 <==> last.height > db.start && last.parent !in db.rows)
            && (|a| > 1 ==> a[|a| - 2] == chain.header(last.parent) && Replayable(chain, db, a[..|a| - 1]))
  {
    assert |a| > 1 ==> a[|a| - 2].hash == a[|a| - 1].parent && a[|a| - 2].height == a[|a| - 1].height - 1;
  }

  /** A gapless stretch is determined by its last block. */
  lemma {:induction false} StretchUnique(chain: Chain, db: Db, a: seq<Header>, b: seq<Header>)
    requires Replayable(chain, db, a) && Replayable(chain, db, b)
    requires a != [] && b != [] && a[|a| - 1] == b[|b| - 1]
    ensures a == b
    decreases |a|
  {
    hide Replayable;
    StretchGoesOn(chain, db, a);
    StretchGoesOn(chain, db, b);
    if |a| > 1 {
      StretchUnique(chain, db, a[..|a| - 1], b[..|b| - 1]);
    }
    assert a == a[..|a| - 1] + [a[|a| - 1]];
    assert b == b[..|b| - 1] + [b[|b| - 1]];
  }

  /** A later call picks up where a failed one stopped: its walk returns exactly the blocks
      that are still missing. */
  lemma Resumes(chain: Chain, db: Db, first: Hash -> Lookup, fate: Hash -> Fate, later: Hash -> Lookup, h: Hash)
    requires chain.Valid() && Closed(chain, db) && db.rows.Keys <= db.extracted
    requires Walk(chain, db, first, h).Ok?
    requires Walk(chain, Replay(db, Walk(chain, db, first, h).value, fate).0, later, h).Ok?
    ensures var headers := Walk(chain, db, first, h).value;
            var (after, n) := Replay(db, headers, fate);
            Walk(chain, after, later, h).value == headers[n..]
  {
    var headers := Walk(chain, db, first, h).value;
    var (after, n) := Replay(db, headers, fate);
    WalkReplayable(chain, db, first, h);
    ReplayCloses(chain, db, headers, fate);
    ReplayStores(db, headers, fate);
    WalkReplayable(chain, after, later, h);
    assert n < |headers| ==> headers[n..][|headers| - n - 1] == chain.header(h);
    if n == |headers| {
      assert headers != [] ==> headers[|headers| - 1].hash == h by { assert chain.Linked(h); }
    } else {
      var rest := headers[n..];
      assert chain.Linked(h);
      assert rest[|rest| - 1].hash !in after.rows;
      StretchUnique(chain, after, rest, Walk(chain, after, later, h).value);
    }
  }

  // ---------------------------------------------------------------------
  // The canonical chain
  // ---------------------------------------------------------------------

  /** The recursive part of set_canonical_bitcoin_blockchain: from the tip towards the root,
      up to and including the first block that is already canonical. */
  function CanonicalChain(chain: Chain, db: Db, h: Hash): seq<Hash>
    requires chain.Valid() && Closed(chain, db)
    decreases chain.Height(h)
  {
    if h !in db.rows then []
    else if db.rows[h].canonical == Some(true) || chain.Height(h) == 0 then [h]
    else assert chain.Linked(h); [h] + CanonicalChain(chain, db, db.rows[h].parent)
  }

  function MinHeight(db: Db, blocks: seq<Hash>): nat
    requires forall i :: 0 <= i < |blocks| ==> blocks[i] in db.rows
  {
    if blocks == [] then 0
    else if |blocks| == 1 then db.rows[blocks[0]].height
    else
      var rest := MinHeight(db, blocks[1..]);
      if db.rows[blocks[0]].height < rest then db.rows[blocks[0]].height else rest
  }

  /** Every block from the lowest height of `blocks` up is canonical exactly when it is in
      `blocks`; rows below are left alone. */
  function MarkCanonical(db: Db, blocks: seq<Hash>): Db
    requires forall i :: 0 <= i < |blocks| ==> blocks[i] in db.rows
  {
    var low := MinHeight(db, blocks);
    db.(rows := map h | h in db.rows ::
      if db.rows[h].height >= low then db.rows[h].(canonical := Some(h in blocks)) else db.rows[h])
  }

  /** The canonical blocks are the ancestry of `tip`, when one has been set. */
  ghost predicate CanonicalAncestry(chain: Chain, db: Db, tip: Option<Hash>) {
    forall h :: h in db.rows ==> (db.rows[h].canonical == Some(true) <==> tip.Some? && chain.Descends(tip.value, h))
  }

  lemma ClosedAt(chain: Chain, db: Db, h: Hash)
    requires chain.Valid() && Closed(chain, db) && h in db.rows
    ensures db.rows[h].height == chain.Height(h) >= db.start && db.rows[h].parent == chain.Parent(h)
    ensures chain.Height(h) > 0 ==> chain.Height(chain.Parent(h)) == chain.Height(h) - 1
    ensures chain.Height(h) > 0 ==> (chain.Parent(h) in db.rows <==> chain.Height(h) > db.start)
  {
    assert chain.Linked(h);
  }

  /** The walk of the query goes up the ancestors of the tip, without a gap, to a block that
      was canonical or to the start height. */
  lemma {:induction false} CanonicalChainWalk(chain: Chain, db: Db, h: Hash)
    requires chain.Valid() && Closed(chain, db) && h in db.rows
    ensures var blocks := CanonicalChain(chain, db, h);
            && blocks != [] && |blocks| <= chain.Height(h) + 1
            && (forall i :: 0 <= i < |blocks| ==> blocks[i] in db.rows && blocks[i] == chain.Ancestor(h, i))
            && (db.rows[blocks[|blocks| - 1]].canonical == Some(true) || chain.Height(h) - |blocks| + 1 == db.start)
    decreases chain.Height(h)
  {
    hide Closed, Chain.Valid, Chain.Ancestor;
    ClosedAt(chain, db, h);
    AncestorStep(chain, h, 0);
    var blocks := CanonicalChain(chain, db, h);
    if db.rows[h].canonical == Some(true) || chain.Height(h) == db.start {
      assert blocks == [h];
    } else {
      var parent := chain.Parent(h);
      CanonicalChainWalk(chain, db, parent);
      var rest := CanonicalChain(chain, db, parent);
      assert blocks == [h] + rest;
      forall i | 0 <= i < |blocks| ensures blocks[i] in db.rows && blocks[i] == chain.Ancestor(h, i) {
        if i > 0 {
          AncestorStep(chain, h, i - 1);
          assert blocks[i] == rest[i - 1];
        }
      }
    }
  }

  lemma {:induction false} MinOfDescending(db: Db, blocks: seq<Hash>, top: nat)
    requires blocks != [] && |blocks| <= top + 1
    requires forall i :: 0 <= i < |blocks| ==> blocks[i] in db.rows && db.rows[blocks[i]].height == top - i
    ensures MinHeight(db, blocks) == top - |blocks| + 1
  {
    if |blocks| > 1 {
      assert db.rows[blocks[1]].height == top - 1;
      MinOfDescending(db, blocks[1..], top - 1);
    }
  }

  lemma CanonicalChainShape(chain: Chain, db: Db, h: Hash)
    requires chain.Valid() && Closed(chain, db) && h in db.rows
    ensures var blocks := CanonicalChain(chain, db, h);
            && blocks != [] && |blocks| <= chain.Height(h) + 1
            && (forall i :: 0 <= i < |blocks| ==> blocks[i] in db.rows && blocks[i] == chain.Ancestor(h, i))
            && MinHeight(db, blocks) == chain.Height(h) - |blocks| + 1
            && (db.rows[blocks[|blocks| - 1]].canonical == Some(true) || MinHeight(db, blocks) == db.start)
  {
    CanonicalChainWalk(chain, db, h);
    hide Chain.Valid, Closed, CanonicalChain, Chain.Ancestor, MinHeight;
    var blocks := CanonicalChain(chain, db, h);
    forall i | 0 <= i < |blocks| ensures db.rows[blocks[i]].height == chain.Height(h) - i {
      ClosedAt(chain, db, blocks[i]);
      AncestorHeight(chain, h, i);
    }
    MinOfDescending(db, blocks, chain.Height(h));
  }

  /** After the update the canonical blocks are exactly the ancestry of the new tip, although
      the query stops at the first block that was canonical before. */
  lemma MarkCanonicalCorrect(chain: Chain, db: Db, tip: Hash, before: Option<Hash>)
    requires chain.Valid() && Closed(chain, db) && tip in db.rows && CanonicalAncestry(chain, db, before)
    ensures forall i :: 0 <= i < |CanonicalChain(chain, db, tip)| ==> CanonicalChain(chain, db, tip)[i] in db.rows
    ensures var after := MarkCanonical(db, CanonicalChain(chain, db, tip));
            Closed(chain, after) && CanonicalAncestry(chain, after, Some(tip))
  {
    CanonicalChainShape(chain, db, tip);
    var blocks := CanonicalChain(chain, db, tip);
    var after := MarkCanonical(db, blocks);
    forall h | h in after.rows ensures after.rows[h].canonical == Some(true) <==> chain.Descends(tip, h) {
      MarkedExactly(chain, db, tip, before, h);
    }
    assert after.rows.Keys == db.rows.Keys;
  }

  /** From the lowest height on, the walked blocks are the ancestry of the tip. */
  lemma WalkedExactly(chain: Chain, blocks: seq<Hash>, tip: Hash, h: Hash)
    requires chain.Valid() && 0 < |blocks| <= chain.Height(tip) + 1
    requires forall i :: 0 <= i < |blocks| ==> blocks[i] == chain.Ancestor(tip, i)
    requires chain.Height(h) > chain.Height(tip) - |blocks|
    ensures h in blocks <==> chain.Descends(tip, h)
  {
    var depth := chain.Height(tip) - chain.Height(h);
    hide Chain.Valid, Chain.Ancestor;
    forall i | 0 <= i < |blocks| && blocks[i] == h ensures i == depth {
      AncestorHeight(chain, tip, i);
    }
    assert depth >= 0 ==> blocks[depth] == chain.Ancestor(tip, depth);
  }

  lemma MarkedExactly(chain: Chain, db: Db, tip: Hash, before: Option<Hash>, h: Hash)
    requires chain.Valid() && Closed(chain, db) && tip in db.rows && CanonicalAncestry(chain, db, before)
    requires forall i :: 0 <= i < |CanonicalChain(chain, db, tip)| ==> CanonicalChain(chain, db, tip)[i] in db.rows
    requires h in db.rows
    ensures MarkCanonical(db, CanonicalChain(chain, db, tip)).rows[h].canonical == Some(true)
       <==> chain.Descends(tip, h)
  {
    hide Closed, Chain.Valid, CanonicalChain, MinHeight, Chain.Ancestor;
    CanonicalChainShape(chain, db, tip);
    ClosedAt(chain, db, h);
    var blocks := CanonicalChain(chain, db, tip);
    if chain.Height(h) >= MinHeight(db, blocks) {
      WalkedExactly(chain, blocks, tip, h);
    } else {
      var root := blocks[|blocks| - 1];
      WalkedExactly(chain, blocks, tip, root) by { AncestorHeight(chain, tip, |blocks| - 1); }
      assert chain.Descends(before.value, root);
      AncestorHeight(chain, tip, |blocks| - 1);
      DescendsThrough(chain, tip, root, h);
      DescendsThrough(chain, before.value, root, h);
    }
  }

  /** Nothing but the flag changes, from the height of an old canonical block or of the start on:
      there every row says whether it is in the ancestry of the tip, below it keeps what it said. */
  lemma MarkedRows(chain: Chain, db: Db, tip: Hash) returns (root: Hash)
    requires chain.Valid() && Closed(chain, db) && tip in db.rows
    requires forall i :: 0 <= i < |CanonicalChain(chain, db, tip)| ==> CanonicalChain(chain, db, tip)[i] in db.rows
    ensures root in db.rows && chain.Descends(tip, root)
    ensures db.rows[root].canonical == Some(true) || chain.Height(root) == db.start
    ensures MarkCanonical(db, CanonicalChain(chain, db, tip)) ==
            Db(db.start, map h | h in db.rows :: if db.rows[h].height < chain.Height(root) then db.rows[h]
                                                 else db.rows[h].(canonical := Some(chain.Descends(tip, h))),
               db.extracted)
  {
    hide Closed, Chain.Valid, CanonicalChain, MinHeight, Chain.Ancestor, Chain.Descends;
    CanonicalChainShape(chain, db, tip);
    var blocks := CanonicalChain(chain, db, tip);
    root := blocks[|blocks| - 1];
    AncestorHeight(chain, tip, |blocks| - 1);
    WalkedExactly(chain, blocks, tip, root);
    forall h | h in db.rows
      ensures db.rows[h].height == chain.Height(h)
      ensures chain.Height(h) >= chain.Height(root) ==> (h in blocks <==> chain.Descends(tip, h))
    {
      ClosedAt(chain, db, h);
      if chain.Height(h) >= chain.Height(root) { WalkedExactly(chain, blocks, tip, h); }
    }
  }

  // ---------------------------------------------------------------------
  // Runs of the observer
  // ---------------------------------------------------------------------

  /** The tables, whether the start height has been fetched, the last tip marked canonical,
      and the tips announced to the rest of the signer with BitcoinBlockObserved. */
  datatype State = State(db: Db, startSet: bool, marked: Option<Hash>, observed: seq<Hash>)

  /** `epoch`: the query for the start height succeeds, if it is made. The last three flags
      of a new tip say whether the safeguard's query, the canonical update and the steps
      around the announcement of the tip succeed. */
  datatype Event =
    | NewTip(hash: Hash, epoch: bool, lookup: Hash -> Lookup, fate: Hash -> Fate,
             safeguard: bool, update: bool, rest: bool)
    | DepositSeen(hash: Hash, epoch: bool, lookup: Hash -> Lookup, fate: Hash -> Fate)

  /** `process_bitcoin_blocks_until`, the start height being known. */
  function Sync(chain: Chain, db: Db, lookup: Hash -> Lookup, fate: Hash -> Fate, h: Hash): (Db, bool)
    requires chain.Valid()
  {
    match Walk(chain, db, lookup, h)
    case Err(_) => (db, false)
    case Ok(headers) => var (after, n) := Replay(db, headers, fate); (after, n == |headers|)
  }

  /** Without gaps and without blocks whose transactions were not extracted, whatever failed. */
  lemma SyncCloses(chain: Chain, db: Db, lookup: Hash -> Lookup, fate: Hash -> Fate, h: Hash)
    requires chain.Valid() && Closed(chain, db)
    ensures Closed(chain, Sync(chain, db, lookup, fate, h).0)
  {
    if Walk(chain, db, lookup, h).Ok? {
      WalkReplayable(chain, db, lookup, h);
      ReplayCloses(chain, db, Walk(chain, db, lookup, h).value, fate);
    }
  }

  /** A successful call at or above the start height leaves the block and all its ancestors
      stored and extracted. */
  lemma SyncComplete(chain: Chain, db: Db, lookup: Hash -> Lookup, fate: Hash -> Fate, h: Hash)
    requires chain.Valid() && Closed(chain, db) && db.rows.Keys <= db.extracted
    ensures var (after, ok) := Sync(chain, db, lookup, fate, h);
            && after.start == db.start && after.rows.Keys <= after.extracted
            && (forall b :: b in db.rows ==> b in after.rows && after.rows[b] == db.rows[b])
            && (forall b :: b in after.rows && b !in db.rows ==> after.rows[b].canonical.None? && chain.Descends(h, b))
            && (ok && chain.Height(h) >= db.start ==> AncestryStored(chain, after, h) && h in after.rows)
  {
    hide Walk, Closed, Chain.Valid, Replay, Replayable, AncestryStored;
    if Walk(chain, db, lookup, h).Ok? {
      var headers := Walk(chain, db, lookup, h).value;
      WalkReplayable(chain, db, lookup, h);
      assert chain.header(h).hash == h by { HashOfHeader(chain, h); }
      ReplayStores(db, headers, fate);
      SyncCloses(chain, db, lookup, fate, h);
      var (after, ok) := Sync(chain, db, lookup, fate, h);
      forall b | b in after.rows && b !in db.rows ensures chain.Descends(h, b) {
        var i :| 0 <= i < |headers| && headers[i].hash == b;
        StretchDescends(chain, db, headers, i);
      }
      if ok && chain.Height(h) >= db.start {
        assert headers != [] ==> headers[|headers| - 1].hash in after.rows;
        ClosedAncestry(chain, after, h);
      }
    }
  }

  lemma {:induction false} StretchDescends(chain: Chain, db: Db, headers: seq<Header>, i: nat)
    requires chain.Valid() && Replayable(chain, db, headers) && i < |headers|
    ensures chain.Descends(headers[|headers| - 1].hash, headers[i].hash)
    decreases |headers|
  {
    if i < |headers| - 1 {
      var last, next := headers[|headers| - 1].hash, headers[|headers| - 2].hash;
      assert chain.Linked(last);
      StretchDescends(chain, db, headers[..|headers| - 1], i);
      assert chain.Descends(last, next) by { assert chain.Ancestor(last, 1) == chain.Ancestor(next, 0); }
      HeightsRise(chain, db, headers, i);
      HeightsRise(chain, db, headers, |headers| - 2);
      DescendsThrough(chain, last, next, headers[i].hash);
    }
  }

  ghost predicate Invariant(chain: Chain, st: State) {
    && Closed(chain, st.db) && st.db.rows.Keys <= st.db.extracted
    && CanonicalAncestry(chain, st.db, st.marked)
    && (st.marked.Some? ==> st.marked.value in st.db.rows)
    && forall i :: 0 <= i < |st.observed| ==> st.observed[i] in st.db.rows
  }

  /** `process_bitcoin_chain_tip` after its blocks are in. */
  function Mark(chain: Chain, st: State, h: Hash): State
    requires chain.Valid() && Closed(chain, st.db) && h in st.db.rows
  {
    CanonicalChainShape(chain, st.db, h);
    st.(db := MarkCanonical(st.db, CanonicalChain(chain, st.db, h)), marked := Some(h))
  }

  /** One arrival of a block hash, from the block stream or with a deposit request. The tip
      is announced when its row is there, even if the canonical update failed. */
  function Step(chain: Chain, st: State, e: Event): State
    requires chain.Valid() && Closed(chain, st.db)
  {
    if !(st.startSet || e.epoch) then
      if e.NewTip? && e.rest && e.hash in st.db.rows then st.(observed := st.observed + [e.hash]) else st
    else
      var (db, ok) := Sync(chain, st.db, e.lookup, e.fate, e.hash);
      SyncCloses(chain, st.db, e.lookup, e.fate, e.hash);
      var synced := st.(db := db, startSet := true);
      match e
      case DepositSeen(_, _, _, _) => synced
      case NewTip(h, _, _, _, safeguard, update, rest) =>
        var marked := if ok && safeguard && h in db.rows && update then Mark(chain, synced, h) else synced;
        if rest && h in marked.db.rows then marked.(observed := marked.observed + [h]) else marked
  }

  /** Blocks that arrive later are not in the ancestry of a tip that is already stored. */
  lemma CanonicalKept(chain: Chain, db: Db, after: Db, tip: Option<Hash>)
    requires chain.Valid() && Closed(chain, db) && Closed(chain, after) && after.start == db.start
    requires CanonicalAncestry(chain, db, tip) && (tip.Some? ==> tip.value in db.rows)
    requires forall b :: b in db.rows ==> b in after.rows && after.rows[b] == db.rows[b]
    requires forall b :: b in after.rows && b !in db.rows ==> after.rows[b].canonical.None?
    ensures CanonicalAncestry(chain, after, tip)
  {
    hide Closed, Chain.Valid, Chain.Ancestor;
    forall b | b in after.rows && b !in db.rows && tip.Some? && chain.Descends(tip.value, b) ensures false {
      ClosedAt(chain, after, b);
      ClosedAncestor(chain, db, tip.value, chain.Height(tip.value) - chain.Height(b));
    }
  }

  lemma SyncInvariant(chain: Chain, st: State, lookup: Hash -> Lookup, fate: Hash -> Fate, h: Hash)
    requires chain.Valid() && Invariant(chain, st)
    ensures Invariant(chain, st.(db := Sync(chain, st.db, lookup, fate, h).0, startSet := true))
  {
    hide Sync, Closed, Chain.Valid, CanonicalAncestry, AncestryStored, Chain.Descends;
    SyncCloses(chain, st.db, lookup, fate, h);
    SyncComplete(chain, st.db, lookup, fate, h);
    CanonicalKept(chain, st.db, Sync(chain, st.db, lookup, fate, h).0, st.marked);
  }

  lemma MarkInvariant(chain: Chain, st: State, h: Hash)
    requires chain.Valid() && Invariant(chain, st) && h in st.db.rows
    ensures Invariant(chain, Mark(chain, st, h)) && Mark(chain, st, h).db.rows.Keys == st.db.rows.Keys
  {
    MarkCanonicalCorrect(chain, st.db, h, st.marked);
    assert Mark(chain, st, h).db.rows.Keys == st.db.rows.Keys;
  }

  lemma StepInvariant(chain: Chain, st: State, e: Event)
    requires chain.Valid() && Invariant(chain, st)
    ensures Invariant(chain, Step(chain, st, e))
  {
    if st.startSet || e.epoch {
      SyncInvariant(chain, st, e.lookup, e.fate, e.hash);
      var synced := st.(db := Sync(chain, st.db, e.lookup, e.fate, e.hash).0, startSet := true);
      if e.hash in synced.db.rows {
        MarkInvariant(chain, synced, e.hash);
      }
    }
  }

  /** What one event does besides storing blocks: the tip is marked when its blocks all came in and
      no step on the way failed, and announced when its row is there and the rest succeeds,
      whether or not anything was stored or marked. */
  lemma StepExactly(chain: Chain, st: State, e: Event)
    requires chain.Valid() && Invariant(chain, st)
    ensures var st' := Step(chain, st, e);
            var known := st.startSet || e.epoch;
            var walk := Walk(chain, st.db, e.lookup, e.hash);
            var allIn := known && walk.Ok? && forall i :: 0 <= i < |walk.value| ==> e.fate(walk.value[i].hash).Commits?;
            && st'.startSet == known && (!known ==> st'.db == st.db)
            && st'.marked == (if e.NewTip? && allIn && e.safeguard && e.update && e.hash in st'.db.rows
                              then Some(e.hash) else st.marked)
            && st'.observed == (if e.NewTip? && e.rest && e.hash in st'.db.rows then st.observed + [e.hash]
                                else st.observed)
  {
    var synced := st.(db := Sync(chain, st.db, e.lookup, e.fate, e.hash).0, startSet := true);
    SyncInvariant(chain, st, e.lookup, e.fate, e.hash);
    if e.hash in synced.db.rows {
      MarkInvariant(chain, synced, e.hash);
    }
    hide Walk, Replay, Closed, Chain.Valid, MarkCanonical, CanonicalChain;
    if Walk(chain, st.db, e.lookup, e.hash).Ok? {
      ReplayStores(st.db, Walk(chain, st.db, e.lookup, e.hash).value, e.fate);
    }
  }

  function Run(chain: Chain, st: State, events: seq<Event>): (r: State)
    requires chain.Valid() && Invariant(chain, st)
    ensures Invariant(chain, r)
  {
    if events == [] then st
    else
      var before := Run(chain, st, events[..|events| - 1]);
      StepInvariant(chain, before, events[|events| - 1]);
      Step(chain, before, events[|events| - 1])
  }

  /** Whatever fails in whatever run, every announced tip has its whole ancestry down to the
      start height stored and extracted. */
  lemma ObservedTipsComplete(chain: Chain, st: State, events: seq<Event>, tip: Hash)
    requires chain.Valid() && Invariant(chain, st) && tip in Run(chain, st, events).observed
    ensures var db := Run(chain, st, events).db;
            && AncestryStored(chain, db, tip)
            && forall n: nat :: db.start + n <= chain.Height(tip) ==> chain.Ancestor(tip, n) in db.extracted
  {
    ClosedAncestry(chain, Run(chain, st, events).db, tip);
  }

  /** When nothing fails, a tip at or above the start height is announced, and the canonical
      blocks are its ancestry, whatever failed before. */
  lemma UndisturbedStep(chain: Chain, st: State, e: Event)
    requires chain.Valid() && Invariant(chain, st)
    requires e.NewTip? && e.safeguard && e.update && e.rest && (st.startSet || e.epoch)
    requires (forall b :: e.lookup(b).Answers?) && (forall b :: e.fate(b).Commits?)
    requires chain.Height(e.hash) >= st.db.start
    ensures var st' := Step(chain, st, e);
            && st'.observed == st.observed + [e.hash]
            && forall b :: b in st'.db.rows ==> (st'.db.rows[b].canonical == Some(true) <==> chain.Descends(e.hash, b))
  {
    WalkSucceeds(chain, st.db, e.lookup, e.hash);
    hide Walk, Replay, Closed, Chain.Valid;
    ReplayStores(st.db, Walk(chain, st.db, e.lookup, e.hash).value, e.fate);
    SyncComplete(chain, st.db, e.lookup, e.fate, e.hash);
    SyncInvariant(chain, st, e.lookup, e.fate, e.hash);
    MarkInvariant(chain, st.(db := Sync(chain, st.db, e.lookup, e.fate, e.hash).0, startSet := true), e.hash);
  }

  // ---------------------------------------------------------------------
  // The observer, on the tables it changes
  // ---------------------------------------------------------------------

  class Observer {
    const chain: Chain
    const nakamotoStartHeight: nat
    var startHeight: Option<nat>
    var rows: map<Hash, Row>
    var extracted: set<Hash>
    var observed: seq<Hash>
    ghost var marked: Option<Hash>

    ghost function Tables(): Db
      reads this
    {
      Db(if startHeight.Some? then startHeight.value else nakamotoStartHeight, rows, extracted)
    }

    ghost function View(): State
      reads this
    {
      State(Tables(), startHeight.Some?, marked, observed)
    }

    ghost predicate Valid()
      reads this
    {
      chain.Valid() && Invariant(chain, View())
    }

    constructor (chain: Chain, configured: Option<nat>, nakamotoStartHeight: nat)
      requires chain.Valid()
      ensures Valid() && rows == map[] && observed == [] && startHeight == configured && this.chain == chain
    {
      this.chain, this.nakamotoStartHeight := chain, nakamotoStartHeight;
      startHeight, rows, extracted, observed, marked := configured, map[], {}, [], None;
    }

    /** `next_headers_to_process` */
    method NextHeaders(epoch: bool, lookup: Hash -> Lookup, h: Hash) returns (r: Result<seq<Header>, Error>)
      requires chain.Valid()
      modifies this`startHeight
      ensures Tables() == old(Tables()) && startHeight.Some? == (old(startHeight).Some? || epoch)
      ensures r == if startHeight.Some? then Walk(chain, Tables(), lookup, h) else Err(ClientError)
    {
      if startHeight.None? {
        if !epoch {
          return Err(ClientError);
        }
        startHeight := Some(nakamotoStartHeight);
      }
      var start := startHeight.value;
      ghost var db := Tables();
      var headers, hash := [], h;
      assert forall s: seq<Header> :: s + headers == s;
      while true
        invariant Walk(chain, db, lookup, h) == Extend(Walk(chain, db, lookup, hash), headers)
        decreases chain.Height(hash)
      {
        assert chain.Linked(hash) && [] + headers == headers;
        if lookup(hash).StorageFails? {
          return Err(StorageError);
        }
        if hash in rows {
          break;
        }
        if lookup(hash).ClientFails? {
          return Err(ClientError);
        }
        if lookup(hash).NotFound? {
          return Err(UnknownBlockHeader(hash));
        }
        var header := chain.header(hash);
        if header.height < start {
          break;
        }
        assert forall s: seq<Header> :: s + [header] + headers == s + ([header] + headers);
        hash, headers := header.parent, [header] + headers;
        if header.height == start {
          break;
        }
      }
      return Ok(headers);
    }

    /** `process_bitcoin_block`: both writes go to the transaction and reach the tables with
        its commit. */
    method ProcessBlock(fate: Fate, header: Header) returns (ok: bool)
      modifies this`rows, this`extracted
      ensures ok <==> fate.Commits?
      ensures Tables() == if ok then StoreBlock(old(Tables()), header) else old(Tables())
    {
      if fate.GetBlockFails? || fate.BlockMissing? || fate.BeginFails? {
        return false;
      }
      var txRows, txExtracted := rows, extracted;
      if fate.WriteFails? {
        return false;
      }
      txRows := InsertBlock(txRows, header);
      if fate.ExtractionFails? {
        return false;
      }
      txExtracted := txExtracted + {header.hash};
      if fate.CommitFails? {
        return false;
      }
      rows, extracted := txRows, txExtracted;
      ok := true;
    }

    /** `process_bitcoin_blocks_until` */
    method ProcessBlocksUntil(epoch: bool, lookup: Hash -> Lookup, fate: Hash -> Fate, h: Hash) returns (ok: bool)
      requires chain.Valid()
      modifies this`startHeight, this`rows, this`extracted
      ensures startHeight.Some? == (old(startHeight).Some? || epoch)
      ensures (Tables(), ok) ==
              if startHeight.Some? then Sync(chain, old(Tables()), lookup, fate, h) else (old(Tables()), false)
    {
      var r := NextHeaders(epoch, lookup, h);
      if r.Err? {
        return false;
      }
      var headers := r.value;
      ghost var (after, n) := Replay(old(Tables()), headers, fate);
      var i := 0;
      while i < |headers|
        invariant 0 <= i <= n && startHeight.Some? && startHeight.value == old(Tables()).start
        invariant (after, n - i) == Replay(Tables(), headers[i..], fate)
      {
        var stored := ProcessBlock(fate(headers[i].hash), headers[i]);
        if !stored {
          return false;
        }
        i := i + 1;
      }
      ok := true;
    }

    /** One pass of the loop in `run`, as far as the bitcoin tables are concerned. */
    method OnTip(e: Event)
      requires Valid() && e.NewTip?
      modifies this
      ensures Valid() && View() == Step(chain, old(View()), e)
    {
      hide Walk, Replay, Closed, Chain.Valid, CanonicalAncestry, Chain.Linked, MinHeight;
      ghost var before := View();
      StepInvariant(chain, before, e);
      var ok := ProcessBlocksUntil(e.epoch, e.lookup, e.fate, e.hash);
      SyncCloses(chain, before.db, e.lookup, e.fate, e.hash);
      if ok && e.safeguard && e.hash in rows && e.update {
        var db := Db(startHeight.value, rows, extracted);
        CanonicalChainShape(chain, db, e.hash);
        rows := MarkCanonical(db, CanonicalChain(chain, db, e.hash)).rows;
        marked := Some(e.hash);
      }
      if e.rest && e.hash in rows {
        observed := observed + [e.hash];
      }
    }

    /** A deposit request brings in the block that confirmed it. */
    method OnDeposit(e: Event) returns (ok: bool)
      requires Valid() && e.DepositSeen?
      modifies this`startHeight, this`rows, this`extracted
      ensures Valid() && View() == Step(chain, old(View()), e)
      ensures ok && chain.Height(e.hash) >= Tables().start ==> AncestryStored(chain, Tables(), e.hash)
    {
      ghost var before := View();
      StepInvariant(chain, before, e);
      ok := ProcessBlocksUntil(e.epoch, e.lookup, e.fate, e.hash);
      SyncComplete(chain, before.db, e.lookup, e.fate, e.hash);
    }
  }
}
