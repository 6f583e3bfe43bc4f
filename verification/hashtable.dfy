/** The transposition table BoardHashTable (hashtable.cpp): TABLE_SIZE chained
    buckets, an id kept in bucket id % TABLE_SIZE. Its meaning is a map from id
    to the depth searched and the move found; every operation is proved to
    act on that map as the source's comments promise. */
module HashTable {
  import opened Consts
  import opened Board

  /** BoardHashNode without its `next` link: a chain is a sequence. */
  datatype Entry = Entry(id: nat, depth: int, move: Move)

  datatype Table = Table(buckets: seq<seq<Entry>>)

  /** What the table holds for one id. */
  datatype Stored = Stored(depth: int, move: Move)

  function BucketOf(id: nat): (i: nat)
    ensures i < TABLE_SIZE
  {
    id % TABLE_SIZE
  }

  /** Every entry of chain `i` belongs there, and no id occurs twice. */
  predicate ChainOk(chain: seq<Entry>, i: nat) {
    && (forall j :: 0 <= j < |chain| ==> BucketOf(chain[j].id) == i)
    && (forall j, k :: 0 <= j < k < |chain| ==> chain[j].id != chain[k].id)
  }

  predicate Valid(t: Table) {
    && |t.buckets| == TABLE_SIZE
    && forall i :: 0 <= i < |t.buckets| ==> ChainOk(t.buckets[i], i)
  }

  predicate Holds(chain: seq<Entry>, id: nat) {
    exists j :: 0 <= j < |chain| && chain[j].id == id
  }

  // ---------------------------------------------------------------------
  // The abstract map

  /** The map one chain stands for; the first entry for an id is the one a
      walk finds. */
  function ChainMap(chain: seq<Entry>): map<nat, Stored> {
    if |chain| == 0 then map[]
    else ChainMap(chain[1..])[chain[0].id := Stored(chain[0].depth, chain[0].move)]
  }

  function MapOfBuckets(bs: seq<seq<Entry>>, n: nat): map<nat, Stored>
    requires n <= |bs|
  {
    if n == 0 then map[] else MapOfBuckets(bs, n - 1) + ChainMap(bs[n - 1])
  }

  /** The id -> (depth, move) map the table stands for. */
  function MapOf(t: Table): map<nat, Stored> {
    MapOfBuckets(t.buckets, |t.buckets|)
  }

  lemma {:induction false} ChainMapKeys(chain: seq<Entry>)
    ensures forall id :: id in ChainMap(chain) <==> Holds(chain, id)
  {
    if |chain| > 0 {
      ChainMapKeys(chain[1..]);
      forall id
        ensures Holds(chain, id) <==> id == chain[0].id || Holds(chain[1..], id)
      {
        if Holds(chain, id) {
          var j :| 0 <= j < |chain| && chain[j].id == id;
          if j > 0 {
            assert chain[1..][j - 1].id == id;
          }
        }
        if Holds(chain[1..], id) {
          var j :| 0 <= j < |chain[1..]| && chain[1..][j].id == id;
          assert chain[j + 1].id == id;
        }
      }
    }
  }

  lemma {:induction false} ChainMapValues(chain: seq<Entry>, i: nat)
    requires ChainOk(chain, i)
    ensures forall j :: 0 <= j < |chain| ==>
      chain[j].id in ChainMap(chain) && ChainMap(chain)[chain[j].id] == Stored(chain[j].depth, chain[j].move)
  {
    if |chain| > 0 {
      ChainMapValues(chain[1..], i);
    }
  }

  lemma {:induction false} MapOfBucketsAt(t: Table, n: nat, id: nat)
    requires Valid(t) && n <= |t.buckets|
    ensures id in MapOfBuckets(t.buckets, n) <==> BucketOf(id) < n && id in ChainMap(t.buckets[BucketOf(id)])
    ensures id in MapOfBuckets(t.buckets, n) ==>
      MapOfBuckets(t.buckets, n)[id] == ChainMap(t.buckets[BucketOf(id)])[id]
  {
    if n > 0 {
      MapOfBucketsAt(t, n - 1, id);
      ChainMapKeys(t.buckets[n - 1]);
      if id in ChainMap(t.buckets[n - 1]) {
        var j :| 0 <= j < |t.buckets[n - 1]| && t.buckets[n - 1][j].id == id;
        assert BucketOf(id) == n - 1;
      }
    }
  }

  /** The abstract map at `id` is read off the single chain `id` hashes to. */
  lemma MapOfAt(t: Table, id: nat)
    requires Valid(t)
    ensures id in MapOf(t) <==> Holds(t.buckets[BucketOf(id)], id)
    ensures id in MapOf(t) ==> id in ChainMap(t.buckets[BucketOf(id)])
                               && MapOf(t)[id] == ChainMap(t.buckets[BucketOf(id)])[id]
  {
    MapOfBucketsAt(t, |t.buckets|, id);
    ChainMapKeys(t.buckets[BucketOf(id)]);
  }

  /** Two valid tables whose chains agree on every id mean the same map. */
  lemma MapOfExtensional(t: Table, m: map<nat, Stored>)
    requires Valid(t)
    requires forall id :: id in m <==> id in ChainMap(t.buckets[BucketOf(id)])
    requires forall id :: id in m ==> m[id] == ChainMap(t.buckets[BucketOf(id)])[id]
    ensures MapOf(t) == m
  {
    forall id
      ensures id in MapOf(t) <==> id in m
      ensures id in m ==> MapOf(t)[id] == m[id]
    {
      MapOfAt(t, id);
      ChainMapKeys(t.buckets[BucketOf(id)]);
    }
  }

  // ---------------------------------------------------------------------
  // getHashedMove

  /** The walk of getHashedMove over one chain (hashtable.cpp:10-27). */
  function LookupChain(chain: seq<Entry>, id: nat, depth: int): Move {
    if |chain| == 0 then ILLEGAL_MOVE
    else if chain[0].id == id then (if chain[0].depth < depth then ILLEGAL_MOVE else chain[0].move)
    else LookupChain(chain[1..], id, depth)
  }

  lemma {:induction false} LookupChainMap(chain: seq<Entry>, id: nat, depth: int)
    ensures id !in ChainMap(chain) ==> LookupChain(chain, id, depth) == ILLEGAL_MOVE
    ensures id in ChainMap(chain) ==>
      (LookupChain(chain, id, depth)
         == if ChainMap(chain)[id].depth < depth then ILLEGAL_MOVE else ChainMap(chain)[id].move)
  {
    if |chain| > 0 {
      LookupChainMap(chain[1..], id, depth);
    }
  }

  /** getHashedMove (hashtable.cpp:7-28): the stored move when the stored
      depth reaches the requested one, the illegal move otherwise. */
  function GetHashedMove(t: Table, id: nat, depth: int): (r: Move)
    requires Valid(t)
    ensures id !in MapOf(t) ==> r == ILLEGAL_MOVE
    ensures id in MapOf(t) && MapOf(t)[id].depth >= depth ==> r == MapOf(t)[id].move
    ensures id in MapOf(t) && MapOf(t)[id].depth < depth ==> r == ILLEGAL_MOVE
  {
    MapOfAt(t, id);
    ChainMapKeys(t.buckets[BucketOf(id)]);
    LookupChainMap(t.buckets[BucketOf(id)], id, depth);
    LookupChain(t.buckets[BucketOf(id)], id, depth)
  }

  // ---------------------------------------------------------------------
  // updateTable

  /** The map-level meaning of updateTable: a new id is added, a present one
      is replaced only by a strictly deeper result. */
  function MapUpdate(m: map<nat, Stored>, id: nat, depth: int, move: Move): (r: map<nat, Stored>)
    ensures id in r && r[id].depth >= depth
    ensures id in m ==> r[id].depth >= m[id].depth
    ensures id in m && depth <= m[id].depth ==> r == m
    ensures id !in m || m[id].depth < depth ==> r[id] == Stored(depth, move)
    ensures forall k :: k != id ==> (k in r <==> k in m) && (k in m ==> r[k] == m[k])
  {
    if id in m && depth <= m[id].depth then m else m[id := Stored(depth, move)]
  }

  /** The walk of updateTable over a chain that holds `id` (hashtable.cpp:39-53). */
  function ReviseChain(chain: seq<Entry>, id: nat, depth: int, move: Move): (r: seq<Entry>)
    ensures |r| == |chain|
    ensures forall j :: 0 <= j < |chain| ==> r[j].id == chain[j].id
  {
    if |chain| == 0 then chain
    else if chain[0].id == id then
      (if chain[0].depth < depth then [Entry(id, depth, move)] + chain[1..] else chain)
    else [chain[0]] + ReviseChain(chain[1..], id, depth, move)
  }

  lemma {:induction false} ReviseChainMap(chain: seq<Entry>, id: nat, depth: int, move: Move)
    requires Holds(chain, id)
    ensures ChainMap(ReviseChain(chain, id, depth, move)) == MapUpdate(ChainMap(chain), id, depth, move)
  {
    var c0 := chain[0];
    if c0.id != id {
      var j :| 0 <= j < |chain| && chain[j].id == id;
      assert chain[1..][j - 1].id == id;
      ReviseChainMap(chain[1..], id, depth, move);
      var revised := ReviseChain(chain, id, depth, move);
      assert revised[0] == c0 && revised[1..] == ReviseChain(chain[1..], id, depth, move);
      ChainMapKeys(chain[1..]);
      UpdateCommutes(ChainMap(chain[1..]), id, depth, move, c0.id, Stored(c0.depth, c0.move));
    } else if c0.depth < depth {
      assert ([Entry(id, depth, move)] + chain[1..])[1..] == chain[1..];
    }
  }

  /** Updating `id` and then setting another key is the same as the other
      way round. */
  lemma UpdateCommutes(m: map<nat, Stored>, id: nat, depth: int, move: Move, key: nat, v: Stored)
    requires id in m && key != id
    ensures MapUpdate(m, id, depth, move)[key := v] == MapUpdate(m[key := v], id, depth, move)
  {
    if depth > m[id].depth {
      assert m[id := Stored(depth, move)][key := v] == m[key := v][id := Stored(depth, move)];
    }
  }

  /** updateTable (hashtable.cpp:34-58). */
  function UpdateTable(t: Table, id: nat, depth: int, move: Move): (r: Table)
    requires Valid(t)
    ensures Valid(r)
    ensures MapOf(r) == MapUpdate(MapOf(t), id, depth, move)
    ensures id !in MapOf(t) ==> r.buckets[BucketOf(id)] == [Entry(id, depth, move)] + t.buckets[BucketOf(id)]
    ensures forall i :: 0 <= i < TABLE_SIZE && i != BucketOf(id) ==> r.buckets[i] == t.buckets[i]
  {
    var i := BucketOf(id);
    var r := Table(t.buckets[i := UpdatedChain(t.buckets[i], id, depth, move)]);
    MapOfAt(t, id);
    UpdateRefines(t, r, id, depth, move);
    r
  }

  /** The chain updateTable leaves at bucket `id % TABLE_SIZE`. */
  function UpdatedChain(chain: seq<Entry>, id: nat, depth: int, move: Move): seq<Entry> {
    if Holds(chain, id) then ReviseChain(chain, id, depth, move) else [Entry(id, depth, move)] + chain
  }

  lemma UpdatedChainOk(chain: seq<Entry>, id: nat, depth: int, move: Move)
    requires ChainOk(chain, BucketOf(id))
    ensures ChainOk(UpdatedChain(chain, id, depth, move), BucketOf(id))
    ensures ChainMap(UpdatedChain(chain, id, depth, move)) == MapUpdate(ChainMap(chain), id, depth, move)
  {
    var chain' := UpdatedChain(chain, id, depth, move);
    if Holds(chain, id) {
      ReviseChainMap(chain, id, depth, move);
    } else {
      ChainMapKeys(chain);
      assert chain'[1..] == chain;
      forall j, k | 0 <= j < k < |chain'|
        ensures chain'[j].id != chain'[k].id
      {
        if j == 0 {
          assert chain'[k].id == chain[k - 1].id;
        }
      }
    }
  }

  /** Either way updateTable changes only the chain of `id`, and that chain
      comes to mean the updated map. */
  lemma UpdateRefines(t: Table, r: Table, id: nat, depth: int, move: Move)
    requires Valid(t)
    requires r == Table(t.buckets[BucketOf(id) := UpdatedChain(t.buckets[BucketOf(id)], id, depth, move)])
    ensures Valid(r)
    ensures MapOf(r) == MapUpdate(MapOf(t), id, depth, move)
  {
    var i := BucketOf(id);
    UpdatedChainOk(t.buckets[i], id, depth, move);
    assert Valid(r);
    var m := MapUpdate(MapOf(t), id, depth, move);
    forall key
      ensures key in m <==> key in ChainMap(r.buckets[BucketOf(key)])
      ensures key in m ==> m[key] == ChainMap(r.buckets[BucketOf(key)])[key]
    {
      MapOfAt(t, key);
      ChainMapKeys(t.buckets[BucketOf(key)]);
    }
    MapOfExtensional(r, m);
  }

  /** A list of updateTable calls, applied in order. */
  datatype Update = Update(id: nat, depth: int, move: Move)

  function UpdateAll(t: Table, us: seq<Update>): (r: Table)
    requires Valid(t)
    ensures Valid(r)
    decreases |us|
  {
    if |us| == 0 then t
    else UpdateAll(UpdateTable(t, us[0].id, us[0].depth, us[0].move), us[1..])
  }

  /** The depth stored for an id never decreases, whatever is updated after
      it (hashtable.cpp:43-47). */
  lemma {:induction false} StoredDepthNeverDecreases(t: Table, us: seq<Update>, id: nat)
    requires Valid(t) && id in MapOf(t)
    ensures id in MapOf(UpdateAll(t, us))
    ensures MapOf(UpdateAll(t, us))[id].depth >= MapOf(t)[id].depth
    decreases |us|
  {
    if |us| > 0 {
      var t' := UpdateTable(t, us[0].id, us[0].depth, us[0].move);
      StoredDepthNeverDecreases(t', us[1..], id);
    }
  }

  // ---------------------------------------------------------------------
  // clearTable

  /** clearTable (hashtable.cpp:62-79): every chain emptied. */
  function ClearTable(t: Table): (r: Table)
    ensures Valid(r)
    ensures forall i :: 0 <= i < |r.buckets| ==> r.buckets[i] == []
    ensures MapOf(r) == map[]
    ensures forall id: nat, depth: int :: GetHashedMove(r, id, depth) == ILLEGAL_MOVE
  {
    var r := Table(seq(TABLE_SIZE, _ => []));
    MapOfExtensional(r, map[]);
    r
  }
}
