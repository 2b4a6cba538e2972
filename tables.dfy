/**
 * The table as a value: the `size` counter and the bucket store, a map from
 * hash value to the chain filed under it. The class in module CiMap keeps
 * exactly these two fields; its methods are specified by the functions here.
 */
module Tables {
  import opened Wrappers
  import opened Hashing
  import opened Chains

  type Buckets<T> = map<Hash64, seq<Entry<T>>>

  datatype Table<T> = Table(size: int, buckets: Buckets<T>)

  /** The chain filed under `h`; a missing bucket reads as an empty chain. */
  function Chain<T>(b: Buckets<T>, h: Hash64): seq<Entry<T>> {
    if h in b then b[h] else []
  }

  /** What Get finds: the first case-insensitive match in bucket hasher(k). */
  function Lookup<T>(t: Table<T>, hasher: string -> Hash64, k: string): Option<Entry<T>> {
    Find(Chain(t.buckets, hasher(k)), k)
  }

  /** A store with buckets has a bucket to pick. */
  lemma HasBucket<T>(b: Buckets<T>)
    ensures b == map[] || exists h :: h in b
  {
    if forall h :: h !in b {
      assert b.Keys == {};
    }
  }

  /** The number of entries reachable by walking every chain. */
  ghost function Count<T>(b: Buckets<T>): nat
    decreases |b|
  {
    if b == map[] then 0
    else
      HasBucket(b);
      var h :| h in b;
      assert |b - {h}| < |b| by { assert (b - {h}).Keys == b.Keys - {h}; }
      |b[h]| + Count(b - {h})
  }

  /** Every bucket of the store holds a non-empty chain (the Go map never holds a nil head). */
  ghost predicate NonEmptyChains<T>(b: Buckets<T>) {
    forall h :: h in b ==> |b[h]| > 0
  }

  /** Every entry sits in the bucket of its key's hash. */
  ghost predicate Filed<T>(b: Buckets<T>, hasher: string -> Hash64) {
    forall h, i :: h in b && 0 <= i < |b[h]| ==> hasher(b[h][i].key) == h
  }

  /** No chain holds two case-insensitively equal keys. */
  ghost predicate ChainsUnique<T>(b: Buckets<T>) {
    forall h :: h in b ==> ChainUnique(b[h])
  }

  /** The table invariants: non-empty chains, entries filed by hash, no duplicates, size counts the entries. */
  ghost predicate Consistent<T>(t: Table<T>, hasher: string -> Hash64) {
    && NonEmptyChains(t.buckets)
    && Filed(t.buckets, hasher)
    && ChainsUnique(t.buckets)
    && t.size == Count(t.buckets)
  }

  /**
   * What the code keeps true whatever the hasher: every bucket holds a chain, and
   * the size counter never falls below the number of reachable entries.
   */
  ghost predicate Bounded<T>(t: Table<T>) {
    NonEmptyChains(t.buckets) && Count(t.buckets) <= t.size
  }

  /** Add: insert-or-replace in bucket hasher(k); size grows only when no entry matched. */
  function Added<T>(t: Table<T>, hasher: string -> Hash64, k: string, v: T): Table<T> {
    var h := hasher(k);
    var c := Chain(t.buckets, h);
    Table(if Find(c, k).Some? then t.size else t.size + 1, t.buckets[h := Upsert(c, k, v)])
  }

  /** Delete as written: on a match anywhere in bucket hasher(k) the whole bucket goes, and size drops by one. */
  function Deleted<T>(t: Table<T>, hasher: string -> Hash64, k: string): Table<T> {
    var h := hasher(k);
    if h in t.buckets && Find(t.buckets[h], k).Some? then Table(t.size - 1, t.buckets - {h}) else t
  }

  // ---------------------------------------------------------------------------
  // Counting entries
  // ---------------------------------------------------------------------------

  /** Count does not depend on which bucket it happens to pick first. */
  lemma {:induction false} CountRemove<T>(b: Buckets<T>, h: Hash64)
    requires h in b
    ensures Count(b) == |b[h]| + Count(b - {h})
    decreases |b|
  {
    var h' :| h' in b && Count(b) == |b[h']| + Count(b - {h'});
    if h' != h {
      assert (b - {h'}).Keys == b.Keys - {h'};
      assert (b - {h}).Keys == b.Keys - {h};
      CountRemove(b - {h'}, h);
      CountRemove(b - {h}, h');
      assert (b - {h'})[h] == b[h] && (b - {h})[h'] == b[h'];
      assert b - {h'} - {h} == b - {h} - {h'};
      assert Count(b - {h'}) == |b[h]| + Count(b - {h'} - {h});
      assert Count(b - {h}) == |b[h']| + Count(b - {h} - {h'});
    }
  }

  /** Replacing or adding bucket h: the other buckets keep their count. */
  lemma CountUpdate<T>(b: Buckets<T>, h: Hash64, c: seq<Entry<T>>)
    ensures Count(b[h := c]) == Count(b - {h}) + |c|
    ensures Count(b) == Count(b - {h}) + |Chain(b, h)|
  {
    CountRemove(b[h := c], h);
    assert b[h := c] - {h} == b - {h};
    if h in b {
      CountRemove(b, h);
    } else {
      assert b - {h} == b;
    }
  }

  /** With non-empty chains, a store has no entries exactly when it has no buckets. */
  lemma CountZero<T>(b: Buckets<T>)
    requires NonEmptyChains(b)
    ensures Count(b) == 0 <==> b == map[]
  {
    if b != map[] {
      HasBucket(b);
      var h :| h in b;
      CountRemove(b, h);
    }
  }

  // ---------------------------------------------------------------------------
  // Add
  // ---------------------------------------------------------------------------

  /** Every stored entry, in a table filed by `hasher` without duplicates, is what its key looks up. */
  lemma LookupStored<T>(t: Table<T>, hasher: string -> Hash64, h: Hash64, j: int)
    requires Filed(t.buckets, hasher) && ChainsUnique(t.buckets)
    requires h in t.buckets && 0 <= j < |t.buckets[h]|
    ensures Lookup(t, hasher, t.buckets[h][j].key) == Some(t.buckets[h][j])
  {
    FindStored(t.buckets[h], j);
  }

  /** What a lookup finds is an entry of the key's bucket whose key is a case variant of it. */
  lemma LookupFound<T>(t: Table<T>, hasher: string -> Hash64, q: string)
    requires Lookup(t, hasher, q).Some?
    ensures hasher(q) in t.buckets
    ensures exists j :: 0 <= j < |t.buckets[hasher(q)]| && t.buckets[hasher(q)][j] == Lookup(t, hasher, q).value
    ensures EqualFold(Lookup(t, hasher, q).value.key, q)
  {
    var c := Chain(t.buckets, hasher(q));
    assert FindIndex(c, q) < |c|;
  }

  /** Under a case-invariant hasher, case variants look up the same entry. */
  lemma LookupFold<T>(t: Table<T>, hasher: string -> Hash64, k: string, q: string)
    requires CaseInvariant(hasher) && EqualFold(k, q)
    ensures Lookup(t, hasher, k) == Lookup(t, hasher, q)
  {
    FindFold(Chain(t.buckets, hasher(k)), k, q);
  }

  /**
   * After Add(k, v), a lookup of a key sharing k's bucket and case-insensitively
   * equal to k finds the new pair (new casing, new value); every other lookup is
   * unchanged. No assumption on the hasher is needed.
   */
  lemma LookupAfterAdd<T>(t: Table<T>, hasher: string -> Hash64, k: string, v: T, q: string)
    ensures Lookup(Added(t, hasher, k, v), hasher, q)
         == if hasher(q) == hasher(k) && EqualFold(k, q) then Some(Entry(k, v)) else Lookup(t, hasher, q)
  {
    if hasher(q) == hasher(k) {
      FindAfterUpsert(Chain(t.buckets, hasher(k)), k, v, q);
    }
  }

  /** With a case-invariant hasher, Add(k, v) is seen by every case variant of k and by no other key. */
  lemma LookupAfterAddCaseInvariant<T>(t: Table<T>, hasher: string -> Hash64, k: string, v: T, q: string)
    requires CaseInvariant(hasher)
    ensures Lookup(Added(t, hasher, k, v), hasher, q)
         == if EqualFold(k, q) then Some(Entry(k, v)) else Lookup(t, hasher, q)
  {
    LookupAfterAdd(t, hasher, k, v, q);
  }

  /** Add creates one reachable entry exactly when the key was absent, in step with the size counter. */
  lemma AddCount<T>(t: Table<T>, hasher: string -> Hash64, k: string, v: T)
    ensures Count(Added(t, hasher, k, v).buckets) == Count(t.buckets) + (if Lookup(t, hasher, k).None? then 1 else 0)
    ensures Added(t, hasher, k, v).size == t.size + (if Lookup(t, hasher, k).None? then 1 else 0)
    ensures Bounded(t) ==> Bounded(Added(t, hasher, k, v))
  {
    var h := hasher(k);
    var c := Chain(t.buckets, h);
    UpsertShape(c, k, v);
    CountUpdate(t.buckets, h, Upsert(c, k, v));
  }

  /** Add keeps all the table invariants, for any hasher. */
  lemma AddKeepsConsistent<T>(t: Table<T>, hasher: string -> Hash64, k: string, v: T)
    requires Consistent(t, hasher)
    ensures Consistent(Added(t, hasher, k, v), hasher)
  {
    var h := hasher(k);
    var c := Chain(t.buckets, h);
    var u := Upsert(c, k, v);
    var b: Buckets<T> := Added(t, hasher, k, v).buckets;
    AddCount(t, hasher, k, v);
    UpsertShape(c, k, v);
    forall g: Hash64, i: int | g in b && 0 <= i < |b[g]| ensures hasher(b[g][i].key) == g {
      if g == h {
        assert b[g][i] in u;
        if b[g][i] != Entry(k, v) {
          var j :| 0 <= j < |c| && c[j] == b[g][i];
        }
      }
    }
  }

  // ---------------------------------------------------------------------------
  // Delete
  // ---------------------------------------------------------------------------

  /**
   * After Delete(k) as written: when k was found, every key filed in k's bucket
   * becomes not-found (the whole bucket goes); every other lookup is unchanged.
   */
  lemma LookupAfterDelete<T>(t: Table<T>, hasher: string -> Hash64, k: string, q: string)
    ensures Lookup(Deleted(t, hasher, k), hasher, q)
         == if Lookup(t, hasher, k).Some? && hasher(q) == hasher(k) then None else Lookup(t, hasher, q)
  {
  }

  /**
   * Delete as written drops the size counter by one but the reachable entries by
   * the whole length of the matched chain.
   */
  lemma DeleteCount<T>(t: Table<T>, hasher: string -> Hash64, k: string)
    ensures Deleted(t, hasher, k).size == t.size - (if Lookup(t, hasher, k).Some? then 1 else 0)
    ensures Count(Deleted(t, hasher, k).buckets)
         == Count(t.buckets) - (if Lookup(t, hasher, k).Some? then |Chain(t.buckets, hasher(k))| else 0)
    ensures Bounded(t) ==> Bounded(Deleted(t, hasher, k))
  {
    var h := hasher(k);
    if Lookup(t, hasher, k).Some? {
      CountRemove(t.buckets, h);
    }
  }

  /** When the matched entry was alone in its bucket, Delete keeps all the table invariants. */
  lemma DeleteKeepsConsistent<T>(t: Table<T>, hasher: string -> Hash64, k: string)
    requires Consistent(t, hasher)
    requires Lookup(t, hasher, k).Some? ==> |Chain(t.buckets, hasher(k))| == 1
    ensures Consistent(Deleted(t, hasher, k), hasher)
  {
    DeleteCount(t, hasher, k);
  }

  /**
   * When the match shares its bucket with other entries, Delete as written leaves
   * the size counter above the number of reachable entries, by the number of
   * entries it lost.
   */
  lemma DeleteLosesChainmates<T>(t: Table<T>, hasher: string -> Hash64, k: string)
    requires Consistent(t, hasher)
    requires Lookup(t, hasher, k).Some? && |Chain(t.buckets, hasher(k))| > 1
    ensures Deleted(t, hasher, k).size - Count(Deleted(t, hasher, k).buckets) == |Chain(t.buckets, hasher(k))| - 1
    ensures !Consistent(Deleted(t, hasher, k), hasher)
  {
    DeleteCount(t, hasher, k);
  }
}
