/**
 * The rebuild performed by SetHasher. The code stores each existing chain,
 * whole, under the new hash of its head key: the tail entries travel with the
 * head, and a later chain whose head hashes like an earlier one overwrites it.
 */
module Rehashing {
  import opened Wrappers
  import opened Hashing
  import opened Chains
  import opened Tables
  import opened Traversal

  /** The new hash of the head key of bucket x. */
  function HeadHash<T>(b: Buckets<T>, hasher: string -> Hash64, x: Hash64): Hash64
    requires x in b && |b[x]| > 0
  {
    hasher(b[x][0].key)
  }

  /** The buckets of `order` exist and hold chains. */
  ghost predicate Listed<T>(b: Buckets<T>, order: seq<Hash64>) {
    forall x :: x in order ==> x in b && |b[x]| > 0
  }

  /** The rebuild loop from store `acc` on, over the old buckets in `order`. */
  function RehashInto<T>(acc: Buckets<T>, b: Buckets<T>, hasher: string -> Hash64, order: seq<Hash64>): Buckets<T>
    requires Listed(b, order)
    decreases |order|
  {
    if order == [] then acc
    else RehashInto(acc[HeadHash(b, hasher, order[0]) := b[order[0]]], b, hasher, order[1..])
  }

  /** The store SetHasher builds from the empty store. */
  function Rehash<T>(b: Buckets<T>, hasher: string -> Hash64, order: seq<Hash64>): Buckets<T>
    requires Listed(b, order)
  {
    RehashInto(map[], b, hasher, order)
  }

  /** A one-bucket walk meets that bucket's chain. */
  lemma FlattenCons<T>(b: Buckets<T>, order: seq<Hash64>)
    requires order != [] && forall x :: x in order ==> x in b
    ensures Flatten(b, order) == b[order[0]] + Flatten(b, order[1..])
  {
    assert order == [order[0]] + order[1..];
    FlattenAppend(b, [order[0]], order[1..]);
    assert Flatten(b, [order[0]]) == Flatten(b, []) + b[order[0]];
  }

  /**
   * As written, the rebuilt store holds old chains only, each filed under the new
   * hash of its own head, and every old chain's head hash is a bucket of it.
   */
  lemma {:induction false} RehashIntoShape<T>(acc: Buckets<T>, b: Buckets<T>, hasher: string -> Hash64, order: seq<Hash64>)
    requires Listed(b, order)
    requires forall y :: y in acc ==> |acc[y]| > 0 && hasher(acc[y][0].key) == y && acc[y] in b.Values
    ensures var r := RehashInto(acc, b, hasher, order);
      && (forall y :: y in r ==> |r[y]| > 0 && hasher(r[y][0].key) == y && r[y] in b.Values)
      && (forall x :: x in order ==> HeadHash(b, hasher, x) in r)
      && (forall y :: y in acc ==> y in r)
    decreases |order|
  {
    if order != [] {
      var x := order[0];
      var acc' := acc[HeadHash(b, hasher, x) := b[x]];
      assert b[x] in b.Values;
      RehashIntoShape(acc', b, hasher, order[1..]);
      forall z | z in order ensures HeadHash(b, hasher, z) in RehashInto(acc, b, hasher, order) {
        if z != x {
          assert z in order[1..];
        }
      }
    }
  }

  /** The rebuilt store never holds more entries than the old one. */
  lemma {:induction false} RehashIntoCount<T>(acc: Buckets<T>, b: Buckets<T>, hasher: string -> Hash64, order: seq<Hash64>)
    requires Listed(b, order)
    requires NonEmptyChains(acc)
    ensures NonEmptyChains(RehashInto(acc, b, hasher, order))
    ensures Count(RehashInto(acc, b, hasher, order)) <= Count(acc) + |Flatten(b, order)|
    decreases |order|
  {
    if order != [] {
      var x := order[0];
      var y := HeadHash(b, hasher, x);
      var acc' := acc[y := b[x]];
      CountUpdate(acc, y, b[x]);
      RehashIntoCount(acc', b, hasher, order[1..]);
      FlattenCons(b, order);
    }
  }

  /** SetHasher keeps the code's own bound: the size counter still covers the reachable entries. */
  lemma RehashBounded<T>(t: Table<T>, hasher: string -> Hash64, order: seq<Hash64>)
    requires Bounded(t) && Enumerates(order, t.buckets.Keys)
    ensures Bounded(Table(t.size, Rehash(t.buckets, hasher, order)))
  {
    RehashIntoCount(map[], t.buckets, hasher, order);
    FlattenCount(t.buckets, order);
  }

  /** The new head hashes of the buckets in `order` are pairwise distinct and not yet used in `acc`. */
  ghost predicate FreshHeads<T>(acc: Buckets<T>, b: Buckets<T>, hasher: string -> Hash64, order: seq<Hash64>)
    requires Listed(b, order)
  {
    && (forall i, j :: 0 <= i < j < |order| ==> HeadHash(b, hasher, order[i]) != HeadHash(b, hasher, order[j]))
    && (forall i :: 0 <= i < |order| ==> HeadHash(b, hasher, order[i]) !in acc)
  }

  /** Fresh heads stay fresh for the rest of the walk once the first chain is stored. */
  lemma FreshHeadsStep<T>(acc: Buckets<T>, b: Buckets<T>, hasher: string -> Hash64, order: seq<Hash64>)
    requires Listed(b, order) && order != [] && FreshHeads(acc, b, hasher, order)
    ensures FreshHeads(acc[HeadHash(b, hasher, order[0]) := b[order[0]]], b, hasher, order[1..])
  {
    var rest := order[1..];
    var acc' := acc[HeadHash(b, hasher, order[0]) := b[order[0]]];
    forall i | 0 <= i < |rest| ensures HeadHash(b, hasher, rest[i]) !in acc' {
      assert rest[i] == order[i + 1];
    }
    forall i, j | 0 <= i < j < |rest| ensures HeadHash(b, hasher, rest[i]) != HeadHash(b, hasher, rest[j]) {
      assert rest[i] == order[i + 1] && rest[j] == order[j + 1];
    }
  }

  /**
   * With fresh heads no chain is overwritten: each lands under its head's new
   * hash, `acc` is kept, and nothing else is added.
   */
  lemma {:induction false} RehashIntoPlaces<T>(acc: Buckets<T>, b: Buckets<T>, hasher: string -> Hash64, order: seq<Hash64>)
    requires Listed(b, order) && FreshHeads(acc, b, hasher, order)
    ensures var r := RehashInto(acc, b, hasher, order);
      && (forall i :: 0 <= i < |order| ==> HeadHash(b, hasher, order[i]) in r && r[HeadHash(b, hasher, order[i])] == b[order[i]])
      && (forall y :: y in acc ==> y in r && r[y] == acc[y])
      && (forall y :: y in r ==> y in acc || exists i :: 0 <= i < |order| && HeadHash(b, hasher, order[i]) == y)
    decreases |order|
  {
    if order != [] {
      var acc' := acc[HeadHash(b, hasher, order[0]) := b[order[0]]];
      var rest := order[1..];
      FreshHeadsStep(acc, b, hasher, order);
      RehashIntoPlaces(acc', b, hasher, rest);
      var r := RehashInto(acc, b, hasher, order);
      forall i | 0 < i < |order| ensures HeadHash(b, hasher, order[i]) in r && r[HeadHash(b, hasher, order[i])] == b[order[i]] {
        assert order[i] == rest[i - 1];
      }
      forall z | z in r && z !in acc' ensures exists i :: 0 <= i < |order| && HeadHash(b, hasher, order[i]) == z {
        var i :| 0 <= i < |rest| && HeadHash(b, hasher, rest[i]) == z;
        assert order[i + 1] == rest[i];
      }
    }
  }

  /** With fresh heads the rebuilt store holds exactly the old entries plus those of `acc`. */
  lemma {:induction false} RehashIntoExactCount<T>(acc: Buckets<T>, b: Buckets<T>, hasher: string -> Hash64, order: seq<Hash64>)
    requires Listed(b, order) && FreshHeads(acc, b, hasher, order)
    ensures Count(RehashInto(acc, b, hasher, order)) == Count(acc) + |Flatten(b, order)|
    decreases |order|
  {
    if order != [] {
      var y := HeadHash(b, hasher, order[0]);
      var acc' := acc[y := b[order[0]]];
      FreshHeadsStep(acc, b, hasher, order);
      RehashIntoExactCount(acc', b, hasher, order[1..]);
      CountUpdate(acc, y, b[order[0]]);
      assert acc - {y} == acc;
      FlattenCons(b, order);
    }
  }

  /** Every chain of the store is a single entry. */
  ghost predicate SingletonChains<T>(b: Buckets<T>) {
    forall x :: x in b ==> |b[x]| == 1
  }

  /** The new hasher gives the heads of distinct buckets distinct hashes. */
  ghost predicate DistinctHeads<T>(b: Buckets<T>, hasher: string -> Hash64)
    requires NonEmptyChains(b)
  {
    forall x, y :: x in b && y in b && x != y ==> HeadHash(b, hasher, x) != HeadHash(b, hasher, y)
  }

  /** Distinct head hashes over an enumeration of the buckets are fresh heads from the empty store. */
  lemma DistinctHeadsFresh<T>(b: Buckets<T>, hasher: string -> Hash64, order: seq<Hash64>)
    requires NonEmptyChains(b) && Enumerates(order, b.Keys) && DistinctHeads(b, hasher)
    ensures Listed(b, order) && FreshHeads(map[], b, hasher, order)
  {
    forall i, j | 0 <= i < j < |order| ensures HeadHash(b, hasher, order[i]) != HeadHash(b, hasher, order[j]) {
      assert order[i] != order[j];
    }
  }

  /** Store `r` holds exactly the chains of `b`, each under the new hash of its head. */
  ghost predicate Refiles<T>(b: Buckets<T>, hasher: string -> Hash64, r: Buckets<T>)
    requires NonEmptyChains(b)
  {
    && (forall x :: x in b ==> HeadHash(b, hasher, x) in r && r[HeadHash(b, hasher, x)] == b[x])
    && (forall y :: y in r ==> exists x :: x in b && r[y] == b[x] && y == HeadHash(b, hasher, x))
  }

  /** With distinct new head hashes, the rebuilt store re-files every old chain under its head's new hash. */
  lemma RehashBijective<T>(b: Buckets<T>, hasher: string -> Hash64, order: seq<Hash64>)
    requires NonEmptyChains(b) && Enumerates(order, b.Keys) && DistinctHeads(b, hasher)
    ensures Refiles(b, hasher, Rehash(b, hasher, order))
  {
    var r: Buckets<T> := Rehash(b, hasher, order);
    DistinctHeadsFresh(b, hasher, order);
    RehashIntoPlaces(map[], b, hasher, order);
    forall x | x in b ensures HeadHash(b, hasher, x) in r && r[HeadHash(b, hasher, x)] == b[x] {
      assert x in order;
      var i :| 0 <= i < |order| && order[i] == x;
    }
    forall y | y in r ensures exists x :: x in b && r[y] == b[x] && y == HeadHash(b, hasher, x) {
      var i :| 0 <= i < |order| && HeadHash(b, hasher, order[i]) == y;
      assert order[i] in b;
    }
  }

  /** With distinct new head hashes, the rebuilt store holds exactly the old entries. */
  lemma RehashExactCount<T>(b: Buckets<T>, hasher: string -> Hash64, order: seq<Hash64>)
    requires NonEmptyChains(b) && Enumerates(order, b.Keys) && DistinctHeads(b, hasher)
    ensures Count(Rehash(b, hasher, order)) == Count(b)
  {
    DistinctHeadsFresh(b, hasher, order);
    RehashIntoExactCount(map[], b, hasher, order);
    FlattenCount(b, order);
  }

  /** Re-filed single-entry chains are single-entry chains filed by the new hasher. */
  lemma RefiledSingletons<T>(b: Buckets<T>, hasher: string -> Hash64, r: Buckets<T>)
    requires NonEmptyChains(b) && SingletonChains(b) && Refiles(b, hasher, r)
    ensures NonEmptyChains(r) && SingletonChains(r) && Filed(r, hasher) && ChainsUnique(r)
  {
    forall y | y in r ensures |r[y]| == 1 && hasher(r[y][0].key) == y {
      var x :| x in b && r[y] == b[x] && y == HeadHash(b, hasher, x);
    }
    forall y | y in r ensures ChainUnique(r[y]) {
      assert |r[y]| == 1;
    }
  }

  /** In re-filed single-entry chains, a case-invariant hasher finds each old entry by each case variant of its key, and nothing else. */
  lemma RefiledLookup<T>(b: Buckets<T>, hasher: string -> Hash64, r: Buckets<T>, size: int)
    requires NonEmptyChains(b) && SingletonChains(b) && Refiles(b, hasher, r) && CaseInvariant(hasher)
    ensures forall x, q :: x in b && EqualFold(b[x][0].key, q) ==> Lookup(Table(size, r), hasher, q) == Some(b[x][0])
    ensures forall q :: Lookup(Table(size, r), hasher, q).Some? ==> exists x :: x in b && Lookup(Table(size, r), hasher, q) == Some(b[x][0])
  {
    forall x: Hash64, q: string | x in b && EqualFold(b[x][0].key, q) ensures Lookup(Table(size, r), hasher, q) == Some(b[x][0]) {
      assert hasher(q) == HeadHash(b, hasher, x);
      assert Chain(r, hasher(q)) == b[x] == [b[x][0]];
    }
    forall q: string | Lookup(Table(size, r), hasher, q).Some? ensures exists x :: x in b && Lookup(Table(size, r), hasher, q) == Some(b[x][0]) {
      var y := hasher(q);
      assert y in r;
      var x :| x in b && r[y] == b[x] && y == HeadHash(b, hasher, x);
      assert r[y] == [b[x][0]];
    }
  }

  /**
   * SetHasher on a table whose chains are all single entries, with a new hasher
   * that gives the stored keys distinct hashes: the table invariants hold under
   * the new hasher.
   */
  lemma RehashSingletonsConsistent<T>(t: Table<T>, hasher: string -> Hash64, order: seq<Hash64>)
    requires NonEmptyChains(t.buckets) && t.size == Count(t.buckets) && SingletonChains(t.buckets)
    requires Enumerates(order, t.buckets.Keys) && DistinctHeads(t.buckets, hasher)
    ensures Consistent(Table(t.size, Rehash(t.buckets, hasher, order)), hasher)
  {
    RehashBijective(t.buckets, hasher, order);
    RehashExactCount(t.buckets, hasher, order);
    RefiledSingletons(t.buckets, hasher, Rehash(t.buckets, hasher, order));
  }

  /**
   * Under the same conditions and a case-invariant new hasher, every stored pair
   * stays retrievable by every case variant of its key, and nothing else is found.
   */
  lemma RehashSingletonsRetrievable<T>(t: Table<T>, hasher: string -> Hash64, order: seq<Hash64>)
    requires NonEmptyChains(t.buckets) && SingletonChains(t.buckets)
    requires Enumerates(order, t.buckets.Keys) && DistinctHeads(t.buckets, hasher) && CaseInvariant(hasher)
    ensures var t' := Table(t.size, Rehash(t.buckets, hasher, order));
      && (forall x, q :: x in t.buckets && EqualFold(t.buckets[x][0].key, q) ==> Lookup(t', hasher, q) == Some(t.buckets[x][0]))
      && (forall q :: Lookup(t', hasher, q).Some? ==> exists x :: x in t.buckets && Lookup(t', hasher, q) == Some(t.buckets[x][0]))
  {
    RehashBijective(t.buckets, hasher, order);
    RefiledLookup(t.buckets, hasher, Rehash(t.buckets, hasher, order), t.size);
  }
}
