/**
 * CaseInsensitiveMap: a hash table whose keys compare case-insensitively,
 * with a pluggable hasher and separate chaining. The Go map from hash to
 * chain head is the field `buckets`; each linked chain is a sequence.
 */
module CiMap {
  import opened Wrappers
  import opened Hashing
  import opened Chains
  import opened Tables
  import opened Traversal
  import opened Rehashing
  import opened Json

  class CaseInsensitiveMap<T(0)> {
    /** The entry counter kept by Add and Delete. */
    var size: int
    /** The installed hasher. */
    var hasher: string -> Hash64
    /** False only while the zero value's hasher is nil. */
    var hasherSet: bool
    /** False only while the zero value's internal map is nil (reads see no bucket; writes would fail). */
    var storeMade: bool
    /** The internal map from hash to chain. */
    var buckets: Buckets<T>

    /** The table as a value. */
    ghost function State(): Table<T>
      reads this
    {
      Table(size, buckets)
    }

    /** What every operation keeps, the code's Delete included: non-empty chains and a counter covering them. */
    ghost predicate Valid()
      reads this
    {
      && Bounded(State())
      && (!storeMade ==> buckets == map[] && size == 0)
    }

    /** New: an empty table with the default hasher; the capacity hint has no effect. */
    constructor New(capacity: int)
      ensures Valid() && State() == Table(0, map[])
      ensures hasher == DefaultHash && hasherSet && storeMade
    {
      size := 0;
      hasher := DefaultHash;
      hasherSet := true;
      storeMade := true;
      buckets := map[];
    }

    /** The zero value `var m CaseInsensitiveMap[T]`: no hasher and no internal map yet. */
    constructor Zero()
      ensures Valid() && State() == Table(0, map[])
      ensures !hasherSet && !storeMade
    {
      size := 0;
      hasher := DefaultHash;
      hasherSet := false;
      storeMade := false;
      buckets := map[];
    }

    /** Add: insert-or-replace in bucket hasher(k); the counter grows exactly when the key was absent. */
    method Add(k: string, v: T)
      requires Valid() && hasherSet && storeMade
      modifies this
      ensures Valid() && State() == Added(old(State()), hasher, k, v)
      ensures size == old(size) + (if Lookup(old(State()), hasher, k).None? then 1 else 0)
      ensures Consistent(old(State()), hasher) ==> Consistent(State(), hasher)
      ensures hasher == old(hasher) && hasherSet && storeMade
    {
      ghost var t := State();
      AddCount(t, hasher, k, v);
      if Consistent(t, hasher) {
        AddKeepsConsistent(t, hasher, k, v);
      }
      var h := hasher(k);
      if h in buckets {
        var updated, existed := InsertOrReplace(buckets[h], k, v);
        assert Chain(t.buckets, h) == buckets[h];
        buckets := buckets[h := updated];
        if !existed {
          size := size + 1;
        }
        assert State() == Added(t, hasher, k, v);
      } else {
        assert Chain(t.buckets, h) == [];
        assert Upsert([], k, v) == [Entry(k, v)] && Find<T>([], k) == None;
        buckets := buckets[h := [Entry(k, v)]];
        size := size + 1;
        assert State() == Added(t, hasher, k, v);
      }
    }

    /** Get: the value of the first case variant of `k` in bucket hasher(k), if any. */
    method Get(k: string) returns (v: T, found: bool)
      requires hasherSet
      ensures found == Lookup(State(), hasher, k).Some?
      ensures found ==> v == Lookup(State(), hasher, k).value.value
    {
      var c := Chain(buckets, hasher(k));
      var i := 0;
      while i < |c|
        invariant 0 <= i <= |c|
        invariant forall j :: 0 <= j < i ==> !EqualFold(c[j].key, k)
      {
        if EqualFold(c[i].key, k) {
          FindIndexUnique(c, k, i);
          return c[i].value, true;
        }
        i := i + 1;
      }
      FindIndexUnique(c, k, |c|);
      var zero: T :| true;
      return zero, false;
    }

    /** Delete as written: a match anywhere in bucket hasher(k) removes that whole bucket, and the counter drops by one. */
    method Delete(k: string)
      requires Valid() && hasherSet
      modifies this
      ensures Valid() && State() == Deleted(old(State()), hasher, k)
      ensures hasher == old(hasher) && hasherSet && storeMade == old(storeMade)
    {
      var h := hasher(k);
      if h in buckets {
        var unlinked, found := NodeDelete(buckets[h], k);
        if found {
          buckets := buckets - {h};
          size := size - 1;
        }
      }
      DeleteCount(old(State()), hasher, k);
    }

    /** GetAndDel: Get, then Delete on a hit. */
    method GetAndDel(k: string) returns (v: T, found: bool)
      requires Valid() && hasherSet
      modifies this
      ensures found == Lookup(old(State()), hasher, k).Some?
      ensures found ==> v == Lookup(old(State()), hasher, k).value.value
      ensures Valid() && State() == Deleted(old(State()), hasher, k)
      ensures hasher == old(hasher) && hasherSet && storeMade == old(storeMade)
    {
      v, found := Get(k);
      if found {
        Delete(k);
        return v, true;
      }
      var zero: T :| true;
      return zero, false;
    }

    /** GetOrSet: the stored value on a hit, otherwise Add and hand back the given value. */
    method GetOrSet(k: string, v: T) returns (r: T)
      requires Valid() && hasherSet && storeMade
      modifies this
      ensures Lookup(old(State()), hasher, k).Some? ==> r == Lookup(old(State()), hasher, k).value.value && State() == old(State())
      ensures Lookup(old(State()), hasher, k).None? ==> r == v && State() == Added(old(State()), hasher, k, v)
      ensures Valid() && hasher == old(hasher) && hasherSet && storeMade
    {
      var existing, found := Get(k);
      if found {
        return existing;
      }
      Add(k, v);
      return v;
    }

    /** Len: the counter; in a consistent table, the number of reachable entries. */
    method Len() returns (n: int)
      ensures n == size
      ensures Consistent(State(), hasher) ==> n == Count(buckets)
    {
      return size;
    }

    /** Clear: a fresh empty internal map and a zero counter; the hasher stays. */
    method Clear()
      modifies this
      ensures Valid() && State() == Table(0, map[])
      ensures hasher == old(hasher) && hasherSet == old(hasherSet) && storeMade
    {
      buckets := map[];
      size := 0;
      storeMade := true;
    }

    /**
     * SetHasher: installs `nh`; when the table is not empty, re-files each chain
     * whole under nh of its head key, walking the buckets in `order`.
     */
    method SetHasher(nh: string -> Hash64, order: seq<Hash64>)
      requires Valid() && Enumerates(order, buckets.Keys)
      modifies this
      ensures Valid() && hasher == nh && hasherSet && storeMade == old(storeMade)
      ensures size == old(size)
      ensures buckets == if old(size) > 0 then Rehash(old(buckets), nh, order) else old(buckets)
    {
      hasher := nh;
      hasherSet := true;
      if size > 0 {
        var newMap: Buckets<T> := map[];
        var i := 0;
        while i < |order|
          invariant 0 <= i <= |order|
          invariant RehashInto(newMap, buckets, nh, order[i..]) == Rehash(buckets, nh, order)
        {
          newMap := newMap[nh(buckets[order[i]][0].key) := buckets[order[i]]];
          assert order[i..][1..] == order[i + 1..];
          i := i + 1;
        }
        RehashBounded(old(State()), nh, order);
        buckets := newMap;
      }
    }

    /**
     * The traversal loop shared by Keys, Iterator and ForEach: every chain of
     * every bucket in `order`, head first, until the visitor answers false.
     * The result is the sequence of entries the visitor was called on.
     */
    method Walk(order: seq<Hash64>, visit: Entry<T> -> bool) returns (visited: seq<Entry<T>>)
      requires Enumerates(order, buckets.Keys)
      ensures visited == StopPrefix(Flatten(buckets, order), visit)
    {
      visited := [];
      var i := 0;
      while i < |order|
        invariant 0 <= i <= |order|
        invariant visited == Flatten(buckets, order[..i])
        invariant forall p :: 0 <= p < |visited| ==> visit(visited[p])
      {
        var c := buckets[order[i]];
        var j := 0;
        while j < |c|
          invariant 0 <= j <= |c|
          invariant visited == Flatten(buckets, order[..i]) + c[..j]
          invariant forall p :: 0 <= p < |visited| ==> visit(visited[p])
        {
          if !visit(c[j]) {
            FlattenSplitAt(buckets, order, i, j);
            StopPrefixSplit(visited, c[j], c[j + 1..] + Flatten(buckets, order[i + 1..]), visit);
            return visited + [c[j]];
          }
          visited := visited + [c[j]];
          j := j + 1;
        }
        assert c[..|c|] == c;
        assert order[..i + 1][..i] == order[..i];
        i := i + 1;
      }
      assert order[..|order|] == order;
      StopPrefixAll(visited, visit);
    }

    /** Keys: the keys handed to `emit`, in walk order, up to and including the first it answers false. */
    method Keys(order: seq<Hash64>, emit: string -> bool) returns (emitted: seq<string>)
      requires Enumerates(order, buckets.Keys)
      ensures emitted == KeysOf(StopPrefix(Flatten(buckets, order), OnKey(emit)))
    {
      var visited := Walk(order, OnKey(emit));
      emitted := KeysOf(visited);
    }

    /**
     * ForEach, and the loop the closure returned by Iterator runs: the (key,
     * value) pairs handed to `fn`, up to and including the first it answers false.
     */
    method ForEach(order: seq<Hash64>, fn: (string, T) -> bool) returns (visited: seq<Entry<T>>)
      requires Enumerates(order, buckets.Keys)
      ensures visited == StopPrefix(Flatten(buckets, order), OnPair(fn))
    {
      visited := Walk(order, OnPair(fn));
    }

    /** MarshalJSON: the object filled from every entry of every chain, one key per stored key. */
    method MarshalJSON(order: seq<Hash64>) returns (m: map<string, T>)
      requires Enumerates(order, buckets.Keys)
      ensures m == ExportOf(Flatten(buckets, order))
    {
      m := map[];
      ghost var seen: seq<Entry<T>> := [];
      var i := 0;
      while i < |order|
        invariant 0 <= i <= |order|
        invariant seen == Flatten(buckets, order[..i]) && m == ExportOf(seen)
      {
        var c := buckets[order[i]];
        ghost var before := seen;
        var j := 0;
        while j < |c|
          invariant 0 <= j <= |c|
          invariant seen == before + c[..j] && m == ExportOf(seen)
        {
          ExportSnoc(seen, c[j]);
          assert c[..j + 1] == c[..j] + [c[j]];
          m := m[c[j].key := c[j].value];
          seen := seen + [c[j]];
          j := j + 1;
        }
        assert c[..|c|] == c;
        FlattenPrefix(buckets, order, i);
        i := i + 1;
      }
      assert order[..|order|] == order;
    }

    /**
     * UnmarshalJSON: on a decode failure nothing changes; otherwise the table is
     * reset, the default hasher is installed if none is set, and every decoded
     * pair is Added in the decoder's order.
     */
    method UnmarshalJSON(decoded: Decoding<T>, keys: seq<string>) returns (failed: bool)
      requires Valid()
      requires decoded.Decoded? ==> Enumerates(keys, decoded.members.Keys)
      modifies this
      ensures failed == decoded.DecodeError?
      ensures failed ==> unchanged(this)
      ensures !failed ==> hasherSet && storeMade && hasher == (if old(hasherSet) then old(hasher) else DefaultHash)
      ensures !failed ==> State() == Imported(hasher, decoded.members, keys)
      ensures Valid()
    {
      if decoded.DecodeError? {
        return true;
      }
      var m := decoded.members;
      buckets := map[];
      size := 0;
      storeMade := true;
      if !hasherSet {
        hasher := DefaultHash;
        hasherSet := true;
      }
      var installed := hasher;
      var ps := PairsOf(m, keys);
      var i := 0;
      while i < |ps|
        invariant 0 <= i <= |ps|
        invariant Valid() && hasherSet && storeMade && hasher == installed
        invariant State() == AddAll(Table(0, map[]), installed, ps[..i])
      {
        assert ps[..i + 1][..i] == ps[..i];
        Add(ps[i].key, ps[i].value);
        i := i + 1;
      }
      assert ps[..|ps|] == ps;
      return false;
    }
  }
}
