/**
 * MarshalJSON and UnmarshalJSON at the level of string-keyed maps. The JSON
 * text itself is produced and parsed by a library outside the model: export
 * ends in a `map<string, T>`, and import starts from the decoder's verdict.
 */
module Json {
  import opened Wrappers
  import opened Hashing
  import opened Chains
  import opened Tables
  import opened Traversal

  /** What the JSON decoder hands back: a failure, or the decoded object as a map. */
  datatype Decoding<T> = DecodeError | Decoded(members: map<string, T>)

  // ---------------------------------------------------------------------------
  // Export
  // ---------------------------------------------------------------------------

  /** The object MarshalJSON fills from the entries it meets, a later equal key overwriting an earlier one. */
  function ExportOf<T>(s: seq<Entry<T>>): map<string, T>
    decreases |s|
  {
    if s == [] then map[] else ExportOf(s[..|s| - 1])[s[|s| - 1].key := s[|s| - 1].value]
  }

  /** Meeting one more entry stores its key with its value. */
  lemma ExportSnoc<T>(s: seq<Entry<T>>, e: Entry<T>)
    ensures ExportOf(s + [e]) == ExportOf(s)[e.key := e.value]
  {
    assert (s + [e])[..|s|] == s;
  }

  /** Entries with pairwise different keys. */
  ghost predicate DistinctKeys<T>(s: seq<Entry<T>>) {
    forall i, j :: 0 <= i < j < |s| ==> s[i].key != s[j].key
  }

  /** The exported object has exactly the keys of the entries met. */
  lemma {:induction false} ExportKeys<T>(s: seq<Entry<T>>)
    ensures forall k :: k in ExportOf(s) <==> exists i :: 0 <= i < |s| && s[i].key == k
    decreases |s|
  {
    if s != [] {
      var p := s[..|s| - 1];
      ExportKeys(p);
      assert ExportOf(s) == ExportOf(p)[s[|s| - 1].key := s[|s| - 1].value];
      forall k | k in ExportOf(s) ensures exists i :: 0 <= i < |s| && s[i].key == k {
        if k != s[|s| - 1].key {
          assert k in ExportOf(p);
          var i :| 0 <= i < |p| && p[i].key == k;
          assert s[i] == p[i];
        }
      }
      forall k | exists i :: 0 <= i < |s| && s[i].key == k ensures k in ExportOf(s) {
        var i :| 0 <= i < |s| && s[i].key == k;
        if i < |p| {
          assert p[i] == s[i];
        }
      }
    }
  }

  /** With pairwise different keys, every entry met is exported with its value, and nothing is lost. */
  lemma {:induction false} ExportDistinct<T>(s: seq<Entry<T>>)
    requires DistinctKeys(s)
    ensures |ExportOf(s)| == |s|
    ensures forall i :: 0 <= i < |s| ==> s[i].key in ExportOf(s) && ExportOf(s)[s[i].key] == s[i].value
    decreases |s|
  {
    if s != [] {
      var p := s[..|s| - 1];
      var e := s[|s| - 1];
      assert DistinctKeys(p) by {
        forall i, j | 0 <= i < j < |p| ensures p[i].key != p[j].key {
          assert p[i] == s[i] && p[j] == s[j];
        }
      }
      ExportDistinct(p);
      ExportKeys(p);
      assert e.key !in ExportOf(p) by {
        forall i | 0 <= i < |p| ensures p[i].key != e.key {
          assert p[i] == s[i];
        }
      }
      forall i | 0 <= i < |s| ensures s[i].key in ExportOf(s) && ExportOf(s)[s[i].key] == s[i].value {
        if i < |p| {
          assert s[i] == p[i];
        }
      }
    }
  }

  /** Keys that are pairwise not case variants are pairwise different. */
  lemma FoldDistinct<T>(s: seq<Entry<T>>)
    requires forall i, j :: 0 <= i < j < |s| ==> !EqualFold(s[i].key, s[j].key)
    ensures DistinctKeys(s)
  {
  }

  /**
   * Walking every bucket of a consistent table, MarshalJSON exports one
   * (stored key, value) pair per entry: the object has `size` keys, each key is
   * a stored key whose lookup yields its value, and every entry a lookup finds
   * is exported.
   */
  lemma ExportMatchesTable<T>(t: Table<T>, hasher: string -> Hash64, order: seq<Hash64>)
    requires Consistent(t, hasher) && CaseInvariant(hasher) && Enumerates(order, t.buckets.Keys)
    ensures var m := ExportOf(Flatten(t.buckets, order));
      && |m| == t.size
      && (forall k :: k in m ==> Lookup(t, hasher, k) == Some(Entry(k, m[k])))
      && (forall q :: Lookup(t, hasher, q).Some? ==>
            Lookup(t, hasher, q).value.key in m && m[Lookup(t, hasher, q).value.key] == Lookup(t, hasher, q).value.value)
  {
    var b := t.buckets;
    var s := Flatten(b, order);
    var m := ExportOf(s);
    FlattenUnique(b, hasher, order);
    FoldDistinct(s);
    ExportDistinct(s);
    ExportKeys(s);
    FlattenCount(b, order);
    forall k | k in m ensures Lookup(t, hasher, k) == Some(Entry(k, m[k])) {
      var i :| 0 <= i < |s| && s[i].key == k;
      FlattenFrom(b, order, i);
      var h, j :| h in order && 0 <= j < |b[h]| && s[i] == b[h][j];
      LookupStored(t, hasher, h, j);
    }
    forall q | Lookup(t, hasher, q).Some?
      ensures Lookup(t, hasher, q).value.key in m && m[Lookup(t, hasher, q).value.key] == Lookup(t, hasher, q).value.value
    {
      LookupFound(t, hasher, q);
      var h := hasher(q);
      var j :| 0 <= j < |b[h]| && b[h][j] == Lookup(t, hasher, q).value;
      FlattenHas(b, order, h, j);
      var i :| 0 <= i < |s| && s[i] == b[h][j];
    }
  }

  // ---------------------------------------------------------------------------
  // Import
  // ---------------------------------------------------------------------------

  /** The decoded pairs in the order the decoder's map is ranged over. */
  function PairsOf<T>(m: map<string, T>, keys: seq<string>): (ps: seq<Entry<T>>)
    requires forall k :: k in keys ==> k in m
    ensures |ps| == |keys|
    ensures forall i :: 0 <= i < |keys| ==> ps[i] == Entry(keys[i], m[keys[i]])
  {
    seq(|keys|, i requires 0 <= i < |keys| => Entry(keys[i], m[keys[i]]))
  }

  /** The table after Adding each pair in turn. */
  function AddAll<T>(t: Table<T>, hasher: string -> Hash64, ps: seq<Entry<T>>): Table<T>
    decreases |ps|
  {
    if ps == [] then t else Added(AddAll(t, hasher, ps[..|ps| - 1]), hasher, ps[|ps| - 1].key, ps[|ps| - 1].value)
  }

  /** The last pair whose key is a case variant of `q`. */
  function LastMatch<T>(ps: seq<Entry<T>>, q: string): (r: Option<Entry<T>>)
    ensures r.Some? ==> r.value in ps && EqualFold(r.value.key, q)
    ensures r.None? <==> forall i :: 0 <= i < |ps| ==> !EqualFold(ps[i].key, q)
    decreases |ps|
  {
    if ps == [] then None
    else if EqualFold(ps[|ps| - 1].key, q) then Some(ps[|ps| - 1])
    else LastMatch(ps[..|ps| - 1], q)
  }

  /** Adding pairs keeps the table invariants. */
  lemma {:induction false} AddAllKeepsConsistent<T>(t: Table<T>, hasher: string -> Hash64, ps: seq<Entry<T>>)
    requires Consistent(t, hasher)
    ensures Consistent(AddAll(t, hasher, ps), hasher)
    decreases |ps|
  {
    if ps != [] {
      AddAllKeepsConsistent(t, hasher, ps[..|ps| - 1]);
      AddKeepsConsistent(AddAll(t, hasher, ps[..|ps| - 1]), hasher, ps[|ps| - 1].key, ps[|ps| - 1].value);
    }
  }

  /** Under a case-invariant hasher, the last added case variant wins; other keys look up as before. */
  lemma {:induction false} AddAllLookup<T>(t: Table<T>, hasher: string -> Hash64, ps: seq<Entry<T>>, q: string)
    requires CaseInvariant(hasher)
    ensures Lookup(AddAll(t, hasher, ps), hasher, q) == if LastMatch(ps, q).Some? then LastMatch(ps, q) else Lookup(t, hasher, q)
    decreases |ps|
  {
    if ps != [] {
      var e := ps[|ps| - 1];
      AddAllLookup(t, hasher, ps[..|ps| - 1], q);
      LookupAfterAddCaseInvariant(AddAll(t, hasher, ps[..|ps| - 1]), hasher, e.key, e.value, q);
    }
  }

  /** Whatever the hasher, a key that misses and has no case variant among the added pairs still misses afterwards. */
  lemma {:induction false} AddAllMiss<T>(t: Table<T>, hasher: string -> Hash64, ps: seq<Entry<T>>, q: string)
    requires Lookup(t, hasher, q).None? && LastMatch(ps, q).None?
    ensures Lookup(AddAll(t, hasher, ps), hasher, q).None?
    decreases |ps|
  {
    if ps != [] {
      var p := ps[..|ps| - 1];
      var e := ps[|ps| - 1];
      assert LastMatch(p, q).None? by {
        forall i | 0 <= i < |p| ensures !EqualFold(p[i].key, q) {
          assert p[i] == ps[i];
        }
      }
      AddAllMiss(t, hasher, p, q);
      LookupAfterAdd(AddAll(t, hasher, p), hasher, e.key, e.value, q);
    }
  }

  /** Adding pairs whose keys are pairwise not case variants, and absent from the table, adds one entry each. */
  lemma {:induction false} AddAllSize<T>(t: Table<T>, hasher: string -> Hash64, ps: seq<Entry<T>>)
    requires forall i, j :: 0 <= i < j < |ps| ==> !EqualFold(ps[i].key, ps[j].key)
    requires forall i :: 0 <= i < |ps| ==> Lookup(t, hasher, ps[i].key).None?
    ensures AddAll(t, hasher, ps).size == t.size + |ps|
    decreases |ps|
  {
    if ps != [] {
      var p := ps[..|ps| - 1];
      var e := ps[|ps| - 1];
      assert forall i :: 0 <= i < |p| ==> p[i] == ps[i];
      AddAllSize(t, hasher, p);
      assert LastMatch(p, e.key).None? by {
        forall i | 0 <= i < |p| ensures !EqualFold(p[i].key, e.key) {
          assert p[i] == ps[i];
        }
      }
      AddAllMiss(t, hasher, p, e.key);
      AddCount(AddAll(t, hasher, p), hasher, e.key, e.value);
    }
  }

  /** How many pairs carry a key with no case variant among the pairs before them. */
  function FoldCount<T>(ps: seq<Entry<T>>): nat
    decreases |ps|
  {
    if ps == [] then 0
    else FoldCount(ps[..|ps| - 1]) + (if LastMatch(ps[..|ps| - 1], ps[|ps| - 1].key).None? then 1 else 0)
  }

  /** From the empty table, Adding pairs counts each key once up to case, which is why import resets the counter to 0. */
  lemma {:induction false} AddAllCount<T>(hasher: string -> Hash64, ps: seq<Entry<T>>)
    requires CaseInvariant(hasher)
    ensures AddAll(Table(0, map[]), hasher, ps).size == FoldCount(ps)
    decreases |ps|
  {
    if ps != [] {
      var p := ps[..|ps| - 1];
      var e := ps[|ps| - 1];
      AddAllCount(hasher, p);
      AddAllLookup(Table(0, map[]), hasher, p, e.key);
      AddCount(AddAll(Table(0, map[]), hasher, p), hasher, e.key, e.value);
    }
  }

  /** UnmarshalJSON after a successful decode: a fresh table holding the decoded pairs Added in decoder order. */
  function Imported<T>(hasher: string -> Hash64, m: map<string, T>, keys: seq<string>): Table<T>
    requires forall k :: k in keys ==> k in m
  {
    AddAll(Table(0, map[]), hasher, PairsOf(m, keys))
  }

  /** Keys of a decoded object that are pairwise not case variants. */
  ghost predicate FoldUnique<T>(m: map<string, T>) {
    forall k1, k2 :: k1 in m && k2 in m && k1 != k2 ==> !EqualFold(k1, k2)
  }

  /** Under any hasher, importing a decoded object with no two keys case variants gives a consistent table with one entry per member. */
  lemma ImportedConsistent<T>(hasher: string -> Hash64, m: map<string, T>, keys: seq<string>)
    requires Enumerates(keys, m.Keys) && FoldUnique(m)
    ensures Consistent(Imported(hasher, m, keys), hasher)
    ensures Imported(hasher, m, keys).size == |m|
  {
    var ps := PairsOf(m, keys);
    var empty: Table<T> := Table(0, map[]);
    assert Consistent(empty, hasher);
    AddAllKeepsConsistent(empty, hasher, ps);
    forall i, j | 0 <= i < j < |ps| ensures !EqualFold(ps[i].key, ps[j].key) {
      assert keys[i] != keys[j];
    }
    AddAllSize(empty, hasher, ps);
    DistinctCard(keys, m.Keys);
  }

  /** Among the decoded pairs, the one a case variant of a key matches is that key's pair. */
  lemma PairsMatch<T>(m: map<string, T>, keys: seq<string>, k: string, q: string)
    requires Enumerates(keys, m.Keys) && FoldUnique(m)
    requires k in m && EqualFold(k, q)
    ensures LastMatch(PairsOf(m, keys), q) == Some(Entry(k, m[k]))
  {
    var ps := PairsOf(m, keys);
    var i :| 0 <= i < |keys| && keys[i] == k;
    assert EqualFold(ps[i].key, q);
    var r := LastMatch(ps, q).value;
    var i' :| 0 <= i' < |ps| && ps[i'] == r;
    assert keys[i'] in m;
  }

  /** A key with no case variant in the decoded object matches none of its pairs. */
  lemma PairsNoMatch<T>(m: map<string, T>, keys: seq<string>, q: string)
    requires Enumerates(keys, m.Keys)
    requires forall k :: k in m ==> !EqualFold(k, q)
    ensures LastMatch(PairsOf(m, keys), q).None?
  {
    var ps := PairsOf(m, keys);
    forall i | 0 <= i < |ps| ensures !EqualFold(ps[i].key, q) {
      assert keys[i] in m;
    }
  }

  /**
   * After importing a decoded object whose keys are pairwise not case variants,
   * every case variant of a key finds that key with its value, and a key with no
   * case variant in the object finds nothing.
   */
  lemma ImportedLookup<T>(hasher: string -> Hash64, m: map<string, T>, keys: seq<string>, q: string)
    requires CaseInvariant(hasher) && Enumerates(keys, m.Keys) && FoldUnique(m)
    ensures forall k :: k in m && EqualFold(k, q) ==> Lookup(Imported(hasher, m, keys), hasher, q) == Some(Entry(k, m[k]))
    ensures (forall k :: k in m ==> !EqualFold(k, q)) ==> Lookup(Imported(hasher, m, keys), hasher, q).None?
  {
    var empty: Table<T> := Table(0, map[]);
    AddAllLookup(empty, hasher, PairsOf(m, keys), q);
    assert Lookup(empty, hasher, q) == None;
    forall k | k in m && EqualFold(k, q) ensures Lookup(Imported(hasher, m, keys), hasher, q) == Some(Entry(k, m[k])) {
      PairsMatch(m, keys, k, q);
    }
    if forall k :: k in m ==> !EqualFold(k, q) {
      PairsNoMatch(m, keys, q);
    }
  }

  /**
   * Export followed by import: MarshalJSON of a consistent table under a
   * case-invariant hasher, then UnmarshalJSON under a case-invariant hasher,
   * gives a consistent table of the same size in which every key looks up what
   * it looked up before.
   */
  lemma ExportImportRoundTrip<T>(t: Table<T>, hasher: string -> Hash64, order: seq<Hash64>,
                                  hasher': string -> Hash64, keys: seq<string>)
    requires Consistent(t, hasher) && CaseInvariant(hasher) && Enumerates(order, t.buckets.Keys)
    requires CaseInvariant(hasher') && Enumerates(keys, ExportOf(Flatten(t.buckets, order)).Keys)
    ensures var t' := Imported(hasher', ExportOf(Flatten(t.buckets, order)), keys);
      && Consistent(t', hasher')
      && t'.size == t.size
      && forall q :: Lookup(t', hasher', q) == Lookup(t, hasher, q)
  {
    var m := ExportOf(Flatten(t.buckets, order));
    ExportMatchesTable(t, hasher, order);
    assert FoldUnique(m) by {
      forall k1, k2 | k1 in m && k2 in m && k1 != k2 ensures !EqualFold(k1, k2) {
        ExportKeysUnfold(t, hasher, order, k1, k2);
      }
    }
    ImportedConsistent(hasher', m, keys);
    var t' := Imported(hasher', m, keys);
    forall q ensures Lookup(t', hasher', q) == Lookup(t, hasher, q) {
      ImportedLookup(hasher', m, keys, q);
      ExportedFound(t, hasher, order, q);
      if k :| k in m && EqualFold(k, q) {
        LookupFold(t, hasher, k, q);
      }
    }
  }

  /** Two different exported keys are not case variants of each other. */
  lemma ExportKeysUnfold<T>(t: Table<T>, hasher: string -> Hash64, order: seq<Hash64>, k1: string, k2: string)
    requires Consistent(t, hasher) && CaseInvariant(hasher) && Enumerates(order, t.buckets.Keys)
    requires k1 in ExportOf(Flatten(t.buckets, order)) && k2 in ExportOf(Flatten(t.buckets, order)) && k1 != k2
    ensures !EqualFold(k1, k2)
  {
    var s := Flatten(t.buckets, order);
    ExportKeys(s);
    FlattenUnique(t.buckets, hasher, order);
    var i :| 0 <= i < |s| && s[i].key == k1;
    var j :| 0 <= j < |s| && s[j].key == k2;
    assert i != j;
    if i < j {
      assert !EqualFold(s[i].key, s[j].key);
    } else {
      assert !EqualFold(s[j].key, s[i].key);
    }
  }

  /** A lookup that finds something in the table finds a case variant of an exported key. */
  lemma ExportedFound<T>(t: Table<T>, hasher: string -> Hash64, order: seq<Hash64>, q: string)
    requires Consistent(t, hasher) && CaseInvariant(hasher) && Enumerates(order, t.buckets.Keys)
    ensures Lookup(t, hasher, q).Some? ==> exists k :: k in ExportOf(Flatten(t.buckets, order)) && EqualFold(k, q)
  {
    if Lookup(t, hasher, q).Some? {
      ExportMatchesTable(t, hasher, order);
      LookupFound(t, hasher, q);
      var k := Lookup(t, hasher, q).value.key;
      assert k in ExportOf(Flatten(t.buckets, order)) && EqualFold(k, q);
    }
  }
}
