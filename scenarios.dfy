/**
 * Runs of the table that cimap_test.go describes, one through the class and
 * the rest on the table functions: last write wins across case variants,
 * colliding keys under the length hasher stay apart, and the two places where
 * the code as written loses entries (Delete on a collided bucket, SetHasher
 * onto one bucket).
 */
module Scenarios {
  import opened Wrappers
  import opened Hashing
  import opened Chains
  import opened Tables
  import opened Rehashing
  import opened CiMap

  /**
   * The hasher the tests plug in: the key's length, as a 64-bit unsigned value.
   * Go's len counts UTF-8 bytes and `|s|` counts characters; the two agree on
   * the ASCII keys used here.
   */
  function LengthHash(s: string): Hash64 {
    (|s| % 0x1_0000_0000_0000_0000) as Hash64
  }

  /** A hasher that sends every key to bucket 0. */
  function ZeroHash(s: string): Hash64 {
    0
  }

  /** Case variants have the same length, so the length hasher is case-invariant. */
  lemma LengthHashIsCaseInvariant()
    ensures CaseInvariant(LengthHash)
  {
    forall a, b | EqualFold(a, b) ensures LengthHash(a) == LengthHash(b) {
      EqualFoldPointwise(a, b);
    }
  }

  /** Keys of different lengths are never case variants. */
  lemma FoldsApart(a: string, b: string)
    requires |a| != |b|
    ensures !EqualFold(a, b)
  {
    EqualFoldPointwise(a, b);
  }

  /** Keys that differ after lower-casing at some position are not case variants. */
  lemma FoldsDifferAt(a: string, b: string, i: int)
    requires 0 <= i < |a| && i < |b| && Lower(a[i]) != Lower(b[i])
    ensures !EqualFold(a, b)
  {
    EqualFoldPointwise(a, b);
  }

  /** Keys that agree everywhere after lower-casing are case variants. */
  lemma FoldsTogether(a: string, b: string)
    requires |a| == |b| && forall i :: 0 <= i < |a| ==> Lower(a[i]) == Lower(b[i])
    ensures EqualFold(a, b)
  {
    EqualFoldPointwise(a, b);
  }

  /**
   * The first two Adds of the "Multiple adds & gets" test through the class,
   * under any hasher that files "K1" and "k1" together: the second write
   * replaces the first, in its own casing, and Len stays 1.
   */
  method CaseVariantsOverwrite(hasher: string -> Hash64) returns (n: int, v: string, ok: bool)
    requires hasher("K1") == hasher("k1")
    ensures n == 1 && ok && v == "V2"
  {
    var m := new CaseInsensitiveMap<string>.New(0);
    m.SetHasher(hasher, []);
    ghost var t0 := m.State();
    m.Add("K1", "V1");
    FoldsTogether("K1", "k1");
    LookupAfterAdd(t0, hasher, "K1", "V1", "k1");
    m.Add("k1", "V2");
    n := m.Len();
    v, ok := m.Get("K1");
  }

  /** The table the "Multiple adds & gets" test builds with its five Adds. */
  function FiveAdds(hasher: string -> Hash64): Table<string> {
    var t1 := Added(Table(0, map[]), hasher, "K1", "V1");
    var t2 := Added(t1, hasher, "k1", "V2");
    var t3 := Added(t2, hasher, "key2", "val2");
    var t4 := Added(t3, hasher, "KEY2", "val3");
    Added(t4, hasher, "MixedCase", "MC")
  }

  /**
   * The "Multiple adds & gets" test under any hasher that files the test's case
   * variants together, as every case-invariant hasher (the default one
   * included) does: three logical keys, each holding its last write in that
   * write's casing, and an unknown key misses.
   */
  lemma MultipleAddsAndGets(hasher: string -> Hash64)
    requires hasher("K1") == hasher("k1") && hasher("key2") == hasher("KEY2") && hasher("MixedCase") == hasher("mixedcase")
    ensures FiveAdds(hasher).size == 3
    ensures Lookup(FiveAdds(hasher), hasher, "K1") == Some(Entry("k1", "V2"))
    ensures Lookup(FiveAdds(hasher), hasher, "key2") == Some(Entry("KEY2", "val3"))
    ensures Lookup(FiveAdds(hasher), hasher, "mixedcase") == Some(Entry("MixedCase", "MC"))
    ensures Lookup(FiveAdds(hasher), hasher, "NotExist").None?
  {
    var t0: Table<string> := Table(0, map[]);
    var t1 := Added(t0, hasher, "K1", "V1");
    var t2 := Added(t1, hasher, "k1", "V2");
    var t3 := Added(t2, hasher, "key2", "val2");
    var t4 := Added(t3, hasher, "KEY2", "val3");
    var t5 := Added(t4, hasher, "MixedCase", "MC");
    FoldsTogether("K1", "k1");
    FoldsTogether("key2", "KEY2");
    FoldsTogether("MixedCase", "mixedcase");
    FoldsApart("K1", "key2");
    FoldsApart("k1", "key2");
    FoldsApart("K1", "MixedCase");
    FoldsApart("k1", "MixedCase");
    FoldsApart("key2", "MixedCase");
    FoldsApart("KEY2", "MixedCase");
    FoldsApart("K1", "NotExist");
    FoldsApart("k1", "NotExist");
    FoldsApart("key2", "NotExist");
    FoldsApart("KEY2", "NotExist");
    FoldsApart("MixedCase", "NotExist");
    // sizes: a new logical key adds one, a case variant replaces
    LookupAfterAdd(t0, hasher, "K1", "V1", "k1");
    LookupAfterAdd(t0, hasher, "K1", "V1", "key2");
    LookupAfterAdd(t1, hasher, "k1", "V2", "key2");
    LookupAfterAdd(t2, hasher, "key2", "val2", "KEY2");
    LookupAfterAdd(t0, hasher, "K1", "V1", "MixedCase");
    LookupAfterAdd(t1, hasher, "k1", "V2", "MixedCase");
    LookupAfterAdd(t2, hasher, "key2", "val2", "MixedCase");
    LookupAfterAdd(t3, hasher, "KEY2", "val3", "MixedCase");
    assert t5.size == 3;
    // lookups: the last write of each logical key, and nothing for the unknown key
    LookupAfterAdd(t1, hasher, "k1", "V2", "K1");
    LookupAfterAdd(t2, hasher, "key2", "val2", "K1");
    LookupAfterAdd(t3, hasher, "KEY2", "val3", "K1");
    LookupAfterAdd(t4, hasher, "MixedCase", "MC", "K1");
    LookupAfterAdd(t3, hasher, "KEY2", "val3", "key2");
    LookupAfterAdd(t4, hasher, "MixedCase", "MC", "key2");
    LookupAfterAdd(t4, hasher, "MixedCase", "MC", "mixedcase");
    LookupAfterAdd(t0, hasher, "K1", "V1", "NotExist");
    LookupAfterAdd(t1, hasher, "k1", "V2", "NotExist");
    LookupAfterAdd(t2, hasher, "key2", "val2", "NotExist");
    LookupAfterAdd(t3, hasher, "KEY2", "val3", "NotExist");
    LookupAfterAdd(t4, hasher, "MixedCase", "MC", "NotExist");
  }

  /** The table of the "Delete existing key hash with collision" test: "cdf" then "abc", both of length 3. */
  function Collided(): Table<string> {
    Added(Added(Table(0, map[]), LengthHash, "cdf", "123"), LengthHash, "abc", "456")
  }

  /** The collision tests' two keys share bucket 3, "cdf" at the head and "abc" behind it. */
  lemma CollidedStore()
    ensures Collided() == Table(2, map[3 := [Entry("cdf", "123"), Entry("abc", "456")]])
  {
    FoldsDifferAt("cdf", "abc", 0);
    var t0: Table<string> := Table(0, map[]);
    assert LengthHash("cdf") == 3 && Chain(t0.buckets, 3) == [];
    assert Upsert([], "cdf", "123") == [Entry("cdf", "123")] && Find<string>([], "cdf") == None;
    var t1 := Added(t0, LengthHash, "cdf", "123");
    assert t1 == Table(1, map[3 := [Entry("cdf", "123")]]);
    assert Upsert([Entry("cdf", "123")], "abc", "456") == [Entry("cdf", "123"), Entry("abc", "456")] by {
      assert FindIndex([Entry("cdf", "123")], "abc") == 1;
    }
  }

  /** Before the delete, both keys of the shared bucket are found under the length hasher. */
  lemma CollidedGets()
    ensures Lookup(Collided(), LengthHash, "cdf") == Some(Entry("cdf", "123"))
    ensures Lookup(Collided(), LengthHash, "abc") == Some(Entry("abc", "456"))
  {
    CollidedStore();
    FoldsDifferAt("abc", "cdf", 0);
    var c := [Entry("cdf", "123"), Entry("abc", "456")];
    FindIndexUnique(c, "cdf", 0);
    FindIndexUnique(c, "abc", 1);
  }

  /**
   * The "Delete existing key hash with collision" test as written:
   * Delete("ABC") leaves size 1, yet "cdf" is gone together with "abc".
   */
  lemma CollidedDelete()
    ensures Deleted(Collided(), LengthHash, "ABC").size == 1
    ensures Lookup(Deleted(Collided(), LengthHash, "ABC"), LengthHash, "cdf").None?
    ensures Lookup(Deleted(Collided(), LengthHash, "ABC"), LengthHash, "abc").None?
  {
    CollidedStore();
    FoldsDifferAt("cdf", "abc", 0);
    FoldsTogether("abc", "ABC");
    var c := [Entry("cdf", "123"), Entry("abc", "456")];
    FindIndexUnique(c, "ABC", 1);
    assert Deleted(Collided(), LengthHash, "ABC") == Table(1, map[]);
  }

  /** The table of the "Get with hash collision" test: "dog" then "cat", both of length 3. */
  function DogCat(): Table<string> {
    Added(Added(Table(0, map[]), LengthHash, "dog", "bark"), LengthHash, "cat", "meow")
  }

  /** The "Get with hash collision" test: "dog" and "cat" share bucket 3, and each is found with its own value. */
  lemma HashCollisionGets()
    ensures DogCat() == Table(2, map[3 := [Entry("dog", "bark"), Entry("cat", "meow")]])
    ensures Lookup(DogCat(), LengthHash, "dog") == Some(Entry("dog", "bark"))
    ensures Lookup(DogCat(), LengthHash, "cat") == Some(Entry("cat", "meow"))
  {
    FoldsDifferAt("dog", "cat", 0);
    FoldsDifferAt("cat", "dog", 0);
    var t0: Table<string> := Table(0, map[]);
    assert LengthHash("dog") == 3 && Chain(t0.buckets, 3) == [];
    assert Upsert([], "dog", "bark") == [Entry("dog", "bark")] && Find<string>([], "dog") == None;
    var t1 := Added(t0, LengthHash, "dog", "bark");
    assert t1 == Table(1, map[3 := [Entry("dog", "bark")]]);
    var c := [Entry("dog", "bark"), Entry("cat", "meow")];
    assert Upsert([Entry("dog", "bark")], "cat", "meow") == c by {
      assert FindIndex([Entry("dog", "bark")], "cat") == 1;
    }
    FindIndexUnique(c, "dog", 0);
    FindIndexUnique(c, "cat", 1);
  }

  /** The store before the collapse: "a" in bucket 1 and "bb" in bucket 2. */
  function SpreadStore(): Buckets<string> {
    map[1 := [Entry("a", "1")], 2 := [Entry("bb", "2")]]
  }

  /**
   * SetHasher as written onto a hasher under which both chain heads collide:
   * walking bucket 1 and then bucket 2, the later chain overwrites the earlier
   * one, so "a" is lost while the size counter still says 2.
   */
  lemma CollapsingRehash()
    ensures Added(Added(Table(0, map[]), LengthHash, "a", "1"), LengthHash, "bb", "2") == Table(2, SpreadStore())
    ensures Rehash(SpreadStore(), ZeroHash, [1, 2]) == map[0 := [Entry("bb", "2")]]
    ensures Lookup(Table(2, Rehash(SpreadStore(), ZeroHash, [1, 2])), ZeroHash, "a").None?
    ensures Lookup(Table(2, Rehash(SpreadStore(), ZeroHash, [1, 2])), ZeroHash, "bb") == Some(Entry("bb", "2"))
  {
    FoldsApart("a", "bb");
    FoldsTogether("bb", "bb");
    var t0: Table<string> := Table(0, map[]);
    assert LengthHash("a") == 1 && Chain(t0.buckets, 1) == [];
    assert Upsert([], "a", "1") == [Entry("a", "1")] && Find<string>([], "a") == None;
    var t1 := Added(t0, LengthHash, "a", "1");
    assert t1 == Table(1, map[1 := [Entry("a", "1")]]);
    assert LengthHash("bb") == 2 && Chain(t1.buckets, 2) == [];
    assert Upsert([], "bb", "2") == [Entry("bb", "2")] && Find<string>([], "bb") == None;
    assert Added(t1, LengthHash, "bb", "2") == Table(2, SpreadStore());
    var b := SpreadStore();
    assert RehashInto(map[], b, ZeroHash, [1, 2]) == RehashInto(map[0 := b[1]], b, ZeroHash, [2]);
    assert RehashInto(map[0 := b[1]], b, ZeroHash, [2]) == RehashInto(map[0 := b[1]][0 := b[2]], b, ZeroHash, []);
    assert map[0 := b[1]][0 := b[2]] == map[0 := [Entry("bb", "2")]];
  }
}
