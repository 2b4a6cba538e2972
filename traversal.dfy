/**
 * Traversal of the table. Go's `range` over the bucket map visits the buckets
 * in an order it does not specify; the model takes that order as a parameter
 * that lists every bucket exactly once. Keys, Iterator, ForEach and
 * MarshalJSON all walk the chains of the buckets in that order.
 */
module Traversal {
  import opened Hashing
  import opened Chains
  import opened Tables

  /** `order` lists every element of `keys` exactly once. */
  ghost predicate Enumerates<K(!new)>(order: seq<K>, keys: set<K>) {
    && (forall i, j :: 0 <= i < j < |order| ==> order[i] != order[j])
    && (forall x :: x in order <==> x in keys)
  }

  /** A sequence without repetitions enumerating a set is as long as the set is large. */
  lemma {:induction false} DistinctCard<K(!new)>(keys: seq<K>, s: set<K>)
    requires Enumerates(keys, s)
    ensures |keys| == |s|
    decreases |keys|
  {
    if keys != [] {
      var x := keys[|keys| - 1];
      var p := keys[..|keys| - 1];
      assert Enumerates(p, s - {x}) by {
        forall y ensures y in p <==> y in s - {x} {
          if y in p {
            var i :| 0 <= i < |p| && p[i] == y;
            assert keys[i] == y && i < |keys| - 1;
          }
          if y in s - {x} {
            assert y in keys;
            var i :| 0 <= i < |keys| && keys[i] == y;
            assert i != |keys| - 1;
            assert p[i] == y;
          }
        }
        forall i, j | 0 <= i < j < |p| ensures p[i] != p[j] {
          assert p[i] == keys[i] && p[j] == keys[j];
        }
      }
      DistinctCard(p, s - {x});
    } else {
      assert forall y :: y !in s;
      assert s == {};
    }
  }

  /** The entries met by walking the chains of the buckets in `order`, each chain head first. */
  function Flatten<T>(b: Buckets<T>, order: seq<Hash64>): seq<Entry<T>>
    requires forall x :: x in order ==> x in b
  {
    if order == [] then [] else Flatten(b, order[..|order| - 1]) + b[order[|order| - 1]]
  }

  /**
   * The calls a visitor receives: the elements of `s` up to and including the
   * first one on which it answers false, or all of `s` if it never does.
   */
  function StopPrefix<E>(s: seq<E>, visit: E -> bool): (r: seq<E>)
    ensures |r| <= |s| && r == s[..|r|]
    ensures forall i :: 0 <= i < |r| - 1 ==> visit(r[i])
    ensures |r| < |s| ==> |r| > 0 && !visit(r[|r| - 1])
    ensures s != [] ==> r != []
  {
    if s == [] then []
    else if !visit(s[0]) then [s[0]]
    else [s[0]] + StopPrefix(s[1..], visit)
  }

  /** A visitor that answers true throughout receives every element. */
  lemma StopPrefixAll<E>(s: seq<E>, visit: E -> bool)
    requires forall i :: 0 <= i < |s| ==> visit(s[i])
    ensures StopPrefix(s, visit) == s
  {
  }

  /** A visitor that answers false receives exactly one element of a non-empty sequence. */
  lemma StopPrefixFirst<E>(s: seq<E>, visit: E -> bool)
    requires s != [] && !visit(s[0])
    ensures StopPrefix(s, visit) == [s[0]]
  {
  }

  /** The visit stops at the first element answered false, whatever follows it. */
  lemma {:induction false} StopPrefixSplit<E>(p: seq<E>, x: E, rest: seq<E>, visit: E -> bool)
    requires forall i :: 0 <= i < |p| ==> visit(p[i])
    requires !visit(x)
    ensures StopPrefix(p + [x] + rest, visit) == p + [x]
  {
    if p != [] {
      assert (p + [x] + rest)[1..] == p[1..] + [x] + rest;
      StopPrefixSplit(p[1..], x, rest, visit);
    }
  }

  /** Walking the buckets of two orders one after the other. */
  lemma {:induction false} FlattenAppend<T>(b: Buckets<T>, o1: seq<Hash64>, o2: seq<Hash64>)
    requires forall x :: x in o1 + o2 ==> x in b
    ensures Flatten(b, o1 + o2) == Flatten(b, o1) + Flatten(b, o2)
    decreases |o2|
  {
    if o2 == [] {
      assert o1 + o2 == o1;
    } else {
      var o2', last := o2[..|o2| - 1], o2[|o2| - 1];
      var o := o1 + o2;
      assert o[..|o| - 1] == o1 + o2' && o[|o| - 1] == last;
      assert forall x :: x in o1 + o2' ==> x in o;
      FlattenAppend(b, o1, o2');
      assert Flatten(b, o) == Flatten(b, o1 + o2') + b[last];
    }
  }

  /** Flatten reads only the buckets that `order` names. */
  lemma {:induction false} FlattenSame<T>(b1: Buckets<T>, b2: Buckets<T>, order: seq<Hash64>)
    requires forall x :: x in order ==> x in b1 && x in b2 && b1[x] == b2[x]
    ensures Flatten(b1, order) == Flatten(b2, order)
    decreases |order|
  {
    if order != [] {
      FlattenSame(b1, b2, order[..|order| - 1]);
    }
  }

  /** Every entry of a walk is an entry of one of the walked chains. */
  lemma {:induction false} FlattenFrom<T>(b: Buckets<T>, order: seq<Hash64>, p: int)
    requires forall x :: x in order ==> x in b
    requires 0 <= p < |Flatten(b, order)|
    ensures exists h, j :: h in order && 0 <= j < |b[h]| && Flatten(b, order)[p] == b[h][j]
    decreases |order|
  {
    var last := order[|order| - 1];
    var o := order[..|order| - 1];
    assert Flatten(b, order) == Flatten(b, o) + b[last];
    if p < |Flatten(b, o)| {
      FlattenFrom(b, o, p);
      var h, j :| h in o && 0 <= j < |b[h]| && Flatten(b, o)[p] == b[h][j];
      assert h in order;
    } else {
      assert Flatten(b, order)[p] == b[last][p - |Flatten(b, o)|];
    }
  }

  /** A walk cut at entry j of the i-th chain: what came before, that entry, and what follows. */
  lemma FlattenSplitAt<T>(b: Buckets<T>, order: seq<Hash64>, i: int, j: int)
    requires forall x :: x in order ==> x in b
    requires 0 <= i < |order| && 0 <= j < |b[order[i]]|
    ensures Flatten(b, order)
         == Flatten(b, order[..i]) + b[order[i]][..j] + [b[order[i]][j]] + (b[order[i]][j + 1..] + Flatten(b, order[i + 1..]))
  {
    var c := b[order[i]];
    assert order == order[..i + 1] + order[i + 1..];
    FlattenAppend(b, order[..i + 1], order[i + 1..]);
    assert order[..i + 1][..i] == order[..i];
    assert Flatten(b, order[..i + 1]) == Flatten(b, order[..i]) + c;
    assert c == c[..j] + [c[j]] + c[j + 1..];
  }

  /** Walking one more bucket of `order` appends its chain. */
  lemma FlattenPrefix<T>(b: Buckets<T>, order: seq<Hash64>, i: int)
    requires forall x :: x in order ==> x in b
    requires 0 <= i < |order|
    ensures Flatten(b, order[..i + 1]) == Flatten(b, order[..i]) + b[order[i]]
  {
    assert order[..i + 1][..i] == order[..i];
  }

  /** The keys of a sequence of entries. */
  function KeysOf<T>(s: seq<Entry<T>>): seq<string> {
    seq(|s|, i requires 0 <= i < |s| => s[i].key)
  }

  /** The entry visitor of the Keys traversal: it hands the key to `emit`. */
  function OnKey<T>(emit: string -> bool): Entry<T> -> bool {
    (e: Entry<T>) => emit(e.key)
  }

  /** The entry visitor of the Iterator and ForEach traversals: it hands key and value to `fn`. */
  function OnPair<T>(fn: (string, T) -> bool): Entry<T> -> bool {
    (e: Entry<T>) => fn(e.key, e.value)
  }

  /** Walking every bucket once meets exactly the reachable entries. */
  lemma {:induction false} FlattenCount<T>(b: Buckets<T>, order: seq<Hash64>)
    requires Enumerates(order, b.Keys)
    ensures |Flatten(b, order)| == Count(b)
    decreases |order|
  {
    if order == [] {
      assert b.Keys == {};
      assert b == map[];
    } else {
      var h := order[|order| - 1];
      var o := order[..|order| - 1];
      var b' := b - {h};
      assert Enumerates(o, b'.Keys) by {
        forall x ensures x in o <==> x in b'.Keys {
          if x in o {
            var i :| 0 <= i < |o| && o[i] == x;
            assert order[i] == x && i < |order| - 1;
          }
          if x in b'.Keys {
            assert x in order;
            var i :| 0 <= i < |order| && order[i] == x;
            assert o[i] == x;
          }
        }
      }
      FlattenSame(b, b', o);
      FlattenCount(b', o);
      CountRemove(b, h);
    }
  }

  /** Every entry met while walking is filed under one of the visited buckets. */
  lemma {:induction false} FlattenFiled<T>(b: Buckets<T>, hasher: string -> Hash64, order: seq<Hash64>)
    requires forall x :: x in order ==> x in b
    requires Filed(b, hasher)
    ensures forall p :: 0 <= p < |Flatten(b, order)| ==> hasher(Flatten(b, order)[p].key) in order
    decreases |order|
  {
    if order != [] {
      var o := order[..|order| - 1];
      FlattenFiled(b, hasher, o);
      var f := Flatten(b, order);
      forall p | 0 <= p < |f| ensures hasher(f[p].key) in order {
        if p < |Flatten(b, o)| {
          assert f[p] == Flatten(b, o)[p];
          assert hasher(f[p].key) in o;
        } else {
          assert f[p] == b[order[|order| - 1]][p - |Flatten(b, o)|];
        }
      }
    }
  }

  /**
   * Under the table invariants and a case-invariant hasher, the entries met
   * while walking are pairwise not case-insensitively equal.
   */
  lemma {:induction false} FlattenUnique<T>(b: Buckets<T>, hasher: string -> Hash64, order: seq<Hash64>)
    requires forall x :: x in order ==> x in b
    requires forall i, j :: 0 <= i < j < |order| ==> order[i] != order[j]
    requires Filed(b, hasher) && ChainsUnique(b) && CaseInvariant(hasher)
    ensures forall p, q :: 0 <= p < q < |Flatten(b, order)| ==> !EqualFold(Flatten(b, order)[p].key, Flatten(b, order)[q].key)
    decreases |order|
  {
    if order != [] {
      var h := order[|order| - 1];
      var o := order[..|order| - 1];
      FlattenUnique(b, hasher, o);
      FlattenFiled(b, hasher, o);
      var f := Flatten(b, order);
      var n := |Flatten(b, o)|;
      assert h !in o by {
        forall i | 0 <= i < |o| ensures o[i] != h { assert order[i] == o[i]; }
      }
      forall p, q | 0 <= p < q < |f| ensures !EqualFold(f[p].key, f[q].key) {
        if q < n {
          assert f[p] == Flatten(b, o)[p] && f[q] == Flatten(b, o)[q];
        } else if p >= n {
          assert f[p] == b[h][p - n] && f[q] == b[h][q - n];
        } else {
          assert f[p] == Flatten(b, o)[p] && f[q] == b[h][q - n];
          assert hasher(f[p].key) in o && hasher(f[q].key) == h;
        }
      }
    }
  }

  /** Every entry of a visited bucket is met while walking. */
  lemma {:induction false} FlattenHas<T>(b: Buckets<T>, order: seq<Hash64>, h: Hash64, j: int)
    requires forall x :: x in order ==> x in b
    requires h in order && 0 <= j < |b[h]|
    ensures b[h][j] in Flatten(b, order)
    decreases |order|
  {
    var last := order[|order| - 1];
    var o := order[..|order| - 1];
    if h == last {
      assert Flatten(b, order)[|Flatten(b, o)| + j] == b[h][j];
    } else {
      assert h in o by {
        var i :| 0 <= i < |order| && order[i] == h;
        assert i < |order| - 1 && o[i] == h;
      }
      FlattenHas(b, o, h, j);
    }
  }

  /** A traversal that never stops visits exactly Len() entries of a consistent table. */
  lemma FullTraversalVisitsSize<T>(t: Table<T>, hasher: string -> Hash64, order: seq<Hash64>)
    requires Consistent(t, hasher) && Enumerates(order, t.buckets.Keys)
    ensures |StopPrefix(Flatten(t.buckets, order), (e: Entry<T>) => true)| == t.size
  {
    FlattenCount(t.buckets, order);
    StopPrefixAll(Flatten(t.buckets, order), (e: Entry<T>) => true);
  }

  /** A traversal whose visitor stops at once visits exactly one entry of a non-empty consistent table. */
  lemma StoppedTraversalVisitsOne<T>(t: Table<T>, hasher: string -> Hash64, order: seq<Hash64>)
    requires Consistent(t, hasher) && Enumerates(order, t.buckets.Keys) && t.size > 0
    ensures |StopPrefix(Flatten(t.buckets, order), (e: Entry<T>) => false)| == 1
  {
    FlattenCount(t.buckets, order);
    StopPrefixFirst(Flatten(t.buckets, order), (e: Entry<T>) => false);
  }
}
