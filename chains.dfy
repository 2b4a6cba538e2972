/**
 * Collision chains. A bucket's singly linked list of nodes is modelled as the
 * sequence of its entries, head first; the node methods become loops that walk
 * the sequence and return the edited chain.
 */
module Chains {
  import opened Wrappers
  import opened Hashing

  /** One stored pair: the key in the casing of its latest insertion, and its value. */
  datatype Entry<T> = Entry(key: string, value: T)

  /** Index of the first entry whose key EqualFolds `k`, or |chain| when there is none. */
  function FindIndex<T>(chain: seq<Entry<T>>, k: string): (i: nat)
    ensures i <= |chain|
    ensures i < |chain| ==> EqualFold(chain[i].key, k)
    ensures forall j :: 0 <= j < i ==> !EqualFold(chain[j].key, k)
  {
    if chain == [] then 0
    else if EqualFold(chain[0].key, k) then 0
    else 1 + FindIndex(chain[1..], k)
  }

  /** The first entry of the chain that matches `k` case-insensitively. */
  function Find<T>(chain: seq<Entry<T>>, k: string): Option<Entry<T>> {
    var i := FindIndex(chain, k);
    if i < |chain| then Some(chain[i]) else None
  }

  /** No two entries of the chain are case-insensitively equal. */
  ghost predicate ChainUnique<T>(chain: seq<Entry<T>>) {
    forall i, j :: 0 <= i < j < |chain| ==> !EqualFold(chain[i].key, chain[j].key)
  }

  /**
   * The chain after insert-or-replace: the first match takes the new key casing
   * and the new value in place; without a match the pair is appended at the tail.
   */
  function Upsert<T>(chain: seq<Entry<T>>, k: string, v: T): seq<Entry<T>> {
    var i := FindIndex(chain, k);
    if i < |chain| then chain[i := Entry(k, v)] else chain + [Entry(k, v)]
  }

  /**
   * The chain after node.delete as written: a match at the head only rebinds the
   * receiver, so the chain is left as it was; an interior match is unlinked.
   */
  function Unlinked<T>(chain: seq<Entry<T>>, k: string): seq<Entry<T>> {
    var i := FindIndex(chain, k);
    if i == 0 || i == |chain| then chain else chain[..i] + chain[i + 1..]
  }

  /** node.insertOrReplace: walks the chain from its head; reports whether the key existed. */
  method InsertOrReplace<T>(chain: seq<Entry<T>>, k: string, v: T) returns (updated: seq<Entry<T>>, existed: bool)
    requires |chain| > 0
    ensures existed == Find(chain, k).Some?
    ensures updated == Upsert(chain, k, v)
  {
    var i := 0;
    while i < |chain|
      invariant 0 <= i <= |chain|
      invariant forall j :: 0 <= j < i ==> !EqualFold(chain[j].key, k)
    {
      if EqualFold(chain[i].key, k) {
        return chain[i := Entry(k, v)], true;
      }
      i := i + 1;
    }
    return chain + [Entry(k, v)], false;
  }

  /** node.delete: reports whether some entry matches; the returned chain is as the code leaves it. */
  method NodeDelete<T>(chain: seq<Entry<T>>, k: string) returns (updated: seq<Entry<T>>, found: bool)
    requires |chain| > 0
    ensures found == Find(chain, k).Some?
    ensures updated == Unlinked(chain, k)
  {
    if EqualFold(chain[0].key, k) {
      return chain, true;
    }
    var prev := 0;
    while prev + 1 < |chain|
      invariant 0 <= prev < |chain|
      invariant forall j :: 0 <= j <= prev ==> !EqualFold(chain[j].key, k)
    {
      if EqualFold(chain[prev + 1].key, k) {
        return chain[..prev + 1] + chain[prev + 2..], true;
      }
      prev := prev + 1;
    }
    return chain, false;
  }

  /** EqualFold is an equivalence, so a key matching `k` matches exactly the keys `k` matches. */
  lemma EqualFoldTrans(a: string, b: string, c: string)
    requires EqualFold(a, b)
    ensures EqualFold(a, c) <==> EqualFold(b, c)
  {
  }

  /** Case variants of a key find the same entry. */
  lemma FindFold<T>(chain: seq<Entry<T>>, k: string, q: string)
    requires EqualFold(k, q)
    ensures Find(chain, k) == Find(chain, q)
  {
    FindIndexUnique(chain, q, FindIndex(chain, k));
  }

  /** In a chain without duplicates, every entry is the one its own key finds. */
  lemma FindStored<T>(chain: seq<Entry<T>>, j: int)
    requires ChainUnique(chain) && 0 <= j < |chain|
    ensures Find(chain, chain[j].key) == Some(chain[j])
  {
    FindIndexUnique(chain, chain[j].key, j);
  }

  /** The first-match position is determined by the three facts FindIndex promises. */
  lemma FindIndexUnique<T>(chain: seq<Entry<T>>, k: string, i: nat)
    requires i <= |chain|
    requires i < |chain| ==> EqualFold(chain[i].key, k)
    requires forall j :: 0 <= j < i ==> !EqualFold(chain[j].key, k)
    ensures FindIndex(chain, k) == i
  {
  }

  /**
   * After an insert-or-replace of `k`, a lookup of any case variant of `k` finds
   * the new (key, value), and a lookup of any other key finds what it found before.
   */
  lemma FindAfterUpsert<T>(chain: seq<Entry<T>>, k: string, v: T, q: string)
    ensures Find(Upsert(chain, k, v), q) == if EqualFold(k, q) then Some(Entry(k, v)) else Find(chain, q)
  {
    var i := FindIndex(chain, k);
    var u := Upsert(chain, k, v);
    assert forall j :: 0 <= j < |chain| && j != i ==> u[j] == chain[j];
    if EqualFold(k, q) {
      // the entries before position i match neither k nor q, and position i now holds k
      forall j | 0 <= j < i ensures !EqualFold(u[j].key, q) {
        EqualFoldTrans(k, q, u[j].key);
      }
      FindIndexUnique(u, q, i);
    } else {
      var f := FindIndex(chain, q);
      if i < |chain| {
        // the replaced entry matched k, hence not q
        EqualFoldTrans(chain[i].key, k, q);
        FindIndexUnique(u, q, f);
      } else if f < |chain| {
        FindIndexUnique(u, q, f);
      } else {
        // neither the old entries nor the appended one match q
        FindIndexUnique(u, q, |u|);
      }
    }
  }

  /**
   * Insert-or-replace grows the chain by one exactly when the key was absent,
   * keeps it free of case duplicates, and adds no key other than `k`.
   */
  lemma UpsertShape<T>(chain: seq<Entry<T>>, k: string, v: T)
    ensures |Upsert(chain, k, v)| == |chain| + (if Find(chain, k).None? then 1 else 0)
    ensures ChainUnique(chain) ==> ChainUnique(Upsert(chain, k, v))
    ensures forall e :: e in Upsert(chain, k, v) ==> e in chain || e == Entry(k, v)
  {
    var i := FindIndex(chain, k);
    var u := Upsert(chain, k, v);
    if ChainUnique(chain) {
      forall a, b | 0 <= a < b < |u| ensures !EqualFold(u[a].key, u[b].key) {
        if i < |chain| {
          if a == i {
            EqualFoldTrans(chain[i].key, k, chain[b].key);
          } else if b == i {
            EqualFoldTrans(chain[i].key, k, chain[a].key);
          }
        }
      }
    }
    if i == |chain| {
      assert u == chain + [Entry(k, v)];
    }
  }

  /** Unlinking the first match of `k` disturbs the lookup of no other key. */
  lemma FindAfterUnlink<T>(chain: seq<Entry<T>>, k: string, q: string)
    requires !EqualFold(k, q)
    ensures Find(Unlinked(chain, k), q) == Find(chain, q)
  {
    var i := FindIndex(chain, k);
    if 0 < i < |chain| {
      var u := Unlinked(chain, k);
      assert forall j :: 0 <= j < i ==> u[j] == chain[j];
      assert forall j :: i <= j < |u| ==> u[j] == chain[j + 1];
      EqualFoldTrans(chain[i].key, k, q);
      var f := FindIndex(chain, q);
      if f < i {
        FindIndexUnique(u, q, f);
      } else {
        // the match, if any, moved one place towards the head
        FindIndexUnique(u, q, f - 1);
      }
    }
  }
}
