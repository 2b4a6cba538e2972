/**
 * Case folding of keys and the table's default hash function.
 *
 * Keys are strings of characters. Case folding is ASCII only: 'A'..'Z' fold
 * to 'a'..'z' and every other character folds to itself. Two keys are the same
 * logical key when they are equal character by character after folding.
 */
module Hashing {

  /** ASCII lower-casing of one character. */
  function Lower(c: char): char {
    if 'A' <= c <= 'Z' then (c as int + 32) as char else c
  }

  /** The key with every character lower-cased. */
  function LowerStr(s: string): string {
    seq(|s|, i requires 0 <= i < |s| => Lower(s[i]))
  }

  /** Case-insensitive key equality. */
  predicate EqualFold(a: string, b: string) {
    LowerStr(a) == LowerStr(b)
  }

  /** EqualFold holds exactly when the keys agree position by position after lower-casing. */
  lemma EqualFoldPointwise(a: string, b: string)
    ensures EqualFold(a, b) <==> |a| == |b| && forall i :: 0 <= i < |a| ==> Lower(a[i]) == Lower(b[i])
  {
    if |a| == |b| && forall i :: 0 <= i < |a| ==> Lower(a[i]) == Lower(b[i]) {
      assert forall i :: 0 <= i < |a| ==> LowerStr(a)[i] == LowerStr(b)[i];
    }
    if EqualFold(a, b) {
      assert |a| == |LowerStr(a)| == |LowerStr(b)| == |b|;
      forall i | 0 <= i < |a| ensures Lower(a[i]) == Lower(b[i]) {
        assert LowerStr(a)[i] == LowerStr(b)[i];
      }
    }
  }

  /** A hash value: Go's hash64, an unsigned 64-bit integer. */
  newtype Hash64 = x: int | 0 <= x < 0x1_0000_0000_0000_0000

  /** A hasher keeps the case-insensitive lookup sound when case variants hash alike. */
  ghost predicate CaseInvariant(hasher: string -> Hash64) {
    forall a, b :: EqualFold(a, b) ==> hasher(a) == hasher(b)
  }

  /** The 64-bit FNV offset basis and prime. */
  const Offset64: bv64 := 14695981039346656037
  const Prime64: bv64 := 1099511628211

  /**
   * One step of the default hash on a character code: multiply by the prime,
   * then exclusive-or the code. Multiplication of `bv64` values wraps modulo 2^64.
   */
  function Fnv1Step(h: bv64, code: char): bv64 {
    (h * Prime64) ^ (code as bv64)
  }

  /** Mixes one key character into the hash: its lower-cased code goes through Fnv1Step. */
  function Mix(h: bv64, c: char): bv64 {
    Fnv1Step(h, Lower(c))
  }

  /** Folds Mix over the characters of `s`, first to last, starting from `h`. */
  function HashFrom(h: bv64, s: string): bv64
    decreases |s|
  {
    if s == [] then h else HashFrom(Mix(h, s[0]), s[1..])
  }

  /**
   * The default hasher installed by New and by the import of a zero-value
   * table; the 64-bit accumulator is read as an unsigned integer.
   */
  function DefaultHash(s: string): Hash64 {
    HashFrom(Offset64, s) as Hash64
  }

  /** defaultHashString: the accumulator loop of the default hasher, proved equal to the fold. */
  method DefaultHashString(key: string) returns (r: Hash64)
    ensures r == DefaultHash(key)
  {
    var h: bv64;
    h := Offset64;
    var i := 0;
    while i < |key|
      invariant 0 <= i <= |key|
      invariant HashFrom(h, key[i..]) == HashFrom(Offset64, key)
    {
      assert key[i..][1..] == key[i + 1..];
      // multiply by the prime, then exclusive-or the lower-cased character
      h := Fnv1Step(h, Lower(key[i]));
      i := i + 1;
    }
    assert key[i..] == [];
    r := h as Hash64;
  }

  /** Appending a character mixes it into the hash of the prefix. */
  lemma {:induction false} HashFromAppend(h: bv64, s: string, c: char)
    ensures HashFrom(h, s + [c]) == Mix(HashFrom(h, s), c)
    decreases |s|
  {
    if s == [] {
      assert [c][1..] == [];
    } else {
      assert (s + [c])[1..] == s[1..] + [c];
      HashFromAppend(Mix(h, s[0]), s[1..], c);
    }
  }

  /**
   * The default hash accumulator is the offset basis for the empty key, and each
   * further character is mixed in by multiplying first and exclusive-or-ing second.
   */
  lemma DefaultHashShape(s: string, c: char)
    ensures HashFrom(Offset64, []) == Offset64
    ensures HashFrom(Offset64, s + [c]) == Fnv1Step(HashFrom(Offset64, s), Lower(c))
  {
    HashFromAppend(Offset64, s, c);
  }

  /**
   * The mixing order is that of FNV-1 (multiply, then exclusive-or), not FNV-1a
   * (exclusive-or, then multiply): the two already differ on the key "a".
   */
  lemma MixIsNotFnv1aOrder()
    ensures HashFrom(Offset64, "a") == Fnv1Step(Offset64, 'a')
    ensures HashFrom(Offset64, "a") != (Offset64 ^ ('a' as bv64)) * Prime64
  {
  }

  /** Keys that agree position by position after lower-casing hash alike from any start. */
  lemma {:induction false} HashFromFolds(h: bv64, a: string, b: string)
    requires |a| == |b|
    requires forall i :: 0 <= i < |a| ==> Lower(a[i]) == Lower(b[i])
    ensures HashFrom(h, a) == HashFrom(h, b)
    decreases |a|
  {
    if a != [] {
      assert Mix(h, a[0]) == Mix(h, b[0]) by {
        assert Lower(a[0]) == Lower(b[0]);
      }
      HashFromFolds(Mix(h, a[0]), a[1..], b[1..]);
    }
  }

  /** Case variants of a key get the same default hash. */
  lemma DefaultHashFolds(a: string, b: string)
    requires EqualFold(a, b)
    ensures DefaultHash(a) == DefaultHash(b)
  {
    EqualFoldPointwise(a, b);
    HashFromFolds(Offset64, a, b);
    assert DefaultHash(a) == HashFrom(Offset64, a) as Hash64;
  }

  /** The default hasher is case-invariant. */
  lemma DefaultHashIsCaseInvariant()
    ensures CaseInvariant(DefaultHash)
  {
    forall a, b | EqualFold(a, b) ensures DefaultHash(a) == DefaultHash(b) {
      DefaultHashFolds(a, b);
    }
  }
}
