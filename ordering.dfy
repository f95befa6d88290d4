/**
 * The priority comparator of AddressBalance.sortOutputs: value times depth
 * descending, then value descending, then parent transaction hash ascending.
 */
module OutputOrder {

  import opened Outputs

  /** Three-way comparison of two integers, as BigInteger/Long compareTo answers. */
  function CompareInt(x: int, y: int): (c: int)
    ensures c == -1 || c == 0 || c == 1
    ensures c < 0 <==> x < y
    ensures c == 0 <==> x == y
  {
    if x < y then -1 else if x > y then 1 else 0
  }

  /** Depth as the comparator reads it: the real depth for BUILDING, else 0. */
  function SortDepth(o: Output): nat
  {
    if o.confidenceType == Building then o.depth else 0
  }

  /** The "coin-days" priority: value times depth. */
  function CoinDepth(o: Output): nat
  {
    o.value * SortDepth(o)
  }

  /** Negative when `a` sorts before `b`, positive when after, 0 when tied. */
  function Compare(a: Output, b: Output): (c: int)
    ensures c == -1 || c == 0 || c == 1
  {
    var c1 := CompareInt(CoinDepth(b), CoinDepth(a));
    if c1 != 0 then c1
    else
      var c2 := CompareInt(b.value, a.value);
      if c2 != 0 then c2
      else CompareInt(a.parentHash, b.parentHash)
  }

  /** The three sort keys of an output agree. */
  predicate SameKey(a: Output, b: Output)
  {
    CoinDepth(a) == CoinDepth(b) && a.value == b.value && a.parentHash == b.parentHash
  }

  /** `a` may stand before `b` in a sorted list. */
  predicate Precedes(a: Output, b: Output)
  {
    Compare(a, b) <= 0
  }

  /** The comparator's meaning, key by key. */
  lemma CompareMeaning(a: Output, b: Output)
    ensures Compare(a, b) < 0 <==>
              CoinDepth(a) > CoinDepth(b)
              || (CoinDepth(a) == CoinDepth(b) && a.value > b.value)
              || (CoinDepth(a) == CoinDepth(b) && a.value == b.value && a.parentHash < b.parentHash)
    ensures Compare(a, b) == 0 <==> SameKey(a, b)
  {
  }

  /** Swapping the arguments negates the answer. */
  lemma CompareAntisymmetric(a: Output, b: Output)
    ensures Compare(a, b) == -Compare(b, a)
  {
  }

  /** Precedes is a total preorder: total and transitive. */
  lemma PrecedesTotal(a: Output, b: Output)
    ensures Precedes(a, b) || Precedes(b, a)
  {
  }

  lemma PrecedesTransitive(a: Output, b: Output, c: Output)
    requires Precedes(a, b) && Precedes(b, c)
    ensures Precedes(a, c)
  {
  }

  /** Strictly-after is transitive too, and ties are an equivalence. */
  lemma AfterTransitive(a: Output, b: Output, c: Output)
    requires Compare(a, b) > 0 && Compare(b, c) > 0
    ensures Compare(a, c) > 0
  {
  }

  lemma SameKeyEquivalence(a: Output, b: Output, c: Output)
    ensures SameKey(a, a)
    ensures SameKey(a, b) ==> SameKey(b, a)
    ensures SameKey(a, b) && SameKey(b, c) ==> SameKey(a, c)
  {
  }
}
