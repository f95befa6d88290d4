/**
 * AddressBalance.sortOutputs: Collections.sort of the candidate list, in
 * place, under the priority comparator.  Collections.sort is stable; the
 * specification here is a stable insertion sort, `Sort`, which is proved to
 * yield a sorted permutation of its input that keeps tied outputs in input
 * order.
 */
module OutputSort {

  import opened Outputs
  import opened OutputOrder

  /** Every output precedes (or ties with) every later one. */
  predicate Sorted(s: seq<Output>)
  {
    forall i, j :: 0 <= i < j < |s| ==> Precedes(s[i], s[j])
  }

  /** Inserts `x` into sorted `t` after every element that does not sort after it. */
  function Insert(t: seq<Output>, x: Output): (r: seq<Output>)
    ensures |r| == |t| + 1
  {
    if t == [] then [x]
    else if Compare(t[|t| - 1], x) > 0 then Insert(t[..|t| - 1], x) + [t[|t| - 1]]
    else t + [x]
  }

  /** Stable insertion sort: each element in turn is inserted into the sorted prefix. */
  function Sort(s: seq<Output>): (r: seq<Output>)
    ensures |r| == |s|
  {
    if s == [] then [] else Insert(Sort(s[..|s| - 1]), s[|s| - 1])
  }

  /** The outputs of `s` whose sort keys equal those of `o`, in their order in `s`. */
  function TiedWith(s: seq<Output>, o: Output): seq<Output>
  {
    if s == [] then []
    else TiedWith(s[..|s| - 1], o) + (if SameKey(s[|s| - 1], o) then [s[|s| - 1]] else [])
  }

  lemma TiedWithSnoc(s: seq<Output>, y: Output, o: Output)
    ensures TiedWith(s + [y], o) == TiedWith(s, o) + (if SameKey(y, o) then [y] else [])
  {
    assert (s + [y])[..|s|] == s;
  }

  lemma {:induction false} InsertPermutation(t: seq<Output>, x: Output)
    ensures multiset(Insert(t, x)) == multiset(t) + multiset{x}
  {
    if t != [] && Compare(t[|t| - 1], x) > 0 {
      var init, last := t[..|t| - 1], t[|t| - 1];
      InsertPermutation(init, x);
      assert t == init + [last];
    }
  }

  lemma {:induction false} InsertSorted(t: seq<Output>, x: Output)
    requires Sorted(t)
    ensures Sorted(Insert(t, x))
  {
    if t == [] {
    } else if Compare(t[|t| - 1], x) > 0 {
      var init, last := t[..|t| - 1], t[|t| - 1];
      var u := Insert(init, x);
      InsertSorted(init, x);
      InsertPermutation(init, x);
      CompareAntisymmetric(last, x);
      forall k | 0 <= k < |u|
        ensures Precedes(u[k], last)
      {
        assert u[k] in multiset(u);
        if u[k] != x {
          assert u[k] in multiset(init);
          var m :| 0 <= m < |init| && init[m] == u[k];
          assert t[m] == u[k];
        }
      }
    } else {
      var last := t[|t| - 1];
      forall k | 0 <= k < |t|
        ensures Precedes(t[k], x)
      {
        if k < |t| - 1 { PrecedesTransitive(t[k], last, x); }
      }
    }
  }

  lemma {:induction false} InsertKeepsTies(t: seq<Output>, x: Output, o: Output)
    requires Sorted(t)
    ensures TiedWith(Insert(t, x), o) == TiedWith(t, o) + (if SameKey(x, o) then [x] else [])
  {
    if t == [] {
      TiedWithSnoc([], x, o);
    } else if Compare(t[|t| - 1], x) > 0 {
      var init, last := t[..|t| - 1], t[|t| - 1];
      assert Sorted(init);
      InsertKeepsTies(init, x, o);
      TiedWithSnoc(Insert(init, x), last, o);
      TiedWithSnoc(init, last, o);
      assert t == init + [last];
      if SameKey(x, o) && SameKey(last, o) {
        CompareMeaning(last, x);
        assert false;
      }
    } else {
      TiedWithSnoc(t, x, o);
    }
  }

  /** Sort returns a permutation of its input. */
  lemma {:induction false} SortPermutation(s: seq<Output>)
    ensures multiset(Sort(s)) == multiset(s)
  {
    if s != [] {
      var init, last := s[..|s| - 1], s[|s| - 1];
      SortPermutation(init);
      InsertPermutation(Sort(init), last);
      assert s == init + [last];
    }
  }

  /** Sort returns a list ordered by the comparator. */
  lemma {:induction false} SortSorted(s: seq<Output>)
    ensures Sorted(Sort(s))
  {
    if s != [] {
      SortSorted(s[..|s| - 1]);
      InsertSorted(Sort(s[..|s| - 1]), s[|s| - 1]);
    }
  }

  /** Sort is stable: outputs that tie keep their input order. */
  lemma {:induction false} SortStable(s: seq<Output>, o: Output)
    ensures TiedWith(Sort(s), o) == TiedWith(s, o)
  {
    if s != [] {
      var init, last := s[..|s| - 1], s[|s| - 1];
      SortStable(init, o);
      SortSorted(init);
      InsertKeepsTies(Sort(init), last, o);
      TiedWithSnoc(init, last, o);
      assert s == init + [last];
    }
  }

  /** A sorted list, spelled out key by key. */
  lemma SortedOrder(s: seq<Output>, i: int, j: int)
    requires Sorted(s) && 0 <= i < j < |s|
    ensures CoinDepth(s[i]) >= CoinDepth(s[j])
    ensures CoinDepth(s[i]) == CoinDepth(s[j]) ==> s[i].value >= s[j].value
    ensures CoinDepth(s[i]) == CoinDepth(s[j]) && s[i].value == s[j].value ==>
              s[i].parentHash <= s[j].parentHash
  {
    assert Precedes(s[i], s[j]);
  }

  /** Sorts `a` in place; afterwards `a` holds Sort of its old contents. */
  method SortOutputs(a: array<Output>)
    modifies a
    ensures a[..] == Sort(old(a[..]))
    ensures Sorted(a[..]) && multiset(a[..]) == multiset(old(a[..]))
  {
    ghost var s := a[..];
    var i := 0;
    while i < a.Length
      invariant 0 <= i <= a.Length
      invariant a[..i] == Sort(s[..i])
      invariant a[i..] == s[i..]
    {
      InsertLast(a, i);
      assert s[..i + 1][..i] == s[..i];
      assert a[..i + 1] == Sort(s[..i + 1]) && a[i + 1..] == s[i + 1..];
      i := i + 1;
    }
    assert a[..] == a[..a.Length] && s == s[..a.Length];
    SortSorted(s);
    SortPermutation(s);
  }

  /** Moves a[i] left past every element of a[..i] that sorts after it. */
  method InsertLast(a: array<Output>, i: int)
    requires 0 <= i < a.Length
    modifies a
    ensures a[..] == Insert(old(a[..i]), old(a[i])) + old(a[i + 1..])
  {
    ghost var t := a[..i];
    ghost var rest := a[i + 1..];
    var x := a[i];
    var j := ShiftGreater(a, i, x);
    InsertAt(t, j, x);
    a[j] := x;
    Assemble(a[..], t, rest, j, x);
  }

  /**
   * Shifts the run of a[..i] that sorts after x one slot right, opening a
   * gap at the returned index j.
   */
  method ShiftGreater(a: array<Output>, i: int, x: Output) returns (j: int)
    requires 0 <= i < a.Length
    modifies a
    ensures 0 <= j <= i
    ensures forall k :: 0 <= k < j ==> a[k] == old(a[k])
    ensures forall k :: j < k <= i ==> a[k] == old(a[k - 1])
    ensures forall k :: i < k < a.Length ==> a[k] == old(a[k])
    ensures forall k :: j <= k < i ==> Compare(old(a[k]), x) > 0
    ensures j == 0 || Compare(old(a[j - 1]), x) <= 0
  {
    j := i;
    while j > 0 && Compare(a[j - 1], x) > 0
      invariant 0 <= j <= i
      invariant forall k :: 0 <= k < j ==> a[k] == old(a[k])
      invariant forall k :: j < k <= i ==> a[k] == old(a[k - 1])
      invariant forall k :: i < k < a.Length ==> a[k] == old(a[k])
      invariant forall k :: j <= k < i ==> Compare(old(a[k]), x) > 0
    {
      a[j] := a[j - 1];
      j := j - 1;
    }
  }

  /**
   * Insert puts x right after the last element that does not sort after it:
   * everything from j on sorts after x, and t[j - 1], if any, does not.
   */
  lemma {:induction false} InsertAt(t: seq<Output>, j: int, x: Output)
    requires 0 <= j <= |t|
    requires forall k :: j <= k < |t| ==> Compare(t[k], x) > 0
    requires j == 0 || Compare(t[j - 1], x) <= 0
    ensures Insert(t, x) == t[..j] + [x] + t[j..]
  {
    if j < |t| {
      var init := t[..|t| - 1];
      assert forall k :: j <= k < |init| ==> init[k] == t[k];
      assert j == 0 || init[j - 1] == t[j - 1];
      InsertAt(init, j, x);
      assert init[..j] == t[..j];
      assert t[j..] == init[j..] + [t[|t| - 1]];
    } else {
      assert t[..j] == t;
    }
  }

  /** An array read slot by slot as the prefix, x, the shifted tail and the rest. */
  lemma Assemble(s: seq<Output>, t: seq<Output>, rest: seq<Output>, j: int, x: Output)
    requires 0 <= j <= |t| && |s| == |t| + 1 + |rest| && s[j] == x
    requires forall k :: 0 <= k < j ==> s[k] == t[k]
    requires forall k :: j < k <= |t| ==> s[k] == t[k - 1]
    requires forall k :: |t| < k < |s| ==> s[k] == rest[k - |t| - 1]
    ensures s == t[..j] + [x] + t[j..] + rest
  {
  }
}
