/** `internal_sort`: bubble sort with an early exit when a pass swaps nothing.
    The source sorts any `T: PartialOrd` through `>`; the model orders elements
    by an integer key, so `a > b` is `key(a) > key(b)`. The `Vec` being sorted
    is a sequence value updated by adjacent swaps. */
module BubbleSort {

  /** Non-decreasing by key. */
  ghost predicate SortedBy<T>(s: seq<T>, key: T -> int) {
    forall p, q :: 0 <= p < q < |s| ==> key(s[p]) <= key(s[q])
  }

  /** The elements of `s` whose key is `k`, in their order in `s`. */
  function Filter<T>(s: seq<T>, key: T -> int, k: int): seq<T>
  {
    if |s| == 0 then []
    else (if key(s[0]) == k then [s[0]] else []) + Filter(s[1..], key, k)
  }

  /** `t` keeps every group of equal-keyed elements of `s`, in the same order:
      `t` is a stable rearrangement of `s`. */
  ghost predicate SameGroups<T>(s: seq<T>, t: seq<T>, key: T -> int) {
    forall k :: Filter(s, key, k) == Filter(t, key, k)
  }

  lemma {:induction false} FilterConcat<T>(s: seq<T>, t: seq<T>, key: T -> int, k: int)
    ensures Filter(s + t, key, k) == Filter(s, key, k) + Filter(t, key, k)
    decreases |s|
  {
    if |s| > 0 {
      assert (s + t)[1..] == s[1..] + t;
      FilterConcat(s[1..], t, key, k);
    } else {
      assert s + t == t;
    }
  }

  /** Swapping two adjacent elements with different keys keeps every group. */
  lemma SwapKeepsGroups<T>(a: seq<T>, j: nat, key: T -> int)
    requires j + 1 < |a| && key(a[j]) != key(a[j + 1])
    ensures SameGroups(a, a[j := a[j + 1]][j + 1 := a[j]], key)
    ensures multiset(a[j := a[j + 1]][j + 1 := a[j]]) == multiset(a)
  {
    var b := a[j := a[j + 1]][j + 1 := a[j]];
    assert a == a[..j] + [a[j], a[j + 1]] + a[j + 2..];
    assert b == a[..j] + [a[j + 1], a[j]] + a[j + 2..];
    forall k ensures Filter(a, key, k) == Filter(b, key, k) {
      FilterConcat(a[..j] + [a[j], a[j + 1]], a[j + 2..], key, k);
      FilterConcat(a[..j], [a[j], a[j + 1]], key, k);
      FilterConcat(a[..j] + [a[j + 1], a[j]], a[j + 2..], key, k);
      FilterConcat(a[..j], [a[j + 1], a[j]], key, k);
      assert [a[j], a[j + 1]][1..] == [a[j + 1]];
      assert [a[j + 1], a[j]][1..] == [a[j]];
    }
  }

  /** The suffix from `m` on is sorted and no element before `m` exceeds any
      element in it: those positions already hold their final values. */
  ghost predicate SuffixFinal<T>(a: seq<T>, m: int, key: T -> int)
    requires 0 <= m <= |a|
  {
    && (forall p, q :: m <= p < q < |a| ==> key(a[p]) <= key(a[q]))
    && (forall p, q :: 0 <= p < m <= q < |a| ==> key(a[p]) <= key(a[q]))
  }

  /** No element before position `j` exceeds the one at `j`. */
  ghost predicate MaxAt<T>(a: seq<T>, j: nat, key: T -> int)
    requires j < |a|
  {
    forall p :: 0 <= p < j ==> key(a[p]) <= key(a[j])
  }

  /** The prefix up to and including position `j` is sorted. */
  ghost predicate SortedUpTo<T>(a: seq<T>, j: nat, key: T -> int)
    requires j < |a|
  {
    forall p, q :: 0 <= p < q <= j ==> key(a[p]) <= key(a[q])
  }

  /** One outer pass of `internal_sort`: the inner loop over `j` in
      `0..m - 1`, swapping each strictly out-of-order adjacent pair. On entry
      positions from `m` on are final; on exit positions from `m - 1` on are. */
  method BubblePass<T>(input: seq<T>, m: nat, key: T -> int) returns (a: seq<T>, swaps: nat)
    requires 1 <= m <= |input| && SuffixFinal(input, m, key)
    ensures |a| == |input| && multiset(a) == multiset(input)
    ensures SameGroups(input, a, key)
    ensures SuffixFinal(a, m - 1, key)
    ensures swaps == 0 ==> a == input && SortedBy(a, key)
    ensures SortedBy(input, key) ==> swaps == 0
  {
    a := input;
    swaps := 0;
    var j := 0;
    while j < m - 1
      invariant 0 <= j <= m - 1 && |a| == |input|
      invariant multiset(a) == multiset(input) && SameGroups(input, a, key)
      invariant SuffixFinal(a, m, key)
      invariant MaxAt(a, j, key)
      invariant swaps == 0 ==> a == input && SortedUpTo(a, j, key)
      invariant SortedBy(input, key) ==> swaps == 0
    {
      if key(a[j]) > key(a[j + 1]) {
        ghost var before := a;
        SwapKeepsGroups(a, j, key);
        SwapStep(a, j, m, key);
        a := a[j := a[j + 1]][j + 1 := a[j]];
        SameGroupsTransitive(input, before, a, key);
        swaps := swaps + 1;
      } else {
        InOrderStep(a, j, key);
      }
      j := j + 1;
    }
    PassEnd(a, m, key);
  }

  /** A swap below position `m` leaves the final suffix final and carries the
      largest element of the prefix one step to the right. */
  lemma SwapStep<T>(a: seq<T>, j: nat, m: nat, key: T -> int)
    requires j + 1 < m <= |a| && SuffixFinal(a, m, key)
    requires MaxAt(a, j, key) && key(a[j]) > key(a[j + 1])
    ensures SuffixFinal(a[j := a[j + 1]][j + 1 := a[j]], m, key)
    ensures MaxAt(a[j := a[j + 1]][j + 1 := a[j]], j + 1, key)
  {
    var b := a[j := a[j + 1]][j + 1 := a[j]];
    forall p, q | 0 <= p < m <= q < |b| ensures key(b[p]) <= key(b[q]) {
      assert b[p] == a[p] || b[p] == a[j] || b[p] == a[j + 1];
    }
  }

  /** Moving past an in-order pair keeps the running maximum and, when the
      prefix was sorted, extends the sorted prefix. */
  lemma InOrderStep<T>(a: seq<T>, j: nat, key: T -> int)
    requires j + 1 < |a| && MaxAt(a, j, key) && key(a[j]) <= key(a[j + 1])
    ensures MaxAt(a, j + 1, key)
    ensures SortedUpTo(a, j, key) ==> SortedUpTo(a, j + 1, key)
  {
  }

  /** At the end of a pass the maximum of the prefix sits just below the final
      suffix, so one more position is final; a sorted prefix makes it all sorted. */
  lemma PassEnd<T>(a: seq<T>, m: nat, key: T -> int)
    requires 1 <= m <= |a| && SuffixFinal(a, m, key) && MaxAt(a, m - 1, key)
    ensures SuffixFinal(a, m - 1, key)
    ensures SortedUpTo(a, m - 1, key) ==> SortedBy(a, key)
  {
  }

  /** The model of `internal_sort`. Besides the sorted sequence it reports how
      many outer passes ran and how many swaps were made in all. */
  method InternalSort<T>(input: seq<T>, key: T -> int) returns (a: seq<T>, passes: nat, swaps: nat)
    ensures SortedBy(a, key)
    ensures |a| == |input| && multiset(a) == multiset(input)
    ensures SameGroups(input, a, key)
    ensures swaps == 0 <==> SortedBy(input, key)
    ensures SortedBy(input, key) ==> a == input && passes == (if |input| == 0 then 0 else 1)
    ensures passes <= |input|
    ensures a == SortSpec(input, key)
  {
    a := input;
    passes, swaps := 0, 0;
    var n := |a|;
    var i := 0;
    while i < n
      invariant 0 <= i <= n && |a| == n && passes == i
      invariant multiset(a) == multiset(input) && SameGroups(input, a, key)
      invariant SuffixFinal(a, n - i, key)
      invariant swaps == 0 ==> a == input
      invariant SortedBy(input, key) ==> i == 0
      invariant i == 0 ==> a == input && swaps == 0
    {
      // the inner bound `len - i - 1` cannot underflow, because i < len
      var pass: nat;
      ghost var before := a;
      a, pass := BubblePass(a, n - i, key);
      SameGroupsTransitive(input, before, a, key);
      swaps := swaps + pass;
      passes := passes + 1;
      i := i + 1;
      if pass == 0 {
        break;
      }
    }
    SortSpecStable(input, key);
    SortSpecSorts(input, key);
    forall k ensures Filter(a, key, k) == Filter(SortSpec(input, key), key, k) {
      assert Filter(input, key, k) == Filter(a, key, k);
    }
    SortedGroupsUnique(a, SortSpec(input, key), key);
  }

  lemma SameGroupsTransitive<T>(s: seq<T>, t: seq<T>, u: seq<T>, key: T -> int)
    requires SameGroups(s, t, key) && SameGroups(t, u, key)
    ensures SameGroups(s, u, key)
  {
    forall k ensures Filter(s, key, k) == Filter(u, key, k) {
      assert Filter(s, key, k) == Filter(t, key, k);
    }
  }

  /** Inserts `x` in front of the first element whose key is not smaller. */
  function Insert<T>(x: T, t: seq<T>, key: T -> int): (r: seq<T>)
    ensures |r| == |t| + 1 && multiset(r) == multiset(t) + multiset{x}
  {
    if |t| == 0 || key(x) <= key(t[0]) then [x] + t
    else
      assert t == [t[0]] + t[1..];
      [t[0]] + Insert(x, t[1..], key)
  }

  /** Every element of `Insert(x, t)` is `x` or an element of `t`. */
  lemma InsertElements<T>(x: T, t: seq<T>, key: T -> int, i: nat)
    requires i < |t| + 1
    ensures Insert(x, t, key)[i] == x || Insert(x, t, key)[i] in t
  {
    var r := Insert(x, t, key);
    assert r[i] in multiset(r);
  }

  /** Inserting into a sorted sequence keeps it sorted. */
  lemma {:induction false} InsertSorted<T>(x: T, t: seq<T>, key: T -> int)
    requires SortedBy(t, key)
    ensures SortedBy(Insert(x, t, key), key)
    decreases |t|
  {
    if |t| > 0 && key(x) > key(t[0]) {
      var rest := Insert(x, t[1..], key);
      InsertSorted(x, t[1..], key);
      var r := [t[0]] + rest;
      forall p, q | 0 <= p < q < |r| ensures key(r[p]) <= key(r[q]) {
        if p == 0 {
          InsertElements(x, t[1..], key, q - 1);
          assert r[q] == rest[q - 1];
        } else {
          assert r[p] == rest[p - 1] && r[q] == rest[q - 1];
        }
      }
    }
  }

  /** The reference sort: a stable insertion sort, independent of the
      bubble-sort algorithm. */
  function SortSpec<T>(s: seq<T>, key: T -> int): (r: seq<T>)
    ensures |r| == |s| && multiset(r) == multiset(s)
  {
    if |s| == 0 then []
    else
      assert s == [s[0]] + s[1..];
      Insert(s[0], SortSpec(s[1..], key), key)
  }

  /** The reference sort sorts. */
  lemma {:induction false} SortSpecSorts<T>(s: seq<T>, key: T -> int)
    ensures SortedBy(SortSpec(s, key), key)
    decreases |s|
  {
    if |s| > 0 {
      SortSpecSorts(s[1..], key);
      InsertSorted(s[0], SortSpec(s[1..], key), key);
    }
  }

  lemma {:induction false} InsertGroups<T>(x: T, t: seq<T>, key: T -> int, k: int)
    ensures Filter(Insert(x, t, key), key, k) == Filter([x] + t, key, k)
    decreases |t|
  {
    if |t| > 0 && key(x) > key(t[0]) {
      var rest := Insert(x, t[1..], key);
      InsertGroups(x, t[1..], key, k);
      assert ([t[0]] + rest)[1..] == rest;
      assert ([x] + t)[1..] == t;
      assert ([x] + t[1..])[1..] == t[1..];
    }
  }

  /** The reference sort is stable. */
  lemma {:induction false} SortSpecStable<T>(s: seq<T>, key: T -> int)
    ensures SameGroups(s, SortSpec(s, key), key)
    decreases |s|
  {
    if |s| > 0 {
      SortSpecStable(s[1..], key);
      forall k ensures Filter(s, key, k) == Filter(SortSpec(s, key), key, k) {
        var sorted := SortSpec(s[1..], key);
        InsertGroups(s[0], sorted, key, k);
        assert ([s[0]] + sorted)[1..] == sorted;
      }
    }
  }

  /** Sorting a sorted sequence changes nothing. */
  lemma {:induction false} SortSpecSorted<T>(s: seq<T>, key: T -> int)
    requires SortedBy(s, key)
    ensures SortSpec(s, key) == s
    decreases |s|
  {
    if |s| > 0 {
      SortSpecSorted(s[1..], key);
      assert [s[0]] + s[1..] == s;
    }
  }

  lemma FilterMember<T>(s: seq<T>, key: T -> int, k: int)
    requires |Filter(s, key, k)| > 0
    ensures exists i :: 0 <= i < |s| && key(s[i]) == k
    decreases |s|
  {
    if key(s[0]) != k {
      FilterMember(s[1..], key, k);
      var i :| 0 <= i < |s[1..]| && key(s[1..][i]) == k;
      assert key(s[i + 1]) == k;
    }
  }

  /** Sequences with the same groups are both empty or both non-empty. */
  lemma SameGroupsNonEmpty<T>(s: seq<T>, t: seq<T>, key: T -> int)
    requires SameGroups(s, t, key)
    ensures |s| > 0 <==> |t| > 0
  {
    if |s| > 0 {
      assert Filter(s, key, key(s[0])) == Filter(t, key, key(s[0]));
    }
    if |t| > 0 {
      assert Filter(s, key, key(t[0])) == Filter(t, key, key(t[0]));
    }
  }

  /** Two sorted sequences with the same groups start with the same element:
      the first element of the smallest group. */
  lemma SortedGroupsHead<T>(s: seq<T>, t: seq<T>, key: T -> int)
    requires SortedBy(s, key) && SortedBy(t, key) && SameGroups(s, t, key)
    requires |s| > 0 && |t| > 0
    ensures s[0] == t[0]
  {
    var ks, kt := key(s[0]), key(t[0]);
    assert Filter(s, key, ks)[0] == s[0];
    assert Filter(t, key, kt)[0] == t[0];
    assert Filter(s, key, ks) == Filter(t, key, ks);
    assert Filter(s, key, kt) == Filter(t, key, kt);
    FilterMember(t, key, ks);
    FilterMember(s, key, kt);
  }

  /** Removing an equal first element keeps the groups equal. */
  lemma SameGroupsTail<T>(s: seq<T>, t: seq<T>, key: T -> int)
    requires SameGroups(s, t, key) && |s| > 0 && |t| > 0 && s[0] == t[0]
    ensures SameGroups(s[1..], t[1..], key)
  {
    forall k ensures Filter(s[1..], key, k) == Filter(t[1..], key, k) {
      var head := if key(s[0]) == k then [s[0]] else [];
      assert Filter(s, key, k) == head + Filter(s[1..], key, k);
      assert Filter(t, key, k) == head + Filter(t[1..], key, k);
      assert Filter(s, key, k) == Filter(t, key, k);
      assert (head + Filter(s[1..], key, k))[|head|..] == Filter(s[1..], key, k);
      assert (head + Filter(t[1..], key, k))[|head|..] == Filter(t[1..], key, k);
    }
  }

  /** A sorted, stable rearrangement is unique: two sorted sequences with the
      same groups of equal-keyed elements are equal. */
  lemma {:induction false} SortedGroupsUnique<T>(s: seq<T>, t: seq<T>, key: T -> int)
    requires SortedBy(s, key) && SortedBy(t, key) && SameGroups(s, t, key)
    ensures s == t
    decreases |s|
  {
    SameGroupsNonEmpty(s, t, key);
    if |s| > 0 {
      SortedGroupsHead(s, t, key);
      SameGroupsTail(s, t, key);
      SortedGroupsUnique(s[1..], t[1..], key);
      assert s == [s[0]] + s[1..];
      assert t == [t[0]] + t[1..];
    }
  }

}
