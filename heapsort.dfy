/** The in-place "heap-select" sort: inside an active prefix that shrinks by
    one per round, a child larger than its parent is swapped with it and the
    scan restarts from the front; a pass without a swap leaves the maximum of
    the prefix in slot 0, which is then swapped to the end of the prefix.
    The elements are modelled as integers: the sort only compares them with
    `>` and swaps them. */
module HeapSort {

  /** The parent slot of slot i. The source computes `(i - 1) / 2`, which C
      truncates to 0 for i == 0, so slot 0 is its own parent. */
  function Parent(i: nat): (r: nat)
    ensures i == 0 ==> r == 0
    ensures i > 0 ==> 2 * r + 1 <= i <= 2 * r + 2
  {
    if i == 0 then 0 else (i - 1) / 2
  }

  /** s[m..n) is in non-decreasing order. */
  predicate SortedSlice(s: seq<int>, m: nat, n: nat)
    requires m <= n <= |s|
  {
    forall j, k :: m <= j <= k < n ==> s[j] <= s[k]
  }

  /** s is in non-decreasing order. */
  predicate Sorted(s: seq<int>) {
    SortedSlice(s, 0, |s|)
  }

  /** No slot of s[0..m) holds a value larger than its parent's. */
  predicate ParentDominates(s: seq<int>, m: nat)
    requires m <= |s|
  {
    forall k :: 0 <= k < m ==> s[k] <= s[Parent(k)]
  }

  /* ---------------------------------------------------------------------- */
  /* Slot 0 holds the maximum once no child beats its parent                */
  /* ---------------------------------------------------------------------- */

  /** When no slot of s[0..m) exceeds its parent, every slot k of the prefix
      is at most slot 0 (by following parents from k up to slot 0). */
  lemma {:induction false} RootDominates(s: seq<int>, m: nat, k: nat)
    requires m <= |s| && ParentDominates(s, m)
    requires k < m
    ensures s[k] <= s[0]
    decreases k
  {
    if k > 0 {
      RootDominates(s, m, Parent(k));
    }
  }

  /** When no slot of s[0..m) exceeds its parent, slot 0 holds the maximum
      of s[0..m). */
  lemma RootIsMax(s: seq<int>, m: nat)
    requires m <= |s| && ParentDominates(s, m)
    ensures forall k :: 0 <= k < m ==> s[k] <= s[0]
  {
    forall k | 0 <= k < m {
      RootDominates(s, m, k);
    }
  }

  /* ---------------------------------------------------------------------- */
  /* Termination of the restarting scan                                     */
  /* ---------------------------------------------------------------------- */

  /** The absolute value of v. */
  function Abs(v: int): nat {
    if v < 0 then -v else v
  }

  /** The sum of k * s[k] over the slots of s. */
  function WeightedSum(s: seq<int>): int {
    if s == [] then 0 else WeightedSum(s[..|s| - 1]) + (|s| - 1) * s[|s| - 1]
  }

  /** The sum of |s[k]| over the slots of s. */
  function AbsSum(s: seq<int>): nat {
    if s == [] then 0 else AbsSum(s[..|s| - 1]) + Abs(s[|s| - 1])
  }

  /** Changing slot k to v changes the weighted sum by k times the change. */
  lemma {:induction false} WeightedSumUpdate(s: seq<int>, k: nat, v: int)
    requires k < |s|
    ensures WeightedSum(s[k := v]) == WeightedSum(s) + k * (v - s[k])
  {
    var n := |s|;
    if k == n - 1 {
      assert s[k := v][..n - 1] == s[..n - 1];
    } else {
      assert s[k := v][..n - 1] == s[..n - 1][k := v];
      WeightedSumUpdate(s[..n - 1], k, v);
    }
  }

  /** Changing slot k to v changes the sum of absolute values by the change of |s[k]|. */
  lemma {:induction false} AbsSumUpdate(s: seq<int>, k: nat, v: int)
    requires k < |s|
    ensures AbsSum(s[k := v]) == AbsSum(s) + Abs(v) - Abs(s[k])
  {
    var n := |s|;
    if k == n - 1 {
      assert s[k := v][..n - 1] == s[..n - 1];
    } else {
      assert s[k := v][..n - 1] == s[..n - 1][k := v];
      AbsSumUpdate(s[..n - 1], k, v);
    }
  }

  /** The weighted sum never falls below -|s| times the sum of absolute values. */
  lemma {:induction false} PotentialBound(s: seq<int>)
    ensures WeightedSum(s) + |s| * AbsSum(s) >= 0
  {
    if s != [] {
      var n, t, x := |s|, s[..|s| - 1], s[|s| - 1];
      PotentialBound(t);
      assert WeightedSum(s) == WeightedSum(t) + (n - 1) * x;
      assert AbsSum(s) == AbsSum(t) + Abs(x);
      BoundArith(WeightedSum(t), AbsSum(t), n, x);
    }
  }

  /** The arithmetic step of PotentialBound, kept apart from the sums. */
  lemma BoundArith(w: int, a: int, n: int, x: int)
    requires n >= 1 && a >= 0 && w + (n - 1) * a >= 0
    ensures w + (n - 1) * x + n * (a + Abs(x)) >= 0
  {
    assert n * (a + Abs(x)) == (n - 1) * a + a + (n - 1) * Abs(x) + Abs(x);
    assert (n - 1) * x + (n - 1) * Abs(x) == (n - 1) * (x + Abs(x));
    assert (n - 1) * (x + Abs(x)) >= 0;
  }

  /** A measure of how far the larger values still are from the front: it can
      only fall a bounded number of times. */
  function Potential(s: seq<int>): nat {
    PotentialBound(s);
    WeightedSum(s) + |s| * AbsSum(s)
  }

  /** Moving the larger value b to the earlier slot q lowers the weighted sum. */
  lemma SwapArith(q: int, r: int, a: int, b: int)
    requires q < r && a < b
    ensures q * (b - a) + r * (a - b) < 0
  {
    assert q * (b - a) + r * (a - b) == -((r - q) * (b - a));
  }

  /** Swapping a value with a strictly larger value at a later slot lowers the
      potential; this is why the scan that restarts after each swap ends. */
  lemma SwapLowersPotential(s: seq<int>, q: nat, r: nat)
    requires q < r < |s| && s[q] < s[r]
    ensures Potential(s[q := s[r]][r := s[q]]) < Potential(s)
  {
    var s1 := s[q := s[r]];
    var t := s1[r := s[q]];
    WeightedSumUpdate(s, q, s[r]);
    WeightedSumUpdate(s1, r, s[q]);
    AbsSumUpdate(s, q, s[r]);
    AbsSumUpdate(s1, r, s[q]);
    assert AbsSum(t) == AbsSum(s);
    SwapArith(q, r, s[q], s[r]);
    assert WeightedSum(t) < WeightedSum(s);
  }

  /* ---------------------------------------------------------------------- */
  /* myheapsort                                                             */
  /* ---------------------------------------------------------------------- */

  /** s with the values of slots i and j exchanged. */
  function Swapped(s: seq<int>, i: nat, j: nat): (t: seq<int>)
    requires i < |s| && j < |s|
    ensures |t| == |s| && t[i] == s[j] && t[j] == s[i]
    ensures forall k :: 0 <= k < |s| && k != i && k != j ==> t[k] == s[k]
  {
    s[i := s[j]][j := s[i]]
  }

  /** Exchanges two slots of tab; the C code does it through a temporary. */
  method Swap(tab: array<int>, i: nat, j: nat)
    requires i < tab.Length && j < tab.Length
    modifies tab
    ensures tab[..] == Swapped(old(tab[..]), i, j)
    ensures multiset(tab[..]) == multiset(old(tab[..]))
  {
    var tmp := tab[i];
    tab[i] := tab[j];
    tab[j] := tmp;
  }

  /** Every value of s[0..m) is at most every value of s[m..n). */
  predicate PrefixBelow(s: seq<int>, m: nat, n: nat)
    requires m <= n <= |s|
  {
    forall j, k :: 0 <= j < m <= k < n ==> s[j] <= s[k]
  }

  /** The state between two rounds of the outer loop: s[m..n) already holds
      the n - m largest values of s[0..n), in order. */
  predicate Sorting(s: seq<int>, m: nat, n: nat) {
    m <= n <= |s| && PrefixBelow(s, m, n) && SortedSlice(s, m, n)
  }

  /** The inner loop of one round: within the active prefix tab[0..m), swap a
      slot with its parent whenever it is strictly larger and restart from
      slot 0, until a full pass makes no swap. The prefix is then permuted,
      the rest of the array is untouched, and slot 0 holds the maximum of the
      prefix. */
  method IsolateMax(tab: array<int>, m: nat, n: nat)
    requires 1 <= m <= n <= tab.Length
    requires PrefixBelow(tab[..], m, n)
    modifies tab
    ensures multiset(tab[..]) == multiset(old(tab[..]))
    ensures tab[m..] == old(tab[m..])
    ensures PrefixBelow(tab[..], m, n)
    ensures ParentDominates(tab[..], m)
    ensures forall k :: 0 <= k < m ==> tab[k] <= tab[0]
  {
    var i := 0;
    while i < m
      invariant 0 <= i <= m
      invariant ParentDominates(tab[..], i)
      invariant multiset(tab[..]) == multiset(old(tab[..]))
      invariant tab[m..] == old(tab[m..])
      invariant PrefixBelow(tab[..], m, n)
      decreases Potential(tab[..m]), m - i
    {
      if tab[i] > tab[Parent(i)] {
        SwapStep(tab[..], Parent(i), i, m, n);
        Swap(tab, Parent(i), i);
        i := 0;
      } else {
        i := i + 1;
      }
    }
    RootIsMax(tab[..], m);
  }

  /** One swap of the inner loop, on the values: a slot q of the prefix and a
      strictly smaller value at an earlier slot p exchange places. The
      potential of the prefix falls, the prefix stays below the rest and the
      rest is untouched. */
  lemma SwapStep(s: seq<int>, p: nat, q: nat, m: nat, n: nat)
    requires p < q < m <= n <= |s| && s[p] < s[q]
    requires PrefixBelow(s, m, n)
    ensures Potential(Swapped(s, p, q)[..m]) < Potential(s[..m])
    ensures PrefixBelow(Swapped(s, p, q), m, n)
    ensures Swapped(s, p, q)[m..] == s[m..]
  {
    var t := Swapped(s, p, q);
    assert t[..m] == s[..m][p := s[q]][q := s[p]];
    SwapLowersPotential(s[..m], p, q);
  }

  /** The end of one round, on the values: the inner loop has left s[m..)
      as it was in before and put the maximum of the prefix in slot 0;
      exchanging slots 0 and m - 1 then extends the sorted suffix by one
      slot, and slots from n on are still those of before. */
  lemma RoundStep(before: seq<int>, s: seq<int>, m: nat, n: nat)
    requires 1 <= m <= n <= |before| == |s|
    requires Sorting(before, m, n) && s[m..] == before[m..]
    requires PrefixBelow(s, m, n)
    requires forall k :: 0 <= k < m ==> s[k] <= s[0]
    ensures Sorting(Swapped(s, 0, m - 1), m - 1, n)
    ensures Swapped(s, 0, m - 1)[n..] == before[n..]
  {
    assert forall k :: m <= k < |s| ==> s[k] == s[m..][k - m] == before[k];
    var t := Swapped(s, 0, m - 1);
    assert forall k :: n <= k < |s| ==> t[k] == before[k];
  }

  /** Two sequences that agree from slot n on and hold the same multiset of
      values hold the same multiset of values before slot n. */
  lemma MultisetOfPrefix(s: seq<int>, t: seq<int>, n: nat)
    requires n <= |s| == |t| && s[n..] == t[n..]
    requires multiset(s) == multiset(t)
    ensures multiset(s[..n]) == multiset(t[..n])
  {
    assert s == s[..n] + s[n..] && t == t[..n] + t[n..];
    assert multiset(s[..n]) == multiset(s) - multiset(s[n..]);
    assert multiset(t[..n]) == multiset(t) - multiset(t[n..]);
  }

  /** Once the unsorted prefix holds at most one slot, s[0..n) is sorted. */
  lemma SortedWhenPrefixShort(s: seq<int>, m: nat, n: nat)
    requires m <= 1 && Sorting(s, m, n)
    ensures Sorted(s[..n])
  {
  }

  /** One round of the outer loop on the active prefix tab[0..m): the inner
      loop brings the maximum of the prefix to slot 0, and it is swapped to
      slot m - 1, which extends the sorted suffix tab[m - 1..n) by one slot. */
  method Round(tab: array<int>, m: nat, n: nat)
    requires 1 <= m && Sorting(tab[..], m, n)
    modifies tab
    ensures Sorting(tab[..], m - 1, n)
    ensures multiset(tab[..]) == multiset(old(tab[..]))
    ensures tab[n..] == old(tab[n..])
  {
    ghost var before := tab[..];
    IsolateMax(tab, m, n);
    RoundStep(before, tab[..], m, n);
    Swap(tab, 0, m - 1);
  }

  /** Sorts tab[0..n) in non-decreasing order in place. Slots from n on are
      not touched, and for n <= 1 nothing is. */
  method MyHeapSort(tab: array<int>, n: nat)
    requires n <= tab.Length
    modifies tab
    ensures Sorted(tab[..n])
    ensures multiset(tab[..n]) == multiset(old(tab[..n]))
    ensures tab[n..] == old(tab[n..])
    ensures n <= 1 ==> tab[..] == old(tab[..])
  {
    var boucle := 0;
    while boucle < n - 1
      invariant 0 <= boucle <= (if n >= 1 then n - 1 else 0)
      invariant n <= 1 ==> tab[..] == old(tab[..])
      invariant multiset(tab[..]) == multiset(old(tab[..]))
      invariant tab[n..] == old(tab[n..])
      invariant Sorting(tab[..], n - boucle, n)
    {
      Round(tab, n - boucle, n);
      boucle := boucle + 1;
    }
    SortedWhenPrefixShort(tab[..], n - boucle, n);
    MultisetOfPrefix(tab[..], old(tab[..]), n);
  }

  /* ---------------------------------------------------------------------- */
  /* Consequences of the contract                                           */
  /* ---------------------------------------------------------------------- */

  /** The first value of a non-empty sorted sequence is its least value. */
  lemma SortedHeadIsLeast(s: seq<int>)
    requires Sorted(s) && s != []
    ensures forall v :: v in multiset(s) ==> s[0] <= v
  {
    forall v | v in multiset(s)
      ensures s[0] <= v
    {
      var k :| 0 <= k < |s| && s[k] == v;
    }
  }

  /** Dropping the first element of a sorted sequence keeps it sorted. */
  lemma SortedTail(s: seq<int>)
    requires Sorted(s) && s != []
    ensures Sorted(s[1..])
  {
    forall j, k | 0 <= j <= k < |s| - 1
      ensures s[1..][j] <= s[1..][k]
    {
      assert s[1..][j] == s[j + 1] && s[1..][k] == s[k + 1];
    }
  }

  /** Two sorted sequences with the same multiset of values are equal: sorted
      order plus the preserved multiset determine the result completely. */
  lemma {:induction false} SortedPermutationUnique(a: seq<int>, b: seq<int>)
    requires Sorted(a) && Sorted(b)
    requires multiset(a) == multiset(b)
    ensures a == b
    decreases |a|
  {
    assert |a| == |multiset(a)| == |multiset(b)| == |b|;
    if a != [] {
      var head := a[0];
      assert head == b[0] by {
        SortedHeadIsLeast(a);
        SortedHeadIsLeast(b);
        assert a[0] in multiset(a) && b[0] in multiset(b);
      }
      assert multiset(a[1..]) == multiset(b[1..]) by {
        assert a == [head] + a[1..] && b == [head] + b[1..];
        assert multiset(a[1..]) == multiset(a) - multiset{head};
        assert multiset(b[1..]) == multiset(b) - multiset{head};
      }
      SortedTail(a);
      SortedTail(b);
      SortedPermutationUnique(a[1..], b[1..]);
      assert a == [head] + a[1..] && b == [head] + b[1..];
    }
  }

  /** An already sorted prefix comes back unchanged, and sorting twice is
      sorting once. */
  method SortSortedIsIdentity(tab: array<int>, n: nat)
    requires n <= tab.Length
    requires Sorted(tab[..n])
    modifies tab
    ensures tab[..] == old(tab[..])
  {
    MyHeapSort(tab, n);
    SortedPermutationUnique(tab[..n], old(tab[..n]));
    assert tab[..] == tab[..n] + tab[n..] && old(tab[..]) == old(tab[..n]) + old(tab[n..]);
  }
  /* ---------------------------------------------------------------------- */
  /* The test inputs                                                        */
  /* ---------------------------------------------------------------------- */

  /** The two-element test: 8, -16 comes back as -16, 8. */
  method SortTwo() returns (r: seq<int>)
    ensures r == [-16, 8]
  {
    var tab := new int[2];
    tab[0], tab[1] := 8, -16;
    ghost var input := tab[..2];
    assert input == [8, -16];
    MyHeapSort(tab, 2);
    r := tab[..2];
    TwoOutput(r, input);
  }

  /** The only sorted rearrangement of 8, -16. */
  lemma TwoOutput(r: seq<int>, input: seq<int>)
    requires input == [8, -16]
    requires Sorted(r) && multiset(r) == multiset(input)
    ensures r == [-16, 8]
  {
    assert multiset([-16, 8]) == multiset(input);
    SortedPermutationUnique(r, [-16, 8]);
  }

  /** The test with duplicated values: the test's values 2.0, 5.5, 5.5,
      -3.0, 2.0, doubled so that they are integers, are 4, 11, 11, -6, 4 and
      come back as -6, 4, 4, 11, 11. */
  method SortDuplicates() returns (r: seq<int>)
    ensures r == [-6, 4, 4, 11, 11]
  {
    var tab := new int[5];
    tab[0], tab[1], tab[2], tab[3], tab[4] := 4, 11, 11, -6, 4;
    ghost var input := tab[..5];
    assert input == [4, 11, 11, -6, 4];
    MyHeapSort(tab, 5);
    r := tab[..5];
    DuplicatesOutput(r, input);
  }

  /** The only sorted rearrangement of 4, 11, 11, -6, 4. */
  lemma DuplicatesOutput(r: seq<int>, input: seq<int>)
    requires input == [4, 11, 11, -6, 4]
    requires Sorted(r) && multiset(r) == multiset(input)
    ensures r == [-6, 4, 4, 11, 11]
  {
    DuplicatesExpectedSorted();
    DuplicatesExpectedPermutes();
    SortedPermutationUnique(r, [-6, 4, 4, 11, 11]);
  }

  /** The expected output of the duplicates test is sorted. */
  lemma DuplicatesExpectedSorted()
    ensures Sorted([-6, 4, 4, 11, 11])
  {
  }

  /** The expected output of the duplicates test holds the input's values. */
  lemma DuplicatesExpectedPermutes()
    ensures multiset([-6, 4, 4, 11, 11]) == multiset([4, 11, 11, -6, 4])
  {
  }
}
