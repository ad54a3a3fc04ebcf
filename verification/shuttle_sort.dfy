/** The stable merge sort of the ledger's table sorter (`shuttlesort`),
    over row ids and an arbitrary three-way comparator: first as a pure
    function with its correctness proofs, then as the array method that
    shuttles values between two arrays. */
module ShuttleSort {
  import opened Wrappers

  /** A three-way comparator: negative, zero or positive. */
  type Cmp = (int, int) -> int

  /** `a` is ordered before or with `b`. */
  predicate Le(cmp: Cmp, a: int, b: int)
  {
    cmp(a, b) <= 0
  }

  /** `cmp` orders the values of `dom` as a total preorder. */
  predicate TotalPreorder(cmp: Cmp, dom: set<int>)
  {
    && (forall a, b {:trigger Le(cmp, a, b)} :: a in dom && b in dom ==> Le(cmp, a, b) || Le(cmp, b, a))
    && (forall a, b, c {:trigger Le(cmp, a, b), Le(cmp, b, c)} ::
          a in dom && b in dom && c in dom && Le(cmp, a, b) && Le(cmp, b, c) ==> Le(cmp, a, c))
  }

  lemma Total(cmp: Cmp, dom: set<int>, a: int, b: int)
    requires TotalPreorder(cmp, dom) && a in dom && b in dom
    ensures cmp(a, b) <= 0 || cmp(b, a) <= 0
  {
    assert Le(cmp, a, b) || Le(cmp, b, a);
  }

  lemma Trans(cmp: Cmp, dom: set<int>, a: int, b: int, c: int)
    requires TotalPreorder(cmp, dom) && a in dom && b in dom && c in dom
    requires cmp(a, b) <= 0 && cmp(b, c) <= 0
    ensures cmp(a, c) <= 0
  {
    assert Le(cmp, a, b) && Le(cmp, b, c);
  }

  predicate Within(s: seq<int>, dom: set<int>)
  {
    forall i :: 0 <= i < |s| ==> s[i] in dom
  }

  /** Every element is ordered before or with its successor. */
  predicate Sorted(s: seq<int>, cmp: Cmp)
  {
    forall i :: 0 <= i < |s| - 1 ==> cmp(s[i], s[i + 1]) <= 0
  }

  /** `a` and `b` compare equal both ways. */
  predicate Tied(cmp: Cmp, a: int, b: int)
  {
    cmp(a, b) <= 0 && cmp(b, a) <= 0
  }

  /** The elements of `s` tied with `x`, in their order in `s`. */
  function Ties(s: seq<int>, x: int, cmp: Cmp): seq<int>
  {
    if |s| == 0 then [] else (if Tied(cmp, x, s[0]) then [s[0]] else []) + Ties(s[1..], x, cmp)
  }

  lemma {:induction false} TiesAppend(a: seq<int>, b: seq<int>, x: int, cmp: Cmp)
    ensures Ties(a + b, x, cmp) == Ties(a, x, cmp) + Ties(b, x, cmp)
    decreases |a|
  {
    if |a| == 0 {
      assert a + b == b;
    } else {
      assert (a + b)[0] == a[0] && (a + b)[1..] == a[1..] + b;
      TiesAppend(a[1..], b, x, cmp);
    }
  }

  /** The merge of the normal path: takes from the left run while its head
      is ordered before or with the right run's head. */
  function Merge(l: seq<int>, r: seq<int>, cmp: Cmp): (m: seq<int>)
    ensures |m| == |l| + |r|
    decreases |l| + |r|
  {
    if |l| == 0 then r
    else if |r| == 0 then l
    else if cmp(l[0], r[0]) <= 0 then [l[0]] + Merge(l[1..], r, cmp)
    else [r[0]] + Merge(l, r[1..], cmp)
  }

  /** The merge neither loses nor invents an element. */
  lemma {:induction false} MergePermutes(l: seq<int>, r: seq<int>, cmp: Cmp)
    ensures multiset(Merge(l, r, cmp)) == multiset(l) + multiset(r)
    decreases |l| + |r|
  {
    if |l| > 0 && |r| > 0 {
      if cmp(l[0], r[0]) <= 0 {
        MergePermutes(l[1..], r, cmp);
        MergeTakesLeft(l, r, cmp);
        HeadMultiset(l);
        HeadMultiset(Merge(l, r, cmp));
      } else {
        MergePermutes(l, r[1..], cmp);
        MergeTakesRight(l, r, cmp);
        HeadMultiset(r);
        HeadMultiset(Merge(l, r, cmp));
      }
    }
  }

  lemma HeadMultiset(s: seq<int>)
    requires |s| > 0
    ensures multiset(s) == multiset{s[0]} + multiset(s[1..])
  {
    assert s == [s[0]] + s[1..];
  }

  /** One step of the merge loop, as the array method takes it. */
  lemma MergeTakesLeft(l: seq<int>, r: seq<int>, cmp: Cmp)
    requires |l| > 0 && (|r| == 0 || cmp(l[0], r[0]) <= 0)
    ensures Merge(l, r, cmp) == [l[0]] + Merge(l[1..], r, cmp)
  {
    if |r| == 0 {
      assert Merge(l[1..], r, cmp) == l[1..];
    }
  }

  lemma MergeTakesRight(l: seq<int>, r: seq<int>, cmp: Cmp)
    requires |r| > 0 && (|l| == 0 || cmp(l[0], r[0]) > 0)
    ensures Merge(l, r, cmp) == [r[0]] + Merge(l, r[1..], cmp)
  {
  }

  /** The merge from positions `p` and `q` of the two runs, as the array
      method walks it. */
  function MergeFrom(left: seq<int>, right: seq<int>, p: nat, q: nat, cmp: Cmp): (m: seq<int>)
    requires p <= |left| && q <= |right|
    ensures |m| == |left| - p + |right| - q
    decreases |left| - p + |right| - q
  {
    if p == |left| then right[q..]
    else if q == |right| then left[p..]
    else if cmp(left[p], right[q]) <= 0 then [left[p]] + MergeFrom(left, right, p + 1, q, cmp)
    else [right[q]] + MergeFrom(left, right, p, q + 1, cmp)
  }

  lemma MergeFromStep(left: seq<int>, right: seq<int>, a: nat, b: nat, cmp: Cmp)
    requires a <= |left| && b <= |right| && (a < |left| || b < |right|)
    ensures b == |right| || (a < |left| && cmp(left[a], right[b]) <= 0) ==>
      MergeFrom(left, right, a, b, cmp) == [left[a]] + MergeFrom(left, right, a + 1, b, cmp)
    ensures !(b == |right| || (a < |left| && cmp(left[a], right[b]) <= 0)) ==>
      MergeFrom(left, right, a, b, cmp) == [right[b]] + MergeFrom(left, right, a, b + 1, cmp)
  {
    if a < |left| && b == |right| {
      assert left[a..] == [left[a]] + left[a + 1..];
    }
    if a == |left| {
      assert right[b..] == [right[b]] + right[b + 1..];
    }
  }

  lemma {:induction false} MergeFromIsMerge(left: seq<int>, right: seq<int>, p: nat, q: nat, cmp: Cmp)
    requires p <= |left| && q <= |right|
    ensures MergeFrom(left, right, p, q, cmp) == Merge(left[p..], right[q..], cmp)
    decreases |left| - p + |right| - q
  {
    if p < |left| && q < |right| {
      if cmp(left[p], right[q]) <= 0 {
        MergeFromIsMerge(left, right, p + 1, q, cmp);
        assert left[p..][1..] == left[p + 1..];
      } else {
        MergeFromIsMerge(left, right, p, q + 1, cmp);
        assert right[q..][1..] == right[q + 1..];
      }
    }
  }

  lemma ConcatAssoc(a: seq<int>, b: seq<int>, c: seq<int>)
    ensures (a + b) + c == a + (b + c)
  {
  }

  /** The merge loop's step at positions `p` and `q` of the two runs. */
  lemma MergeAdvance(left: seq<int>, right: seq<int>, p: nat, q: nat, cmp: Cmp)
    requires p <= |left| && q <= |right| && (p < |left| || q < |right|)
    ensures q >= |right| || (p < |left| && cmp(left[p], right[q]) <= 0) ==>
      Merge(left[p..], right[q..], cmp) == [left[p]] + Merge(left[p + 1..], right[q..], cmp)
    ensures !(q >= |right| || (p < |left| && cmp(left[p], right[q]) <= 0)) ==>
      Merge(left[p..], right[q..], cmp) == [right[q]] + Merge(left[p..], right[q + 1..], cmp)
  {
    if q >= |right| || (p < |left| && cmp(left[p], right[q]) <= 0) {
      MergeTakesLeft(left[p..], right[q..], cmp);
      assert left[p..][1..] == left[p + 1..];
    } else {
      MergeTakesRight(left[p..], right[q..], cmp);
      assert right[q..][1..] == right[q + 1..];
    }
  }

  /** `shuttlesort` on a range holding `s`: ranges shorter than two stay as
      they are; otherwise both halves are sorted, then concatenated when
      already in order (only for four or more elements), else merged. */
  function MergeSort(s: seq<int>, cmp: Cmp): (r: seq<int>)
    ensures |r| == |s|
    decreases |s|
  {
    if |s| < 2 then s
    else
      var m := |s| / 2;
      var l := MergeSort(s[..m], cmp);
      var r := MergeSort(s[m..], cmp);
      if |s| >= 4 && cmp(l[m - 1], r[0]) <= 0 then l + r else Merge(l, r, cmp)
  }

  lemma SliceOfAgreeing(a: seq<int>, b: seq<int>, lo: nat, hi: nat)
    requires lo <= hi <= |a| == |b|
    requires forall k :: lo <= k < hi ==> a[k] == b[k]
    ensures a[lo..hi] == b[lo..hi]
  {
  }

  lemma SliceSplit(a: seq<int>, low: nat, middle: nat, high: nat)
    requires low <= middle <= high <= |a|
    ensures a[low..high] == a[low..middle] + a[middle..high]
  {
  }

  /** How `shuttlesort` combines its two sorted halves. */
  function Combined(l: seq<int>, r: seq<int>, cmp: Cmp): seq<int>
    requires |l| > 0 && |r| > 0
  {
    if |l| + |r| >= 4 && cmp(l[|l| - 1], r[0]) <= 0 then l + r else Merge(l, r, cmp)
  }

  lemma MergeSortCombines(s: seq<int>, l: seq<int>, r: seq<int>, cmp: Cmp)
    requires |s| >= 2 && l == MergeSort(s[..|s| / 2], cmp) && r == MergeSort(s[|s| / 2..], cmp)
    ensures |l| > 0 && |r| > 0 && MergeSort(s, cmp) == Combined(l, r, cmp)
  {
    MergeSortSplits(s, cmp);
  }

  /** One level of `MergeSort`, with the halves named. */
  lemma MergeSortSplits(s: seq<int>, cmp: Cmp)
    requires |s| >= 2
    ensures var m := |s| / 2;
            var l := MergeSort(s[..m], cmp);
            var r := MergeSort(s[m..], cmp);
            && (|s| >= 4 && cmp(l[m - 1], r[0]) <= 0 ==> MergeSort(s, cmp) == l + r)
            && (!(|s| >= 4 && cmp(l[m - 1], r[0]) <= 0) ==> MergeSort(s, cmp) == Merge(l, r, cmp))
  {
  }

  /** `shuttlesort` permutes the range: the sorted range holds exactly the
      values it held before. */
  lemma {:induction false} MergeSortPermutes(s: seq<int>, cmp: Cmp)
    ensures multiset(MergeSort(s, cmp)) == multiset(s)
    decreases |s|
  {
    if |s| >= 2 {
      var m := |s| / 2;
      var l := MergeSort(s[..m], cmp);
      var r := MergeSort(s[m..], cmp);
      MergeSortPermutes(s[..m], cmp);
      MergeSortPermutes(s[m..], cmp);
      MergeSortCombines(s, l, r, cmp);
      MergePermutes(l, r, cmp);
      assert s == s[..m] + s[m..];
    }
  }

  /** Two comparators that give the same answer on every pair of different
      values of `dom`. */
  predicate AgreeOn(c1: Cmp, c2: Cmp, dom: set<int>)
  {
    forall a, b :: a in dom && b in dom && a != b ==> c1(a, b) == c2(a, b)
  }

  /** The merge only ever compares a left element with a right one. */
  lemma {:induction false} MergeAgree(l: seq<int>, r: seq<int>, c1: Cmp, c2: Cmp)
    requires forall i, j :: 0 <= i < |l| && 0 <= j < |r| ==> c1(l[i], r[j]) == c2(l[i], r[j])
    ensures Merge(l, r, c1) == Merge(l, r, c2)
    decreases |l| + |r|
  {
    if |l| > 0 && |r| > 0 {
      assert c1(l[0], r[0]) == c2(l[0], r[0]);
      if c1(l[0], r[0]) <= 0 {
        MergeAgree(l[1..], r, c1, c2);
      } else {
        MergeAgree(l, r[1..], c1, c2);
      }
    }
  }

  /** In a sequence without repeats, a value of the front part differs
      from every value of the back part. */
  lemma Apart(s: seq<int>, m: nat, x: int, y: int, dom: set<int>)
    requires Distinct(s) && Within(s, dom) && m <= |s|
    requires x in multiset(s[..m]) && y in multiset(s[m..])
    ensures x != y && x in dom && y in dom
  {
    var a :| 0 <= a < m && s[..m][a] == x;
    var b :| 0 <= b < |s| - m && s[m..][b] == y;
    assert s[a] == x && s[m + b] == y;
  }

  /** On a sequence without repeats the sort compares only different values,
      so two comparators that agree there sort it alike. */
  lemma {:induction false} MergeSortAgree(s: seq<int>, c1: Cmp, c2: Cmp, dom: set<int>)
    requires Within(s, dom) && Distinct(s) && AgreeOn(c1, c2, dom)
    ensures MergeSort(s, c1) == MergeSort(s, c2)
    decreases |s|
  {
    if |s| >= 2 {
      var m := |s| / 2;
      MergeSortAgree(s[..m], c1, c2, dom);
      MergeSortAgree(s[m..], c1, c2, dom);
      var l := MergeSort(s[..m], c1);
      var r := MergeSort(s[m..], c1);
      MergeSortPermutes(s[..m], c1);
      MergeSortPermutes(s[m..], c1);
      forall i, j | 0 <= i < |l| && 0 <= j < |r| ensures c1(l[i], r[j]) == c2(l[i], r[j]) {
        assert l[i] in multiset(l) && r[j] in multiset(r);
        Apart(s, m, l[i], r[j], dom);
      }
      MergeAgree(l, r, c1, c2);
      MergeSortSplits(s, c1);
      MergeSortSplits(s, c2);
    }
  }

  /** A reordering of a sequence without repeats has none either. */
  lemma DistinctPermutation(s: seq<int>, t: seq<int>)
    requires multiset(s) == multiset(t) && Distinct(t)
    ensures Distinct(s)
  {
    forall i, j | 0 <= i < j < |s| ensures s[i] != s[j] {
      if s[i] == s[j] {
        assert multiset(s)[s[i]] >= 2 by {
          assert s == s[..j] + [s[j]] + s[j + 1..];
          assert s[i] in multiset(s[..j]);
        }
        DistinctCount(t, s[i]);
      }
    }
  }

  /** A value occurs at most once in a sequence without repeats. */
  lemma {:induction false} DistinctCount(t: seq<int>, x: int)
    requires Distinct(t)
    ensures multiset(t)[x] <= 1
    decreases |t|
  {
    if |t| > 0 {
      DistinctCount(t[1..], x);
      assert t == [t[0]] + t[1..];
      if t[0] == x {
        assert x !in t[1..];
      }
    }
  }

  lemma MergeSortWithin(s: seq<int>, cmp: Cmp, dom: set<int>)
    requires Within(s, dom)
    ensures Within(MergeSort(s, cmp), dom)
  {
    MergeSortPermutes(s, cmp);
    WithinMultiset(MergeSort(s, cmp), s, dom);
  }

  lemma WithinMultiset(s: seq<int>, t: seq<int>, dom: set<int>)
    requires multiset(s) == multiset(t) && Within(t, dom)
    ensures Within(s, dom)
  {
    forall i | 0 <= i < |s| ensures s[i] in dom {
      assert s[i] in multiset(s);
      var j :| 0 <= j < |t| && t[j] == s[i];
    }
  }

  /** In a sorted run every element is ordered before or with every later one. */
  lemma {:induction false} SortedAllPairs(s: seq<int>, cmp: Cmp, dom: set<int>, i: nat, j: nat)
    requires TotalPreorder(cmp, dom) && Within(s, dom) && Sorted(s, cmp)
    requires i <= j < |s|
    ensures cmp(s[i], s[j]) <= 0
    decreases j - i
  {
    if i == j {
      Total(cmp, dom, s[i], s[i]);
    } else {
      SortedAllPairs(s, cmp, dom, i + 1, j);
      Trans(cmp, dom, s[i], s[i + 1], s[j]);
    }
  }

  lemma {:induction false} MergeSorted(l: seq<int>, r: seq<int>, cmp: Cmp, dom: set<int>)
    requires TotalPreorder(cmp, dom) && Within(l, dom) && Within(r, dom)
    requires Sorted(l, cmp) && Sorted(r, cmp)
    ensures Sorted(Merge(l, r, cmp), cmp)
    ensures |Merge(l, r, cmp)| > 0 ==>
      Merge(l, r, cmp)[0] == (if |l| == 0 then r[0] else if |r| == 0 then l[0]
                              else if cmp(l[0], r[0]) <= 0 then l[0] else r[0])
    decreases |l| + |r|
  {
    if |l| > 0 && |r| > 0 {
      if cmp(l[0], r[0]) <= 0 {
        MergeSorted(l[1..], r, cmp, dom);
      } else {
        Total(cmp, dom, l[0], r[0]);
        MergeSorted(l, r[1..], cmp, dom);
      }
    }
  }

  lemma {:induction false} MergeSortSorted(s: seq<int>, cmp: Cmp, dom: set<int>)
    requires TotalPreorder(cmp, dom) && Within(s, dom)
    ensures Sorted(MergeSort(s, cmp), cmp)
    decreases |s|
  {
    if |s| >= 2 {
      var m := |s| / 2;
      var l := MergeSort(s[..m], cmp);
      var r := MergeSort(s[m..], cmp);
      MergeSortSorted(s[..m], cmp, dom);
      MergeSortSorted(s[m..], cmp, dom);
      MergeSortWithin(s[..m], cmp, dom);
      MergeSortWithin(s[m..], cmp, dom);
      MergeSortCombines(s, l, r, cmp);
      CombinedSorted(l, r, cmp, dom);
    }
  }

  lemma CombinedSorted(l: seq<int>, r: seq<int>, cmp: Cmp, dom: set<int>)
    requires TotalPreorder(cmp, dom) && Within(l, dom) && Within(r, dom)
    requires Sorted(l, cmp) && Sorted(r, cmp) && |l| > 0 && |r| > 0
    ensures Sorted(Combined(l, r, cmp), cmp)
  {
    if |l| + |r| >= 4 && cmp(l[|l| - 1], r[0]) <= 0 {
      forall i | 0 <= i < |l + r| - 1 ensures cmp((l + r)[i], (l + r)[i + 1]) <= 0 {
        if i < |l| - 1 {
          assert (l + r)[i] == l[i] && (l + r)[i + 1] == l[i + 1];
        } else if i >= |l| {
          assert (l + r)[i] == r[i - |l|] && (l + r)[i + 1] == r[i - |l| + 1];
        }
      }
    } else {
      MergeSorted(l, r, cmp, dom);
    }
  }

  /** When the right run's head goes first, nothing in the left run is tied
      with it. */
  lemma NoLeftTies(l: seq<int>, r: seq<int>, x: int, cmp: Cmp, dom: set<int>)
    requires TotalPreorder(cmp, dom) && Within(l, dom) && Sorted(l, cmp)
    requires |l| > 0 && |r| > 0 && r[0] in dom && x in dom
    requires cmp(l[0], r[0]) > 0 && Tied(cmp, x, r[0])
    ensures Ties(l, x, cmp) == []
  {
    if Ties(l, x, cmp) != [] {
      var k := TiedWitness(l, x, cmp);
      SortedAllPairs(l, cmp, dom, 0, k);
      Trans(cmp, dom, l[k], x, r[0]);
      Trans(cmp, dom, l[0], l[k], r[0]);
    }
  }

  /** A position of `s` holding an element tied with `x`, when there is one. */
  lemma {:induction false} TiedWitness(s: seq<int>, x: int, cmp: Cmp) returns (k: nat)
    requires Ties(s, x, cmp) != []
    ensures k < |s| && Tied(cmp, x, s[k])
    decreases |s|
  {
    if Tied(cmp, x, s[0]) {
      k := 0;
    } else {
      var k' := TiedWitness(s[1..], x, cmp);
      k := k' + 1;
    }
  }

  /** The merge keeps each class of tied elements in left-then-right order. */
  lemma {:induction false} MergeStable(l: seq<int>, r: seq<int>, x: int, cmp: Cmp, dom: set<int>)
    requires TotalPreorder(cmp, dom) && Within(l, dom) && Within(r, dom) && x in dom
    requires Sorted(l, cmp) && Sorted(r, cmp)
    ensures Ties(Merge(l, r, cmp), x, cmp) == Ties(l, x, cmp) + Ties(r, x, cmp)
    decreases |l| + |r|
  {
    if |l| == 0 {
      assert Ties(l, x, cmp) == [];
    } else if |r| == 0 {
      assert Ties(r, x, cmp) == [];
    } else if cmp(l[0], r[0]) <= 0 {
      Tail(l, cmp, dom);
      MergeStable(l[1..], r, x, cmp, dom);
      MergeStableLeft(l, r, x, cmp);
    } else {
      Tail(r, cmp, dom);
      MergeStable(l, r[1..], x, cmp, dom);
      if Tied(cmp, x, r[0]) {
        NoLeftTies(l, r, x, cmp, dom);
      }
      MergeStableRight(l, r, x, cmp);
    }
  }

  /** The step of `MergeStable` that takes the left head. */
  lemma MergeStableLeft(l: seq<int>, r: seq<int>, x: int, cmp: Cmp)
    requires |l| > 0 && |r| > 0 && cmp(l[0], r[0]) <= 0
    requires Ties(Merge(l[1..], r, cmp), x, cmp) == Ties(l[1..], x, cmp) + Ties(r, x, cmp)
    ensures Ties(Merge(l, r, cmp), x, cmp) == Ties(l, x, cmp) + Ties(r, x, cmp)
  {
    MergeTakesLeft(l, r, cmp);
    TiesCons(l[0], Merge(l[1..], r, cmp), x, cmp);
    var head := if Tied(cmp, x, l[0]) then [l[0]] else [];
    ConcatAssoc(head, Ties(l[1..], x, cmp), Ties(r, x, cmp));
  }

  /** The step of `MergeStable` that takes the right head, which is tied
      with no element of the left run when it is tied with `x`. */
  lemma MergeStableRight(l: seq<int>, r: seq<int>, x: int, cmp: Cmp)
    requires |l| > 0 && |r| > 0 && cmp(l[0], r[0]) > 0
    requires Ties(Merge(l, r[1..], cmp), x, cmp) == Ties(l, x, cmp) + Ties(r[1..], x, cmp)
    requires Tied(cmp, x, r[0]) ==> Ties(l, x, cmp) == []
    ensures Ties(Merge(l, r, cmp), x, cmp) == Ties(l, x, cmp) + Ties(r, x, cmp)
  {
    var rest := Merge(l, r[1..], cmp);
    var head := if Tied(cmp, x, r[0]) then [r[0]] else [];
    assert Ties(Merge(l, r, cmp), x, cmp) == head + Ties(rest, x, cmp) by {
      MergeTakesRight(l, r, cmp);
      TiesCons(r[0], rest, x, cmp);
    }
    assert Ties(r, x, cmp) == head + Ties(r[1..], x, cmp) by {
      TiesCons(r[0], r[1..], x, cmp);
      assert [r[0]] + r[1..] == r;
    }
    Interleave(head, Ties(l, x, cmp), Ties(r[1..], x, cmp));
  }

  /** When one of `a` and `b` is empty, either may go first. */
  lemma Interleave(a: seq<int>, b: seq<int>, c: seq<int>)
    requires a == [] || b == []
    ensures a + (b + c) == b + (a + c)
  {
    if a == [] {
      assert a + (b + c) == b + c && a + c == c;
    } else {
      assert b + c == c && b + (a + c) == a + c;
    }
  }

  lemma Tail(s: seq<int>, cmp: Cmp, dom: set<int>)
    requires |s| > 0 && Within(s, dom) && Sorted(s, cmp)
    ensures Within(s[1..], dom) && Sorted(s[1..], cmp)
  {
  }

  lemma TiesCons(y: int, rest: seq<int>, x: int, cmp: Cmp)
    ensures Ties([y] + rest, x, cmp) == (if Tied(cmp, x, y) then [y] else []) + Ties(rest, x, cmp)
  {
    assert ([y] + rest)[1..] == rest;
  }

  /** `shuttlesort` is stable: the elements tied with any `x` come out in
      the order they went in. */
  lemma {:induction false} MergeSortStable(s: seq<int>, x: int, cmp: Cmp, dom: set<int>)
    requires TotalPreorder(cmp, dom) && Within(s, dom) && x in dom
    ensures Ties(MergeSort(s, cmp), x, cmp) == Ties(s, x, cmp)
    decreases |s|
  {
    if |s| >= 2 {
      var m := |s| / 2;
      var front, back := s[..m], s[m..];
      assert Within(front, dom) && Within(back, dom);
      MergeSortStable(front, x, cmp, dom);
      MergeSortStable(back, x, cmp, dom);
      StableStep(s, x, cmp, dom);
    }
  }

  /** The inductive step of `MergeSortStable`. */
  lemma StableStep(s: seq<int>, x: int, cmp: Cmp, dom: set<int>)
    requires TotalPreorder(cmp, dom) && Within(s, dom) && x in dom && |s| >= 2
    requires Ties(MergeSort(s[..|s| / 2], cmp), x, cmp) == Ties(s[..|s| / 2], x, cmp)
    requires Ties(MergeSort(s[|s| / 2..], cmp), x, cmp) == Ties(s[|s| / 2..], x, cmp)
    ensures Ties(MergeSort(s, cmp), x, cmp) == Ties(s, x, cmp)
  {
    TiesSplit(s, |s| / 2, x, cmp);
    SplitTies(s, x, cmp, dom);
  }

  lemma TiesSplit(s: seq<int>, m: nat, x: int, cmp: Cmp)
    requires m <= |s|
    ensures Ties(s, x, cmp) == Ties(s[..m], x, cmp) + Ties(s[m..], x, cmp)
  {
    assert s == s[..m] + s[m..];
    TiesAppend(s[..m], s[m..], x, cmp);
  }

  /** One level of `MergeSort` keeps the tied elements of its two sorted
      halves in left-then-right order. */
  lemma SplitTies(s: seq<int>, x: int, cmp: Cmp, dom: set<int>)
    requires TotalPreorder(cmp, dom) && Within(s, dom) && x in dom && |s| >= 2
    ensures Ties(MergeSort(s, cmp), x, cmp)
         == Ties(MergeSort(s[..|s| / 2], cmp), x, cmp) + Ties(MergeSort(s[|s| / 2..], cmp), x, cmp)
  {
    var m := |s| / 2;
    var l := MergeSort(s[..m], cmp);
    var r := MergeSort(s[m..], cmp);
    assert Within(s[..m], dom) && Within(s[m..], dom);
    MergeSortSorted(s[..m], cmp, dom);
    MergeSortSorted(s[m..], cmp, dom);
    MergeSortWithin(s[..m], cmp, dom);
    MergeSortWithin(s[m..], cmp, dom);
    MergeSortCombines(s, l, r, cmp);
    CombinedStable(l, r, x, cmp, dom);
  }

  lemma CombinedStable(l: seq<int>, r: seq<int>, x: int, cmp: Cmp, dom: set<int>)
    requires TotalPreorder(cmp, dom) && Within(l, dom) && Within(r, dom) && x in dom
    requires Sorted(l, cmp) && Sorted(r, cmp) && |l| > 0 && |r| > 0
    ensures Ties(Combined(l, r, cmp), x, cmp) == Ties(l, x, cmp) + Ties(r, x, cmp)
  {
    if |l| + |r| >= 4 && cmp(l[|l| - 1], r[0]) <= 0 {
      TiesAppend(l, r, x, cmp);
    } else {
      MergeStable(l, r, x, cmp, dom);
    }
  }

  /** `shuttlesort(from, to, low, high)`: with `from` and `to` agreeing on
      the range, leaves the range of `to` holding the sorted values; `from`
      serves as scratch space there, and nothing outside the range changes. */
  method Shuttlesort(from: array<int>, to: array<int>, low: nat, high: nat, cmp: Cmp)
    requires from != to && from.Length == to.Length
    requires low <= high <= from.Length
    requires from[low..high] == to[low..high]
    modifies from, to
    ensures to[low..high] == MergeSort(old(to[low..high]), cmp)
    ensures forall k :: 0 <= k < from.Length && !(low <= k < high) ==> from[k] == old(from[k])
    ensures forall k :: 0 <= k < to.Length && !(low <= k < high) ==> to[k] == old(to[k])
    decreases high - low
  {
    if high - low < 2 {
      return;
    }
    ghost var s := to[low..high];
    var middle := (low + high) / 2;
    ghost var m := middle - low;
    assert m == |s| / 2;
    ghost var F0, T0 := from[..], to[..];
    assert s[..m] == T0[low..middle] && s[m..] == T0[middle..high];
    assert F0[middle..high] == T0[middle..high];

    Shuttlesort(to, from, low, middle, cmp);
    ghost var F1, T1 := from[..], to[..];
    ghost var l := F1[low..middle];
    assert l == MergeSort(s[..m], cmp);
    assert forall k :: 0 <= k < |T1| && !(low <= k < middle) ==> T1[k] == T0[k] && F1[k] == F0[k];
    SliceOfAgreeing(T1, T0, middle, high);
    SliceOfAgreeing(F1, F0, middle, high);

    Shuttlesort(to, from, middle, high, cmp);
    ghost var F2 := from[..];
    ghost var r := F2[middle..high];
    assert r == MergeSort(s[m..], cmp);
    assert forall k :: 0 <= k < |F2| && !(middle <= k < high) ==> F2[k] == F1[k];
    SliceOfAgreeing(F2, F1, low, middle);
    assert from[low..middle] == l && from[middle..high] == r;
    MergeSortCombines(s, l, r, cmp);
    Combine(from, to, low, middle, high, cmp);
  }

  /** The last stage of `shuttlesort`: the sorted halves in `from` are
      copied into `to` when already in order, else merged into it. */
  method Combine(from: array<int>, to: array<int>, low: nat, middle: nat, high: nat, cmp: Cmp)
    requires from != to && from.Length == to.Length && low < middle < high <= from.Length
    modifies to
    ensures to[low..high] == Combined(from[low..middle], from[middle..high], cmp)
    ensures forall k :: 0 <= k < to.Length && !(low <= k < high) ==> to[k] == old(to[k])
  {
    ghost var l := from[low..middle];
    ghost var r := from[middle..high];
    SliceSplit(from[..], low, middle, high);
    if high - low >= 4 && cmp(from[middle - 1], from[middle]) <= 0 {
      assert from[middle - 1] == l[|l| - 1] && from[middle] == r[0];
      CopyRange(from, to, low, high);
    } else {
      assert from[middle - 1] == l[|l| - 1] && from[middle] == r[0];
      MergeFromIsMerge(l, r, 0, 0, cmp);
      assert l[0..] == l && r[0..] == r;
      MergeRuns(from, to, low, middle, high, cmp);
    }
    assert from[low..middle] == l && from[middle..high] == r;
  }

  /** The shortcut of `shuttlesort`: the range of `from` copied into `to`. */
  method CopyRange(from: array<int>, to: array<int>, low: nat, high: nat)
    requires from != to && from.Length == to.Length && low <= high <= from.Length
    modifies to
    ensures to[low..high] == from[low..high]
    ensures forall k :: 0 <= k < to.Length && !(low <= k < high) ==> to[k] == old(to[k])
  {
    var i := low;
    while i < high
      invariant low <= i <= high
      invariant to[low..i] == from[low..i]
      invariant forall k :: 0 <= k < to.Length && !(low <= k < high) ==> to[k] == old(to[k])
    {
      to[i] := from[i];
      assert to[low..i + 1] == to[low..i] + [to[i]];
      assert from[low..i + 1] == from[low..i] + [from[i]];
      i := i + 1;
    }
  }

  /** The merge loop of `shuttlesort`: the runs `from[low..middle]` and
      `from[middle..high]` merged into the range of `to`. */
  method MergeRuns(from: array<int>, to: array<int>, low: nat, middle: nat, high: nat, cmp: Cmp)
    requires from != to && from.Length == to.Length && low <= middle <= high <= from.Length
    modifies to
    ensures to[low..high] == MergeFrom(from[low..middle], from[middle..high], 0, 0, cmp)
    ensures forall k :: 0 <= k < to.Length && !(low <= k < high) ==> to[k] == old(to[k])
  {
    ghost var left := from[low..middle];
    ghost var right := from[middle..high];
    ghost var target := MergeFrom(left, right, 0, 0, cmp);
    var p := low;
    var q := middle;
    var i := low;
    while i < high
      invariant low <= p <= middle <= q <= high && i == p + q - middle
      invariant forall k :: low <= k < i ==> to[k] == target[k - low]
      invariant MergeFrom(left, right, p - low, q - middle, cmp) == target[i - low..]
      invariant forall k :: 0 <= k < to.Length && !(low <= k < high) ==> to[k] == old(to[k])
    {
      ghost var merged := MergeFrom(left, right, p - low, q - middle, cmp);
      p, q := MergeStep(from, to, left, right, low, middle, high, p, q, i, cmp);
      assert merged[1..] == MergeFrom(left, right, p - low, q - middle, cmp);
      assert target[i - low..][1..] == target[i + 1 - low..];
      i := i + 1;
    }
    assert to[low..high] == target;
    assert from[low..middle] == left && from[middle..high] == right;
  }

  /** One pass of the merge loop: writes the next merged value at `i` and
      advances the run it came from. */
  method MergeStep(from: array<int>, to: array<int>, ghost left: seq<int>, ghost right: seq<int>,
                   low: nat, middle: nat, high: nat, p: nat, q: nat, i: nat, cmp: Cmp)
    returns (p': nat, q': nat)
    requires from != to && from.Length == to.Length && low <= middle <= high <= from.Length
    requires left == from[low..middle] && right == from[middle..high]
    requires low <= p <= middle <= q <= high && i == p + q - middle && i < high
    modifies to
    ensures low <= p' <= middle <= q' <= high && i + 1 == p' + q' - middle
    ensures [to[i]] + MergeFrom(left, right, p' - low, q' - middle, cmp)
            == MergeFrom(left, right, p - low, q - middle, cmp)
    ensures forall k :: 0 <= k < to.Length && k != i ==> to[k] == old(to[k])
  {
    ghost var a, b := p - low, q - middle;
    if p < middle {
      assert from[p] == left[a];
    }
    if q < high {
      assert from[q] == right[b];
    }
    var takeLeft := q >= high || (p < middle && cmp(from[p], from[q]) <= 0);
    assert takeLeft == (b == |right| || (a < |left| && cmp(left[a], right[b]) <= 0));
    MergeFromStep(left, right, a, b, cmp);
    if takeLeft {
      to[i] := from[p];
      p', q' := p + 1, q;
    } else {
      to[i] := from[q];
      p', q' := p, q + 1;
    }
  }

  /** `sort`: a copy of the index array is the scratch space. */
  method Sort(indexes: array<int>, cmp: Cmp)
    modifies indexes
    ensures indexes[..] == MergeSort(old(indexes[..]), cmp)
  {
    var scratch := new int[indexes.Length](i requires 0 <= i < indexes.Length reads indexes => indexes[i]);
    assert scratch[..] == indexes[..];
    assert indexes[0..indexes.Length] == indexes[..];
    Shuttlesort(scratch, indexes, 0, indexes.Length, cmp);
    assert indexes[0..indexes.Length] == indexes[..];
  }
}
