/** `order by s desc limit k` followed by `sum`: the sum of the k largest values. */
module TopK {
  import opened Sums

  function Id(x: int): int { x }

  /** The sum of the values of `s`. */
  function SumOf(s: seq<int>): int
  {
    SumBy(s, Id)
  }

  predicate Descending(s: seq<int>)
  {
    forall i, j :: 0 <= i < j < |s| ==> s[i] >= s[j]
  }

  predicate NonNegative(s: seq<int>)
  {
    forall i :: 0 <= i < |s| ==> s[i] >= 0
  }

  function Min(a: nat, b: nat): nat
  {
    if a <= b then a else b
  }

  /** The head of a descending sequence is its largest value. */
  lemma DescendingHeadIsMax(s: seq<int>, y: int)
    requires Descending(s) && y in multiset(s)
    ensures s != [] && y <= s[0]
  {
    assert y in s;
    var j :| 0 <= j < |s| && s[j] == y;
    assert j == 0 || s[0] >= s[j];
  }

  lemma DescendingTail(s: seq<int>)
    requires Descending(s) && s != []
    ensures Descending(s[1..])
  {
    forall i, j | 0 <= i < j < |s| - 1 ensures s[1..][i] >= s[1..][j] {
      assert s[1..][i] == s[i + 1] && s[1..][j] == s[j + 1];
    }
  }

  /** A value at least every element may be put in front. */
  lemma DescendingCons(x: int, s: seq<int>)
    requires Descending(s) && forall k :: 0 <= k < |s| ==> s[k] <= x
    ensures Descending([x] + s)
  {
    var r := [x] + s;
    forall i, j | 0 <= i < j < |r| ensures r[i] >= r[j] {
      assert r[j] == s[j - 1];
      if i > 0 { assert r[i] == s[i - 1]; }
    }
  }

  /** Inserts `x` into a descending sequence, before the first smaller value. */
  function InsertDescending(x: int, s: seq<int>): (r: seq<int>)
    requires Descending(s)
    ensures Descending(r) && multiset(r) == multiset(s) + multiset{x}
  {
    if s == [] || x >= s[0] then
      assert forall j :: 0 <= j < |s| ==> s[j] <= x by {
        forall j | 0 <= j < |s| ensures s[j] <= x {
          assert j == 0 || s[0] >= s[j];
        }
      }
      DescendingCons(x, s);
      [x] + s
    else
      DescendingTail(s);
      var r := InsertDescending(x, s[1..]);
      assert s == [s[0]] + s[1..];
      assert forall k :: 0 <= k < |r| ==> r[k] <= s[0] by {
        forall k | 0 <= k < |r| ensures r[k] <= s[0] {
          assert r[k] in multiset(r);
          if r[k] != x {
            assert r[k] in multiset(s);
            DescendingHeadIsMax(s, r[k]);
          }
        }
      }
      DescendingCons(s[0], r);
      [s[0]] + r
  }

  /** The values of `s` in descending order. */
  function SortDescending(s: seq<int>): (r: seq<int>)
    ensures Descending(r) && multiset(r) == multiset(s)
  {
    if s == [] then []
    else
      assert s == [s[0]] + s[1..];
      InsertDescending(s[0], SortDescending(s[1..]))
  }

  /** The sum of the `k` largest values of `s` (all of them when there are fewer). */
  function TopSum(s: seq<int>, k: nat): (r: int)
    ensures |s| <= k ==> r == SumOf(s)
  {
    var d := SortDescending(s);
    assert |d| == |multiset(d)| == |s|;
    assert d[..|d|] == d;
    SumOfPermutation(d, s);
    SumOf(d[..Min(k, |d|)])
  }

  lemma SumOfCons(x: int, s: seq<int>)
    ensures SumOf([x] + s) == x + SumOf(s)
  {
    assert ([x] + s)[1..] == s;
  }

  /** One of the values, on its own, is a choice of one value with that sum. */
  lemma SingleChoice(s: seq<int>, j: nat)
    requires j < |s|
    ensures multiset([s[j]]) <= multiset(s) && SumOf([s[j]]) == s[j]
  {
    assert s[j] in multiset(s);
    SumOfCons(s[j], []);
    assert [s[j]] + [] == [s[j]];
  }

  lemma SumOfPermutation(a: seq<int>, b: seq<int>)
    requires multiset(a) == multiset(b)
    ensures SumOf(a) == SumOf(b)
  {
    SumByPermutation(a, b, Id);
  }

  lemma SumOfNonNegative(s: seq<int>)
    requires NonNegative(s)
    ensures SumOf(s) >= 0
  {
    SumByNonNegative(s, Id);
  }

  lemma NonNegativeOfSubMultiset(t: seq<int>, s: seq<int>)
    requires NonNegative(s) && multiset(t) <= multiset(s)
    ensures NonNegative(t)
  {
    forall i | 0 <= i < |t| ensures t[i] >= 0 {
      assert t[i] in multiset(t);
      assert t[i] in s;
    }
  }

  /** Two descending arrangements of the same values are the same sequence: equal
      values are indistinguishable, so there is no tie order to choose. */
  lemma {:induction false} DescendingPermutationUnique(a: seq<int>, b: seq<int>)
    requires Descending(a) && Descending(b) && multiset(a) == multiset(b)
    ensures a == b
    decreases |a|
  {
    assert |a| == |multiset(a)| == |b|;
    if a != [] {
      assert a[0] in multiset(a) && b[0] in multiset(b);
      DescendingHeadIsMax(a, b[0]);
      DescendingHeadIsMax(b, a[0]);
      SameTails(a, b);
      DescendingTail(a);
      DescendingTail(b);
      DescendingPermutationUnique(a[1..], b[1..]);
      assert a == [a[0]] + a[1..] && b == [b[0]] + b[1..];
    }
  }

  /** Taking the same head off two permutations of each other leaves permutations. */
  lemma SameTails(a: seq<int>, b: seq<int>)
    requires a != [] && b != [] && a[0] == b[0] && multiset(a) == multiset(b)
    ensures multiset(a[1..]) == multiset(b[1..])
  {
    assert a == [a[0]] + a[1..] && b == [b[0]] + b[1..];
    assert multiset(a[1..]) == multiset(a) - multiset{a[0]};
    assert multiset(b[1..]) == multiset(b) - multiset{b[0]};
  }

  /** The top-k sum depends only on the values, not on their order. */
  lemma TopSumPermutationInvariant(a: seq<int>, b: seq<int>, k: nat)
    requires multiset(a) == multiset(b)
    ensures TopSum(a, k) == TopSum(b, k)
  {
    DescendingPermutationUnique(SortDescending(a), SortDescending(b));
  }

  /** Any descending order of the values, whichever way ties are arranged, gives the
      top-k sum as the sum of its first k elements. */
  lemma TopSumOfAnyDescendingOrder(s: seq<int>, d: seq<int>, k: nat)
    requires Descending(d) && multiset(d) == multiset(s)
    ensures TopSum(s, k) == SumOf(d[..Min(k, |d|)])
  {
    DescendingPermutationUnique(SortDescending(s), d);
  }

  /** Taking one element out of a sequence takes its value out of the sum. */
  lemma SumOfRemove(t: seq<int>, i: nat) returns (others: seq<int>)
    requires i < |t|
    ensures |others| == |t| - 1 && multiset(others) == multiset(t) - multiset{t[i]}
    ensures SumOf(t) == t[i] + SumOf(others)
  {
    var x := t[i];
    others := t[..i] + t[i + 1..];
    assert t == t[..i] + [x] + t[i + 1..];
    SumByConcat(t[..i] + [x], t[i + 1..], Id);
    SumByConcat(t[..i], [x], Id);
    SumByConcat(t[..i], t[i + 1..], Id);
    assert SumBy([x], Id) == x;
  }

  lemma SubMultisetMinus(a: multiset<int>, b: multiset<int>, x: int)
    requires a <= b
    ensures a - multiset{x} <= b - multiset{x}
  {
  }

  /** The first k elements are the head and the first k - 1 of the tail. */
  lemma PrefixSumCons(d: seq<int>, k: nat)
    requires d != [] && k > 0
    ensures SumOf(d[..Min(k, |d|)]) == d[0] + SumOf(d[1..][..Min(k - 1, |d| - 1)])
  {
    assert d[..Min(k, |d|)] == [d[0]] + d[1..][..Min(k - 1, |d| - 1)];
    SumOfCons(d[0], d[1..][..Min(k - 1, |d| - 1)]);
  }

  /** The exchange step: a choice from `d` sums to at most the head of `d` plus a
      choice of one element fewer from the tail of `d`. */
  lemma ExchangeHead(d: seq<int>, t: seq<int>) returns (others: seq<int>)
    requires Descending(d) && NonNegative(d) && d != []
    requires multiset(t) <= multiset(d)
    ensures multiset(others) <= multiset(d[1..])
    ensures |others| == if t == [] then 0 else |t| - 1
    ensures SumOf(t) <= d[0] + SumOf(others)
  {
    var x := d[0];
    assert d == [x] + d[1..];
    assert multiset(d[1..]) == multiset(d) - multiset{x};
    if t == [] {
      others := [];
    } else if x in t {
      var i :| 0 <= i < |t| && t[i] == x;
      others := SumOfRemove(t, i);
      SubMultisetMinus(multiset(t), multiset(d), x);
    } else {
      DescendingHeadIsMax(d, t[0]);
      others := SumOfRemove(t, 0);
      assert multiset(t)[x] == 0;
      assert multiset(others) <= multiset(t);
    }
  }

  lemma DescendingRest(d: seq<int>)
    requires Descending(d) && NonNegative(d) && d != []
    ensures Descending(d[1..]) && NonNegative(d[1..])
  {
    DescendingTail(d);
    forall i | 0 <= i < |d| - 1 ensures d[1..][i] >= 0 {
      assert d[1..][i] == d[i + 1];
    }
  }

  /** No choice of at most k of the values of a non-negative descending sequence sums
      to more than its first k elements. */
  lemma {:induction false} PrefixSumMaximal(d: seq<int>, t: seq<int>, k: nat)
    requires Descending(d) && NonNegative(d)
    requires multiset(t) <= multiset(d) && |t| <= k
    ensures SumOf(t) <= SumOf(d[..Min(k, |d|)])
    decreases |d|
  {
    if d == [] || k == 0 {
      assert |t| == |multiset(t)| == 0;
      assert t == [];
      NonNegativeOfSubMultiset(d[..Min(k, |d|)], d);
      SumOfNonNegative(d[..Min(k, |d|)]);
    } else {
      PrefixSumCons(d, k);
      DescendingRest(d);
      var others := ExchangeHead(d, t);
      PrefixSumMaximal(d[1..], others, k - 1);
    }
  }

  /** Maximality: every choice of at most k of the values sums to at most the top-k sum. */
  lemma TopSumMaximal(s: seq<int>, t: seq<int>, k: nat)
    requires NonNegative(s) && multiset(t) <= multiset(s) && |t| <= k
    ensures SumOf(t) <= TopSum(s, k)
  {
    var d := SortDescending(s);
    NonNegativeOfSubMultiset(d, s);
    PrefixSumMaximal(d, t, k);
  }

  /** The top-k sum is the sum of some choice of min(k, |s|) of the values. */
  lemma TopSumAchieved(s: seq<int>, k: nat) returns (t: seq<int>)
    ensures multiset(t) <= multiset(s) && |t| == Min(k, |s|)
    ensures SumOf(t) == TopSum(s, k)
  {
    var d := SortDescending(s);
    assert |d| == |multiset(d)| == |s|;
    t := d[..Min(k, |d|)];
    assert d == t + d[Min(k, |d|)..];
    assert multiset(d) == multiset(t) + multiset(d[Min(k, |d|)..]);
  }

  /** With non-negative values the top-k sum is at most the sum of all values, and it
      is that sum when there are at most k values. */
  lemma TopSumAtMostTotal(s: seq<int>, k: nat)
    requires NonNegative(s)
    ensures TopSum(s, k) <= SumOf(s)
    ensures |s| <= k ==> TopSum(s, k) == SumOf(s)
  {
    var d := SortDescending(s);
    assert |d| == |multiset(d)| == |s|;
    var m := Min(k, |d|);
    assert d == d[..m] + d[m..];
    SumByConcat(d[..m], d[m..], Id);
    NonNegativeOfSubMultiset(d, s);
    assert NonNegative(d[m..]);
    SumOfNonNegative(d[m..]);
    SumOfPermutation(d, s);
  }
}
