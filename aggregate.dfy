/** The query of `main`:
      select sum(s) from (select sum(calories) as s from input
                          group by elf_id order by s desc limit 3)
    as a function of the table's rows. */
module Aggregate {
  import opened Wrappers
  import opened Store
  import opened Sums
  import opened TopK

  /** The `limit 3` of the query. */
  const LIMIT: nat := 3

  predicate IsDigit(c: char)
  {
    '0' <= c <= '9'
  }

  /** A non-empty string of decimal digits: text that the `integer` column stores as
      the integer it spells. */
  predicate IsNumeral(s: string)
  {
    |s| > 0 && forall i :: 0 <= i < |s| ==> IsDigit(s[i])
  }

  function DigitValue(c: char): nat
  {
    if IsDigit(c) then c as int - '0' as int else 0
  }

  /** The integer a decimal numeral spells. */
  function NumeralValue(s: string): (v: int)
    ensures v >= 0
  {
    if s == [] then 0 else 10 * NumeralValue(s[..|s| - 1]) + DigitValue(s[|s| - 1])
  }

  /** The decimal numeral of `n`, as the column text of an integer result. */
  function Decimal(n: nat): (s: string)
    ensures IsNumeral(s)
    decreases n
  {
    if n < 10 then [('0' as int + n) as char]
    else Decimal(n / 10) + [('0' as int + n % 10) as char]
  }

  /** Reading a numeral back gives the number it was written from. */
  lemma {:induction false} NumeralOfDecimal(n: nat)
    ensures NumeralValue(Decimal(n)) == n
    decreases n
  {
    if n >= 10 {
      NumeralOfDecimal(n / 10);
      var s := Decimal(n);
      assert s[..|s| - 1] == Decimal(n / 10);
    }
  }

  /** Every calories text in the table is a numeral. */
  predicate Numeric(rows: seq<Row>): (b: bool)
    ensures b <==> forall r :: r in rows ==> IsNumeral(r.calories)
  {
    forall k :: 0 <= k < |rows| ==> IsNumeral(rows[k].calories)
  }

  /** The integer value of a row's calories column, as `sum` reads it. */
  function Calories(r: Row): int
  {
    NumeralValue(r.calories)
  }

  /** A row's calories if its elf is one of `groups`, and 0 otherwise. */
  function InGroups(groups: set<nat>): Row -> int
  {
    (r: Row) => if r.elfId in groups then Calories(r) else 0
  }

  /** `sum(calories)` over the rows with elf_id `g`: never negative, and zero for an
      elf with no rows. */
  function GroupSum(rows: seq<Row>, g: nat): (r: int)
    ensures r >= 0
    ensures g !in ElfIds(rows) ==> r == 0
  {
    SumByNonNegative(rows, InGroups({g}));
    AbsentGroupSumsToZero(rows, g);
    SumBy(rows, InGroups({g}))
  }

  lemma AbsentGroupSumsToZero(rows: seq<Row>, g: nat)
    ensures g !in ElfIds(rows) ==> SumBy(rows, InGroups({g})) == 0
  {
    if g !in ElfIds(rows) {
      SumByZero(rows, InGroups({g}));
    }
  }

  /** `sum(calories)` over the whole table, never negative. */
  function Total(rows: seq<Row>): (r: int)
    ensures r >= 0
  {
    SumByNonNegative(rows, Calories);
    SumBy(rows, Calories)
  }

  predicate StrictlyIncreasing(s: seq<nat>)
  {
    forall i, j :: 0 <= i < j < |s| ==> s[i] < s[j]
  }

  lemma IncreasingCons(x: nat, s: seq<nat>)
    requires StrictlyIncreasing(s) && forall k :: 0 <= k < |s| ==> x < s[k]
    ensures StrictlyIncreasing([x] + s)
  {
    var r := [x] + s;
    forall i, j | 0 <= i < j < |r| ensures r[i] < r[j] {
      assert r[j] == s[j - 1];
      if i > 0 { assert r[i] == s[i - 1]; }
    }
  }

  lemma IncreasingTail(s: seq<nat>)
    requires StrictlyIncreasing(s) && s != []
    ensures StrictlyIncreasing(s[1..]) && forall k :: 0 <= k < |s| - 1 ==> s[0] < s[1..][k]
  {
    forall i, j | 0 <= i < j < |s| - 1 ensures s[1..][i] < s[1..][j] {
      assert s[1..][i] == s[i + 1] && s[1..][j] == s[j + 1];
    }
    forall k | 0 <= k < |s| - 1 ensures s[0] < s[1..][k] {
      assert s[1..][k] == s[k + 1];
    }
  }

  /** Adds `g` to an ascending list of distinct ids, keeping it so. */
  function InsertId(ids: seq<nat>, g: nat): (r: seq<nat>)
    requires StrictlyIncreasing(ids)
    ensures StrictlyIncreasing(r)
    ensures forall x :: x in r <==> x in ids || x == g
  {
    if ids == [] then [g]
    else if g == ids[0] then ids
    else if g < ids[0] then
      IncreasingCons(g, ids);
      [g] + ids
    else
      IncreasingTail(ids);
      var r := InsertId(ids[1..], g);
      assert ids == [ids[0]] + ids[1..];
      assert forall k :: 0 <= k < |r| ==> ids[0] < r[k] by {
        forall k | 0 <= k < |r| ensures ids[0] < r[k] {
          assert r[k] in r;
        }
      }
      IncreasingCons(ids[0], r);
      [ids[0]] + r
  }

  /** The groups of `group by elf_id`: the distinct elf ids present, ascending. */
  function GroupIds(rows: seq<Row>): (ids: seq<nat>)
    ensures StrictlyIncreasing(ids)
    ensures forall g :: g in ids <==> g in ElfIds(rows)
  {
    if rows == [] then []
    else
      var ids := InsertId(GroupIds(rows[1..]), rows[0].elfId);
      assert forall g :: g in ElfIds(rows) <==> g == rows[0].elfId || g in ElfIds(rows[1..]) by {
        forall g ensures g in ElfIds(rows) <==> g == rows[0].elfId || g in ElfIds(rows[1..]) {
          if g in ElfIds(rows) && g != rows[0].elfId {
            var k :| 0 <= k < |rows| && rows[k].elfId == g;
            assert rows[1..][k - 1] == rows[k];
          }
          if g in ElfIds(rows[1..]) {
            var k :| 0 <= k < |rows| - 1 && rows[1..][k].elfId == g;
            assert rows[k + 1] == rows[1..][k];
          }
        }
      }
      ids
  }

  /** The sums of the groups `ids`, in that order. */
  function SumsFor(ids: seq<nat>, rows: seq<Row>): (r: seq<int>)
    ensures |r| == |ids| && forall j :: 0 <= j < |ids| ==> r[j] == GroupSum(rows, ids[j])
  {
    if ids == [] then [] else [GroupSum(rows, ids[0])] + SumsFor(ids[1..], rows)
  }

  /** The column `s` of the inner select: one sum per distinct elf id present. */
  function GroupSums(rows: seq<Row>): (r: seq<int>)
    ensures |r| == |ElfIds(rows)|
  {
    CardOfIncreasing(GroupIds(rows));
    assert Members(GroupIds(rows)) == ElfIds(rows);
    SumsFor(GroupIds(rows), rows)
  }

  /** The value of the query: the sum of the three largest group sums, or SQL NULL
      (`None`) for an empty table, since `sum` over no rows is NULL. */
  function Query(rows: seq<Row>): (r: Option<int>)
    requires Numeric(rows)
    ensures r.None? <==> rows == []
  {
    if rows == [] then None else Some(TopSum(GroupSums(rows), LIMIT))
  }

  /** The set of the ids in a list. */
  function Members(s: seq<nat>): set<nat>
  {
    set x | x in s
  }

  /** The head of an ascending list is its least element. */
  lemma IncreasingHeadIsMin(s: seq<nat>, x: nat)
    requires StrictlyIncreasing(s) && x in s
    ensures s[0] <= x
  {
    var i :| 0 <= i < |s| && s[i] == x;
    assert i == 0 || s[0] < s[i];
  }

  /** The tail of an ascending list holds all its members but the head. */
  lemma TailMembers(s: seq<nat>)
    requires StrictlyIncreasing(s) && s != []
    ensures forall x :: x in s[1..] <==> x in s && x != s[0]
  {
    IncreasingTail(s);
    assert s == [s[0]] + s[1..];
  }

  /** An ascending list of distinct ids has as many elements as its set of members. */
  lemma {:induction false} CardOfIncreasing(s: seq<nat>)
    requires StrictlyIncreasing(s)
    ensures |Members(s)| == |s|
  {
    if s != [] {
      var later := Members(s[1..]);
      IncreasingTail(s);
      TailMembers(s);
      CardOfIncreasing(s[1..]);
      assert s[0] !in later;
      assert Members(s) == later + {s[0]};
      assert |later + {s[0]}| == |later| + 1;
    }
  }

  /** Two ascending lists of distinct ids with the same members are equal. */
  lemma {:induction false} IncreasingUnique(a: seq<nat>, b: seq<nat>)
    requires StrictlyIncreasing(a) && StrictlyIncreasing(b)
    requires forall x :: x in a <==> x in b
    ensures a == b
    decreases |a|
  {
    CardOfIncreasing(a);
    CardOfIncreasing(b);
    assert Members(a) == Members(b);
    if a != [] {
      IncreasingHeadIsMin(b, a[0]);
      IncreasingHeadIsMin(a, b[0]);
      IncreasingTail(a);
      IncreasingTail(b);
      TailMembers(a);
      TailMembers(b);
      IncreasingUnique(a[1..], b[1..]);
      assert a == [a[0]] + a[1..] && b == [b[0]] + b[1..];
    }
  }

  /** Group sums are sums of calories, hence never negative. */
  lemma GroupSumsNonNegative(rows: seq<Row>)
    ensures NonNegative(GroupSums(rows))
  {
    var ids := GroupIds(rows);
    forall j | 0 <= j < |ids| ensures GroupSums(rows)[j] >= 0 {
      SumByNonNegative(rows, InGroups({ids[j]}));
    }
  }

  /** Summing the sums of distinct groups is summing the calories of their rows. */
  lemma {:induction false} SumsForTotal(ids: seq<nat>, rows: seq<Row>)
    requires StrictlyIncreasing(ids)
    ensures SumOf(SumsFor(ids, rows)) == SumBy(rows, InGroups(Members(ids)))
  {
    if ids == [] {
      SumByZero(rows, InGroups(Members(ids)));
    } else {
      IncreasingTail(ids);
      SumsForTotal(ids[1..], rows);
      SumOfCons(GroupSum(rows, ids[0]), SumsFor(ids[1..], rows));
      var later := Members(ids[1..]);
      assert ids[0] !in later;
      assert Members(ids) == {ids[0]} + later;
      SumByPointwise(rows, InGroups({ids[0]}), InGroups(later), InGroups(Members(ids)));
    }
  }

  /** The groups partition the table: the group sums add up to the total calories. */
  lemma GroupSumsPartitionTotal(rows: seq<Row>)
    ensures SumOf(GroupSums(rows)) == Total(rows)
  {
    var ids := GroupIds(rows);
    var all := Members(ids);
    SumsForTotal(ids, rows);
    assert all == ElfIds(rows);
    forall k | 0 <= k < |rows| ensures InGroups(all)(rows[k]) == Calories(rows[k]) {
      assert rows[k].elfId in all;
    }
    SumByCongruent(rows, InGroups(all), Calories);
  }

  /** The result bounds every choice of at most three groups: no three elves carry
      more calories together than it says. */
  lemma QueryIsMaximal(rows: seq<Row>, t: seq<int>)
    requires Numeric(rows) && rows != []
    requires multiset(t) <= multiset(GroupSums(rows)) && |t| <= LIMIT
    ensures SumOf(t) <= Query(rows).value
  {
    GroupSumsNonNegative(rows);
    TopSumMaximal(GroupSums(rows), t, LIMIT);
  }

  /** The result is the sum of the sums of min(3, g) of the g groups. */
  lemma QueryIsAchieved(rows: seq<Row>) returns (t: seq<int>)
    requires Numeric(rows) && rows != []
    ensures multiset(t) <= multiset(GroupSums(rows))
    ensures |t| == Min(LIMIT, |ElfIds(rows)|)
    ensures SumOf(t) == Query(rows).value
  {
    t := TopSumAchieved(GroupSums(rows), LIMIT);
  }

  /** The result is never negative: calories are read as natural numbers. */
  lemma QueryNonNegative(rows: seq<Row>)
    requires Numeric(rows) && rows != []
    ensures Query(rows).value >= 0
  {
    GroupSumsNonNegative(rows);
    var t := TopSumAchieved(GroupSums(rows), LIMIT);
    NonNegativeOfSubMultiset(t, GroupSums(rows));
    SumOfNonNegative(t);
  }

  /** The result is at least the sum of any one group. */
  lemma QueryAtLeastEachGroup(rows: seq<Row>, g: nat)
    requires Numeric(rows) && g in ElfIds(rows)
    ensures rows != [] && GroupSum(rows, g) <= Query(rows).value
  {
    var ids := GroupIds(rows);
    assert g in ids;
    var j :| 0 <= j < |ids| && ids[j] == g;
    var sums := GroupSums(rows);
    assert sums[j] == GroupSum(rows, g);
    SingleChoice(sums, j);
    QueryIsMaximal(rows, [sums[j]]);
  }

  /** The result is at most the total of all calories, and equals it when there are at
      most three groups. */
  lemma QueryAtMostTotal(rows: seq<Row>)
    requires Numeric(rows) && rows != []
    ensures Query(rows).value <= Total(rows)
    ensures |ElfIds(rows)| <= LIMIT ==> Query(rows).value == Total(rows)
  {
    GroupSumsNonNegative(rows);
    GroupSumsPartitionTotal(rows);
    TopSumAtMostTotal(GroupSums(rows), LIMIT);
  }

  /** `order by s desc` may arrange equal sums either way: every descending order of
      the group sums gives the same result. */
  lemma QueryTieOrderIrrelevant(rows: seq<Row>, order: seq<int>)
    requires Numeric(rows) && rows != []
    requires Descending(order) && multiset(order) == multiset(GroupSums(rows))
    ensures Query(rows) == Some(SumOf(order[..Min(LIMIT, |order|)]))
  {
    TopSumOfAnyDescendingOrder(GroupSums(rows), order, LIMIT);
  }

  /** The order in which `group by` produces the groups does not matter either. */
  lemma QueryGroupOrderIrrelevant(rows: seq<Row>, sums: seq<int>)
    requires Numeric(rows) && rows != []
    requires multiset(sums) == multiset(GroupSums(rows))
    ensures Query(rows) == Some(TopSum(sums, LIMIT))
  {
    TopSumPermutationInvariant(sums, GroupSums(rows), LIMIT);
  }

  /** The result does not depend on the order of the rows in the table. */
  lemma RowOrderIrrelevant(a: seq<Row>, b: seq<Row>)
    requires Numeric(a) && multiset(a) == multiset(b)
    ensures Numeric(b) && GroupSums(a) == GroupSums(b) && Query(a) == Query(b)
  {
    SameRows(a, b);
    SameRows(b, a);
    SameGroupIds(a, b);
    var ids := GroupIds(a);
    forall j | 0 <= j < |ids| ensures GroupSum(a, ids[j]) == GroupSum(b, ids[j]) {
      SumByPermutation(a, b, InGroups({ids[j]}));
    }
    assert GroupSums(a) == GroupSums(b);
    assert a == [] <==> b == [] by {
      assert |a| == |multiset(a)| && |b| == |multiset(b)|;
    }
  }

  /** Every row of a permutation of the table is a row of the table, so it is numeric
      when the table is, and its group ids occur in the table. */
  lemma SameRows(a: seq<Row>, b: seq<Row>)
    requires multiset(a) == multiset(b)
    ensures Numeric(a) ==> Numeric(b)
    ensures forall g :: g in ElfIds(b) ==> g in ElfIds(a)
  {
    forall k | 0 <= k < |b| ensures exists m :: 0 <= m < |a| && a[m] == b[k] {
      assert b[k] in multiset(a);
    }
  }

  /** A permutation of the table has the same groups in the same (ascending) order. */
  lemma SameGroupIds(a: seq<Row>, b: seq<Row>)
    requires forall g :: g in ElfIds(a) <==> g in ElfIds(b)
    ensures GroupIds(a) == GroupIds(b)
  {
    IncreasingUnique(GroupIds(a), GroupIds(b));
  }
}
