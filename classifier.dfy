/** The line classifier `my_process_line`: a blank line starts the next elf's group,
    any other line becomes a row numbered by two counters that live for the whole run. */
module Classifier {
  import opened Store

  /** The number of blank lines in `ls`: what `elf_id` holds after reading them. */
  function BlankCount(ls: seq<string>): (n: nat)
    ensures n <= |ls|
  {
    if ls == [] then 0
    else BlankCount(ls[..|ls| - 1]) + (if ls[|ls| - 1] == "" then 1 else 0)
  }

  /** The number of non-blank lines in `ls`: what `item_id` holds after reading them. */
  function NonBlankCount(ls: seq<string>): (n: nat)
    ensures n <= |ls|
  {
    if ls == [] then 0
    else NonBlankCount(ls[..|ls| - 1]) + (if ls[|ls| - 1] == "" then 0 else 1)
  }

  /** The non-blank lines of `ls`, in order. */
  function NonBlank(ls: seq<string>): (r: seq<string>)
    ensures |r| == NonBlankCount(ls)
    ensures forall k :: 0 <= k < |r| ==> r[k] != ""
  {
    if ls == [] then []
    else if ls[|ls| - 1] == "" then NonBlank(ls[..|ls| - 1])
    else NonBlank(ls[..|ls| - 1]) + [ls[|ls| - 1]]
  }

  /** The table after the counters, both starting at 0, have processed `ls` in order:
      a blank line adds no row, a non-blank line adds the row (elf_id, item_id, line). */
  function RowsOf(ls: seq<string>): (t: seq<Row>)
    ensures |t| == NonBlankCount(ls)
  {
    if ls == [] then []
    else
      var prev := ls[..|ls| - 1];
      if ls[|ls| - 1] == "" then RowsOf(prev)
      else RowsOf(prev) + [Row(BlankCount(prev), NonBlankCount(prev), ls[|ls| - 1])]
  }

  /** The two `static int` counters of `my_process_line`. `seen` is the sequence of
      lines processed so far; the counters and the table are what processing it from
      the initial state yields. */
  class Accumulator {
    var elfId: nat
    var itemId: nat
    ghost var seen: seq<string>

    ghost predicate Valid(db: Database)
      reads this, db
    {
      elfId == BlankCount(seen) && itemId == NonBlankCount(seen) && db.rows == RowsOf(seen)
    }

    /** Both counters start at zero before the first line. */
    constructor ()
      ensures elfId == 0 && itemId == 0 && seen == []
    {
      elfId, itemId := 0, 0;
      seen := [];
    }

    /** `my_process_line`: a blank line increments `elf_id` and emits nothing; any
        other line is inserted under the current counters and increments `item_id`. */
    method ProcessLine(db: Database, line: string)
      requires Valid(db)
      modifies this, db
      ensures Valid(db) && seen == old(seen) + [line]
      ensures line == "" ==>
        elfId == old(elfId) + 1 && itemId == old(itemId) && db.rows == old(db.rows)
      ensures line != "" ==>
        elfId == old(elfId) && itemId == old(itemId) + 1 &&
        db.rows == old(db.rows) + [Row(old(elfId), old(itemId), line)]
    {
      AppendLine(seen, line);
      if line == "" {
        elfId := elfId + 1;
      } else {
        db.Insert(elfId, itemId, line);
        itemId := itemId + 1;
      }
      seen := seen + [line];
    }
  }

  /** One more line: the counts and the table after it, from those before it. */
  lemma AppendLine(ls: seq<string>, line: string)
    ensures BlankCount(ls + [line]) == BlankCount(ls) + (if line == "" then 1 else 0)
    ensures NonBlankCount(ls + [line]) == NonBlankCount(ls) + (if line == "" then 0 else 1)
    ensures RowsOf(ls + [line]) ==
      RowsOf(ls) + (if line == "" then [] else [Row(BlankCount(ls), NonBlankCount(ls), line)])
  {
    assert (ls + [line])[..|ls|] == ls;
  }

  /** The table stays empty exactly when every line is blank. */
  lemma {:induction false} NoRowsIffAllBlank(ls: seq<string>)
    ensures RowsOf(ls) == [] <==> forall k :: 0 <= k < |ls| ==> ls[k] == ""
  {
    if ls != [] {
      var p := ls[..|ls| - 1];
      NoRowsIffAllBlank(p);
      assert forall k :: 0 <= k < |p| ==> p[k] == ls[k];
      if ls[|ls| - 1] != "" {
        assert |RowsOf(ls)| == |RowsOf(p)| + 1;
      }
    }
  }

  /** The counts and the non-blank lines of two pieces of input put end to end. */
  lemma CountsConcat(a: seq<string>, b: seq<string>)
    ensures BlankCount(a + b) == BlankCount(a) + BlankCount(b)
    ensures NonBlank(a + b) == NonBlank(a) + NonBlank(b)
  {
    BlankCountConcat(a, b);
    NonBlankConcat(a, b);
  }

  lemma {:induction false} BlankCountConcat(a: seq<string>, b: seq<string>)
    ensures BlankCount(a + b) == BlankCount(a) + BlankCount(b)
    decreases |b|
  {
    if b == [] {
      assert a + b == a;
    } else {
      var c := b[..|b| - 1];
      BlankCountConcat(a, c);
      assert (a + b)[..|a + b| - 1] == a + c;
    }
  }

  lemma {:induction false} NonBlankConcat(a: seq<string>, b: seq<string>)
    ensures NonBlank(a + b) == NonBlank(a) + NonBlank(b)
    decreases |b|
  {
    if b == [] {
      assert a + b == a;
    } else {
      var c := b[..|b| - 1];
      NonBlankConcat(a, c);
      assert (a + b)[..|a + b| - 1] == a + c;
    }
  }

  /** A piece of input without blank lines is all items: it opens no new group. */
  lemma {:induction false} NoBlankLines(g: seq<string>)
    requires forall k :: 0 <= k < |g| ==> g[k] != ""
    ensures NonBlank(g) == g && BlankCount(g) == 0
  {
    if g != [] {
      var p := g[..|g| - 1];
      assert forall k :: 0 <= k < |p| ==> p[k] == g[k];
      NoBlankLines(p);
    }
  }

  /** Every line is either blank or not. */
  lemma {:induction false} CountsPartition(ls: seq<string>)
    ensures BlankCount(ls) + NonBlankCount(ls) == |ls|
  {
    if ls != [] {
      CountsPartition(ls[..|ls| - 1]);
    }
  }

  /** The table is append-only: processing more lines keeps every earlier row as it was. */
  lemma {:induction false} RowsAppendOnly(ls: seq<string>, more: seq<string>)
    ensures RowsOf(ls) <= RowsOf(ls + more)
    decreases |more|
  {
    if more == [] {
      assert ls + more == ls;
    } else {
      var m := more[..|more| - 1];
      RowsAppendOnly(ls, m);
      assert (ls + more)[..|ls + more| - 1] == ls + m;
      assert RowsOf(ls + m) <= RowsOf(ls + more);
    }
  }

  /** The row of the i-th line: a non-blank line at index i produces the row at
      position (non-blank lines before it), whose elf_id is the number of blank lines
      before it and whose item_id is the number of non-blank lines before it. */
  lemma RowOfLine(ls: seq<string>, i: nat)
    requires i < |ls| && ls[i] != ""
    ensures NonBlankCount(ls[..i]) < |RowsOf(ls)|
    ensures RowsOf(ls)[NonBlankCount(ls[..i])] ==
      Row(BlankCount(ls[..i]), NonBlankCount(ls[..i]), ls[i])
  {
    var p := ls[..i + 1];
    assert p[..i] == ls[..i];
    assert ls == p + ls[i + 1..];
    RowsAppendOnly(p, ls[i + 1..]);
  }

  /** `item_id` is never reset: the k-th row of the table has item_id k, so the ids
      are distinct and increase along the table. */
  lemma {:induction false} ItemIdIsPosition(ls: seq<string>)
    ensures forall k :: 0 <= k < |RowsOf(ls)| ==> RowsOf(ls)[k].itemId == k
  {
    if ls != [] {
      ItemIdIsPosition(ls[..|ls| - 1]);
    }
  }

  /** elf_id never decreases along the table, and no row's elf_id exceeds the number
      of blank lines read. */
  lemma {:induction false} ElfIdsNonDecreasing(ls: seq<string>)
    ensures forall j, k :: 0 <= j <= k < |RowsOf(ls)| ==> RowsOf(ls)[j].elfId <= RowsOf(ls)[k].elfId
    ensures forall k :: 0 <= k < |RowsOf(ls)| ==> RowsOf(ls)[k].elfId <= BlankCount(ls)
  {
    if ls != [] {
      ElfIdsNonDecreasing(ls[..|ls| - 1]);
    }
  }

  /** The calories column holds exactly the non-blank lines, in input order. */
  lemma {:induction false} CaloriesAreNonBlankLines(ls: seq<string>)
    ensures forall k :: 0 <= k < |RowsOf(ls)| ==> RowsOf(ls)[k].calories == NonBlank(ls)[k]
  {
    if ls != [] {
      CaloriesAreNonBlankLines(ls[..|ls| - 1]);
    }
  }

  /** A blank last line bumps elf_id but adds no row, so it does not change the table. */
  lemma TrailingBlankLineAddsNoRow(ls: seq<string>)
    ensures RowsOf(ls + [""]) == RowsOf(ls)
  {
    assert (ls + [""])[..|ls|] == ls;
  }

  lemma ElfIdsAppend(t: seq<Row>, r: Row)
    ensures ElfIds(t + [r]) == ElfIds(t) + {r.elfId}
  {
    var u := t + [r];
    assert u[|t|] == r;
    forall g | g in ElfIds(u) ensures g in ElfIds(t) + {r.elfId} {
      var k :| 0 <= k < |u| && u[k].elfId == g;
      if k < |t| { assert u[k] == t[k]; }
    }
    forall g | g in ElfIds(t) ensures g in ElfIds(u) {
      var k :| 0 <= k < |t| && t[k].elfId == g;
      assert u[k] == t[k];
    }
  }

  /** Input that neither starts nor ends with a blank line and has no two blank lines
      in a row: every group is non-empty. */
  predicate NoEmptyGroups(ls: seq<string>)
  {
    ls != [] && ls[0] != "" && ls[|ls| - 1] != "" &&
    forall i :: 0 <= i < |ls| - 1 && ls[i] == "" ==> ls[i + 1] != ""
  }

  /** Cutting the input after a non-blank line keeps it free of empty groups. */
  lemma NoEmptyGroupsPrefix(ls: seq<string>, n: nat)
    requires NoEmptyGroups(ls) && 0 < n <= |ls| && ls[n - 1] != ""
    ensures NoEmptyGroups(ls[..n])
  {
    var q := ls[..n];
    forall i | 0 <= i < n - 1 && q[i] == "" ensures q[i + 1] != "" {
      assert ls[i] == q[i] && ls[i + 1] == q[i + 1];
    }
  }

  /** Without empty groups, the line before a blank line is not blank. */
  lemma NoDoubleBlank(ls: seq<string>, i: nat)
    requires NoEmptyGroups(ls) && i < |ls| && ls[i] == ""
    ensures 0 < i && ls[i - 1] != ""
  {
    assert ls[0] != "";
    var before, after := ls[i - 1], ls[i - 1 + 1];
    assert !(before == "" && after == "");
  }

  /** Without empty groups, every id up to the number of blank lines has a row. */
  lemma {:induction false} RowOfGroup(ls: seq<string>, g: nat) returns (k: nat)
    requires NoEmptyGroups(ls) && g <= BlankCount(ls)
    ensures k < |RowsOf(ls)| && RowsOf(ls)[k].elfId == g
    decreases |ls|
  {
    var n := |ls|;
    var p := ls[..n - 1];
    assert p + [ls[n - 1]] == ls;
    AppendLine(p, ls[n - 1]);
    if g == BlankCount(p) {
      k := |RowsOf(p)|;
    } else if ls[n - 2] != "" {
      NoEmptyGroupsPrefix(ls, n - 1);
      k := RowOfGroup(p, g);
    } else {
      NoDoubleBlank(ls, n - 2);
      var q := ls[..n - 2];
      assert q + [""] == p;
      AppendLine(q, "");
      NoEmptyGroupsPrefix(ls, n - 2);
      k := RowOfGroup(q, g);
    }
  }

  /** Without empty groups, the elf ids present are exactly 0 .. (blank lines), one more
      than the number of separators. */
  lemma GroupIdsWithoutEmptyGroups(ls: seq<string>)
    requires NoEmptyGroups(ls)
    ensures forall g: nat :: g in ElfIds(RowsOf(ls)) <==> g <= BlankCount(ls)
  {
    ElfIdsNonDecreasing(ls);
    forall g: nat | g <= BlankCount(ls) ensures g in ElfIds(RowsOf(ls)) {
      var k := RowOfGroup(ls, g);
    }
  }

  /** Two blank lines in a row open a group id that no row carries. */
  lemma ConsecutiveBlankLinesSkipAnId()
    ensures ElfIds(RowsOf(["1", "", "", "2"])) == {0, 2}
  {
    var ls := ["1", "", "", "2"];
    assert ls[..3] == ["1", "", ""] && ls[..3][..2] == ["1", ""];
    assert ls[..3][..2][..1] == ["1"] && ls[..3][..2][..1][..0] == [];
    assert RowsOf(["1"]) == [Row(0, 0, "1")];
    assert RowsOf(["1", ""]) == [Row(0, 0, "1")];
    assert RowsOf(["1", "", ""]) == [Row(0, 0, "1")];
    assert BlankCount(["1", "", ""]) == 2 && NonBlankCount(["1", "", ""]) == 1;
    assert RowsOf(ls) == [Row(0, 0, "1"), Row(2, 1, "2")];
    ElfIdsAppend([Row(0, 0, "1")], Row(2, 1, "2"));
    ElfIdsAppend([], Row(0, 0, "1"));
    assert [Row(0, 0, "1")] + [Row(2, 1, "2")] == [Row(0, 0, "1"), Row(2, 1, "2")];
    assert [] + [Row(0, 0, "1")] == [Row(0, 0, "1")];
  }

  /** Two blank lines in a row open a group id that no row carries: the id between
      the group before them and the group after them. */
  lemma BlankRunSkipsId(ls: seq<string>, i: nat)
    requires i + 1 < |ls| && ls[i] == "" && ls[i + 1] == ""
    ensures BlankCount(ls[..i]) + 1 !in ElfIds(RowsOf(ls))
  {
    var before := ls[..i];
    var a := before + ["", ""];
    var b := ls[i + 2..];
    assert a + b == ls;
    assert a == (before + [""]) + [""];
    AppendLine(before, "");
    AppendLine(before + [""], "");
    TrailingBlankLineAddsNoRow(before);
    TrailingBlankLineAddsNoRow(before + [""]);
    RowsAppendOnly(a, b);
    ElfIdsNonDecreasing(before);
    LaterRowsLaterIds(a, b);
    IdGap(RowsOf(ls), |RowsOf(before)|, BlankCount(before));
  }

  /** A table whose first `m` rows have elf ids at most `g` and whose later rows have
      ids above `g + 1` carries no row of elf `g + 1`. */
  lemma IdGap(t: seq<Row>, m: nat, g: nat)
    requires m <= |t|
    requires forall k :: 0 <= k < m ==> t[k].elfId <= g
    requires forall k :: m <= k < |t| ==> t[k].elfId >= g + 2
    ensures g + 1 !in ElfIds(t)
  {
    forall k | 0 <= k < |t| ensures t[k].elfId != g + 1 {
      if k < m {
        assert t[k].elfId <= g;
      }
    }
  }

  /** Rows made from lines after `a` carry elf ids from `BlankCount(a)` on. */
  lemma {:induction false} LaterRowsLaterIds(a: seq<string>, b: seq<string>)
    ensures |RowsOf(a)| <= |RowsOf(a + b)|
    ensures forall k :: |RowsOf(a)| <= k < |RowsOf(a + b)| ==> RowsOf(a + b)[k].elfId >= BlankCount(a)
    decreases |b|
  {
    if b == [] {
      assert a + b == a;
    } else {
      var p := b[..|b| - 1];
      var x := b[|b| - 1];
      assert (a + p) + [x] == a + b;
      LaterRowsLaterIds(a, p);
      AppendLine(a + p, x);
      CountsConcat(a, p);
    }
  }
}
