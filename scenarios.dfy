/** Concrete input files and what the program computes for each. */
module Scenarios {
  import opened Wrappers
  import opened Sums
  import opened LineReader
  import opened Store
  import opened Classifier
  import opened Aggregate
  import opened Program

  /** The file "1\n2\n\n3\n4\n5\n\n6\n" splits into its eight lines. */
  lemma ThreeElvesLines(input: seq<char>, ls: seq<string>)
    requires ls == ["1", "2", "", "3", "4", "5", "", "6"] && input == JoinLines(ls)
    ensures LineStartsValid(input) && Lines(input) == ls
  {
    assert forall k :: 0 <= k < |ls| ==> NEWLINE !in ls[k] && NUL !in ls[k];
    LinesOfJoin(ls);
  }

  /** Three groups of items with one blank line between each two. */
  lemma ThreeGroupsCounts(g1: seq<string>, g2: seq<string>, g3: seq<string>)
    requires forall k :: 0 <= k < |g1| ==> g1[k] != ""
    requires forall k :: 0 <= k < |g2| ==> g2[k] != ""
    requires forall k :: 0 <= k < |g3| ==> g3[k] != ""
    ensures NonBlank(g1 + [""] + g2 + [""] + g3) == g1 + g2 + g3
    ensures BlankCount(g1 + [""] + g2 + [""] + g3) == 2
  {
    NoBlankLines(g1);
    NoBlankLines(g2);
    NoBlankLines(g3);
    OneSeparator(g1, g2);
    OneSeparator(g1 + [""] + g2, g3);
  }

  /** One blank line between two parts adds one to the blank count and no line. */
  lemma OneSeparator(a: seq<string>, b: seq<string>)
    ensures NonBlank(a + [""] + b) == NonBlank(a) + NonBlank(b)
    ensures BlankCount(a + [""] + b) == BlankCount(a) + BlankCount(b) + 1
  {
    AppendLine(a, "");
    CountsConcat(a + [""], b);
  }

  lemma ThreeElvesCounts(ls: seq<string>)
    requires ls == ["1", "2", "", "3", "4", "5", "", "6"]
    ensures NonBlank(ls) == ["1", "2", "3", "4", "5", "6"] && BlankCount(ls) == 2
  {
    var g1, g2, g3 := ["1", "2"], ["3", "4", "5"], ["6"];
    ThreeGroupsCounts(g1, g2, g3);
    assert ls == g1 + [""] + g2 + [""] + g3;
    assert g1 + g2 + g3 == ["1", "2", "3", "4", "5", "6"];
  }

  lemma ThreeElvesGroups(ls: seq<string>)
    requires ls == ["1", "2", "", "3", "4", "5", "", "6"]
    ensures ElfIds(RowsOf(ls)) == {0, 1, 2}
  {
    ThreeElvesCounts(ls);
    GroupIdsWithoutEmptyGroups(ls);
  }

  lemma ThreeElvesSum(ls: seq<string>)
    requires ls == ["1", "2", "", "3", "4", "5", "", "6"]
    ensures SumBy(NonBlank(ls), NumeralValue) == 21
  {
    ThreeElvesCounts(ls);
    assert SumBy(["6"], NumeralValue) == 6;
    assert SumBy(["5", "6"], NumeralValue) == 11;
    assert SumBy(["4", "5", "6"], NumeralValue) == 15;
    assert SumBy(["3", "4", "5", "6"], NumeralValue) == 18;
    assert SumBy(["2", "3", "4", "5", "6"], NumeralValue) == 20;
    assert SumBy(["1", "2", "3", "4", "5", "6"], NumeralValue) == 21;
  }

  lemma ThreeElvesRows(ls: seq<string>)
    requires ls == ["1", "2", "", "3", "4", "5", "", "6"]
    ensures CaloriesLines(ls) && RowsOf(ls) != []
  {
    NoRowsIffAllBlank(ls);
    assert ls[0] != "";
  }

  /** Three elves carrying 1+2, 3+4+5 and 6 calories: 3 + 12 + 6 = 21. */
  lemma ThreeElves(input: seq<char>)
    requires input == JoinLines(["1", "2", "", "3", "4", "5", "", "6"])
    ensures WellFormed(input) && Answer(input) == Some(21)
  {
    ThreeElvesLines(input, ["1", "2", "", "3", "4", "5", "", "6"]);
    ThreeElvesFacts(Lines(input));
    FewGroupsAnswer(input);
  }

  /** The same three elves in a file without a final newline. */
  lemma ThreeElvesUnterminated(input: seq<char>)
    requires input == "1\n2\n\n3\n4\n5\n\n6"
    ensures WellFormed(input) && Answer(input) == Some(21)
  {
    ThreeElvesText(input);
    ThreeElves(input + [NEWLINE]);
    NulFreeStartsValid(input);
    AnswerUnterminated(input);
  }

  lemma ThreeElvesText(input: seq<char>)
    requires input == "1\n2\n\n3\n4\n5\n\n6"
    ensures NUL !in input && input != [] && input[|input| - 1] != NEWLINE
    ensures input + [NEWLINE] == JoinLines(["1", "2", "", "3", "4", "5", "", "6"])
  {
    ThreeElvesNulFree(input);
    ThreeElvesJoined();
    ThreeElvesPieces(input);
  }

  lemma ThreeElvesNulFree(input: seq<char>)
    requires input == "1\n2\n\n3\n4\n5\n\n6"
    ensures NUL !in input && input != [] && input[|input| - 1] != NEWLINE
  {
    assert forall k :: 0 <= k < |input| ==> input[k] != NUL;
  }

  lemma ThreeElvesPieces(input: seq<char>)
    requires input == "1\n2\n\n3\n4\n5\n\n6"
    ensures input + [NEWLINE] == "1\n2\n\n" + "3\n4\n5\n\n6\n"
  {
    assert input == "1\n2\n\n" + "3\n4\n5\n\n6";
    assert "3\n4\n5\n\n6" + [NEWLINE] == "3\n4\n5\n\n6\n";
    ConcatAssoc("1\n2\n\n", "3\n4\n5\n\n6", [NEWLINE]);
  }

  lemma ThreeElvesJoined()
    ensures JoinLines(["1", "2", "", "3", "4", "5", "", "6"]) == "1\n2\n\n" + "3\n4\n5\n\n6\n"
  {
    var front, back := ["1", "2", ""], ["3", "4", "5", "", "6"];
    assert front + back == ["1", "2", "", "3", "4", "5", "", "6"];
    JoinLinesConcat(front, back);
    FirstElfJoined();
    LaterElvesJoined();
  }

  lemma FirstElfJoined()
    ensures JoinLines(["1", "2", ""]) == "1\n2\n\n"
  {
    var ls := ["1", "2", ""];
    assert JoinLines(ls[2..]) == "\n";
    assert JoinLines(ls[1..]) == "2\n\n";
  }

  lemma LaterElvesJoined()
    ensures JoinLines(["3", "4", "5", "", "6"]) == "3\n4\n5\n\n6\n"
  {
    var ls := ["3", "4", "5", "", "6"];
    assert JoinLines(ls[4..]) == "6\n";
    assert JoinLines(ls[3..]) == "\n6\n";
    assert JoinLines(ls[2..]) == "5\n\n6\n";
    assert JoinLines(ls[1..]) == "4\n5\n\n6\n";
  }

  /** Writing two runs of lines one after the other. */
  lemma {:induction false} JoinLinesConcat(a: seq<string>, b: seq<string>)
    ensures JoinLines(a + b) == JoinLines(a) + JoinLines(b)
  {
    if a == [] {
      assert a + b == b;
    } else {
      assert (a + b)[1..] == a[1..] + b;
      JoinLinesConcat(a[1..], b);
      assert JoinLines(a + b) == a[0] + [NEWLINE] + (JoinLines(a[1..]) + JoinLines(b));
    }
  }

  lemma ThreeElvesFacts(ls: seq<string>)
    requires ls == ["1", "2", "", "3", "4", "5", "", "6"]
    ensures CaloriesLines(ls) && RowsOf(ls) != [] && |ElfIds(RowsOf(ls))| <= LIMIT
    ensures SumBy(NonBlank(ls), NumeralValue) == 21
  {
    ThreeElvesRows(ls);
    ThreeElvesGroups(ls);
    ThreeElvesSum(ls);
  }

  /** The file "10\n20\n30\n" splits into three lines. */
  lemma OneElfLines(input: seq<char>, ls: seq<string>)
    requires ls == ["10", "20", "30"] && input == JoinLines(ls)
    ensures LineStartsValid(input) && Lines(input) == ls
  {
    assert forall k :: 0 <= k < |ls| ==> NEWLINE !in ls[k] && NUL !in ls[k];
    LinesOfJoin(ls);
  }

  lemma OneElfCounts(ls: seq<string>)
    requires ls == ["10", "20", "30"]
    ensures NonBlank(ls) == ["10", "20", "30"] && BlankCount(ls) == 0
  {
    NoBlankLines(ls);
  }

  lemma OneElfRows(ls: seq<string>)
    requires ls == ["10", "20", "30"]
    ensures CaloriesLines(ls) && RowsOf(ls) != []
  {
    NoRowsIffAllBlank(ls);
    assert ls[0] != "";
  }

  lemma OneElfGroups(ls: seq<string>)
    requires ls == ["10", "20", "30"]
    ensures ElfIds(RowsOf(ls)) == {0}
  {
    OneElfCounts(ls);
    GroupIdsWithoutEmptyGroups(ls);
  }

  lemma OneElfSum(ls: seq<string>)
    requires ls == ["10", "20", "30"]
    ensures SumBy(NonBlank(ls), NumeralValue) == 60
  {
    OneElfCounts(ls);
    assert NumeralValue("1") == 1 && NumeralValue("2") == 2 && NumeralValue("3") == 3;
    assert "10"[..1] == "1" && "20"[..1] == "2" && "30"[..1] == "3";
    assert SumBy(["30"], NumeralValue) == 30;
    assert SumBy(["20", "30"], NumeralValue) == 50;
    assert SumBy(["10", "20", "30"], NumeralValue) == 60;
  }

  /** One elf only: fewer than three groups, so the result is that elf's 60 calories. */
  lemma OneElf(input: seq<char>)
    requires input == JoinLines(["10", "20", "30"])
    ensures WellFormed(input) && Answer(input) == Some(60)
  {
    OneElfLines(input, ["10", "20", "30"]);
    OneElfFacts(Lines(input));
    FewGroupsAnswer(input);
  }

  /** The one-elf file without a final newline. */
  lemma OneElfUnterminated(input: seq<char>)
    requires input == "10\n20\n30"
    ensures WellFormed(input) && Answer(input) == Some(60)
  {
    OneElfText(input);
    OneElf(input + [NEWLINE]);
    NulFreeStartsValid(input);
    AnswerUnterminated(input);
  }

  lemma OneElfText(input: seq<char>)
    requires input == "10\n20\n30"
    ensures NUL !in input && input != [] && input[|input| - 1] != NEWLINE
    ensures input + [NEWLINE] == JoinLines(["10", "20", "30"])
  {
  }

  lemma OneElfFacts(ls: seq<string>)
    requires ls == ["10", "20", "30"]
    ensures CaloriesLines(ls) && RowsOf(ls) != [] && |ElfIds(RowsOf(ls))| <= LIMIT
    ensures SumBy(NonBlank(ls), NumeralValue) == 60
  {
    OneElfRows(ls);
    OneElfGroups(ls);
    OneElfSum(ls);
  }

  /** An empty file has no lines, so no rows, and `sum` over no rows is NULL. */
  lemma EmptyInput()
    ensures WellFormed("") && Answer("") == None
  {
  }
}
