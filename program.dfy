/** `main`: reads the input line by line, feeds every line to the classifier, which
    fills the table, then runs the top-three query and prints its one column. */
module Program {
  import opened Wrappers
  import opened Sums
  import opened LineReader
  import opened Store
  import opened Classifier
  import opened Aggregate

  /** Every line is blank or a numeral. */
  predicate CaloriesLines(ls: seq<string>)
  {
    forall k :: 0 <= k < |ls| ==> ls[k] == "" || IsNumeral(ls[k])
  }

  /** Input the program reads with defined behaviour (no line starts with NUL) and whose
      non-blank lines the integer column stores as integers. */
  predicate WellFormed(input: seq<char>): (b: bool)
    ensures b ==> LineStartsValid(input) && Numeric(RowsOf(Lines(input)))
  {
    if LineStartsValid(input) && CaloriesLines(Lines(input)) then
      RowsAreNumeric(Lines(input));
      true
    else
      false
  }

  /** Rows are made from the non-blank lines only, so they are all numeric. */
  lemma {:induction false} RowsAreNumeric(ls: seq<string>)
    requires CaloriesLines(ls)
    ensures Numeric(RowsOf(ls))
  {
    if ls != [] {
      var p := ls[..|ls| - 1];
      assert forall k :: 0 <= k < |p| ==> p[k] == ls[k];
      RowsAreNumeric(p);
    }
  }

  /** The table's total calories are the sum of the values of the non-blank lines. */
  lemma {:induction false} TotalOfLines(ls: seq<string>)
    ensures Total(RowsOf(ls)) == SumBy(NonBlank(ls), NumeralValue)
  {
    if ls != [] {
      var p := ls[..|ls| - 1];
      var l := ls[|ls| - 1];
      TotalOfLines(p);
      if l != "" {
        var row := Row(BlankCount(p), NonBlankCount(p), l);
        SumByConcat(RowsOf(p), [row], Calories);
        SumByConcat(NonBlank(p), [l], NumeralValue);
        assert SumBy([row], Calories) == Calories(row);
        assert SumBy([l], NumeralValue) == NumeralValue(l);
      }
    }
  }

  /** What the program computes for an input: the sum of the three largest group
      sums, or SQL NULL when no line carries calories. */
  function Answer(input: seq<char>): (r: Option<int>)
    requires WellFormed(input)
    ensures r.None? <==> forall k :: 0 <= k < |Lines(input)| ==> Lines(input)[k] == ""
    ensures r.Some? ==> r.value >= 0
  {
    var ls := Lines(input);
    RowsAreNumeric(ls);
    NoRowsIffAllBlank(ls);
    var r := Query(RowsOf(ls));
    assert ls == Lines(input);
    assert r.Some? ==> r.value >= 0 by {
      if r.Some? {
        QueryNonNegative(RowsOf(ls));
      }
    }
    r
  }

  /** With at most three groups present, the program prints the sum of every
      calorie line of the input. */
  lemma FewGroupsAnswer(input: seq<char>)
    requires WellFormed(input) && RowsOf(Lines(input)) != []
    requires |ElfIds(RowsOf(Lines(input)))| <= LIMIT
    ensures Answer(input) == Some(SumBy(NonBlank(Lines(input)), NumeralValue))
  {
    var ls := Lines(input);
    RowsAreNumeric(ls);
    QueryAtMostTotal(RowsOf(ls));
    TotalOfLines(ls);
  }

  /** The read loop of `main`: `my_read_line` until it fails, each line passed to
      `my_process_line`. The table ends up holding the rows of all the lines. */
  method ReadAll(input: seq<char>) returns (db: Database)
    requires LineStartsValid(input)
    ensures fresh(db) && db.rows == RowsOf(Lines(input))
  {
    db := new Database();
    var acc := new Accumulator();
    var stream := input;
    while true
      invariant fresh(db) && fresh(acc)
      invariant LineStartsValid(stream) && acc.Valid(db)
      invariant acc.seen + Lines(stream) == Lines(input)
      decreases |stream|
    {
      var line, rest := ReadLine(stream);
      if line.None? {
        break;
      }
      LinesStep(stream, line.value, rest);
      ConcatAssoc(acc.seen, [line.value], Lines(rest));
      acc.ProcessLine(db, line.value);
      stream := rest;
    }
    assert acc.seen + [] == acc.seen;
  }

  lemma ConcatAssoc<T>(a: seq<T>, b: seq<T>, c: seq<T>)
    ensures (a + b) + c == a + (b + c)
  {
  }

  /** A file whose last line lacks its newline gets the same answer as the file
      with that newline added. */
  lemma AnswerUnterminated(input: seq<char>)
    requires LineStartsValid(input) && input != [] && input[|input| - 1] != NEWLINE
    requires WellFormed(input + [NEWLINE])
    ensures WellFormed(input) && Answer(input) == Answer(input + [NEWLINE])
  {
    LinesOfUnterminated(input);
  }

  /** The body of `main`: the table is filled from the input, then queried. */
  method Solve(input: seq<char>) returns (answer: Option<int>)
    requires WellFormed(input)
    ensures answer == Answer(input)
  {
    var db := ReadAll(input);
    RowsAreNumeric(Lines(input));
    answer := Query(db.rows);
  }

  /** What `my_sql_select_rows` prints for the one result row: the column name, then
      the value as text, each on its own line. */
  function Report(value: nat): (r: string)
    ensures NUL !in r && r != [] && r[|r| - 1] == NEWLINE
  {
    NumeralIsOneLine(Decimal(value));
    "sum(s)" + [NEWLINE] + (Decimal(value) + [NEWLINE])
  }

  /** The printed report reads back as the column name and the value. */
  lemma ReportReadsBack(value: nat)
    ensures LineStartsValid(Report(value))
    ensures Lines(Report(value)) == ["sum(s)", Decimal(value)]
    ensures NumeralValue(Lines(Report(value))[1]) == value
  {
    var d := Decimal(value);
    NumeralIsOneLine(d);
    assert NEWLINE !in "sum(s)" && NUL !in "sum(s)";
    TwoLines("sum(s)", d);
    NumeralOfDecimal(value);
  }

  /** Two lines, each followed by a newline, read back as those two lines. */
  lemma TwoLines(a: string, b: string)
    requires NEWLINE !in a && NUL !in a && NEWLINE !in b && NUL !in b
    ensures LineStartsValid(a + [NEWLINE] + (b + [NEWLINE]))
    ensures Lines(a + [NEWLINE] + (b + [NEWLINE])) == [a, b]
  {
    LinesCons(b, []);
    assert b + [NEWLINE] + [] == b + [NEWLINE];
    LinesCons(a, b + [NEWLINE]);
  }

  /** A numeral holds neither a newline nor a NUL. */
  lemma NumeralIsOneLine(s: string)
    requires IsNumeral(s)
    ensures NEWLINE !in s && NUL !in s
  {
    assert forall k :: 0 <= k < |s| ==> IsDigit(s[k]);
  }
}
