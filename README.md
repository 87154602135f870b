# Calorie counting with an in-memory table, in Dafny

`main.c` solves the calorie-counting puzzle (Advent of Code 2022, day 1) through SQLite.
It reads its input file one line at a time with `getline`, strips the trailing newline,
and classifies each line with two persistent counters. A blank line starts the next elf
(`elf_id++`). Any other line becomes a row `(elf_id, item_id, calories)` of the table
`input`, and then `item_id++`. Once the input is exhausted, the program runs one query:
the sum of the three largest per-elf calorie sums. It prints the result column's name
and its value.

This project models that pipeline and proves what it computes:

- `LineReader` covers the line splitting. It has the pure specification `NextLine` /
  `Lines` and the imperative `ChompInPlace`, which overwrites the newline in a
  NUL-terminated array as `_my_read_line` does. `ReadLine` is `my_read_line` over an
  in-memory stream.
- `Store` covers the table. `Database` is a class whose `rows` field only grows, through
  `Insert` (`my_sql_insert`).
- `Classifier` covers `my_process_line`. The `Accumulator` class holds the two
  counters. Its `ProcessLine` method updates them and appends to the table. The method
  is proved against the specification function `RowsOf`, which gives the table a
  sequence of lines produces.
- `Sums`, `TopK` and `Aggregate` give the meaning of the query:
  - group the rows by `elf_id` and sum each group;
  - order the sums descending and keep three;
  - sum those.

  Lemmas show the result is the largest sum of at most three group sums, and that it is
  reached. They also show it does not depend on tie order, group order or row order.
- `Program` covers the read loop of `main` and the query over the table it fills
  (`ReadAll`, `Solve`). `Answer` states the whole program's result for an input.
  `Report` models the two printed lines.
- `Scenarios` works the program out on concrete inputs.

## Model

| member | source | states |
|---|---|---|
| LineReader.FirstIndex | main.c:35 | the index found is the first occurrence of the character, or the length when there is none |
| LineReader.CString | main.c:35-36 | a C string is the prefix of the buffer before the first NUL; it holds no NUL and is followed by one when shorter than the buffer |
| LineReader.StripNewline | main.c:34-36 | the result is a prefix of the line and at most one character shorter |
| LineReader.StripNewlineRemovesOne | main.c:34-36 | a line ending in `'\n'` loses exactly that one newline |
| LineReader.StripNewlineKeepsOthers | main.c:34-36 | a line not ending in `'\n'` (the last line of an unterminated file, or an empty one) is returned unchanged |
| LineReader.CarriageReturnKept | main.c:34-36 | `"\r\n"` reads as the single non-blank line `"\r"`: only the newline is stripped |
| LineReader.ChompInPlace | main.c:34-36 | the buffer is unchanged except that the character before the first NUL becomes NUL when it is `'\n'`; as a C string it then holds exactly the stripped line |
| LineReader.GetLine | main.c:29-33 | `getline` fails exactly at end of input; otherwise it returns a non-empty raw line ending at the first newline (or at end of input) and the rest of the stream |
| LineReader.NextLine | main.c:27-39 | a line is read exactly when input remains; the line holds no newline and no NUL, and the rest of the stream is a strictly shorter suffix |
| LineReader.ReadLine | main.c:42-49 | `my_read_line` returns no line exactly at end of input, and otherwise the line and rest that the specification `NextLine` gives |
| LineReader.RestStartsValid | main.c:29-33 | the stream after a line still has no line starting with NUL |
| LineReader.NextLineSplits | main.c:27-39 | a NUL-free non-empty stream is the line, then a newline if one was there, then the rest |
| LineReader.Lines | main.c:134-139 | the loop reads no lines exactly from empty input, and no line it delivers contains a newline or a NUL |
| LineReader.LinesStep | main.c:134-139 | one iteration of the read loop takes the next line, in order, and leaves the lines of the rest |
| LineReader.LinesCons | main.c:134-139 | a line followed by a newline is read as that line, followed by the lines of what comes after |
| LineReader.CStringTerminated | main.c:35 | appending the terminating NUL does not change the C string |
| LineReader.CStringOfText | main.c:35 | NUL-free text is its own C string |
| LineReader.JoinLines | main.c:134-139 | writing lines out, each followed by a newline, is empty exactly for no lines and otherwise ends in a newline |
| LineReader.LinesOfJoin | main.c:134-139 | reading back lines written one per newline gives exactly those lines, including blank ones |
| LineReader.JoinStartsValid | main.c:134-139 | a NUL-free line and a newline in front of a valid stream keep it valid |
| LineReader.NextLineOfJoin | main.c:27-39 | the next line of a line followed by a newline is that line, and the rest follows |
| LineReader.JoinOfLines | main.c:134-139 | writing back the lines read from NUL-free input gives the input, with a newline added when the last one is missing |
| LineReader.TerminatedAfterLine | main.c:134-139 | giving the input a final newline only changes what follows its last line |
| LineReader.LineStartsValid | main.c:35 | the domain where `_my_read_line` is defined: exactly the inputs in which every position at the start of the text or after a newline holds something other than NUL |
| LineReader.NulFreeStartsValid | main.c:35 | NUL-free input has no line starting with NUL |
| LineReader.FinalNewlineOptional | main.c:28-36 | for every input read with defined behaviour, NULs inside lines included, an input ending in a newline yields no extra empty line: adding the missing final newline changes nothing |
| LineReader.LinesOfUnterminated | main.c:28-36 | for every input read with defined behaviour whose last character is not a newline, the lines are those of the same input with a newline added; NULs after a line's first character are allowed |
| LineReader.NewlineKeepsValid | main.c:35 | a newline added after a last character that is not one starts no line with NUL |
| LineReader.GetLineOfTerminated | main.c:29-33 | with a final newline added, `getline` returns a last raw line with that newline, and an earlier raw line unchanged with the newline added to the rest |
| LineReader.LastLineOfTerminated | main.c:34-36 | a last raw line without newline and the same raw line with one give the same line after `strlen` and the chomp, NUL or not |
| LineReader.LinesOfLastLine | main.c:28-36 | a final line without a newline is delivered unchanged |
| Store.ElfIds | main.c:132 | the elf ids present in a table are exactly those of its rows |
| Store.Database.constructor | main.c:132 | the freshly created table is empty |
| Store.Database.Insert | main.c:66-80 | inserting appends exactly one row with the given columns and changes no earlier row |
| Classifier.BlankCount | main.c:102-105 | the number of blank lines read, which is `elf_id` afterwards; never more than the lines read |
| Classifier.NonBlankCount | main.c:101-109 | the number of non-blank lines read, which is `item_id` afterwards; never more than the lines read |
| Classifier.NonBlank | main.c:104-107 | the non-blank lines number as counted, and none is blank |
| Classifier.RowsOf | main.c:100-111 | the table built from some lines holds one row per non-blank line |
| Classifier.Accumulator.constructor | main.c:101-102 | both counters start at zero, with no line seen |
| Classifier.Accumulator.ProcessLine | main.c:100-111 | a blank line increments `elf_id` by one and leaves `item_id` and the table alone; another line appends exactly the row under the current counters, increments `item_id` by one and leaves `elf_id`; afterwards the counters are the blank and non-blank counts of the lines seen, and the table is `RowsOf` them |
| Classifier.AppendLine | main.c:104-110 | one more line adds one to the blank count or to the non-blank count, and adds a row (the latter case) carrying the counts before it |
| Classifier.NoRowsIffAllBlank | main.c:104-107 | the table is empty exactly when every line is blank |
| Classifier.CountsConcat | main.c:104-110 | blank counts and non-blank lines of consecutive parts of the input add up |
| Classifier.BlankCountConcat | main.c:104-105 | the blank lines of consecutive parts of the input add up |
| Classifier.NonBlankConcat | main.c:106-109 | the non-blank lines of consecutive parts of the input are those of the first part, then those of the second |
| Classifier.NoBlankLines | main.c:104-110 | lines none of which is blank are all kept and leave `elf_id` at zero |
| Classifier.CountsPartition | main.c:104-110 | every line is counted exactly once, as blank or non-blank |
| Classifier.RowsAppendOnly | main.c:66-80 | the table after more lines extends the table before them: earlier rows are never changed or removed |
| Classifier.RowOfLine | main.c:102-107 | the row of a non-blank line sits at the position given by the non-blank lines before it; its elf_id is the number of blank lines before it and its item_id the number of non-blank lines before it |
| Classifier.ItemIdIsPosition | main.c:101-109 | `item_id` is never reset per group: the k-th row has item_id k, so item ids are distinct and increasing |
| Classifier.ElfIdsNonDecreasing | main.c:102-105 | elf_id never decreases along the table and never exceeds the number of blank lines read |
| Classifier.CaloriesAreNonBlankLines | main.c:107 | the calories column holds the non-blank lines, in input order |
| Classifier.TrailingBlankLineAddsNoRow | main.c:104-105 | a blank line at the end adds no row |
| Classifier.ElfIdsAppend | main.c:107 | inserting a row adds its elf id to the ids present and nothing else |
| Classifier.NoEmptyGroupsPrefix | main.c:102-105 | input with no empty group, cut after a non-blank line, still has no empty group |
| Classifier.NoDoubleBlank | main.c:102-105 | without empty groups every blank line follows a non-blank line |
| Classifier.RowOfGroup | main.c:102-107 | without empty groups, every group number up to the blank count has a row |
| Classifier.GroupIdsWithoutEmptyGroups | main.c:102-105 | without empty groups, the elf ids present are exactly 0 through the number of blank lines |
| Classifier.BlankRunSkipsId | main.c:102-105 | for every input, two blank lines in a row at position i open elf id (blank lines before i) + 1, and no row carries it |
| Classifier.LaterRowsLaterIds | main.c:102-107 | rows made from lines after a prefix of the input carry elf ids at least the number of blank lines in that prefix |
| Classifier.IdGap | main.c:102-105 | a table whose earlier rows have elf ids at most g and whose later rows have ids from g + 2 on has no row of elf g + 1 |
| Classifier.ConsecutiveBlankLinesSkipAnId | main.c:102-105 | an instance of BlankRunSkipsId: the input 1, blank, blank, 2 has rows of elves 0 and 2 only |
| Sums.SumByConcat | main.c:143 | a sum over a concatenation is the sum of the parts' sums |
| Sums.SumByPermutation | main.c:143 | a sum does not depend on the order of its terms |
| Sums.SumByPointwise | main.c:143 | summing a term-wise sum of two functions is the sum of the two sums |
| Sums.SumByCongruent | main.c:143 | functions that agree on every term give the same sum |
| Sums.SumByNonNegative | main.c:143 | a sum of non-negative terms is non-negative |
| Sums.SumByZero | main.c:143 | a sum of zero terms is zero |
| TopK.DescendingHeadIsMax | main.c:146 | the head of a descending sequence is at least each of its values |
| TopK.DescendingTail | main.c:146 | the tail of a descending sequence is descending |
| TopK.DescendingCons | main.c:146 | a value at least every element may be put in front of a descending sequence |
| TopK.InsertDescending | main.c:146 | inserting into a descending sequence keeps it descending and adds exactly that value |
| TopK.SortDescending | main.c:146 | `order by s desc` arranges the values in descending order, as a permutation |
| TopK.TopSum | main.c:146-147 | `order by s desc limit k` followed by `sum`: the sum of the first k values in descending order, which is the sum of all the values when there are at most k; maximality and attainment are TopSumMaximal and TopSumAchieved |
| TopK.SingleChoice | main.c:147 | any one value on its own is a choice of one value, summing to itself |
| TopK.SumOfPermutation | main.c:142 | permuted values have the same sum |
| TopK.SumOfNonNegative | main.c:142 | non-negative values have a non-negative sum |
| TopK.NonNegativeOfSubMultiset | main.c:147 | a choice from non-negative values is non-negative |
| TopK.DescendingPermutationUnique | main.c:146 | two descending arrangements of the same values are identical, so ties leave nothing to choose |
| TopK.SameTails | main.c:146 | removing the same head from two permutations of each other leaves permutations |
| TopK.TopSumPermutationInvariant | main.c:146-147 | the top-k sum depends only on the values, not on their order |
| TopK.TopSumOfAnyDescendingOrder | main.c:146-147 | any descending order of the values, however ties are arranged, gives the top-k sum from its first k elements |
| TopK.SumOfRemove | main.c:142 | taking one element out of a sequence takes its value out of the sum |
| TopK.PrefixSumCons | main.c:146-147 | the first k elements are the head and the first k-1 elements of the tail |
| TopK.ExchangeHead | main.c:146-147 | any choice from a non-negative descending sequence sums to at most its head plus a choice of one element fewer from its tail |
| TopK.DescendingRest | main.c:146 | the tail of a non-negative descending sequence is again non-negative and descending |
| TopK.PrefixSumMaximal | main.c:146-147 | no choice of at most k values sums to more than the first k elements of the descending order |
| TopK.TopSumMaximal | main.c:146-147 | every choice of at most k of the values sums to at most the top-k sum |
| TopK.TopSumAchieved | main.c:146-147 | the top-k sum is the sum of some choice of min(k, n) of the values |
| TopK.TopSumAtMostTotal | main.c:146-147 | with non-negative values the top-k sum is at most the total, and equals it when there are at most k values |
| Aggregate.NumeralValue | main.c:132 | the integer that the `calories integer` column stores for a numeral's text, which `sum` adds: the value the numeral spells, never negative; NumeralOfDecimal reads Decimal back through it |
| Aggregate.Numeric | main.c:132 | the domain of `Query`: every row's calories text, in any order, is a numeral the integer column stores as an integer |
| Aggregate.Decimal | main.c:92 | the text printed for a value is a decimal numeral |
| Aggregate.NumeralOfDecimal | main.c:92 | reading back the printed numeral gives the value |
| Aggregate.InsertId | main.c:145 | adding an id to an increasing list of ids keeps it increasing, with exactly that id added |
| Aggregate.IncreasingCons | main.c:145 | an id smaller than every id of an increasing list may be put in front |
| Aggregate.IncreasingTail | main.c:145 | the tail of an increasing list is increasing and above its head |
| Aggregate.GroupIds | main.c:145 | `group by elf_id` makes one group per elf id present in the table, each once |
| Aggregate.GroupSum | main.c:143-145 | `sum(calories)` over the rows of one elf: never negative, and zero for an elf id no row carries |
| Aggregate.AbsentGroupSumsToZero | main.c:143-145 | an elf id no row carries sums to zero |
| Aggregate.GroupSums | main.c:143-145 | the column `s` of the inner select: as many group sums as distinct elf ids in the table, each the GroupSum of its id (SumsFor) |
| Aggregate.Total | main.c:143 | `sum(calories)` over the whole table, never negative; the group sums add up to it (GroupSumsPartitionTotal) |
| Aggregate.SumsFor | main.c:143-145 | each group contributes `sum(calories)` over exactly its own rows |
| Aggregate.Query | main.c:142-148 | the query yields NULL exactly when the table is empty |
| Aggregate.IncreasingHeadIsMin | main.c:145 | the head of an increasing list is its smallest id |
| Aggregate.TailMembers | main.c:145 | the tail of an increasing list holds every id but the head |
| Aggregate.CardOfIncreasing | main.c:145 | an increasing list holds as many distinct ids as its length |
| Aggregate.IncreasingUnique | main.c:145 | two increasing lists of the same ids are the same list |
| Aggregate.GroupSumsNonNegative | main.c:143 | every group sum of numeric calories is non-negative |
| Aggregate.SumsForTotal | main.c:143-145 | the sums for distinct groups add up to the calories of the rows in those groups |
| Aggregate.GroupSumsPartitionTotal | main.c:143-145 | the group sums add up to the total of all calories |
| Aggregate.QueryIsMaximal | main.c:142-148 | no choice of at most three group sums exceeds the result |
| Aggregate.QueryIsAchieved | main.c:142-148 | the result is the sum of min(3, g) of the group sums, g the number of elf ids present |
| Aggregate.QueryNonNegative | main.c:142-148 | the result is non-negative |
| Aggregate.QueryAtLeastEachGroup | main.c:142-148 | the result is at least every single group sum |
| Aggregate.QueryAtMostTotal | main.c:142-148 | the result is at most the total of all calories, and equals it when at most three elf ids are present |
| Aggregate.QueryTieOrderIrrelevant | main.c:146-147 | every way `order by s desc` may arrange equal sums gives the same result |
| Aggregate.QueryGroupOrderIrrelevant | main.c:145-147 | the result depends only on the group sums, not on the order `group by` produces them in |
| Aggregate.RowOrderIrrelevant | main.c:143-147 | reordering the rows of the table changes neither the group sums nor the result |
| Aggregate.SameRows | main.c:143-145 | a table with the same rows in another order holds no other elf id and no non-numeric calories |
| Aggregate.SameGroupIds | main.c:145 | tables with the same elf ids group the same way |
| Program.WellFormed | main.c:134-139 | the domain of `Answer` and `Solve`: the input is read with defined behaviour (no line starts with NUL), and every non-blank line is a numeral, so every row it stores is numeric |
| Program.RowsAreNumeric | main.c:132 | when every non-blank line is a numeral, every row's calories are numeric |
| Program.TotalOfLines | main.c:143 | the table's total calories are the sum of the values of the non-blank lines |
| Program.Answer | main.c:128-148 | the query yields SQL NULL (`None`) exactly when every line is blank, and otherwise a non-negative value |
| Program.FewGroupsAnswer | main.c:142-148 | with at most three elves, the program's answer is the sum of every calorie line |
| Program.ReadAll | main.c:134-139 | the read loop leaves in the table exactly the rows of the input's lines, processed in order |
| Program.Solve | main.c:128-148 | filling the table from the input and querying it gives `Answer` of the input |
| Program.Report | main.c:91-92 | the two printed lines, each ending in a newline and free of NUL; ReportReadsBack reads them back |
| Program.AnswerUnterminated | main.c:128-148 | for every input read with defined behaviour, mid-line NULs included, a file whose last line lacks its newline gets the same answer as the file with the newline added |
| Program.ReportReadsBack | main.c:88-94 | the printed report reads back as the column name `sum(s)` and the value's numeral, which parses back to the value |
| Program.TwoLines | main.c:89-93 | two lines printed each with its newline read back as those two lines |
| Program.NumeralIsOneLine | main.c:92 | a printed numeral holds no newline and no NUL |
| Scenarios.ThreeElvesLines | main.c:134-139 | the three-elf file reads as its eight lines |
| Scenarios.OneSeparator | main.c:104-110 | one blank line between two parts adds one to the blank count and no line of its own |
| Scenarios.ThreeGroupsCounts | main.c:104-110 | three blank-free groups separated by two blank lines produce the groups' lines and two elf increments |
| Scenarios.ThreeElvesCounts | main.c:104-110 | the three-elf file has six calorie lines and two blank lines |
| Scenarios.ThreeElvesGroups | main.c:102-105 | the three-elf file yields elf ids 0, 1 and 2 |
| Scenarios.ThreeElvesSum | main.c:143 | the calorie lines of the three-elf file add up to 21 |
| Scenarios.ThreeElvesRows | main.c:107 | the three-elf file is numeric and fills the table |
| Scenarios.ThreeElvesUnterminated | main.c:128-148 | the file "1\n2\n\n3\n4\n5\n\n6", without a final newline, also gives the answer 21 |
| Scenarios.ThreeElvesText | main.c:134-139 | that file, NUL-free and not ending in a newline, is the three-elf file minus its final newline |
| Scenarios.JoinLinesConcat | main.c:134-139 | writing two runs of lines one after the other is writing their concatenation |
| Scenarios.ThreeElvesFacts | main.c:142-148 | the three-elf file has at most three elves and 21 calories in total |
| Scenarios.ThreeElves | main.c:128-148 | the groups 1+2, 3+4+5 and 6 give the answer 21 |
| Scenarios.OneElfLines | main.c:134-139 | the one-elf file reads as its three lines |
| Scenarios.OneElfCounts | main.c:104-110 | the one-elf file has no blank line |
| Scenarios.OneElfRows | main.c:107 | the one-elf file is numeric and fills the table |
| Scenarios.OneElfGroups | main.c:102-105 | the one-elf file yields only elf id 0 |
| Scenarios.OneElfSum | main.c:143 | the calorie lines of the one-elf file add up to 60 |
| Scenarios.OneElfUnterminated | main.c:128-148 | the file "10\n20\n30", without a final newline, also gives the answer 60 |
| Scenarios.OneElfFacts | main.c:142-148 | the one-elf file has one elf and 60 calories in total |
| Scenarios.OneElf | main.c:128-148 | a single elf carrying 10, 20 and 30 gives the answer 60 |
| Scenarios.EmptyInput | main.c:128-148 | an empty file gives an empty table, and the query yields NULL |

## Left out

- SQLite is a foreign library. Opening the database, preparing statements, binding,
  stepping, finalizing and `sqlite3_exec` (main.c:66-80, 84-95, 113-126) are replaced by
  the `Database` class and by `Query`, the meaning of the query's text.
- Files and memory are not modelled. The input is an in-memory character sequence.
  `fopen` (whose NULL result is unchecked), `getline`'s allocation, `free` and `fclose`
  (main.c:129, 138, 158) are left out.
- Calls with side effects stand inside `assert(...)`: `my_db_open` (main.c:131), and
  `sqlite3_prepare_v2` and `sqlite3_step` in `my_sql_insert` (main.c:68-74, 78). They are
  modelled as performed. With `NDEBUG` they would vanish: the database would stay
  unopened, no row would be inserted, and `stmt` would be used uninitialised. That build
  is not modelled.
- Output is modelled only for a non-NULL value (`Report`). `printf("%s\n", ...)` on the
  NULL text of an empty table is left out, as is the prepare-error branch (main.c:84-87).
  The row loop (main.c:89) and the inner column loop inside it (main.c:90-93) are modelled
  only for the query's single row of one column, which `Report` prints.
- `my_debug` (main.c:51-64) is never called. The commented-out `limit 1` query
  (main.c:150-156) and the disabled block (main.c:161-207) are dead code.
- SQLite type affinity is not modelled: the coercion of bound text to the `integer`
  column, and `sum` over non-numeric text. `Query`, `Answer` and `Solve` therefore
  require every stored calorie value to be a decimal numeral (`Numeric`, `WellFormed`).
- Accumulator.ProcessLine: the counters are unbounded `nat`. The overflow of the C `int`
  counters, and of SQLite's 64-bit `sum`, is not modelled.
- Lines: a raw line that starts with NUL makes `strlen` return 0, so `main.c:35` reads
  index -1, which is undefined behaviour. The model requires that no line starts with NUL
  (`LineStartsValid`). NULs elsewhere cut the line at the first NUL, as `strlen` does.
- Aggregate.GroupIds: SQL leaves the order of `group by` output unspecified. The model
  produces the groups in ascending elf id, and `QueryGroupOrderIrrelevant` and
  `QueryTieOrderIrrelevant` show the result does not depend on either order.
- Classifier.Accumulator.ProcessLine: `item_id` follows the code, a single counter over
  the whole input, not a per-group item number.
