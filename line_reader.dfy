/** The line reader: `getline` on the input stream followed by the removal of one
    trailing newline from the C string it returns (`_my_read_line`, `my_read_line`). */
module LineReader {
  import opened Wrappers

  const NUL: char := '\0'
  const NEWLINE: char := '\n'

  /** Index of the first occurrence of `c` in `s`, or `|s|` when there is none. */
  function FirstIndex(s: seq<char>, c: char): (i: nat)
    ensures i <= |s|
    ensures forall j :: 0 <= j < i ==> s[j] != c
    ensures i < |s| ==> s[i] == c
  {
    if s == [] then 0
    else if s[0] == c then 0
    else 1 + FirstIndex(s[1..], c)
  }

  /** The C string a NUL-terminated buffer holds: what `strlen` measures. */
  function CString(buf: seq<char>): (s: seq<char>)
    ensures s <= buf && NUL !in s
    ensures |s| < |buf| ==> buf[|s|] == NUL
  {
    buf[..FirstIndex(buf, NUL)]
  }

  /** Drops one trailing newline, if the string ends with one. */
  function StripNewline(line: seq<char>): (r: seq<char>)
    ensures r <= line && |line| <= |r| + 1
  {
    if |line| > 0 && line[|line| - 1] == NEWLINE then line[..|line| - 1] else line
  }

  /** `getline`: the next line of the stream with its newline, and the rest of the
      stream; `None` once the stream is exhausted. */
  function GetLine(stream: seq<char>): (r: Option<(seq<char>, seq<char>)>)
    ensures r.None? <==> stream == []
    ensures r.Some? ==>
      var (raw, rest) := r.value;
      raw != [] && raw + rest == stream &&
      NEWLINE !in raw[..|raw| - 1] &&
      (raw[|raw| - 1] == NEWLINE || rest == [])
  {
    if stream == [] then None
    else
      var n := FirstIndex(stream, NEWLINE);
      var k := if n < |stream| then n + 1 else |stream|;
      assert stream[..k] + stream[k..] == stream;
      assert stream[..k][..k - 1] == stream[..k - 1];
      Some((stream[..k], stream[k..]))
  }

  /** No line of `s` starts with a NUL byte; for such a line `strlen` is 0 and the
      reader would index the byte before the buffer. */
  predicate LineStartsValid(s: seq<char>)
    ensures LineStartsValid(s) <==>
      forall i :: 0 <= i < |s| && LineStart(s, i) ==> s[i] != NUL
  {
    StartsCharacterised(s);
    (s == [] || s[0] != NUL) && forall i :: 0 <= i < |s| ==> !NulAfterNewline(s, i)
  }

  /** Position `i` of `s` begins a line: it is the first, or follows a newline. */
  predicate LineStart(s: seq<char>, i: int)
    requires 0 <= i < |s|
  {
    i == 0 || s[i - 1] == NEWLINE
  }

  /** Valid line starts, as a position test: every position at the start of the text
      or after a newline holds something other than NUL. */
  lemma StartsCharacterised(s: seq<char>)
    ensures ((s == [] || s[0] != NUL) && forall i :: 0 <= i < |s| ==> !NulAfterNewline(s, i)) <==>
      forall i :: 0 <= i < |s| && LineStart(s, i) ==> s[i] != NUL
  {
    if s != [] {
      assert LineStart(s, 0);
    }
    if (s == [] || s[0] != NUL) && forall i :: 0 <= i < |s| ==> !NulAfterNewline(s, i) {
      forall i | 0 <= i < |s| && LineStart(s, i) ensures s[i] != NUL {
        if i > 0 {
          assert !NulAfterNewline(s, i - 1);
        }
      }
    }
    if forall i :: 0 <= i < |s| && LineStart(s, i) ==> s[i] != NUL {
      forall i | 0 <= i < |s| ensures !NulAfterNewline(s, i) {
        if i < |s| - 1 && s[i] == NEWLINE {
          assert LineStart(s, i + 1);
        }
      }
    }
  }

  /** Position `i` of `s` holds a newline and the next position a NUL. */
  predicate NulAfterNewline(s: seq<char>, i: int)
  {
    0 <= i < |s| - 1 && s[i] == NEWLINE && s[i + 1] == NUL
  }

  /** `my_read_line`: the next line as a C string without its trailing newline, and
      the rest of the stream; `None` at end of input. */
  function NextLine(stream: seq<char>): (r: Option<(string, seq<char>)>)
    requires stream == [] || stream[0] != NUL
    ensures r.None? <==> stream == []
    ensures r.Some? ==> NEWLINE !in r.value.0 && NUL !in r.value.0
    ensures r.Some? ==> |r.value.1| < |stream| && r.value.1 == stream[|stream| - |r.value.1|..]
    ensures r.Some? && LineStartsValid(stream) ==> LineStartsValid(r.value.1)
  {
    match GetLine(stream)
    case None => None
    case Some((raw, rest)) =>
      var c := CString(raw);
      assert NEWLINE !in StripNewline(c) by {
        if |c| == |raw| {
          assert c == raw;
          assert StripNewline(c) == raw[..|raw| - 1] || rest == [];
        } else {
          assert c <= raw[..|raw| - 1];
        }
      }
      assert rest == stream[|raw|..];
      RestStartsValid(stream, raw, rest);
      Some((StripNewline(c), rest))
  }

  lemma RestStartsValid(stream: seq<char>, raw: seq<char>, rest: seq<char>)
    requires raw != [] && raw + rest == stream
    requires raw[|raw| - 1] == NEWLINE || rest == []
    ensures LineStartsValid(stream) ==> LineStartsValid(rest)
  {
    if LineStartsValid(stream) && rest != [] {
      assert !NulAfterNewline(stream, |raw| - 1);
      assert rest[0] == stream[|raw|];
      forall i | 0 <= i < |rest| ensures !NulAfterNewline(rest, i) {
        if 0 <= i < |rest| - 1 {
          assert !NulAfterNewline(stream, |raw| + i);
          assert stream[|raw| + i] == rest[i] && stream[|raw| + i + 1] == rest[i + 1];
        }
      }
    }
  }

  /** The lines of the input, in order, as the read loop of `main` receives them. */
  function Lines(input: seq<char>): (ls: seq<string>)
    requires LineStartsValid(input)
    ensures ls == [] <==> input == []
    ensures forall k :: 0 <= k < |ls| ==> NEWLINE !in ls[k] && NUL !in ls[k]
    decreases |input|
  {
    assert input == [] || input[0] != NUL;
    match NextLine(input)
    case None => []
    case Some((line, rest)) => [line] + Lines(rest)
  }

  /** One successful read takes the first of the lines off the stream. */
  lemma LinesStep(stream: seq<char>, line: string, rest: seq<char>)
    requires LineStartsValid(stream) && NextLine(stream) == Some((line, rest))
    ensures LineStartsValid(rest) && |rest| < |stream|
    ensures Lines(stream) == [line] + Lines(rest)
  {
  }

  /** Writes the lines back out, each followed by a newline. */
  function JoinLines(ls: seq<string>): (s: seq<char>)
    ensures ls == [] <==> s == []
    ensures s != [] ==> s[|s| - 1] == NEWLINE
  {
    if ls == [] then [] else ls[0] + [NEWLINE] + JoinLines(ls[1..])
  }

  /** Exactly one trailing newline is removed: whatever precedes it, even a carriage
      return or another newline, is kept. */
  lemma StripNewlineRemovesOne(line: seq<char>)
    ensures StripNewline(line + [NEWLINE]) == line
  {
    assert (line + [NEWLINE])[..|line|] == line;
  }

  /** A string that does not end with a newline is left as it is. */
  lemma StripNewlineKeepsOthers(line: seq<char>)
    requires line == [] || line[|line| - 1] != NEWLINE
    ensures StripNewline(line) == line
  {
  }

  /** The three properties in the contract of `FirstIndex` pin its result down. */
  lemma FirstIndexUnique(s: seq<char>, c: char, i: nat)
    requires i <= |s| && (i < |s| ==> s[i] == c)
    requires forall j :: 0 <= j < i ==> s[j] != c
    ensures FirstIndex(s, c) == i
  {
  }

  /** A NUL byte appended after the text does not change the C string. */
  lemma CStringTerminated(raw: seq<char>)
    ensures CString(raw + [NUL]) == CString(raw)
  {
    var i := FirstIndex(raw, NUL);
    var t := raw + [NUL];
    forall j | 0 <= j < i ensures t[j] != NUL {
      assert t[j] == raw[j];
    }
    FirstIndexUnique(t, NUL, i);
    assert t[..i] == raw[..i];
  }

  /** A C string of text with no NUL in it is the whole text. */
  lemma CStringOfText(raw: seq<char>)
    requires NUL !in raw
    ensures CString(raw) == raw
  {
    FirstIndexUnique(raw, NUL, |raw|);
  }

  /** On NUL-free input, a read returns the text up to the next newline and leaves
      exactly what follows that newline; a final line without newline is returned whole. */
  lemma NextLineSplits(stream: seq<char>)
    requires stream != [] && NUL !in stream
    ensures NextLine(stream).Some?
    ensures
      var (line, rest) := NextLine(stream).value;
      NUL !in rest &&
      (stream == line + [NEWLINE] + rest || (stream == line && rest == []))
  {
    var (raw, rest) := GetLine(stream).value;
    assert raw <= stream;
    CStringOfText(raw);
    if raw[|raw| - 1] == NEWLINE {
      assert raw == raw[..|raw| - 1] + [NEWLINE];
    }
    assert rest == stream[|raw|..];
  }

  /** A newline-terminated line followed by well-started text starts well. */
  lemma JoinStartsValid(line: string, tail: seq<char>)
    requires NUL !in line && LineStartsValid(tail)
    ensures LineStartsValid(line + [NEWLINE] + tail)
  {
    var s := line + [NEWLINE] + tail;
    assert s[0] != NUL by {
      if line != [] { assert s[0] == line[0]; }
    }
    forall i | 0 <= i < |s| ensures !NulAfterNewline(s, i) {
      if |line| + 1 <= i < |s| - 1 {
        var k := i - |line| - 1;
        assert !NulAfterNewline(tail, k);
        assert s[i] == tail[k] && s[i + 1] == tail[k + 1];
      } else if 0 <= i < |line| - 1 {
        assert s[i + 1] == line[i + 1];
      } else if i == |line| && tail != [] {
        assert s[i + 1] == tail[0];
      }
    }
  }

  /** Reading text that starts with a line and its newline returns that line and
      leaves the text after the newline. */
  lemma NextLineOfJoin(line: string, tail: seq<char>)
    requires NEWLINE !in line && NUL !in line
    ensures (line + [NEWLINE] + tail)[0] != NUL
    ensures NextLine(line + [NEWLINE] + tail) == Some((line, tail))
  {
    var s := line + [NEWLINE] + tail;
    var raw := line + [NEWLINE];
    forall j | 0 <= j < |line| ensures s[j] != NEWLINE {
      assert s[j] == line[j];
    }
    FirstIndexUnique(s, NEWLINE, |line|);
    assert s[..|line| + 1] == raw && s[|line| + 1..] == tail;
    assert GetLine(s) == Some((raw, tail));
    CStringOfText(raw);
    StripNewlineRemovesOne(line);
  }

  /** A line and its newline in front of well-started text put that line in front
      of the text's lines. */
  lemma LinesCons(line: string, tail: seq<char>)
    requires NEWLINE !in line && NUL !in line && LineStartsValid(tail)
    ensures LineStartsValid(line + [NEWLINE] + tail)
    ensures Lines(line + [NEWLINE] + tail) == [line] + Lines(tail)
  {
    JoinStartsValid(line, tail);
    NextLineOfJoin(line, tail);
  }

  /** Reading back the text that `JoinLines` writes gives the same lines. */
  lemma {:induction false} LinesOfJoin(ls: seq<string>)
    requires forall k :: 0 <= k < |ls| ==> NEWLINE !in ls[k] && NUL !in ls[k]
    ensures LineStartsValid(JoinLines(ls)) && Lines(JoinLines(ls)) == ls
  {
    if ls != [] {
      var s := JoinLines(ls);
      var tail := JoinLines(ls[1..]);
      LinesOfJoin(ls[1..]);
      assert s == ls[0] + [NEWLINE] + tail;
      JoinStartsValid(ls[0], tail);
      NextLineOfJoin(ls[0], tail);
      assert Lines(s) == [ls[0]] + Lines(tail);
      assert ls == [ls[0]] + ls[1..];
    }
  }

  /** The text with a newline added unless it is empty or already ends with one. */
  function Terminated(s: seq<char>): seq<char>
  {
    if s == [] || s[|s| - 1] == NEWLINE then s else s + [NEWLINE]
  }

  /** Text without NUL bytes has no line that starts with one. */
  lemma NulFreeStartsValid(s: seq<char>)
    requires NUL !in s
    ensures LineStartsValid(s)
  {
    forall i | 0 <= i < |s| ensures !NulAfterNewline(s, i) {
      if 0 <= i < |s| - 1 {
        assert s[i + 1] in s;
      }
    }
  }

  /** Writing back the lines of NUL-free input restores it, except that a final line
      without newline gains one: the reader treats both forms alike. */
  lemma {:induction false} JoinOfLines(input: seq<char>)
    requires NUL !in input
    ensures LineStartsValid(input)
    ensures JoinLines(Lines(input)) == Terminated(input)
    decreases |input|
  {
    NulFreeStartsValid(input);
    if input != [] {
      NextLineSplits(input);
      var next := NextLine(input).value;
      var line, rest := next.0, next.1;
      JoinOfLines(rest);
      var ls := Lines(input);
      assert ls == [line] + Lines(rest);
      assert ls[1..] == Lines(rest);
      assert JoinLines(ls) == line + [NEWLINE] + Terminated(rest);
      TerminatedAfterLine(input, line, rest);
    }
  }

  lemma TerminatedAfterLine(input: seq<char>, line: string, rest: seq<char>)
    requires input != [] && NEWLINE !in line
    requires input == line + [NEWLINE] + rest || (input == line && rest == [])
    ensures Terminated(input) == line + [NEWLINE] + Terminated(rest)
  {
    if input == line + [NEWLINE] + rest {
      if rest == [] {
        assert input == line + [NEWLINE];
      } else {
        assert input[|input| - 1] == rest[|rest| - 1];
        if rest[|rest| - 1] != NEWLINE {
          assert input + [NEWLINE] == line + [NEWLINE] + (rest + [NEWLINE]);
        }
      }
    } else {
      assert line[|line| - 1] != NEWLINE;
      assert line + [NEWLINE] + rest == line + [NEWLINE];
    }
  }

  /** A last line needs no newline: adding one does not change the lines read. */
  lemma FinalNewlineOptional(input: seq<char>)
    requires LineStartsValid(input)
    ensures LineStartsValid(Terminated(input))
    ensures Lines(Terminated(input)) == Lines(input)
  {
    if input != [] && input[|input| - 1] != NEWLINE {
      LinesOfUnterminated(input);
    }
  }

  /** Input whose last line lacks its newline reads as if it had one, whatever NULs
      the lines hold after their first character. */
  lemma {:induction false} LinesOfUnterminated(input: seq<char>)
    requires LineStartsValid(input) && input != [] && input[|input| - 1] != NEWLINE
    ensures LineStartsValid(input + [NEWLINE])
    ensures Lines(input + [NEWLINE]) == Lines(input)
    decreases |input|
  {
    var t := input + [NEWLINE];
    NewlineKeepsValid(input);
    var (raw, rest) := GetLine(input).value;
    GetLineOfTerminated(input);
    var line := StripNewline(CString(raw));
    assert NextLine(input) == Some((line, rest));
    if rest == [] {
      LastLineOfTerminated(raw);
      assert NextLine(t) == Some((line, []));
    } else {
      assert rest[|rest| - 1] == input[|input| - 1];
      assert NextLine(t) == Some((line, rest + [NEWLINE]));
      LinesStep(input, line, rest);
      LinesStep(t, line, rest + [NEWLINE]);
      LinesOfUnterminated(rest);
    }
  }

  /** A newline after a last character that is not one keeps every line start valid. */
  lemma NewlineKeepsValid(input: seq<char>)
    requires LineStartsValid(input) && input != [] && input[|input| - 1] != NEWLINE
    ensures LineStartsValid(input + [NEWLINE])
  {
    var t := input + [NEWLINE];
    forall i | 0 <= i < |t| ensures !NulAfterNewline(t, i) {
      if i < |input| - 1 {
        assert !NulAfterNewline(input, i);
        assert t[i] == input[i] && t[i + 1] == input[i + 1];
      }
    }
  }

  /** `getline` on the input with a final newline added: the last raw line gains the
      newline, any earlier one is unchanged and leaves the rest with the newline. */
  lemma GetLineOfTerminated(input: seq<char>)
    requires input != [] && input[|input| - 1] != NEWLINE
    ensures
      var (raw, rest) := GetLine(input).value;
      (rest == [] ==>
         raw == input && NEWLINE !in raw &&
         GetLine(input + [NEWLINE]) == Some((raw + [NEWLINE], []))) &&
      (rest != [] ==> GetLine(input + [NEWLINE]) == Some((raw, rest + [NEWLINE])))
  {
    var t := input + [NEWLINE];
    var n := FirstIndex(input, NEWLINE);
    if n < |input| {
      FirstIndexUnique(t, NEWLINE, n);
      assert t[..n + 1] == input[..n + 1];
      assert t[n + 1..] == input[n + 1..] + [NEWLINE];
    } else {
      FirstIndexUnique(t, NEWLINE, |input|);
      assert t[..|t|] == t && input[..|input|] == input;
    }
  }

  /** A last raw line read with or without a newline gives the same line. */
  lemma LastLineOfTerminated(raw: seq<char>)
    requires NEWLINE !in raw
    ensures StripNewline(CString(raw + [NEWLINE])) == StripNewline(CString(raw))
  {
    var t := raw + [NEWLINE];
    if NUL in raw {
      var i := FirstIndex(raw, NUL);
      FirstIndexUnique(t, NUL, i);
      assert t[..i] == raw[..i];
    } else {
      CStringOfText(t);
      CStringOfText(raw);
      StripNewlineRemovesOne(raw);
      StripNewlineKeepsOthers(raw);
    }
  }

  /** A last line without a newline is read whole. */
  lemma LinesOfLastLine(line: string)
    requires line != [] && NEWLINE !in line && NUL !in line
    ensures LineStartsValid(line) && Lines(line) == [line]
  {
    NulFreeStartsValid(line);
    FinalNewlineOptional(line);
    LinesCons(line, []);
    assert line + [NEWLINE] + [] == Terminated(line);
  }

  /** A carriage return before the newline stays in the line, which is then not blank. */
  lemma CarriageReturnKept()
    ensures LineStartsValid("\r\n") && Lines("\r\n") == ["\r"]
  {
    LinesOfJoin(["\r"]);
    assert JoinLines(["\r"]) == "\r\n";
  }

  /** The buffer rewrite of `_my_read_line`: when the last byte of the C string is a
      newline it is overwritten with NUL, which shortens the string by that byte. */
  method ChompInPlace(buf: array<char>)
    requires NUL in buf[..] && buf[0] != NUL
    modifies buf
    ensures CString(buf[..]) == StripNewline(CString(old(buf[..])))
    ensures var n := FirstIndex(old(buf[..]), NUL);
      buf[..] == if old(buf[..])[n - 1] == NEWLINE then old(buf[..])[n - 1 := NUL] else old(buf[..])
  {
    ghost var before := buf[..];
    var n := FirstIndex(buf[..], NUL);
    assert n < buf.Length;
    assert n > 0;
    if buf[n - 1] == NEWLINE {
      buf[n - 1] := NUL;
      assert FirstIndex(buf[..], NUL) == n - 1 by {
        forall j | 0 <= j < n - 1 ensures buf[..][j] != NUL {
          assert buf[..][j] == before[j];
        }
      }
      assert buf[..][..n - 1] == before[..n - 1];
    }
  }

  /** `my_read_line`: `getline` into a fresh NUL-terminated buffer, then the newline
      is chomped in place. */
  method ReadLine(stream: seq<char>) returns (line: Option<string>, rest: seq<char>)
    requires stream == [] || stream[0] != NUL
    ensures line.None? <==> NextLine(stream).None?
    ensures line.None? ==> rest == stream
    ensures line.Some? ==> NextLine(stream) == Some((line.value, rest))
  {
    match GetLine(stream)
    case None =>
      line, rest := None, stream;
    case Some((raw, after)) =>
      var buf := new char[|raw| + 1](i requires 0 <= i < |raw| + 1 => if i < |raw| then raw[i] else NUL);
      assert buf[..] == raw + [NUL];
      assert buf[..][|raw|] == NUL;
      assert buf[0] == raw[0] == stream[0];
      ChompInPlace(buf);
      CStringTerminated(raw);
      line, rest := Some(CString(buf[..])), after;
  }
}
