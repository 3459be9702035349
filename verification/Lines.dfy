/** Line handling of the event files: splitLines, the scanner's lines, blank lines. */
module Lines {

  /** The spaces bytes.TrimSpace removes. */
  predicate IsSpace(c: char) {
    || c in " \t\n\r" || c == '\U{0B}' || c == '\U{0C}' || c == '\U{85}' || c == '\U{A0}'
    || c == '\U{1680}' || '\U{2000}' <= c <= '\U{200A}' || c == '\U{2028}' || c == '\U{2029}'
    || c == '\U{202F}' || c == '\U{205F}' || c == '\U{3000}'
  }

  function TrimLeft(s: string): string {
    if s != "" && IsSpace(s[0]) then TrimLeft(s[1..]) else s
  }

  function TrimRight(s: string): string {
    if s != "" && IsSpace(s[|s| - 1]) then TrimRight(s[..|s| - 1]) else s
  }

  function TrimSpace(s: string): string {
    TrimRight(TrimLeft(s))
  }

  predicate AreSpaces(s: string) {
    forall c :: c in s ==> IsSpace(c)
  }

  /** Trimming takes away exactly the space around a text. */
  lemma TrimExact(before: string, text: string, after: string)
    requires AreSpaces(before) && AreSpaces(after)
    requires text == "" || (!IsSpace(text[0]) && !IsSpace(text[|text| - 1]))
    ensures TrimSpace(before + text + after) == text
  {
    assert before + text + after == before + (text + after);
    TrimLeftOf(before, text + after);
    if text == "" {
      assert text + after == after && after + "" == after;
      TrimLeftOf(after, "");
    } else {
      TrimRightOf(text, after);
    }
  }

  lemma {:induction false} TrimLeftOf(before: string, rest: string)
    requires AreSpaces(before)
    ensures TrimLeft(before + rest) == TrimLeft(rest)
  {
    if before == "" {
      assert before + rest == rest;
    } else {
      assert (before + rest)[1..] == before[1..] + rest;
      TrimLeftOf(before[1..], rest);
    }
  }

  lemma {:induction false} TrimRightOf(text: string, after: string)
    requires AreSpaces(after) && text != "" && !IsSpace(text[|text| - 1])
    ensures TrimRight(text + after) == text
    decreases |after|
  {
    if after == "" {
      assert text + after == text;
    } else {
      assert (text + after)[..|text + after| - 1] == text + after[..|after| - 1];
      TrimRightOf(text, after[..|after| - 1]);
    }
  }

  predicate IsBlank(line: string) {
    |TrimSpace(line)| == 0
  }

  /** The lines of a file, each ended by a newline or by the end of the data. */
  function Split(data: string): (lines: seq<string>)
    ensures '\n' in data ==> lines != []
  {
    if data == "" then []
    else if '\n' !in data then [data]
    else
      var rest := Split(data[1..]);
      if data[0] == '\n' then [""] + rest else [[data[0]] + rest[0]] + rest[1..]
  }

  function JoinLines(lines: seq<string>): string {
    if lines == [] then "" else lines[0] + "\n" + JoinLines(lines[1..])
  }

  lemma {:induction false} SplitLine(line: string, rest: string)
    requires '\n' !in line
    ensures Split(line + "\n" + rest) == [line] + Split(rest)
  {
    var data := line + "\n" + rest;
    if line == "" {
      assert data[1..] == rest;
    } else {
      SplitLine(line[1..], rest);
      assert data[1..] == line[1..] + "\n" + rest;
      assert '\n' in data by { assert data[|line|] == '\n'; }
      assert line == [line[0]] + line[1..];
    }
  }

  lemma {:induction false} SplitLastLine(line: string)
    requires '\n' !in line
    ensures Split(line) == if line == "" then [] else [line]
  {
  }

  /** Splitting joined newline-free lines gives them back. */
  lemma {:induction false} SplitJoin(lines: seq<string>)
    requires forall l :: l in lines ==> '\n' !in l
    ensures Split(JoinLines(lines)) == lines
  {
    if lines != [] {
      SplitJoin(lines[1..]);
      SplitLine(lines[0], JoinLines(lines[1..]));
    }
  }

  predicate EndsInNewline(data: string) {
    data == "" || data[|data| - 1] == '\n'
  }

  function Completed(data: string): string {
    if EndsInNewline(data) then data else data + "\n"
  }

  lemma CompletedTail(data: string)
    requires '\n' in data
    ensures Completed(data) == [data[0]] + Completed(data[1..])
  {
    var tail := data[1..];
    assert data == [data[0]] + tail;
    if tail != "" { assert tail[|tail| - 1] == data[|data| - 1]; }
  }

  /** Joining the lines gives the data back, completed by a final newline where it had none. */
  lemma {:induction false} JoinSplit(data: string)
    ensures JoinLines(Split(data)) == Completed(data)
  {
    hide JoinLines;
    if data == "" {
      assert JoinLines([]) == "" by { NoLines(); }
    } else if '\n' !in data {
      JoinFirst(data, []);
      NoLines();
      assert [data] + [] == [data] && (data + "\n") + "" == data + "\n";
      assert data[|data| - 1] in data;
    } else {
      var c, tail := [data[0]], data[1..];
      JoinSplit(tail);
      CompletedTail(data);
      hide Completed;
      if data[0] == '\n' {
        JoinFirst("", Split(tail));
      } else {
        JoinLonger(c, Split(tail));
      }
    }
  }

  lemma NoLines()
    ensures JoinLines([]) == ""
  {
  }

  lemma Assoc(a: string, b: string, c: string)
    ensures (a + b) + c == a + (b + c)
  {
  }

  lemma JoinFirst(line: string, rest: seq<string>)
    ensures JoinLines([line] + rest) == (line + "\n") + JoinLines(rest)
  {
    assert ([line] + rest)[1..] == rest;
  }

  lemma JoinLonger(c: string, lines: seq<string>)
    requires lines != []
    ensures JoinLines([c + lines[0]] + lines[1..]) == c + JoinLines(lines)
  {
    hide JoinLines;
    var first, rest := lines[0], lines[1..];
    assert lines == [first] + rest;
    JoinFirst(first, rest);
    JoinFirst(c + first, rest);
    Assoc(c, first, "\n");
    Assoc(c, first + "\n", JoinLines(rest));
  }

  /** No line contains a newline. */
  lemma {:induction false} LinesHaveNoNewline(data: string)
    ensures forall l :: l in Split(data) ==> '\n' !in l
  {
    if data != "" {
      LinesHaveNoNewline(data[1..]);
    }
  }

  /** The lines are the only newline-free texts that, each ended by a newline, make up the completed data. */
  lemma SplitExact(data: string, lines: seq<string>)
    ensures lines == Split(data) <==> (forall l :: l in lines ==> '\n' !in l) && JoinLines(lines) == Completed(data)
  {
    hide Split, JoinLines;
    LinesHaveNoNewline(data);
    JoinSplit(data);
    SplitJoin(Split(data));
    if forall l :: l in lines ==> '\n' !in l {
      SplitJoin(lines);
    }
  }

  method SplitLines(data: string) returns (out: seq<string>)
    ensures out == Split(data)
  {
    hide Split;
    out := [];
    var start := 0;
    for i := 0 to |data|
      invariant 0 <= start <= i
      invariant '\n' !in data[start..i]
      invariant Split(data) == out + Split(data[start..])
    {
      if data[i] == '\n' {
        var line := data[start..i];
        assert data[start..] == line + "\n" + data[i + 1..];
        SplitLine(line, data[i + 1..]);
        out := out + [line];
        start := i + 1;
      }
    }
    assert data[start..|data|] == data[start..];
    SplitLastLine(data[start..]);
    if start < |data| {
      out := out + [data[start..]];
    }
  }

  /** bufio.ScanLines also drops one carriage return at the end of a line. */
  function DropCR(line: string): string {
    if line != "" && line[|line| - 1] == '\r' then line[..|line| - 1] else line
  }

  /** A line that ended in a carriage return and a newline loses both, and no other return is lost. */
  lemma DropCRExact(line: string)
    ensures DropCR(line + "\r") == line
    ensures (line == "" || line[|line| - 1] != '\r') ==> DropCR(line) == line
  {
  }

  function Scanned(lines: seq<string>): (r: seq<string>)
    ensures |r| == |lines| && forall i :: 0 <= i < |r| ==> r[i] == DropCR(lines[i])
  {
    seq(|lines|, i requires 0 <= i < |lines| => DropCR(lines[i]))
  }
}
