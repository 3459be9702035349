/**
 What rendered Confluence documents look like: tables, lists, quotations,
 headings and marks, read back from their text.
*/
module AdfText {
  import opened Adf
  import opened Lines
  import Strings = Text

  // ---------------------------------------------------------------- children

  lemma {:induction false} ChildTexts(nodes: seq<Node>)
    ensures |Texts(nodes)| == |nodes| && forall i :: 0 <= i < |nodes| ==> Texts(nodes)[i] == Text(nodes[i])
  {
    hide Text;
    if nodes != [] { ChildTexts(nodes[1..]); }
  }

  /** Concatenation keeps every text, in order. */
  lemma ConcatExact(a: seq<string>, text: string, b: seq<string>)
    ensures Concat(a + [text] + b) == Concat(a) + text + Concat(b)
    ensures Concat([]) == ""
  {
    ConcatConcat(a + [text], b);
    ConcatConcat(a, [text]);
    assert [text][1..] == [] && text + "" == text;
  }

  /** Which nodes are visited below a node, by its kind, and in which order. */
  lemma VisitedBelow(n: Node)
    ensures match n.kind
            case Table => Visited(n) == [n] + VisitedRows(n.content)
            case PlainText => Visited(n) == [n]
            case HardBreak => Visited(n) == [n]
            case Rule => Visited(n) == [n]
            case Media => Visited(n) == [n]
            case Mention => Visited(n) == [n]
            case Emoji => Visited(n) == [n]
            case InlineCard => Visited(n) == [n]
            case BlockCard => Visited(n) == [n]
            case Unsupported(_) => Visited(n) == [n]
            case _ => Visited(n) == [n] + VisitedAll(n.content)
  {
    assert [n] + [] == [n];
  }

  lemma {:induction false} VisitedInOrder(a: seq<Node>, n: Node, b: seq<Node>)
    ensures VisitedAll(a + [n] + b) == VisitedAll(a) + Visited(n) + VisitedAll(b)
    ensures VisitedAll([]) == []
    decreases |a|
  {
    hide Visited, VisitedCells;
    if a == [] {
      assert a + [n] + b == [n] + b && ([n] + b)[1..] == b;
    } else {
      assert (a + [n] + b)[1..] == a[1..] + [n] + b;
      VisitedInOrder(a[1..], n, b);
    }
  }

  /** In a table, only what stands in the cells of its rows is visited. */
  lemma {:induction false} RowsVisitedInOrder(a: seq<Node>, n: Node, b: seq<Node>)
    ensures VisitedRows(a + [n] + b) == VisitedRows(a) +
            (if n.kind == TableRow then VisitedCells(n.content) else []) + VisitedRows(b)
    ensures VisitedRows([]) == []
    decreases |a|
  {
    hide Visited, VisitedCells;
    if a == [] {
      assert a + [n] + b == [n] + b && ([n] + b)[1..] == b;
    } else {
      assert (a + [n] + b)[1..] == a[1..] + [n] + b;
      RowsVisitedInOrder(a[1..], n, b);
    }
  }

  lemma {:induction false} CellsVisitedInOrder(a: seq<Node>, n: Node, b: seq<Node>)
    ensures VisitedCells(a + [n] + b) == VisitedCells(a) + VisitedAll(n.content) + VisitedCells(b)
    ensures VisitedCells([]) == []
    decreases |a|
  {
    hide VisitedAll;
    if a == [] {
      assert a + [n] + b == [n] + b && ([n] + b)[1..] == b;
    } else {
      assert (a + [n] + b)[1..] == a[1..] + [n] + b;
      CellsVisitedInOrder(a[1..], n, b);
    }
  }

  /** A media node's attachment is its alt text, or else its id, if one of them is not empty. */
  lemma AttachmentOf(n: Node)
    ensures n.kind != Media ==> Ids([n]) == []
    ensures n.kind == Media && n.attrs.alt != "" ==> Ids([n]) == [n.attrs.alt]
    ensures n.kind == Media && n.attrs.alt == "" && n.attrs.id != "" ==> Ids([n]) == [n.attrs.id]
    ensures n.kind == Media && n.attrs.alt == "" && n.attrs.id == "" ==> Ids([n]) == []
  {
    IdsOfOne(n);
  }

  lemma {:induction false} TrimEndExact(text: string, tail: string, cutset: string)
    requires (forall c :: c in tail ==> c in cutset) && (text == "" || text[|text| - 1] !in cutset)
    ensures TrimEnd(text + tail, cutset) == text
    decreases |tail|
  {
    if tail == "" {
      assert text + tail == text;
    } else {
      var front := tail[..|tail| - 1];
      assert (text + tail)[..|text + tail| - 1] == text + front;
      TrimEndExact(text, front, cutset);
    }
  }

  /** A cell holds its children's texts, in order, without the newlines and blanks at the end. */
  lemma {:induction false} CellTexts(cells: seq<Node>)
    ensures |Cells(cells)| == |cells|
    ensures forall i :: 0 <= i < |cells| ==> Cells(cells)[i] == TrimEnd(Concat(Texts(cells[i].content)), "\n ")
  {
    hide Texts, TrimEnd, Concat;
    if cells != [] { CellTexts(cells[1..]); }
  }

  /** A table has one row per child of the kind, in order. */
  lemma {:induction false} RowsInOrder(a: seq<Node>, b: seq<Node>, row: Node)
    ensures TableRows(a + b) == TableRows(a) + TableRows(b)
    ensures TableRows([row]) == if row.kind == TableRow then [Cells(row.content)] else []
    ensures TableRows([]) == []
  {
    hide Cells;
    assert [row][1..] == [];
    if a == [] {
      assert a + b == b;
    } else {
      assert (a + b)[1..] == a[1..] + b;
      RowsInOrder(a[1..], b, row);
    }
  }

  // ------------------------------------------------------------------ tables

  function RowLine(cells: seq<string>): string {
    "|" + Row(cells)
  }

  function Padded(cells: seq<string>): (r: seq<string>)
    ensures |r| == |cells| && forall i :: 0 <= i < |r| ==> r[i] == " " + cells[i] + " "
  {
    seq(|cells|, i requires 0 <= i < |cells| => " " + cells[i] + " ")
  }

  lemma {:induction false} RowIsJoin(cells: seq<string>)
    ensures Row(cells) == Strings.Join(Padded(cells) + [""], "|")
  {
    if cells == [] {
      assert Padded(cells) + [""] == [""];
    } else {
      RowIsJoin(cells[1..]);
      var rest := Padded(cells[1..]) + [""];
      assert Padded(cells) + [""] == [" " + cells[0] + " "] + rest;
      Strings.JoinHead(" " + cells[0] + " ", rest, "|");
      assert " " + cells[0] + " |" == " " + cells[0] + " " + "|";
    }
  }

  /** The cells of a table line, between its vertical bars. */
  function ReadRow(line: string): seq<string> {
    var parts := Strings.Pieces(line, '|');
    if |parts| < 2 then []
    else seq(|parts| - 2, i requires 0 <= i < |parts| - 2 => Unpadded(parts[i + 1]))
  }

  function Unpadded(s: string): string {
    if |s| < 2 then s else s[1..|s| - 1]
  }

  lemma {:induction false} BarsInRow(cells: seq<string>)
    ensures multiset(Row(cells))['|'] >= |cells|
    ensures (exists i :: 0 <= i < |cells| && '|' in cells[i]) ==> multiset(Row(cells))['|'] > |cells|
  {
    if cells != [] {
      BarsInRow(cells[1..]);
      var first := " " + cells[0] + " |";
      assert multiset(Row(cells)) == multiset(first) + multiset(Row(cells[1..]));
      assert first == " " + cells[0] + " " + "|";
      assert multiset(first)['|'] == multiset(cells[0])['|'] + 1;
      if i :| 0 <= i < |cells| && '|' in cells[i] {
        if i > 0 { assert '|' in cells[1..][i - 1]; }
      }
    }
  }

  lemma RowPieces(cells: seq<string>)
    requires forall i :: 0 <= i < |cells| ==> '|' !in cells[i]
    ensures Strings.Pieces(RowLine(cells), '|') == [""] + (Padded(cells) + [""])
  {
    hide Strings.Pieces, Strings.Join, Row;
    RowIsJoin(cells);
    Strings.JoinHead("", Padded(cells) + [""], "|");
    Strings.PiecesOfJoin([""] + (Padded(cells) + [""]), '|');
    assert "" + "|" + Row(cells) == RowLine(cells);
  }

  /** A table line reads back as its cells exactly when no cell holds a vertical bar. */
  lemma RowReadsBackIff(cells: seq<string>)
    ensures |ReadRow(RowLine(cells))| >= |cells|
    ensures ReadRow(RowLine(cells)) == cells <==> forall i :: 0 <= i < |cells| ==> '|' !in cells[i]
  {
    hide Strings.Pieces, Row;
    var line := RowLine(cells);
    BarsInRow(cells);
    Strings.PieceCount(line, '|');
    assert multiset(line) == multiset("|") + multiset(Row(cells));
    if forall i :: 0 <= i < |cells| ==> '|' !in cells[i] {
      RowPieces(cells);
      forall i | 0 <= i < |cells| ensures Unpadded(" " + cells[i] + " ") == cells[i] {}
    }
  }

  function RowLines(rows: seq<seq<string>>): (r: seq<string>)
    ensures |r| == |rows| && forall i :: 0 <= i < |r| ==> r[i] == RowLine(rows[i])
  {
    seq(|rows|, i requires 0 <= i < |rows| => RowLine(rows[i]))
  }

  /** One dash cell per cell of the header row. */
  function SeparatorLine(header: seq<string>): string {
    "|" + Repeat("---|", |header|)
  }

  lemma {:induction false} RowsAreLines(rows: seq<seq<string>>)
    ensures Rows(rows) == JoinLines(RowLines(rows))
  {
    hide Row;
    if rows != [] {
      RowsAreLines(rows[1..]);
      assert RowLines(rows) == [RowLine(rows[0])] + RowLines(rows[1..]);
      JoinFirst(RowLine(rows[0]), RowLines(rows[1..]));
      assert RowLine(rows[0]) + "\n" == "|" + Row(rows[0]) + "\n";
    }
  }

  lemma {:induction false} JoinLinesConcat(a: seq<string>, b: seq<string>)
    ensures JoinLines(a + b) == JoinLines(a) + JoinLines(b)
  {
    if a == [] {
      assert a + b == b && JoinLines(a) + JoinLines(b) == JoinLines(b);
    } else {
      assert (a + b)[1..] == a[1..] + b;
      JoinLinesConcat(a[1..], b);
      assert (a[0] + "\n" + JoinLines(a[1..])) + JoinLines(b) == a[0] + "\n" + (JoinLines(a[1..]) + JoinLines(b));
    }
  }

  /** The lines of a table: the header row, the separator, the other rows, and an empty one. */
  function TableLines(rows: seq<seq<string>>): seq<string>
    requires rows != []
  {
    [RowLine(rows[0])] + [SeparatorLine(rows[0])] + RowLines(rows[1..]) + [""]
  }

  lemma OneLine(line: string)
    ensures JoinLines([line]) == line + "\n"
  {
    JoinFirst(line, []);
    assert [line] + [] == [line];
  }

  lemma TableIsLines(rows: seq<seq<string>>)
    requires rows != []
    ensures GfmTable(rows) == JoinLines(TableLines(rows))
  {
    hide JoinLines, Row, Repeat, Rows;
    var header, separator, others := [RowLine(rows[0])], [SeparatorLine(rows[0])], RowLines(rows[1..]);
    JoinLinesConcat(header + separator + others, [""]);
    JoinLinesConcat(header + separator, others);
    JoinLinesConcat(header, separator);
    OneLine("");
    OneLine(RowLine(rows[0]));
    OneLine(SeparatorLine(rows[0]));
    RowsAreLines(rows[..1]);
    assert RowLines(rows[..1]) == header;
    RowsAreLines(rows[1..]);
    assert "" + "\n" == "\n";
  }

  function Dashes(n: nat): seq<string> {
    seq(n, _ => "---")
  }

  lemma {:induction false} DashesAreJoin(n: nat)
    ensures Repeat("---|", n) == Strings.Join(Dashes(n) + [""], "|")
  {
    if n == 0 {
      assert Dashes(0) + [""] == [""];
    } else {
      DashesAreJoin(n - 1);
      assert Dashes(n) + [""] == ["---"] + (Dashes(n - 1) + [""]);
      Strings.JoinHead("---", Dashes(n - 1) + [""], "|");
      assert "---|" == "---" + "|";
    }
  }

  /** A separator has a dash cell for each header cell. */
  lemma SeparatorPieces(header: seq<string>)
    ensures Strings.Pieces(SeparatorLine(header), '|') == [""] + (Dashes(|header|) + [""])
  {
    hide Strings.Pieces, Strings.Join, Repeat;
    var n := |header|;
    DashesAreJoin(n);
    Strings.JoinHead("", Dashes(n) + [""], "|");
    Strings.PiecesOfJoin([""] + (Dashes(n) + [""]), '|');
    assert "" + "|" + Repeat("---|", n) == SeparatorLine(header);
  }

  /** Text written in lines has a line per newline. */
  lemma {:induction false} LineCount(data: string)
    requires EndsInNewline(data)
    ensures |Split(data)| == multiset(data)['\n']
  {
    if data != "" {
      assert data == [data[0]] + data[1..];
      assert data[|data| - 1] == '\n';
      LineCount(data[1..]);
    }
  }

  predicate HasNewline(rows: seq<seq<string>>) {
    exists i, k :: 0 <= i < |rows| && 0 <= k < |rows[i]| && '\n' in rows[i][k]
  }

  predicate HasBar(rows: seq<seq<string>>) {
    exists i, k :: 0 <= i < |rows| && 0 <= k < |rows[i]| && '|' in rows[i][k]
  }

  lemma {:induction false} NewlinesInRow(cells: seq<string>)
    ensures '\n' in Row(cells) <==> exists k :: 0 <= k < |cells| && '\n' in cells[k]
  {
    if cells != [] {
      NewlinesInRow(cells[1..]);
      assert forall k :: 1 <= k < |cells| ==> cells[k] == cells[1..][k - 1];
      assert Row(cells) == " " + cells[0] + " |" + Row(cells[1..]);
    }
  }

  lemma {:induction false} NewlinesInLines(lines: seq<string>)
    ensures multiset(JoinLines(lines))['\n'] >= |lines|
    ensures (exists i :: 0 <= i < |lines| && '\n' in lines[i]) ==> multiset(JoinLines(lines))['\n'] > |lines|
    ensures EndsInNewline(JoinLines(lines))
  {
    if lines != [] {
      NewlinesInLines(lines[1..]);
      var rest := JoinLines(lines[1..]);
      assert JoinLines(lines) == lines[0] + "\n" + rest;
      assert multiset(JoinLines(lines)) == multiset(lines[0]) + multiset("\n") + multiset(rest);
      assert forall i :: 1 <= i < |lines| ==> lines[i] == lines[1..][i - 1];
    }
  }

  lemma {:induction false} NoNewlineInDashes(n: nat)
    ensures '\n' !in Repeat("---|", n)
  {
    if n > 0 { NoNewlineInDashes(n - 1); }
  }

  /** Reading a table's text: the line after the first one and the last one are no rows. */
  function ReadTable(text: string): seq<seq<string>> {
    var lines := Split(text);
    if |lines| < 3 then []
    else [ReadRow(lines[0])] + seq(|lines| - 3, i requires 0 <= i < |lines| - 3 => ReadRow(lines[i + 2]))
  }

  /** Without newlines in cells, the text's lines are the table's. */
  lemma TableSplit(rows: seq<seq<string>>)
    requires rows != []
    ensures !HasNewline(rows) ==> Split(GfmTable(rows)) == TableLines(rows)
    ensures HasNewline(rows) ==> |Split(GfmTable(rows))| > |rows| + 2
  {
    hide JoinLines, Row, GfmTable, Split, Repeat;
    var lines := TableLines(rows);
    TableIsLines(rows);
    NewlinesInLines(lines);
    LineCount(GfmTable(rows));
    assert |lines| == |rows| + 2;
    forall i | 0 <= i < |rows| ensures '\n' in RowLine(rows[i]) <==>
      exists k :: 0 <= k < |rows[i]| && '\n' in rows[i][k] {
      NewlinesInRow(rows[i]);
    }
    if HasNewline(rows) {
      var i, k :| 0 <= i < |rows| && 0 <= k < |rows[i]| && '\n' in rows[i][k];
      assert lines[if i == 0 then 0 else i + 1] == RowLine(rows[i]);
    } else {
      NoNewlineInDashes(|rows[0]|);
      forall l | l in lines ensures '\n' !in l {}
      SplitJoin(lines);
    }
  }

  /** A table reads back from its text exactly when no cell holds a newline or a vertical bar. */
  lemma TableReadsBackIff(rows: seq<seq<string>>)
    requires rows != []
    ensures ReadTable(GfmTable(rows)) == rows <==> !HasNewline(rows) && !HasBar(rows)
  {
    hide JoinLines, Row, GfmTable, Split, ReadRow, RowLine;
    TableSplit(rows);
    forall i | 0 <= i < |rows|
      ensures ReadRow(RowLine(rows[i])) == rows[i] <==> forall k :: 0 <= k < |rows[i]| ==> '|' !in rows[i][k]
    {
      RowReadsBackIff(rows[i]);
    }
    if !HasNewline(rows) {
      ReadsItsLines(rows);
      var read := ReadTable(GfmTable(rows));
      hide ReadTable;
      if !HasBar(rows) {
        assert read == rows;
      } else {
        var i, k :| 0 <= i < |rows| && 0 <= k < |rows[i]| && '|' in rows[i][k];
        assert read[i] != rows[i];
      }
    }
  }

  lemma ReadsItsLines(rows: seq<seq<string>>)
    requires rows != [] && Split(GfmTable(rows)) == TableLines(rows)
    ensures |ReadTable(GfmTable(rows))| == |rows|
    ensures forall i :: 0 <= i < |rows| ==> ReadTable(GfmTable(rows))[i] == ReadRow(RowLine(rows[i]))
  {
    hide GfmTable, Split, ReadRow, RowLine, SeparatorLine;
    var read, lines := ReadTable(GfmTable(rows)), TableLines(rows);
    forall i | 0 <= i < |rows| ensures read[i] == ReadRow(RowLine(rows[i])) {
      if i > 0 { assert lines[i + 1] == RowLine(rows[i]); }
    }
  }

  /** The text of a table node: nothing without rows, else the table of its rows. */
  lemma TableText(n: Node)
    requires n.kind == Table
    ensures var rows := TableRows(n.content);
            if rows == [] then Text(n) == ""
            else
              && (ReadTable(Text(n)) == rows <==> !HasNewline(rows) && !HasBar(rows))
              && (!HasNewline(rows) ==> Split(Text(n)) == TableLines(rows))
  {
    var rows := TableRows(n.content);
    if rows != [] {
      TableReadsBackIff(rows);
      TableSplit(rows);
    }
    hide TableRows, ReadTable, Split;
  }

  /** A vertical bar in a cell makes two cells of it. */
  lemma BarSplitsCell()
    ensures ReadTable(GfmTable([["a|b"]])) != [["a|b"]]
  {
    hide ReadTable, GfmTable;
    var rows := [["a|b"]];
    assert rows[0][0][1] == '|';
    assert '|' in rows[0][0];
    assert HasBar(rows);
    TableReadsBackIff([["a|b"]]);
  }

  // --------------------------------------------------- lists and quotations

  function Bullet(kind: Kind): string {
    if kind == OrderedList then "1. " else "- "
  }

  /** One line per item: its bullet and its text without the newlines and blanks at the end. */
  function ItemLines(texts: seq<string>, bullet: string): (r: seq<string>)
    ensures |r| == |texts| && forall i :: 0 <= i < |r| ==> r[i] == bullet + TrimEnd(texts[i], "\n ")
  {
    seq(|texts|, i requires 0 <= i < |texts| => bullet + TrimEnd(texts[i], "\n "))
  }

  lemma {:induction false} ItemsAreLines(texts: seq<string>, bullet: string)
    ensures Items(texts, bullet) == JoinLines(ItemLines(texts, bullet))
  {
    hide TrimEnd;
    if texts != [] {
      ItemsAreLines(texts[1..], bullet);
      assert ItemLines(texts, bullet) == [ItemLines(texts, bullet)[0]] + ItemLines(texts[1..], bullet);
      JoinFirst(ItemLines(texts, bullet)[0], ItemLines(texts[1..], bullet));
    }
  }

  /** A list is its items' lines and an empty one; with items of one line each, those are the text's lines. */
  lemma ListText(n: Node)
    requires n.kind == BulletList || n.kind == OrderedList
    ensures var lines := ItemLines(Texts(n.content), Bullet(n.kind)) + [""];
            && |lines| == |n.content| + 1
            && Text(n) == JoinLines(lines)
            && ((forall l :: l in lines ==> '\n' !in l) ==> Split(Text(n)) == lines)
  {
    hide TrimEnd, JoinLines, Split, Texts;
    var items := ItemLines(Texts(n.content), Bullet(n.kind));
    ChildTexts(n.content);
    ItemsAreLines(Texts(n.content), Bullet(n.kind));
    JoinLinesConcat(items, [""]);
    OneLine("");
    assert "" + "\n" == "\n";
    if forall l :: l in items + [""] ==> '\n' !in l { SplitJoin(items + [""]); }
  }

  function QuoteLines(lines: seq<string>): (r: seq<string>)
    ensures |r| == |lines| && forall i :: 0 <= i < |r| ==> r[i] == "> " + lines[i]
  {
    seq(|lines|, i requires 0 <= i < |lines| => "> " + lines[i])
  }

  lemma QuoteHead(line: string, rest: seq<string>)
    ensures JoinLines(QuoteLines([line] + rest)) == ("> " + line + "\n") + JoinLines(QuoteLines(rest))
  {
    hide JoinLines;
    assert QuoteLines([line] + rest) == ["> " + line] + QuoteLines(rest);
    JoinFirst("> " + line, QuoteLines(rest));
  }

  lemma PiecesUnfolded(s: string, sep: char)
    requires s != ""
    ensures var rest := Strings.Pieces(s[1..], sep);
            Strings.Pieces(s, sep) == if s[0] == sep then [""] + rest else [[s[0]] + rest[0]] + rest[1..]
  {
  }

  lemma {:induction false} QuotedPieces(s: string, line: string)
    ensures var parts := Strings.Pieces(s, '\n');
            Quoted(s, line) == JoinLines(QuoteLines([line + parts[0]] + parts[1..]))
    decreases s
  {
    hide Strings.Pieces, JoinLines, QuoteLines;
    var parts := Strings.Pieces(s, '\n');
    if s == "" {
      Strings.OnePiece("", '\n');
      QuoteHead(line, []);
      NoQuoteLines();
      assert line + "" == line && [line] + [] == [line];
    } else {
      var rest := Strings.Pieces(s[1..], '\n');
      PiecesUnfolded(s, '\n');
      if s[0] == '\n' {
        QuotedPieces(s[1..], "");
        QuoteHead(line, rest);
        assert "" + rest[0] == rest[0] && line + "" == line && ([""] + rest)[1..] == rest;
        assert [rest[0]] + rest[1..] == rest;
      } else {
        QuotedPieces(s[1..], line + [s[0]]);
        assert (line + [s[0]]) + rest[0] == line + ([s[0]] + rest[0]);
        assert ([[s[0]] + rest[0]] + rest[1..])[1..] == rest[1..];
      }
    }
  }

  lemma NoQuoteLines()
    ensures JoinLines(QuoteLines([])) == ""
  {
  }

  /** A blockquote marks every line of its text, without the newlines at the end, and ends with an empty line. */
  lemma QuoteText(n: Node)
    requires n.kind == Blockquote
    ensures var parts := Strings.Pieces(TrimEnd(Concat(Texts(n.content)), "\n"), '\n');
            Text(n) == JoinLines(QuoteLines(parts) + [""]) && Split(Text(n)) == QuoteLines(parts) + [""]
  {
    hide TrimEnd, Split, Texts, Concat, Strings.Pieces;
    var s := TrimEnd(Concat(Texts(n.content)), "\n");
    var parts := Strings.Pieces(s, '\n');
    QuotedPieces(s, "");
    assert "" + parts[0] == parts[0] && ["" + parts[0]] + parts[1..] == parts;
    hide JoinLines;
    JoinLinesConcat(QuoteLines(parts), [""]);
    OneLine("");
    assert "" + "\n" == "\n";
    Strings.PiecesHaveNoSep(s, '\n');
    forall l | l in QuoteLines(parts) + [""] ensures '\n' !in l {
      if l != "" {
        var i :| 0 <= i < |parts| && l == "> " + parts[i];
        assert parts[i] in parts;
      }
    }
    SplitJoin(QuoteLines(parts) + [""]);
  }

  // -------------------------------------------------------- headings and marks

  lemma {:induction false} Hashes(n: nat)
    ensures |Repeat("#", n)| == n && forall i :: 0 <= i < n ==> Repeat("#", n)[i] == '#'
  {
    if n > 0 { Hashes(n - 1); }
  }

  /** As many hash signs as the level, a blank, the children's texts, and an empty line. */
  lemma HeadingText(n: Node)
    requires n.kind == Heading && n.attrs.level >= 0
    ensures var level := n.attrs.level;
            && |Text(n)| > level && (forall i :: 0 <= i < level ==> Text(n)[i] == '#')
            && Text(n)[level..] == " " + Concat(Texts(n.content)) + "\n\n"
  {
    var hashes, inner := Repeat("#", n.attrs.level), Concat(Texts(n.content));
    Hashes(n.attrs.level);
    assert Text(n) == hashes + " " + inner + "\n\n" by { HeadingComposed(n); }
    hide Repeat, Concat, Texts, Text;
    assert hashes + " " + inner + "\n\n" == hashes + (" " + inner + "\n\n");
  }

  lemma HeadingComposed(n: Node)
    requires n.kind == Heading
    ensures Text(n) == Repeat("#", n.attrs.level) + " " + Concat(Texts(n.content)) + "\n\n"
  {
    hide Repeat, Concat, Texts;
  }

  function Opening(m: Mark): string {
    match m
    case Strong => "**"
    case Em => "*"
    case Code => "`"
    case Strike => "~~"
    case Link(_) => "["
    case OtherMark(_) => ""
  }

  function Closing(m: Mark): string {
    match m
    case Link(href) => "](" + href + ")"
    case _ => Opening(m)
  }

  function Openings(marks: seq<Mark>): string {
    if marks == [] then "" else Opening(marks[0]) + Openings(marks[1..])
  }

  /** The first mark closes last. */
  function Closings(marks: seq<Mark>): string {
    if marks == [] then "" else Closings(marks[1..]) + Closing(marks[0])
  }

  lemma {:induction false} MarkedText(text: string, marks: seq<Mark>)
    ensures Marked(text, marks) == Openings(marks) + text + Closings(marks)
  {
    if marks == [] {
      assert "" + text + "" == text;
    } else {
      MarkedText(text, marks[1..]);
      var o, c := Openings(marks[1..]), Closings(marks[1..]);
      MarkedOnce(text, marks);
      hide Openings, Closings, Opening, Closing, Marked;
      WrapAround(Opening(marks[0]), o, text, c, Closing(marks[0]));
      MarksUnfolded(marks);
    }
  }

  lemma MarksUnfolded(marks: seq<Mark>)
    requires marks != []
    ensures Openings(marks) == Opening(marks[0]) + Openings(marks[1..])
    ensures Closings(marks) == Closings(marks[1..]) + Closing(marks[0])
  {
  }

  lemma MarkedOnce(text: string, marks: seq<Mark>)
    requires marks != []
    ensures Marked(text, marks) == Opening(marks[0]) + Marked(text, marks[1..]) + Closing(marks[0])
  {
    var inner := Marked(text, marks[1..]);
    assert Marked(text, marks) == MarkedWith(inner, marks[0]);
    hide Marked;
    if marks[0].OtherMark? { assert "" + inner + "" == inner; }
    if marks[0].Link? {
      var href := marks[0].href;
      assert ("[" + inner + "](") + href + ")" == "[" + inner + ("](" + href + ")");
    }
  }

  lemma WrapAround(a: string, o: string, text: string, c: string, b: string)
    ensures a + (o + text + c) + b == (a + o) + text + (c + b)
  {
  }

  /** Marked text: the first mark is the outermost. */
  lemma PlainTextText(n: Node)
    requires n.kind == PlainText
    ensures Text(n) == Openings(n.marks) + n.text + Closings(n.marks)
  {
    MarkedText(n.text, n.marks);
  }

  // --------------------------------------------------------------- other kinds

  /** The remaining kinds: what stands around, or instead of, the children's texts. */
  lemma OtherTexts(n: Node)
    ensures var inner := Concat(Texts(n.content));
            match n.kind
            case Doc => Text(n) == inner
            case Paragraph => Text(n) == inner + "\n\n"
            case CodeBlock => Text(n) == "```" + n.attrs.language + "\n" + inner + "\n```\n\n"
            case ListItem => Text(n) == TrimEnd(inner, "\n ")
            case TableRow => Text(n) == TrimEnd(inner, "\n ")
            case TableHeader => Text(n) == TrimEnd(inner, "\n ")
            case TableCell => Text(n) == TrimEnd(inner, "\n ")
            case HardBreak => Text(n) == "\n"
            case Rule => Split(Text(n)) == ["", "---"]
            case Mention => Text(n) == "@" + n.attrs.text
            case Emoji => Text(n) == if n.attrs.text != "" then n.attrs.text else ":emoji:"
            case InlineCard => Text(n) == "[" + n.attrs.url + "](" + n.attrs.url + ")"
            case BlockCard => Text(n) == "[" + n.attrs.url + "](" + n.attrs.url + ")"
            case Media => Text(n) == ""
            case MediaGroup => Text(n) == ""
            case Unsupported(_) => Text(n) == ""
            case _ => true
  {
    RuleLines();
    hide Texts, Concat, Split, JoinLines, TrimEnd;
  }

  lemma RuleLines()
    ensures Split("\n---\n") == ["", "---"]
  {
    hide Split, JoinLines;
    SplitJoin(["", "---"]);
    JoinFirst("", ["---"]);
    OneLine("---");
    assert [""] + ["---"] == ["", "---"];
    assert ("" + "\n") + ("---" + "\n") == "\n---\n";
  }
}
