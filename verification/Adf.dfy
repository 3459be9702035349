/** Confluence documents (ADF) to markdown: tree rendering that collects attachments on the side. */
module Adf {
  import opened Wrappers

  datatype Kind =
    | Doc | Paragraph | Heading | PlainText | HardBreak | Rule | CodeBlock | Blockquote
    | BulletList | OrderedList | ListItem
    | Table | TableRow | TableHeader | TableCell | Media | MediaGroup | Mention | Emoji | InlineCard | BlockCard
    | Unsupported(name: string)

  datatype Mark = Strong | Em | Code | Strike | Link(href: string) | OtherMark(name: string)

  /** The attributes the renderer reads, each with the value it falls back to when absent or of another type. */
  datatype Attrs = Attrs(level: int, language: string, text: string, alt: string, id: string, url: string)

  datatype Node = Node(kind: Kind, text: string, marks: seq<Mark>, attrs: Attrs, content: seq<Node>)

  // ------------------------------------------------------------------ strings

  function Concat(parts: seq<string>): string {
    if parts == [] then "" else parts[0] + Concat(parts[1..])
  }

  /** strings.TrimRight with a cutset. */
  function TrimEnd(s: string, cutset: string): string {
    if s != "" && s[|s| - 1] in cutset then TrimEnd(s[..|s| - 1], cutset) else s
  }

  /** Every line of s, prefixed as a quotation. */
  function Quoted(s: string, line: string): string {
    if s == "" then "> " + line + "\n"
    else if s[0] == '\n' then "> " + line + "\n" + Quoted(s[1..], "")
    else Quoted(s[1..], line + [s[0]])
  }

  function Repeat(s: string, n: int): string
    decreases if n <= 0 then 0 else n
  {
    if n <= 0 then "" else s + Repeat(s, n - 1)
  }

  function Items(texts: seq<string>, bullet: string): string {
    if texts == [] then "" else bullet + TrimEnd(texts[0], "\n ") + "\n" + Items(texts[1..], bullet)
  }

  function MarkedWith(inner: string, m: Mark): string {
    match m
    case Strong => "**" + inner + "**"
    case Em => "*" + inner + "*"
    case Code => "`" + inner + "`"
    case Strike => "~~" + inner + "~~"
    case Link(href) => "[" + inner + "](" + href + ")"
    case OtherMark(_) => inner
  }

  function Marked(text: string, marks: seq<Mark>): string {
    if marks == [] then text else MarkedWith(Marked(text, marks[1..]), marks[0])
  }

  function Row(cells: seq<string>): string {
    if cells == [] then "" else " " + cells[0] + " |" + Row(cells[1..])
  }

  function Rows(rows: seq<seq<string>>): string {
    if rows == [] then "" else "|" + Row(rows[0]) + "\n" + Rows(rows[1..])
  }

  /** A GFM table: header row, separator row, remaining rows. */
  function GfmTable(rows: seq<seq<string>>): string {
    if rows == [] then ""
    else Rows(rows[..1]) + "|" + Repeat("---|", |rows[0]|) + "\n" + Rows(rows[1..]) + "\n"
  }

  // ---------------------------------------------------- text and attachments

  /** The kinds whose children are rendered one after another by the general renderer. */
  predicate VisitsChildren(kind: Kind) {
    match kind
    case Doc | Paragraph | Heading | CodeBlock | Blockquote | BulletList | OrderedList
       | ListItem | TableRow | TableHeader | TableCell | MediaGroup => true
    case _ => false
  }

  /** The markdown of a node whose children rendered to `inner`, or whose table cells to `rows`. */
  function Compose(n: Node, inner: seq<string>, rows: seq<seq<string>>): string {
    match n.kind
    case Doc => Concat(inner)
    case Paragraph => Concat(inner) + "\n\n"
    case Heading => Repeat("#", n.attrs.level) + " " + Concat(inner) + "\n\n"
    case PlainText => Marked(n.text, n.marks)
    case HardBreak => "\n"
    case Rule => "\n---\n"
    case CodeBlock => "```" + n.attrs.language + "\n" + Concat(inner) + "\n```\n\n"
    case Blockquote => Quoted(TrimEnd(Concat(inner), "\n"), "") + "\n"
    case BulletList => Items(inner, "- ") + "\n"
    case OrderedList => Items(inner, "1. ") + "\n"
    case ListItem | TableRow | TableHeader | TableCell => TrimEnd(Concat(inner), "\n ")
    case Table => GfmTable(rows)
    case Mention => "@" + n.attrs.text
    case Emoji => if n.attrs.text == "" then ":emoji:" else n.attrs.text
    case InlineCard | BlockCard => "[" + n.attrs.url + "](" + n.attrs.url + ")"
    case Media | MediaGroup | Unsupported(_) => ""
  }

  /** The text of a node, without any accumulator. */
  function Text(n: Node): string
    decreases n, 1
  {
    Compose(
      n, if VisitsChildren(n.kind) then Texts(n.content) else [],
      if n.kind == Table then TableRows(n.content) else [])
  }

  function Texts(nodes: seq<Node>): seq<string>
    decreases nodes, 0
  {
    if nodes == [] then [] else [Text(nodes[0])] + Texts(nodes[1..])
  }

  function Cells(cells: seq<Node>): seq<string>
    decreases cells, 0
  {
    if cells == [] then [] else [TrimEnd(Concat(Texts(cells[0].content)), "\n ")] + Cells(cells[1..])
  }

  function TableRows(rows: seq<Node>): seq<seq<string>>
    decreases rows, 0
  {
    if rows == [] then []
    else (if rows[0].kind == TableRow then [Cells(rows[0].content)] else []) + TableRows(rows[1..])
  }

  /** The nodes the general renderer is called on, in the order of the calls: the node before its descendants. */
  ghost function Visited(n: Node): seq<Node>
    decreases n, 1
  {
    [n] +
    if VisitsChildren(n.kind) then VisitedAll(n.content)
    else if n.kind == Table then VisitedRows(n.content)
    else []
  }

  ghost function VisitedAll(nodes: seq<Node>): seq<Node>
    decreases nodes, 0
  {
    if nodes == [] then [] else Visited(nodes[0]) + VisitedAll(nodes[1..])
  }

  /** In a table only the children of a row's cells are visited; other children of the table are skipped. */
  ghost function VisitedRows(rows: seq<Node>): seq<Node>
    decreases rows, 0
  {
    if rows == [] then []
    else (if rows[0].kind == TableRow then VisitedCells(rows[0].content) else []) + VisitedRows(rows[1..])
  }

  ghost function VisitedCells(cells: seq<Node>): seq<Node>
    decreases cells, 0
  {
    if cells == [] then [] else VisitedAll(cells[0].content) + VisitedCells(cells[1..])
  }

  /** The name of a media node's attachment: its alt text, else its id. */
  function MediaId(n: Node): string {
    if n.kind != Media then "" else if n.attrs.alt != "" then n.attrs.alt else n.attrs.id
  }

  function Ids(nodes: seq<Node>): seq<string> {
    if nodes == [] then []
    else
      var last := nodes[|nodes| - 1];
      Ids(nodes[..|nodes| - 1]) + if MediaId(last) == "" then [] else [MediaId(last)]
  }

  lemma {:induction false} IdsConcat(a: seq<Node>, b: seq<Node>)
    ensures Ids(a + b) == Ids(a) + Ids(b)
  {
    if b == [] {
      assert a + b == a;
    } else {
      assert (a + b)[..|a + b| - 1] == a + b[..|b| - 1];
      IdsConcat(a, b[..|b| - 1]);
    }
  }

  lemma IdsOfNone()
    ensures Ids([]) == []
  {
  }

  lemma IdsOfOne(n: Node)
    ensures Ids([n]) == if MediaId(n) == "" then [] else [MediaId(n)]
  {
    assert [n][..0] == [];
  }

  lemma OnlyMediaHasId(n: Node)
    ensures VisitsChildren(n.kind) || n.kind == Table ==> MediaId(n) == ""
    ensures !(VisitsChildren(n.kind) && n.kind == Table)
  {
  }

  // ----------------------------------------------------------------- renderer

  class Attachments {
    var names: seq<string>

    constructor ()
      ensures names == []
    {
      names := [];
    }
  }

  /** strings.Repeat panics on a negative count. */
  predicate Panics(n: Node) {
    n.kind == Heading && n.attrs.level < 0
  }

  ghost predicate SomePanics(nodes: seq<Node>) {
    exists n :: n in nodes && Panics(n)
  }

  lemma SomePanicsConcat(a: seq<Node>, b: seq<Node>)
    ensures SomePanics(a + b) <==> SomePanics(a) || SomePanics(b)
  {
    if n :| n in a && Panics(n) { assert n in a + b; }
    if n :| n in b && Panics(n) { assert n in a + b; }
  }

  /**
   Renders a node and appends the attachments of the media nodes it visits.
   The text does not depend on what was collected before, and what was
   collected before is kept.  There is no text exactly when a heading of a
   negative level is visited.
   */
  method RenderNode(n: Node, acc: Attachments) returns (s: Option<string>)
    modifies acc
    ensures s.None? <==> SomePanics(Visited(n))
    ensures s.Some? ==> s.value == Text(n) && acc.names == old(acc.names) + Ids(Visited(n))
    decreases n, 1
  {
    hide Compose, Texts, TableRows, VisitedAll, VisitedRows, Ids, MediaId, VisitsChildren, SomePanics, Panics;
    var inner: seq<string> := [];
    var rows: seq<seq<string>> := [];
    ghost var below: seq<Node> := [];
    IdsOfNone();
    IdsOfOne(n);
    OnlyMediaHasId(n);
    PanicsOfOne(n);
    assert Visited(n) ==
      [n] + if VisitsChildren(n.kind) then VisitedAll(n.content)
            else if n.kind == Table then VisitedRows(n.content)
            else [];
    if VisitsChildren(n.kind) {
      below := VisitedAll(n.content);
      SomePanicsConcat([n], below);
      var texts := RenderAll(n.content, acc);
      if texts.None? {
        return None;
      }
      inner := texts.value;
    } else if n.kind == Table {
      below := VisitedRows(n.content);
      SomePanicsConcat([n], below);
      var texts := RenderTable(n.content, acc);
      if texts.None? {
        return None;
      }
      rows := texts.value;
    } else {
      SomePanicsConcat([n], below);
      if MediaId(n) != "" {
        acc.names := acc.names + [MediaId(n)];
      }
    }
    if Panics(n) {
      return None;
    }
    IdsConcat([n], below);
    s := Some(Compose(n, inner, rows));
  }

  lemma PanicsOfOne(n: Node)
    ensures SomePanics([n]) <==> Panics(n)
    ensures !SomePanics([])
  {
    assert n in [n];
  }

  method RenderAll(nodes: seq<Node>, acc: Attachments) returns (texts: Option<seq<string>>)
    modifies acc
    ensures texts.None? <==> SomePanics(VisitedAll(nodes))
    ensures texts.Some? ==> texts.value == Texts(nodes) && acc.names == old(acc.names) + Ids(VisitedAll(nodes))
    decreases nodes, 0
  {
    hide Text, Visited, Ids, SomePanics;
    IdsOfNone();
    if nodes == [] {
      PanicsOfNone();
      return Some([]);
    }
    SomePanicsConcat(Visited(nodes[0]), VisitedAll(nodes[1..]));
    var first := RenderNode(nodes[0], acc);
    if first.None? {
      return None;
    }
    var rest := RenderAll(nodes[1..], acc);
    if rest.None? {
      return None;
    }
    IdsConcat(Visited(nodes[0]), VisitedAll(nodes[1..]));
    return Some([first.value] + rest.value);
  }

  lemma PanicsOfNone()
    ensures !SomePanics([])
  {
  }

  method RenderCells(cells: seq<Node>, acc: Attachments) returns (texts: Option<seq<string>>)
    modifies acc
    ensures texts.None? <==> SomePanics(VisitedCells(cells))
    ensures texts.Some? ==> texts.value == Cells(cells) && acc.names == old(acc.names) + Ids(VisitedCells(cells))
    decreases cells, 0
  {
    hide Texts, VisitedAll, Ids, TrimEnd, Concat, SomePanics;
    IdsOfNone();
    if cells == [] {
      PanicsOfNone();
      return Some([]);
    }
    SomePanicsConcat(VisitedAll(cells[0].content), VisitedCells(cells[1..]));
    var inner := RenderAll(cells[0].content, acc);
    if inner.None? {
      return None;
    }
    var rest := RenderCells(cells[1..], acc);
    if rest.None? {
      return None;
    }
    IdsConcat(VisitedAll(cells[0].content), VisitedCells(cells[1..]));
    return Some([TrimEnd(Concat(inner.value), "\n ")] + rest.value);
  }

  /** A row's cells; other children of a table are skipped. */
  method RenderRow(row: Node, acc: Attachments) returns (texts: Option<seq<seq<string>>>)
    modifies acc
    ensures texts.None? <==> SomePanics(VisitedRow(row))
    ensures texts.Some? ==> acc.names == old(acc.names) + Ids(VisitedRow(row))
    ensures texts.Some? ==> texts.value == if row.kind == TableRow then [Cells(row.content)] else []
    decreases row, 0
  {
    hide Cells, VisitedCells, Ids, SomePanics;
    IdsOfNone();
    PanicsOfNone();
    if row.kind != TableRow {
      return Some([]);
    }
    var cells := RenderCells(row.content, acc);
    return if cells.None? then None else Some([cells.value]);
  }

  ghost function VisitedRow(row: Node): seq<Node> {
    if row.kind == TableRow then VisitedCells(row.content) else []
  }

  lemma TableUnfolded(rows: seq<Node>)
    ensures rows == [] ==> TableRows(rows) == [] && Ids(VisitedRows(rows)) == [] && !SomePanics(VisitedRows(rows))
    ensures rows != [] ==>
              && TableRows(rows) == (if rows[0].kind == TableRow then [Cells(rows[0].content)] else []) +
                   TableRows(rows[1..])
              && Ids(VisitedRows(rows)) == Ids(VisitedRow(rows[0])) + Ids(VisitedRows(rows[1..]))
              && (SomePanics(VisitedRows(rows)) <==>
                   SomePanics(VisitedRow(rows[0])) || SomePanics(VisitedRows(rows[1..])))
  {
    hide Ids, SomePanics;
    IdsOfNone();
    PanicsOfNone();
    if rows != [] {
      SomePanicsConcat(VisitedRow(rows[0]), VisitedRows(rows[1..]));
      IdsConcat(VisitedRow(rows[0]), VisitedRows(rows[1..]));
    }
  }

  method RenderTable(rows: seq<Node>, acc: Attachments) returns (texts: Option<seq<seq<string>>>)
    modifies acc
    ensures texts.None? <==> SomePanics(VisitedRows(rows))
    ensures texts.Some? ==> texts.value == TableRows(rows) && acc.names == old(acc.names) + Ids(VisitedRows(rows))
    decreases rows, 0
  {
    hide Cells, VisitedRow, Ids, SomePanics, VisitedRows, TableRows;
    TableUnfolded(rows);
    texts := Some([]);
    if rows != [] {
      texts := RenderRow(rows[0], acc);
      if texts.Some? {
        var rest := RenderTable(rows[1..], acc);
        texts := if rest.None? then None else Some(texts.value + rest.value);
      }
    }
  }

  // -------------------------------------------------------- unsupported nodes

  lemma {:induction false} TextsConcat(a: seq<Node>, b: seq<Node>)
    ensures Texts(a + b) == Texts(a) + Texts(b)
  {
    if a == [] {
      assert a + b == b;
    } else {
      assert (a + b)[1..] == a[1..] + b;
      TextsConcat(a[1..], b);
    }
  }

  lemma {:induction false} ConcatConcat(a: seq<string>, b: seq<string>)
    ensures Concat(a + b) == Concat(a) + Concat(b)
  {
    if a == [] {
      assert a + b == b && Concat(a) + Concat(b) == Concat(b);
    } else {
      assert (a + b)[1..] == a[1..] + b;
      ConcatConcat(a[1..], b);
      assert a[0] + (Concat(a[1..]) + Concat(b)) == (a[0] + Concat(a[1..])) + Concat(b);
    }
  }

  lemma {:induction false} ItemsConcat(a: seq<string>, b: seq<string>, bullet: string)
    ensures Items(a + b, bullet) == Items(a, bullet) + Items(b, bullet)
  {
    if a == [] {
      assert a + b == b && Items(a, bullet) + Items(b, bullet) == Items(b, bullet);
    } else {
      assert (a + b)[1..] == a[1..] + b;
      ItemsConcat(a[1..], b, bullet);
      var head := bullet + TrimEnd(a[0], "\n ") + "\n";
      assert head + (Items(a[1..], bullet) + Items(b, bullet)) == (head + Items(a[1..], bullet)) + Items(b, bullet);
    }
  }

  lemma {:induction false} TableRowsSkip(a: seq<Node>, u: Node, b: seq<Node>)
    requires u.kind != TableRow
    ensures TableRows(a + [u] + b) == TableRows(a + b)
  {
    if a == [] {
      assert a + [u] + b == [u] + b && a + b == b;
      assert ([u] + b)[1..] == b;
      assert [] + TableRows(b) == TableRows(b);
    } else {
      assert (a + [u] + b)[1..] == a[1..] + [u] + b && (a + b)[1..] == a[1..] + b;
      TableRowsSkip(a[1..], u, b);
    }
  }

  lemma TextOfUnsupported(u: Node)
    requires u.kind.Unsupported?
    ensures Text(u) == ""
  {
  }

  /** What the children of a node render to, with and without an unsupported one among them. */
  lemma TextsAround(a: seq<Node>, u: Node, b: seq<Node>)
    requires u.kind.Unsupported?
    ensures Concat(Texts(a + [u] + b)) == Concat(Texts(a + b))
    ensures forall bullet :: |Items(Texts(a + [u] + b), bullet)| == |Items(Texts(a + b), bullet)| + |bullet| + 1
  {
    hide Text;
    TextOfUnsupported(u);
    assert Texts([u]) == [""] by { assert [u][1..] == []; }
    TextsConcat(a + [u], b);
    TextsConcat(a, [u]);
    TextsConcat(a, b);
    ConcatConcat(Texts(a) + [""], Texts(b));
    ConcatConcat(Texts(a), [""]);
    ConcatConcat(Texts(a), Texts(b));
    assert Concat([""]) == "" by { assert [""][1..] == []; }
    assert Concat(Texts(a)) + "" == Concat(Texts(a));
    forall bullet ensures |Items(Texts(a + [u] + b), bullet)| == |Items(Texts(a + b), bullet)| + |bullet| + 1 {
      ItemsConcat(Texts(a) + [""], Texts(b), bullet);
      ItemsConcat(Texts(a), [""], bullet);
      ItemsConcat(Texts(a), Texts(b), bullet);
      assert |Items([""], bullet)| == |bullet| + 1 by { assert [""][1..] == []; }
    }
  }

  lemma {:induction false} VisitedSkips(a: seq<Node>, u: Node, b: seq<Node>)
    requires u.kind.Unsupported?
    ensures Ids(VisitedAll(a + [u] + b)) == Ids(VisitedAll(a + b))
    ensures VisitedRows(a + [u] + b) == VisitedRows(a + b)
  {
    hide Ids;
    if a == [] {
      assert a + [u] + b == [u] + b && a + b == b && ([u] + b)[1..] == b;
      assert Visited(u) == [u] && [] + VisitedRows(b) == VisitedRows(b);
      IdsConcat([u], VisitedAll(b));
      IdsOfOne(u);
      assert [] + Ids(VisitedAll(b)) == Ids(VisitedAll(b));
    } else {
      assert (a + [u] + b)[1..] == a[1..] + [u] + b && (a + b)[1..] == a[1..] + b;
      VisitedSkips(a[1..], u, b);
      IdsConcat(Visited(a[0]), VisitedAll(a[1..] + [u] + b));
      IdsConcat(Visited(a[0]), VisitedAll(a[1..] + b));
    }
  }

  /** A child of an unsupported kind adds no attachment to its parent's. */
  lemma UnsupportedChildAttachesNothing(n: Node, a: seq<Node>, u: Node, b: seq<Node>)
    requires u.kind.Unsupported?
    ensures Ids(Visited(n.(content := a + [u] + b))) == Ids(Visited(n.(content := a + b)))
  {
    hide Ids, Visited, VisitedAll, VisitedRows;
    var with, without := n.(content := a + [u] + b), n.(content := a + b);
    VisitedSkips(a, u, b);
    IdsOfVisited(with);
    IdsOfVisited(without);
    IdsOfOne(with);
    IdsOfOne(without);
    assert MediaId(with) == MediaId(without);
  }

  lemma IdsOfVisited(n: Node)
    ensures Ids(Visited(n)) ==
            Ids([n]) + if VisitsChildren(n.kind) then Ids(VisitedAll(n.content))
                       else if n.kind == Table then Ids(VisitedRows(n.content))
                       else []
  {
    hide Ids, VisitedAll, VisitedRows;
    IdsOfNone();
    IdsConcat([n], VisitedAll(n.content));
    IdsConcat([n], VisitedRows(n.content));
    IdsConcat([n], []);
  }

  /**
   A child of an unsupported kind leaves no trace in its parent's text,
   unless the parent is a list, where it leaves an empty item.
   */
  lemma UnsupportedChildInvisibleIff(n: Node, a: seq<Node>, u: Node, b: seq<Node>)
    requires u.kind.Unsupported?
    ensures Text(n.(content := a + [u] + b)) == Text(n.(content := a + b)) <==>
            n.kind != BulletList && n.kind != OrderedList
  {
    TextsAround(a, u, b);
    TableRowsSkip(a, u, b);
    ComposeSeesConcat(n, a + [u] + b, a + b, Texts(a + [u] + b), Texts(a + b), TableRows(a + b));
    hide Texts, TableRows, Compose, VisitsChildren;
  }

  /** Outside lists a node's text depends on its children's texts only through their concatenation. */
  lemma ComposeSeesConcat(n: Node, c: seq<Node>, d: seq<Node>, inner: seq<string>, other: seq<string>,
      rows: seq<seq<string>>)
    requires Concat(inner) == Concat(other)
    requires forall bullet :: |Items(inner, bullet)| > |Items(other, bullet)|
    ensures var visits := VisitsChildren(n.kind);
            Compose(n.(content := c), if visits then inner else [], if n.kind == Table then rows else []) ==
            Compose(n.(content := d), if visits then other else [], if n.kind == Table then rows else []) <==>
            n.kind != BulletList && n.kind != OrderedList
  {
    hide Concat, Items, Quoted, TrimEnd, Repeat, GfmTable, Marked;
    assert |Items(inner, "- ") + "\n"| > |Items(other, "- ") + "\n"|;
    assert |Items(inner, "1. ") + "\n"| > |Items(other, "1. ") + "\n"|;
  }

  /** A bullet list with nothing but a panel shows an empty item. */
  lemma PanelInListShows(attrs: Attrs)
    ensures var panel := Node(Unsupported("panel"), "", [], attrs, []);
            var list := Node(BulletList, "", [], attrs, []);
            Text(list.(content := [panel])) == "- \n\n" && Text(list) == "\n"
  {
    var panel := Node(Unsupported("panel"), "", [], attrs, []);
    TextOfUnsupported(panel);
    assert [panel][1..] == [] && Texts([panel]) == [""] + Texts([]);
    assert [""][1..] == [] && Items([""], "- ") == "- " + "" + "\n" + Items([], "- ");
  }
}
