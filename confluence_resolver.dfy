/**
 * The Confluence resolver of the project-manager app: the requirement page's storage body is
 * stripped of its tags, the breakdown the model returns is laid out as an Atlassian Document
 * Format table, and a new page titled after the source page is created with it.
 */
module ConfluenceResolver {
  import opened Wrappers

  // ---------------------------------------------------------------------------
  // Tag stripping

  /** The text after the first '>' of `t`, or nothing when `t` has no '>': what is left once `[^>]*>?` has matched. */
  function AfterTag(t: string): (r: string)
    ensures |r| <= |t|
    decreases |t|
  {
    if t == [] then []
    else if t[0] == '>' then t[1..]
    else AfterTag(t[1..])
  }

  /**
   * `replace(/<[^>]*>?/gm, '')`: scanning from the left, each '<' and the text after it up to and
   * including the next '>' is removed; a '<' with no '>' after it removes the rest of the text.
   */
  function StripTags(s: string): (r: string)
    decreases |s|
  {
    if s == [] then []
    else if s[0] == '<' then StripTags(AfterTag(s[1..]))
    else [s[0]] + StripTags(s[1..])
  }

  /** A tag body without '>' followed by its '>' is skipped exactly. */
  lemma {:induction false} AfterTagClosed(b: string, c: string)
    requires '>' !in b
    ensures AfterTag(b + ">" + c) == c
    decreases |b|
  {
    if b == [] {
      assert b + ">" + c == ['>'] + c;
    } else {
      assert (b + ">" + c)[1..] == b[1..] + ">" + c;
      AfterTagClosed(b[1..], c);
    }
  }

  /** A tag body that never closes swallows everything. */
  lemma {:induction false} AfterTagUnclosed(b: string)
    requires '>' !in b
    ensures AfterTag(b) == []
    decreases |b|
  {
    if b != [] {
      AfterTagUnclosed(b[1..]);
    }
  }

  /** The result holds no '<': every '<' starts a removed segment. */
  lemma {:induction false} StripTagsNoOpen(s: string)
    ensures '<' !in StripTags(s)
    decreases |s|
  {
    if s != [] {
      if s[0] == '<' {
        StripTagsNoOpen(AfterTag(s[1..]));
      } else {
        StripTagsNoOpen(s[1..]);
      }
    }
  }

  /** Text before the first '<' is kept as it is, stray '>' characters included. */
  lemma {:induction false} StripTagsPrefix(a: string, rest: string)
    requires '<' !in a
    ensures StripTags(a + rest) == a + StripTags(rest)
    decreases |a|
  {
    if a != [] {
      var t := a + rest;
      assert t[0] == a[0] && a[0] != '<';
      assert t[1..] == a[1..] + rest;
      assert StripTags(t) == [a[0]] + StripTags(t[1..]);
      assert '<' !in a[1..];
      StripTagsPrefix(a[1..], rest);
      assert a == [a[0]] + a[1..];
      assert [a[0]] + (a[1..] + StripTags(rest)) == a + StripTags(rest);
    } else {
      assert a + rest == rest;
    }
  }

  /** Text without '<' is left unchanged. */
  lemma StripTagsAbsent(s: string)
    requires '<' !in s
    ensures StripTags(s) == s
  {
    StripTagsPrefix(s, []);
    assert s + [] == s;
  }

  /** A closed tag is removed together with both its brackets, and the text after it is stripped on its own. */
  lemma StripTagsClosed(b: string, c: string)
    requires '>' !in b
    ensures StripTags("<" + b + ">" + c) == StripTags(c)
  {
    assert ("<" + b + ">" + c)[1..] == b + ">" + c;
    AfterTagClosed(b, c);
  }

  /** An unclosed '<' removes the rest of the text. */
  lemma StripTagsUnclosed(b: string)
    requires '>' !in b
    ensures StripTags("<" + b) == []
  {
    assert ("<" + b)[1..] == b;
    AfterTagUnclosed(b);
  }

  /** Stripping twice is stripping once. */
  lemma StripTagsIdempotent(s: string)
    ensures StripTags(StripTags(s)) == StripTags(s)
  {
    StripTagsNoOpen(s);
    StripTagsAbsent(StripTags(s));
  }

  /** Stripping never lengthens the text. */
  lemma {:induction false} StripTagsShorter(s: string)
    ensures |StripTags(s)| <= |s|
    decreases |s|
  {
    if s != [] {
      if s[0] == '<' {
        StripTagsShorter(AfterTag(s[1..]));
      } else {
        StripTagsShorter(s[1..]);
      }
    }
  }

  /** `bodyData.body?.storage?.value?.replace(...) || ''`: the stripped storage value, or "" when the page has none. */
  function RequirementText(storage: Option<string>): (r: string)
    ensures storage.None? ==> r == ""
    ensures storage.Some? ==> r == StripTags(storage.value)
    ensures '<' !in r
  {
    match storage
    case None => ""
    case Some(v) => StripTagsNoOpen(v); StripTags(v)
  }

  /** The title of the page that is created. */
  function PageTitle(title: string): (r: string)
    ensures |r| == |title| + 13 && r[..13] == "Breakdown of " && r[13..] == title
  {
    "Breakdown of " + title
  }

  /** Different source titles give different page titles. */
  lemma PageTitleInjective(a: string, b: string)
    requires PageTitle(a) == PageTitle(b)
    ensures a == b
  {
    assert a == PageTitle(a)[13..];
  }

  // ---------------------------------------------------------------------------
  // The ADF table

  /** One object of the model's reply; a key the object lacks reads as `undefined`. */
  datatype Item = Item(epic: Option<string>, story: Option<string>, ac: Option<string>,
                       category: Option<string>, notes: Option<string>)

  /** A `text` node; an `undefined` text is dropped when the document is serialised. */
  datatype TextNode = TextNode(text: Option<string>)

  /** A `paragraph` node. */
  datatype Paragraph = Paragraph(content: seq<TextNode>)

  /** The two kinds of table cell. */
  datatype CellKind = TableHeader | TableCell

  /** A `tableHeader` or `tableCell` node. */
  datatype CellNode = CellNode(kind: CellKind, content: seq<Paragraph>)

  /** A `tableRow` node. */
  datatype Row = TableRow(content: seq<CellNode>)

  /** A `table` node. */
  datatype Table = Table(content: seq<Row>)

  /** A `doc` node. */
  datatype Doc = Doc(version: int, content: seq<Table>)

  const Headers: seq<string> := ["Epic", "User Story", "AC", "Category", "Notes"]

  /** A cell holding one paragraph of one text. */
  function CellOf(kind: CellKind, text: Option<string>): CellNode {
    CellNode(kind, [Paragraph([TextNode(text)])])
  }

  /** `[item.epic, item.story, item.ac, item.category, item.notes]`. */
  function Fields(item: Item): (r: seq<Option<string>>)
    ensures |r| == 5
  {
    [item.epic, item.story, item.ac, item.category, item.notes]
  }

  function HeaderRow(): Row {
    TableRow(seq(5, k requires 0 <= k < 5 => CellOf(TableHeader, Some(Headers[k]))))
  }

  function DataRow(item: Item): Row {
    var f := Fields(item);
    TableRow(seq(5, k requires 0 <= k < 5 => CellOf(TableCell, f[k])))
  }

  /** `generateADFTable`: a document of version 1 holding one table, the header row first and then one row per item. */
  function GenerateADFTable(data: seq<Item>): (d: Doc)
    ensures d.version == 1 && |d.content| == 1
    ensures |d.content[0].content| == |data| + 1
    ensures d.content[0].content[0] == HeaderRow()
    ensures forall k :: 0 <= k < |data| ==> d.content[0].content[k + 1] == DataRow(data[k])
  {
    Doc(1, [Table([HeaderRow()] + DataRows(data))])
  }

  /** `data.map(item => ...)`: one data row per item, in order. */
  function DataRows(data: seq<Item>): (rows: seq<Row>)
    ensures |rows| == |data|
    ensures forall k :: 0 <= k < |data| ==> rows[k] == DataRow(data[k])
  {
    seq(|data|, k requires 0 <= k < |data| => DataRow(data[k]))
  }

  /** The header row has the five header cells, in order. */
  lemma HeaderRowShape()
    ensures |HeaderRow().content| == 5
    ensures forall k :: 0 <= k < 5 ==> HeaderRow().content[k] == CellNode(TableHeader, [Paragraph([TextNode(Some(Headers[k]))])])
  {
  }

  /** A data row has five plain cells holding the item's epic, story, AC, category and notes, in order. */
  lemma DataRowShape(item: Item)
    ensures var r := DataRow(item).content;
            |r| == 5 && (forall k :: 0 <= k < 5 ==> r[k].kind == TableCell) &&
            r[0] == CellOf(TableCell, item.epic) && r[1] == CellOf(TableCell, item.story) &&
            r[2] == CellOf(TableCell, item.ac) && r[3] == CellOf(TableCell, item.category) &&
            r[4] == CellOf(TableCell, item.notes)
  {
  }

  // ---------------------------------------------------------------------------
  // Reading the table back

  /** The text of a one-paragraph, one-text cell of the given kind. */
  function CellText(c: CellNode, kind: CellKind): Option<Option<string>> {
    if c.kind == kind && |c.content| == 1 && |c.content[0].content| == 1 then Some(c.content[0].content[0].text)
    else None
  }

  /** The item a data row holds, when it is five plain one-text cells. */
  function ItemOf(row: Row): Option<Item> {
    if |row.content| != 5 then None
    else
      var t := seq(5, k requires 0 <= k < 5 => CellText(row.content[k], TableCell));
      if forall k :: 0 <= k < 5 ==> t[k].Some? then
        Some(Item(t[0].value, t[1].value, t[2].value, t[3].value, t[4].value))
      else None
  }

  /** The items of data rows, `None` if one of them is not an item row. */
  function ItemsOf(rows: seq<Row>): Option<seq<Item>>
    decreases |rows|
  {
    if rows == [] then Some([])
    else
      match (ItemOf(rows[0]), ItemsOf(rows[1..]))
      case (Some(i), Some(rest)) => Some([i] + rest)
      case _ => None
  }

  /** The items a breakdown document lays out: version 1, one table, the header row, then item rows. */
  function TableItems(d: Doc): Option<seq<Item>> {
    if d.version == 1 && |d.content| == 1 && |d.content[0].content| >= 1 && d.content[0].content[0] == HeaderRow() then
      ItemsOf(d.content[0].content[1..])
    else None
  }

  lemma ItemOfDataRow(item: Item)
    ensures ItemOf(DataRow(item)) == Some(item)
  {
    var t := seq(5, k requires 0 <= k < 5 => CellText(DataRow(item).content[k], TableCell));
    assert t[0] == Some(item.epic) && t[1] == Some(item.story) && t[2] == Some(item.ac);
    assert t[3] == Some(item.category) && t[4] == Some(item.notes);
  }

  lemma {:induction false} ItemsOfDataRows(data: seq<Item>)
    ensures ItemsOf(DataRows(data)) == Some(data)
    decreases |data|
  {
    var rows := DataRows(data);
    if data != [] {
      assert rows[0] == DataRow(data[0]);
      ItemOfDataRow(data[0]);
      assert rows[1..] == DataRows(data[1..]);
      ItemsOfDataRows(data[1..]);
      ItemsOfCons(rows, data[0], data[1..]);
      assert [data[0]] + data[1..] == data;
    }
  }

  lemma ItemsOfCons(rows: seq<Row>, item: Item, rest: seq<Item>)
    requires rows != [] && ItemOf(rows[0]) == Some(item) && ItemsOf(rows[1..]) == Some(rest)
    ensures ItemsOf(rows) == Some([item] + rest)
  {
  }

  /** The table gives back exactly the items it was built from, in order. */
  lemma TableRoundTrip(data: seq<Item>)
    ensures TableItems(GenerateADFTable(data)) == Some(data)
  {
    assert GenerateADFTable(data).content[0].content[1..] == DataRows(data);
    ItemsOfDataRows(data);
  }

  // ---------------------------------------------------------------------------
  // The page request

  /** The body of the page-creation request, before the document is serialised. */
  datatype PageRequest = PageRequest(title: string, kind: string, spaceId: string, doc: Doc, representation: string)

  /** The page the handler creates for a source page and the model's breakdown of it. */
  function NewPage(title: string, spaceId: string, breakdown: seq<Item>): (p: PageRequest)
    ensures p.title == PageTitle(title) && p.kind == "page" && p.spaceId == spaceId
    ensures p.representation == "atlas_doc_format"
    ensures TableItems(p.doc) == Some(breakdown)
  {
    TableRoundTrip(breakdown);
    PageRequest(PageTitle(title), "page", spaceId, GenerateADFTable(breakdown), "atlas_doc_format")
  }
}
