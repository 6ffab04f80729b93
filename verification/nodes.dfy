/** The typed node tree the tree builder produces and the chunker reads
    (libs/mdtojson/nodes.go): one constructor per node struct, each node's own
    Markdown rendering, and the table splitter `ChunkTable`.

    The Go code reaches nodes through an interface and recovers concrete
    types by casts. Here `Node` is a closed datatype; the generic `BaseNode`
    (used for lists, list items, block quotes and breaks) is `Base`, whose
    `kind` string is whatever type tag it was built with, so a `Base` whose
    tag reads "table" or "image" is exactly the node on which the chunker's
    casts fail.

    JSON encoding (`json.Marshal`) and Go's `%q` quoting are foreign code;
    they enter as the functions of a `Json` value. */
module Nodes {
  import opened Strings
  import opened Options
  import opened OrderedMaps

  const NodeTypeHeading: string := "heading"
  const NodeTypeText: string := "text"
  const NodeTypeTable: string := "table"
  const NodeTypeLink: string := "link"
  const NodeTypeImage: string := "image"
  const NodeTypeCode: string := "code"
  const NodeTypeCodeBlock: string := "codeblock"
  const NodeTypeParagraph: string := "paragraph"
  const NodeTypeList: string := "list"
  const NodeTypeListItem: string := "listitem"
  const NodeTypeBlockquote: string := "blockquote"
  const NodeTypeLineBreak: string := "linebreak"
  const NodeTypeSoftBreak: string := "softbreak"
  const NodeTypeHTMLBlock: string := "htmlblock"
  const NodeTypeHTMLSpan: string := "htmlspan"
  const NodeTypeLineSeparator: string := "lineseparator"

  /** A table row: column header to cell text, in header order. */
  type Row = OMap<string>

  /** A value stored under a row key of a keyed table. The builder only ever
      stores rows; the splitter skips anything else. */
  datatype KeyedValue = RowValue(row: Row) | OtherValue

  /** `TableNode.Data`: a positional slice of rows, a keyed ordered map of
      rows, or neither (a table without a body leaves it nil). */
  datatype TableData =
    | NoData
    | Positional(rows: seq<Row>)
    | Keyed(entries: OMap<KeyedValue>)

  /** The JSON encoder and the `%q` quoter the source calls. */
  datatype Json = Json(marshalRow: Row -> string, marshalData: TableData -> string, quote: string -> string)

  datatype Node =
    | Heading(title: string, level: int, children: seq<Node>)
    | Text(text: string, children: seq<Node>)
    | Table(data: TableData, children: seq<Node>)
    | Link(url: string, title: string, children: seq<Node>)
    | Image(url: string, alt: string, reference: nat, children: seq<Node>)
    | Code(code: string, children: seq<Node>)
    | CodeBlock(language: string, code: string, children: seq<Node>)
    | Paragraph(children: seq<Node>)
    | Base(kind: string, children: seq<Node>)

  /** `GetType`: the type tag each constructor stores. */
  function GetType(n: Node): string
  {
    match n
    case Heading(_, _, _) => NodeTypeHeading
    case Text(_, _) => NodeTypeText
    case Table(_, _) => NodeTypeTable
    case Link(_, _, _) => NodeTypeLink
    case Image(_, _, _, _) => NodeTypeImage
    case Code(_, _) => NodeTypeCode
    case CodeBlock(_, _, _) => NodeTypeCodeBlock
    case Paragraph(_) => NodeTypeParagraph
    case Base(kind, _) => kind
  }

  /** `toJSONTable`: the fence that wraps every table rendering. */
  function ToJSONTable(body: string): string
  {
    ":::json_table\n" + body + "\n:::\n\n"
  }

  /** `ToMarkdown`: a node's own text, children excluded. */
  function ToMarkdown(json: Json, n: Node): string
  {
    match n
    case Heading(title, level, _) => Repeat("#", level) + " " + title + "\n\n"
    case Text(text, _) => text
    case Table(data, _) => ToJSONTable(json.marshalData(data))
    case Link(url, title, _) => "[" + title + "](" + url + ")\n\n"
    case Image(url, _, _, _) => "![Image](" + url + ")\n"
    case Code(code, _) => "`" + code + "`"
    case CodeBlock(language, code, _) => "```" + language + "\n" + code + "\n```\n\n"
    case Paragraph(_) => ""
    case Base(_, _) => ""
  }

  /** Byte accounting of every rendering: the size the chunker charges a
      node's own text against its budget. */
  lemma MarkdownLength(json: Json, n: Node)
    ensures n.Heading? ==> |ToMarkdown(json, n)| == (if n.level < 0 then 0 else n.level) + |n.title| + 3
    ensures n.Text? ==> |ToMarkdown(json, n)| == |n.text|
    ensures n.Table? ==> |ToMarkdown(json, n)| == |json.marshalData(n.data)| + 20
    ensures n.Link? ==> |ToMarkdown(json, n)| == |n.title| + |n.url| + 6
    ensures n.Image? ==> |ToMarkdown(json, n)| == |n.url| + 11
    ensures n.Code? ==> |ToMarkdown(json, n)| == |n.code| + 2
    ensures n.CodeBlock? ==> |ToMarkdown(json, n)| == |n.language| + |n.code| + 10
    ensures n.Paragraph? || n.Base? ==> ToMarkdown(json, n) == ""
  {
  }

  /** Number of leading '#' characters. */
  function LeadingHashes(s: string): (k: nat)
    ensures k <= |s|
    ensures forall i :: 0 <= i < k ==> s[i] == '#'
    ensures k < |s| ==> s[k] != '#'
  {
    if s != [] && s[0] == '#' then 1 + LeadingHashes(s[1..]) else 0
  }

  /** Reads a heading rendering back: the level is the run of '#', then a
      space, the title, and the closing blank line. */
  function ParseHeading(s: string): Option<(int, string)>
  {
    var k := LeadingHashes(s);
    if k >= 1 && |s| >= k + 3 && s[k] == ' ' && s[|s| - 2..] == "\n\n" then Some((k, s[k + 1..|s| - 2]))
    else None
  }

  /** A heading's rendering determines its level and title. */
  lemma HeadingRoundTrip(json: Json, n: Node)
    requires n.Heading? && n.level >= 1
    ensures ParseHeading(ToMarkdown(json, n)) == Some((n.level, n.title))
  {
    var s := ToMarkdown(json, n);
    var hashes := Repeat("#", n.level);
    RepeatUniform("#", n.level, '#');
    assert s == hashes + (" " + n.title + "\n\n");
    LeadingHashesOfRun(hashes, " " + n.title + "\n\n");
    assert s[n.level + 1..|s| - 2] == n.title;
  }

  lemma {:induction false} LeadingHashesOfRun(hashes: string, rest: string)
    requires forall i :: 0 <= i < |hashes| ==> hashes[i] == '#'
    requires rest != [] && rest[0] != '#'
    ensures LeadingHashes(hashes + rest) == |hashes|
  {
    if hashes != [] {
      assert (hashes + rest)[1..] == hashes[1..] + rest;
      LeadingHashesOfRun(hashes[1..], rest);
    }
  }

  /** Reads a fenced table fragment back to its body. */
  function Unfence(s: string): Option<string>
  {
    if |s| >= 20 && s[..14] == ":::json_table\n" && s[|s| - 6..] == "\n:::\n\n" then Some(s[14..|s| - 6])
    else None
  }

  /** The fence is invertible: unfencing a fence yields its body, and a string
      unfences to a body exactly when it is that body's fence. */
  lemma FenceRoundTrip(body: string, s: string)
    ensures Unfence(ToJSONTable(body)) == Some(body)
    ensures Unfence(s) == Some(body) <==> s == ToJSONTable(body)
  {
    var f := ToJSONTable(body);
    assert f[..14] == ":::json_table\n";
    assert f[14..|f| - 6] == body;
    if Unfence(s) == Some(body) {
      assert s == s[..14] + s[14..|s| - 6] + s[|s| - 6..];
    }
  }

  // ---------------------------------------------------------------------
  // Table splitting (TableNode.ChunkTable)
  // ---------------------------------------------------------------------

  /** One serialized positional row with its separator. */
  function RowPart(json: Json, row: Row): (p: string)
    ensures |p| >= 2 && p[|p| - 2..] == ",\n"
  {
    json.marshalRow(row) + ",\n"
  }

  /** One serialized keyed row: the quoted key, a colon, the row. */
  function KeyedPart(json: Json, key: string, row: Row): (p: string)
    ensures |p| >= 2 && p[|p| - 2..] == ",\n"
  {
    json.quote(key) + ": " + json.marshalRow(row) + ",\n"
  }

  function PositionalParts(json: Json, rows: seq<Row>): (r: seq<string>)
    ensures |r| == |rows|
    ensures forall i :: 0 <= i < |rows| ==> r[i] == RowPart(json, rows[i])
  {
    seq(|rows|, i requires 0 <= i < |rows| => RowPart(json, rows[i]))
  }

  /** Number of entries whose value is a row. */
  function RowCount(entries: seq<(string, KeyedValue)>): nat
  {
    if entries == [] then 0 else (if entries[0].1.RowValue? then 1 else 0) + RowCount(entries[1..])
  }

  /** The parts of a keyed table's entries; entries whose value is not a row
      are skipped without a trace. */
  function KeyedParts(json: Json, entries: seq<(string, KeyedValue)>): (r: seq<string>)
    ensures |r| == RowCount(entries)
    ensures (forall j :: 0 <= j < |entries| ==> entries[j].1.RowValue?) ==>
              |r| == |entries| && forall j :: 0 <= j < |entries| ==> r[j] == KeyedPart(json, entries[j].0, entries[j].1.row)
    ensures (forall j :: 0 <= j < |entries| ==> !entries[j].1.RowValue?) ==> r == []
  {
    if entries == [] then []
    else
      var rest := KeyedParts(json, entries[1..]);
      assert forall j :: 1 <= j < |entries| ==> entries[1..][j - 1] == entries[j];
      if entries[0].1.RowValue? then [KeyedPart(json, entries[0].0, entries[0].1.row)] + rest else rest
  }

  /** The serialized rows of a table, in stored order. */
  function TableParts(json: Json, data: TableData): (r: seq<string>)
    ensures forall i :: 0 <= i < |r| ==> |r[i]| >= 2 && r[i][|r[i]| - 2..] == ",\n"
    ensures data.NoData? ==> r == []
    ensures data.Positional? ==> |r| == |data.rows|
    ensures data.Keyed? ==> |r| == RowCount(Entries(data.entries))
  {
    match data
    case NoData => []
    case Positional(rows) => PositionalParts(json, rows)
    case Keyed(entries) =>
      var r := KeyedParts(json, Entries(entries));
      assert forall i :: 0 <= i < |r| ==> r[i] in r;
      KeyedPartsEndWithSeparator(json, Entries(entries));
      r
  }

  lemma {:induction false} KeyedPartsEndWithSeparator(json: Json, entries: seq<(string, KeyedValue)>)
    ensures forall p :: p in KeyedParts(json, entries) ==> |p| >= 2 && p[|p| - 2..] == ",\n"
  {
    if entries != [] {
      KeyedPartsEndWithSeparator(json, entries[1..]);
    }
  }

  /** The greedy row packer of `ChunkTable`. `chunk` is the group being
      filled and `limit` the active limit; a group closes as soon as the
      next part would overflow it, even when it is empty, and the active
      limit then becomes `next`. A non-empty last group closes at the end. */
  function PackFrom(parts: seq<string>, limit: int, next: int, chunk: seq<string>): seq<seq<string>>
    decreases |parts|
  {
    if parts == [] then (if |Concat(chunk)| > 0 then [chunk] else [])
    else if |Concat(chunk)| + |parts[0]| > limit then [chunk] + PackFrom(parts[1..], next, next, [parts[0]])
    else PackFrom(parts[1..], limit, next, chunk + [parts[0]])
  }

  function Pack(parts: seq<string>, first: int, next: int): seq<seq<string>>
  {
    PackFrom(parts, first, next, [])
  }

  /** The limit that applies to group `i`: the first group's own, then `next`. */
  function LimitOf(i: nat, first: int, next: int): int
  {
    if i == 0 then first else next
  }

  predicate AllNonEmpty(parts: seq<string>)
  {
    forall i :: 0 <= i < |parts| ==> |parts[i]| > 0
  }

  lemma ConcatNonEmpty(chunk: seq<string>)
    requires chunk != [] && AllNonEmpty(chunk)
    ensures |Concat(chunk)| > 0
  {
  }

  lemma {:induction false} ConcatLength(a: seq<string>, s: string)
    ensures |Concat(a + [s])| == |Concat(a)| + |s|
  {
    ConcatSnoc(a, s);
  }

  /** Every group fits its limit or holds at most one part. */
  predicate GroupsFit(g: seq<seq<string>>, first: int, next: int)
  {
    forall i :: 0 <= i < |g| ==> |Concat(g[i])| <= LimitOf(i, first, next) || |g[i]| <= 1
  }

  /** Every group after the first opens with the part that overflowed the
      group before it. */
  predicate GroupsGreedy(g: seq<seq<string>>, first: int, next: int)
  {
    forall i :: 1 <= i < |g| ==> |g[i]| > 0 && |Concat(g[i - 1])| + |g[i][0]| > LimitOf(i - 1, first, next)
  }

  /** Row conservation: every part lands in exactly one group, and reading
      the groups in order gives back the parts in order. */
  lemma {:induction false} PackConservation(parts: seq<string>, limit: int, next: int, chunk: seq<string>)
    requires AllNonEmpty(chunk) && AllNonEmpty(parts)
    ensures Flatten(PackFrom(parts, limit, next, chunk)) == chunk + parts
  {
    if parts == [] {
      if chunk != [] {
        ConcatNonEmpty(chunk);
        assert Flatten([chunk]) == chunk + Flatten([chunk][1..]);
      }
    } else if |Concat(chunk)| + |parts[0]| > limit {
      PackConservation(parts[1..], next, next, [parts[0]]);
      var rest := PackFrom(parts[1..], next, next, [parts[0]]);
      assert ([chunk] + rest)[1..] == rest;
      assert parts == [parts[0]] + parts[1..];
    } else {
      PackConservation(parts[1..], limit, next, chunk + [parts[0]]);
      assert parts == [parts[0]] + parts[1..];
    }
  }

  /** Every group fits its limit (the first group's own, later ones `next`),
      unless it holds a single part. */
  lemma {:induction false} PackFit(parts: seq<string>, limit: int, next: int, chunk: seq<string>)
    requires |Concat(chunk)| <= limit || |chunk| <= 1
    ensures GroupsFit(PackFrom(parts, limit, next, chunk), limit, next)
  {
    if parts == [] {
    } else if |Concat(chunk)| + |parts[0]| > limit {
      PackFit(parts[1..], next, next, [parts[0]]);
      var rest := PackFrom(parts[1..], next, next, [parts[0]]);
      var g := [chunk] + rest;
      forall i | 0 <= i < |g| ensures |Concat(g[i])| <= LimitOf(i, limit, next) || |g[i]| <= 1 {
        if i > 0 {
          assert g[i] == rest[i - 1];
          assert LimitOf(i - 1, next, next) == LimitOf(i, limit, next);
        }
      }
    } else {
      ConcatLength(chunk, parts[0]);
      PackFit(parts[1..], limit, next, chunk + [parts[0]]);
    }
  }

  /** The group being filled is the start of the next group closed. */
  lemma {:induction false} PackKeepsChunk(parts: seq<string>, limit: int, next: int, chunk: seq<string>)
    requires AllNonEmpty(chunk) && AllNonEmpty(parts) && chunk != []
    ensures var g := PackFrom(parts, limit, next, chunk); |g| > 0 && chunk <= g[0]
  {
    if parts == [] {
      ConcatNonEmpty(chunk);
    } else if |Concat(chunk)| + |parts[0]| > limit {
    } else {
      PackKeepsChunk(parts[1..], limit, next, chunk + [parts[0]]);
    }
  }

  /** Greediness: every group after the first starts with a part, and that
      part is exactly the one that did not fit in the group before it. */
  lemma {:induction false} PackGreedy(parts: seq<string>, limit: int, next: int, chunk: seq<string>)
    requires AllNonEmpty(chunk) && AllNonEmpty(parts)
    ensures GroupsGreedy(PackFrom(parts, limit, next, chunk), limit, next)
  {
    if parts == [] {
    } else if |Concat(chunk)| + |parts[0]| > limit {
      PackGreedy(parts[1..], next, next, [parts[0]]);
      PackKeepsChunk(parts[1..], next, next, [parts[0]]);
      var rest := PackFrom(parts[1..], next, next, [parts[0]]);
      var g := [chunk] + rest;
      forall i | 1 <= i < |g|
        ensures |g[i]| > 0 && |Concat(g[i - 1])| + |g[i][0]| > LimitOf(i - 1, limit, next)
      {
        assert g[i] == rest[i - 1];
        if i == 1 {
          assert g[1][0] == parts[0];
        } else {
          assert g[i - 1] == rest[i - 2];
        }
      }
    } else {
      PackGreedy(parts[1..], limit, next, chunk + [parts[0]]);
    }
  }

  /** Zero parts give zero groups; otherwise the first group comes out empty
      exactly when the first part alone overflows the first limit. */
  lemma PackFirstGroup(parts: seq<string>, first: int, next: int)
    requires AllNonEmpty(parts)
    ensures var g := Pack(parts, first, next);
      && (|g| == 0 <==> parts == [])
      && (|g| > 0 ==> (g[0] == [] <==> |parts[0]| > first))
  {
    if parts != [] {
      if |parts[0]| > first {
      } else {
        assert [] + [parts[0]] == [parts[0]];
        PackKeepsChunk(parts[1..], first, next, [parts[0]]);
      }
    }
  }

  /** The brackets around a fragment body: an array for positional data and
      an object for keyed data. */
  function Open(data: TableData): string
  {
    if data.Keyed? then "{\n" else "[\n"
  }

  function Close(data: TableData): string
  {
    if data.Keyed? then "}" else "]"
  }

  /** `ChunkTable(firstChunkLimit, nextChunksLimit)`: one fenced fragment per
      packed group of serialized rows. Data of neither shape gives none. No
      row is lost: the groups flatten back to the rows' parts in order, there
      are no fragments exactly when there are no parts, and every fragment
      unfences to its group in brackets. */
  function ChunkTable(json: Json, data: TableData, first: int, next: int): (r: seq<string>)
    ensures data.NoData? ==> r == []
    ensures var g := Pack(TableParts(json, data), first, next);
      && |r| == |g|
      && forall i :: 0 <= i < |r| ==> r[i] == ToJSONTable(Open(data) + Concat(g[i]) + Close(data))
    ensures var parts := TableParts(json, data);
      var g := Pack(parts, first, next);
      && Flatten(g) == parts
      && (|r| == 0 <==> parts == [])
      && forall i :: 0 <= i < |r| ==> Unfence(r[i]) == Some(Open(data) + Concat(g[i]) + Close(data))
  {
    var parts := TableParts(json, data);
    var g := Pack(parts, first, next);
    PackedRows(parts, first, next);
    FencedGroups(data, g);
    seq(|g|, i requires 0 <= i < |g| => ToJSONTable(Open(data) + Concat(g[i]) + Close(data)))
  }

  /** Packing serialized rows loses none of them, and gives no group exactly
      when there are no rows. */
  lemma PackedRows(parts: seq<string>, first: int, next: int)
    requires forall i :: 0 <= i < |parts| ==> |parts[i]| >= 2
    ensures Flatten(Pack(parts, first, next)) == parts
    ensures |Pack(parts, first, next)| == 0 <==> parts == []
  {
    assert AllNonEmpty(parts);
    PackConservation(parts, first, next, []);
    PackFirstGroup(parts, first, next);
  }

  /** Every fenced group unfences to its bracketed body. */
  lemma FencedGroups(data: TableData, g: seq<seq<string>>)
    ensures forall i :: 0 <= i < |g| ==>
      Unfence(ToJSONTable(Open(data) + Concat(g[i]) + Close(data))) == Some(Open(data) + Concat(g[i]) + Close(data))
  {
    forall i | 0 <= i < |g|
      ensures Unfence(ToJSONTable(Open(data) + Concat(g[i]) + Close(data))) == Some(Open(data) + Concat(g[i]) + Close(data))
    {
      FenceRoundTrip(Open(data) + Concat(g[i]) + Close(data), "");
    }
  }
}
