/** The older tree builder in mdtojson.go at the repository root.

    It keeps the same heading stack as the library builder but stores content
    as untyped Go values: a heading's content starts as an empty slice and
    grows through `appendContent`, paragraphs hold a slice of entries, and
    table rows are plain Go maps. `Value` lists the shapes of those untyped
    values that the builder produces. */
module LegacyBuilder {
  import opened HeadingStacks
  import OrderedMaps
  import TreeBuilder
  import Nodes
  import Strings
  import Ast

  /** The `interface{}` values the builder stores as `Content`. */
  datatype Value =
    | Nil                                         // no content
    | NodeValue(node: LNode)                      // *Node
    | Items(items: seq<Value>)                    // []interface{}
    | Str(s: string)                              // string
    | Entry(kind: string, content: string)        // map[string]interface{}{"type", "content"}
    | Fields(fields: map<string, string>)         // map[string]string
    | RowList(rows: seq<map<string, string>>)     // []map[string]string
    | KeyedTable(entries: map<string, map<string, string>>)

  /** The legacy `Node`: type, heading title and level, content. */
  datatype LNode = LNode(kind: string, title: string, level: int, content: Value)

  // ---------------------------------------------------------------------
  // appendContent and the heading stack
  // ---------------------------------------------------------------------

  /** `appendContent`: a slice grows by `x`, a single node becomes the pair
      of it and `x`, and anything else is replaced by `x`. */
  function AppendContent(existing: Value, x: Value): (r: Value)
    ensures existing.Items? || existing.NodeValue? ==> r.Items? && |r.items| > 0 && r.items[|r.items| - 1] == x
    ensures existing.Items? ==> r.items[..|r.items| - 1] == existing.items
    ensures existing.NodeValue? ==> r.items == [existing, x]
    ensures !existing.Items? && !existing.NodeValue? ==> r == x
  {
    match existing
    case Items(xs) => Items(xs + [x])
    case NodeValue(_) => Items([existing, x])
    case _ => x
  }

  /** Appends each of `xs`, in order. */
  function AppendEach(c: Value, xs: seq<Value>): Value
    decreases |xs|
  {
    if xs == [] then c else AppendEach(AppendContent(c, xs[0]), xs[1..])
  }

  /** Content that starts as a slice keeps every appended value, in order:
      appending never replaces or merges what a heading already holds. */
  lemma {:induction false} AppendEachToList(prefix: seq<Value>, xs: seq<Value>)
    ensures AppendEach(Items(prefix), xs) == Items(prefix + xs)
    decreases |xs|
  {
    if xs != [] {
      AppendEachToList(prefix + [xs[0]], xs[1..]);
      assert prefix + [xs[0]] + xs[1..] == prefix + xs;
    } else {
      assert prefix + xs == prefix;
    }
  }

  /** Content that is not a slice or a node is lost on the first append. */
  lemma {:induction false} AppendEachReplaces(c: Value, xs: seq<Value>)
    requires !c.Items? && !c.NodeValue? && |xs| > 0 && !xs[0].Items? && !xs[0].NodeValue?
    ensures AppendEach(c, xs) == AppendEach(xs[0], xs[1..])
  {
  }

  function CloseHeading(o: OpenHeading<Value>): LNode
  {
    LNode("heading", o.title, o.level, o.content)
  }

  function AddNode(c: Value, x: LNode): Value
  {
    AppendContent(c, NodeValue(x))
  }

  /** Legacy headings are created with an empty slice and grow through
      `appendContent`. */
  const LegacyOps: Ops<Value, LNode> := Ops(CloseHeading, AddNode, Items([]))

  /** Every open heading holds a slice. */
  predicate OpenContentIsList(st: Stack<Value, LNode>)
  {
    forall i :: 0 <= i < |st.stack| ==> st.stack[i].content.Items?
  }

  /** `handleHeader` keeps every open heading's content a slice. */
  lemma HandleHeaderKeepsLists(st: Stack<Value, LNode>, level: int, title: string)
    requires Wf(st) && OpenContentIsList(st)
    ensures OpenContentIsList(HandleHeader(LegacyOps, st, level, title))
  {
    FinalizeMatchesSpec(LegacyOps, st, level);
    var f := Finalize(LegacyOps, st, level);
    assert OpenContentIsList(f);
  }

  /** Content appended to the current heading grows its slice by exactly
      that node; the heading stays a slice. */
  lemma AppendGrowsList(st: Stack<Value, LNode>, x: LNode)
    requires Wf(st) && st.started && OpenContentIsList(st)
    ensures var r := Append(LegacyOps, st, x);
      var n := |st.stack|;
      && OpenContentIsList(r)
      && r.stack[n - 1].content == Items(st.stack[n - 1].content.items + [NodeValue(x)])
  {
  }

  /** The legacy nesting example: H1 A, x, H2 B, y, then `GetNodes`, gives
      one heading A whose slice holds x and then B, and B holds y. */
  lemma LegacyNestingExample(x: LNode, y: LNode)
    ensures
      var s2 := Append(LegacyOps, HandleHeader(LegacyOps, Init(), 1, "A"), x);
      var s4 := Append(LegacyOps, HandleHeader(LegacyOps, s2, 2, "B"), y);
      HeadingStacks.GetNodes(LegacyOps, s4).1 ==
        [LNode("heading", "A", 1, Items([NodeValue(x), NodeValue(LNode("heading", "B", 2, Items([NodeValue(y)])))]))]
  {
    LegacyOpenA(x);
    LegacyOpenB(x, y);
    LegacyClose(x, y);
  }

  lemma LegacyOpenA(x: LNode)
    ensures Append(LegacyOps, HandleHeader(LegacyOps, Init(), 1, "A"), x)
      == Stack([], [OpenHeading(1, "A", Items([NodeValue(x)]))], true)
  {
    var h := OpenHeading(1, "A", LegacyOps.initial);
    var s1 := Stack([], [h], true);
    assert s1.stack[..0] + [AddTo(LegacyOps, h, x)] == [OpenHeading(1, "A", Items([NodeValue(x)]))] by {
      assert LegacyOps.add(h.content, x) == Items([NodeValue(x)]);
    }
    var s0: Stack<Value, LNode> := Init();
    assert s0.stack + [h] == [h];
    HandleHeaderNests(LegacyOps, s0, 1, "A");
    AppendToOpen(LegacyOps, s1, x);
  }

  lemma LegacyOpenB(x: LNode, y: LNode)
    ensures var s2 := Stack([], [OpenHeading(1, "A", Items([NodeValue(x)]))], true);
      Append(LegacyOps, HandleHeader(LegacyOps, s2, 2, "B"), y)
      == Stack([], [OpenHeading(1, "A", Items([NodeValue(x)])), OpenHeading(2, "B", Items([NodeValue(y)]))], true)
  {
    var a := OpenHeading(1, "A", Items([NodeValue(x)]));
    var s2 := Stack([], [a], true);
    var h := OpenHeading(2, "B", LegacyOps.initial);
    var s3 := Stack([], [a, h], true);
    assert s3.stack[..1] + [AddTo(LegacyOps, h, y)] == [a, OpenHeading(2, "B", Items([NodeValue(y)]))] by {
      assert LegacyOps.add(h.content, y) == Items([NodeValue(y)]);
    }
    assert s2.stack + [h] == s3.stack;
    HandleHeaderNests(LegacyOps, s2, 2, "B");
    AppendToOpen(LegacyOps, s3, y);
  }

  lemma LegacyClose(x: LNode, y: LNode)
    ensures var s4 := Stack([], [OpenHeading(1, "A", Items([NodeValue(x)])), OpenHeading(2, "B", Items([NodeValue(y)]))], true);
      HeadingStacks.GetNodes(LegacyOps, s4).1 ==
        [LNode("heading", "A", 1, Items([NodeValue(x), NodeValue(LNode("heading", "B", 2, Items([NodeValue(y)])))]))]
  {
    var s4 := Stack([], [OpenHeading(1, "A", Items([NodeValue(x)])), OpenHeading(2, "B", Items([NodeValue(y)]))], true);
    LegacyCollapse(x, y);
    GetNodesClosesAll(LegacyOps, s4);
  }

  lemma LegacyCollapse(x: LNode, y: LNode)
    ensures var b := LNode("heading", "B", 2, Items([NodeValue(y)]));
      Collapse(LegacyOps, [OpenHeading(1, "A", Items([NodeValue(x)])), OpenHeading(2, "B", Items([NodeValue(y)]))])
      == LNode("heading", "A", 1, Items([NodeValue(x), NodeValue(b)]))
  {
    var a := OpenHeading(1, "A", Items([NodeValue(x)]));
    var bh := OpenHeading(2, "B", Items([NodeValue(y)]));
    var b := LNode("heading", "B", 2, Items([NodeValue(y)]));
    assert [a, bh][1..] == [bh];
    assert Collapse(LegacyOps, [bh]) == b;
    assert AddTo(LegacyOps, a, b) == OpenHeading(1, "A", Items([NodeValue(x), NodeValue(b)])) by {
      assert [NodeValue(x)] + [NodeValue(b)] == [NodeValue(x), NodeValue(b)];
    }
  }

  // ---------------------------------------------------------------------
  // extractContent
  // ---------------------------------------------------------------------

  /** The source reads `FirstChild.Literal` of every link and image it meets,
      so each must have a child. */
  predicate LinksHaveChild(n: Ast.ANode)
    decreases n, 0
  {
    (n.kind.Link? || n.kind.Image? ==> n.children != []) && LinksHaveChildAll(n.children)
  }

  predicate LinksHaveChildAll(ns: seq<Ast.ANode>)
    decreases ns, 1
  {
    ns == [] || (LinksHaveChild(ns[0]) && LinksHaveChildAll(ns[1..]))
  }

  /** Whether a value is the merged text entry. */
  predicate IsTextEntry(v: Value)
  {
    v.Entry? && v.kind == "text"
  }

  /** The entries `extractContent` collects for links, images, emphasis,
      strong text and inline code, over the whole subtree in walk order. */
  function Inlines(n: Ast.ANode): (r: seq<Value>)
    requires LinksHaveChild(n)
    ensures forall i :: 0 <= i < |r| ==> !IsTextEntry(r[i])
    decreases n, 0
  {
    var k := n.kind;
    var here :=
      if k.Link? then [NodeValue(LNode("link", "", 0, Fields(map["text" := n.children[0].literal, "url" := n.destination])))]
      else if k.Image? then [NodeValue(LNode("image", "", 0, Fields(map["alt" := n.children[0].literal, "url" := n.destination])))]
      else if k.Emph? then [Entry("italic", Ast.ExtractText(n))]
      else if k.Strong? then [Entry("bold", Ast.ExtractText(n))]
      else if k.Code? then [Entry("code", n.literal)]
      else [];
    here + InlinesAll(n.children)
  }

  function InlinesAll(ns: seq<Ast.ANode>): (r: seq<Value>)
    requires LinksHaveChildAll(ns)
    ensures forall i :: 0 <= i < |r| ==> !IsTextEntry(r[i])
    decreases ns, 1
  {
    if ns == [] then [] else Inlines(ns[0]) + InlinesAll(ns[1..])
  }

  /** `extractContent`: every text literal of the subtree merged into one
      leading "text" entry, present exactly when some text node is
      non-empty, followed by the inline entries in walk order. */
  function ExtractContent(n: Ast.ANode): (r: LNode)
    requires LinksHaveChild(n)
    ensures r.kind == "paragraph" && r.content.Items?
    ensures Ast.HasText(n) ==> r.content.items == [Entry("text", Ast.ExtractText(n))] + Inlines(n)
    ensures !Ast.HasText(n) ==> r.content.items == Inlines(n)
    ensures forall i :: 0 <= i < |r.content.items| && IsTextEntry(r.content.items[i]) ==>
      i == 0 && r.content.items[i].content != ""
  {
    var buffer := Ast.ExtractText(n);
    Ast.ExtractTextEmpty(n);
    var children := Inlines(n);
    LNode("paragraph", "", 0, Items(if |buffer| > 0 then [Entry("text", buffer)] + children else children))
  }

  /** The text leaves `ss` as siblings. */
  function Leaves(ss: seq<string>): (r: seq<Ast.ANode>)
    ensures |r| == |ss|
    ensures forall i :: 0 <= i < |ss| ==> r[i] == Ast.TextLeaf(ss[i])
  {
    seq(|ss|, i requires 0 <= i < |ss| => Ast.TextLeaf(ss[i]))
  }

  lemma {:induction false} LeavesText(ss: seq<string>)
    ensures Ast.ExtractTextAll(Leaves(ss)) == Strings.Concat(ss)
    ensures LinksHaveChildAll(Leaves(ss)) && InlinesAll(Leaves(ss)) == []
    decreases |ss|
  {
    if ss != [] {
      assert Leaves(ss)[1..] == Leaves(ss[1..]);
      LeavesText(ss[1..]);
      assert Ast.ExtractTextAll(Leaves(ss)[0].children) == "";
      assert InlinesAll(Leaves(ss)[0].children) == [];
    }
  }

  /** The text buffer runs across siblings: the text entry of a paragraph
      whose children are `a` then `b` holds the text of `a` followed by the
      text of `b`. */
  lemma TextAcrossSiblings(a: seq<Ast.ANode>, b: seq<Ast.ANode>)
    requires LinksHaveChild(Ast.Plain(Ast.Paragraph, a + b))
    requires Ast.HasText(Ast.Plain(Ast.Paragraph, a + b))
    ensures ExtractContent(Ast.Plain(Ast.Paragraph, a + b)).content.items[0]
      == Entry("text", Ast.ExtractTextAll(a) + Ast.ExtractTextAll(b))
  {
    Ast.ExtractTextAllAppend(a, b);
  }

  /** A paragraph of plain text pieces becomes one text entry holding all of
      them, or nothing when they are all empty. */
  lemma TextPiecesMerge(ss: seq<string>)
    ensures var p := Ast.Plain(Ast.Paragraph, Leaves(ss));
      && LinksHaveChild(p)
      && ExtractContent(p).content.items == (if Strings.Concat(ss) == "" then [] else [Entry("text", Strings.Concat(ss))])
  {
    var p := Ast.Plain(Ast.Paragraph, Leaves(ss));
    assert LinksHaveChild(p) && Ast.ExtractText(p) == Strings.Concat(ss) && Inlines(p) == [] by {
      LeavesText(ss);
    }
    TextOnlyContent(p);
  }

  /** A node with no inline entries yields its text as the only entry, or
      nothing when that text is empty. */
  lemma TextOnlyContent(p: Ast.ANode)
    requires LinksHaveChild(p) && Inlines(p) == []
    ensures ExtractContent(p).content.items == (if Ast.ExtractText(p) == "" then [] else [Entry("text", Ast.ExtractText(p))])
  {
    Ast.ExtractTextEmpty(p);
  }

  // ---------------------------------------------------------------------
  // Table rows
  // ---------------------------------------------------------------------

  /** The cell walk of `collectRowCells` from a row that already holds
      `row`: the next cell goes under `headers[|row|]` while that index is
      below the number of headers, otherwise it is dropped. */
  function RowFrom(headers: seq<string>, cells: seq<string>, row: map<string, string>): (r: map<string, string>)
    requires |row| <= |headers|
    ensures |r| <= |headers|
    ensures |row| == |headers| ==> r == row
    decreases |cells|
  {
    if cells == [] then row
    else
      var next := if |row| < |headers| then row[headers[|row|] := cells[0]] else row;
      RowFrom(headers, cells[1..], next)
  }

  /** `collectRowCells`: the index of the next header is the current size of
      the row, so the row never has more entries than there are headers. */
  function CollectRowCells(headers: seq<string>, cells: seq<string>): (r: map<string, string>)
    ensures |r| <= |headers|
    ensures cells == [] ==> r == map[]
  {
    RowFrom(headers, cells, map[])
  }

  /** The positional rule of the library as a plain map: cell `i` stored
      under `headers[i]` for each of the first `j` cells. */
  function Positional(headers: seq<string>, cells: seq<string>, j: nat): map<string, string>
    requires j <= |headers| && j <= |cells|
  {
    if j == 0 then map[] else Positional(headers, cells, j - 1)[headers[j - 1] := cells[j - 1]]
  }

  /** Only the first `j` headers are keys. */
  lemma {:induction false} PositionalDomain(headers: seq<string>, cells: seq<string>, j: nat, k: string)
    requires j <= |headers| && j <= |cells|
    requires k in Positional(headers, cells, j)
    ensures exists i :: 0 <= i < j && headers[i] == k
  {
    if headers[j - 1] != k {
      PositionalDomain(headers, cells, j - 1, k);
    }
  }

  /** With distinct headers the first `j` cells make `j` entries. */
  lemma {:induction false} PositionalSize(headers: seq<string>, cells: seq<string>, j: nat)
    requires OrderedMaps.Distinct(headers) && j <= |headers| && j <= |cells|
    ensures |Positional(headers, cells, j)| == j
  {
    if j > 0 {
      var prev := Positional(headers, cells, j - 1);
      PositionalSize(headers, cells, j - 1);
      if headers[j - 1] in prev {
        PositionalDomain(headers, cells, j - 1, headers[j - 1]);
        assert false;
      }
      MapGrows(prev, headers[j - 1], cells[j - 1]);
    }
  }

  /** Storing under a new key adds one entry. */
  lemma MapGrows(m: map<string, string>, k: string, v: string)
    requires k !in m
    ensures |m[k := v]| == |m| + 1
  {
  }

  /** The library row holds the positional map. */
  lemma {:induction false} PositionalIsLibraryRow(headers: seq<string>, cells: seq<string>, j: nat)
    requires j <= |headers| && j <= |cells|
    ensures TreeBuilder.RowPrefix(headers, cells, j).values == Positional(headers, cells, j)
  {
    var i := 0;
    while i < j
      invariant i <= j
      invariant TreeBuilder.RowPrefix(headers, cells, i).values == Positional(headers, cells, i)
    {
      PositionalStep(headers, cells, i + 1);
      i := i + 1;
    }
  }

  lemma {:induction false} PositionalStep(headers: seq<string>, cells: seq<string>, j: nat)
    requires 0 < j <= |headers| && j <= |cells|
    requires TreeBuilder.RowPrefix(headers, cells, j - 1).values == Positional(headers, cells, j - 1)
    ensures TreeBuilder.RowPrefix(headers, cells, j).values == Positional(headers, cells, j)
  {
    var prev := TreeBuilder.RowPrefix(headers, cells, j - 1);
    assert TreeBuilder.RowPrefix(headers, cells, j) == OrderedMaps.Set(prev, headers[j - 1], cells[j - 1]);
    OrderedMaps.SetValues(prev, headers[j - 1], cells[j - 1]);
  }

  /** The legacy walk, started from the positional map of the first `j`
      cells, ends with the positional map of all cells that have a header. */
  lemma {:induction false} RowFromPositional(headers: seq<string>, cells: seq<string>, j: nat)
    requires OrderedMaps.Distinct(headers) && j <= |headers| && j <= |cells|
    ensures |Positional(headers, cells, j)| <= |headers|
    ensures RowFrom(headers, cells[j..], Positional(headers, cells, j))
      == Positional(headers, cells, TreeBuilder.Min(|headers|, |cells|))
    decreases |cells| - j
  {
    PositionalSize(headers, cells, j);
    if j < |cells| {
      assert cells[j..][0] == cells[j] && cells[j..][1..] == cells[j + 1..];
      if j < |headers| {
        RowFromPositional(headers, cells, j + 1);
      }
    } else {
      assert cells[j..] == [];
    }
  }

  /** With distinct headers the legacy index rule and the library's
      positional rule give the same row. */
  lemma LegacyRowMatchesLibrary(headers: seq<string>, cells: seq<string>)
    requires OrderedMaps.Distinct(headers)
    ensures CollectRowCells(headers, cells) == TreeBuilder.CollectRowCells(headers, cells).values
  {
    RowFromPositional(headers, cells, 0);
    PositionalIsLibraryRow(headers, cells, TreeBuilder.Min(|headers|, |cells|));
    assert cells[0..] == cells;
  }

  /** A repeated header makes the rules differ: the legacy row stops growing
      at the repeat, so every later cell overwrites the repeated key and the
      last header never receives a cell. */
  lemma DuplicateHeaderDiverges()
    ensures CollectRowCells(["a", "a", "b"], ["1", "2", "3"]) == map["a" := "3"]
    ensures "b" in TreeBuilder.CollectRowCells(["a", "a", "b"], ["1", "2", "3"]).values
  {
    var headers := ["a", "a", "b"];
    var m1 := map["a" := "1"];
    var m2 := map["a" := "2"];
    assert |m1| == 1 && |m2| == 1;
    assert m1["a" := "2"] == m2;
    assert m2["a" := "3"] == map["a" := "3"];
    assert RowFrom(headers, [], map["a" := "3"]) == map["a" := "3"];
    assert RowFrom(headers, ["3"], m2) == map["a" := "3"];
    assert RowFrom(headers, ["2", "3"], m1) == map["a" := "3"];
    assert ["1", "2", "3"][1..] == ["2", "3"];
    TreeBuilder.CollectRowCellsDomain(headers, ["1", "2", "3"], "b");
    assert headers[..3] == headers;
  }

  /** The clean-up of `collectTableRowsRegular`: the entry with an empty
      key and an empty value is removed (the order in which Go visits the
      map does not matter, since at most one entry qualifies). */
  function DropEmpty(row: map<string, string>): (r: map<string, string>)
    ensures forall k :: k in r <==> k in row && !(k == "" && row[k] == "")
    ensures forall k :: k in r ==> r[k] == row[k]
  {
    if "" in row && row[""] == "" then row - {""} else row
  }

  /** The legacy clean-up removes the same entry as the library's. */
  lemma DropEmptyMatchesLibrary(row: Nodes.Row)
    ensures DropEmpty(row.values) == TreeBuilder.DropEmptyEntry(row).values
  {
  }

  /** `collectTableRowsRegular`: one cleaned row per table row, in order. */
  function RegularRows(headers: seq<string>, rows: seq<seq<string>>): (r: seq<map<string, string>>)
    ensures |r| == |rows|
    ensures forall i :: 0 <= i < |rows| ==> |r[i]| <= |headers|
    ensures forall i :: 0 <= i < |rows| ==> "" in r[i] ==> r[i][""] != ""
  {
    seq(|rows|, i requires 0 <= i < |rows| => DropEmpty(CollectRowCells(headers, rows[i])))
  }

  /** With distinct headers the legacy positional table equals the
      library's, row by row. */
  lemma RegularRowsMatchLibrary(headers: seq<string>, rows: seq<seq<string>>)
    requires OrderedMaps.Distinct(headers)
    ensures |RegularRows(headers, rows)| == |TreeBuilder.RegularRows(headers, rows)|
    ensures forall i :: 0 <= i < |rows| ==> RegularRows(headers, rows)[i] == TreeBuilder.RegularRows(headers, rows)[i].values
  {
    forall i | 0 <= i < |rows|
      ensures RegularRows(headers, rows)[i] == TreeBuilder.RegularRows(headers, rows)[i].values
    {
      LegacyRowMatchesLibrary(headers, rows[i]);
      DropEmptyMatchesLibrary(TreeBuilder.CollectRowCells(headers, rows[i]));
    }
  }

  /** `collectRowCellsWithKeys`: the key is the first cell's text and the
      `headers[0]` entry is removed; a row without cells has key "" and
      stays empty. */
  function KeyedRow(headers: seq<string>, cells: seq<string>): (r: (string, map<string, string>))
    requires |headers| > 0
    ensures cells != [] ==> r.0 == cells[0] && headers[0] !in r.1
    ensures forall k :: k != headers[0] ==> (k in r.1 <==> k in CollectRowCells(headers, cells))
    ensures forall k :: k in r.1 ==> k in CollectRowCells(headers, cells) && r.1[k] == CollectRowCells(headers, cells)[k]
    ensures cells == [] ==> r == ("", map[])
  {
    var row := CollectRowCells(headers, cells);
    if cells == [] then ("", row) else (cells[0], row - {headers[0]})
  }

  /** `collectTableRowsWithKeys`: every row is stored under its key in row
      order, so a later row with the same key overwrites. */
  function KeyedRows(headers: seq<string>, rows: seq<seq<string>>): map<string, map<string, string>>
    requires |headers| > 0
    decreases |rows|
  {
    if rows == [] then map[]
    else
      var (key, row) := KeyedRow(headers, rows[|rows| - 1]);
      KeyedRows(headers, rows[..|rows| - 1])[key := row]
  }

  /** One row of `collectTableRowsWithKeys`: the last row is stored under
      its key. */
  lemma {:induction false} KeyedRowsStep(headers: seq<string>, rows: seq<seq<string>>)
    requires |headers| > 0 && rows != []
    ensures var last := KeyedRow(headers, rows[|rows| - 1]);
      KeyedRows(headers, rows) == KeyedRows(headers, rows[..|rows| - 1])[last.0 := last.1]
  {
  }

  /** The legacy keyed table has exactly the keys of the library's. */
  lemma {:induction false} KeyedRowsKeys(headers: seq<string>, rows: seq<seq<string>>)
    requires |headers| > 0
    ensures forall k :: k in KeyedRows(headers, rows) <==> k in TreeBuilder.KeysOf(headers, rows)
    decreases |rows|
  {
    if rows != [] {
      var n := |rows|;
      KeyedRowsKeys(headers, rows[..n - 1]);
      KeyedRowsStep(headers, rows);
      assert TreeBuilder.KeyOf(headers, rows[n - 1]) == KeyedRow(headers, rows[n - 1]).0;
    }
  }

  /** A row whose key no later row repeats is the value stored under it. */
  lemma {:induction false} KeyedRowsLastWins(headers: seq<string>, rows: seq<seq<string>>, i: nat)
    requires |headers| > 0 && i < |rows|
    requires forall j :: i < j < |rows| ==> KeyedRow(headers, rows[j]).0 != KeyedRow(headers, rows[i]).0
    ensures KeyedRow(headers, rows[i]).0 in KeyedRows(headers, rows)
    ensures KeyedRows(headers, rows)[KeyedRow(headers, rows[i]).0] == KeyedRow(headers, rows[i]).1
    decreases |rows|
  {
    var n := |rows|;
    KeyedRowsStep(headers, rows);
    if i < n - 1 {
      var init := rows[..n - 1];
      assert init[i] == rows[i];
      forall j | i < j < n - 1 ensures KeyedRow(headers, init[j]).0 != KeyedRow(headers, init[i]).0 {
        assert init[j] == rows[j];
      }
      KeyedRowsLastWins(headers, init, i);
    }
  }

  /** The table content `handleTable` stores: keyed exactly when the first
      header is empty. */
  function TableContent(headers: seq<string>, rows: seq<seq<string>>): (r: Value)
    requires |headers| > 0
    ensures r.KeyedTable? <==> headers[0] == ""
    ensures r.RowList? <==> headers[0] != ""
    ensures r.RowList? ==> |r.rows| == |rows|
  {
    if headers[0] == "" then KeyedTable(KeyedRows(headers, rows)) else RowList(RegularRows(headers, rows))
  }
}
