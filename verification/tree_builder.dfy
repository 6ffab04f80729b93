/** The tree builder of libs/mdtojson/mdtojson.go: the renderer callback that
    turns a parsed tree into the `Node` tree the chunker reads.

    Its state is the heading stack (shared with the older builder, see
    `HeadingStacks`) and the image registry `imageRefs`. The registry holds
    image nodes in the source but only their URLs are ever read, so here it
    is the sequence of registered URLs. Every walk of the source is a pair of
    recursive functions over a parsed node and its siblings; the registry is
    threaded through them in walk order. */
module TreeBuilder {
  import opened Options
  import opened Strings
  import opened OrderedMaps
  import opened Nodes
  import opened HeadingStacks
  import Ast

  type Registry = seq<string>

  // ---------------------------------------------------------------------
  // Image registry: addImage and GetImageURLs
  // ---------------------------------------------------------------------

  /** Index of the first registry entry equal to `url`, or the registry's
      length when there is none. */
  function FirstIndex(reg: Registry, url: string): (i: nat)
    ensures i <= |reg|
    ensures forall j :: 0 <= j < i ==> reg[j] != url
    ensures i < |reg| ==> reg[i] == url
    ensures i == |reg| <==> url !in reg
  {
    if reg == [] then 0 else if reg[0] == url then 0 else 1 + FirstIndex(reg[1..], url)
  }

  /** `addImage`: the 1-based position of the first entry with the same URL,
      or the URL is appended and the new length is returned. */
  function AddImage(reg: Registry, url: string): (r: (Registry, nat))
    ensures 1 <= r.1 <= |r.0| && r.0[r.1 - 1] == url
    ensures forall j :: 0 <= j < r.1 - 1 ==> r.0[j] != url
    ensures url in reg ==> r.0 == reg
    ensures url !in reg ==> r.0 == reg + [url]
    ensures Distinct(reg) ==> Distinct(r.0)
  {
    var i := FirstIndex(reg, url);
    if i < |reg| then (reg, i + 1) else (reg + [url], |reg| + 1)
  }

  /** `GetImageURLs`: the loop over the registry stores the `i`-th URL under
      reference number `i + 1`. */
  function GetImageURLs(reg: Registry): (m: map<int, string>)
    ensures forall k :: k in m <==> 1 <= k <= |reg|
    ensures forall k :: k in m ==> m[k] == reg[k - 1]
    decreases |reg|
  {
    if reg == [] then map[]
    else GetImageURLs(reg[..|reg| - 1])[|reg| := reg[|reg| - 1]]
  }

  /** The number `addImage` hands out resolves, through `GetImageURLs`, to
      the URL it was given, and registering the same URL again gives the
      same number and leaves the registry as it is. */
  lemma AddImageResolves(reg: Registry, url: string)
    ensures var (reg1, ref) := AddImage(reg, url);
      && ref in GetImageURLs(reg1) && GetImageURLs(reg1)[ref] == url
      && AddImage(reg1, url) == (reg1, ref)
  {
    var (reg1, ref) := AddImage(reg, url);
    assert GetImageURLs(reg1)[(ref - 1) + 1] == reg1[ref - 1];
    assert url in reg1;
  }

  /** Every image node in `xs` carries a reference that resolves to its URL. */
  predicate Resolves(xs: seq<Node>, reg: Registry)
  {
    forall i :: 0 <= i < |xs| && xs[i].Image? ==> 1 <= xs[i].reference <= |reg| && reg[xs[i].reference - 1] == xs[i].url
  }

  /** No text node in `xs` is empty. */
  predicate NoEmptyText(xs: seq<Node>)
  {
    forall i :: 0 <= i < |xs| && xs[i].Text? ==> xs[i].text != []
  }

  /** Every node in `xs` is a leaf. */
  predicate Leaves(xs: seq<Node>)
  {
    forall i :: 0 <= i < |xs| ==> xs[i].children == []
  }

  lemma ResolvesJoin(a: seq<Node>, b: seq<Node>, reg: Registry, reg': Registry)
    requires Resolves(a, reg) && Resolves(b, reg') && reg <= reg'
    ensures Resolves(a + b, reg')
  {
    forall i | 0 <= i < |a + b| && (a + b)[i].Image?
      ensures 1 <= (a + b)[i].reference <= |reg'| && reg'[(a + b)[i].reference - 1] == (a + b)[i].url
    {
      if i < |a| {
        assert reg[a[i].reference - 1] == reg'[a[i].reference - 1];
      } else {
        assert (a + b)[i] == b[i - |a|];
      }
    }
  }

  lemma NoEmptyTextJoin(a: seq<Node>, b: seq<Node>)
    ensures NoEmptyText(a) && NoEmptyText(b) ==> NoEmptyText(a + b)
  {
    if NoEmptyText(a) && NoEmptyText(b) {
      forall i | 0 <= i < |a + b| && (a + b)[i].Text? ensures (a + b)[i].text != [] {
        if i >= |a| {
          assert (a + b)[i] == b[i - |a|];
        }
      }
    }
  }

  lemma LeavesJoin(a: seq<Node>, b: seq<Node>)
    requires Leaves(a) && Leaves(b)
    ensures Leaves(a + b)
  {
    forall i | 0 <= i < |a + b| ensures (a + b)[i].children == [] {
      if i >= |a| {
        assert (a + b)[i] == b[i - |a|];
      }
    }
  }

  // ---------------------------------------------------------------------
  // extractContent
  // ---------------------------------------------------------------------

  /** `extractContent` visiting `n`: text nodes with non-empty text, inline
      code and code blocks are collected and their children visited; links,
      images and block quotes are collected whole, with their text, and their
      children skipped; nested lists are skipped. Images are registered. */
  function Content(n: Ast.ANode, reg: Registry): (r: (seq<Node>, Registry))
    ensures reg <= r.1
    ensures Distinct(reg) ==> Distinct(r.1)
    ensures Resolves(r.0, r.1)
    ensures Leaves(r.0)
    ensures !Ast.HasQuote(n) ==> NoEmptyText(r.0)
    decreases n, 0
  {
    if n.kind.Text? then
      var c := Ast.ExtractText(n);
      var (rest, reg1) := ContentAll(n.children, reg);
      (if c == "" then rest else [Text(c, [])] + rest, reg1)
    else if n.kind.List? then ([], reg)
    else if n.kind.Link? then ([Link(n.destination, Ast.ExtractText(n), [])], reg)
    else if n.kind.Image? then
      var (reg1, ref) := AddImage(reg, n.destination);
      ([Image(n.destination, Ast.ExtractText(n), ref, [])], reg1)
    else if n.kind.Code? then
      var (rest, reg1) := ContentAll(n.children, reg);
      ([Code(n.literal, [])] + rest, reg1)
    else if n.kind.CodeBlock? then
      var (rest, reg1) := ContentAll(n.children, reg);
      ([CodeBlock(n.info, n.literal, [])] + rest, reg1)
    else if n.kind.BlockQuote? then ([Text(Ast.ExtractText(n), [])], reg)
    else ContentAll(n.children, reg)
  }

  function ContentAll(ns: seq<Ast.ANode>, reg: Registry): (r: (seq<Node>, Registry))
    ensures reg <= r.1
    ensures Distinct(reg) ==> Distinct(r.1)
    ensures Resolves(r.0, r.1)
    ensures Leaves(r.0)
    ensures !Ast.HasQuoteAll(ns) ==> NoEmptyText(r.0)
    decreases ns, 1
  {
    if ns == [] then ([], reg)
    else
      var (a, reg1) := Content(ns[0], reg);
      var (b, reg2) := ContentAll(ns[1..], reg1);
      ResolvesJoin(a, b, reg1, reg2);
      LeavesJoin(a, b);
      NoEmptyTextJoin(a, b);
      (a + b, reg2)
  }

  /** A text node whose text is empty is dropped: `extractContent` of a
      paragraph with no block quote inside never yields an empty text node,
      and every image it yields resolves in the registry it leaves. */
  lemma ExtractContentFilters(n: Ast.ANode, reg: Registry)
    requires !Ast.HasQuote(n)
    ensures var (xs, reg1) := Content(n, reg);
      NoEmptyText(xs) && Resolves(xs, reg1) && reg <= reg1
  {
  }

  // ---------------------------------------------------------------------
  // handleList and extractListItems
  // ---------------------------------------------------------------------

  /** The number of item nodes reached from `n` without passing through
      another item. */
  function ReachedItems(n: Ast.ANode): nat
    decreases n, 0
  {
    if n.kind.Item? then 1 else ReachedItemsAll(n.children)
  }

  function ReachedItemsAll(ns: seq<Ast.ANode>): nat
    decreases ns, 1
  {
    if ns == [] then 0 else ReachedItems(ns[0]) + ReachedItemsAll(ns[1..])
  }

  /** The number of entries the walk inside an item appends: one per nested
      list, reached without passing through another list, and one per
      nested item, whose own children are walked too. */
  function ItemParts(n: Ast.ANode): nat
    decreases n, 0
  {
    if n.kind.List? then 1
    else if n.kind.Item? then 1 + ItemPartsAll(n.children)
    else ItemPartsAll(n.children)
  }

  function ItemPartsAll(ns: seq<Ast.ANode>): nat
    decreases ns, 1
  {
    if ns == [] then 0 else ItemParts(ns[0]) + ItemPartsAll(ns[1..])
  }

  /** `handleList`: one list item per item node reached without passing
      through another item. */
  function HandleList(n: Ast.ANode, reg: Registry): (r: (Node, Registry))
    ensures GetType(r.0) == NodeTypeList
    ensures |r.0.children| == ReachedItems(n)
    ensures forall i :: 0 <= i < |r.0.children| ==> GetType(r.0.children[i]) == NodeTypeListItem
    ensures reg <= r.1 && (Distinct(reg) ==> Distinct(r.1))
    decreases n, 2
  {
    var (items, reg1) := ListVisit(n, reg);
    (Base(NodeTypeList, items), reg1)
  }

  function ListVisit(n: Ast.ANode, reg: Registry): (r: (seq<Node>, Registry))
    ensures |r.0| == ReachedItems(n)
    ensures forall i :: 0 <= i < |r.0| ==> GetType(r.0[i]) == NodeTypeListItem
    ensures reg <= r.1 && (Distinct(reg) ==> Distinct(r.1))
    decreases n, 1
  {
    if n.kind.Item? then
      var (item, reg1) := ExtractListItem(n, reg);
      ([item], reg1)
    else ListVisitAll(n.children, reg)
  }

  function ListVisitAll(ns: seq<Ast.ANode>, reg: Registry): (r: (seq<Node>, Registry))
    ensures |r.0| == ReachedItemsAll(ns)
    ensures forall i :: 0 <= i < |r.0| ==> GetType(r.0[i]) == NodeTypeListItem
    ensures reg <= r.1 && (Distinct(reg) ==> Distinct(r.1))
    decreases ns, 1
  {
    if ns == [] then ([], reg)
    else
      var (a, reg1) := ListVisit(ns[0], reg);
      var (b, reg2) := ListVisitAll(ns[1..], reg1);
      (a + b, reg2)
  }

  /** `extractListItems` on an item node: a paragraph of the item's content,
      then every nested list and nested item paragraph in walk order. */
  function ExtractListItem(n: Ast.ANode, reg: Registry): (r: (Node, Registry))
    ensures GetType(r.0) == NodeTypeListItem
    ensures |r.0.children| == 1 + ItemPartsAll(n.children)
    ensures r.0.children[0] == Paragraph(Content(n, reg).0)
    ensures reg <= r.1 && (Distinct(reg) ==> Distinct(r.1))
    decreases n, 0
  {
    var (content, reg1) := Content(n, reg);
    var (rest, reg2) := ItemVisitAll(n.children, reg1);
    (Base(NodeTypeListItem, [Paragraph(content)] + rest), reg2)
  }

  function ItemVisit(n: Ast.ANode, reg: Registry): (r: (seq<Node>, Registry))
    ensures |r.0| == ItemParts(n)
    ensures reg <= r.1 && (Distinct(reg) ==> Distinct(r.1))
    decreases n, 3
  {
    if n.kind.List? then
      var (list, reg1) := HandleList(n, reg);
      ([list], reg1)
    else if n.kind.Item? then
      var (content, reg1) := Content(n, reg);
      var (rest, reg2) := ItemVisitAll(n.children, reg1);
      ([Paragraph(content)] + rest, reg2)
    else ItemVisitAll(n.children, reg)
  }

  function ItemVisitAll(ns: seq<Ast.ANode>, reg: Registry): (r: (seq<Node>, Registry))
    ensures |r.0| == ItemPartsAll(ns)
    ensures reg <= r.1 && (Distinct(reg) ==> Distinct(r.1))
    decreases ns, 4
  {
    if ns == [] then ([], reg)
    else
      var (a, reg1) := ItemVisit(ns[0], reg);
      var (b, reg2) := ItemVisitAll(ns[1..], reg1);
      (a + b, reg2)
  }

  // ---------------------------------------------------------------------
  // Table shaping
  // ---------------------------------------------------------------------

  /** The text of every table cell in the subtree, in walk order
      (`collectTableHeaders`, and the cells `collectRowCells` visits). */
  function CellTexts(n: Ast.ANode): seq<string>
    decreases n, 0
  {
    (if n.kind.TableCell? then [Ast.ExtractText(n)] else []) + CellTextsAll(n.children)
  }

  function CellTextsAll(ns: seq<Ast.ANode>): seq<string>
    decreases ns, 1
  {
    if ns == [] then [] else CellTexts(ns[0]) + CellTextsAll(ns[1..])
  }

  /** The cell texts of every table row in the subtree, in walk order. */
  function RowsOf(n: Ast.ANode): seq<seq<string>>
    decreases n, 0
  {
    (if n.kind.TableRow? then [CellTexts(n)] else []) + RowsOfAll(n.children)
  }

  function RowsOfAll(ns: seq<Ast.ANode>): seq<seq<string>>
    decreases ns, 1
  {
    if ns == [] then [] else RowsOf(ns[0]) + RowsOfAll(ns[1..])
  }

  function Min(a: int, b: int): int
  {
    if a < b then a else b
  }

  /** The row after the first `m` cells: cell `i` set under `headers[i]`. */
  function RowPrefix(headers: seq<string>, cells: seq<string>, m: nat): (r: Row)
    requires m <= |headers| && m <= |cells|
    ensures forall j :: 0 <= j < m ==> headers[j] in r.values
    ensures |r.keys| <= m
  {
    if m == 0 then Empty()
    else
      Set(RowPrefix(headers, cells, m - 1), headers[m - 1], cells[m - 1])
  }

  /** The keys of the row are exactly the first `m` headers. */
  lemma {:induction false} RowPrefixDomain(headers: seq<string>, cells: seq<string>, m: nat, k: string)
    requires m <= |headers| && m <= |cells|
    ensures k in RowPrefix(headers, cells, m).values <==> k in headers[..m]
  {
    if m > 0 {
      RowPrefixDomain(headers, cells, m - 1, k);
      assert headers[..m] == headers[..m - 1] + [headers[m - 1]];
    }
  }

  /** A key holds the cell of its last position among the first `m`. */
  lemma {:induction false} RowPrefixValueAt(headers: seq<string>, cells: seq<string>, m: nat, i: nat)
    requires m <= |headers| && m <= |cells| && i < m
    requires forall j :: i < j < m ==> headers[j] != headers[i]
    ensures RowPrefix(headers, cells, m).values[headers[i]] == cells[i]
  {
    if i < m - 1 {
      RowPrefixValueAt(headers, cells, m - 1, i);
    }
  }

  /** The keys of the row after `m` cells are the first `m` headers, in order. */
  predicate KeysArePrefix(headers: seq<string>, cells: seq<string>, m: nat)
    requires m <= |headers| && m <= |cells|
  {
    var r := RowPrefix(headers, cells, m);
    |r.keys| == m && forall i :: 0 <= i < m ==> r.keys[i] == headers[i]
  }

  /** With distinct headers the keys are the first `m` headers, in order. */
  lemma {:induction false} RowPrefixKeys(headers: seq<string>, cells: seq<string>, m: nat)
    requires m <= |headers| && m <= |cells|
    requires Distinct(headers)
    ensures KeysArePrefix(headers, cells, m)
  {
    var k := 0;
    while k < m
      invariant k <= m
      invariant KeysArePrefix(headers, cells, k)
    {
      RowPrefixKeysStep(headers, cells, k + 1);
      k := k + 1;
    }
  }

  lemma {:induction false} RowPrefixKeysStep(headers: seq<string>, cells: seq<string>, m: nat)
    requires 0 < m <= |headers| && m <= |cells|
    requires Distinct(headers)
    requires KeysArePrefix(headers, cells, m - 1)
    ensures KeysArePrefix(headers, cells, m)
  {
    RowPrefixUnseen(headers, cells, m);
    RowPrefixNewKey(headers, cells, m);
  }

  /** A header that differs from every earlier one is not yet a key. */
  lemma {:induction false} RowPrefixUnseen(headers: seq<string>, cells: seq<string>, m: nat)
    requires 0 < m <= |headers| && m <= |cells|
    requires forall j :: 0 <= j < m - 1 ==> headers[j] != headers[m - 1]
    ensures headers[m - 1] !in RowPrefix(headers, cells, m - 1).values
  {
    assert headers[m - 1] !in headers[..m - 1];
    RowPrefixDomain(headers, cells, m - 1, headers[m - 1]);
  }

  /** One step of the row: a header not seen before is appended to the keys. */
  lemma {:induction false} RowPrefixNewKey(headers: seq<string>, cells: seq<string>, m: nat)
    requires 0 < m <= |headers| && m <= |cells|
    requires headers[m - 1] !in RowPrefix(headers, cells, m - 1).values
    requires KeysArePrefix(headers, cells, m - 1)
    ensures KeysArePrefix(headers, cells, m)
  {
    var prev := RowPrefix(headers, cells, m - 1);
    var h := headers[m - 1];
    var r := Set(prev, h, cells[m - 1]);
    assert r.keys == prev.keys + [h];
    assert RowPrefix(headers, cells, m) == r;
  }

  /** `collectRowCells`: cell `i` is stored under `headers[i]` while `i` is
      below the number of headers; extra cells are dropped. A repeated header
      keeps its first position and its last cell. */
  function CollectRowCells(headers: seq<string>, cells: seq<string>): (r: Row)
    ensures forall j :: 0 <= j < Min(|headers|, |cells|) ==> headers[j] in r.values
    ensures |r.keys| <= |headers|
  {
    RowPrefix(headers, cells, Min(|headers|, |cells|))
  }

  /** Only the first headers, as many as there are cells, are keys of the
      row. */
  lemma CollectRowCellsDomain(headers: seq<string>, cells: seq<string>, k: string)
    ensures k in CollectRowCells(headers, cells).values <==> k in headers[..Min(|headers|, |cells|)]
  {
    RowPrefixDomain(headers, cells, Min(|headers|, |cells|), k);
  }

  /** With distinct headers, the row lists the first headers in order, each
      holding the cell at its own position. */
  lemma CollectRowCellsDistinct(headers: seq<string>, cells: seq<string>)
    requires Distinct(headers)
    ensures var m := Min(|headers|, |cells|);
      var r := CollectRowCells(headers, cells);
      && r.keys == headers[..m]
      && forall i :: 0 <= i < m ==> r.values[headers[i]] == cells[i]
  {
    var m := Min(|headers|, |cells|);
    RowPrefixKeys(headers, cells, m);
    assert CollectRowCells(headers, cells).keys == headers[..m];
    forall i | 0 <= i < m ensures CollectRowCells(headers, cells).values[headers[i]] == cells[i] {
      RowPrefixValueAt(headers, cells, m, i);
    }
  }

  /** The clean-up of `collectTableRowsRegular`: the entry under the empty
      key is removed when its value is empty too; nothing else changes. */
  function DropEmptyEntry(row: Row): (r: Row)
    ensures "" in r.values ==> r.values[""] != ""
    ensures ("" in row.values && row.values[""] != "") ==> "" in r.values
    ensures forall k :: k != "" ==> (k in r.values <==> k in row.values)
    ensures forall k :: k in r.values ==> k in row.values && r.values[k] == row.values[k]
    ensures r.keys == (if "" in row.values && row.values[""] == "" then Without(row.keys, "") else row.keys)
  {
    if "" in row.values && row.values[""] == "" then Delete(row, "") else row
  }

  /** `collectTableRowsRegular`: one row per table row, in order. */
  function RegularRows(headers: seq<string>, rows: seq<seq<string>>): (r: seq<Row>)
    ensures |r| == |rows|
    ensures forall i :: 0 <= i < |rows| ==> r[i] == DropEmptyEntry(CollectRowCells(headers, rows[i]))
  {
    seq(|rows|, i requires 0 <= i < |rows| => DropEmptyEntry(CollectRowCells(headers, rows[i])))
  }

  /** `collectRowCellsWithKeys`: the key is the first cell's text and the
      `headers[0]` entry is removed; a row without cells has key "" and an
      empty row. */
  function KeyedRow(headers: seq<string>, cells: seq<string>): (r: (string, Row))
    requires |headers| > 0
    ensures cells != [] ==> r.0 == cells[0] && headers[0] !in r.1.values
    ensures cells != [] ==> forall k :: k != headers[0] ==> (k in r.1.values <==> k in CollectRowCells(headers, cells).values)
    ensures cells == [] ==> r.0 == "" && r.1.keys == []
  {
    var row := CollectRowCells(headers, cells);
    if cells == [] then
      assert Min(|headers|, |cells|) == 0;
      ("", row)
    else (cells[0], Delete(row, headers[0]))
  }

  /** `collectTableRowsWithKeys`: every row is stored under its key, in row
      order, so a later row with the same key overwrites an earlier one. */
  function KeyedRows(headers: seq<string>, rows: seq<seq<string>>): (r: OMap<KeyedValue>)
    requires |headers| > 0
    ensures forall k :: k in r.values ==> r.values[k].RowValue?
    decreases |rows|
  {
    if rows == [] then Empty()
    else
      var (key, row) := KeyedRow(headers, rows[|rows| - 1]);
      Set(KeyedRows(headers, rows[..|rows| - 1]), key, RowValue(row))
  }

  function KeyOf(headers: seq<string>, cells: seq<string>): string
    requires |headers| > 0
  {
    KeyedRow(headers, cells).0
  }

  /** One row of `collectTableRowsWithKeys`: the last row is set under its key. */
  lemma {:induction false} KeyedRowsStep(headers: seq<string>, rows: seq<seq<string>>)
    requires |headers| > 0 && rows != []
    ensures KeyedRows(headers, rows)
      == Set(KeyedRows(headers, rows[..|rows| - 1]), KeyOf(headers, rows[|rows| - 1]), RowValue(KeyedRow(headers, rows[|rows| - 1]).1))
  {
  }

  /** The keyed table holds exactly the rows' keys. */
  lemma {:induction false} KeyedRowsKeys(headers: seq<string>, rows: seq<seq<string>>)
    requires |headers| > 0
    ensures forall k :: k in KeyedRows(headers, rows).values <==> k in KeysOf(headers, rows)
    decreases |rows|
  {
    if rows != [] {
      KeyedRowsKeys(headers, rows[..|rows| - 1]);
      KeyedRowsStep(headers, rows);
    }
  }

  /** The keys of the rows, in row order. */
  function KeysOf(headers: seq<string>, rows: seq<seq<string>>): (ks: seq<string>)
    requires |headers| > 0
    ensures |ks| == |rows|
    ensures forall i :: 0 <= i < |rows| ==> ks[i] == KeyOf(headers, rows[i])
    decreases |rows|
  {
    if rows == [] then [] else KeysOf(headers, rows[..|rows| - 1]) + [KeyOf(headers, rows[|rows| - 1])]
  }

  /** A row whose key no later row repeats is the value stored under it: a
      later row with the same key overwrites. */
  lemma {:induction false} KeyedRowsLastWins(headers: seq<string>, rows: seq<seq<string>>, i: nat)
    requires |headers| > 0 && i < |rows|
    requires forall j :: i < j < |rows| ==> KeyOf(headers, rows[j]) != KeyOf(headers, rows[i])
    ensures KeyOf(headers, rows[i]) in KeyedRows(headers, rows).values
    ensures KeyedRows(headers, rows).values[KeyOf(headers, rows[i])] == RowValue(KeyedRow(headers, rows[i]).1)
    decreases |rows|
  {
    var n := |rows|;
    KeyedRowsStep(headers, rows);
    if i < n - 1 {
      var init := rows[..n - 1];
      assert init[i] == rows[i];
      forall j | i < j < n - 1 ensures KeyOf(headers, init[j]) != KeyOf(headers, init[i]) {
        assert init[j] == rows[j];
      }
      KeyedRowsLastWins(headers, init, i);
    }
  }

  /** The body of a table: keyed exactly when the first header is empty. */
  function BodyData(headers: seq<string>, body: Ast.ANode): (r: TableData)
    requires |headers| > 0
    ensures r.Keyed? <==> headers[0] == ""
    ensures r.Positional? <==> headers[0] != ""
    ensures r.Positional? ==> r.rows == RegularRows(headers, RowsOf(body))
    ensures r.Keyed? ==> r.entries == KeyedRows(headers, RowsOf(body))
  {
    if headers[0] == "" then Keyed(KeyedRows(headers, RowsOf(body)))
    else Positional(RegularRows(headers, RowsOf(body)))
  }

  /** The head and body sections of a table, in walk order. */
  function Sections(n: Ast.ANode): seq<Ast.ANode>
    decreases n, 0
  {
    (if n.kind.TableHead? || n.kind.TableBody? then [n] else []) + SectionsAll(n.children)
  }

  function SectionsAll(ns: seq<Ast.ANode>): seq<Ast.ANode>
    decreases ns, 1
  {
    if ns == [] then [] else Sections(ns[0]) + SectionsAll(ns[1..])
  }

  /** The source indexes `headers[0]` when it meets a body: every body must
      come after a head with at least one cell. */
  predicate HeadersReady(secs: seq<Ast.ANode>, ready: bool)
    decreases |secs|
  {
    secs == [] ||
      if secs[0].kind.TableHead? then HeadersReady(secs[1..], |CellTexts(secs[0])| > 0)
      else if secs[0].kind.TableBody? then ready && HeadersReady(secs[1..], ready)
      else HeadersReady(secs[1..], ready)
  }

  function TableFold(secs: seq<Ast.ANode>, headers: seq<string>, data: TableData): TableData
    requires HeadersReady(secs, |headers| > 0)
    decreases |secs|
  {
    if secs == [] then data
    else if secs[0].kind.TableHead? then TableFold(secs[1..], CellTexts(secs[0]), data)
    else if secs[0].kind.TableBody? then TableFold(secs[1..], headers, BodyData(headers, secs[0]))
    else TableFold(secs[1..], headers, data)
  }

  /** `handleTable`: the headers of the last head and the rows of the last
      body; a table without a body has no data. */
  function HandleTable(n: Ast.ANode): (r: Node)
    requires HeadersReady(Sections(n), false)
    ensures r.Table? && r.children == []
  {
    Table(TableFold(Sections(n), [], NoData), [])
  }

  /** The usual parsed table, a head then a body: keyed iff the first header
      is empty, with the rows shaped from the body. */
  lemma HandleTableHeadBody(head: Ast.ANode, body: Ast.ANode)
    requires head.kind.TableHead? && body.kind.TableBody?
    requires Sections(head) == [head] && Sections(body) == [body]
    requires |CellTexts(head)| > 0
    ensures var t := Ast.Plain(Ast.Table, [head, body]);
      var headers := CellTexts(head);
      HeadersReady(Sections(t), false) && HandleTable(t).data == BodyData(headers, body)
  {
    var t := Ast.Plain(Ast.Table, [head, body]);
    var headers := CellTexts(head);
    assert [head, body][1..] == [body];
    assert SectionsAll([body]) == [body];
    assert Sections(t) == [head, body];
    assert [head, body][1..] == [body] && [body][1..] == [];
    assert TableFold([], headers, BodyData(headers, body)) == BodyData(headers, body);
    assert TableFold([body], headers, NoData) == BodyData(headers, body);
    assert TableFold([head, body], [], NoData) == TableFold([body], headers, NoData);
  }

  // ---------------------------------------------------------------------
  // RenderNode: the document walk
  // ---------------------------------------------------------------------

  function CloseHeading(o: OpenHeading<seq<Node>>): Node
  {
    Heading(o.title, o.level, o.content)
  }

  function AddChild(c: seq<Node>, x: Node): seq<Node>
  {
    c + [x]
  }

  /** Headings are `HeadingNode`s whose children grow by appending. */
  const LibOps: Ops<seq<Node>, Node> := Ops(CloseHeading, AddChild, [])

  datatype Builder = Builder(hs: Stack<seq<Node>, Node>, images: Registry)

  /** The states reachable before `GetNodes`. */
  predicate BuilderOk(b: Builder)
  {
    Wf(b.hs) && (forall i :: 0 <= i < |b.hs.stack| ==> b.hs.stack[i].level >= 0) && Distinct(b.images)
  }

  function NewBuilder(): (b: Builder)
    ensures BuilderOk(b)
  {
    Builder(Init(), [])
  }

  function Emit(b: Builder, x: Node, images: Registry): (r: Builder)
    requires BuilderOk(b) && Distinct(images)
    ensures BuilderOk(r) && r.images == images
  {
    Builder(Append(LibOps, b.hs, x), images)
  }

  /** Whether the walk can reach a table whose body comes before any
      non-empty head (the source would index an empty header list). */
  predicate Renderable(n: Ast.ANode)
    decreases n, 0
  {
    if n.kind.Table? then HeadersReady(Sections(n), false)
    else if n.kind.BlockQuote? || n.kind.List? then true
    else RenderableAll(n.children)
  }

  predicate RenderableAll(ns: seq<Ast.ANode>)
    decreases ns, 1
  {
    ns == [] || (Renderable(ns[0]) && RenderableAll(ns[1..]))
  }

  /** `RenderNode` on entering `n`, then the walk of its children unless the
      callback skips them (tables, lists, block quotes). */
  function RenderNode(b: Builder, n: Ast.ANode): (r: Builder)
    requires BuilderOk(b) && Renderable(n)
    ensures BuilderOk(r) && b.images <= r.images
    decreases n, 0
  {
    var k := n.kind;
    if k.Document? then RenderAll(b, n.children)
    else if k.Heading? then
      RenderAll(Builder(HandleHeader(LibOps, b.hs, n.level, Ast.ExtractText(n)), b.images), n.children)
    else if k.Table? then Emit(b, HandleTable(n), b.images)
    else if k.List? then
      var (list, images) := HandleList(n, b.images);
      Emit(b, list, images)
    else if k.Paragraph? then
      var (content, images) := Content(n, b.images);
      RenderAll(Emit(b, Paragraph(content), images), n.children)
    else if k.Hardbreak? then RenderAll(Emit(b, Base(NodeTypeLineBreak, []), b.images), n.children)
    else if k.Softbreak? then RenderAll(Emit(b, Base(NodeTypeSoftBreak, []), b.images), n.children)
    else if k.HorizontalRule? then RenderAll(Emit(b, Base(NodeTypeLineSeparator, []), b.images), n.children)
    else if k.BlockQuote? then
      var (content, images) := Content(n, b.images);
      Emit(b, Base(NodeTypeBlockquote, content), images)
    else if k.CodeBlock? then
      // the source passes (code, language) to NewCodeBlockNode(language, code)
      RenderAll(Emit(b, CodeBlock(n.literal, n.info, []), b.images), n.children)
    else RenderAll(b, n.children)
  }

  function RenderAll(b: Builder, ns: seq<Ast.ANode>): (r: Builder)
    requires BuilderOk(b) && RenderableAll(ns)
    ensures BuilderOk(r) && b.images <= r.images
    decreases ns, 1
  {
    if ns == [] then b else RenderAll(RenderNode(b, ns[0]), ns[1..])
  }

  /** `GetNodes`: close every open heading into the root. */
  function GetNodes(b: Builder): (r: (Builder, seq<Node>))
    requires BuilderOk(b)
    ensures r.0.hs.stack == [] && r.1 == r.0.hs.root && r.0.images == b.images
  {
    FinalizeZeroEmpties(LibOps, b.hs);
    var (hs, nodes) := HeadingStacks.GetNodes(LibOps, b.hs);
    (Builder(hs, b.images), nodes)
  }

  /** A second `GetNodes` returns the same nodes. */
  lemma GetNodesTwice(b: Builder)
    requires BuilderOk(b)
    ensures GetNodes(b).0.hs == HeadingStacks.GetNodes(LibOps, GetNodes(b).0.hs).0
    ensures GetNodes(b).1 == HeadingStacks.GetNodes(LibOps, GetNodes(b).0.hs).1
  {
    GetNodesIdempotent(LibOps, b.hs);
  }

  /** Before any heading, content goes to the root in walk order. */
  lemma ContentBeforeHeadingGoesToRoot(b: Builder, x: Node)
    requires BuilderOk(b) && !b.hs.started
    ensures Emit(b, x, b.images).hs.root == b.hs.root + [x]
  {
  }

  /** The nesting example: H1 A, text1, H2 B, text2, H1 C, text3, then
      `GetNodes`, gives root [A, C] with A holding [text1, B], B holding
      [text2] and C holding [text3]. */
  lemma HeadingNestingExample(t1: Node, t2: Node, t3: Node)
    ensures
      var s2 := Append(LibOps, HandleHeader(LibOps, Init(), 1, "A"), t1);
      var s4 := Append(LibOps, HandleHeader(LibOps, s2, 2, "B"), t2);
      var s6 := Append(LibOps, HandleHeader(LibOps, s4, 1, "C"), t3);
      HeadingStacks.GetNodes(LibOps, s6).1 ==
        [Heading("A", 1, [t1, Heading("B", 2, [t2])]), Heading("C", 1, [t3])]
  {
    NestingOpenA(t1);
    NestingOpenB(t1, t2);
    NestingOpenC(t1, t2, t3);
    NestingClose(Heading("A", 1, [t1, Heading("B", 2, [t2])]), t3);
  }

  lemma NestingOpenA(t1: Node)
    ensures Append(LibOps, HandleHeader(LibOps, Init(), 1, "A"), t1) == Stack([], [OpenHeading(1, "A", [t1])], true)
  {
    var h := OpenHeading(1, "A", LibOps.initial);
    var s1 := Stack([], [h], true);
    assert s1.stack[..0] + [AddTo(LibOps, h, t1)] == [OpenHeading(1, "A", [t1])] by {
      assert LibOps.add(h.content, t1) == [t1];
    }
    var s0: Stack<seq<Node>, Node> := Init();
    assert s0.stack + [h] == [h];
    HandleHeaderNests(LibOps, s0, 1, "A");
    AppendToOpen(LibOps, s1, t1);
  }

  lemma NestingOpenB(t1: Node, t2: Node)
    ensures var s2 := Stack([], [OpenHeading(1, "A", [t1])], true);
      Append(LibOps, HandleHeader(LibOps, s2, 2, "B"), t2)
      == Stack([], [OpenHeading(1, "A", [t1]), OpenHeading(2, "B", [t2])], true)
  {
    var s2 := Stack([], [OpenHeading(1, "A", [t1])], true);
    var h := OpenHeading(2, "B", LibOps.initial);
    var s3 := Stack([], [OpenHeading(1, "A", [t1]), h], true);
    assert s3.stack[..1] + [AddTo(LibOps, h, t2)] == [OpenHeading(1, "A", [t1]), OpenHeading(2, "B", [t2])] by {
      assert LibOps.add(h.content, t2) == [t2];
    }
    assert s2.stack + [h] == s3.stack;
    HandleHeaderNests(LibOps, s2, 2, "B");
    AppendToOpen(LibOps, s3, t2);
  }

  lemma NestingOpenC(t1: Node, t2: Node, t3: Node)
    ensures var s4 := Stack([], [OpenHeading(1, "A", [t1]), OpenHeading(2, "B", [t2])], true);
      Append(LibOps, HandleHeader(LibOps, s4, 1, "C"), t3)
      == Stack([Heading("A", 1, [t1, Heading("B", 2, [t2])])], [OpenHeading(1, "C", [t3])], true)
  {
    var s4 := Stack([], [OpenHeading(1, "A", [t1]), OpenHeading(2, "B", [t2])], true);
    var a := Heading("A", 1, [t1, Heading("B", 2, [t2])]);
    var h := OpenHeading(1, "C", LibOps.initial);
    var s5 := Stack([a], [h], true);
    assert s5.stack[..0] + [AddTo(LibOps, h, t3)] == [OpenHeading(1, "C", [t3])] by {
      assert LibOps.add(h.content, t3) == [t3];
    }
    assert Collapse(LibOps, s4.stack) == a by {
      assert s4.stack[1..] == [OpenHeading(2, "B", [t2])];
      assert Collapse(LibOps, s4.stack[1..]) == Heading("B", 2, [t2]);
    }
    HandleHeaderClosesAll(LibOps, s4, 1, "C");
    AppendToOpen(LibOps, s5, t3);
  }

  lemma NestingClose(a: Node, t3: Node)
    ensures HeadingStacks.GetNodes(LibOps, Stack([a], [OpenHeading(1, "C", [t3])], true)).1 == [a, Heading("C", 1, [t3])]
  {
    GetNodesClosesAll(LibOps, Stack([a], [OpenHeading(1, "C", [t3])], true));
  }

  /** The code block the walk emits has language and code exchanged: the
      source hands (code, language) to a constructor taking (language, code).
      Content extraction builds its code blocks the right way round. */
  lemma CodeBlockArgumentsSwapped(b: Builder, code: string, info: string)
    requires BuilderOk(b) && !b.hs.started
    ensures var n := Ast.ANode(Ast.CodeBlock, code, 0, "", info, []);
      && RenderNode(b, n).hs.root == b.hs.root + [CodeBlock(code, info, [])]
      && Content(n, b.images).0 == [CodeBlock(info, code, [])]
  {
  }
}
