/** The Markdown re-renderer of libs/mdrenderer/renderer.go: a callback the
    parser's walk calls on entering and on leaving each node, writing Markdown
    text and keeping a little state between calls (the block-quote prefix,
    one counter per open list, the indentation depth and the table
    alignment).

    Here the walk is a sequence of events, each carrying the node fields the
    callback reads, and one callback call is `Step`: the next state and the
    text written, or `Panic` where the Go code would index out of range,
    dereference a nil parent or repeat a string a negative number of times.
    Output written before a panic is not kept. */
module Renderer {
  import opened Options
  import opened Strings
  import Ast

  datatype Align = AlignNone | AlignLeft | AlignRight | AlignCenter

  /** Where a paragraph sits: its parent's type, its grandparent's type and
      whether that is a tight list, and whether it has a previous sibling.
      A missing parent is `None`. */
  datatype Place = Place(parent: Option<Ast.Kind>, grandparent: Option<Ast.Kind>, tight: bool, hasPrev: bool)

  /** One callback call: the node's type, whether the walk is entering it,
      and the node fields the callback reads. */
  datatype Event = Event(
    kind: Ast.Kind, entering: bool,
    literal: string, level: nat, destination: string, title: string, info: string,
    ordered: bool, delimiter: char, bullet: char, align: Align, place: Place)

  datatype State = State(
    decoration: string, nestedListLevel: int, counters: seq<int>,
    alignment: seq<Align>, inTableHeader: bool, cellCounter: int, indentLevel: int)

  datatype Outcome = Ok(st: State, out: string) | Panic

  /** `NewRenderer`: every field at its zero value. */
  const Start: State := State("", 0, [], [], false, 0, 0)

  // ---------------------------------------------------------------------
  // Helpers of the callback
  // ---------------------------------------------------------------------

  /** `currentIndentation`: four spaces per level; `strings.Repeat` panics
      on a negative count. */
  function Indentation(level: int): (r: Option<string>)
    ensures r.Some? <==> level >= 0
    ensures r.Some? ==> |r.value| == 4 * level
    ensures r.Some? ==> forall i :: 0 <= i < |r.value| ==> r.value[i] == ' '
  {
    if level < 0 then None
    else
      RepeatUniform("    ", level, ' ');
      Some(Repeat("    ", level))
  }

  /** `skipParagraphNewline`: no blank line after a paragraph inside a block
      quote or inside an item of a tight list; a paragraph without a parent
      that is not in a block quote dereferences nil. */
  function SkipParagraphNewline(p: Place): (r: Option<bool>)
    ensures r.None? <==> p.parent.None?
    ensures r.Some? ==> (r.value <==> p.parent == Some(Ast.BlockQuote) || (p.grandparent == Some(Ast.List) && p.tight))
  {
    if p.parent.Some? && p.parent.value == Ast.BlockQuote then Some(true)
    else if p.parent.None? then None
    else if p.grandparent.None? || p.grandparent.value != Ast.List then Some(false)
    else Some(p.tight)
  }

  /** The alignment marker of one column. */
  function Marker(a: Align): string
  {
    match a
    case AlignLeft => " :---"
    case AlignRight => " ---:"
    case AlignCenter => " :---:"
    case AlignNone => " ---"
  }

  /** The column markers, in column order. */
  function Markers(aligns: seq<Align>): (r: seq<string>)
    ensures |r| == |aligns|
  {
    if aligns == [] then [] else [Marker(aligns[0])] + Markers(aligns[1..])
  }

  /** The loop over the alignments when the table head is left: `" |"`
      before every column but the first, then the column's marker. */
  function AlignFrom(aligns: seq<Align>, first: bool): string
  {
    if aligns == [] then ""
    else (if first then "" else " |") + (Marker(aligns[0]) + AlignFrom(aligns[1..], false))
  }

  /** The close of a link or image, with the title written the evident way:
      a space and a double quote before it and a double quote after it. */
  function LinkClose(destination: string, title: string): (r: string)
    ensures title == "" ==> r == "](" + destination + ")"
    ensures |r| == |destination| + 3 + (if title == "" then 0 else |title| + 3)
  {
    "](" + destination + (if |title| > 0 then " \"" + title + "\"" else "") + ")"
  }

  /** The close of a link or image as the source writes it: the bytes before
      the title are the empty string, so the title runs straight into the
      destination and only a closing quote follows it. */
  function LinkCloseAsWritten(destination: string, title: string): (r: string)
    ensures title == "" ==> r == LinkClose(destination, title)
  {
    "](" + destination + (if |title| > 0 then "" + title + "\"" else "") + ")"
  }

  // ---------------------------------------------------------------------
  // The callback
  // ---------------------------------------------------------------------

  function BlockQuoteStep(st: State, entering: bool): Outcome
  {
    if entering then
      match Indentation(st.indentLevel)
      case None => Panic
      case Some(ind) => Ok(st.(decoration := st.decoration + "> "), ind)
    else if |st.decoration| < 2 then Panic
    else Ok(st.(decoration := st.decoration[..|st.decoration| - 2]), "\n")
  }

  function ListStep(st: State, entering: bool): Outcome
  {
    if entering then Ok(st.(nestedListLevel := st.nestedListLevel + 1, counters := st.counters + [0]), "")
    else if |st.counters| == 0 then Panic
    else
      var level := st.nestedListLevel - 1;
      Ok(st.(nestedListLevel := level, counters := st.counters[..|st.counters| - 1]), if level == 0 then "\n" else "")
  }

  function ItemStep(st: State, e: Event): Outcome
  {
    if e.entering then
      match Indentation(st.indentLevel)
      case None => Panic
      case Some(ind) =>
        var st1 := st.(indentLevel := st.indentLevel + 1);
        if e.ordered then
          if |st.counters| == 0 then Panic
          else
            var n := |st.counters|;
            var c := st.counters[n - 1] + 1;
            Ok(st1.(counters := st.counters[..n - 1] + [c]), ind + IntToString(c) + [e.delimiter, ' '])
        else Ok(st1, ind + [e.bullet, ' '])
    else Ok(st.(indentLevel := st.indentLevel - 1), "")
  }

  function ParagraphStep(st: State, e: Event): Outcome
  {
    if e.entering then
      if e.place.parent == Some(Ast.Item) then
        if e.place.hasPrev then
          match Indentation(st.indentLevel)
          case None => Panic
          case Some(ind) => Ok(st, ind)
        else Ok(st, "")
      else Ok(st, st.decoration)
    else
      match SkipParagraphNewline(e.place)
      case None => Panic
      case Some(skip) => Ok(st, if skip then "\n" else "\n\n")
  }

  function TableHeadStep(st: State, entering: bool): Outcome
  {
    if entering then Ok(st.(inTableHeader := true, alignment := []), "")
    else Ok(st.(inTableHeader := false), "|" + AlignFrom(st.alignment, true) + " |\n")
  }

  function TableCellStep(st: State, e: Event): Outcome
  {
    if e.entering then
      var st1 := st.(cellCounter := st.cellCounter + 1,
                     alignment := if st.inTableHeader then st.alignment + [e.align] else st.alignment);
      Ok(st1, if st.cellCounter > 0 then " | " else "")
    else Ok(st, "")
  }

  function CodeBlockStep(st: State, e: Event): Outcome
  {
    match Indentation(st.indentLevel)
    case None => Panic
    case Some(ind) => Ok(st, ind + "```" + e.info + "\n" + e.literal + "```\n\n")
  }

  /** Where the Go callback panics: a negative indentation handed to
      `strings.Repeat`, slicing an empty decoration or counter stack, or
      asking a paragraph without a parent for its type. */
  predicate Panics(st: State, e: Event)
  {
    match e.kind
    case BlockQuote => if e.entering then st.indentLevel < 0 else |st.decoration| < 2
    case List => !e.entering && |st.counters| == 0
    case Item => e.entering && (st.indentLevel < 0 || (e.ordered && |st.counters| == 0))
    case Paragraph =>
      if e.entering then e.place.parent == Some(Ast.Item) && e.place.hasPrev && st.indentLevel < 0
      else e.place.parent.None?
    case CodeBlock => st.indentLevel < 0
    case _ => false
  }

  /** `RenderNode`: one callback call. It panics exactly where the Go code
      does, and only block quotes, lists, items and the parts of a table
      change the state. */
  function Step(st: State, e: Event): (r: Outcome)
    ensures r.Panic? <==> Panics(st, e)
    ensures r.Ok? && e.kind !in {Ast.BlockQuote, Ast.List, Ast.Item, Ast.TableHead, Ast.TableRow, Ast.TableCell} ==> r.st == st
  {
    match e.kind
    case Document => Ok(st, "")
    case BlockQuote => BlockQuoteStep(st, e.entering)
    case List => ListStep(st, e.entering)
    case Item => ItemStep(st, e)
    case Paragraph => ParagraphStep(st, e)
    case Heading => Ok(st, if e.entering then Repeat("#", e.level) + " " else "\n\n")
    case HorizontalRule => Ok(st, "---\n\n")
    case Emph => Ok(st, "*")
    case Strong => Ok(st, "**")
    case Del => Ok(st, "~~")
    case Link => Ok(st, if e.entering then "[" else LinkCloseAsWritten(e.destination, e.title))
    case Image => Ok(st, if e.entering then "![" else LinkCloseAsWritten(e.destination, e.title))
    case Code => Ok(st, "`" + e.literal + "`")
    case Text => Ok(st, e.literal)
    case CodeBlock => CodeBlockStep(st, e)
    case Softbreak => Ok(st, "\n")
    case Hardbreak => Ok(st, "  \n")
    case HTMLBlock => Ok(st, e.literal)
    case HTMLSpan => Ok(st, e.literal)
    case Table => Ok(st, if e.entering then "" else "\n")
    case TableHead => TableHeadStep(st, e.entering)
    case TableBody => Ok(st, "")
    case TableRow =>
      if e.entering then Ok(st.(cellCounter := 0), "| ") else Ok(st, " |" + "\n")
    case TableCell => TableCellStep(st, e)
  }

  /** A callback: the next state and the text written, or a panic. */
  type Callback = (State, Event) -> Outcome

  /** The walk: the callbacks in order, their output concatenated; a panic
      ends the walk. */
  function Walk(step: Callback, st: State, es: seq<Event>): (r: Outcome)
    decreases |es|
  {
    if es == [] then Ok(st, "")
    else
      var r := step(st, es[0]);
      if r.Panic? then Panic
      else
        var rest := Walk(step, r.st, es[1..]);
        if rest.Panic? then Panic else Ok(rest.st, r.out + rest.out)
  }

  /** The renderer's walk over a stream of callback calls. */
  function Run(st: State, es: seq<Event>): Outcome
  {
    Walk(Step, st, es)
  }

  /** Walking two streams one after the other is walking their
      concatenation. */
  lemma {:induction false} WalkAppend(step: Callback, st: State, a: seq<Event>, b: seq<Event>)
    requires Walk(step, st, a).Ok?
    ensures var m := Walk(step, st, a);
      var r := Walk(step, m.st, b);
      Walk(step, st, a + b) == if r.Panic? then Panic else Ok(r.st, m.out + r.out)
    decreases |a|
  {
    if a == [] {
      assert a + b == b;
    } else {
      assert (a + b)[1..] == a[1..] + b;
      var r0 := step(st, a[0]);
      WalkAppend(step, r0.st, a[1..], b);
      var m := Walk(step, r0.st, a[1..]);
      var r := Walk(step, m.st, b);
      if r.Ok? {
        assert r0.out + (m.out + r.out) == (r0.out + m.out) + r.out;
      }
    }
  }

  /** A single callback call as a walk. */
  lemma WalkOne(step: Callback, st: State, e: Event)
    requires step(st, e).Ok?
    ensures Walk(step, st, [e]) == step(st, e)
  {
    assert [e][1..] == [];
    assert step(st, e).out + "" == step(st, e).out;
  }

  /** Prepending one call to a walk. */
  lemma WalkCons(step: Callback, st: State, e: Event, es: seq<Event>)
    requires step(st, e).Ok? && Walk(step, step(st, e).st, es).Ok?
    ensures Walk(step, st, [e] + es) == Ok(Walk(step, step(st, e).st, es).st, step(st, e).out + Walk(step, step(st, e).st, es).out)
  {
    assert ([e] + es)[0] == e && ([e] + es)[1..] == es;
  }

  /** A node entered, its children walked, and the node left. */
  lemma WalkAround(step: Callback, st: State, enter: Event, inner: seq<Event>, leave: Event)
    requires step(st, enter).Ok?
    requires Walk(step, step(st, enter).st, inner).Ok?
    requires step(Walk(step, step(st, enter).st, inner).st, leave).Ok?
    ensures var s1 := step(st, enter).st;
      var m := Walk(step, s1, inner);
      var r := step(m.st, leave);
      Walk(step, st, [enter] + inner + [leave]) == Ok(r.st, step(st, enter).out + m.out + r.out)
  {
    var s1 := step(st, enter).st;
    var m := Walk(step, s1, inner);
    WalkOne(step, m.st, leave);
    WalkAppend(step, s1, inner, [leave]);
    WalkCons(step, st, enter, inner + [leave]);
    assert [enter] + (inner + [leave]) == [enter] + inner + [leave];
    var r := step(m.st, leave);
    assert step(st, enter).out + (m.out + r.out) == step(st, enter).out + m.out + r.out;
  }

  /** An event with no payload. */
  function Ev(kind: Ast.Kind, entering: bool): Event
  {
    Event(kind, entering, "", 0, "", "", "", false, ' ', ' ', AlignNone, Place(None, None, false, false))
  }

  // ---------------------------------------------------------------------
  // Lists
  // ---------------------------------------------------------------------

  /** One counter per open list. */
  predicate ListsOk(st: State)
  {
    |st.counters| == st.nestedListLevel
  }

  /** Every callback keeps one counter per open list. */
  lemma StepKeepsListsOk(st: State, e: Event)
    requires ListsOk(st) && Step(st, e).Ok?
    ensures ListsOk(Step(st, e).st)
  {
  }

  lemma {:induction false} RunKeepsListsOk(st: State, es: seq<Event>)
    requires ListsOk(st) && Run(st, es).Ok?
    ensures ListsOk(Run(st, es).st)
    decreases |es|
  {
    if es != [] {
      StepKeepsListsOk(st, es[0]);
      RunKeepsListsOk(Step(st, es[0]).st, es[1..]);
    }
  }

  /** Leaving a list writes a newline exactly when it was the outermost
      open list, and pops its counter. */
  lemma ListLeaveNewline(st: State, e: Event)
    requires ListsOk(st) && e.kind == Ast.List && !e.entering && |st.counters| > 0
    ensures Step(st, e).Ok?
    ensures Step(st, e).out == "\n" <==> |st.counters| == 1
    ensures Step(st, e).out == "" <==> |st.counters| > 1
    ensures Step(st, e).st.counters == st.counters[..|st.counters| - 1]
  {
  }

  /** Entering and then leaving a list restores the list state. */
  lemma ListRoundTrip(st: State)
    ensures Run(st, [Ev(Ast.List, true), Ev(Ast.List, false)]).Ok?
    ensures Run(st, [Ev(Ast.List, true), Ev(Ast.List, false)]).st == st
    ensures Run(st, [Ev(Ast.List, true), Ev(Ast.List, false)]).out == (if st.nestedListLevel == 0 then "\n" else "")
  {
    var s1 := st.(nestedListLevel := st.nestedListLevel + 1, counters := st.counters + [0]);
    assert Step(st, Ev(Ast.List, true)) == Ok(s1, "");
    assert s1.counters[..|s1.counters| - 1] == st.counters;
    assert Step(s1, Ev(Ast.List, false)) == Ok(st, if st.nestedListLevel == 0 then "\n" else "");
    WalkOne(Step, s1, Ev(Ast.List, false));
    WalkCons(Step, st, Ev(Ast.List, true), [Ev(Ast.List, false)]);
    assert [Ev(Ast.List, true)] + [Ev(Ast.List, false)] == [Ev(Ast.List, true), Ev(Ast.List, false)];
  }

  /** An ordered item, entered and left. */
  function OrderedItem(d: char, p: Place): seq<Event>
  {
    [Event(Ast.Item, true, "", 0, "", "", "", true, d, ' ', AlignNone, p),
     Event(Ast.Item, false, "", 0, "", "", "", true, d, ' ', AlignNone, p)]
  }

  /** `n` sibling ordered items. */
  function OrderedItems(d: char, p: Place, n: nat): seq<Event>
  {
    if n == 0 then [] else OrderedItems(d, p, n - 1) + OrderedItem(d, p)
  }

  /** What an ordered item writes: the indentation, its number, the
      delimiter and a space. */
  function Mark(ind: string, k: int, d: char): string
  {
    ind + IntToString(k) + [d, ' ']
  }

  /** The text the first `n` siblings write after `c` earlier ones. */
  function Numbered(ind: string, d: char, c: int, n: nat): string
  {
    if n == 0 then "" else Numbered(ind, d, c, n - 1) + Mark(ind, c + n, d)
  }

  /** The state after ordered items: the top counter advanced by `n`. */
  function Advanced(st: State, n: nat): State
    requires |st.counters| > 0
  {
    var k := |st.counters|;
    st.(counters := st.counters[..k - 1] + [st.counters[k - 1] + n])
  }

  /** Entering an ordered item: indentation, the incremented top counter,
      the delimiter and a space; one level deeper. */
  lemma OrderedEnterStep(st: State, e: Event)
    requires e.kind == Ast.Item && e.entering && e.ordered && |st.counters| > 0 && st.indentLevel >= 0
    ensures Step(st, e) == Ok(Advanced(st, 1).(indentLevel := st.indentLevel + 1),
      Indentation(st.indentLevel).value + IntToString(st.counters[|st.counters| - 1] + 1) + [e.delimiter, ' '])
  {
  }

  lemma ItemLeaveStep(st: State, e: Event)
    requires e.kind == Ast.Item && !e.entering
    ensures Step(st, e) == Ok(st.(indentLevel := st.indentLevel - 1), "")
  {
  }

  /** One ordered item increments the top counter and writes it. */
  lemma OrderedItemStep(st: State, d: char, p: Place)
    requires |st.counters| > 0 && st.indentLevel >= 0
    ensures Run(st, OrderedItem(d, p)) == Ok(Advanced(st, 1), ItemMark(st, d))
  {
    var es := OrderedItem(d, p);
    OrderedEnterStep(st, es[0]);
    var s1 := Advanced(st, 1).(indentLevel := st.indentLevel + 1);
    ItemLeaveStep(s1, es[1]);
    assert s1.(indentLevel := s1.indentLevel - 1) == Advanced(st, 1);
    WalkOne(Step, s1, es[1]);
    WalkCons(Step, st, es[0], [es[1]]);
    assert [es[0]] + [es[1]] == es;
  }

  /** What one ordered item writes from a state with an open list: the top
      counter advanced by one. */
  function ItemMark(st: State, d: char): string
    requires |st.counters| > 0 && st.indentLevel >= 0
  {
    Mark(Indentation(st.indentLevel).value, st.counters[|st.counters| - 1] + 1, d)
  }

  /** A callback numbers the ordered items `d`, `p` one by one. */
  ghost predicate NumbersEachItem(step: Callback, d: char, p: Place)
  {
    forall s: State {:trigger Walk(step, s, OrderedItem(d, p))} :: |s.counters| > 0 && s.indentLevel >= 0 ==>
      Walk(step, s, OrderedItem(d, p)) == Ok(Advanced(s, 1), ItemMark(s, d))
  }

  /** A callback that numbers items one by one numbers `n` siblings on from
      the top counter. */
  lemma {:induction false} WalkNumbers(step: Callback, st: State, d: char, p: Place, n: nat)
    requires NumbersEachItem(step, d, p) && |st.counters| > 0 && st.indentLevel >= 0
    ensures Walk(step, st, OrderedItems(d, p, n)) ==
      Ok(Advanced(st, n), Numbered(Indentation(st.indentLevel).value, d, st.counters[|st.counters| - 1], n))
  {
    var k := |st.counters|;
    var c := st.counters[k - 1];
    if n == 0 {
      assert st.counters[..k - 1] + [c] == st.counters;
      assert Advanced(st, 0) == st;
    } else {
      WalkNumbers(step, st, d, p, n - 1);
      var mid := Advanced(st, n - 1);
      assert |mid.counters| == k && mid.counters[k - 1] == c + (n - 1) && mid.indentLevel == st.indentLevel;
      WalkAppend(step, st, OrderedItems(d, p, n - 1), OrderedItem(d, p));
      assert mid.counters[..k - 1] == st.counters[..k - 1];
      assert Advanced(mid, 1) == Advanced(st, n);
    }
  }

  /** Sibling ordered items are numbered on from the top counter: after `c`
      items, the next `n` write `c + 1`, …, `c + n`, each after the
      indentation and followed by the delimiter and a space. */
  lemma OrderedItemsNumbered(st: State, d: char, p: Place, n: nat)
    requires |st.counters| > 0 && st.indentLevel >= 0
    ensures Run(st, OrderedItems(d, p, n)) ==
      Ok(Advanced(st, n), Numbered(Indentation(st.indentLevel).value, d, st.counters[|st.counters| - 1], n))
  {
    forall s: State | |s.counters| > 0 && s.indentLevel >= 0
      ensures Walk(Step, s, OrderedItem(d, p)) == Ok(Advanced(s, 1), ItemMark(s, d))
    {
      OrderedItemStep(s, d, p);
    }
    WalkNumbers(Step, st, d, p, n);
  }

  /** In a freshly opened list the items are numbered 1, 2, 3, … */
  lemma FreshListCountsFromOne(st: State, d: char, p: Place, n: nat)
    requires st.indentLevel >= 0
    ensures var s1 := Step(st, Ev(Ast.List, true)).st;
      && Step(st, Ev(Ast.List, true)).Ok? && s1.counters[|s1.counters| - 1] == 0
      && Run(s1, OrderedItems(d, p, n)) == Ok(Advanced(s1, n), Numbered(Indentation(st.indentLevel).value, d, 0, n))
  {
    var s1 := st.(nestedListLevel := st.nestedListLevel + 1, counters := st.counters + [0]);
    assert Step(st, Ev(Ast.List, true)) == Ok(s1, "");
    OrderedItemsNumbered(s1, d, p, n);
  }

  /** The numeral of the `i`-th item of a fresh list reads back as `i`. */
  lemma ItemNumeralReadsBack(i: nat)
    ensures IntToString(0 + i) == NatToString(i) && ParseDecimal(IntToString(0 + i)) == i
  {
    NatToStringRoundTrip(i);
  }

  /** Entering an unordered item writes the current indentation, the
      bullet and a space, and deepens the indentation by one level; leaving
      it restores the depth. */
  lemma ItemIndents(st: State, enter: Event, leave: Event)
    requires enter.kind == Ast.Item && enter.entering && !enter.ordered && st.indentLevel >= 0
    requires leave.kind == Ast.Item && !leave.entering
    ensures var r := Step(st, enter);
      && r.Ok? && r.st.indentLevel == st.indentLevel + 1
      && r.out == Repeat("    ", st.indentLevel) + [enter.bullet, ' ']
      && Step(r.st, leave) == Ok(st, "")
  {
  }

  // ---------------------------------------------------------------------
  // Block quotes and paragraphs
  // ---------------------------------------------------------------------

  /** Entering a block quote pushes `"> "` onto the paragraph decoration,
      leaving it removes exactly that, and a paragraph outside an item inside
      the quote writes the decoration with the new prefix. */
  lemma QuoteRoundTrip(st: State, enter: Event, para: Event, leave: Event)
    requires enter.kind == Ast.BlockQuote && enter.entering && st.indentLevel >= 0
    requires leave.kind == Ast.BlockQuote && !leave.entering
    requires para.kind == Ast.Paragraph && para.entering && para.place.parent != Some(Ast.Item)
    ensures var r := Step(st, enter);
      && r.Ok? && r.st.decoration == st.decoration + "> "
      && Step(r.st, para) == Ok(r.st, st.decoration + "> ")
      && Step(r.st, leave) == Ok(st, "\n")
  {
    var d := st.decoration + "> ";
    assert d[..|d| - 2] == st.decoration;
  }

  /** A paragraph ends with one newline, and with a second one unless its
      parent is a block quote or its grandparent a tight list. */
  lemma ParagraphEnd(st: State, e: Event)
    requires e.kind == Ast.Paragraph && !e.entering && e.place.parent.Some?
    ensures Step(st, e).Ok? && Step(st, e).st == st
    ensures Step(st, e).out == "\n\n" <==>
      e.place.parent != Some(Ast.BlockQuote) && !(e.place.grandparent == Some(Ast.List) && e.place.tight)
    ensures Step(st, e).out == "\n" || Step(st, e).out == "\n\n"
  {
  }

  /** A paragraph without a parent, outside a block quote, dereferences nil
      when it is left. */
  lemma ParagraphWithoutParentPanics(st: State, e: Event)
    requires e.kind == Ast.Paragraph && !e.entering && e.place.parent.None?
    ensures Step(st, e).Panic?
  {
  }

  // ---------------------------------------------------------------------
  // Headings and inline markers
  // ---------------------------------------------------------------------

  /** A heading opens with one `#` per level and a space, and closes with a
      blank line. */
  lemma HeadingMarkers(st: State, enter: Event, leave: Event)
    requires enter.kind == Ast.Heading && enter.entering
    requires leave.kind == Ast.Heading && !leave.entering
    ensures var o := Step(st, enter).out;
      && Step(st, enter).Ok? && |o| == enter.level + 1 && o[enter.level] == ' '
      && (forall i :: 0 <= i < enter.level ==> o[i] == '#')
      && Step(st, leave) == Ok(st, "\n\n")
  {
    RepeatUniform("#", enter.level, '#');
  }

  /** Emphasis, strong text and strike-through write the same marker on
      entering and on leaving, and change nothing else. */
  lemma InlineMarkersSymmetric(st: State, e: Event)
    requires e.kind == Ast.Emph || e.kind == Ast.Strong || e.kind == Ast.Del
    ensures Step(st, e) == Step(st, e.(entering := !e.entering))
    ensures Step(st, e).Ok? && Step(st, e).st == st
    ensures Step(st, e).out == (if e.kind == Ast.Emph then "*" else if e.kind == Ast.Strong then "**" else "~~")
  {
  }

  // ---------------------------------------------------------------------
  // Link and image titles
  // ---------------------------------------------------------------------

  /** As written, the title cannot be told apart from the destination: the
      link to "a" titled "bc" and the link to "ab" titled "c" close with the
      same bytes. */
  lemma TitleRunsIntoDestination(st: State, e1: Event, e2: Event)
    requires e1.kind == Ast.Link && !e1.entering && e1.destination == "a" && e1.title == "bc"
    requires e2.kind == Ast.Link && !e2.entering && e2.destination == "ab" && e2.title == "c"
    ensures Step(st, e1) == Step(st, e2) == Ok(st, "](abc\")")
  {
  }

  /** As written, moving any non-empty front part of the title to the end of
      the destination leaves the close of a link or image unchanged. */
  lemma TitleSplitAmbiguous(st: State, e: Event, k: nat)
    requires (e.kind == Ast.Link || e.kind == Ast.Image) && !e.entering
    requires 0 < k < |e.title|
    ensures Step(st, e) == Step(st, e.(destination := e.destination + e.title[..k], title := e.title[k..]))
  {
    AsWrittenSplit(e.destination, e.title, k);
  }

  lemma AsWrittenSplit(d: string, t: string, k: nat)
    requires 0 < k < |t|
    ensures LinkCloseAsWritten(d, t) == LinkCloseAsWritten(d + t[..k], t[k..])
  {
    assert "" + t == t[..k] + t[k..];
    assert "" + t[k..] == t[k..];
    Reassoc(d, t[..k], t[k..], "\"");
  }

  lemma Reassoc<T>(a: seq<T>, b: seq<T>, c: seq<T>, q: seq<T>)
    ensures a + ((b + c) + q) == (a + b) + (c + q)
  {
  }

  /** The corrected callback: the close of a link or image writes a space
      and a double quote before the title; every other call is `Step`'s. */
  function QuotedStep(st: State, e: Event): (r: Outcome)
    ensures !((e.kind == Ast.Link || e.kind == Ast.Image) && !e.entering && e.title != "") ==> r == Step(st, e)
  {
    if (e.kind == Ast.Link || e.kind == Ast.Image) && !e.entering then Ok(st, LinkClose(e.destination, e.title))
    else Step(st, e)
  }

  /** With the corrected callback, destination and title read back from the
      close of every link or image whose destination has no space. */
  lemma QuotedCloseRoundTrip(st: State, e: Event)
    requires (e.kind == Ast.Link || e.kind == Ast.Image) && !e.entering
    requires forall j :: 0 <= j < |e.destination| ==> e.destination[j] != ' '
    ensures QuotedStep(st, e).Ok? && QuotedStep(st, e).st == st
    ensures ParseLinkClose(QuotedStep(st, e).out) == Some((e.destination, e.title))
  {
    LinkCloseRoundTrip(e.destination, e.title);
  }

  /** Reads destination and title back from the close of a link. */
  function ParseLinkClose(s: string): (r: Option<(string, string)>)
  {
    if |s| < 3 || s[..2] != "](" || s[|s| - 1] != ')' then None
    else ParseTarget(s[2..|s| - 1])
  }

  /** Splits a link target at its first space: the destination, then the
      title in double quotes. */
  function ParseTarget(body: string): (r: Option<(string, string)>)
  {
    var i := SpaceIndex(body);
    if i == |body| then Some((body, ""))
    else if |body| - i < 3 || body[i + 1] != '"' || body[|body| - 1] != '"' then None
    else Some((body[..i], body[i + 2..|body| - 1]))
  }

  /** Index of the first space, or the length when there is none. */
  function SpaceIndex(s: string): (i: nat)
    ensures i <= |s|
    ensures forall j :: 0 <= j < i ==> s[j] != ' '
    ensures i < |s| ==> s[i] == ' '
  {
    if s == [] then 0 else if s[0] == ' ' then 0 else 1 + SpaceIndex(s[1..])
  }

  /** With the title written the evident way, destination and title read
      back from the close of every link whose destination has no space. */
  lemma LinkCloseRoundTrip(destination: string, title: string)
    requires forall j :: 0 <= j < |destination| ==> destination[j] != ' '
    ensures ParseLinkClose(LinkClose(destination, title)) == Some((destination, title))
  {
    var tail := if |title| > 0 then " \"" + title + "\"" else "";
    var body := destination + tail;
    var s := LinkClose(destination, title);
    assert s == "](" + body + ")";
    assert s[..2] == "](" && s[2..|s| - 1] == body;
    TargetRoundTrip(destination, title);
  }

  lemma TargetRoundTrip(destination: string, title: string)
    requires forall j :: 0 <= j < |destination| ==> destination[j] != ' '
    ensures var tail := if |title| > 0 then " \"" + title + "\"" else "";
      ParseTarget(destination + tail) == Some((destination, title))
  {
    var tail := if |title| > 0 then " \"" + title + "\"" else "";
    var body := destination + tail;
    SpaceIndexAt(destination, tail);
    if |title| > 0 {
      assert body[..|destination|] == destination;
      assert body[|destination| + 2..|body| - 1] == title;
    } else {
      assert body == destination;
    }
  }

  lemma {:induction false} SpaceIndexAt(d: string, tail: string)
    requires forall j :: 0 <= j < |d| ==> d[j] != ' '
    requires tail == [] || tail[0] == ' '
    ensures SpaceIndex(d + tail) == |d|
    decreases |d|
  {
    if d == [] {
      assert d + tail == tail;
    } else {
      assert (d + tail)[0] == d[0];
      assert (d + tail)[1..] == d[1..] + tail;
      SpaceIndexAt(d[1..], tail);
    }
  }

  // ---------------------------------------------------------------------
  // Tables
  // ---------------------------------------------------------------------

  /** A row of cell texts in pipe-table form. */
  function RowLine(ts: seq<string>): string
  {
    "| " + Join(ts, " | ") + " |\n"
  }

  /** The delimiter row of a pipe table: one marker per column. */
  function AlignLine(aligns: seq<Align>): string
  {
    "|" + Join(Markers(aligns), " |") + " |\n"
  }

  /** The alignment row as the loop writes it is `"|"`, the column markers
      joined by `" |"`, then `" |"` and a newline. */
  lemma AlignmentRow(aligns: seq<Align>)
    ensures "|" + AlignFrom(aligns, true) + " |\n" == AlignLine(aligns)
  {
    AlignJoined(aligns);
  }

  /** The loop joins the column markers with `" |"`. */
  lemma AlignJoined(aligns: seq<Align>)
    ensures AlignFrom(aligns, true) == Join(Markers(aligns), " |")
  {
    if aligns != [] {
      AlignTail(aligns[1..]);
      JoinFront(Marker(aligns[0]), Markers(aligns[1..]), " |");
      assert Marker(aligns[0]) + "" == Marker(aligns[0]);
    }
  }

  /** After the first column, the loop writes `" |"` and the joined markers
      of the remaining columns. */
  lemma {:induction false} AlignTail(aligns: seq<Align>)
    ensures AlignFrom(aligns, false) == (if aligns == [] then "" else " |" + Join(Markers(aligns), " |"))
  {
    if aligns != [] {
      AlignTail(aligns[1..]);
      JoinFront(Marker(aligns[0]), Markers(aligns[1..]), " |");
      assert Marker(aligns[0]) + "" == Marker(aligns[0]);
    }
  }

  /** The events of one cell holding the text `t`. */
  function Cell(t: string, a: Align): seq<Event>
  {
    [Ev(Ast.TableCell, true).(align := a), Ev(Ast.Text, true).(literal := t), Ev(Ast.TableCell, false).(align := a)]
  }

  /** The events of a sequence of cells. */
  function Cells(ts: seq<string>, aligns: seq<Align>): seq<Event>
    requires |ts| == |aligns|
    decreases |ts|
  {
    if ts == [] then [] else Cells(ts[..|ts| - 1], aligns[..|aligns| - 1]) + Cell(ts[|ts| - 1], aligns[|aligns| - 1])
  }

  /** The state after the cells of a row. */
  function AfterCells(st: State, n: nat, aligns: seq<Align>): State
  {
    st.(cellCounter := st.cellCounter + n, alignment := if st.inTableHeader then st.alignment + aligns else st.alignment)
  }

  /** One cell: a separator unless it is the row's first, then its text. */
  lemma CellStep(st: State, t: string, a: Align)
    requires st.cellCounter >= 0
    ensures Run(st, Cell(t, a)) == Ok(AfterCells(st, 1, [a]), (if st.cellCounter > 0 then " | " else "") + t)
  {
    var es := Cell(t, a);
    var s1 := AfterCells(st, 1, [a]);
    var sep := if st.cellCounter > 0 then " | " else "";
    assert Step(st, es[0]) == Ok(s1, sep);
    assert Step(s1, es[1]) == Ok(s1, t);
    assert Step(s1, es[2]) == Ok(s1, "");
    WalkOne(Step, s1, es[2]);
    WalkCons(Step, s1, es[1], [es[2]]);
    assert [es[1]] + [es[2]] == es[1..];
    WalkCons(Step, st, es[0], es[1..]);
    assert [es[0]] + es[1..] == es;
    assert sep + (t + "") == sep + t;
  }

  /** A callback writes the cells of a row one by one. */
  ghost predicate WritesEachCell(step: Callback)
  {
    forall s: State, t: string, a: Align {:trigger Walk(step, s, Cell(t, a))} :: s.cellCounter >= 0 ==>
      Walk(step, s, Cell(t, a)) == Ok(AfterCells(s, 1, [a]), (if s.cellCounter > 0 then " | " else "") + t)
  }

  /** A callback that writes cells one by one joins a row's texts. */
  lemma {:induction false} WalkCells(step: Callback, st: State, ts: seq<string>, aligns: seq<Align>)
    requires WritesEachCell(step) && st.cellCounter == 0 && |ts| == |aligns|
    ensures Walk(step, st, Cells(ts, aligns)) == Ok(AfterCells(st, |ts|, aligns), Join(ts, " | "))
    decreases |ts|
  {
    var n := |ts|;
    if n == 0 {
      assert st.alignment + aligns == st.alignment;
    } else {
      var ts0 := ts[..n - 1];
      var as0 := aligns[..n - 1];
      var t := ts[n - 1];
      var a := aligns[n - 1];
      WalkCells(step, st, ts0, as0);
      var mid := AfterCells(st, n - 1, as0);
      var sep := if n > 1 then " | " else "";
      assert Walk(step, mid, Cell(t, a)) == Ok(AfterCells(mid, 1, [a]), sep + t);
      assert Cells(ts, aligns) == Cells(ts0, as0) + Cell(t, a);
      WalkAppend(step, st, Cells(ts0, as0), Cell(t, a));
      JoinLast(ts, " | ");
      assert AfterCells(mid, 1, [a]) == AfterCells(st, n, aligns) by {
        FrontLast(aligns);
        assert (st.alignment + as0) + [a] == st.alignment + (as0 + [a]);
      }
    }
  }

  /** The cells of a row write their texts joined by `" | "`, and in the
      table head they record their alignments in order. */
  lemma CellsJoined(st: State, ts: seq<string>, aligns: seq<Align>)
    requires st.cellCounter == 0 && |ts| == |aligns|
    ensures Run(st, Cells(ts, aligns)) == Ok(AfterCells(st, |ts|, aligns), Join(ts, " | "))
  {
    forall s: State, t: string, a: Align | s.cellCounter >= 0
      ensures Walk(Step, s, Cell(t, a)) == Ok(AfterCells(s, 1, [a]), (if s.cellCounter > 0 then " | " else "") + t)
    {
      CellStep(s, t, a);
    }
    WalkCells(Step, st, ts, aligns);
  }

  /** The events of a table row. */
  function Row(ts: seq<string>, aligns: seq<Align>): seq<Event>
    requires |ts| == |aligns|
  {
    [Ev(Ast.TableRow, true)] + Cells(ts, aligns) + [Ev(Ast.TableRow, false)]
  }

  /** Entering a row resets the cell counter and writes `"| "`; leaving it
      writes `" |"` and a newline. */
  lemma RowSteps(st: State)
    ensures Step(st, Ev(Ast.TableRow, true)) == Ok(st.(cellCounter := 0), "| ")
    ensures Step(st, Ev(Ast.TableRow, false)) == Ok(st, " |\n")
  {
  }

  /** A table row is written as `"| "`, the cell texts joined by `" | "`,
      then `" |"` and a newline. */
  lemma RowFormat(st: State, ts: seq<string>, aligns: seq<Align>)
    requires |ts| == |aligns|
    ensures Run(st, Row(ts, aligns)) == Ok(AfterCells(st.(cellCounter := 0), |ts|, aligns), RowLine(ts))
  {
    var s0 := st.(cellCounter := 0);
    RowSteps(st);
    CellsJoined(s0, ts, aligns);
    RowSteps(AfterCells(s0, |ts|, aligns));
    WalkAround(Step, st, Ev(Ast.TableRow, true), Cells(ts, aligns), Ev(Ast.TableRow, false));
  }

  /** The events of a table head holding one row. */
  function Head(ts: seq<string>, aligns: seq<Align>): seq<Event>
    requires |ts| == |aligns|
  {
    [Ev(Ast.TableHead, true)] + Row(ts, aligns) + [Ev(Ast.TableHead, false)]
  }

  /** Entering a table head starts recording alignments; leaving it
      writes the alignment row from those recorded. */
  lemma HeadSteps(st: State)
    ensures Step(st, Ev(Ast.TableHead, true)) == Ok(st.(inTableHeader := true, alignment := []), "")
    ensures Step(st, Ev(Ast.TableHead, false)) == Ok(st.(inTableHeader := false), "|" + AlignFrom(st.alignment, true) + " |\n")
  {
  }

  /** The table head: its row, then the alignment row built from the
      alignments its cells recorded. */
  lemma HeadFormat(st: State, ts: seq<string>, aligns: seq<Align>)
    requires |ts| == |aligns|
    ensures Run(st, Head(ts, aligns)).Ok?
    ensures Run(st, Head(ts, aligns)).out == RowLine(ts) + AlignLine(aligns)
    ensures !Run(st, Head(ts, aligns)).st.inTableHeader && Run(st, Head(ts, aligns)).st.alignment == aligns
  {
    var s0 := st.(inTableHeader := true, alignment := []);
    HeadSteps(st);
    RowFormat(s0, ts, aligns);
    var s1 := AfterCells(s0.(cellCounter := 0), |ts|, aligns);
    assert s1.alignment == aligns;
    HeadSteps(s1);
    AlignmentRow(aligns);
    WalkAround(Step, st, Ev(Ast.TableHead, true), Row(ts, aligns), Ev(Ast.TableHead, false));
    assert "" + RowLine(ts) == RowLine(ts);
  }
}
