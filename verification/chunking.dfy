/** The structural chunker `ChunkJSONMarkdown` (libs/mdchunk/chunking.go).

    The Go function walks a node slice with two accumulators, the emitted
    `chunks` and the `currentChunk` being filled, recursing into children
    with a reduced budget. Here the accumulators form a `ChunkState`, the
    walk over siblings is `ChunkLoop`, one node is `ChunkStep`, and its three
    branches (table, image, everything else) are the step functions
    `TableStep`, `ImageStep` and `SectionStep`. Nothing here writes to the
    tree: every function takes the nodes as immutable values.

    `Env` holds the collaborators the source calls but does not show
    (`json.Marshal`, `%q`, `ImageNode.ToReference`) and a flush policy: the
    source's own behaviour is `AsWritten`; `KeepNonEmpty` is the corrected
    behaviour described in the README's findings, which never flushes an
    empty accumulator. */
module Chunking {
  import opened Strings
  import opened Nodes

  datatype FlushPolicy = AsWritten | KeepNonEmpty

  datatype Env = Env(json: Json, toReference: Node -> string, policy: FlushPolicy)

  /** `chunks` emitted so far and the accumulator `currentChunk`. */
  datatype ChunkState = ChunkState(chunks: seq<string>, acc: string)

  /** `ChunkJSONMarkdown(charLimit, markdownData)`. */
  function ChunkJSONMarkdown(env: Env, limit: int, nodes: seq<Node>): (r: seq<string>)
    ensures nodes == [] ==> r == []
    decreases nodes, 2
  {
    Finish(ChunkLoop(env, limit, nodes, ChunkState([], "")))
  }

  /** The closing rule: a non-empty accumulator becomes the last chunk. */
  function Finish(st: ChunkState): seq<string>
  {
    if |st.acc| > 0 then st.chunks + [st.acc] else st.chunks
  }

  /** The loop over siblings, left to right. Chunks are only ever appended. */
  function ChunkLoop(env: Env, limit: int, nodes: seq<Node>, st: ChunkState): (r: ChunkState)
    ensures st.chunks <= r.chunks
    decreases nodes, 1
  {
    if nodes == [] then st else ChunkLoop(env, limit, nodes[1..], ChunkStep(env, limit, nodes[0], st))
  }

  /** One iteration of the loop: dispatch on the node's type tag, then on
      the cast. A failed cast skips the node. */
  function ChunkStep(env: Env, limit: int, n: Node, st: ChunkState): (r: ChunkState)
    ensures st.chunks <= r.chunks
    decreases n, 0
  {
    if GetType(n) == NodeTypeTable then
      if n.Table? then TableStep(limit, ChunkTable(env.json, n.data, limit - |st.acc|, limit), st) else st
    else if GetType(n) == NodeTypeImage then
      if n.Image? then ImageStep(limit, env.toReference(n), st) else st
    else
      var section := ToMarkdown(env.json, n);
      var cs := ChunkJSONMarkdown(env, limit - |section|, n.children);
      SectionStep(env.policy, limit, section, cs, GetType(n) == NodeTypeParagraph, st)
  }

  /** The dispatch of `ChunkStep` for a table node. */
  lemma ChunkStepTableCase(env: Env, limit: int, n: Node, st: ChunkState)
    requires GetType(n) == NodeTypeTable
    ensures n.Table? ==> ChunkStep(env, limit, n, st) == TableStep(limit, ChunkTable(env.json, n.data, limit - |st.acc|, limit), st)
    ensures !n.Table? ==> ChunkStep(env, limit, n, st) == st
  {
  }

  /** The dispatch of `ChunkStep` for a node that is neither a table nor an
      image. */
  lemma ChunkStepSectionCase(env: Env, limit: int, n: Node, st: ChunkState)
    requires GetType(n) != NodeTypeTable && GetType(n) != NodeTypeImage
    ensures var section := ToMarkdown(env.json, n);
      ChunkStep(env, limit, n, st)
      == SectionStep(env.policy, limit, section, ChunkJSONMarkdown(env, limit - |section|, n.children), GetType(n) == NodeTypeParagraph, st)
  {
  }

  /** The table branch, given the splitter's fragments (computed with the
      first-fragment limit `limit - |acc|`): the first fragment absorbs the
      accumulator, all but the last are emitted, the last becomes the
      accumulator, and that is flushed and emptied if it is over the limit. */
  function TableStep(limit: int, frags: seq<string>, st: ChunkState): (r: ChunkState)
    ensures st.chunks <= r.chunks
  {
    if |frags| == 0 then st
    else
      var fs := [st.acc + frags[0]] + frags[1..];
      var last := fs[|fs| - 1];
      var chunks := st.chunks + fs[..|fs| - 1];
      if |last| > limit then ChunkState(chunks + [last], "") else ChunkState(chunks, last)
  }

  /** The table branch loses nothing: the new chunks followed by the
      accumulator spell the old accumulator followed by the fragments. The
      accumulator it leaves is within the limit or empty, and it is emptied
      exactly when the last fragment (with the old accumulator in front of
      it when it is the first) is over the limit. */
  lemma TableStepSpec(limit: int, frags: seq<string>, st: ChunkState)
    ensures var r := TableStep(limit, frags, st);
      && (|frags| == 0 ==> r == st)
      && Concat(r.chunks[|st.chunks|..]) + r.acc == st.acc + Concat(frags)
      && (|frags| > 0 ==> r.acc == "" || |r.acc| <= limit)
      && (|frags| > 0 ==>
        var fs := [st.acc + frags[0]] + frags[1..];
        || (r.chunks == st.chunks + fs[..|fs| - 1] && r.acc == fs[|fs| - 1] && |r.acc| <= limit)
        || (r.chunks == st.chunks + fs && r.acc == "" && |fs[|fs| - 1]| > limit))
  {
    if |frags| > 0 {
      TableStepFragments(limit, frags, st);
    } else {
      assert st.chunks[|st.chunks|..] == [];
    }
  }

  lemma TableStepFragments(limit: int, frags: seq<string>, st: ChunkState)
    requires |frags| > 0
    ensures var r := TableStep(limit, frags, st);
      var fs := [st.acc + frags[0]] + frags[1..];
      && Concat(r.chunks[|st.chunks|..]) + r.acc == st.acc + Concat(frags)
      && (r.acc == "" || |r.acc| <= limit)
      && (|| (r.chunks == st.chunks + fs[..|fs| - 1] && r.acc == fs[|fs| - 1] && |r.acc| <= limit)
          || (r.chunks == st.chunks + fs && r.acc == "" && |fs[|fs| - 1]| > limit))
  {
    var fs := [st.acc + frags[0]] + frags[1..];
    var last := fs[|fs| - 1];
    var r := TableStep(limit, frags, st);
    assert r == if |last| > limit then ChunkState(st.chunks + fs, "") else ChunkState(st.chunks + fs[..|fs| - 1], last) by {
      assert fs == fs[..|fs| - 1] + [last];
    }
    FragmentsConcat(st.acc, frags);
    TableStepCases(limit, fs, st, r);
  }

  /** The table branch over its fragments `fs` (the accumulator already
      absorbed into the first): whichever way the last fragment goes, the
      emitted chunks followed by the accumulator spell `fs`. */
  lemma TableStepCases(limit: int, fs: seq<string>, st: ChunkState, r: ChunkState)
    requires |fs| > 0
    requires var last := fs[|fs| - 1];
      r == if |last| > limit then ChunkState(st.chunks + fs, "") else ChunkState(st.chunks + fs[..|fs| - 1], last)
    ensures Concat(r.chunks[|st.chunks|..]) + r.acc == Concat(fs)
  {
    var last := fs[|fs| - 1];
    var chunks := st.chunks + fs[..|fs| - 1];
    TableStepEmits(limit, fs, st);
    assert chunks + [last] == st.chunks + fs by {
      assert fs == fs[..|fs| - 1] + [last];
    }
  }

  /** The first fragment absorbing the accumulator spells the accumulator
      followed by the fragments. */
  lemma {:induction false} FragmentsConcat(acc: string, frags: seq<string>)
    requires |frags| > 0
    ensures Concat([acc + frags[0]] + frags[1..]) == acc + Concat(frags)
  {
    var fs := [acc + frags[0]] + frags[1..];
    var tail := Concat(frags[1..]);
    assert fs[1..] == frags[1..];
    assert Concat(fs) == (acc + frags[0]) + tail;
    assert Concat(frags) == frags[0] + tail;
    assert (acc + frags[0]) + tail == acc + (frags[0] + tail);
  }

  /** Emitting all but the last of `fs` and keeping the last, or emitting
      them all, spells `fs`. */
  lemma TableStepEmits(limit: int, fs: seq<string>, st: ChunkState)
    requires |fs| > 0
    ensures var last := fs[|fs| - 1];
      var chunks := st.chunks + fs[..|fs| - 1];
      && Concat(chunks[|st.chunks|..]) + last == Concat(fs)
      && Concat((chunks + [last])[|st.chunks|..]) + "" == Concat(fs)
  {
    var last := fs[|fs| - 1];
    var chunks := st.chunks + fs[..|fs| - 1];
    assert fs == fs[..|fs| - 1] + [last];
    ConcatSnoc(fs[..|fs| - 1], last);
    assert chunks[|st.chunks|..] == fs[..|fs| - 1];
    assert (chunks + [last])[|st.chunks|..] == fs;
  }

  /** The image branch: the reference text joins the accumulator, which is
      flushed and emptied exactly when that takes it over the limit. */
  function ImageStep(limit: int, reference: string, st: ChunkState): (r: ChunkState)
    ensures || (r.chunks == st.chunks && r.acc == st.acc + reference && |r.acc| <= limit)
            || (r.chunks == st.chunks + [st.acc + reference] && r.acc == "" && |st.acc + reference| > limit)
    ensures Concat(r.chunks[|st.chunks|..]) + r.acc == st.acc + reference
  {
    var acc := st.acc + reference;
    if |acc| > limit then ChunkState(st.chunks + [acc], "") else ChunkState(st.chunks, acc)
  }

  // ---------------------------------------------------------------------
  // The generic branch and its re-anchoring
  // ---------------------------------------------------------------------

  /** Whether appending child chunk `c` flushes the accumulator first. */
  predicate Overflows(policy: FlushPolicy, limit: int, acc: string, c: string)
  {
    |acc| + |c| > limit && (policy == AsWritten || |acc| > 0)
  }

  /** One child chunk `c`: flush and re-anchor to the parent's `section`
      if `c` would overflow, then append `c`. */
  function AppendOne(policy: FlushPolicy, limit: int, section: string, c: string, st: ChunkState): (r: ChunkState)
    ensures st.chunks <= r.chunks
  {
    if Overflows(policy, limit, st.acc, c) then ChunkState(st.chunks + [st.acc], section + c)
    else ChunkState(st.chunks, st.acc + c)
  }

  /** The loop over child chunks from index `i`. */
  function AppendFrom(policy: FlushPolicy, limit: int, section: string, cs: seq<string>, i: nat, st: ChunkState): (r: ChunkState)
    requires i <= |cs|
    ensures st.chunks <= r.chunks
    decreases |cs| - i
  {
    if i == |cs| then st
    else AppendFrom(policy, limit, section, cs, i + 1, AppendOne(policy, limit, section, cs[i], st))
  }

  /** The generic branch for a node rendering to `section` whose children
      chunked (with budget `limit - |section|`) into `cs`. */
  function SectionStep(policy: FlushPolicy, limit: int, section: string, cs: seq<string>, paragraph: bool, st: ChunkState): (r: ChunkState)
    ensures st.chunks <= r.chunks
  {
    CloseSection(limit, section, paragraph, AppendFrom(policy, limit, section, cs, 0, ChunkState(st.chunks, st.acc + section)))
  }

  /** After the children: a paragraph adds its blank line, and an
      accumulator that is more than the bare section and over the limit is
      flushed, leaving the section as the new accumulator. */
  function CloseSection(limit: int, section: string, paragraph: bool, st1: ChunkState): (r: ChunkState)
    ensures st1.chunks <= r.chunks
  {
    var st2 := if paragraph then ChunkState(st1.chunks, st1.acc + "\n\n") else st1;
    if st2.acc != section && |st2.acc| > limit then ChunkState(st2.chunks + [st2.acc], section) else st2
  }

  /** `e` is the re-anchoring `section` followed by exactly one child chunk:
      the one shape allowed to exceed the budget. */
  predicate OneChild(e: string, section: string, cs: seq<string>)
  {
    section <= e && e[|section|..] in cs
  }

  /** Every string after the first starts with the re-anchoring section. */
  predicate AnchoredTail(section: string, v: seq<string>)
  {
    forall i :: 1 <= i < |v| ==> section <= v[i]
  }

  /** The anchored strings with their section prefixes cut off, joined. */
  function Unanchor(section: string, v: seq<string>): string
    requires forall i :: 0 <= i < |v| ==> section <= v[i]
  {
    if v == [] then "" else v[0][|section|..] + Unanchor(section, v[1..])
  }

  /** The text a run of re-anchored chunks stands for: the first chunk as it
      is, every later one without its repeated section. */
  function Reassemble(section: string, v: seq<string>): string
    requires |v| > 0 && AnchoredTail(section, v)
  {
    v[0] + Unanchor(section, v[1..])
  }

  lemma {:induction false} UnanchorSnoc(section: string, v: seq<string>, x: string)
    requires forall i :: 0 <= i < |v| ==> section <= v[i]
    requires section <= x
    ensures Unanchor(section, v + [x]) == Unanchor(section, v) + x[|section|..]
  {
    if v != [] {
      assert (v + [x])[1..] == v[1..] + [x];
      UnanchorSnoc(section, v[1..], x);
    } else {
      assert Unanchor(section, [x]) == x[|section|..] + Unanchor(section, []);
    }
  }

  /** Appending `c` to the last string of an anchored run appends `c` to
      what the run stands for. */
  lemma ReassembleGrowLast(section: string, v: seq<string>, c: string)
    requires |v| > 0 && AnchoredTail(section, v)
    ensures var w := v[..|v| - 1] + [v[|v| - 1] + c];
      AnchoredTail(section, w) && Reassemble(section, w) == Reassemble(section, v) + c
  {
    var w := v[..|v| - 1] + [v[|v| - 1] + c];
    if |v| > 1 {
      var mid := v[1..|v| - 1];
      assert v[1..] == mid + [v[|v| - 1]];
      assert w[1..] == mid + [v[|v| - 1] + c];
      UnanchorSnoc(section, mid, v[|v| - 1]);
      UnanchorSnoc(section, mid, v[|v| - 1] + c);
      assert (v[|v| - 1] + c)[|section|..] == v[|v| - 1][|section|..] + c;
    }
  }

  /** Starting a new anchored string `section + c` appends `c`. */
  lemma ReassembleNewAnchor(section: string, v: seq<string>, c: string)
    requires |v| > 0 && AnchoredTail(section, v)
    ensures var w := v + [section + c];
      AnchoredTail(section, w) && Reassemble(section, w) == Reassemble(section, v) + c
  {
    var w := v + [section + c];
    assert w[1..] == v[1..] + [section + c];
    UnanchorSnoc(section, v[1..], section + c);
    assert (section + c)[|section|..] == c;
  }

  /** The view of a state from chunk index `b` on: the chunks emitted since
      then followed by the accumulator. */
  function View(st: ChunkState, b: nat): seq<string>
    requires b <= |st.chunks|
  {
    st.chunks[b..] + [st.acc]
  }

  /** One child chunk loses nothing: what the view stood for before,
      followed by the child chunk, is what it stands for after. */
  lemma AppendOneReassembles(policy: FlushPolicy, limit: int, section: string, c: string, st: ChunkState, b: nat)
    requires b <= |st.chunks|
    requires AnchoredTail(section, View(st, b))
    requires |st.chunks| > b ==> section <= st.acc
    requires |st.acc| >= |section|
    ensures var r := AppendOne(policy, limit, section, c, st);
      && b <= |r.chunks|
      && AnchoredTail(section, View(r, b))
      && Reassemble(section, View(r, b)) == Reassemble(section, View(st, b)) + c
      && (|r.chunks| > b ==> section <= r.acc)
      && |r.acc| >= |section|
  {
    var v := View(st, b);
    if Overflows(policy, limit, st.acc, c) {
      assert View(ChunkState(st.chunks + [st.acc], section + c), b) == v + [section + c];
      ReassembleNewAnchor(section, v, c);
    } else {
      GrowAcc(section, st, b, c);
      if |st.acc| == 0 {
        assert section == [];
      }
    }
  }

  /** The child loop loses nothing: what the view stood for before, followed
      by the remaining child chunks, is what it stands for after. */
  lemma {:induction false} AppendFromReassembles(policy: FlushPolicy, limit: int, section: string, cs: seq<string>, i: nat, st: ChunkState, b: nat)
    requires i <= |cs| && b <= |st.chunks|
    requires AnchoredTail(section, View(st, b))
    requires |st.chunks| > b ==> section <= st.acc
    requires |st.acc| >= |section|
    ensures var r := AppendFrom(policy, limit, section, cs, i, st);
      && b <= |r.chunks|
      && AnchoredTail(section, View(r, b))
      && Reassemble(section, View(r, b)) == Reassemble(section, View(st, b)) + Concat(cs[i..])
    decreases |cs| - i
  {
    if i == |cs| {
      assert cs[i..] == [];
    } else {
      AppendOneReassembles(policy, limit, section, cs[i], st, b);
      AppendFromReassembles(policy, limit, section, cs, i + 1, AppendOne(policy, limit, section, cs[i], st), b);
      assert cs[i..] == [cs[i]] + cs[i + 1..];
    }
  }

  /** Budget of one child chunk: what it emits and the accumulator it leaves
      are within the limit, the accumulator the loop started from, or the
      section followed by one child chunk. */
  lemma AppendOneBudget(policy: FlushPolicy, limit: int, section: string, cs: seq<string>, i: nat, st: ChunkState, start: string)
    requires i < |cs|
    requires |st.acc| <= limit || st.acc == start || OneChild(st.acc, section, cs)
    requires |st.acc| >= |section|
    ensures var r := AppendOne(policy, limit, section, cs[i], st);
      && (forall j :: |st.chunks| <= j < |r.chunks| ==> |r.chunks[j]| <= limit || r.chunks[j] == start || OneChild(r.chunks[j], section, cs))
      && (|r.acc| <= limit || r.acc == start || OneChild(r.acc, section, cs))
      && |r.acc| >= |section|
  {
    var c := cs[i];
    if Overflows(policy, limit, st.acc, c) {
      assert (section + c)[|section|..] == c;
    } else if |st.acc| + |c| > limit {
      assert |st.acc| == 0;
      assert section == [];
      assert (st.acc + c)[|section|..] == c;
    }
  }

  /** Budget of the child loop: every chunk it emits, and the accumulator it
      leaves, is within the limit, or is the accumulator it started from
      (`start`, when not even the first child fitted), or is the section
      followed by one single child chunk. So after an append, overflow means
      the accumulator is `section + child`. */
  lemma {:induction false} AppendFromBudget(policy: FlushPolicy, limit: int, section: string, cs: seq<string>, i: nat, st: ChunkState, start: string)
    requires i <= |cs|
    requires |st.acc| <= limit || st.acc == start || OneChild(st.acc, section, cs)
    requires |st.acc| >= |section|
    ensures var r := AppendFrom(policy, limit, section, cs, i, st);
      && (forall j :: |st.chunks| <= j < |r.chunks| ==> |r.chunks[j]| <= limit || r.chunks[j] == start || OneChild(r.chunks[j], section, cs))
      && (|r.acc| <= limit || r.acc == start || OneChild(r.acc, section, cs))
    decreases |cs| - i
  {
    if i < |cs| {
      AppendOneBudget(policy, limit, section, cs, i, st, start);
      AppendFromBudget(policy, limit, section, cs, i + 1, AppendOne(policy, limit, section, cs[i], st), start);
    }
  }

  /** Appending to the accumulator appends to what the view stands for. */
  lemma GrowAcc(section: string, st: ChunkState, b: nat, c: string)
    requires b <= |st.chunks| && AnchoredTail(section, View(st, b))
    ensures var st' := ChunkState(st.chunks, st.acc + c);
      AnchoredTail(section, View(st', b)) && Reassemble(section, View(st', b)) == Reassemble(section, View(st, b)) + c
  {
    var v := View(st, b);
    assert View(ChunkState(st.chunks, st.acc + c), b) == v[..|v| - 1] + [v[|v| - 1] + c];
    ReassembleGrowLast(section, v, c);
  }

  /** Flushing the accumulator and re-anchoring to the section changes
      nothing in what the view stands for. */
  lemma FlushAnchor(section: string, st: ChunkState, b: nat)
    requires b <= |st.chunks| && AnchoredTail(section, View(st, b))
    ensures var st' := ChunkState(st.chunks + [st.acc], section);
      AnchoredTail(section, View(st', b)) && Reassemble(section, View(st', b)) == Reassemble(section, View(st, b))
  {
    var v := View(st, b);
    assert section + "" == section;
    assert (st.chunks + [st.acc])[b..] == st.chunks[b..] + [st.acc];
    assert View(ChunkState(st.chunks + [st.acc], section), b) == v + [section + ""];
    ReassembleNewAnchor(section, v, "");
  }

  /** Nothing is dropped by the generic branch: the new chunks and the
      accumulator, read with every repeated section cut off after the first,
      spell the old accumulator, the section, every child chunk in order and
      the paragraph separator. The accumulator it leaves is the bare section
      or within the limit. */
  lemma SectionStepReassembles(policy: FlushPolicy, limit: int, section: string, cs: seq<string>, paragraph: bool, st: ChunkState)
    ensures var r := SectionStep(policy, limit, section, cs, paragraph, st);
      var v := View(r, |st.chunks|);
      && AnchoredTail(section, v)
      && Reassemble(section, v) == st.acc + section + Concat(cs) + (if paragraph then "\n\n" else "")
      && (r.acc == section || |r.acc| <= limit)
  {
    var st0 := ChunkState(st.chunks, st.acc + section);
    var b := |st.chunks|;
    assert View(st0, b) == [st.acc + section];
    assert cs[0..] == cs;
    AppendFromReassembles(policy, limit, section, cs, 0, st0, b);
    CloseSectionReassembles(limit, section, paragraph, AppendFrom(policy, limit, section, cs, 0, st0), b);
  }

  /** Closing a section adds the paragraph separator to what the view stands
      for and nothing else, and leaves the bare section or an accumulator
      within the limit. */
  lemma CloseSectionReassembles(limit: int, section: string, paragraph: bool, st1: ChunkState, b: nat)
    requires b <= |st1.chunks| && AnchoredTail(section, View(st1, b))
    ensures var r := CloseSection(limit, section, paragraph, st1);
      && b <= |r.chunks|
      && AnchoredTail(section, View(r, b))
      && Reassemble(section, View(r, b)) == Reassemble(section, View(st1, b)) + (if paragraph then "\n\n" else "")
      && (r.acc == section || |r.acc| <= limit)
  {
    var st2 := if paragraph then ChunkState(st1.chunks, st1.acc + "\n\n") else st1;
    if paragraph {
      GrowAcc(section, st1, b, "\n\n");
    } else {
      assert Reassemble(section, View(st1, b)) + "" == Reassemble(section, View(st1, b));
    }
    if st2.acc != section && |st2.acc| > limit {
      FlushAnchor(section, st2, b);
    }
  }

  /** A node whose cast fails (a base node carrying the "table" or "image"
      tag) leaves the chunks and the accumulator as they were. */
  lemma FailedCastSkipped(env: Env, limit: int, kind: string, children: seq<Node>, st: ChunkState)
    requires kind == NodeTypeTable || kind == NodeTypeImage
    ensures ChunkStep(env, limit, Base(kind, children), st) == st
  {
  }

  /** A non-empty leftover accumulator is always the last chunk, after
      everything emitted by the walk. */
  lemma LeftoverEmitted(env: Env, limit: int, nodes: seq<Node>)
    ensures var st := ChunkLoop(env, limit, nodes, ChunkState([], ""));
      var r := ChunkJSONMarkdown(env, limit, nodes);
      && st.chunks <= r
      && (|st.acc| > 0 <==> |r| == |st.chunks| + 1)
      && (|st.acc| > 0 ==> r[|r| - 1] == st.acc)
  {
  }

  // ---------------------------------------------------------------------
  // The loop over siblings
  // ---------------------------------------------------------------------

  /** What one node contributes, seen from the states `s` before and `t`
      after its step: chunks are only appended; a table's fragments or an
      image's reference follow the carried accumulator with nothing lost; a
      node whose cast fails leaves everything alone; any other node's new
      chunks and accumulator, with the re-anchored section stripped,
      spell the carried accumulator, the section, the children's chunks and
      a paragraph's blank line. */
  ghost predicate Piece(env: Env, limit: int, n: Node, s: ChunkState, t: ChunkState)
  {
    && s.chunks <= t.chunks
    && if GetType(n) == NodeTypeTable || GetType(n) == NodeTypeImage then
         if n.Table? then
           Concat(t.chunks[|s.chunks|..]) + t.acc == s.acc + Concat(ChunkTable(env.json, n.data, limit - |s.acc|, limit))
         else if n.Image? then
           Concat(t.chunks[|s.chunks|..]) + t.acc == s.acc + env.toReference(n)
         else t == s
       else
         var section := ToMarkdown(env.json, n);
         Spelled(section, ChunkJSONMarkdown(env, limit - |section|, n.children), GetType(n) == NodeTypeParagraph, s, t)
  }

  /** The new chunks and accumulator of `t`, with the re-anchored `section`
      stripped, spell the accumulator of `s`, the section, the child chunks
      `cs` and a paragraph's blank line. */
  predicate Spelled(section: string, cs: seq<string>, paragraph: bool, s: ChunkState, t: ChunkState)
  {
    && |s.chunks| <= |t.chunks|
    && AnchoredTail(section, View(t, |s.chunks|))
    && Reassemble(section, View(t, |s.chunks|)) == s.acc + section + Concat(cs) + (if paragraph then "\n\n" else "")
  }

  /** The states the loop passes through, one more than there are nodes. */
  ghost function States(env: Env, limit: int, nodes: seq<Node>, st: ChunkState): (r: seq<ChunkState>)
    ensures |r| == |nodes| + 1 && r[0] == st
    decreases |nodes|
  {
    if nodes == [] then [st] else [st] + States(env, limit, nodes[1..], ChunkStep(env, limit, nodes[0], st))
  }

  /** Every single step is a piece. */
  lemma StepPiece(env: Env, limit: int, n: Node, s: ChunkState)
    ensures Piece(env, limit, n, s, ChunkStep(env, limit, n, s))
  {
    if GetType(n) == NodeTypeTable {
      TablePiece(env, limit, n, s);
    } else if GetType(n) == NodeTypeImage {
      assert n.Image? ==> ChunkStep(env, limit, n, s) == ImageStep(limit, env.toReference(n), s);
    } else {
      SectionPiece(env, limit, n, s);
    }
  }

  lemma TablePiece(env: Env, limit: int, n: Node, s: ChunkState)
    requires GetType(n) == NodeTypeTable
    ensures Piece(env, limit, n, s, ChunkStep(env, limit, n, s))
  {
    ChunkStepTableCase(env, limit, n, s);
    if n.Table? {
      TableStepSpec(limit, ChunkTable(env.json, n.data, limit - |s.acc|, limit), s);
    }
  }

  lemma SectionPiece(env: Env, limit: int, n: Node, s: ChunkState)
    requires GetType(n) != NodeTypeTable && GetType(n) != NodeTypeImage
    ensures Piece(env, limit, n, s, ChunkStep(env, limit, n, s))
  {
    ChunkStepSectionCase(env, limit, n, s);
    SectionStepPiece(env, limit, n, s, ChunkStep(env, limit, n, s));
  }

  lemma SectionStepPiece(env: Env, limit: int, n: Node, s: ChunkState, t: ChunkState)
    requires GetType(n) != NodeTypeTable && GetType(n) != NodeTypeImage
    requires var section := ToMarkdown(env.json, n);
      t == SectionStep(env.policy, limit, section, ChunkJSONMarkdown(env, limit - |section|, n.children), GetType(n) == NodeTypeParagraph, s)
    ensures Piece(env, limit, n, s, t)
  {
    var section := ToMarkdown(env.json, n);
    SectionStepSpelled(env.policy, limit, section, ChunkJSONMarkdown(env, limit - |section|, n.children), GetType(n) == NodeTypeParagraph, s);
  }

  lemma SectionStepSpelled(policy: FlushPolicy, limit: int, section: string, cs: seq<string>, paragraph: bool, s: ChunkState)
    ensures s.chunks <= SectionStep(policy, limit, section, cs, paragraph, s).chunks
    ensures Spelled(section, cs, paragraph, s, SectionStep(policy, limit, section, cs, paragraph, s))
  {
    SectionStepReassembles(policy, limit, section, cs, paragraph, s);
  }

  /** The loop over siblings drops nothing: its output splits into one
      consecutive segment per node, from the state before that node to the
      state after it, and each segment is that node's piece. The last state
      is the loop's result. */
  lemma {:induction false} ChunkLoopSegments(env: Env, limit: int, nodes: seq<Node>, st: ChunkState)
    ensures var T := States(env, limit, nodes, st);
      && T[|nodes|] == ChunkLoop(env, limit, nodes, st)
      && forall i :: 0 <= i < |nodes| ==> Piece(env, limit, nodes[i], T[i], T[i + 1])
    decreases |nodes|
  {
    if nodes != [] {
      var s1 := ChunkStep(env, limit, nodes[0], st);
      StepPiece(env, limit, nodes[0], st);
      ChunkLoopSegments(env, limit, nodes[1..], s1);
      var T := States(env, limit, nodes, st);
      var U := States(env, limit, nodes[1..], s1);
      assert T == [st] + U;
      PiecesCons(env, limit, nodes, T, U);
    }
  }

  /** Prepending one step's piece to the pieces of the rest. */
  lemma PiecesCons(env: Env, limit: int, nodes: seq<Node>, T: seq<ChunkState>, U: seq<ChunkState>)
    requires |nodes| > 0 && |U| == |nodes| && |T| > 0 && T == [T[0]] + U
    requires Piece(env, limit, nodes[0], T[0], U[0])
    requires forall i :: 0 <= i < |nodes| - 1 ==> Piece(env, limit, nodes[1..][i], U[i], U[i + 1])
    ensures forall i :: 0 <= i < |nodes| ==> Piece(env, limit, nodes[i], T[i], T[i + 1])
  {
    forall i | 0 <= i < |nodes|
      ensures Piece(env, limit, nodes[i], T[i], T[i + 1])
    {
      if i > 0 {
        assert nodes[i] == nodes[1..][i - 1] && T[i] == U[i - 1] && T[i + 1] == U[i];
      }
    }
  }

  /** As written, a chunk can exceed the budget while holding more than one
      unit, and a heading's section can be emitted twice: at budget 5, the
      text "xxxx" followed by the heading "A" comes out as the 9-byte chunk
      "xxxx# A\n\n" and then the heading alone again. */
  lemma BudgetExceededAsWritten(env: Env)
    ensures ChunkJSONMarkdown(env, 5, [Text("xxxx", []), Heading("A", 1, [])]) == ["xxxx# A\n\n", "# A\n\n"]
  {
    var s1 := ChunkStep(env, 5, Text("xxxx", []), ChunkState([], ""));
    assert ToMarkdown(env.json, Text("xxxx", [])) == "xxxx";
    assert ChunkJSONMarkdown(env, 1, []) == [];
    assert s1 == ChunkState([], "xxxx");
    assert ToMarkdown(env.json, Heading("A", 1, [])) == "# A\n\n";
    assert ChunkJSONMarkdown(env, 0, []) == [];
    var h := "# A\n\n";
    var s2 := ChunkStep(env, 5, Heading("A", 1, []), s1);
    assert s2 == SectionStep(env.policy, 5, h, [], false, s1);
    assert AppendFrom(env.policy, 5, h, [], 0, ChunkState([], "xxxx" + h)) == ChunkState([], "xxxx" + h);
    assert "xxxx" + h == "xxxx# A\n\n" && |"xxxx" + h| == 9;
    assert s2 == ChunkState(["xxxx# A\n\n"], h);
    assert ChunkLoop(env, 5, [Heading("A", 1, [])], s1) == s2;
  }

  lemma ReassembleDropEmptyLast(section: string, v: seq<string>)
    requires |v| > 1 && AnchoredTail(section, v) && v[|v| - 1] == ""
    ensures AnchoredTail(section, v[..|v| - 1])
    ensures Reassemble(section, v[..|v| - 1]) == Reassemble(section, v)
  {
    var u := v[..|v| - 1];
    assert v == u + [""];
    assert v[1..] == u[1..] + [""];
    UnanchorSnoc(section, u[1..], "");
  }

  /** Chunking one node is one step from the empty state, then the closing rule. */
  lemma SingleNode(env: Env, limit: int, n: Node)
    ensures ChunkJSONMarkdown(env, limit, [n]) == Finish(ChunkStep(env, limit, n, ChunkState([], "")))
  {
    var st := ChunkStep(env, limit, n, ChunkState([], ""));
    assert [n][1..] == [];
    assert ChunkLoop(env, limit, [n][1..], st) == st;
  }

  /** Reassembly of one section: chunking a single node that is neither a
      table nor an image gives chunks that all but the first start with the
      node's own text, and that with those repeated prefixes cut off spell
      the node's text, its children's chunks in order and the paragraph
      separator. No child chunk is dropped. */
  lemma SectionReassembly(env: Env, limit: int, n: Node)
    requires GetType(n) != NodeTypeTable && GetType(n) != NodeTypeImage
    ensures var section := ToMarkdown(env.json, n);
      var content := Concat(ChunkJSONMarkdown(env, limit - |section|, n.children))
                     + (if GetType(n) == NodeTypeParagraph then "\n\n" else "");
      var out := ChunkJSONMarkdown(env, limit, [n]);
      || (out == [] && section + content == "")
      || (AnchoredTail(section, out) && |out| > 0 && Reassemble(section, out) == section + content)
  {
    var section := ToMarkdown(env.json, n);
    var cs := ChunkJSONMarkdown(env, limit - |section|, n.children);
    SingleNode(env, limit, n);
    ChunkStepSectionCase(env, limit, n, ChunkState([], ""));
    SectionAlone(env.policy, limit, section, cs, GetType(n) == NodeTypeParagraph);
  }

  /** One section chunked from the empty state, then closed. */
  lemma SectionAlone(policy: FlushPolicy, limit: int, section: string, cs: seq<string>, paragraph: bool)
    ensures var content := Concat(cs) + (if paragraph then "\n\n" else "");
      var out := Finish(SectionStep(policy, limit, section, cs, paragraph, ChunkState([], "")));
      || (out == [] && section + content == "")
      || (AnchoredTail(section, out) && |out| > 0 && Reassemble(section, out) == section + content)
  {
    var r := SectionStep(policy, limit, section, cs, paragraph, ChunkState([], ""));
    SectionStepReassembles(policy, limit, section, cs, paragraph, ChunkState([], ""));
    assert "" + section == section;
    FinishReassembles(section, r);
  }

  lemma FinishReassembles(section: string, r: ChunkState)
    requires AnchoredTail(section, View(r, 0))
    ensures var out := Finish(r);
      || (out == [] && Reassemble(section, View(r, 0)) == "")
      || (AnchoredTail(section, out) && |out| > 0 && Reassemble(section, out) == Reassemble(section, View(r, 0)))
  {
    var v := View(r, 0);
    assert v == r.chunks + [r.acc];
    if |r.acc| == 0 && |r.chunks| > 0 {
      ReassembleDropEmptyLast(section, v);
      assert v[..|v| - 1] == r.chunks;
    }
  }

  // ---------------------------------------------------------------------
  // The empty-chunk finding
  // ---------------------------------------------------------------------

  /** A text leaf with no children over any budget is one chunk, its text. */
  lemma TextLeaf(env: Env, limit: int, t: string)
    requires |t| > 0
    ensures ChunkJSONMarkdown(env, limit, [Text(t, [])]) == [t]
  {
    var text := Text(t, []);
    SingleNode(env, limit, text);
    assert ChunkJSONMarkdown(env, limit - |t|, []) == [];
    assert AppendFrom(env.policy, limit, t, [], 0, ChunkState([], "" + t)) == ChunkState([], t);
    assert ChunkStep(env, limit, text, ChunkState([], "")) == ChunkState([], t);
  }

  /** As written, a paragraph whose text alone is over the budget, chunked
      with nothing before it, yields an empty chunk followed by the
      paragraph: the child loop flushes the still-empty accumulator. */
  lemma EmptyChunkAsWritten(env: Env, limit: int, t: string)
    requires env.policy == AsWritten && 0 <= limit < |t|
    ensures ChunkJSONMarkdown(env, limit, [Paragraph([Text(t, [])])]) == ["", t + "\n\n"]
  {
    var p := Paragraph([Text(t, [])]);
    TextLeaf(env, limit, t);
    SingleNode(env, limit, p);
    var st0 := ChunkState([], "");
    assert Overflows(AsWritten, limit, "", t);
    assert AppendFrom(env.policy, limit, "", [t], 1, ChunkState([""], "" + t)) == ChunkState([""], t);
    assert AppendFrom(env.policy, limit, "", [t], 0, ChunkState([], "" + "")) == ChunkState([""], t);
    assert ChunkStep(env, limit, p, st0) == ChunkState(["", t + "\n\n"], "");
  }

  /** Corrected: with the accumulator flushed only when non-empty, the same
      paragraph comes out as exactly one chunk. */
  lemma SmallBudgetSingleChunk(env: Env, limit: int, t: string)
    requires env.policy == KeepNonEmpty && 0 <= limit < |t|
    ensures ChunkJSONMarkdown(env, limit, [Paragraph([Text(t, [])])]) == [t + "\n\n"]
  {
    var p := Paragraph([Text(t, [])]);
    TextLeaf(env, limit, t);
    SingleNode(env, limit, p);
    var st0 := ChunkState([], "");
    assert !Overflows(KeepNonEmpty, limit, "", t);
    assert AppendFrom(env.policy, limit, "", [t], 1, ChunkState([], "" + t)) == ChunkState([], t);
    assert AppendFrom(env.policy, limit, "", [t], 0, ChunkState([], "" + "")) == ChunkState([], t);
    assert ChunkStep(env, limit, p, st0) == ChunkState([t + "\n\n"], "");
  }

  predicate AllNonEmpty(chunks: seq<string>)
  {
    forall j :: 0 <= j < |chunks| ==> |chunks[j]| > 0
  }

  lemma {:induction false} AppendFromNonEmpty(limit: int, section: string, cs: seq<string>, i: nat, st: ChunkState)
    requires i <= |cs| && |st.acc| >= |section|
    requires AllNonEmpty(st.chunks)
    ensures var r := AppendFrom(KeepNonEmpty, limit, section, cs, i, st);
      AllNonEmpty(r.chunks) && |r.acc| >= |section|
    decreases |cs| - i
  {
    if i < |cs| {
      AppendFromNonEmpty(limit, section, cs, i + 1, AppendOne(KeepNonEmpty, limit, section, cs[i], st));
    }
  }

  lemma SectionStepNonEmpty(limit: int, section: string, cs: seq<string>, paragraph: bool, st: ChunkState)
    requires AllNonEmpty(st.chunks)
    ensures AllNonEmpty(SectionStep(KeepNonEmpty, limit, section, cs, paragraph, st).chunks)
  {
    AppendFromNonEmpty(limit, section, cs, 0, ChunkState(st.chunks, st.acc + section));
  }

  lemma TableStepNonEmpty(limit: int, frags: seq<string>, st: ChunkState)
    requires AllNonEmpty(st.chunks) && AllNonEmpty(frags)
    ensures AllNonEmpty(TableStep(limit, frags, st).chunks)
  {
    if |frags| > 0 {
      var fs := [st.acc + frags[0]] + frags[1..];
      assert AllNonEmpty(fs) by {
        forall j | 0 <= j < |fs| ensures |fs[j]| > 0 {
          if j > 0 { assert fs[j] == frags[j]; }
        }
      }
    }
  }

  lemma ChunkTableNonEmpty(json: Json, data: TableData, first: int, next: int)
    ensures AllNonEmpty(ChunkTable(json, data, first, next))
  {
  }

  lemma GenericStepNonEmpty(env: Env, limit: int, n: Node, st: ChunkState)
    requires env.policy == KeepNonEmpty
    requires GetType(n) != NodeTypeTable && GetType(n) != NodeTypeImage
    requires AllNonEmpty(st.chunks)
    ensures AllNonEmpty(ChunkStep(env, limit, n, st).chunks)
  {
    var section := ToMarkdown(env.json, n);
    var cs := ChunkJSONMarkdown(env, limit - |section|, n.children);
    ChunkStepSectionCase(env, limit, n, st);
    SectionStepNonEmpty(limit, section, cs, GetType(n) == NodeTypeParagraph, st);
  }

  lemma TableNodeStepNonEmpty(env: Env, limit: int, n: Node, st: ChunkState)
    requires GetType(n) == NodeTypeTable
    requires AllNonEmpty(st.chunks)
    ensures AllNonEmpty(ChunkStep(env, limit, n, st).chunks)
  {
    ChunkStepTableCase(env, limit, n, st);
    if n.Table? {
      var frags := ChunkTable(env.json, n.data, limit - |st.acc|, limit);
      ChunkTableNonEmpty(env.json, n.data, limit - |st.acc|, limit);
      TableStepNonEmpty(limit, frags, st);
    }
  }

  lemma ChunkStepNonEmpty(env: Env, limit: int, n: Node, st: ChunkState)
    requires env.policy == KeepNonEmpty
    requires forall m :: |env.toReference(m)| > 0
    requires AllNonEmpty(st.chunks)
    ensures AllNonEmpty(ChunkStep(env, limit, n, st).chunks)
  {
    if GetType(n) == NodeTypeTable {
      TableNodeStepNonEmpty(env, limit, n, st);
    } else if GetType(n) != NodeTypeImage {
      GenericStepNonEmpty(env, limit, n, st);
    }
  }

  lemma {:induction false} ChunkLoopNonEmpty(env: Env, limit: int, nodes: seq<Node>, st: ChunkState)
    requires env.policy == KeepNonEmpty
    requires forall m :: |env.toReference(m)| > 0
    requires AllNonEmpty(st.chunks)
    ensures AllNonEmpty(ChunkLoop(env, limit, nodes, st).chunks)
    decreases nodes
  {
    if nodes != [] {
      ChunkStepNonEmpty(env, limit, nodes[0], st);
      ChunkLoopNonEmpty(env, limit, nodes[1..], ChunkStep(env, limit, nodes[0], st));
    }
  }

  /** Corrected: with the accumulator flushed only when non-empty (and image
      references non-empty), no chunk is ever empty, whatever the tree and
      the budget. */
  lemma NoEmptyChunk(env: Env, limit: int, nodes: seq<Node>)
    requires env.policy == KeepNonEmpty
    requires forall m :: |env.toReference(m)| > 0
    ensures AllNonEmpty(ChunkJSONMarkdown(env, limit, nodes))
  {
    ChunkLoopNonEmpty(env, limit, nodes, ChunkState([], ""));
  }
}
