/** The heading stack both tree builders use to rebuild heading nesting from
    a flat stream of headings and content (`handleHeader`, `finalizeHeaders`
    and the append rule of `RenderNode`, in libs/mdtojson/mdtojson.go and in
    the older mdtojson.go at the repository root).

    The Go code keeps pointers to open headings on a stack and appends to
    them in place. Here an open heading is a value holding the content
    gathered so far, and the two builders differ only in how content is
    appended (`add`), what a new heading holds (`initial`) and how an open
    heading becomes a finished node (`close`); those three make up `Ops`.
    `started` plays the role of `currentHeader != nil`; while a heading is
    open the current header is always the top of the stack, so it is not
    stored separately. */
module HeadingStacks {

  datatype OpenHeading<C> = OpenHeading(level: int, title: string, content: C)

  datatype Ops<!C, !N> = Ops(close: OpenHeading<C> -> N, add: (C, N) -> C, initial: C)

  datatype Stack<C, N> = Stack(root: seq<N>, stack: seq<OpenHeading<C>>, started: bool)

  function Init<C, N>(): (r: Stack<C, N>)
    ensures r.root == [] && r.stack == [] && !r.started
  {
    Stack([], [], false)
  }

  function AddTo<C, N>(ops: Ops<C, N>, h: OpenHeading<C>, x: N): (r: OpenHeading<C>)
    ensures r.level == h.level && r.title == h.title
  {
    OpenHeading(h.level, h.title, ops.add(h.content, x))
  }

  /** Appends each of `xs`, in order, to the content of `h`. */
  function AddAll<C, N>(ops: Ops<C, N>, h: OpenHeading<C>, xs: seq<N>): OpenHeading<C>
    decreases |xs|
  {
    if xs == [] then h else AddAll(ops, AddTo(ops, h, xs[0]), xs[1..])
  }

  /** Levels strictly increase from the bottom of the stack to its top. */
  predicate Increasing<C>(stack: seq<OpenHeading<C>>)
  {
    forall i, j :: 0 <= i < j < |stack| ==> stack[i].level < stack[j].level
  }

  // ---------------------------------------------------------------------
  // finalizeHeaders as written
  // ---------------------------------------------------------------------

  /** The pop loop: while the top's level is at least `level`, pop it and
      append it to the heading below, or to `finished` when it was the bottom
      one. Returns the remaining stack and `finished`. */
  function PopLoop<C, N>(ops: Ops<C, N>, stack: seq<OpenHeading<C>>, level: int, finished: seq<N>): (seq<OpenHeading<C>>, seq<N>)
    decreases |stack|
  {
    if |stack| > 0 && level <= stack[|stack| - 1].level then
      var top := stack[|stack| - 1];
      var rest := stack[..|stack| - 1];
      if |rest| > 0 then
        PopLoop(ops, rest[..|rest| - 1] + [AddTo(ops, rest[|rest| - 1], ops.close(top))], level, finished)
      else
        PopLoop(ops, rest, level, finished + [ops.close(top)])
    else (stack, finished)
  }

  /** `finalizeHeaders(level)`: nothing happens before the first heading;
      otherwise the pop loop runs and `finished` goes to the remaining top, or
      to the root when the stack ran empty. */
  function Finalize<C, N>(ops: Ops<C, N>, st: Stack<C, N>, level: int): Stack<C, N>
  {
    if !st.started then st
    else
      var (stack, finished) := PopLoop(ops, st.stack, level, []);
      if |stack| > 0 then Stack(st.root, stack[..|stack| - 1] + [AddAll(ops, stack[|stack| - 1], finished)], true)
      else Stack(st.root + finished, stack, true)
  }

  // ---------------------------------------------------------------------
  // The declarative reading: pop the maximal run, collapse it
  // ---------------------------------------------------------------------

  /** Start of the maximal top run of headings whose level is at least
      `level`. */
  function RunStart<C>(stack: seq<OpenHeading<C>>, level: int): (k: nat)
    ensures k <= |stack|
    ensures forall i :: k <= i < |stack| ==> level <= stack[i].level
    ensures k > 0 ==> stack[k - 1].level < level
    decreases |stack|
  {
    if |stack| > 0 && level <= stack[|stack| - 1].level then RunStart(stack[..|stack| - 1], level) else |stack|
  }

  /** A run of open headings folded into one finished heading: each is closed
      with every heading above it appended as its last child. */
  function Collapse<C, N>(ops: Ops<C, N>, run: seq<OpenHeading<C>>): N
    requires |run| > 0
    decreases |run|
  {
    if |run| == 1 then ops.close(run[0]) else ops.close(AddTo(ops, run[0], Collapse(ops, run[1..])))
  }

  /** The reference definition of `finalizeHeaders(level)`: the maximal top
      run with levels at least `level` is collapsed and appended to the
      heading just below it, or to the root when the run is the whole stack. */
  function FinalizeSpec<C, N>(ops: Ops<C, N>, st: Stack<C, N>, level: int): Stack<C, N>
  {
    if !st.started then st
    else
      var k := RunStart(st.stack, level);
      if k == |st.stack| then st
      else if k > 0 then Stack(st.root, st.stack[..k - 1] + [AddTo(ops, st.stack[k - 1], Collapse(ops, st.stack[k..]))], true)
      else Stack(st.root + [Collapse(ops, st.stack)], [], true)
  }

  lemma {:induction false} CollapseFoldTop<C, N>(ops: Ops<C, N>, r: seq<OpenHeading<C>>, t: OpenHeading<C>)
    requires |r| > 0
    ensures Collapse(ops, r[..|r| - 1] + [AddTo(ops, r[|r| - 1], ops.close(t))]) == Collapse(ops, r + [t])
    decreases |r|
  {
    var lhs := r[..|r| - 1] + [AddTo(ops, r[|r| - 1], ops.close(t))];
    if |r| == 1 {
      assert lhs == [AddTo(ops, r[0], ops.close(t))];
      assert (r + [t])[1..] == [t];
    } else {
      var r' := r[1..];
      assert lhs[1..] == r'[..|r'| - 1] + [AddTo(ops, r'[|r'| - 1], ops.close(t))];
      assert (r + [t])[1..] == r' + [t];
      CollapseFoldTop(ops, r', t);
    }
  }

  lemma {:induction false} RunStartSameLevels<C>(s: seq<OpenHeading<C>>, s': seq<OpenHeading<C>>, level: int)
    requires |s| == |s'|
    requires forall i :: 0 <= i < |s| ==> s[i].level == s'[i].level
    ensures RunStart(s, level) == RunStart(s', level)
    decreases |s|
  {
    if |s| > 0 {
      RunStartSameLevels(s[..|s| - 1], s'[..|s'| - 1], level);
    }
  }

  /** What the pop loop leaves: the stack below the maximal run, with the
      collapsed run appended to its top, or the collapsed run in `finished`
      when the run is the whole stack. */
  function PoppedRun<C, N>(ops: Ops<C, N>, s: seq<OpenHeading<C>>, level: int, f: seq<N>): (seq<OpenHeading<C>>, seq<N>)
  {
    var k := RunStart(s, level);
    if k == |s| then (s, f)
    else if k > 0 then (s[..k - 1] + [AddTo(ops, s[k - 1], Collapse(ops, s[k..]))], f)
    else ([], f + [Collapse(ops, s)])
  }

  /** Folding the top into the heading below does not change which run is
      popped nor what it collapses to. */
  lemma PoppedRunFold<C, N>(ops: Ops<C, N>, s: seq<OpenHeading<C>>, level: int, f: seq<N>)
    requires |s| > 1 && level <= s[|s| - 1].level
    ensures var n := |s|;
      var s' := s[..n - 2] + [AddTo(ops, s[n - 2], ops.close(s[n - 1]))];
      PoppedRun(ops, s', level, f) == PoppedRun(ops, s, level, f)
  {
    var n := |s|;
    var rest := s[..n - 1];
    var s' := s[..n - 2] + [AddTo(ops, s[n - 2], ops.close(s[n - 1]))];
    assert rest[..|rest| - 1] == s[..n - 2];
    RunStartSameLevels(rest, s', level);
    var k := RunStart(s, level);
    assert k == RunStart(rest, level);
    if k == n - 1 {
      PoppedRunFoldTop(ops, s, level, f);
    } else {
      FoldedRunCollapse(ops, s, k);
    }
  }

  /** When only the top is in the run, folding it in empties the run. */
  lemma PoppedRunFoldTop<C, N>(ops: Ops<C, N>, s: seq<OpenHeading<C>>, level: int, f: seq<N>)
    requires |s| > 1 && level <= s[|s| - 1].level
    requires RunStart(s, level) == |s| - 1
    requires RunStart(s[..|s| - 2] + [AddTo(ops, s[|s| - 2], ops.close(s[|s| - 1]))], level) == |s| - 1
    ensures var n := |s|;
      var s' := s[..n - 2] + [AddTo(ops, s[n - 2], ops.close(s[n - 1]))];
      PoppedRun(ops, s', level, f) == PoppedRun(ops, s, level, f)
  {
    var n := |s|;
    assert s[n - 1..] == [s[n - 1]];
  }

  /** Folding the top into the heading below, inside a run that starts at
      `k`, leaves the part below the run alone and the collapse unchanged. */
  lemma FoldedRunCollapse<C, N>(ops: Ops<C, N>, s: seq<OpenHeading<C>>, k: nat)
    requires 1 < |s| && k < |s| - 1
    ensures var n := |s|;
      var s' := s[..n - 2] + [AddTo(ops, s[n - 2], ops.close(s[n - 1]))];
      && Collapse(ops, s'[k..]) == Collapse(ops, s[k..])
      && s'[..k] == s[..k]
      && (k > 0 ==> s'[..k - 1] == s[..k - 1] && s'[k - 1] == s[k - 1])
      && (k == 0 ==> Collapse(ops, s') == Collapse(ops, s))
  {
    var n := |s|;
    var top := s[n - 1];
    var s' := s[..n - 2] + [AddTo(ops, s[n - 2], ops.close(top))];
    var r := s[k..n - 1];
    assert r + [top] == s[k..];
    assert s'[k..] == r[..|r| - 1] + [AddTo(ops, r[|r| - 1], ops.close(top))];
    CollapseFoldTop(ops, r, top);
    if k == 0 {
      assert s'[0..] == s';
      assert s[0..] == s;
    }
  }

  /** The pop loop pops exactly the maximal run and collapses it. */
  lemma {:induction false} PopLoopPopsRun<C, N>(ops: Ops<C, N>, s: seq<OpenHeading<C>>, level: int, f: seq<N>)
    ensures PopLoop(ops, s, level, f) == PoppedRun(ops, s, level, f)
    decreases |s|
  {
    var n := |s|;
    if n > 0 && level <= s[n - 1].level {
      if n == 1 {
        assert s[..0] == [];
        assert RunStart(s[..0], level) == 0;
      } else {
        var s' := s[..n - 2] + [AddTo(ops, s[n - 2], ops.close(s[n - 1]))];
        assert s[..n - 1][..n - 2] == s[..n - 2];
        assert PopLoop(ops, s, level, f) == PopLoop(ops, s', level, f);
        PopLoopPopsRun(ops, s', level, f);
        PoppedRunFold(ops, s, level, f);
      }
    }
  }

  /** `finalizeHeaders` as written agrees with the reference definition on
      every state. */
  lemma FinalizeMatchesSpec<C, N>(ops: Ops<C, N>, st: Stack<C, N>, level: int)
    ensures Finalize(ops, st, level) == FinalizeSpec(ops, st, level)
  {
    if st.started {
      PopLoopPopsRun(ops, st.stack, level, []);
      var k := RunStart(st.stack, level);
      if k == |st.stack| && |st.stack| > 0 {
        assert st.stack[..|st.stack| - 1] + [st.stack[|st.stack| - 1]] == st.stack;
      }
    }
  }

  /** The list of finished headings is only ever non-empty when the whole
      stack was popped, so the branch handing it to a remaining parent never
      receives anything. */
  lemma FinishedOnlyAtBottom<C, N>(ops: Ops<C, N>, s: seq<OpenHeading<C>>, level: int)
    ensures var (stack, finished) := PopLoop(ops, s, level, []);
      |finished| <= 1 && (|finished| == 1 <==> |s| > 0 && stack == [])
  {
    PopLoopPopsRun(ops, s, level, []);
  }

  /** Before the first heading, `finalizeHeaders` does nothing. */
  lemma FinalizeBeforeHeading<C, N>(ops: Ops<C, N>, st: Stack<C, N>, level: int)
    requires !st.started
    ensures Finalize(ops, st, level) == st
  {
  }

  /** After `finalizeHeaders(level)` every heading left on the stack has a
      smaller level, the root is unchanged unless the whole stack was popped
      and then gained exactly the collapsed stack, and levels still increase. */
  lemma FinalizeShape<C, N>(ops: Ops<C, N>, st: Stack<C, N>, level: int)
    requires Increasing(st.stack)
    ensures var r := Finalize(ops, st, level);
      && r.started == st.started
      && Increasing(r.stack)
      && |r.stack| <= |st.stack|
      && (forall i :: 0 <= i < |r.stack| ==> r.stack[i].level == st.stack[i].level)
      && (st.started ==> forall i :: 0 <= i < |r.stack| ==> r.stack[i].level < level)
      && (r.root == st.root || (st.started && |st.stack| > 0 && r.stack == [] && r.root == st.root + [Collapse(ops, st.stack)]))
  {
    FinalizeMatchesSpec(ops, st, level);
    if st.started {
      var k := RunStart(st.stack, level);
      if k < |st.stack| && k > 0 {
        var r := Finalize(ops, st, level);
        assert forall i :: 0 <= i < k ==> r.stack[i].level == st.stack[i].level;
      }
    }
  }

  /** `finalizeHeaders(0)` empties a stack whose levels are all non-negative
      (parsed heading levels are 1 to 6). */
  lemma FinalizeZeroEmpties<C, N>(ops: Ops<C, N>, st: Stack<C, N>)
    requires st.started || st.stack == []
    requires forall i :: 0 <= i < |st.stack| ==> st.stack[i].level >= 0
    ensures Finalize(ops, st, 0).stack == []
  {
    FinalizeMatchesSpec(ops, st, 0);
  }

  // ---------------------------------------------------------------------
  // handleHeader, the append rule and GetNodes
  // ---------------------------------------------------------------------

  /** The states the builder reaches before `GetNodes`: levels increase, and
      a heading has been started exactly when the stack is non-empty. */
  predicate Wf<C, N>(st: Stack<C, N>)
  {
    Increasing(st.stack) && (st.started <==> |st.stack| > 0)
  }

  /** `handleHeader`: finalize at the new level, then push the new heading,
      which becomes the current header. */
  function HandleHeader<C, N>(ops: Ops<C, N>, st: Stack<C, N>, level: int, title: string): (r: Stack<C, N>)
    requires Wf(st)
    ensures r.started && |r.stack| > 0
    ensures r.stack[|r.stack| - 1] == OpenHeading(level, title, ops.initial)
    ensures Wf(r)
    ensures |r.stack| <= |st.stack| + 1
    ensures forall i :: 0 <= i < |r.stack| - 1 ==> r.stack[i].level == st.stack[i].level
    ensures r.root == st.root || (st.started && |st.stack| > 0 && r.root == st.root + [Collapse(ops, st.stack)] && |r.stack| == 1)
  {
    var f := Finalize(ops, st, level);
    FinalizeShape(ops, st, level);
    assert !st.started ==> f == st;
    Stack(f.root, f.stack + [OpenHeading(level, title, ops.initial)], true)
  }

  /** The append rule of `RenderNode`: content goes to the current header
      when one is open, and to the root otherwise. */
  function Append<C, N>(ops: Ops<C, N>, st: Stack<C, N>, x: N): (r: Stack<C, N>)
    requires Wf(st)
    ensures Wf(r) && r.started == st.started
    ensures st.started ==>
      && r.root == st.root && |r.stack| == |st.stack|
      && r.stack[..|r.stack| - 1] == st.stack[..|st.stack| - 1]
      && r.stack[|r.stack| - 1] == AddTo(ops, st.stack[|st.stack| - 1], x)
    ensures !st.started ==> r.root == st.root + [x] && r.stack == []
  {
    if st.started then
      var n := |st.stack|;
      var r := Stack(st.root, st.stack[..n - 1] + [AddTo(ops, st.stack[n - 1], x)], true);
      assert forall i :: 0 <= i < n ==> r.stack[i].level == st.stack[i].level;
      r
    else Stack(st.root + [x], st.stack, false)
  }

  /** A heading deeper than the current one (or the first heading) nests:
      nothing is closed and the new heading is pushed. */
  lemma HandleHeaderNests<C, N>(ops: Ops<C, N>, st: Stack<C, N>, level: int, title: string)
    requires Wf(st)
    requires st.started ==> st.stack[|st.stack| - 1].level < level
    ensures HandleHeader(ops, st, level, title) == Stack(st.root, st.stack + [OpenHeading(level, title, ops.initial)], true)
  {
    FinalizeMatchesSpec(ops, st, level);
    if !st.started {
      assert st.stack == [];
    }
  }

  /** A heading at or above the level of the bottom open heading closes the
      whole stack into one finished node on the root, and starts afresh. */
  lemma HandleHeaderClosesAll<C, N>(ops: Ops<C, N>, st: Stack<C, N>, level: int, title: string)
    requires Wf(st) && st.started
    requires level <= st.stack[0].level
    ensures HandleHeader(ops, st, level, title)
      == Stack(st.root + [Collapse(ops, st.stack)], [OpenHeading(level, title, ops.initial)], true)
  {
    FinalizeMatchesSpec(ops, st, level);
    assert forall i :: 0 <= i < |st.stack| ==> level <= st.stack[i].level;
    assert RunStart(st.stack, level) == 0;
  }

  /** With a heading open, content is added to it and nothing else changes. */
  lemma AppendToOpen<C, N>(ops: Ops<C, N>, st: Stack<C, N>, x: N)
    requires Wf(st) && st.started
    ensures var n := |st.stack|;
      Append(ops, st, x) == Stack(st.root, st.stack[..n - 1] + [AddTo(ops, st.stack[n - 1], x)], true)
  {
  }

  /** `GetNodes` with headings open: the whole stack, collapsed into its
      bottom heading, is the last node of the root. */
  lemma GetNodesClosesAll<C, N>(ops: Ops<C, N>, st: Stack<C, N>)
    requires Wf(st) && st.started
    requires st.stack[0].level >= 0
    ensures GetNodes(ops, st).1 == st.root + [Collapse(ops, st.stack)]
  {
    FinalizeMatchesSpec(ops, st, 0);
    assert forall i :: 0 <= i < |st.stack| ==> 0 <= st.stack[i].level;
    assert RunStart(st.stack, 0) == 0;
  }

  /** `GetNodes`: finalize at level 0 and return the root together with the
      state it leaves. */
  function GetNodes<C, N>(ops: Ops<C, N>, st: Stack<C, N>): (Stack<C, N>, seq<N>)
  {
    var f := Finalize(ops, st, 0);
    (f, f.root)
  }

  /** A second `GetNodes` returns the same nodes and state as the first. */
  lemma GetNodesIdempotent<C, N>(ops: Ops<C, N>, st: Stack<C, N>)
    requires st.started || st.stack == []
    requires forall i :: 0 <= i < |st.stack| ==> st.stack[i].level >= 0
    ensures var (st1, nodes1) := GetNodes(ops, st);
      GetNodes(ops, st1) == (st1, nodes1)
  {
    FinalizeZeroEmpties(ops, st);
    var st1 := Finalize(ops, st, 0);
    FinalizeMatchesSpec(ops, st1, 0);
  }
}
