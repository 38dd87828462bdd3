/** What `parse_scons_tree` computes, as a fold over the recognised lines on
    values, and what that fold means: it is the inverse of printing a forest
    in pre-order with one indentation level per depth. */
module ParseSpec {
  import opened SeqFacts
  import opened TreeText
  import opened Forest

  /** `RuntimeError('Bad tree')` for a jump of more than one level, and the
      unbound `stack`/`plevel` a first line that is not a root runs into. */
  datatype ParseError = BadTree | NoRoot

  datatype Result<T> = Ok(value: T) | Err(error: ParseError)

  /** The parser between two lines: the finished roots, and the open path
      from the current root down to the last node read (the source's
      `stack`). `open[i]` sits at depth `i` and holds the children attached
      to it so far, except `open[i + 1]`, which is attached when it closes. */
  datatype PState = PState(roots: seq<Tree>, open: seq<Tree>)

  /** The tree an open path stands for once every node on it is attached to
      its parent. */
  function Close(open: seq<Tree>): Tree
    requires |open| > 0
    decreases |open|
  {
    if |open| == 1 then open[0]
    else Tree(open[0].name, open[0].children + [Close(open[1..])])
  }

  /** The open path cut back to `level` nodes: the nodes below depth
      `level - 1` are attached to their parents. */
  function CloseTo(open: seq<Tree>, level: nat): (r: seq<Tree>)
    requires 1 <= level <= |open|
    ensures |r| == level
  {
    open[..level - 1] + [Close(open[level - 1..])]
  }

  /** The forest once the input is exhausted. */
  function Finish(s: PState): seq<Tree> {
    s.roots + if s.open == [] then [] else [Close(s.open)]
  }

  const Start := PState([], [])

  /** One recognised line. Level 0 starts a new root; otherwise, with
      `plevel = |open| - 1`, a child (`plevel + 1`) is pushed, a sibling or a
      shallower node (`<= plevel`) first closes the open nodes at its depth
      and below; anything deeper is a bad tree. Before any root the source
      has no stack at all. */
  function Step(s: PState, e: Entry): Result<PState> {
    if e.level == 0 then Ok(PState(Finish(s), [Leaf(e.name)]))
    else if s.open == [] then Err(NoRoot)
    else if e.level == |s.open| then Ok(PState(s.roots, s.open + [Leaf(e.name)]))
    else if e.level < |s.open| then Ok(PState(s.roots, CloseTo(s.open, e.level) + [Leaf(e.name)]))
    else Err(BadTree)
  }

  /** The state after the lines `es`; the first failing line stops the run. */
  function Run(es: seq<Entry>): Result<PState>
    decreases |es|
  {
    if es == [] then Ok(Start)
    else
      match Run(es[..|es| - 1])
      case Err(err) => Err(err)
      case Ok(s) => Step(s, es[|es| - 1])
  }

  /** The forest of a sequence of recognised lines. */
  function ParseEntries(es: seq<Entry>): Result<seq<Tree>> {
    match Run(es)
    case Err(err) => Err(err)
    case Ok(s) => Ok(Finish(s))
  }

  /** The forest of a captured build output. */
  function ParseOutput(output: string): Result<seq<Tree>> {
    ParseEntries(Entries(output))
  }

  /** Running one more line: the run so far, then one step. */
  lemma RunSnoc(es: seq<Entry>, e: Entry)
    ensures Run(es + [e]) == match Run(es) case Err(err) => Err(err) case Ok(s) => Step(s, e)
  {
    assert (es + [e])[..|es|] == es;
  }

  /** Once the run has failed, further lines do not change the error. */
  lemma {:induction false} RunErrSticky(es: seq<Entry>, more: seq<Entry>)
    requires Run(es).Err?
    ensures Run(es + more) == Run(es)
    decreases |more|
  {
    if more == [] {
      assert es + more == es;
    } else {
      var m := more[..|more| - 1];
      assert es + more == (es + m) + [more[|more| - 1]];
      RunErrSticky(es, m);
      RunSnoc(es + m, more[|more| - 1]);
    }
  }

  // ---------------------------------------------------------------------
  // Closing the open path
  // ---------------------------------------------------------------------

  /** Appending a leaf below the deepest open node appends one line, one
      level below that node, to the printed tree. */
  lemma {:induction false} CloseAppendLeaf(open: seq<Tree>, x: string, d: nat)
    requires |open| > 0
    ensures Flatten(Close(open + [Leaf(x)]), d) == Flatten(Close(open), d) + [Entry(d + |open|, x)]
    decreases |open|
  {
    var o := open[0];
    var line := Entry(d + |open|, x);
    TailOfConcat(open, [Leaf(x)]);
    Snoc(open);
    if |open| == 1 {
      AppendNil([Leaf(x)]);
      AppendChild(o.name, o.children, Leaf(x), d);
      assert Flatten(Leaf(x), d + 1) == [line] by {
        AppendNil([line]);
      }
    } else {
      CloseAppendLeaf(open[1..], x, d + 1);
      var inner, inner' := Close(open[1..]), Close(open[1..] + [Leaf(x)]);
      AppendChild(o.name, o.children, inner', d);
      AppendChild(o.name, o.children, inner, d);
      Assoc([Entry(d, o.name)] + FlattenAll(o.children, d + 1), Flatten(inner, d + 1), [line]);
    }
  }

  /** Printing a node with one more last child prints that child's lines
      last. */
  lemma AppendChild(name: string, ch: seq<Tree>, c: Tree, d: nat)
    ensures Flatten(Tree(name, ch + [c]), d) == [Entry(d, name)] + FlattenAll(ch, d + 1) + Flatten(c, d + 1)
  {
    FlattenAllConcat(ch, [c], d + 1);
    FlattenAllSingle(c, d + 1);
    Assoc([Entry(d, name)], FlattenAll(ch, d + 1), Flatten(c, d + 1));
  }

  /** Closing the nodes below depth `k` early does not change the tree the
      path stands for. */
  lemma {:induction false} ClosePrefix(open: seq<Tree>, k: nat)
    requires k < |open|
    ensures Close(open[..k] + [Close(open[k..])]) == Close(open)
    decreases k
  {
    if k == 0 {
      assert open[..0] + [Close(open[0..])] == [Close(open)];
    } else {
      var s := open[..k] + [Close(open[k..])];
      assert s[0] == open[0];
      assert s[1..] == open[1..][..k - 1] + [Close(open[1..][k - 1..])] by {
        assert open[1..][k - 1..] == open[k..];
      }
      ClosePrefix(open[1..], k - 1);
    }
  }

  lemma CloseToClose(open: seq<Tree>, level: nat)
    requires 1 <= level <= |open|
    ensures Close(CloseTo(open, level)) == Close(open)
  {
    ClosePrefix(open, level - 1);
  }

  lemma FinishSnoc(roots: seq<Tree>, open: seq<Tree>)
    requires open != []
    ensures FlattenAll(Finish(PState(roots, open)), 0) == FlattenAll(roots, 0) + Flatten(Close(open), 0)
  {
    FlattenAllConcat(roots, [Close(open)], 0);
    FlattenAllSingle(Close(open), 0);
  }

  /** A non-root line adds exactly itself to the printed forest, below the
      open node at depth `level - 1`. */
  lemma StepChild(s: PState, e: Entry)
    requires 1 <= e.level <= |s.open|
    ensures Step(s, e).Ok?
    ensures |Step(s, e).value.open| == e.level + 1
    ensures Step(s, e).value.roots == s.roots
    ensures FlattenAll(Finish(Step(s, e).value), 0) == FlattenAll(Finish(s), 0) + [e]
  {
    var open' := CloseTo(s.open, e.level);
    assert Step(s, e).value.open == open' + [Leaf(e.name)] by {
      if e.level == |s.open| {
        assert open' == s.open by {
          assert s.open[e.level - 1..] == [s.open[e.level - 1]];
          assert s.open[..e.level - 1] + [s.open[e.level - 1]] == s.open;
        }
      }
    }
    CloseToClose(s.open, e.level);
    CloseAppendLeaf(open', e.name, 0);
    FinishSnoc(s.roots, s.open);
    FinishSnoc(s.roots, open' + [Leaf(e.name)]);
  }

  /** A root line adds exactly itself to the printed forest. */
  lemma StepRoot(s: PState, e: Entry)
    requires e.level == 0
    ensures Step(s, e) == Ok(PState(Finish(s), [Leaf(e.name)]))
    ensures |Finish(Step(s, e).value)| == |Finish(s)| + 1
    ensures FlattenAll(Finish(Step(s, e).value), 0) == FlattenAll(Finish(s), 0) + [e]
  {
    FinishSnoc(Finish(s), [Leaf(e.name)]);
  }

  // ---------------------------------------------------------------------
  // What the fold means
  // ---------------------------------------------------------------------

  /** While it succeeds, the fold has consumed exactly what its forest
      prints, and the open path is one node longer than the last line's
      level (`len(stack) == plevel + 1`). */
  lemma {:induction false} RunInvariant(es: seq<Entry>)
    requires Run(es).Ok?
    ensures FlattenAll(Finish(Run(es).value), 0) == es
    ensures Run(es).value.open == [] <==> es == []
    ensures es != [] ==> |Run(es).value.open| == es[|es| - 1].level + 1
    decreases |es|
  {
    if es != [] {
      var p, e := es[..|es| - 1], es[|es| - 1];
      Snoc(es);
      RunInvariant(p);
      var s := Run(p).value;
      if e.level == 0 {
        StepRoot(s, e);
      } else {
        StepChild(s, e);
      }
    }
  }

  /** The fold succeeds exactly on well-formed input, and fails with
      `NoRoot` exactly when the first line is not a root. */
  lemma {:induction false} RunOutcome(es: seq<Entry>)
    ensures Run(es).Ok? <==> WellFormed(es)
    ensures Run(es) == Err(NoRoot) <==> |es| > 0 && es[0].level > 0
    decreases |es|
  {
    if es != [] {
      var p, e := es[..|es| - 1], es[|es| - 1];
      Snoc(es);
      RunOutcome(p);
      WellFormedSnoc(p, e);
      if Run(p).Ok? {
        RunInvariant(p);
      }
    }
  }

  /** Parsing succeeds exactly on well-formed input; a jump of more than one
      level is `BadTree` and a first line below level 0 is `NoRoot`. */
  lemma ParseOutcome(es: seq<Entry>)
    ensures ParseEntries(es).Ok? <==> WellFormed(es)
    ensures ParseEntries(es) == Err(NoRoot) <==> |es| > 0 && es[0].level > 0
    ensures ParseEntries(es) == Err(BadTree) <==>
      |es| > 0 && es[0].level == 0 && exists i :: 0 < i < |es| && es[i].level > es[i - 1].level + 1
  {
    RunOutcome(es);
    ParseFailsAsRun(es);
    NotWellFormed(es);
  }

  lemma ParseFailsAsRun(es: seq<Entry>)
    ensures ParseEntries(es).Err? <==> Run(es).Err?
    ensures Run(es).Err? ==> ParseEntries(es).error == Run(es).error
  {
  }

  /** Parsing inverts printing: the parser returns `f` exactly when `f`
      prints as the given lines. */
  lemma ParseIsInverse(es: seq<Entry>, f: seq<Tree>)
    ensures ParseEntries(es) == Ok(f) <==> FlattenAll(f, 0) == es
  {
    if ParseEntries(es) == Ok(f) {
      RunInvariant(es);
    }
    if FlattenAll(f, 0) == es {
      FlattenWellFormed(f);
      RunOutcome(es);
      RunInvariant(es);
      FlattenAllInjective(Finish(Run(es).value), f, 0);
    }
  }

  /** Every forest survives printing and parsing. */
  lemma ParsePrinted(f: seq<Tree>)
    ensures ParseEntries(FlattenAll(f, 0)) == Ok(f)
  {
    ParseIsInverse(FlattenAll(f, 0), f);
  }

  /** One root per level-0 line, and one parent-child edge per other line. */
  lemma ParseCounts(es: seq<Entry>)
    requires ParseEntries(es).Ok?
    ensures |ParseEntries(es).value| == RootLines(es)
    ensures Edges(ParseEntries(es).value) == |es| - RootLines(es)
  {
    var f := ParseEntries(es).value;
    ParseIsInverse(es, f);
    RootLinesOfForest(f);
    LinesAreTreesPlusEdges(f, 0);
  }

  /** The report of a forest as SCons prints it: one rendered line per
      node in pre-order, each ended by a newline. */
  function Render(f: seq<Tree>): string {
    JoinLines(RenderLines(FlattenAll(f, 0)) + [""])
  }

  /** Reading a printed report gives back the forest, provided no name
      holds a newline. */
  lemma ParseRendered(f: seq<Tree>)
    requires forall k :: 0 <= k < |FlattenAll(f, 0)| ==> '\n' !in FlattenAll(f, 0)[k].name
    ensures ParseOutput(Render(f)) == Ok(f)
  {
    var es := FlattenAll(f, 0);
    var lines := RenderLines(es);
    RenderLinesAt(es);
    forall k | 0 <= k < |lines| ensures '\n' !in lines[k] {
      RenderLineMatches(es[k]);
    }
    SnocIndex(lines, "");
    SplitJoin(lines + [""]);
    EntriesOfConcat(lines, [""]);
    EntriesOfSingle("");
    EntriesOfRendered(es);
    AppendNil(es);
    ParsePrinted(f);
  }
}
