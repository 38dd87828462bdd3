/** `parse_scons_tree` and the leaf collection of `run_scons_and_parse_tree`
    as the source runs them: node objects whose children lists grow in place
    while an explicit stack holds the open ancestors. */
module Parser {
  import opened SeqFacts
  import opened Wrappers
  import opened TreeText
  import opened Forest
  import opened ParseSpec

  /** A node of the dependency tree: its name is fixed when it is created,
      its children list is appended to while parsing. */
  class Node {
    const name: string
    var children: seq<Node>

    constructor (name: string)
      ensures this.name == name && children == []
    {
      this.name := name;
      children := [];
    }
  }

  /** The nodes reachable from `n` have the names and the shape of `t`. */
  ghost predicate Models(n: Node, t: Tree)
    reads *
    decreases t
  {
    && n.name == t.name
    && |n.children| == |t.children|
    && forall i :: 0 <= i < |t.children| ==> Models(n.children[i], t.children[i])
  }

  ghost predicate ModelsAll(ns: seq<Node>, ts: seq<Tree>)
    reads *
  {
    |ns| == |ts| && forall i :: 0 <= i < |ts| ==> Models(ns[i], ts[i])
  }

  // ---------------------------------------------------------------------
  // The heap while parsing
  // ---------------------------------------------------------------------

  /** `done` gives the value of every node that has left the stack: its
      children have all left the stack too, and their values are its
      children's values. */
  ghost predicate Closed(done: map<Node, Tree>)
    reads done.Keys
  {
    forall n {:trigger ClosedAt(n, done)} :: n in done ==> ClosedAt(n, done)
  }

  /** The closed node `n` has its value's name and its children are closed
      nodes holding its value's children. */
  ghost predicate ClosedAt(n: Node, done: map<Node, Tree>)
    requires n in done
    reads n
  {
    && n.name == done[n].name
    && |n.children| == |done[n].children|
    && forall c :: 0 <= c < |n.children| ==>
         n.children[c] in done && done[n.children[c]] == done[n].children[c]
  }

  /** An open node `n` standing for `t`: its first children are closed and
      are `t`'s children; when it is not the top of the stack, its last child
      is the next node on the stack. */
  ghost predicate OpenNode(n: Node, t: Tree, done: map<Node, Tree>, next: Option<Node>)
    reads n, done.Keys
  {
    var m := |t.children|;
    && n !in done
    && n.name == t.name
    && |n.children| == m + (if next.Some? then 1 else 0)
    && (forall c :: 0 <= c < m ==> n.children[c] in done && done[n.children[c]] == t.children[c])
    && (next.Some? ==> n.children[m] == next.value)
  }

  function NextOnStack(stack: seq<Node>, j: nat): Option<Node>
    requires j < |stack|
  {
    if j + 1 < |stack| then Some(stack[j + 1]) else None
  }

  /** The stack holds distinct open nodes standing for the open path. */
  ghost predicate Spine(stack: seq<Node>, open: seq<Tree>, done: map<Node, Tree>)
    reads stack, done.Keys
  {
    && |stack| == |open|
    && (forall j, k :: 0 <= j < k < |stack| ==> stack[j] != stack[k])
    && forall j :: 0 <= j < |stack| ==> OpenAt(stack, open, done, j)
  }

  /** The node at depth `j` of the stack stands for the tree at depth `j` of
      the open path, its last child being the next node up the stack. */
  ghost predicate OpenAt(stack: seq<Node>, open: seq<Tree>, done: map<Node, Tree>, j: nat)
    requires j < |stack| == |open|
    reads stack, done.Keys
  {
    OpenNode(stack[j], open[j], done, NextOnStack(stack, j))
  }

  /** `root_nodes` holds the finished roots, then the root of the stack. */
  ghost predicate RootsOk(rootNodes: seq<Node>, ps: PState, stack: seq<Node>, done: map<Node, Tree>) {
    && |rootNodes| == |ps.roots| + (if ps.open == [] then 0 else 1)
    && (forall k :: 0 <= k < |ps.roots| ==> rootNodes[k] in done && done[rootNodes[k]] == ps.roots[k])
    && (ps.open != [] ==> stack != [] && rootNodes[|rootNodes| - 1] == stack[0])
  }

  /** A closed node has the value `done` gives it. */
  lemma ClosedModels(done: map<Node, Tree>, n: Node)
    requires Closed(done) && n in done
    ensures Models(n, done[n])
    decreases done[n]
  {
    assert ClosedAt(n, done);
    forall i | 0 <= i < |done[n].children|
      ensures Models(n.children[i], done[n].children[i])
    {
      ClosedModels(done, n.children[i]);
    }
  }

  /** The nodes of the stack from depth `k` down, with their values. */
  ghost function Below(stack: seq<Node>, k: nat): set<Node> {
    set j | k <= j < |stack| :: stack[j]
  }

  /** The state of closing the open path from the bottom up to depth `k`. */
  ghost predicate ClosedFrom(stack: seq<Node>, open: seq<Tree>, done: map<Node, Tree>, done': map<Node, Tree>, k: nat)
    requires |stack| == |open|
  {
    && k <= |stack|
    && done'.Keys == done.Keys + Below(stack, k)
    && (forall n :: n in done ==> done'[n] == done[n])
    && (forall j {:trigger done'[stack[j]]} :: k <= j < |stack| ==> done'[stack[j]] == Close(open[j..]))
  }

  /** The closed value of the path from depth `k` has the name of its top
      and that node's children, followed by the closed rest of the path. */
  lemma CloseHead(open: seq<Tree>, k: nat)
    requires k < |open|
    ensures Close(open[k..]).name == open[k].name
    ensures Close(open[k..]).children ==
      open[k].children + if k + 1 < |open| then [Close(open[k + 1..])] else []
  {
    if k + 1 < |open| {
      assert open[k..][1..] == open[k + 1..];
    }
  }

  /** A node still on the stack has not been closed. */
  lemma StillOpen(stack: seq<Node>, open: seq<Tree>, done: map<Node, Tree>, done': map<Node, Tree>, k: nat)
    requires k < |stack|
    requires Spine(stack, open, done)
    requires ClosedFrom(stack, open, done, done', k + 1)
    ensures stack[k] !in done'
  {
    var n := stack[k];
    assert OpenAt(stack, open, done, k);
    forall j | k + 1 <= j < |stack| ensures stack[j] != n { }
  }

  /** The node at depth `k` leaves the stack once those below it have. */
  lemma CloseOne(stack: seq<Node>, open: seq<Tree>, done: map<Node, Tree>, done': map<Node, Tree>, k: nat)
    requires k < |stack|
    requires Spine(stack, open, done) && Closed(done')
    requires ClosedFrom(stack, open, done, done', k + 1)
    ensures Closed(done'[stack[k] := Close(open[k..])])
  {
    var n := stack[k];
    StillOpen(stack, open, done, done', k);
    assert OpenAt(stack, open, done, k);
    CloseHead(open, k);
    var d := done'[n := Close(open[k..])];
    forall x | x in d
      ensures ClosedAt(x, d)
    {
      if x != n {
        assert ClosedAt(x, done');
      }
    }
  }

  /** Closing the node at depth `k` extends the closing by one step. */
  lemma CloseOneStep(stack: seq<Node>, open: seq<Tree>, done: map<Node, Tree>, done': map<Node, Tree>, k: nat)
    requires k < |stack|
    requires Spine(stack, open, done)
    requires ClosedFrom(stack, open, done, done', k + 1)
    ensures ClosedFrom(stack, open, done, done'[stack[k] := Close(open[k..])], k)
  {
    StillOpen(stack, open, done, done', k);
    BelowStep(stack, k);
  }

  /** Closing the path from the bottom up to depth `k` keeps the heap closed. */
  ghost predicate Closing(stack: seq<Node>, open: seq<Tree>, done: map<Node, Tree>, done': map<Node, Tree>, k: nat)
    reads stack, done.Keys, done'.Keys
  {
    Spine(stack, open, done) && Closed(done') && ClosedFrom(stack, open, done, done', k)
  }

  lemma CloseNext(stack: seq<Node>, open: seq<Tree>, done: map<Node, Tree>, done': map<Node, Tree>, k: nat)
    requires k < |stack|
    requires Closing(stack, open, done, done', k + 1)
    ensures Closing(stack, open, done, done'[stack[k] := Close(open[k..])], k)
  {
    CloseOne(stack, open, done, done', k);
    CloseOneStep(stack, open, done, done', k);
  }

  lemma NothingClosedYet(stack: seq<Node>, open: seq<Tree>, done: map<Node, Tree>)
    requires Spine(stack, open, done) && Closed(done)
    ensures Closing(stack, open, done, done, |stack|)
  {
    assert Below(stack, |stack|) == {};
  }

  lemma BelowStep(stack: seq<Node>, k: nat)
    requires k < |stack|
    ensures Below(stack, k) == Below(stack, k + 1) + {stack[k]}
  {
  }

  /** With the nodes from depth `level` closed, the rest of the stack stands
      for the path cut back to `level` nodes. */
  lemma CutSpine(stack: seq<Node>, open: seq<Tree>, done: map<Node, Tree>, done': map<Node, Tree>, level: nat)
    requires 0 < level < |stack|
    requires Spine(stack, open, done)
    requires ClosedFrom(stack, open, done, done', level)
    ensures Spine(stack[..level], CloseTo(open, level), done')
  {
    var s, o := stack[..level], CloseTo(open, level);
    forall j | 0 <= j < level
      ensures OpenAt(s, o, done', j)
    {
      assert OpenAt(stack, open, done, j);
      assert s[j] !in done' by {
        forall i | level <= i < |stack| ensures stack[i] != stack[j] { }
      }
      if j == level - 1 {
        assert o[j] == Close(open[j..]);
        assert open[j..][1..] == open[level..];
        assert stack[j + 1] == stack[level];
      }
    }
  }

  /** Takes the nodes at depth `level` and below off the open path: each gets
      its value, the path closed from that node down. */
  ghost method CloseFrom(stack: seq<Node>, open: seq<Tree>, done: map<Node, Tree>, level: nat)
    returns (done': map<Node, Tree>)
    requires level < |stack|
    requires Spine(stack, open, done) && Closed(done)
    ensures Closing(stack, open, done, done', level)
    ensures level > 0 ==> Spine(stack[..level], CloseTo(open, level), done')
  {
    done' := CloseDownTo(stack, open, done, level);
    if level > 0 {
      CutSpine(stack, open, done, done', level);
    }
  }

  /** The loop of `CloseFrom`: the nodes leave the stack from the top down. */
  ghost method CloseDownTo(stack: seq<Node>, open: seq<Tree>, done: map<Node, Tree>, level: nat)
    returns (done': map<Node, Tree>)
    requires level <= |stack|
    requires Spine(stack, open, done) && Closed(done)
    ensures Closing(stack, open, done, done', level)
  {
    done' := done;
    var k := |stack|;
    NothingClosedYet(stack, open, done);
    while k > level
      invariant level <= k <= |stack|
      invariant Closing(stack, open, done, done', k)
    {
      CloseNext(stack, open, done, done', k - 1);
      done' := done'[stack[k - 1] := Close(open[k - 1..])];
      k := k - 1;
    }
  }

  // ---------------------------------------------------------------------
  // parse_scons_tree
  // ---------------------------------------------------------------------

  /** The heap between two lines, for the value state `ps`. */
  ghost predicate Parsing(rootNodes: seq<Node>, ps: PState, stack: seq<Node>, done: map<Node, Tree>)
    reads stack, done.Keys
  {
    Spine(stack, ps.open, done) && Closed(done) && RootsOk(rootNodes, ps, stack, done)
  }

  /** The stack just had a new, childless node pushed, standing for a leaf,
      on top of a stack that stands for the rest of the open path. */
  ghost predicate Pushed(stack: seq<Node>, open: seq<Tree>, done: map<Node, Tree>)
    reads stack, done.Keys
  {
    && 2 <= |stack| == |open|
    && Spine(stack[..|stack| - 1], open[..|open| - 1], done) && Closed(done)
    && stack[|stack| - 1] !in done && stack[|stack| - 1] !in stack[..|stack| - 1]
    && stack[|stack| - 1].children == []
    && open[|open| - 1] == Leaf(stack[|stack| - 1].name)
  }

  /** `stack[-2].children.append(stack[-1])`: the node just pushed becomes
      the last child of the node below it, so the whole stack is open path. */
  method AttachTop(stack: seq<Node>, ghost open: seq<Tree>, ghost done: map<Node, Tree>)
    requires Pushed(stack, open, done)
    modifies stack[|stack| - 2]
    ensures Spine(stack, open, done) && Closed(done)
  {
    ghost var s, o := stack[..|stack| - 1], open[..|open| - 1];
    var top := |stack| - 1;
    forall j | 0 <= j < top - 1
      ensures OpenNode(stack[j], open[j], done, NextOnStack(stack, j))
    {
      assert OpenAt(s, o, done, j);
    }
    assert OpenAt(s, o, done, top - 1);
    stack[top - 1].children := stack[top - 1].children + [stack[top]];
    forall j | 0 <= j < |stack|
      ensures OpenAt(stack, open, done, j)
    {
      if j < top - 1 {
        assert stack[j] == s[j] && stack[j] != stack[top - 1];
      }
    }
    assert forall j :: 0 <= j < top ==> stack[j] == s[j];
  }

  /** `root = Node(src)` for a line at level 0; the tree under construction,
      if any, is finished. */
  method NewRoot(ghost rootNodes: seq<Node>, ghost ps: PState, ghost stack: seq<Node>,
                 ghost done: map<Node, Tree>, src: string)
    returns (root: Node, ghost done': map<Node, Tree>)
    requires Parsing(rootNodes, ps, stack, done)
    ensures fresh(root)
    ensures Parsing(rootNodes + [root], PState(Finish(ps), [Leaf(src)]), [root], done')
  {
    done' := done;
    if ps.open != [] {
      done' := CloseFrom(stack, ps.open, done, 0);
    }
    root := new Node(src);
    StartRoot(rootNodes, ps, stack, done, done', root);
  }

  /** A new root: the previous tree, closed, joins the finished roots. */
  lemma StartRoot(rootNodes: seq<Node>, ps: PState, stack: seq<Node>, done: map<Node, Tree>,
                  done': map<Node, Tree>, root: Node)
    requires Parsing(rootNodes, ps, stack, done)
    requires ps.open == [] ==> done' == done
    requires ps.open != [] ==> Closing(stack, ps.open, done, done', 0)
    requires root !in done' && root.children == []
    ensures Parsing(rootNodes + [root], PState(Finish(ps), [Leaf(root.name)]), [root], done')
  {
    RootsClosed(rootNodes, ps, stack, done, done');
    assert OpenAt([root], [Leaf(root.name)], done', 0);
  }

  /** Once the open path is closed, every root node has its finished tree. */
  lemma RootsClosed(rootNodes: seq<Node>, ps: PState, stack: seq<Node>, done: map<Node, Tree>,
                    done': map<Node, Tree>)
    requires RootsOk(rootNodes, ps, stack, done)
    requires ps.open == [] ==> done' == done
    requires ps.open != [] ==> |stack| == |ps.open| && ClosedFrom(stack, ps.open, done, done', 0)
    ensures |rootNodes| == |Finish(ps)|
    ensures forall k :: 0 <= k < |Finish(ps)| ==> rootNodes[k] in done' && done'[rootNodes[k]] == Finish(ps)[k]
  {
    forall k | 0 <= k < |Finish(ps)|
      ensures rootNodes[k] in done' && done'[rootNodes[k]] == Finish(ps)[k]
    {
      if k < |ps.roots| {
        assert Finish(ps)[k] == ps.roots[k];
      } else {
        assert Finish(ps)[k] == Close(ps.open) && rootNodes[k] == stack[0];
        assert stack[0] in Below(stack, 0);
        assert ps.open[0..] == ps.open;
      }
    }
  }

  /** `stack.append(Node(src))` followed by attaching the new node to the
      node below it. */
  method PushChild(ghost rootNodes: seq<Node>, ghost ps: PState, stack: seq<Node>,
                   ghost done: map<Node, Tree>, src: string)
    returns (stack': seq<Node>)
    requires Parsing(rootNodes, ps, stack, done) && ps.open != []
    modifies stack[|stack| - 1]
    ensures |stack'| == |stack| + 1 && fresh(stack'[|stack|])
    ensures forall j :: 0 <= j < |stack| ==> stack'[j] == stack[j]
    ensures Parsing(rootNodes, PState(ps.roots, ps.open + [Leaf(src)]), stack', done)
  {
    var node := new Node(src);
    stack' := stack + [node];
    ghost var open' := ps.open + [Leaf(src)];
    assert stack'[..|stack|] == stack;
    assert open'[..|ps.open|] == ps.open;
    KeepRoots(rootNodes, ps, stack, done, done, stack', open');
    AttachTop(stack', open', done);
  }

  /** A sibling (`stack[-1] = Node(src)`) or a shallower node
      (`stack = stack[:level]` then `stack.append(Node(src))`): the nodes at
      depth `level` and below are closed, the new node takes depth `level`
      and is attached to the node below it. */
  method PushAt(ghost rootNodes: seq<Node>, ghost ps: PState, stack: seq<Node>,
                ghost done: map<Node, Tree>, level: nat, src: string)
    returns (stack': seq<Node>, ghost done': map<Node, Tree>)
    requires Parsing(rootNodes, ps, stack, done) && 0 < level < |stack|
    modifies stack[level - 1]
    ensures |stack'| == level + 1 && fresh(stack'[level])
    ensures forall j :: 0 <= j < level ==> stack'[j] == stack[j]
    ensures Parsing(rootNodes, PState(ps.roots, CloseTo(ps.open, level) + [Leaf(src)]), stack', done')
  {
    done' := CloseFrom(stack, ps.open, done, level);
    var node := new Node(src);
    CutReady(stack, ps.open, done, done', level, node);
    if level == |stack| - 1 {
      stack' := stack[|stack| - 1 := node];
      assert stack' == stack[..level] + [node];
    } else {
      stack' := stack[..level];
      stack' := stack' + [node];
    }
    ghost var open' := CloseTo(ps.open, level) + [Leaf(src)];
    KeepRoots(rootNodes, ps, stack, done, done', stack', open');
    AttachTop(stack', open', done');
  }

  /** A child, sibling or shallower node: the stack after the closing and
      the push stands for the new value state. */
  lemma KeepRoots(rootNodes: seq<Node>, ps: PState, stack: seq<Node>, done: map<Node, Tree>,
                  done': map<Node, Tree>, stack': seq<Node>, open': seq<Tree>)
    requires RootsOk(rootNodes, ps, stack, done)
    requires ps.open != [] && open' != [] && stack' != [] && stack'[0] == stack[0]
    requires forall n :: n in done ==> n in done' && done'[n] == done[n]
    ensures RootsOk(rootNodes, PState(ps.roots, open'), stack', done')
  {
  }

  /** Cutting the stack back to `level` nodes and pushing `node`. */
  lemma CutReady(stack: seq<Node>, open: seq<Tree>, done: map<Node, Tree>,
                 done': map<Node, Tree>, level: nat, node: Node)
    requires 0 < level < |stack|
    requires Closing(stack, open, done, done', level)
    requires Spine(stack[..level], CloseTo(open, level), done')
    requires node !in done' && node !in stack && node.children == []
    ensures forall n :: n in done ==> n in done' && done'[n] == done[n]
    ensures Pushed(stack[..level] + [node], CloseTo(open, level) + [Leaf(node.name)], done')
  {
    assert forall n :: n in done ==> n in done';
    assert (stack[..level] + [node])[..level] == stack[..level];
    assert (CloseTo(open, level) + [Leaf(node.name)])[..level] == CloseTo(open, level);
  }

  /** The parse state after the first `i` lines, or the error of the first
      line that fails. */
  ghost function ReadUpTo(lines: seq<string>, i: nat): Result<PState>
    requires i <= |lines|
  {
    if i == 0 then Ok(Start) else ReadNext(ReadUpTo(lines, i - 1), lines[i - 1])
  }

  /** One more line read after `r`: an earlier error stays. */
  ghost function ReadNext(r: Result<PState>, line: string): Result<PState> {
    match r
    case Err(err) => Err(err)
    case Ok(s) => ReadLine(s, line)
  }

  /** Reading the lines one by one is running the parse on their entries. */
  lemma {:induction false} ReadUpToRun(lines: seq<string>, i: nat)
    requires i <= |lines|
    ensures ReadUpTo(lines, i) == Run(EntriesOf(lines[..i]))
  {
    if i == 0 {
      assert lines[..0] == [];
    } else {
      ReadUpToRun(lines, i - 1);
      RunNextLine(lines, i);
    }
  }

  /** Running the entries of one more line is reading that line. */
  lemma RunNextLine(lines: seq<string>, i: nat)
    requires 0 < i <= |lines|
    ensures Run(EntriesOf(lines[..i])) == ReadNext(Run(EntriesOf(lines[..i - 1])), lines[i - 1])
  {
    EntriesOfSnoc(lines, i - 1);
    var es := EntriesOf(lines[..i - 1]);
    match MatchLine(lines[i - 1])
    case None =>
      assert es + [] == es;
    case Some(e) =>
      RunSnoc(es, e);
  }

  /** The first failing line decides the outcome. */
  lemma {:induction false} ReadErrSticky(lines: seq<string>, k: nat, n: nat)
    requires k <= n <= |lines| && ReadUpTo(lines, k).Err?
    ensures ReadUpTo(lines, n) == ReadUpTo(lines, k)
    decreases n
  {
    if n > k {
      ReadErrSticky(lines, k, n - 1);
    }
  }

  /** After the last line the tree under construction is finished too, and
      the root nodes hold the whole forest. */
  ghost method FinishRoots(rootNodes: seq<Node>, ps: PState, stack: seq<Node>, done: map<Node, Tree>)
    requires Parsing(rootNodes, ps, stack, done)
    ensures ModelsAll(rootNodes, Finish(ps))
  {
    var done' := done;
    if ps.open != [] {
      done' := CloseFrom(stack, ps.open, done, 0);
    }
    RootsClosed(rootNodes, ps, stack, done, done');
    forall k | 0 <= k < |rootNodes|
      ensures Models(rootNodes[k], Finish(ps)[k])
    {
      ClosedModels(done', rootNodes[k]);
    }
  }

  /** What reading one line does to the parse state: nothing when the
      pattern does not match it, one `Step` when it does. */
  ghost function ReadLine(ps: PState, line: string): Result<PState> {
    match MatchLine(line)
    case None => Ok(ps)
    case Some(e) => Step(ps, e)
  }

  /** The body of the loop of `parse_scons_tree` for one line: a line the
      pattern does not match is skipped; otherwise the parse state moves as
      `Step` says, or the error `Step` reports is raised. */
  method ParseLine(line: string, rootNodes: seq<Node>, stack: seq<Node>, plevel: nat, bound: bool,
                   ghost ps: PState, ghost done: map<Node, Tree>)
    returns (rootNodes': seq<Node>, stack': seq<Node>, plevel': nat, bound': bool,
             ghost ps': PState, ghost done': map<Node, Tree>, err: Option<ParseError>)
    requires bound <==> ps.open != []
    requires bound ==> plevel + 1 == |stack|
    requires Parsing(rootNodes, ps, stack, done)
    modifies set j | 0 <= j < |stack| :: stack[j]
    ensures ReadLine(ps, line) == if err.Some? then Err(err.value) else Ok(ps')
    ensures err.None? ==>
      && (bound' <==> ps'.open != [])
      && (bound' ==> plevel' + 1 == |stack'|)
      && Parsing(rootNodes', ps', stack', done')
      && (stack' == stack || (stack' != [] && fresh(stack'[|stack'| - 1])))
      && forall j :: 0 <= j < |stack'| - 1 ==> stack'[j] == stack[j]
  {
    rootNodes', stack', plevel', bound', ps', done', err := rootNodes, stack, plevel, bound, ps, done, None;
    var m := MatchLine(line);
    if m.None? {
      return;
    }
    var level, src := m.value.level, m.value.name;
    if level == 0 {
      var root;
      root, done' := NewRoot(rootNodes, ps, stack, done, src);
      stack' := [root];
      rootNodes' := rootNodes + [root];
      plevel' := 0;
      bound' := true;
      ps' := PState(Finish(ps), [Leaf(src)]);
      return;
    }
    if !bound {
      // the source reads `plevel` before any assignment
      return rootNodes, stack, plevel, bound, ps, done, Some(NoRoot);
    }
    if level == plevel + 1 {
      stack' := PushChild(rootNodes, ps, stack, done, src);
      ps' := PState(ps.roots, ps.open + [Leaf(src)]);
    } else if level <= plevel {
      stack', done' := PushAt(rootNodes, ps, stack, done, level, src);
      ps' := PState(ps.roots, CloseTo(ps.open, level) + [Leaf(src)]);
    } else {
      return rootNodes, stack, plevel, bound, ps, done, Some(BadTree);
    }
    plevel' := level;
  }

  /** The forest of the build output, built in place: the roots returned are
      node objects with exactly the shape and names of `ParseOutput(output)`,
      and the error is the one that parse reports. */
  method ParseSconsTree(output: string) returns (r: Result<seq<Node>>)
    ensures match ParseOutput(output)
      case Err(err) => r == Err(err)
      case Ok(f) => r.Ok? && ModelsAll(r.value, f)
  {
    var lines := SplitLines(output);
    var rootNodes, stack, bound;
    ghost var ps, done;
    rootNodes, stack, bound, ps, done, r := ParseLines(lines);
    ReadUpToRun(lines, |lines|);
    TakeAll(lines);
    if r.Ok? {
      FinishRoots(rootNodes, ps, stack, done);
    }
  }

  /** The loop of `parse_scons_tree` over the lines of the output: it stops
      at the first error, or reads every line; the tree under construction
      is then still open on the stack. */
  method ParseLines(lines: seq<string>)
    returns (rootNodes: seq<Node>, stack: seq<Node>, bound: bool,
             ghost ps: PState, ghost done: map<Node, Tree>, r: Result<seq<Node>>)
    ensures match ReadUpTo(lines, |lines|)
      case Err(err) => r == Err(err)
      case Ok(s) => r == Ok(rootNodes) && ps == s && Parsing(rootNodes, ps, stack, done)
  {
    rootNodes, stack := [], [];
    var plevel: nat := 0;
    // Whether `stack` and `plevel` have been assigned, which in the source
    // happens at the first root.
    bound := false;
    ps, done := Start, map[];
    var i := 0;
    while i < |lines|
      invariant 0 <= i <= |lines|
      invariant ReadUpTo(lines, i) == Ok(ps)
      invariant bound <==> ps.open != []
      invariant bound ==> plevel + 1 == |stack|
      invariant Parsing(rootNodes, ps, stack, done)
      invariant forall j :: 0 <= j < |stack| ==> fresh(stack[j])
    {
      ghost var stack0 := stack;
      var err;
      rootNodes, stack, plevel, bound, ps, done, err :=
        ParseLine(lines[i], rootNodes, stack, plevel, bound, ps, done);
      if err.Some? {
        ReadErrSticky(lines, i + 1, |lines|);
        return rootNodes, stack, bound, ps, done, Err(err.value);
      }
      forall j | 0 <= j < |stack| ensures fresh(stack[j]) {
        if j < |stack| - 1 {
          assert stack[j] == stack0[j];
        }
      }
      i := i + 1;
    }
    r := Ok(rootNodes);
  }

  // ---------------------------------------------------------------------
  // Leaf collection in run_scons_and_parse_tree
  // ---------------------------------------------------------------------

  /** The names a list holds, as a set. */
  function Elems(xs: seq<string>): (r: set<string>)
    ensures forall x :: x in r <==> x in xs
  {
    set x | x in xs
  }

  /** Every root is walked with a stack of pending nodes: a childless node
      contributes its name, any other node is replaced by its children. The
      names collected are the leaf names of the forest the roots hold. */
  method CollectLeaves(roots: seq<Node>, ghost forest: seq<Tree>) returns (leaves: set<string>)
    requires ModelsAll(roots, forest)
    ensures leaves == LeafNames(forest)
  {
    var files: seq<string> := [];
    var i := 0;
    while i < |roots|
      invariant i <= |roots|
      invariant Elems(files) == LeafNames(forest[..i])
    {
      ExpandLast(forest[..i + 1]);
      assert forest[..i + 1][..i] == forest[..i];
      files := CollectTree(roots[i], forest[i], files);
      i := i + 1;
    }
    assert forest[..i] == forest;
    leaves := Elems(files);
  }

  /** The walk from one root appends the leaf names of its tree. */
  method CollectTree(root: Node, ghost t: Tree, files: seq<string>) returns (files': seq<string>)
    requires Models(root, t)
    ensures Elems(files') == Elems(files) + TreeLeaves(t)
  {
    files' := files;
    var stack := [root];
    ghost var pending := [t];
    LeafNamesConcat([], pending);
    while stack != []
      invariant ModelsAll(stack, pending)
      invariant Elems(files') + LeafNames(pending) == Elems(files) + TreeLeaves(t)
      decreases Size(pending)
    {
      var node := stack[|stack| - 1];
      ghost var last := pending[|pending| - 1];
      ExpandLast(pending);
      PopModels(stack, pending);
      stack, pending := stack[..|stack| - 1], pending[..|pending| - 1];
      if node.children == [] {
        files' := files' + [node.name];
      } else {
        LeafNamesConcat(pending, last.children);
        ExtendModels(stack, pending, node.children, last.children);
        stack, pending := stack + node.children, pending + last.children;
      }
    }
  }

  lemma PopModels(ns: seq<Node>, ts: seq<Tree>)
    requires ns != [] && ModelsAll(ns, ts)
    ensures ModelsAll(ns[..|ns| - 1], ts[..|ts| - 1])
    ensures Models(ns[|ns| - 1], ts[|ts| - 1])
    ensures ModelsAll(ns[|ns| - 1].children, ts[|ts| - 1].children)
  {
  }

  lemma ExtendModels(ns: seq<Node>, ts: seq<Tree>, ns': seq<Node>, ts': seq<Tree>)
    requires ModelsAll(ns, ts) && ModelsAll(ns', ts')
    ensures ModelsAll(ns + ns', ts + ts')
  {
    forall i | 0 <= i < |ts + ts'|
      ensures Models((ns + ns')[i], (ts + ts')[i])
    {
      if i >= |ts| {
        assert (ns + ns')[i] == ns'[i - |ts|];
      }
    }
  }

  /** `run_scons_and_parse_tree` after the build has run: the captured
      output is parsed, and the result is the set of leaf names of the
      dependency forest, or the error the parse raises. */
  method RunSconsAndParseTree(output: string) returns (r: Result<set<string>>)
    ensures match ParseOutput(output)
      case Err(err) => r == Err(err)
      case Ok(f) => r == Ok(LeafNames(f))
  {
    var roots := ParseSconsTree(output);
    if roots.Err? {
      return Err(roots.error);
    }
    var files := CollectLeaves(roots.value, ParseOutput(output).value);
    r := Ok(files);
  }
}
