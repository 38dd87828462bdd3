/** The dependency forest as values: a node's name and its ordered children,
    the pre-order rendering of a forest as (level, name) lines, and the set of
    leaf names. */
module Forest {
  import opened SeqFacts
  import opened TreeText

  /** The value of one node of the SCons tree. */
  datatype Tree = Tree(name: string, children: seq<Tree>)

  function Leaf(name: string): Tree {
    Tree(name, [])
  }

  // ---------------------------------------------------------------------
  // Pre-order rendering: the shape `scons --tree=all` prints
  // ---------------------------------------------------------------------

  /** The lines of `t` printed at depth `d`: the node, then its children one
      level deeper. */
  function Flatten(t: Tree, d: nat): seq<Entry>
    decreases t
  {
    [Entry(d, t.name)] + FlattenAll(t.children, d + 1)
  }

  function FlattenAll(ts: seq<Tree>, d: nat): seq<Entry>
    decreases ts
  {
    if ts == [] then [] else Flatten(ts[0], d) + FlattenAll(ts[1..], d)
  }

  lemma {:induction false} FlattenAllConcat(a: seq<Tree>, b: seq<Tree>, d: nat)
    ensures FlattenAll(a + b, d) == FlattenAll(a, d) + FlattenAll(b, d)
    decreases |a|
  {
    if a == [] {
      assert a + b == b;
    } else {
      assert (a + b)[1..] == a[1..] + b;
      FlattenAllConcat(a[1..], b, d);
    }
  }

  lemma FlattenAllSingle(t: Tree, d: nat)
    ensures FlattenAll([t], d) == Flatten(t, d)
  {
    assert [t][1..] == [];
  }

  /** Every level of a rendering at depth `d` is at least `d`. */
  predicate AllAtLeast(es: seq<Entry>, d: nat) {
    forall i :: 0 <= i < |es| ==> es[i].level >= d
  }

  /** No line is more than one level deeper than the line before it. */
  predicate NoJumps(es: seq<Entry>) {
    forall i :: 0 < i < |es| ==> es[i].level <= es[i - 1].level + 1
  }

  /** The lines the parser accepts: the first is a root, and no line is more
      than one level deeper than its predecessor. */
  predicate WellFormed(es: seq<Entry>) {
    (|es| > 0 ==> es[0].level == 0) && NoJumps(es)
  }

  /** Input is ill formed when it starts below the root level or jumps
      more than one level deeper somewhere. */
  lemma NotWellFormed(es: seq<Entry>)
    ensures !WellFormed(es) <==>
      (|es| > 0 && es[0].level > 0) || exists i :: 0 < i < |es| && es[i].level > es[i - 1].level + 1
  {
  }

  /** One more line keeps the input well formed exactly when it is a root
      or at most one level deeper than the line before it. */
  lemma WellFormedSnoc(p: seq<Entry>, e: Entry)
    ensures WellFormed(p + [e]) <==>
      WellFormed(p) && if p == [] then e.level == 0 else e.level <= p[|p| - 1].level + 1
    ensures (p + [e])[0] == if p == [] then e else p[0]
  {
    var es := p + [e];
    SnocIndex(p, e);
    if WellFormed(es) {
      assert forall i :: 0 < i < |p| ==> p[i].level <= p[i - 1].level + 1 by {
        forall i | 0 < i < |p| ensures p[i].level <= p[i - 1].level + 1 {
          assert es[i] == p[i] && es[i - 1] == p[i - 1];
        }
      }
      if p != [] {
        assert es[|p|] == e && es[|p| - 1] == p[|p| - 1];
      }
    }
  }

  lemma NoJumpsConcat(x: seq<Entry>, y: seq<Entry>, d: nat)
    requires NoJumps(x) && NoJumps(y)
    requires AllAtLeast(x, d)
    requires |y| > 0 ==> y[0].level <= d + 1
    ensures NoJumps(x + y)
  {
    var z := x + y;
    forall i | 0 < i < |z| ensures z[i].level <= z[i - 1].level + 1 {
      if i > |x| {
        assert z[i] == y[i - |x|] && z[i - 1] == y[i - 1 - |x|];
      } else if i == |x| {
        assert z[i] == y[0];
      }
    }
  }

  /** A rendering at depth `d` starts at `d` (a tree's rendering is never
      empty) and never goes above `d`. */
  lemma {:induction false} FlattenLevels(t: Tree, d: nat)
    ensures |Flatten(t, d)| > 0 && Flatten(t, d)[0] == Entry(d, t.name)
    ensures AllAtLeast(Flatten(t, d), d)
    decreases t, 1
  {
    FlattenAllLevels(t.children, d + 1);
  }

  lemma {:induction false} FlattenAllLevels(ts: seq<Tree>, d: nat)
    ensures |ts| > 0 ==> |FlattenAll(ts, d)| > 0 && FlattenAll(ts, d)[0].level == d
    ensures AllAtLeast(FlattenAll(ts, d), d)
    decreases ts, 0
  {
    if ts != [] {
      FlattenLevels(ts[0], d);
      FlattenAllLevels(ts[1..], d);
    }
  }

  /** A rendering descends at most one level from one line to the next. */
  lemma {:induction false} FlattenNoJumps(t: Tree, d: nat)
    ensures NoJumps(Flatten(t, d))
    decreases t, 1
  {
    FlattenAllLevels(t.children, d + 1);
    FlattenAllNoJumps(t.children, d + 1);
    NoJumpsConcat([Entry(d, t.name)], FlattenAll(t.children, d + 1), d);
  }

  lemma {:induction false} FlattenAllNoJumps(ts: seq<Tree>, d: nat)
    ensures NoJumps(FlattenAll(ts, d))
    decreases ts, 0
  {
    if ts != [] {
      FlattenLevels(ts[0], d);
      FlattenAllLevels(ts[1..], d);
      FlattenNoJumps(ts[0], d);
      FlattenAllNoJumps(ts[1..], d);
      NoJumpsConcat(Flatten(ts[0], d), FlattenAll(ts[1..], d), d);
    }
  }

  /** Every rendered forest is a report the parser accepts. */
  lemma FlattenWellFormed(f: seq<Tree>)
    ensures WellFormed(FlattenAll(f, 0))
  {
    FlattenAllLevels(f, 0);
    FlattenAllNoJumps(f, 0);
  }

  // ---------------------------------------------------------------------
  // The rendering is unambiguous
  // ---------------------------------------------------------------------

  /** Length of the longest prefix of `z` lying strictly below depth `d`. */
  function DeeperRun(z: seq<Entry>, d: nat): (k: nat)
    ensures k <= |z|
    decreases |z|
  {
    if z == [] || z[0].level <= d then 0 else 1 + DeeperRun(z[1..], d)
  }

  lemma {:induction false} DeeperRunOf(x: seq<Entry>, y: seq<Entry>, d: nat)
    requires AllAtLeast(x, d + 1)
    requires |y| > 0 ==> y[0].level == d
    ensures DeeperRun(x + y, d) == |x|
    decreases |x|
  {
    if x == [] {
      assert x + y == y;
    } else {
      assert (x + y)[1..] == x[1..] + y;
      DeeperRunOf(x[1..], y, d);
    }
  }

  /** Splitting `x + y` where `x` stays strictly below depth `d` and `y` is
      empty or starts at depth `d`: the split point is determined. */
  lemma SplitAtLevel(x1: seq<Entry>, y1: seq<Entry>, x2: seq<Entry>, y2: seq<Entry>, d: nat)
    requires AllAtLeast(x1, d + 1) && AllAtLeast(x2, d + 1)
    requires |y1| > 0 ==> y1[0].level == d
    requires |y2| > 0 ==> y2[0].level == d
    requires x1 + y1 == x2 + y2
    ensures x1 == x2 && y1 == y2
  {
    var z := x1 + y1;
    DeeperRunOf(x1, y1, d);
    DeeperRunOf(x2, y2, d);
    assert x1 == z[..|x1|] && y1 == z[|x1|..];
    assert x2 == z[..|x2|] && y2 == z[|x2|..];
  }

  /** Different trees print differently. */
  lemma {:induction false} FlattenInjective(a: Tree, b: Tree, d: nat)
    requires Flatten(a, d) == Flatten(b, d)
    ensures a == b
    decreases a, 1
  {
    var fa := Flatten(a, d);
    assert fa[0] == Entry(d, a.name) && Flatten(b, d)[0] == Entry(d, b.name);
    assert fa[1..] == FlattenAll(a.children, d + 1);
    assert Flatten(b, d)[1..] == FlattenAll(b.children, d + 1);
    FlattenAllInjective(a.children, b.children, d + 1);
  }

  lemma DropHead(a: seq<Tree>, d: nat)
    requires a != []
    ensures FlattenAll(a, d) == [Entry(d, a[0].name)] + (FlattenAll(a[0].children, d + 1) + FlattenAll(a[1..], d))
  {
  }

  /** Two non-empty forests printing alike print their first trees alike and
      the rest alike. */
  lemma FirstTreeDetermined(a: seq<Tree>, b: seq<Tree>, d: nat)
    requires a != [] && b != []
    requires FlattenAll(a, d) == FlattenAll(b, d)
    ensures Flatten(a[0], d) == Flatten(b[0], d)
    ensures FlattenAll(a[1..], d) == FlattenAll(b[1..], d)
  {
    var xa, ya := FlattenAll(a[0].children, d + 1), FlattenAll(a[1..], d);
    var xb, yb := FlattenAll(b[0].children, d + 1), FlattenAll(b[1..], d);
    var ea, eb := Entry(d, a[0].name), Entry(d, b[0].name);
    DropHead(a, d);
    DropHead(b, d);
    ConsInjective(ea, xa + ya, eb, xb + yb);
    FlattenAllLevels(a[0].children, d + 1);
    FlattenAllLevels(b[0].children, d + 1);
    FlattenAllLevels(a[1..], d);
    FlattenAllLevels(b[1..], d);
    SplitAtLevel(xa, ya, xb, yb, d);
  }

  lemma ConsInjective<T>(x: T, xs: seq<T>, y: T, ys: seq<T>)
    requires [x] + xs == [y] + ys
    ensures x == y && xs == ys
  {
    assert ([x] + xs)[0] == x && ([y] + ys)[0] == y;
    assert ([x] + xs)[1..] == xs && ([y] + ys)[1..] == ys;
  }

  /** Different forests print differently: a report determines its forest. */
  lemma {:induction false} FlattenAllInjective(a: seq<Tree>, b: seq<Tree>, d: nat)
    requires FlattenAll(a, d) == FlattenAll(b, d)
    ensures a == b
    decreases a, 0
  {
    if a != [] && b != [] {
      FirstTreeDetermined(a, b, d);
      FlattenInjective(a[0], b[0], d);
      FlattenAllInjective(a[1..], b[1..], d);
      assert a == [a[0]] + a[1..];
      assert b == [b[0]] + b[1..];
    }
  }

  // ---------------------------------------------------------------------
  // Counting roots and edges
  // ---------------------------------------------------------------------

  /** The number of lines at level 0. */
  function RootLines(es: seq<Entry>): nat {
    if es == [] then 0 else (if es[0].level == 0 then 1 else 0) + RootLines(es[1..])
  }

  lemma {:induction false} RootLinesConcat(x: seq<Entry>, y: seq<Entry>)
    ensures RootLines(x + y) == RootLines(x) + RootLines(y)
    decreases |x|
  {
    if x == [] {
      assert x + y == y;
    } else {
      assert (x + y)[1..] == x[1..] + y;
      RootLinesConcat(x[1..], y);
    }
  }

  lemma {:induction false} NoRootLines(es: seq<Entry>)
    requires AllAtLeast(es, 1)
    ensures RootLines(es) == 0
    decreases |es|
  {
    if es != [] {
      NoRootLines(es[1..]);
    }
  }

  /** A printed forest has exactly one level-0 line per tree. */
  lemma {:induction false} RootLinesOfForest(f: seq<Tree>)
    ensures RootLines(FlattenAll(f, 0)) == |f|
    decreases |f|
  {
    if f != [] {
      FlattenAllLevels(f[0].children, 1);
      NoRootLines(FlattenAll(f[0].children, 1));
      RootLinesConcat(Flatten(f[0], 0), FlattenAll(f[1..], 0));
      RootLinesOfForest(f[1..]);
    }
  }

  /** The number of parent-child edges. */
  function Edges(ts: seq<Tree>): nat
    decreases ts
  {
    if ts == [] then 0 else |ts[0].children| + Edges(ts[0].children) + Edges(ts[1..])
  }

  /** Every line except a tree's first adds exactly one edge: a rendering at
      any depth has as many lines as the forest has trees plus edges. */
  lemma {:induction false} LinesAreTreesPlusEdges(ts: seq<Tree>, d: nat)
    ensures |FlattenAll(ts, d)| == |ts| + Edges(ts)
    decreases ts
  {
    if ts != [] {
      LinesAreTreesPlusEdges(ts[0].children, d + 1);
      LinesAreTreesPlusEdges(ts[1..], d);
    }
  }

  // ---------------------------------------------------------------------
  // Leaves
  // ---------------------------------------------------------------------

  /** The names of the childless nodes of `t` (`t` itself when it has no
      children). */
  function TreeLeaves(t: Tree): set<string>
    decreases t, 1
  {
    if t.children == [] then {t.name} else LeafNames(t.children)
  }

  /** The names of all childless nodes of a forest, childless roots included. */
  function LeafNames(ts: seq<Tree>): set<string>
    decreases ts, 0
  {
    if ts == [] then {} else TreeLeaves(ts[0]) + LeafNames(ts[1..])
  }

  lemma {:induction false} LeafNamesConcat(a: seq<Tree>, b: seq<Tree>)
    ensures LeafNames(a + b) == LeafNames(a) + LeafNames(b)
    decreases |a|
  {
    if a == [] {
      assert a + b == b;
    } else {
      assert (a + b)[1..] == a[1..] + b;
      LeafNamesConcat(a[1..], b);
    }
  }

  /** A name is a leaf name of a forest exactly when it is a leaf name of one
      of its trees. */
  lemma {:induction false} LeafNamesMember(ts: seq<Tree>, x: string)
    ensures x in LeafNames(ts) <==> exists k :: 0 <= k < |ts| && x in TreeLeaves(ts[k])
    decreases |ts|
  {
    if ts != [] {
      LeafNamesMember(ts[1..], x);
      if x in LeafNames(ts[1..]) {
        var k :| 0 <= k < |ts| - 1 && x in TreeLeaves(ts[1..][k]);
        assert ts[1..][k] == ts[k + 1];
      }
      if exists k :: 0 <= k < |ts| && x in TreeLeaves(ts[k]) {
        var k :| 0 <= k < |ts| && x in TreeLeaves(ts[k]);
        if k > 0 {
          assert ts[1..][k - 1] == ts[k];
        }
      }
    }
  }

  /** The leaf set does not depend on the order of the trees. */
  lemma LeafNamesOrderFree(a: seq<Tree>, b: seq<Tree>)
    requires multiset(a) == multiset(b)
    ensures LeafNames(a) == LeafNames(b)
  {
    forall x ensures x in LeafNames(a) <==> x in LeafNames(b) {
      LeafNamesMember(a, x);
      LeafNamesMember(b, x);
      if x in LeafNames(a) {
        var k :| 0 <= k < |a| && x in TreeLeaves(a[k]);
        assert a[k] in multiset(b);
        var j :| 0 <= j < |b| && b[j] == a[k];
      }
      if x in LeafNames(b) {
        var k :| 0 <= k < |b| && x in TreeLeaves(b[k]);
        assert b[k] in multiset(a);
        var j :| 0 <= j < |a| && a[j] == b[k];
      }
    }
  }

  /** The number of nodes of a forest; it bounds the leaf walk. */
  function Size(ts: seq<Tree>): nat
    decreases ts
  {
    if ts == [] then 0 else Size(ts[..|ts| - 1]) + 1 + Size(ts[|ts| - 1].children)
  }

  lemma {:induction false} SizeConcat(a: seq<Tree>, b: seq<Tree>)
    ensures Size(a + b) == Size(a) + Size(b)
    decreases |b|
  {
    if b == [] {
      assert a + b == a;
    } else {
      assert (a + b)[..|a + b| - 1] == a + b[..|b| - 1];
      SizeConcat(a, b[..|b| - 1]);
    }
  }

  /** Taking the last tree apart into its children shrinks the forest. */
  lemma ExpandLast(ts: seq<Tree>)
    requires ts != []
    ensures Size(ts[..|ts| - 1] + ts[|ts| - 1].children) < Size(ts)
    ensures LeafNames(ts) == LeafNames(ts[..|ts| - 1]) + TreeLeaves(ts[|ts| - 1])
  {
    var t := ts[|ts| - 1];
    SizeConcat(ts[..|ts| - 1], t.children);
    LeafNamesConcat(ts[..|ts| - 1], [t]);
    Snoc(ts);
    Singleton(t);
  }
}
