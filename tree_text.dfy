/** The textual layer of the SCons dependency-tree report: splitting the
    captured output into lines, and recognising a tree line with the pattern
    TREE_EXP, `^((?:[ |]{2})*)\+-(.*)$`. */
module TreeText {
  import opened SeqFacts
  import opened Wrappers

  /** One recognised tree line: its indentation level and the node name. */
  datatype Entry = Entry(level: nat, name: string)

  // ---------------------------------------------------------------------
  // str.split('\n')
  // ---------------------------------------------------------------------

  /** The inverse of `SplitLines`: the lines glued back with newlines. */
  function JoinLines(ls: seq<string>): string
    requires |ls| >= 1
    decreases |ls|
  {
    if |ls| == 1 then ls[0] else ls[0] + "\n" + JoinLines(ls[1..])
  }

  /** `s.split('\n')`: always at least one piece, no piece holds a newline,
      and joining the pieces gives back `s`. */
  function SplitLines(s: string): (r: seq<string>)
    ensures |r| >= 1
    ensures forall k :: 0 <= k < |r| ==> '\n' !in r[k]
    ensures JoinLines(r) == s
    decreases |s|
  {
    if s == [] then [""]
    else
      var rest := SplitLines(s[1..]);
      if s[0] == '\n' then
        assert s == "\n" + s[1..];
        [""] + rest
      else
        var r := [[s[0]] + rest[0]] + rest[1..];
        assert r[1..] == rest[1..];
        if |rest| == 1 then r
        else
          assert JoinLines(rest) == rest[0] + "\n" + JoinLines(rest[1..]);
          assert s == [s[0]] + s[1..];
          r
  }

  /** Index of the first newline of `s`, or `|s|` when there is none. */
  function LineEnd(s: string): (k: nat)
    ensures k <= |s|
    decreases |s|
  {
    if s == [] || s[0] == '\n' then 0 else 1 + LineEnd(s[1..])
  }

  lemma {:induction false} LineEndOf(x: string, y: string)
    requires '\n' !in x
    ensures LineEnd(x) == |x|
    ensures LineEnd(x + "\n" + y) == |x|
    decreases |x|
  {
    if x != [] {
      assert (x + "\n" + y)[1..] == x[1..] + "\n" + y;
      LineEndOf(x[1..], y);
    }
  }

  /** The first line is the text up to the first newline. */
  lemma FirstLine(ls: seq<string>)
    requires |ls| >= 1
    requires '\n' !in ls[0]
    ensures LineEnd(JoinLines(ls)) == |ls[0]|
    ensures JoinLines(ls)[..|ls[0]|] == ls[0]
    ensures |ls| > 1 ==> JoinLines(ls[1..]) == JoinLines(ls)[|ls[0]| + 1..]
  {
    if |ls| == 1 {
      LineEndOf(ls[0], "");
    } else {
      LineEndOf(ls[0], JoinLines(ls[1..]));
    }
  }

  /** Two newline-free line lists that join to the same text are equal. */
  lemma {:induction false} JoinLinesInjective(a: seq<string>, b: seq<string>)
    requires |a| >= 1 && |b| >= 1
    requires forall k :: 0 <= k < |a| ==> '\n' !in a[k]
    requires forall k :: 0 <= k < |b| ==> '\n' !in b[k]
    requires JoinLines(a) == JoinLines(b)
    ensures a == b
    decreases |a|
  {
    FirstLine(a);
    FirstLine(b);
    if |a| > 1 {
      JoinLinesInjective(a[1..], b[1..]);
      assert a == [a[0]] + a[1..];
      assert b == [b[0]] + b[1..];
    }
  }

  /** Splitting newline-free lines glued with newlines gives the lines back. */
  lemma SplitJoin(ls: seq<string>)
    requires |ls| >= 1
    requires forall k :: 0 <= k < |ls| ==> '\n' !in ls[k]
    ensures SplitLines(JoinLines(ls)) == ls
  {
    JoinLinesInjective(SplitLines(JoinLines(ls)), ls);
  }

  // ---------------------------------------------------------------------
  // TREE_EXP
  // ---------------------------------------------------------------------

  /** The characters of the indentation class `[ |]`. */
  predicate IsIndentChar(c: char) {
    c == ' ' || c == '|'
  }

  /** Length of the longest prefix of `line` made of `[ |]` characters. */
  function IndentWidth(line: string): (k: nat)
    ensures k <= |line|
    ensures forall i :: 0 <= i < k ==> IsIndentChar(line[i])
    ensures k < |line| ==> !IsIndentChar(line[k])
    decreases |line|
  {
    if line != [] && IsIndentChar(line[0]) then 1 + IndentWidth(line[1..]) else 0
  }

  /** `TREE_EXP.match(line)`, giving `(len(group(1)) / 2, group(2))`.
      Group 1 can only consist of `[ |]` characters and must be followed by
      `+`, so it is the whole `[ |]` prefix and must have even length. The
      name `.*` cannot cross a newline, and `$` also matches just before a
      newline that ends the line. */
  function MatchLine(line: string): (r: Option<Entry>)
    ensures r.Some? ==>
      var p := 2 * r.value.level;
      && p + 2 <= |line|
      && (forall i :: 0 <= i < p ==> IsIndentChar(line[i]))
      && line[p] == '+' && line[p + 1] == '-'
      && '\n' !in r.value.name
      && (line[p + 2..] == r.value.name || line[p + 2..] == r.value.name + "\n")
  {
    var k := IndentWidth(line);
    if k % 2 == 0 && k + 2 <= |line| && line[k] == '+' && line[k + 1] == '-' then
      var rest := line[k + 2..];
      if '\n' !in rest then Some(Entry(k / 2, rest))
      else if rest[|rest| - 1] == '\n' && '\n' !in rest[..|rest| - 1] then
        assert rest == rest[..|rest| - 1] + "\n";
        Some(Entry(k / 2, rest[..|rest| - 1]))
      else None
    else None
  }

  /** One indentation unit: any two characters of `[ |]`. */
  predicate IsUnit(u: string) {
    |u| == 2 && IsIndentChar(u[0]) && IsIndentChar(u[1])
  }

  function Concat(units: seq<string>): string {
    if units == [] then "" else units[0] + Concat(units[1..])
  }

  lemma {:induction false} ConcatUnits(units: seq<string>)
    requires forall k :: 0 <= k < |units| ==> IsUnit(units[k])
    ensures |Concat(units)| == 2 * |units|
    ensures forall i :: 0 <= i < |Concat(units)| ==> IsIndentChar(Concat(units)[i])
  {
    if units != [] {
      ConcatUnits(units[1..]);
      var c := Concat(units);
      assert c == units[0] + Concat(units[1..]);
      forall i | 0 <= i < |c| ensures IsIndentChar(c[i]) {
        if i >= 2 {
          assert c[i] == Concat(units[1..])[i - 2];
        }
      }
    }
  }

  /** Completeness of the pattern: a line made of indentation units of any
      style, `+-` and a newline-free name is recognised with the number of
      units as its level and the name verbatim. */
  lemma MatchIndented(units: seq<string>, name: string)
    requires forall k :: 0 <= k < |units| ==> IsUnit(units[k])
    requires '\n' !in name
    ensures MatchLine(Concat(units) + "+-" + name) == Some(Entry(|units|, name))
  {
    var p := Concat(units);
    var line := p + "+-" + name;
    ConcatUnits(units);
    ThreeParts(p, "+-", name);
    var k := |p|;
    assert |"+-"| == 2 && "+-"[0] == '+' && "+-"[1] == '-';
    assert line[k] == '+' && line[k + 1] == '-';
    assert line[k + 2..] == name;
    assert forall i :: 0 <= i < k ==> IsIndentChar(line[i]);
    IndentPrefix(line, k);
    Halve(|units|);
    MatchAt(line, k);
  }

  lemma Halve(n: nat)
    ensures (2 * n) % 2 == 0 && (2 * n) / 2 == n
  {
  }

  /** A line whose whole `[ |]` prefix has even length `k` and is followed
      by `+-` and a newline-free name is recognised. */
  lemma MatchAt(line: string, k: nat)
    requires k == IndentWidth(line) && k % 2 == 0
    requires k + 2 <= |line| && line[k] == '+' && line[k + 1] == '-'
    requires '\n' !in line[k + 2..]
    ensures MatchLine(line) == Some(Entry(k / 2, line[k + 2..]))
  {
  }

  lemma {:induction false} IndentPrefix(line: string, p: nat)
    requires p < |line|
    requires forall i :: 0 <= i < p ==> IsIndentChar(line[i])
    requires !IsIndentChar(line[p])
    ensures IndentWidth(line) == p
    decreases p
  {
    if p > 0 {
      IndentPrefix(line[1..], p - 1);
    }
  }

  /** The plain rendering SCons uses for a line at `level`: two spaces per
      level, `+-`, the name. */
  function RenderLine(e: Entry): string {
    Concat(seq(e.level, _ => "  ")) + "+-" + e.name
  }

  // ---------------------------------------------------------------------
  // The recognised lines of an output
  // ---------------------------------------------------------------------

  /** The entries of the lines that match the pattern, in order; other lines
      are skipped. */
  function EntriesOf(lines: seq<string>): (r: seq<Entry>)
    ensures |r| <= |lines|
    decreases |lines|
  {
    if lines == [] then []
    else
      EntriesOf(lines[..|lines| - 1]) +
        match MatchLine(lines[|lines| - 1])
        case Some(e) => [e]
        case None => []
  }

  /** Reading one more line adds its entry, if it has one. */
  lemma EntriesOfSnoc(lines: seq<string>, i: nat)
    requires i < |lines|
    ensures EntriesOf(lines[..i + 1]) ==
      EntriesOf(lines[..i]) + match MatchLine(lines[i]) case Some(e) => [e] case None => []
  {
    assert lines[..i + 1][..i] == lines[..i];
  }

  /** The entries of the captured build output. */
  function Entries(output: string): seq<Entry> {
    EntriesOf(SplitLines(output))
  }

  lemma {:induction false} EntriesOfConcat(a: seq<string>, b: seq<string>)
    ensures EntriesOf(a + b) == EntriesOf(a) + EntriesOf(b)
    decreases |b|
  {
    if b != [] {
      var b' := b[..|b| - 1];
      assert (a + b)[..|a + b| - 1] == a + b';
      EntriesOfConcat(a, b');
    } else {
      assert a + b == a;
    }
  }

  /** A line the pattern does not recognise contributes nothing, wherever it
      stands. */
  lemma UnmatchedLineIgnored(a: seq<string>, line: string, b: seq<string>)
    requires MatchLine(line) == None
    ensures EntriesOf(a + [line] + b) == EntriesOf(a + b)
  {
    EntriesOfConcat(a + [line], b);
    EntriesOfConcat(a, [line]);
    EntriesOfConcat(a, b);
    EntriesOfSingle(line);
    AppendNil(EntriesOf(a));
  }

  /** The entry of a single line, if it has one. */
  lemma EntriesOfSingle(line: string)
    ensures EntriesOf([line]) == match MatchLine(line) case Some(e) => [e] case None => []
  {
    Singleton(line);
    AppendNil(match MatchLine(line) case Some(e) => [e] case None => []);
  }

  /** The rendered lines of a sequence of entries, one per entry. */
  function RenderLines(es: seq<Entry>): (r: seq<string>)
    ensures |r| == |es|
    decreases |es|
  {
    if es == [] then [] else RenderLines(es[..|es| - 1]) + [RenderLine(es[|es| - 1])]
  }

  /** A rendered line is one line, and the pattern recognises it as the
      entry it was rendered from. */
  lemma RenderLineMatches(e: Entry)
    requires '\n' !in e.name
    ensures '\n' !in RenderLine(e)
    ensures MatchLine(RenderLine(e)) == Some(e)
  {
    var units := seq(e.level, _ => "  ");
    ConcatUnits(units);
    ThreeParts(Concat(units), "+-", e.name);
    MatchIndented(units, e.name);
  }

  /** Each line rendered from an entry is recognised as that entry. */
  lemma {:induction false} EntriesOfRendered(es: seq<Entry>)
    requires forall k :: 0 <= k < |es| ==> '\n' !in es[k].name
    ensures EntriesOf(RenderLines(es)) == es
    decreases |es|
  {
    if es != [] {
      var es', e := es[..|es| - 1], es[|es| - 1];
      assert forall k :: 0 <= k < |es'| ==> es'[k] == es[k];
      EntriesOfRendered(es');
      RenderLineMatches(e);
      EntriesOfConcat(RenderLines(es'), [RenderLine(e)]);
      EntriesOfSingle(RenderLine(e));
      Snoc(es);
    }
  }

  /** The `k`-th rendered line is the rendering of the `k`-th entry. */
  lemma {:induction false} RenderLinesAt(es: seq<Entry>)
    ensures forall k :: 0 <= k < |es| ==> RenderLines(es)[k] == RenderLine(es[k])
    decreases |es|
  {
    if es != [] {
      var es' := es[..|es| - 1];
      RenderLinesAt(es');
      SnocIndex(RenderLines(es'), RenderLine(es[|es| - 1]));
      assert forall k :: 0 <= k < |es'| ==> es'[k] == es[k];
    }
  }
}
