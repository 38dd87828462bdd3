/** Facts about sequences, stated once for any element type so that the
    proofs about lines, entries and trees need not re-derive them. */
module SeqFacts {

  lemma TakeAll<T>(s: seq<T>)
    ensures s[..|s|] == s
  {
  }

  lemma AppendNil<T>(s: seq<T>)
    ensures s + [] == s && [] + s == s
  {
  }

  /** A non-empty sequence is its front followed by its last element. */
  lemma Snoc<T>(s: seq<T>)
    requires s != []
    ensures s[..|s| - 1] + [s[|s| - 1]] == s
    ensures s[1..] == [] <==> |s| == 1
  {
  }

  /** The tail of `a + b`, for a non-empty `a`. */
  lemma TailOfConcat<T>(a: seq<T>, b: seq<T>)
    requires a != []
    ensures (a + b)[1..] == a[1..] + b
    ensures (a + b)[0] == a[0]
  {
  }

  lemma Singleton<T>(x: T)
    ensures [x][1..] == [] && [x][..0] == [] && [x][0] == x
  {
  }

  /** Where the parts of `a + b + c` sit. */
  lemma ThreeParts<T>(a: seq<T>, b: seq<T>, c: seq<T>)
    ensures |a + b + c| == |a| + |b| + |c|
    ensures forall i :: 0 <= i < |a| ==> (a + b + c)[i] == a[i]
    ensures forall i :: 0 <= i < |b| ==> (a + b + c)[|a| + i] == b[i]
    ensures (a + b + c)[|a| + |b|..] == c
  {
  }

  /** Where the elements of `a + [x]` come from. */
  lemma SnocIndex<T>(a: seq<T>, x: T)
    ensures forall k :: 0 <= k < |a| ==> (a + [x])[k] == a[k]
    ensures (a + [x])[|a|] == x
  {
  }

  lemma Assoc<T>(a: seq<T>, b: seq<T>, c: seq<T>)
    ensures a + b + c == a + (b + c)
  {
  }
}
