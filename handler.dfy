/** The change filter of hitnrun: a file-system event handler that queues
    the absolute paths of changed files, but only those of the current
    dependency tree (or every path while no tree is known), and the two
    ways the main loop drains its queue. */
module Handler {
  import opened Wrappers

  /** A first-in first-out queue of paths, as the handler's `q`. */
  class Queue {
    var items: seq<string>

    constructor ()
      ensures items == []
    {
      items := [];
    }

    /** `put`: the path goes to the back. */
    method Put(x: string)
      modifies this
      ensures items == old(items) + [x]
    {
      items := items + [x];
    }

    /** `get` that gives up when nothing is queued (`Empty`): otherwise it
        takes the path at the front. */
    method Get() returns (r: Option<string>)
      modifies this
      ensures old(items) == [] ==> r == None && items == []
      ensures old(items) != [] ==> r == Some(old(items)[0]) && items == old(items)[1..]
    {
      if items == [] {
        r := None;
      } else {
        r := Some(items[0]);
        items := items[1..];
      }
    }
  }

  /** The filter: with no file set every path passes, otherwise exactly the
      paths in the set. */
  predicate Accepts(files: set<string>, path: string) {
    files == {} || path in files
  }

  /** The paths a run of events queues under a fixed file set, in order. */
  function Admitted(files: set<string>, abspath: string -> string, events: seq<string>): (r: seq<string>)
    ensures |r| <= |events|
    decreases |events|
  {
    if events == [] then []
    else
      Admitted(files, abspath, events[..|events| - 1]) +
        if Accepts(files, events[|events| - 1]) then [abspath(events[|events| - 1])] else []
  }

  /** A path is queued by a run of events exactly when some event that
      passes the filter has it as its absolute path. */
  lemma {:induction false} AdmittedMember(files: set<string>, abspath: string -> string, events: seq<string>, x: string)
    ensures x in Admitted(files, abspath, events) <==>
      exists k :: 0 <= k < |events| && Accepts(files, events[k]) && abspath(events[k]) == x
    decreases |events|
  {
    if events != [] {
      var n := |events| - 1;
      var init := events[..n];
      AdmittedMember(files, abspath, init, x);
      if exists k :: 0 <= k < |init| && Accepts(files, init[k]) && abspath(init[k]) == x {
        var k :| 0 <= k < |init| && Accepts(files, init[k]) && abspath(init[k]) == x;
        assert events[k] == init[k];
      }
      if exists k :: 0 <= k < |events| && Accepts(files, events[k]) && abspath(events[k]) == x {
        var k :| 0 <= k < |events| && Accepts(files, events[k]) && abspath(events[k]) == x;
        if k < n {
          assert init[k] == events[k];
        }
      }
    }
  }

  /** Events handled one after the other queue what each part queues. */
  lemma {:induction false} AdmittedConcat(files: set<string>, abspath: string -> string, a: seq<string>, b: seq<string>)
    ensures Admitted(files, abspath, a + b) == Admitted(files, abspath, a) + Admitted(files, abspath, b)
    decreases |b|
  {
    if b == [] {
      assert a + b == a;
    } else {
      var b' := b[..|b| - 1];
      assert (a + b)[..|a + b| - 1] == a + b';
      AdmittedConcat(files, abspath, a, b');
    }
  }

  /** With no file set nothing is filtered out: every event is queued. */
  lemma {:induction false} AdmittedAll(abspath: string -> string, events: seq<string>)
    ensures |Admitted({}, abspath, events)| == |events|
    ensures forall k :: 0 <= k < |events| ==> Admitted({}, abspath, events)[k] == abspath(events[k])
    decreases |events|
  {
    if events != [] {
      AdmittedAll(abspath, events[..|events| - 1]);
    }
  }

  /** The event handler: the current file set and the queue of changed
      paths. `abspath` resolves a path against the working directory,
      which lies outside the model. */
  class QueueingHandler {
    var files: set<string>
    const q: Queue
    const abspath: string -> string

    /** The main loop starts its handler with the empty set, the default
        `files` argument, so that every change counts until the first
        build has printed a tree. */
    constructor (files: set<string>, abspath: string -> string)
      ensures this.files == files && this.abspath == abspath
      ensures fresh(q) && q.items == []
    {
      this.files := files;
      this.abspath := abspath;
      q := new Queue();
    }

    /** `on_any_event`: the absolute path of the event goes to the back of
        the queue when the filter accepts the raw path, and nothing changes
        otherwise. */
    method OnAnyEvent(path: string)
      modifies q
      ensures q.items == old(q.items) + if Accepts(files, path) then [abspath(path)] else []
    {
      if files != {} && path !in files {
        return;
      }
      q.Put(abspath(path));
    }

    /** The `files` setter: the set is replaced wholesale; what is queued
        stays queued. */
    method SetFiles(value: set<string>)
      modifies this
      ensures files == value
      ensures unchanged(q)
    {
      files := value;
    }
  }

  /** The observer delivering a run of events, one `on_any_event` after the
      other, while the file set stays put: the queue grows by exactly the
      paths `Admitted` names. */
  method OnEvents(h: QueueingHandler, events: seq<string>)
    modifies h.q
    ensures h.q.items == old(h.q.items) + Admitted(h.files, h.abspath, events)
  {
    for i := 0 to |events|
      invariant h.q.items == old(h.q.items) + Admitted(h.files, h.abspath, events[..i])
    {
      assert events[..i + 1][..i] == events[..i];
      h.OnAnyEvent(events[i]);
    }
    assert events[..|events|] == events;
  }

  /** `interruptable_get`: the path at the front of the queue. */
  method InterruptableGet(q: Queue) returns (x: string)
    requires q.items != []
    modifies q
    ensures x == old(q.items)[0] && q.items == old(q.items)[1..]
  {
    var r := q.Get();
    x := r.value;
  }

  /** `collect_from`: takes paths from the front until the queue is empty;
      the result is everything that was queued, in queue order. */
  method CollectFrom(q: Queue) returns (results: seq<string>)
    modifies q
    ensures results == old(q.items)
    ensures q.items == []
  {
    results := [];
    while true
      invariant results + q.items == old(q.items)
      decreases |q.items|
    {
      var r := q.Get();
      if r.None? {
        return;
      }
      results := results + [r.value];
    }
  }
}
