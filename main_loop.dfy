/** One pass of hitnrun's main loop: build, then bring the handler's file
    set up to date with the dependency tree the build printed. */
module MainLoop {
  import opened Wrappers
  import opened TreeText
  import opened Forest
  import opened ParseSpec
  import opened Parser
  import opened Handler

  /** How the build command ended: with a non-zero exit status, or with the
      output it printed. */
  datatype BuildOutcome = BuildFailed | BuildSucceeded(output: string)

  /** The absolute paths of the leaves. */
  function AbsolutePaths(abspath: string -> string, leaves: set<string>): set<string> {
    set f | f in leaves :: abspath(f)
  }

  /** The file set the handler holds after a build: unchanged when the build
      failed, the absolute paths of the tree's leaves when it succeeded. */
  function FilesAfter(files: set<string>, abspath: string -> string, outcome: BuildOutcome): Result<set<string>> {
    match outcome
    case BuildFailed => Ok(files)
    case BuildSucceeded(output) =>
      match ParseOutput(output)
      case Err(err) => Err(err)
      case Ok(f) => Ok(AbsolutePaths(abspath, LeafNames(f)))
  }

  /** The update-or-keep step of the main loop. A failed build leaves the
      file set alone; a successful one replaces it by the absolute paths of
      the leaves; a parse error escapes the loop, reported here as the
      result, with the file set untouched. */
  method Rebuild(h: QueueingHandler, outcome: BuildOutcome) returns (crash: Option<ParseError>)
    modifies h
    ensures match FilesAfter(old(h.files), h.abspath, outcome)
      case Err(err) => crash == Some(err) && h.files == old(h.files)
      case Ok(fs) => crash == None && h.files == fs
    ensures unchanged(h.q)
  {
    crash := None;
    if outcome.BuildFailed? {
      return;
    }
    var files := RunSconsAndParseTree(outcome.output);
    if files.Err? {
      return Some(files.error);
    }
    h.SetFiles(AbsolutePaths(h.abspath, files.value));
  }

  /** One pass of the main loop: rebuild, then take the change that wakes
      the loop and everything queued after it. The pass hands back the
      queue's contents in order and leaves the queue empty. */
  method Pass(h: QueueingHandler, outcome: BuildOutcome)
    returns (crash: Option<ParseError>, src: string, results: seq<string>)
    requires FilesAfter(h.files, h.abspath, outcome).Ok? ==> h.q.items != []
    modifies h, h.q
    ensures match FilesAfter(old(h.files), h.abspath, outcome)
      case Err(err) => crash == Some(err) && h.files == old(h.files) && h.q.items == old(h.q.items)
      case Ok(fs) => crash == None && h.files == fs && [src] + results == old(h.q.items) && h.q.items == []
  {
    src, results := "", [];
    crash := Rebuild(h, outcome);
    if crash.Some? {
      return;
    }
    src := InterruptableGet(h.q);
    results := CollectFrom(h.q);
  }

  /** A tree SCons printed is read back whole: after a successful build
      that printed the report of `f`, the handler watches the absolute
      paths of exactly the leaves of `f`. */
  lemma RebuildFromPrinted(files: set<string>, abspath: string -> string, f: seq<Tree>)
    requires forall k :: 0 <= k < |FlattenAll(f, 0)| ==> '\n' !in FlattenAll(f, 0)[k].name
    ensures FilesAfter(files, abspath, BuildSucceeded(Render(f))) == Ok(AbsolutePaths(abspath, LeafNames(f)))
  {
    ParseRendered(f);
  }

  /** Only a malformed tree stops the loop. */
  lemma CrashOnlyOnBadOutput(files: set<string>, abspath: string -> string, outcome: BuildOutcome)
    ensures FilesAfter(files, abspath, outcome).Err? <==>
      outcome.BuildSucceeded? && !WellFormed(Entries(outcome.output))
  {
    if outcome.BuildSucceeded? {
      ParseOutcome(Entries(outcome.output));
    }
  }

  /** A successful build whose output holds no tree line leaves the handler
      with an empty file set, so from then on every change is queued, as
      before the first build. */
  lemma NoTreeWatchesAll(files: set<string>, abspath: string -> string, output: string, events: seq<string>)
    requires Entries(output) == []
    ensures FilesAfter(files, abspath, BuildSucceeded(output)) == Ok({})
    ensures forall path :: Accepts(FilesAfter(files, abspath, BuildSucceeded(output)).value, path)
    ensures Admitted(FilesAfter(files, abspath, BuildSucceeded(output)).value, abspath, events) ==
      seq(|events|, k requires 0 <= k < |events| => abspath(events[k]))
  {
    assert AbsolutePaths(abspath, LeafNames([])) == {};
    AdmittedAll(abspath, events);
  }

  /** Once a tree with leaves is known, a raw event path is queued exactly
      when it is the absolute path of one of the tree's leaves. */
  lemma WatchedAfterBuild(files: set<string>, abspath: string -> string, output: string, f: seq<Tree>, path: string)
    requires ParseOutput(output) == Ok(f)
    requires LeafNames(f) != {}
    ensures Accepts(FilesAfter(files, abspath, BuildSucceeded(output)).value, path) <==>
      exists leaf :: leaf in LeafNames(f) && abspath(leaf) == path
  {
    var leaf :| leaf in LeafNames(f);
    assert abspath(leaf) in AbsolutePaths(abspath, LeafNames(f));
  }
}
