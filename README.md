# hitnrun, modelled in Dafny

hitnrun reruns an SCons build whenever a file the build depends on changes.
It runs `scons -s --tree=all`, reads the dependency tree SCons prints, and
keeps the names of the tree's leaves (the source files). A file-system event
handler then queues a changed path only when it is one of those files, or
when no file set is known yet. The main loop rebuilds on the first queued
change and drains whatever else was queued.

The model covers the parts of `hitnrun/__init__.py` that hold this logic:

- **Text layer** (`tree_text.dfy`, module `TreeText`): splitting the output
  into lines (`str.split('\n')`), and recognising a tree line with
  `TREE_EXP`. Any two characters of `[ |]` form one indentation unit. The
  level is the number of units and the name is everything after `+-`.
- **Forest values** (`forest.dfy`, module `Forest`): trees as values, their
  pre-order rendering as `(level, name)` lines, and leaf names.
- **Parse specification** (`parse_spec.dfy`, module `ParseSpec`): the parse
  as a fold over the recognised lines. It is proved to be exactly the inverse
  of printing a forest. It succeeds exactly on well-formed input. It reports
  `BadTree` for a jump of more than one level. It reports `NoRoot` when the
  first line is not a root, where the source reads an unbound `plevel`.
- **Parser** (`parser.dfy`, module `Parser`): `parse_scons_tree` as the
  source runs it. A `Node` class has a children list that grows in place.
  A stack of open nodes, `plevel`, and the line loop are proved against the
  fold. The node graph the method builds holds exactly the fold's forest.
  The leaf walk of `run_scons_and_parse_tree` pops and extends a worklist
  and is proved to collect exactly the forest's leaf names.
- **Handler** (`handler.dfy`, module `Handler`): `QueueingHandler` as a class
  holding the file set and a FIFO queue. It covers `on_any_event`, the
  `files` setter, `interruptable_get` and `collect_from`.
- **Main loop** (`main_loop.dfy`, module `MainLoop`): the update-or-keep rule
  for the handler's file set after each build, and one pass of the loop.
- `seq_facts.dfy` (module `SeqFacts`) holds generic facts about sequences
  that the proofs use.
- `wrappers.dfy` (module `Wrappers`) holds the `Option` type shared by the
  modules above.

## Model

| member | source | states |
|---|---|---|
| TreeText.SplitLines | hitnrun/__init__.py:41 | the pieces contain no newline, there is at least one, and joining them with newlines gives back the output |
| TreeText.SplitJoin | hitnrun/__init__.py:41 | splitting the newline-join of newline-free lines gives back those lines |
| TreeText.MatchLine | hitnrun/__init__.py:20 | a recognised line is a prefix of 2·level space-or-bar characters, the whole such prefix, then `+-`, then the name verbatim |
| TreeText.MatchIndented | hitnrun/__init__.py:20 | any run of two-character units, each character a space or a bar, followed by `+-` and a name is recognised, with level equal to the number of units and the name verbatim, possibly empty |
| TreeText.UnmatchedLineIgnored | hitnrun/__init__.py:41-44 | a line the pattern rejects contributes no entry wherever it stands |
| TreeText.EntriesOfRendered | hitnrun/__init__.py:20 | every rendered tree line is recognised as the entry it was rendered from |
| Forest.FlattenAllInjective | hitnrun/__init__.py:29-70 | two forests that print the same lines are equal |
| Forest.FlattenWellFormed | hitnrun/__init__.py:48-65 | every printed forest starts at a root and never jumps more than one level |
| Forest.LeafNamesMember | hitnrun/__init__.py:108-121 | a name is a leaf name of a forest exactly when it is a leaf name of one of its trees |
| Forest.LeafNamesOrderFree | hitnrun/__init__.py:108-121 | the leaf set does not depend on the order of the trees |
| ParseSpec.StepRoot | hitnrun/__init__.py:48-53 | a level-0 line finishes the current tree and starts a new root, which adds exactly that line to the printed forest and one tree to the forest |
| ParseSpec.StepChild | hitnrun/__init__.py:55-68 | a line at level L with 1 ≤ L ≤ plevel+1 leaves an open path of length L+1, keeps the finished roots, and adds exactly that line, as last child of the open node at depth L-1 |
| ParseSpec.RunInvariant | hitnrun/__init__.py:41-68 | while the parse succeeds, its forest prints exactly the lines read, and the stack length is the last line's level plus one |
| ParseSpec.RunOutcome | hitnrun/__init__.py:41-68 | the line loop succeeds exactly on well-formed lines and fails with `NoRoot` exactly when the first line is not a root |
| ParseSpec.ParseOutcome | hitnrun/__init__.py:56-65 | parsing succeeds iff the input is well formed; `BadTree` iff the first line is a root and some line jumps more than one level deeper; `NoRoot` iff the first line is below level 0 |
| ParseSpec.ParseIsInverse | hitnrun/__init__.py:29-70 | the parse returns forest f exactly when f prints as the recognised lines |
| ParseSpec.ParsePrinted | hitnrun/__init__.py:29-70 | every forest survives printing and parsing |
| ParseSpec.ParseCounts | hitnrun/__init__.py:48-67 | one root per level-0 line, and one parent-child edge per other line |
| ParseSpec.ParseRendered | hitnrun/__init__.py:29-70 | parsing the printed report of a forest whose names hold no newline gives back that forest |
| Parser.Node.constructor | hitnrun/__init__.py:31-34 | a new node has the given name and no children |
| Parser.NewRoot | hitnrun/__init__.py:48-53 | a level-0 line creates a fresh node that becomes the last root and the whole stack; the nodes of the previous tree now hold that finished tree |
| Parser.PushChild | hitnrun/__init__.py:56-67 | a line one level deeper pushes a fresh node that is appended to the old top's children |
| Parser.PushAt | hitnrun/__init__.py:59-67 | a sibling or shallower line cuts the stack to `level` nodes and pushes a fresh node as last child of `stack[level-1]`; the nodes cut off now hold their finished subtrees |
| Parser.AttachTop | hitnrun/__init__.py:67 | the node just pushed becomes the last child of the node below it |
| Parser.ParseLine | hitnrun/__init__.py:42-68 | one line moves the heap exactly as one step of the fold moves its state, or reports the fold's error |
| Parser.ParseLines | hitnrun/__init__.py:41-69 | the loop stops with the first error, or the heap stands for the fold's state after every line |
| Parser.ParseSconsTree | hitnrun/__init__.py:29-70 | the roots returned form exactly the forest of the fold, names and children in order, or the error the fold reports |
| Parser.CollectTree | hitnrun/__init__.py:111-119 | the worklist walk from one root adds exactly that tree's leaf names |
| Parser.CollectLeaves | hitnrun/__init__.py:108-121 | the names collected from all roots are exactly the forest's leaf names, childless roots included |
| Parser.RunSconsAndParseTree | hitnrun/__init__.py:108-123 | the result is the leaf set of the parsed forest, or the parse error |
| Handler.Queue.Put | hitnrun/__init__.py:89 | the path goes to the back of the queue |
| Handler.Queue.Get | hitnrun/__init__.py:139-141 | the front path is removed and returned, or `Empty` when nothing is queued |
| Handler.Admitted | hitnrun/__init__.py:80-89 | a run of events queues at most one path per event |
| Handler.AdmittedMember | hitnrun/__init__.py:80-89 | a path is queued exactly when some event that passes the filter has it as its absolute path |
| Handler.AdmittedConcat | hitnrun/__init__.py:80-89 | events handled one after another queue what each part queues, in order |
| Handler.AdmittedAll | hitnrun/__init__.py:82-84 | with an empty file set, every event is queued as its absolute path, in order |
| Handler.QueueingHandler.constructor | hitnrun/__init__.py:74-78 | a new handler holds the given file set and an empty queue |
| Handler.QueueingHandler.OnAnyEvent | hitnrun/__init__.py:80-89 | `abspath(path)` goes to the back of the queue exactly when the file set is empty or holds the raw path; otherwise nothing changes |
| Handler.QueueingHandler.SetFiles | hitnrun/__init__.py:95-98 | the file set is replaced wholesale and the queue is untouched |
| Handler.OnEvents | hitnrun/__init__.py:80-89 | a run of events delivered one `on_any_event` after another under a fixed file set grows the queue by exactly `Admitted` of those events |
| Handler.InterruptableGet | hitnrun/__init__.py:126-131 | the path at the front of the queue is taken and returned |
| Handler.CollectFrom | hitnrun/__init__.py:134-141 | the result is everything queued, in FIFO order, and the queue is left empty |
| MainLoop.Rebuild | hitnrun/__init__.py:161-168 | a failed build leaves the file set unchanged; a successful one sets it to the absolute paths of the leaves; a parse error stops the loop with the file set unchanged; the queue is untouched |
| MainLoop.Pass | hitnrun/__init__.py:158-174 | after a rebuild that does not crash, the waking change followed by the drained changes is exactly what was queued, and the queue is empty |
| MainLoop.RebuildFromPrinted | hitnrun/__init__.py:161-168 | after a successful build that printed the tree of f, the handler watches exactly the absolute paths of f's leaves |
| MainLoop.CrashOnlyOnBadOutput | hitnrun/__init__.py:161-168 | the loop stops only on a successful build whose output is not well formed |
| MainLoop.NoTreeWatchesAll | hitnrun/__init__.py:161-168 | a successful build that printed no tree line empties the file set, so every path passes the filter and every event is queued as its absolute path, in order |
| MainLoop.WatchedAfterBuild | hitnrun/__init__.py:161-168 | once a tree with leaves is known, a raw event path passes the filter exactly when it is the absolute path of one of the tree's leaves |

## Left out

- Running SCons (`subprocess.check_output`, the environment copy and the `TERM` override, lines 101-106) is outside the model. The build is a `BuildOutcome`: either failed, or the captured output as a string.
- Strings are sequences of characters. The byte strings of Python 2 and their encodings are not modelled.
- `os.path.abspath` depends on the working directory. It is an uninterpreted function the handler carries (`QueueingHandler.abspath`).
- The watchdog `Observer` (start, stop, join), the `RLock` and all threading are outside the model. The handler is a single-threaded state machine, so paths queued by the observer during a drain are not modelled.
- Timeouts, `--collect-time`, `--loop-time` and blocking waits are outside the model. `Queue.Get` returns `Empty` at once when nothing is queued.
- Handler.InterruptableGet: requires a queued path. The source's retry loop only ever ends when another thread puts a path, which this single-threaded model cannot show.
- MainLoop.Pass: requires a queued path whenever the rebuild does not stop the loop, for the same reason as `InterruptableGet`.
- The main loop's handler is `new QueueingHandler({}, abspath)`: the constructor takes the file set explicitly, and the source's default `files=set([])` (line 74, used at line 151) is that empty set.
- The raising `files` getter (lines 91-93) has no counterpart. The model reads the field directly.
- Argument parsing, logbook handlers, log messages, `Node.__repr__`, the `KeyboardInterrupt` shutdown (lines 175-178) and `setup.py` are not modelled.
- Errors other than those of the parse are out of scope. Examples are an out-of-memory condition or a scons binary that is missing.
