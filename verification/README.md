# Draugr: verified models

Draugr scans repositories with many tools and reports one verdict. Most of it is plumbing around those
tools; this project models the parts that carry hard invariants, and proves them. Each module stands for
one component. Code that works step by step is a method with loops or a class whose methods change its
fields, proved against a specification function; what the code promises is then proved about that
function, for every input, every run or every reachable state.

| file | component |
|---|---|
| `common.dfy`, `text.dfy`, `order.dfy`, `paths.dfy` | optional values, Go's string splitting and joining, its string order and sort, its slash paths |
| `scopes.dfy`, `checkout.dfy` | which files a scope keeps, and the checkout routes that must leave the same tree |
| `glob.dfy`, `globmeaning.dfy`, `localrepos.dfy`, `gomodules.dfy` | the descriptor's glob over Go's `path.Match` and what its patterns mean, moving a scope under the repository root, and widening one to Go modules |
| `pool.dfy`, `freeze.dfy` | the shared checkout pool as interleaved steps, and the walk that freezes and thaws a tree |
| `progress.dfy` | the progress display on a terminal of rows and a cursor |
| `wrap.dfy`, `workspaces.dfy`, `fatbinary.dfy`, `configedit.dfy` | word wrap, workspace globs, the universal binary writer, the editor head |
| `bands.dfy`, `settings.dfy`, `mappings.dfy`, `scanners.dfy`, `licenses.dfy`, `verdicts.dfy` | narrowed-report comparison, deep merge on values and on mappings in memory, scanner selection, license policy, per-component verdicts |
| `depsdev.dfy`, `login.dfy`, `feeds.dfy` | the caching batch client, the device-flow poll loop (RFC 8628), the cached feed replaced under failures |

What the model takes as parameters, with only the hypotheses a property needs: the matcher a scope is tested
with and the one for a workspace's segments (the descriptor's own glob is modelled and meets the hypothesis
asked of the first), the policy's evaluation, how a progress line reads and is cut, the clock, the server's answers, and which
operation of git, the file system or the network fails. Strings stand for bytes, one `char` a byte.

Where the code does not do quite what its comments say, the code is modelled and the exact condition is
proved:

- Beneath a directory that carries a root configuration file's name, sparse checkout and the other routes
  disagree exactly on files no path selects and the ignore walk spares (`Scopes.RoutesAgree`; one is
  `Scopes.DirectoryNamedAsConfig`).
- Every scope moved under the repository root keeps what it held of the directory and takes in nothing beside
  it exactly when the directory, as a path entry, names itself and its path holds no `[`, no backslash and no
  `**`, which the moved patterns read as more than themselves (`LocalRepositories.ScopesKeepTheirMeaning`).
  Nothing is lost under a weaker condition (`LocalRepositories.ScopesMoveExactly`), which the path `s/*` meets and
  still takes in its siblings (`LocalRepositories.SiblingTakenIn`); `app[1]` loses an ignore
  (`LocalRepositories.AppOneDoesNotMove`). Either way a root configuration file no path selects stays behind
  (`LocalRepositories.ConfigStaysBehind`) and the repository's own may be in a moved scope, and a path entry that
  is a bare `*` or `**` names a file called so as written and the whole directory once moved
  (`LocalRepositories.BareWildcardChanges`).
- A pattern whose class takes a slash can miss a name it means, as Go's `path.Match` lets it and never goes back
  over a star (`GlobMeaning.MatchIsMeaning`, `GlobMeaning.ClassTakesASlash`).
- A close that comes to a checkout while it is still being materialized drops it, and nothing ever cleans it
  (`CheckoutPool.CleanedAsFound`, `CheckoutPool.EarlyCloseLeavesATree`).
- Thawing a frozen tree leaves what thawing it alone would exactly when the contents of folders that could not
  be listed before the freeze had their thawed modes already (`Freeze.ThawUndoesFreezeExactly`,
  `Freeze.HiddenFileIsThawed`).
- Log output is kept exactly when no frame is drawn while a line of it is unfinished
  (`Progress.NothingLostExactly`, `Progress.UnfinishedLineIsOverwritten`).
- An edit head whose closing line was deleted takes text with it exactly when the text begins with a line
  of the head or an indented one (`ConfigEdit.UnclosedBlock`, `ConfigEdit.FirstLineGoesWithTheBlock`).
- A partial feed can become the cached one in exactly one case, when the leftover of an earlier run could
  not be cleared (`Feeds.WholeAtEveryStep`, `Feeds.PartialCopyCanReturn`).
- The manifest is written in place, so a write cut short drops every other feed from the cache
  (`Feeds.OthersSurviveExactly`, `Feeds.TornRecordDropsOthers`); and a
  fetch that replaces a feed and cannot open it, or stops before it, can leave a record that does not describe
  what is on disk (`Feeds.PlainRecordsDescribeExactly`, `Feeds.ZippedRecordsDescribeExactly`,
  `Feeds.StaleRecord`, `Feeds.StaleTree`).
- A KEV feed longer than the cap, or an EPSS feed that expands to more, is cut and the fetch succeeds
  (`Feeds.LongFeedIsCut`).
- Two spellings of one package in one batch leave the earlier unanswered (`DepsDev.UnansweredExactly`).
- Deep merge groups either way except where a mapping is replaced by a scalar and that by a mapping again
  (`Settings.MergeAssociates`, `Settings.GroupingMatters`).
- A component block that writes null over a project's license list leaves that list attributed but not
  applied (`Licenses.AttributionIsExact`, `Licenses.NullKeepsTheAttribution`).
- Two reports of which either leaves out a band can misread a finding both scans saw once its band has moved,
  and those that are accepted only then (`Bands.NothingAtAllMisread`, `Bands.AcceptedMisreadingMoved`,
  `Bands.MovedFindingsMisread`).
- A finding of a component without a row is in no part of the breakdown (`Verdicts.PartsAddUp`,
  `Verdicts.FindingElsewhere`).

## Model

| member | source | states |
|---|---|---|
| `Progress.ShowsExactly` | internal/cli/progress.go:90-113 | a terminal that shows a view reads, row by row, as what is above, then every row of the frame or the row being written, and nothing below, with the cursor on the last of these |
| `Progress.DrawShows` | internal/cli/progress.go:182-243 | drawing a frame over a longer one, a shorter one or none leaves the rows above as they were, exactly the new frame below them, nothing stale under it, and the cursor on its last row |
| `Progress.EraseShows` | internal/cli/progress.go:98-113 | erasing clears every row of the frame and none above it, and leaves the cursor at the start of its first row |
| `Progress.LogShows` | internal/cli/progress.go:83-88 | log bytes written where no frame is end the row being written, add their lines, and leave the rest pending |
| `Progress.BodyTellsFramesApart` | internal/cli/progress.go:217-221 | two frames write the same bytes exactly when they are the same frame, so a skipped identical write loses nothing |
| `Progress.ProgressLine.Erase` | internal/cli/progress.go:98-113 | the terminal shows what it did without the frame, and the next frame will be written even if it repeats the last |
| `Progress.ProgressLine.Draw` | internal/cli/progress.go:182-243 | the terminal shows the rows above followed by this snapshot's frame; with no total to show, what it showed |
| `Progress.ProgressLine.WriteThrough` | internal/cli/progress.go:83-88 | the frame is gone and the log text follows what was above it |
| `Progress.ProgressLine.Update` | internal/cli/progress.go:165-173 | the snapshot is remembered and drawn |
| `Progress.ProgressLine.Repaint` | internal/cli/progress.go:155-162 | the remembered snapshot is drawn as of now, and nothing is before the first one |
| `Progress.ProgressLine.Done` | internal/cli/progress.go:249-261 | no frame is left on the terminal |
| `Progress.ProgressLine.Serve` | internal/cli/progress.go:155-261 | after any run of calls, in any order, the terminal shows exactly what the calls amount to |
| `Progress.LogsStandInOrder` | internal/cli/progress.go:57-113 | over any run with newline-terminated log output, the rows the reader had and every logged line stand in order, unaltered, above the one frame |
| `Progress.NothingLostExactly` | internal/cli/progress.go:57-113 | over any run, whatever is logged, the text above the frame is what the reader had followed by everything logged exactly when no frame is drawn while a line is unfinished, and otherwise is shorter |
| `Progress.WholeRun` | internal/cli/progress.go:57-113 | once a run on a terminal is done, no frame is left; everything logged follows what the reader had exactly under that condition; and with every write ending its last line, the rows are the old ones and the logged lines in order |
| `Progress.LastFrameShows` | internal/cli/progress.go:155-261 | the frame shown is the last update's, after a repaint the last snapshot's as of then, and none after done or a log write |
| `Progress.FrameRows` | internal/cli/progress.go:275-284 | a frame is the headline and below it one row for each step in order, each cut to the window, and nothing while there is no total |
| `Progress.UnfinishedLineIsOverwritten` | internal/cli/progress.go:83-88 | logging `a` without a newline and then drawing a frame loses the `a` |
| `Scopes.ContainsIsTheWalk` | internal/git/scope.go:81-98 | a file is inside the scope exactly when the walk spares it and every directory above it |
| `Scopes.ContainsExactly` | internal/git/scope.go:81-98 | a scope holds exactly the files no ignore pattern takes out that a selected path names or lies above, the root configuration, and with no path selected any file |
| `Scopes.StoppedByPattern` | internal/git/scope.go:258-280 | a pattern stops the walk on its way to a file exactly so: with a closing slash, where the file lies beneath the directory named; otherwise, where it matches the file or a directory above it; a blank one never |
| `Scopes.IgnoringADirectory` | internal/git/scope.go:264-268 | one more pattern `d/` takes out of a scope exactly what lies beneath `d` |
| `Scopes.ContainsReadsCleaned` | internal/git/scope.go:82-85 | any path is read cleaned and without outer slashes, and one that climbs, or names nothing, is in no scope |
| `Scopes.AncestorsOfKeptAreKept` | internal/git/scope.go:242-255 | every directory leading down to a kept file is kept |
| `Scopes.SelectPaths` | internal/git/scope.go:116-131 | the entries kept are the normalized ones, and the whole repository if any names the root |
| `Scopes.SelectedIs` | internal/git/scope.go:116-131 | an entry naming the root selects the whole repository, and otherwise each selects what it normalizes to |
| `Scopes.SparsePatterns` | internal/git/scope.go:139-148 | the patterns are the selected entries and the root configuration, each anchored |
| `Scopes.SparseIsWithin` | internal/git/scope.go:133-148 | sparse checkout materializes exactly what the path test keeps, except beneath a directory carrying a root configuration file's name |
| `Scopes.RoutesAgree` | internal/git/scope.go:237-241 | sparse checkout then the ignore walk keeps a file exactly when the scope contains it, except exactly the unselected, spared files beneath a directory named like a root configuration file |
| `Scopes.DirectoryNamedAsConfig` | internal/git/scope.go:133-148 | with only `src` selected, sparse checkout takes `trivy.yaml/x`, which the scope does not contain |
| `Scopes.WholeRepositoryRoute` | internal/git/scope.go:194-235 | with no path selected, the walk keeps a file exactly when the scope contains it, whether or not it enforces paths |
| `Checkouts.WorkDir.Prune` | internal/git/scope.go:194-235 | what is left is git's metadata and the files spared with every directory above them, whatever order the walk took |
| `Checkouts.Walk` | internal/git/scope.go:197-228 | what the walk dooms covers exactly the files it would not have spared, and nothing of git's |
| `Checkouts.Checkout` | internal/git/git.go:41-122 | on every route (sparse, plain fallback, history) a tree that comes back is exactly the files the scope contains, beside git's metadata and, on the sparse route, the files only it takes; and each error happens exactly when its command failed or a selected path is absent |
| `Checkouts.CheckoutWorkingTree` | internal/git/git.go:290-386 | refused exactly when a listed name joined to the root climbs out of it, naming the first such; otherwise the copy holds exactly the regular files the list leads to that the scope contains, or the selected paths not there are named |
| `Checkouts.LandingOfClean` | internal/git/git.go:377-386 | a file listed by its own name is copied there, and the same behind a rooted climb is refused |
| `Checkouts.MissingPaths` | internal/git/scope.go:155-163 | the entries absent from the tree, in order |
| `Checkouts.SelectedPathsArePresent` | internal/git/scope.go:150-154 | no entry is missing exactly when every selected path holds some file, so a mistyped entry never narrows a scan to nothing |
| `LocalRepositories.RootLocalRepositories` | internal/cli/localrepos.go:23-40 | every repository naming a directory inside a work tree is pointed at the root, its paths and ignores moved under the directory; every other is left alone |
| `LocalRepositories.Under` | internal/cli/localrepos.go:43-55 | each entry is joined to the directory and keeps its trailing slash |
| `LocalRepositories.MovedScopeContains` | internal/cli/localrepos.go:15-40 | with a matcher that moves with the listed patterns, the moved scope contains `dir/f` exactly when the written one contains `f` and not merely as a root configuration file |
| `LocalRepositories.GlobMovesWith` | pkg/saga/glob.go:23-60 | the descriptor's own glob is such a matcher for all clean patterns and every directory without `[`, backslash and `**`, lone stars and all |
| `LocalRepositories.ScopesKeepTheirMeaning` | internal/cli/localrepos.go:15-55 | with that glob, every scope of a directory holds after the move what it held of the directory and, the repository's root configuration aside, nothing beside it, exactly when the directory names itself as an entry and holds no `[`, no backslash and no `**` |
| `LocalRepositories.ScopesMoveExactly` | internal/cli/localrepos.go:15-55 | the first half alone: nothing of the directory is lost or added exactly when its path begins with no blank, names itself or a directory above it as an entry, and holds no `[`, no backslash and no `**` |
| `LocalRepositories.NothingElseExactly` | internal/git/scope.go:116-131 | the second half, of such a directory: no moved scope takes in a file beside it exactly when it names itself as an entry |
| `LocalRepositories.SiblingTakenIn` | internal/git/scope.go:116-131 | a directory that loses nothing, `s/*`, whose whole scope takes in `s/o` |
| `LocalRepositories.VendorDoesNotMove` | internal/cli/localrepos.go:23-40 | in any other such directory ignoring `vendor` does not move: the moved pattern misses it, or takes the whole directory, or a `vendor` further down |
| `LocalRepositories.LeadingBlankLosesSrc` | internal/git/scope.go:116-131 | a directory beginning with a blank loses the path `src` |
| `LocalRepositories.ConfigStaysBehind` | internal/git/scope.go:237-255 | with only `src` selected, a directory's `trivy.yaml` is in the written scope and not in the moved one |
| `LocalRepositories.AppOneDoesNotMove` | internal/cli/localrepos.go:23-40 | `vendor`, ignored in `app[1]`, is in the moved scope |
| `LocalRepositories.BareWildcardChanges` | internal/git/scope.go:116-131 | a bare `*` or `**` entry selects itself as written and the whole directory once moved |
| `LocalRepositories.PathsMove` | internal/git/scope.go:242-255 | the moved paths, bare, with a closing slash or with a closing `/*` or `/**`, select `dir/f` exactly when the written ones select `f` other than as a root configuration file |
| `LocalRepositories.PatternMoves` | internal/git/scope.go:258-280 | a moved pattern covers `dir/rel` exactly when the written one covers `rel` |
| `LocalRepositories.PatternOverDirectory` | internal/git/scope.go:258-280 | a moved pattern that covers the directory or one above it covered every file as written, so nothing more is ignored |
| `Globs.Matches` | pkg/saga/glob.go:23-52 | the loop over depths decides as the recursive reading of the pattern does |
| `GlobMeaning.MatchIsMeaning` | pkg/saga/glob.go:23-27 | the matcher accepts no name a pattern does not mean and, where none of its classes takes a slash, every name it means, though it looks for each run of tokens at the first place alone |
| `GlobMeaning.ClassTakesASlash` | pkg/saga/glob.go:23-27 | a class may take a slash, and then a name is missed: `*[^a]*b` means `x/b` and does not match it |
| `GlobMeaning.RunReads` | pkg/saga/glob.go:23-27 | a run of letters, escapes, `?` and classes is matched character by character |
| `GlobMeaning.MalformedMatchesNothing` | pkg/saga/glob.go:23-27 | a class not closed, empty or begun with a dash, and an escape of nothing, match nothing |
| `GlobMeaning.DoubleStarMeans` | pkg/saga/glob.go:28-52 | between a head and a tail `**` takes any number of segments under the head: the tail matches from one of them on, and with none everything does |
| `GlobMeaning.AnywhereIs` | pkg/saga/glob.go:42-52 | the loop over depths tries a pattern from each segment of a name |
| `Globs.GlobMoves` | pkg/saga/glob.go:23-52 | under a directory without `[`, backslash and `**` a pattern matches a name exactly when it matches without the directory before both |
| `Globs.PathMatchStrips` | pkg/saga/glob.go:24-27 | `path.Match` takes a plain beginning off pattern and name alike |
| `Globs.DirectoryStrips` | pkg/saga/glob.go:24-27 | and a whole directory with stars in it, wherever the stars' chunks are found first |
| `Globs.MatchesDeeper` | pkg/saga/glob.go:28-52 | a pattern under a directory with a `**` that matches its own text matches its end further down too |
| `Globs.MovedOverDirectory` | pkg/saga/glob.go:28-39 | a pattern written under such a directory matches none above it, and the directory only if it matches everything in it |
| `Globs.NotItself` | pkg/saga/glob.go:24-27 | a pattern with a class or an escape, and no `*`, does not match its own text |
| `LocalRepositories.FirstSegmentsMove` | internal/git/scope.go:283-289 | taking first segments commutes with writing a directory above |
| `GoModules.InnermostModule` | internal/git/modules.go:93-104 | the module found is the one beneath every other that holds the file, and one is found exactly when some holds it |
| `GoModules.InnermostIsUnique` | internal/git/modules.go:89-92 | the innermost module is the same whatever the order or repeats of the module list |
| `GoModules.ModuleDirsAreManifests` | internal/git/modules.go:63-72 | the module directories are exactly those of the manifests the build does not leave out |
| `GoModules.RootsByList` | internal/git/modules.go:55-87 | being a root, said of files and manifests, is what the module list and the innermost module decide |
| `GoModules.ModuleRootsIn` | internal/git/modules.go:55-87 | the roots, strictly sorted, are exactly the module of each manifest a path names and the innermost module of each selected Go file |
| `GoModules.RootsByName` | internal/git/modules.go:55-87 | the roots told by file names alone: the modules outside `vendor` and `testdata` whose manifest is selected, and those innermost to hold a selected Go source |
| `CheckoutPool.RunKeepsInv` | internal/git/pool.go:48-86 | in every interleaving the mutex, the table, each caller and each entry agree |
| `CheckoutPool.AtMostOnceEach` | internal/git/pool.go:48-86 | over every run, no two callers are inside the mutex at once, each caller's entry is for its key, and no entry is materialized or cleaned twice |
| `CheckoutPool.OncePerKey` | internal/git/pool.go:48-70 | however callers interleave, `materialize` starts at most once for a key while no close has ended |
| `CheckoutPool.OncePerKeyAndClose` | internal/git/pool.go:48-86 | over every run, `materialize` starts at most once for a key and once more for each close that has ended |
| `CheckoutPool.ReturnsWhatWasMaterialized` | internal/git/pool.go:57-69 | a caller returns only once its entry's one `materialize` has finished, with what it answered, and a tree it got is frozen |
| `CheckoutPool.CallersAgree` | internal/git/pool.go:40-47 | all callers of a key get the same tree or the same error |
| `CheckoutPool.CloseCleansOnce` | internal/git/pool.go:73-86 | a close begun after every return, however others interleave with it, runs each checkout's cleanup exactly once, thawed first, and drops it |
| `CheckoutPool.CleanedAsFound` | internal/git/pool.go:73-86 | over every run, a checkout a close came to was cleaned, once, exactly if it had been materialized with something to clean when the close came |
| `CheckoutPool.EarlyCloseLeavesATree` | internal/git/pool.go:73-86 | a run whose caller gets a tree that a close had dropped before it was there, never cleaned |
| `CheckoutPool.RetiredIsNeverCleanedAgain` | internal/git/pool.go:85 | nothing cleans a dropped checkout from then on |
| `CheckoutPool.NeverStuck` | internal/git/pool.go:48-86 | in every reachable state with an unfinished caller, some caller can take a step |
| `Freeze.FileSystem.ChmodTree` | internal/git/pool.go:94-136 | the modes are those the visits leave, one after another, of the walk that reads each folder its mode then lets it read and changes nothing in one it may not search |
| `Freeze.OwnerBits` | internal/git/pool.go:94-136 | a folder can be read, and searched, by the owner's digit of its mode |
| `Freeze.VisitsExactly` | internal/git/pool.go:117-136 | the walk changes exactly the files and folders reachable through folders it can read and search, each as what it is, of one it can only read the folder itself, and nothing that is a link or beyond one |
| `Freeze.ModesExactly` | internal/git/pool.go:94-107 | after the walk every folder reached has the folder mode and every file the file mode, and everything else the mode it had |
| `Freeze.WalkIsDeepestFirst` | internal/git/pool.go:109-116 | no folder's mode changes before that of anything below it |
| `Freeze.FrozenReachesMore` | internal/git/pool.go:88-92 | a thaw after a freeze reaches everything the freeze reached |
| `Freeze.ThawUndoesFreezeExactly` | internal/git/pool.go:88-92 | thawing a frozen tree leaves the modes of one only thawed exactly when what is newly reached, in folders not listable before, had its thawed mode already |
| `Freeze.ThawUndoesFreeze` | internal/git/pool.go:88-92 | so it does wherever every folder of the tree can be listed |
| `Freeze.HiddenFileIsThawed` | internal/git/pool.go:88-92 | a folder nobody may list, whose file is left thawed |
| `Freeze.FileSystem.ShareThenClose` | internal/git/pool.go:66-92 | after a freeze and a thaw everything the freeze reached has its thawed mode, so it can be removed |
| `Wrap.WrapWords` | internal/cli/configkeys.go:413-427 | the text returned is the greedy packing's lines |
| `Wrap.WrappingKeepsWords` | internal/cli/configkeys.go:412-427 | read back, the wrapped text has the same words in order |
| `Wrap.PackKeepsToWidth` | internal/cli/configkeys.go:412-419 | no line is wider than the width unless it is a single word |
| `Wrap.GreedyIsFewest` | internal/cli/configkeys.go:413-427 | no in-order arrangement whose lines each fit or hold one word has fewer lines |
| `Workspaces.Member` | internal/inventory/workspaces.go:66-90 | true exactly when some workspace above the directory has a matching glob and no matching `!` glob |
| `Workspaces.BeneathExactly` | internal/inventory/workspaces.go:93-99 | a directory lies beneath a root by exactly the path written after the root and a slash, and beneath `.` by its own path unless it is `.` |
| `Workspaces.OnePatternMore` | internal/inventory/workspaces.go:74-84 | one more glob takes in what it matches and no `!` glob does, and one more `!` glob leaves out what it matches |
| `Workspaces.GlobIsPointwise` | internal/inventory/workspaces.go:101-106 | a glob of plain segments matches a directory segment by segment, with a leading `./` or a closing slash or without |
| `Workspaces.RootTakesIn` | internal/inventory/workspaces.go:68-106 | a workspace at the root takes in a directory two deep by a glob of two segments exactly when each matches |
| `Workspaces.RootWorkspace` | internal/inventory/workspaces.go:68-106 | a root workspace with `packages/*` takes in `packages/a` |
| `Workspaces.OrderOfPatterns` | internal/inventory/workspaces.go:74-84 | membership does not depend on the order of a workspace's patterns |
| `Workspaces.MatchComposes` | internal/inventory/workspaces.go:108-125 | a glob in two parts matches exactly when the name splits into a part each matches |
| `Workspaces.DoubleStarIsAnySegments` | internal/inventory/workspaces.go:101-119 | `**` stands for any number of segments |
| `Workspaces.PlainGlobMatchesPointwise` | internal/inventory/workspaces.go:120-124 | without `**` a glob matches segment by segment |
| `Bands.ComparableBands` | internal/cli/diff.go:370-410 | accepted exactly when, over all pairs of full scans, no finding in one band in both is read as fixed, or as new after the narrowing; each refusal names a misreading that some pair shows |
| `Bands.BandsBelow` | internal/cli/diff.go:416-427 | exactly the bands less urgent, and some where the band is above P4 |
| `Bands.RankExactly` | internal/cli/diff.go:413 | a band is a `P` of either case and a digit from 1, the most urgent, to 4, and any other name none |
| `Bands.Exactness` | internal/cli/diff.go:359-369 | the ranks at which nothing is misread are exactly those where neither report leaves out a band the other is judged on |
| `Bands.NothingAtAllMisread` | internal/cli/diff.go:359-369 | no finding both scans saw can be misread, whatever became of its band, exactly when neither report leaves a band out |
| `Bands.AcceptedMisreadingMoved` | internal/cli/diff.go:359-410 | between accepted reports one read as fixed fell, or had no band before, and one read as new rose, or has none now; and exactly when each happens |
| `Bands.MovedFindingsMisread` | internal/cli/diff.go:359-410 | between reports both narrowed to P2, a finding risen from P3 to P1 reads as new and one fallen from P1 to P3 as fixed |
| `FatBinary.WriteFat` | contrib/mcpb/lipo.py:53-70 | the file holds the header, the table, and each slice's bytes where the table says, for any number of slices; exactly when a value does not fit its field it is cut short, empty or after the entries before the first that does not fit |
| `FatBinary.LayoutIsSound` | contrib/mcpb/lipo.py:53-60 | offsets are multiples of 16 KiB, after the table, and slices never overlap, so padding is never negative |
| `FatBinary.ReadUndoesWrite` | contrib/mcpb/lipo.py:62-70 | decoding the big-endian table returns every slice's bytes and processor unchanged |
| `FatBinary.EntryRoundTrip` | contrib/mcpb/lipo.py:65-67 | a packed table line unpacks to itself, and ends in the alignment's power and four zero bytes |
| `FatBinary.FitsExactly` | contrib/mcpb/lipo.py:65-67 | a value fits its field exactly when some bytes of the field stand for it |
| `FatBinary.MagicBytes` | contrib/mcpb/lipo.py:65 | the file starts with the bytes CA FE BA BF |
| `FatBinary.AcceptsBothByteOrders` | contrib/mcpb/lipo.py:45-51 | an input is accepted exactly when its first four bytes are the 64-bit magic in either order |
| `FatBinary.Combine` | contrib/mcpb/lipo.py:33-74 | the first input that is no 64-bit Mach-O file is reported, and a file written whole reads back as both inputs, each under its processor |
| `ConfigEdit.ProblemHead` | internal/cli/configedit.go:111-124 | the head is its opening line, every line of every problem under the indent, and its closing line; empty for no problems |
| `ConfigEdit.WithoutHead` | internal/cli/configedit.go:132-153 | what is left is the text past the leading lines that are the block's |
| `ConfigEdit.WithoutUndoesHead` | internal/cli/configedit.go:126-131 | for any problems and any text, stripping the head from head plus text gives the text back |
| `ConfigEdit.WithoutUndoesEditedHead` | internal/cli/configedit.go:126-131 | it still does when an editor deleted lines of the head other than its closing one, rewrote problem lines keeping the indent, or changed line ends |
| `ConfigEdit.UnclosedBlock` | internal/cli/configedit.go:126-131 | with the closing line deleted, the text survives exactly when it does not begin with a line of the block |
| `ConfigEdit.FirstLineGoesWithTheBlock` | internal/cli/configedit.go:126-153 | with the closing line deleted, an indented first line of the text is stripped with the block |
| `ConfigEdit.RunConfigEdit` | internal/cli/configedit.go:72-106 | an edit session ends as its saves, in order, decide |
| `ConfigEdit.SaveDecides` | internal/cli/configedit.go:84-106 | a text saved under the head cancels exactly where it is blank, the one reopened or the one the file held, and otherwise is written, fails or is reopened with its problems as the check says |
| `ConfigEdit.UnchangedSaveCancels` | internal/cli/configedit.go:90-93 | saving a reopened file unchanged, head and all, cancels |
| `ConfigEdit.OnlyAcceptedIsWritten` | internal/cli/configedit.go:58-61 | a save that adds a problem is never written, nor a blank or unchanged one |
| `Settings.DeepMerge` | internal/controllers/config.go:142-157 | the merge is the same whatever order the source's keys come in |
| `Mappings.DeepMerge` | internal/controllers/config.go:142-157 | on mappings in memory, which may be shared, the result stands for the merge; nothing either input reaches is written to, mappings both sides hold are merged into new ones, and every other item is one side's own |
| `Mappings.Mapping.Put` | internal/controllers/config.go:145-155 | writing an item under a key changes what the mapping stands for at that key and nowhere else |
| `Settings.MergeIdempotent` | internal/controllers/config.go:142-157 | a block merged over itself is itself |
| `Settings.MergeChangesNothing` | internal/controllers/config.go:142-157 | merging over a block changes nothing exactly when every key of it, at every depth, is already settled |
| `Settings.MergeAssociates` | internal/controllers/config.go:142-157 | three levels merge alike grouped either way exactly when no mapping is replaced by a scalar and that by a mapping leaving a key of the first unsettled |
| `Settings.GroupingMatters` | internal/controllers/config.go:142-157 | three levels, a mapping replaced by a number and that by a mapping, that merge differently grouped either way |
| `Settings.SameShapesRegroup` | internal/controllers/config.go:142-157 | merging is associative where no key is a mapping at one level and a scalar at another |
| `Settings.SettingStrings` | internal/controllers/licenses.go:301-318 | the strings of a list in order, whichever form the decoder gave it |
| `Settings.StringsAre` | internal/controllers/licenses.go:301-318 | a list of strings reads the same from either decoded form, what is no string is passed over, and any other setting reads as none |
| `Scanners.KeyOfName` | internal/controllers/config.go:205-213 | every key accepted is the key of the scanner it names, and exactly the hyphenated ones are refused |
| `Scanners.NameOfKey` | internal/controllers/config.go:192-197 | a scanner's key names it exactly when its name is no other scanner's key |
| `Scanners.KeysAreCamelCase` | internal/controllers/config.go:159-197 | a scanner is configured under its name in camel case |
| `Scanners.MergeBlocks` | internal/controllers/config.go:36-41 | each scanner's block is the component's merged over the project's |
| `Scanners.ResolveScanners` | internal/controllers/config.go:35-86 | the defaults not switched off, in order, then the extras switched on, sorted, each with its own merged block |
| `Scanners.ExtrasAreDetermined` | internal/controllers/config.go:33-34 | the selection is the same whatever order the maps are walked in |
| `Scanners.RunsExactly` | internal/controllers/config.go:59-79 | which scanners run, both ways, told by the value under `enabled`: a default unless its block holds `false`, another exactly when the block under its own key holds `true` and it is no reachability analyzer |
| `Scanners.SelectedOnce` | internal/controllers/config.go:50-86 | no scanner is selected twice |
| `Scanners.ComponentDecides` | internal/controllers/config.go:29-30 | the merged block holds `enabled: true`, or `false`, exactly when the component writes it, or writes nothing there and the project does |
| `Scanners.MergedSetting` | internal/controllers/config.go:36-41 | each setting of a merged block is the component's where it writes one, deeply merged where both write mappings, and else the project's |
| `Scanners.SelectedSettings` | internal/controllers/config.go:126-140 | a selected scanner runs with the settings of its merged block, all but `enabled` |
| `Licenses.UnionSetting` | internal/controllers/licenses.go:264-283 | the list is the union of both levels' ids |
| `Licenses.PolicyHolds` | internal/controllers/licenses.go:264-283 | that union is strictly sorted and holds exactly the non-empty ids either level lists |
| `Licenses.UnionHolds` | internal/controllers/licenses.go:285-297 | a block's own ids are added to the policy's, sorted, each once, and none is removed |
| `Licenses.PolicySources` | internal/controllers/licenses.go:200-229 | the attribution is that of the project's, the component's and the block's lists in turn |
| `Licenses.SourcesAre` | internal/controllers/licenses.go:194-229 | each license is attributed to exactly the settings that list it, once each, in the order they merge |
| `Licenses.Configure` | internal/controllers/licenses.go:102-126 | a job's settings do not depend on the order the policy's maps give their keys |
| `Licenses.Plan` | internal/controllers/licenses.go:83-130 | every selected scanner on every repository and then every image, each with its resolved settings |
| `Licenses.JobsInOrder` | internal/controllers/licenses.go:100-130 | each target's jobs stand together, one for each scanner in order, after those of the targets before it |
| `Licenses.ListsOnlyTighten` | internal/controllers/licenses.go:163-177 | a job's list holds exactly the project's ids, the component's and the block's own |
| `Licenses.TheRestIsKept` | internal/controllers/licenses.go:105-130 | whatever else a scanner's settings hold, its jobs keep |
| `Licenses.EveryJobHoldsThePolicy` | internal/controllers/licenses.go:163-177 | every job planned denies what the project and the component deny, and warns of what they warn of |
| `Licenses.PatternsAreScas` | internal/controllers/licenses.go:122-125 | only trivy-license on a repository reads the files sca's setting names, and no block's own copy of that setting survives |
| `Licenses.AttributionIsExact` | internal/controllers/licenses.go:194-229 | the attributed ids are exactly the non-empty ids of the job's list, except exactly where the component's block writes null over a project block's list |
| `Licenses.NullKeepsTheAttribution` | internal/controllers/licenses.go:200-229 | a component's null over the project's trivy-license list leaves GPL-3.0 attributed and not denied |
| `Verdicts.Partition` | internal/cli/scan.go:1009-1046 | whatever order the reports come in, each component gets exactly its own unsuppressed findings by control, and the rest are counted |
| `Verdicts.ComponentVerdicts` | internal/cli/scan.go:1009-1104 | one row for each in-scope component, judged on its share, failing first; none for fewer than two components |
| `Verdicts.RowTells` | internal/cli/scan.go:1065-1098 | a row names the failed controls of the verdict on its own findings, what was not scanned and then how many targets are declared, and counts in its slots from P1 to P4 its own unsuppressed findings that are no second copy |
| `Verdicts.CountIs` | internal/cli/scan.go:1077-1092 | each number is how many findings it is about |
| `Verdicts.LastOfAName` | internal/cli/scan.go:1056-1059 | of components of one name the last counts |
| `Verdicts.OneRowEach` | internal/cli/scan.go:1047-1104 | every component in scope has exactly one row and no other has one, failing rows first and each group in name order |
| `Verdicts.PartsAddUp` | internal/cli/scan.go:1002-1008 | rows, copies left out, unattributed findings and those of components without a row sum to the unsuppressed findings; the first three alone exactly when there are none of the last |
| `Verdicts.FindingElsewhere` | internal/cli/scan.go:1009-1046 | a finding of a component the file does not name is in no row, no copy and not unattributed |
| `Verdicts.BandsAddUp` | internal/cli/scan.go:1077-1092 | a row's bands and its findings without a priority make up its findings |
| `DepsDev.QualifiersDoNotCount` | internal/depsdev/depsdev.go:219-222 | purls that differ only in qualifiers or subpath ask about one package |
| `DepsDev.ParseUndoesWriting` | internal/depsdev/depsdev.go:214-255 | a purl written for a package of an indexed ecosystem, name and version percent-encoded with any choice of characters left plain, is read as that package at that version |
| `DepsDev.UnescapeUndoesEscape` | internal/depsdev/depsdev.go:240 | unescaping undoes percent-encoding of any bytes, in either case of digits |
| `DepsDev.MalformedExactly` | internal/depsdev/depsdev.go:240-243 | a name does not unescape exactly when it holds a percent sign two hexadecimal digits do not follow |
| `DepsDev.KeyOfSpelled` | internal/depsdev/depsdev.go:223-255 | the type ends at the first slash and the version follows the last `@`; a name that does not unescape is refused and such a version kept as written |
| `DepsDev.OnlySpelledHasAKey` | internal/depsdev/depsdev.go:223-239 | nothing else is read as a package: not without a slash, a version, or something before the `@` |
| `DepsDev.JoinedAt` | internal/depsdev/depsdev.go:244-249 | a Maven group and artifact meet at a colon |
| `DepsDev.IndexedEcosystems` | internal/depsdev/depsdev.go:54-62 | the seven types indexed |
| `DepsDev.EcosystemNames` | internal/depsdev/depsdev.go:54-62 | each is named by its type in capitals, but for `GO` and `RUBYGEMS` |
| `DepsDev.ScopedNameParses` | internal/depsdev/depsdev.go:231-243 | a scoped npm name, its `@` escaped, is read with it |
| `DepsDev.ScopedExample` | internal/depsdev/depsdev_test.go:41 | `pkg:npm/%40scope/thing@1.0.0` is `@scope/thing` at `1.0.0` |
| `DepsDev.ExampleParses` | internal/depsdev/depsdev.go:214-254 | `pkg:npm/a@1` asks npm about version 1 of `a` |
| `DepsDev.Requests` | internal/depsdev/depsdev.go:159-168 | one key sent for each purl, and each key answers for the last purl asking about it |
| `DepsDev.Decode` | internal/depsdev/depsdev.go:261-318 | exactly the purls whose key is answered get a package, the one the answer says |
| `DepsDev.Forward` | internal/depsdev/depsdev.go:303-313 | a recommendation is one of the service's and ahead of the version asked about, or there is none ahead |
| `DepsDev.SaysExactly` | internal/depsdev/depsdev.go:261-318 | a purl is answered exactly when the service knows its package, with what was found of the package and then of the version, and the first recommendation ahead of the version |
| `DepsDev.BatchesPartition` | internal/depsdev/depsdev.go:129-131 | each purl wanted goes out in exactly one batch, in order, of at most 100 |
| `DepsDev.Client.Fetch` | internal/depsdev/depsdev.go:148-199 | one batch is sent, and what comes back is what the service knows of the purls last to ask for their key |
| `DepsDev.Client.Lookup` | internal/depsdev/depsdev.go:98-145 | exactly the purls with no answer from within the TTL go out in batches; an error keeps the cache's answers and every earlier batch's, and caches them |
| `DepsDev.DistinctKeysAnswerAll` | internal/depsdev/depsdev.go:98-145 | with distinct keys, a successful call returns exactly what asking afresh for every indexable purl would |
| `DepsDev.UnansweredExactly` | internal/depsdev/depsdev.go:159-168 | a fetched purl is unanswered exactly when the service does not know its package or a later purl of its batch asks about the same one |
| `DepsDev.EarlierSpellingGoesUnanswered` | internal/depsdev/depsdev.go:159-168 | of two spellings of a known package in one call, only the later is answered |
| `DepsDev.Calls` | internal/depsdev/depsdev.go:107-145 | over any run of calls on one client, each success answers what asking afresh would |
| `DeviceLogin.Wait` | internal/login/device.go:144-196 | the loop ends as its turns decide, and every sleep is the interval then in force |
| `DeviceLogin.IntervalGrowsBySlowDowns` | internal/login/device.go:144-174 | the interval never shrinks, and is the first one and exactly 5 seconds for each `slow_down` |
| `DeviceLogin.IntervalInForce` | internal/login/device.go:145-148 | what is slept is the server's interval, or 5 seconds where it names none, and 5 more for each `slow_down` |
| `DeviceLogin.PollsAreBounded` | internal/login/device.go:149-160 | with a lifetime and full sleeps, however the server answers, all polls but the last fit into the lifetime, one first interval each |
| `DeviceLogin.BoundIsReached` | internal/login/device.go:149-160 | a server that always says to wait is polled as often as that allows |
| `DeviceLogin.PollsAreInTime` | internal/login/device.go:157-160 | no poll is made at or after the deadline, and each but the last was told to wait |
| `DeviceLogin.NoLifetimeNoBound` | internal/login/device.go:158-160 | a code without a lifetime is polled for as long as the server says so |
| `DeviceLogin.EndsExactly` | internal/login/device.go:157-195 | waiting ends as expired, denied, failed or logged in on exactly the first turn past the deadline or not told to wait, by what that turn holds, and goes on exactly while there is none |
| `DeviceLogin.LoggedInExactly` | internal/login/device.go:161-194 | a login comes of exactly a bearer token, or one of no stated type, answered in time to a poll all earlier ones of which were told to wait |
| `Feeds.ExtractAll` | internal/feeds/govulndb.go:37-61 | the loop unpacks, refuses or fails as the entries in order decide |
| `Feeds.WholeIsWhole` | internal/feeds/govulndb.go:37-61 | a tree unpacked holds every file the archive publishes, entire, and nothing else, with fewer bytes than the cap |
| `Feeds.WholeExactly` | internal/feeds/govulndb.go:37-61 | an archive unpacks whole exactly when no entry fails or lies outside, no file is where another entry needs a folder, and the files add up to less than the cap or there are none |
| `Feeds.FoldersOfWhole` | internal/feeds/govulndb.go:43-51 | the folders of a whole tree are those the entries are or lie in |
| `Feeds.PublishedIs` | internal/feeds/govulndb.go:52-57 | under a path an archive publishes what its last file entry of that path holds |
| `Feeds.OneFileUnpacks` | internal/feeds/govulndb.go:46-49 | a file in folders the archive does not list unpacks, folders and all, exactly under a cap above its size |
| `Feeds.IndexUnpacks` | internal/feeds/govulndb.go:46-49 | so does the database's `index/db.json` |
| `Feeds.StaysBeneathRoot` | internal/feeds/govulndb.go:39-42 | every path unpacked lies beneath the temporary root |
| `Feeds.Cache.Replace` | internal/feeds/govulndb.go:63-75 | every value the cache path takes, and where each tree ends, for every combination of failing operations |
| `Feeds.Cache.ExtractAtomic` | internal/feeds/govulndb.go:22-75 | the cache is touched only by a tree that unpacked whole and passed its check |
| `Feeds.WholeAtEveryStep` | internal/feeds/govulndb.go:16-21 | the cache path is at every step absent, the whole previous tree or the whole new one, except in exactly one case |
| `Feeds.NeverHalfUnpacked` | internal/feeds/govulndb.go:16-21 | outside that case, what a reader finds was there before or is the published tree, complete, checked and beneath its root |
| `Feeds.NothingIsLost` | internal/feeds/govulndb.go:68-75 | success leaves the new tree and no leftover; failure leaves one whole tree, at the cache path or set aside, and nothing at the path exactly when moving in and moving back both fail |
| `Feeds.PartialCopyCanReturn` | internal/feeds/govulndb.go:63-74 | the failing case: part of an old copy becomes the cached one |
| `Feeds.LongFeedIsCut` | internal/feeds/feeds.go:161-237 | a successful KEV fetch holds the published bytes exactly when they fit the cap, and an EPSS one, of a stream not itself cut, what it expands to exactly when that fits |
| `Feeds.FeedCache.Load` | internal/feeds/feeds.go:142-159 | exactly the recorded feeds that are on disk, whatever order the manifest is walked in |
| `Feeds.FeedCache.Record` | internal/feeds/feeds.go:260-269 | the manifest holds the new record over what was listed, also where only closing it fails, is untouched when it cannot be opened, and is unreadable when its write is cut short |
| `Feeds.FeedCache.Fetch` | internal/feeds/feeds.go:161-209 | the whole cache after a fetch, bytes, tree and manifest, for every outcome of the download, of storing and of recording |
| `Feeds.SuccessIsListed` | internal/feeds/feeds.go:198-209 | a success, or a failure only to close the manifest, is listed with the digest and size of what was stored |
| `Feeds.OthersSurviveExactly` | internal/feeds/feeds.go:260-269 | every other listed feed stays listed exactly unless the manifest's write was cut short while one was, and then none is; a failure before the manifest is written leaves it as it was |
| `Feeds.TornRecordDropsOthers` | internal/feeds/feeds.go:260-269 | fetching EPSS on a disk that fills up drops a KEV feed that is still on disk |
| `Feeds.PlainRecordsDescribeExactly` | internal/feeds/feeds.go:189-209 | where every listed record described what is on disk, after a fetch of a feed kept as bytes each still does exactly unless bytes other than those recorded were stored and the manifest could not be opened |
| `Feeds.ZippedRecordsDescribeExactly` | internal/feeds/govulndb.go:63-75 | and after one of the feed kept as a tree, its record's digest naming one string of bytes, exactly unless another tree than those unpack to is moved in and the old copy cannot be cleared or the manifest not opened, or the rest of a leftover is moved in for want of both |
| `Feeds.StaleRecord` | internal/feeds/feeds.go:189-209 | a feed of bytes replaced whose record still speaks of what it held before |
| `Feeds.StaleTree` | internal/feeds/govulndb.go:75 | a tree replaced whose old copy cannot be cleared: the fetch stops before it records |
| `Paths.CleanStaysInside` | internal/feeds/govulndb.go:38-42 | a cleaned relative name that does not start by climbing never climbs |
| `Paths.CleanIgnores` | internal/git/scope.go:82 | cleaning does not see a doubled slash, a `.`, nor a segment taken back by the `..` after it |
| `Paths.CleanFixes` | internal/git/scope.go:82 | and leaves alone what holds none of these |
| `Paths.CleanAtRoot` | internal/git/scope.go:82 | nothing climbs past the root, and the empty path is `.` |
| `Paths.DirAndBase` | internal/git/modules.go:66-70 | the directory and the name of a clean path |
| `Text.Trimmed` | internal/git/scope.go:119-121 | blanks around an entry and slashes around a path are trimmed away whole |

## Left out

- Progress: the bytes of escape sequences, a resized window between frames, lines wider than the window, frames taller than it, and text with control characters; a line is one row of cells.
- Progress: the ticker, `active` and the lock; the property covers calls as the lock orders them.
- Scopes: entries that are not clean literal paths are tested as the code tests them, but `LocalRepositories.MovedScopeContains` speaks of clean path entries that end in no star but a closing `/*` or `/**`, and of clean patterns.
- `LocalRepositories.ScopesMoveExactly`: says nothing of a directory whose path holds a lone `*` beside a `[` or a backslash, where a class may happen to take the name's own bracket.
- Globs: `path.Match` works on runes, and the model on bytes, so a `?` or a class takes one byte.
- `GlobMeaning.MatchIsMeaning`: patterns as their tokens are written there: the two ends of a class's range are escaped alike, and a range of one character is written once.
- `Scopes.SparseIsWithin`: takes git's sparse checkout by its effect for anchored literal patterns, the path named and everything beneath it.
- `Checkouts.Checkout`: does not model a failing file removal or temporary directory, a path that is no repository, or the revision a tree resolves to.
- `Checkouts.CheckoutWorkingTree`: symbolic links and file modes of the copy; an entry that is no regular file is passed over; the copy's directory is taken to have another name than the working tree's, so that no name climbs out of both and back in.
- `CheckoutPool.NeverStuck`: takes a `materialize` that returns; one that never does is not modelled.
- Freeze: an empty directory name, which is a no-op, and a mode change the system refuses.
- Go modules: running git for the file list.
- `Workspaces`: reading the patterns from `package.json` and `pnpm-workspace.yaml`.
- Bands: the wording of refusals and the other checks `diff` makes of two reports; findings are matched by identity, not by fingerprint.
- Fat binaries: reading and writing files, and the usage message.
- `ConfigEdit.RunConfigEdit`: the editor, the scratch file and the message printed; a session is the texts saved.
- Settings: where the other components merge, `Settings.DeepMerge` on values stands for it; `Mappings.DeepMerge` is the same merge on mappings in memory.
- Scanners: `reachabilitySelections` and the registry.
- Text: white space is ASCII's, and letters are folded as ASCII's are.
- Licenses: a plan for no component, how a source is spelled, `Validate` and `Aggregate`, and who publishes a target.
- Verdicts: how a policy judges, and how declared targets are counted.
- `DepsDev.Client.Lookup`: HTTP and JSON; a request is a function from its number and keys to a response or a failure. Non-ASCII letters in a purl's type.
- `DeviceLogin.Wait`: waits over a given number of turns, so that a loop a server keeps going is one that is still polling at their end; overflow of a very long lifetime or interval is not modelled.
- Feeds: HTTP, gzip and zip decoding are parameters, and so what a gzip stream or a zip cut at the cap decodes to; `Stale` and `Age` are single expressions; no leftover temporary directory is modelled; a manifest write cut short is one that leaves nothing readable.
- Commands, tables, help text, configuration precedence and exit codes: a single reading settles them.
