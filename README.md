# recursive_action, modelled in Dafny

BusyBox's `recursive_action` walks a path. It stats it, following symlinks or not. It then
hands a symlink, a file, or a directory not recursed into to one of two optional callbacks
(`fileAction`, `dirAction`). It walks a directory recursively:

- an optional pre-order `dirAction`;
- `opendir`;
- a `readdir` loop that skips `.` and `..` and builds each child path with one `/` and a
  `PATH_MAX` check;
- an optional post-order `dirAction`.

It folds all this into one `TRUE`/`FALSE` result.

The model has these parts:

- `paths.dfy` (module `Paths`): the child-path join and the length tests.
- `fs_tree.dfy` (module `FsTree`) covers the filesystem as a finite tree:
  - nodes: files, symlinks with their targets, directories with an openable flag and their
    listing in `readdir` order, and entries that cannot be stat'ed;
  - the `stat`/`lstat` views;
  - the callbacks, as optional functions of the path and file type returning
    `True`/`False`/`Skip`;
  - the observable events: callback calls, `perror_msg` reports, and the name-too-long
    message.
- `walker.dfy` (module `Walker`) has two layers:
  - `Walk`/`WalkDir`/`WalkEntries`, the specification of one call as the result together with
    the event trace;
  - `RecursiveAction` with its readdir loop `ReadDir`, written the way the C function is
    (early returns and a `while` loop updating a status accumulator), each proved equal to
    the specification.
- `util.dfy` (module `Util`): an option type and two facts about sequence concatenation.
- `properties.dfy` (module `WalkProperties`) and `scenarios.dfy` (module `WalkScenarios`):
  lemmas about the specification, and worked examples.

Where the usual description of the walker and its code disagree, the model follows the code:

- a child returning `FALSE` never stops its siblings; the parent only records the failure;
- a child path that is too long abandons the remaining siblings *and* the post-order
  `dirAction`;
- `SKIP` is only acted on by the pre-order `dirAction`; elsewhere it is passed through or
  counts as success.

## Model

| member | source | states |
|---|---|---|
| Walker.RecursiveAction | libbb/recursive_action.c:51-150 | the method returns exactly the status and events of the specification `Walk` for every tree, flag combination and pair of callbacks |
| Walker.ReadDir | libbb/recursive_action.c:112-133 | the readdir loop returns exactly `WalkEntries`: whether some child returned FALSE, the events, and whether a too-long name ended the loop |
| Walker.StatFor | libbb/recursive_action.c:65-68 | computes stat when links are followed and lstat otherwise; described by `FsTree.Stat`, `FsTree.Lstat` and `WalkProperties.StatFailsExactly` |
| Walker.FileCall | libbb/recursive_action.c:81-84 | computes fileAction's value and its one call event, or TRUE and no event when fileAction is NULL (also lines 144-147); described by `WalkProperties.UnfollowedLink` and `WalkProperties.NonDirectory` |
| Walker.DirCall | libbb/recursive_action.c:89-92 | computes dirAction's value and its one call event, or TRUE and no event when dirAction is NULL; described by `WalkProperties.NonRecursiveDirectory`, `WalkProperties.PreOrder` and `WalkProperties.PostOrder` |
| Walker.WalkEntries | libbb/recursive_action.c:113-133 | computes the readdir loop over the remaining entries: dots skipped, the first too-long name ends it, every other child walked and its FALSE recorded; described by `WalkProperties.EntriesSplit`, `WalkProperties.EntriesFailIff`, `WalkProperties.TooLongStopsSiblings`, `WalkProperties.ChildWalked` and `WalkProperties.EntriesIgnoreDots` |
| Walker.Walk | libbb/recursive_action.c:96-142 | a directory that is walked recursively never yields SKIP |
| Walker.WalkDir | libbb/recursive_action.c:99-142 | the result of a directory walk is TRUE or FALSE, never SKIP, whatever the callbacks return |
| Paths.Join | libbb/recursive_action.c:124-128 | computes the child path, adding a '/' only when the parent does not end in one; described by `Paths.JoinShape` and `Paths.JoinInSubtree` |
| Paths.FitsAsWritten | libbb/recursive_action.c:120 | the length test of line 120 as written, counting strlen of parent and name plus one; described by `Paths.AsWrittenDiffersOnlyAtBoundary` and `Paths.AsWrittenOverflowWitness` |
| Paths.Fits | libbb/recursive_action.c:120-128 | the test the buffer needs: the joined path and its NUL fit in PATH_MAX bytes; described by `Paths.ChildPath` and `Paths.AsWrittenDiffersOnlyAtBoundary` |
| Paths.JoinShape | libbb/recursive_action.c:124-128 | the child path starts with the parent and ends with the name, with exactly one '/' between them, added only when the parent does not already end in '/' |
| Paths.JoinInSubtree | libbb/recursive_action.c:124-128 | the child path lies in the parent's subtree: the parent followed by a '/' and the name |
| Paths.SubtreeNeedsSeparator | libbb/recursive_action.c:124-128 | with the '/' the join puts after the parent, "/ab" is not in the subtree of "/a", while "/a/b" is, whether or not the parent ends in '/' |
| Paths.ChildPath | libbb/recursive_action.c:120-128 | the child path is the join when it fits the buffer with its NUL; it is never built when the length test of line 120 fails |
| Paths.AsWrittenDiffersOnlyAtBoundary | libbb/recursive_action.c:120-128 | the length test as written and the test the buffer needs disagree exactly when parent + name + 1 equals PATH_MAX and a '/' must be added |
| Paths.AsWrittenOverflowWitness | libbb/recursive_action.c:120-128 | a 4000-byte parent and a 95-byte name pass the test as written, although the joined path and its NUL need PATH_MAX + 1 bytes |
| FsTree.Lstat | libbb/recursive_action.c:65-70 | lstat fails exactly on the empty path and on an unstatable entry, and otherwise reports the entry itself |
| FsTree.Stat | libbb/recursive_action.c:65-70 | on a non-empty path, stat reports a non-link entry as itself and fails on an unstatable one; on a link it reports what stat of the link's target reports; it never reports a symlink, fails on the empty path, and finds a node no larger than the one named |
| FsTree.Resolve | libbb/recursive_action.c:65-68 | a node that is not a followed link resolves to itself, or fails when it is unstatable; a followed link resolves as its target does; a successful lookup that follows links ends on a non-link that can be stat'ed |
| WalkProperties.StatFailure | libbb/recursive_action.c:65-78 | when stat/lstat fails, no callback runs, exactly one error names the path, and the result is FALSE |
| WalkProperties.StatFailsExactly | libbb/recursive_action.c:65-70 | stat/lstat fails exactly on the empty path, on an unstatable entry, or (with stat) on a link whose target cannot be reached |
| WalkProperties.UnfollowedLink | libbb/recursive_action.c:80-85 | not following links, a symlink is passed only to fileAction, whose value is returned unchanged (TRUE with no fileAction), whatever it points to and whatever recurse says |
| WalkProperties.FollowedLink | libbb/recursive_action.c:65-66 | following links, a link is walked exactly as its target |
| WalkProperties.NonRecursiveDirectory | libbb/recursive_action.c:87-94 | without recursion, a directory gets exactly one dirAction call whose value is returned (TRUE with no dirAction), and no entry is looked at |
| WalkProperties.NonDirectory | libbb/recursive_action.c:143-148 | a non-directory goes to fileAction with or without recursion, and its value is returned unchanged |
| WalkProperties.NoDots | libbb/recursive_action.c:116-119 | the filtered listing holds exactly the entries not named "." or ".." |
| WalkProperties.EntriesIgnoreDots | libbb/recursive_action.c:116-119 | the readdir loop over a listing equals the loop over the listing without "." and ".." |
| WalkProperties.DirectoryIgnoresDots | libbb/recursive_action.c:116-119 | a directory walks identically whether or not its listing contains "." and ".."; they never reach a callback and are never entered |
| WalkProperties.WalkDirByListing | libbb/recursive_action.c:107-142 | a directory's walk depends on its listing only through the outcome of the readdir loop |
| WalkProperties.WalkStaysUnder | libbb/recursive_action.c:124-130 | every callback call and report of a walk names the walked path or a path in its subtree (a '/' always separates the walked path from the rest: "/ab" is not under "/a") |
| WalkProperties.WalkDirStaysUnder | libbb/recursive_action.c:96-142 | every event of a directory walk names the directory or a path in its subtree |
| WalkProperties.EntriesStayUnder | libbb/recursive_action.c:113-133 | every event of the readdir loop names a path in the directory's subtree |
| WalkProperties.EntriesSplit | libbb/recursive_action.c:113-133 | the loop over two listings in a row is the first loop followed by the second, unless the first gave up on a too-long name; a failed child never stops the siblings after it |
| WalkProperties.AbandonedEndsWithNameTooLong | libbb/recursive_action.c:120-123 | a loop that gave up ends with the name-too-long report |
| WalkProperties.TooLongStopsSiblings | libbb/recursive_action.c:120-123 | at the first entry whose path does not fit, the loop appends the name-too-long report and gives up; the entries after it are never looked at, whatever they are |
| WalkProperties.ChildWalked | libbb/recursive_action.c:120-132 | a child that fits is walked at the joined path, always recursively and with the parent's follow and depth-first choices; only FALSE from it records a failure |
| WalkProperties.EntriesFailIff | libbb/recursive_action.c:129-133 | a loop that ran to its end failed exactly when some walked child returned FALSE; SKIP from a child counts as success |
| WalkProperties.WalkDirUnopened | libbb/recursive_action.c:107-111 | a directory that cannot be opened is reported and fails after its pre-order dirAction, with no entry visited |
| WalkProperties.WalkDirAbandoned | libbb/recursive_action.c:120-123 | a directory whose loop gave up fails after the loop's events, with no post-order dirAction |
| WalkProperties.WalkDirCompleted | libbb/recursive_action.c:134-142 | a directory whose loop ran to its end calls the post-order dirAction, reports and fails when it returns FALSE, and otherwise fails exactly when the loop did |
| WalkProperties.WalkIsWalkDir | libbb/recursive_action.c:96-98 | a directory walked recursively is handled by the directory branch on what stat/lstat found |
| WalkProperties.PreOrder | libbb/recursive_action.c:99-106 | in pre-order, dirAction is the first event; FALSE reports and fails, and SKIP succeeds, with no entry visited |
| WalkProperties.UnopenableDirectory | libbb/recursive_action.c:107-111 | a directory that cannot be opened yields FALSE and one report, after the pre-order dirAction if there is one |
| WalkProperties.PostOrder | libbb/recursive_action.c:134-140 | depth-first, dirAction runs once after all entries whether or not they failed, and a report follows exactly when it returns FALSE |
| WalkProperties.TooLongEndsDirectory | libbb/recursive_action.c:120-123 | a too-long child path makes the directory FALSE, with the name-too-long report as its last event, so no post-order dirAction runs |
| WalkProperties.DirectoryResult | libbb/recursive_action.c:107-149 | a directory walked to its end returns FALSE exactly when it could not be opened, some child returned FALSE, or the post-order dirAction returned FALSE, and TRUE otherwise |
| WalkProperties.OrderAgnostic | libbb/recursive_action.c:99-140 | when dirAction never stops the walk, depth-first and pre-order walks return the same value and make the same file visits and reports in the same order |
| WalkProperties.OrderAgnosticDir | libbb/recursive_action.c:99-142 | the same for one directory |
| WalkProperties.OrderAgnosticEntries | libbb/recursive_action.c:113-133 | the same for the readdir loop, including whether it failed or gave up |
| WalkProperties.SameEventsEitherOrder | libbb/recursive_action.c:99-140 | on a tree where everything can be stat'ed and opened and every path fits, with a dirAction that never stops the walk, depth-first and pre-order walks make the same events the same number of times |
| WalkProperties.SameDirEitherOrder | libbb/recursive_action.c:99-140 | the same for one directory |
| WalkProperties.DirTraceWhenNeverStopped | libbb/recursive_action.c:99-140 | with a dirAction that never stops the walk, a directory's one dirAction call comes first in pre-order and last depth-first |
| WalkProperties.SameEntriesEitherOrder | libbb/recursive_action.c:113-133 | the same multiset of events for the readdir loop |
| WalkProperties.HealthyNotAbandoned | libbb/recursive_action.c:120-123 | when every child path fits, the readdir loop runs to its end |
| WalkScenarios.SamplePaths | libbb/recursive_action.c:124-128 | the join of the sample tree produces "/a/f1", "/a/d1" and "/a/d1/f2" |
| WalkScenarios.SampleRootEntries | libbb/recursive_action.c:113-133 | the loop over a listing with "." and ".." visits f1 and then d1, skipping the dots |
| WalkScenarios.SampleD1Entries | libbb/recursive_action.c:113-133 | the loop over d1 visits f2 |
| WalkScenarios.PreOrderSample | libbb/recursive_action.c:99-133 | in pre-order, each directory's dirAction precedes its entries |
| WalkScenarios.DepthFirstSample | libbb/recursive_action.c:113-140 | depth-first, each directory's dirAction follows its entries |
| WalkScenarios.UnopenableSample | libbb/recursive_action.c:107-132 | an unopenable subdirectory is reported once and fails the walk, after its earlier sibling f1 was visited |
| WalkScenarios.FailureDoesNotStopSample | libbb/recursive_action.c:129-132 | a file whose fileAction returns FALSE does not stop the walk of later entries; only the result records it |
| WalkScenarios.UnfollowedLinkSample | libbb/recursive_action.c:80-85 | not following links, a link to a directory goes to fileAction as a symlink and is never entered |
| WalkScenarios.FollowedLinkSample | libbb/recursive_action.c:65-66 | following links, the same link is walked as the directory it points to |

## Left out

- `debianutils/which.c`: its command-line plumbing wraps lookups that are not part of this model.
- The system calls `stat`, `lstat`, `opendir`, `readdir` and `closedir` are replaced by the tree.
  A directory either opens or does not, and its listing is fixed for the walk.
- The text of the error messages (`perror_msg`, `error_msg(name_too_long)`) and `errno`: each becomes a report event.
- `userData` and callback side effects: callbacks are pure functions of the path and file type.
  They receive the file type instead of the whole stat buffer.
- Callback values other than TRUE, FALSE and SKIP are not modelled.
  The `int` flags are modelled as booleans, so a flag that is neither TRUE nor FALSE is not modelled.
- Symlink cycles under `followLinks`: the code has no cycle detection, and the model's tree is finite.
- The directory stream left open on the name-too-long early return (line 122): a resource leak with no effect on the result or on the events.
- The `DEBUG_RECURS_ACTION` block (lines 71-75), which is compiled out.
- The byte-level `memset`/`sprintf` into the stack buffer: the child path is a sequence concatenation.
- `PATH_MAX` is fixed at 4096, the Linux value.
- Character encoding: a path is a C byte string and each char of the model stands for one byte, so `|p|` is `strlen(p)`. A name with multi-byte UTF-8 characters is as long here as its byte count; the model does not relate a path to any decoded text.
- Paths.ChildPath: uses the corrected length test. On the one boundary case where the source's test passes but the buffer overflows, the model reports the name as too long; the source has undefined behaviour there (see Findings).

## Findings

| source | as written | input that shows it | evidently intended | confidence | as-written member | corrected member |
|---|---|---|---|---|---|---|
| libbb/recursive_action.c:120-128 | the test `strlen(fileName) + strlen(name) + 1 > PATH_MAX` only reserves room for the NUL, but `sprintf` also writes a '/' when the parent does not end in one | a parent of 4000 'a' bytes and a name of 95 'b' bytes with PATH_MAX 4096: the test passes, and `sprintf` writes 4097 bytes into `char nextFile[4096]` | reserve room for the separator as well, i.e. reject when the joined path plus its NUL exceeds PATH_MAX | not executed | Paths.FitsAsWritten, Paths.AsWrittenOverflowWitness | Paths.ChildPath |
