# composer-stager core, modelled in Dafny

composer-stager stages Composer commands safely. The *active directory* (the live codebase) is
copied into a *staging directory*. Composer commands are run there, and the result is copied
back. This project models the logic that decides whether, and how, those steps may happen. It
proves properties of that model.

- **Path strings** (`path_util.dfy`, `windows_path.dfy`):
  - `PathUtil::stripTrailingSlash`, `ensureTrailingSlash` and `getPathRelativeToAncestor`.
  - Windows path resolution, written as a pure `Resolve(raw, base)`:
    - a raw path is anchored at a specific drive (`X:\...`), at the current drive (`\...`), or
      relative to the base;
    - the result is split on `\`;
    - empty and `.` segments are dropped, and `..` pops a segment but never the drive root.
- **The preconditions tree** (`preconditions_tree.dfy`, `preconditions.dfy`):
  - A precondition is a leaf or a tree of ordered children, evaluated against an oracle that says
    which leaves fail.
  - `isFulfilled`, `getStatusMessage`, `assertIsFulfilled` and `getLeaves` are defined once for
    all trees.
  - A per-tree policy says what a tree reports when a child fails. Older trees report their own
    unfulfilled message (`NoUnsupportedLinksExist`). Newer ones pass on the failing child's
    exception (`BeginnerPreconditions`, `StagingDirIsReady`, `ActiveDirIsReady`).
  - The concrete trees and the `ActiveDirIsWritable` leaf are built on top.
- **`CodeBaseContainsNoSymlinks`** (`codebase_symlinks.dfy`):
  - It scans the active directory, then the staging directory, over an abstract filesystem.
  - A missing directory counts as empty.
  - The first link found decides, and finder errors become the status message.
  - The module defines the scan as functions and as two loops proved equal to them. It also
    models the message field as the code writes it (see Findings).
- **`Stager::stage`** (`stager.dfy`):
  - The command is validated first, with the Composer command as an ordered PHP array of keyed
    entries.
  - Then the staging directory must exist and be writable.
  - Then the runner receives `array_merge(['--working-dir=' . $stagingDir], $command)`.
  - A runner exception is rethrown as `ProcessFailedException`.
- **`Beginner::begin`** (`beginner.dfy`): the preconditions are asserted once, then the syncer
  is called once. A syncer error becomes a `RuntimeException`.
- **Path exceptions** (`path_exceptions.dfy`, with the `sprintf` subset in `format.dfy`):
  - each class's default message template;
  - how a custom message is filled with the path.

The filesystem, PHP's `is_link`, the recursive file finder, the Composer runner and the file
syncer are parameters: `Filesystem.Filesystem`, `Stager.Runner` and `Beginner.Syncer`. The working
directory a path is resolved against is the explicit `base` argument.

## Model

| member | source | states |
|---|---|---|
| Format.NoPercentIsVerbatim | tests/Exception/PathExceptionsTest.php:60-68 | `sprintf` returns a template without `%` unchanged, whatever the arguments |
| Format.PlainPrefix | src/Infrastructure/Service/Precondition/CodeBaseContainsNoSymlinks.php:57-61 | text before the first conversion is copied unchanged and consumes no argument |
| Format.SubstituteHead | src/Infrastructure/Service/Precondition/CodeBaseContainsNoSymlinks.php:57-61 | a leading `%s` takes the first argument, and the rest of the template sees the remaining arguments |
| Format.MissingArgument | src/Infrastructure/Service/Precondition/CodeBaseContainsNoSymlinks.php:57-61 | a `%s` with no argument left makes `sprintf` fail (PHP 8's `ArgumentCountError`) |
| Format.SubstituteOne | tests/Exception/PathExceptionsTest.php:70-78 | one `%s` between plain texts is replaced by the first argument; extra arguments are ignored |
| Format.SubstituteTwo | src/Infrastructure/Service/Precondition/CodeBaseContainsNoSymlinks.php:57-61 | two `%s` receive the first and second arguments, in order |
| PathUtil.RTrimSlashes | src/Util/PathUtil.php:60 | `rtrim($path, '/\\')` is a prefix of the path that does not end in `/` or `\`; everything it removed is `/` or `\` |
| PathUtil.StripTrailingSlash | src/Util/PathUtil.php:53-68 | a drive root `X:` or `X:\` (either case) is unchanged; an empty or all-separator path is unchanged; otherwise the result is a non-empty prefix with no trailing separator, and only separators were removed |
| PathUtil.StripTrailingSlashIdempotent | src/Util/PathUtil.php:53-68 | stripping twice equals stripping once |
| PathUtil.EnsureTrailingSlash | src/Util/PathUtil.php:78-85 | the result always ends with `DIRECTORY_SEPARATOR`; `''` gives `.` plus the separator; roots and all-separator paths get the separator appended; otherwise the stripped path is followed by one separator |
| PathUtil.EnsureThenStrip | src/Util/PathUtil.php:78-85 | for a path with content that is not a drive root, and whose stripped form is not a drive root either (as it is for `C:/`), stripping after ensuring gives the plain stripped path |
| PathUtil.EnsureTrailingSlashDoublesRoots | src/Util/PathUtil.php:78-85 | roots get a second separator: `/` becomes `//` and `C:\` becomes `C:\\` |
| PathUtil.GetPathRelativeToAncestor | src/Util/PathUtil.php:35-42 | the result is a suffix of the path; when the path starts with `ensureTrailingSlash(ancestor)` it is that prefix followed by the result; otherwise the path is returned unchanged |
| PathUtil.RelativeToAncestorRoundTrip | src/Util/PathUtil.php:35-42 | prefixing a relative path with the ensured ancestor and stripping it again gives the relative path back |
| PathExceptions.New | tests/Exception/PathExceptionsTest.php:32-43 | `getPath()` is the given path and the code is kept; construction succeeds iff `sprintf(message or default, path)` does, and the message is that result |
| PathExceptions.WithPath | src/Domain/Core/Stager/Stager.php:86-89 | an exception built from a template with one `%s` has the path between the template's two texts, and equals what the constructor gives |
| PathExceptions.DefaultTemplateFilled | tests/Exception/PathExceptionsTest.php:50-58 | with no message given, the class's default template is filled with the path |
| PathExceptions.DefaultPathErrorMessage | tests/Exception/PathExceptionsTest.php:53 | the base `PathException` has the empty message by default |
| PathExceptions.DefaultDirectoryAlreadyExistsMessage | tests/Exception/PathExceptionsTest.php:54 | the default message is `Directory already exists: "<path>"` |
| PathExceptions.DefaultDirectoryNotFoundMessage | tests/Exception/PathExceptionsTest.php:55 | the default message is `No such directory: "<path>"` |
| PathExceptions.DefaultDirectoryNotWritableMessage | src/Exception/DirectoryNotWritableException.php:9-16 | the default message is `Directory not writable: "<path>"` |
| PathExceptions.DefaultFileNotFoundMessage | tests/Exception/PathExceptionsTest.php:57 | the default message is `No such file: "<path>"` |
| PathExceptions.CustomMessageVerbatim | tests/Exception/PathExceptionsTest.php:60-68 | every class uses a custom message without `%` verbatim |
| PathExceptions.CustomMessageSubstitutesPath | tests/Exception/PathExceptionsTest.php:70-78 | every class substitutes the path for the one `%s` of a custom message |
| PathExceptions.TwoPlaceholdersFail | tests/Exception/PathExceptionsTest.php:32-36 | only the path is passed to `sprintf`, so a template asking for two values fails in every class |
| WindowsPath.ExplodeImplode | tests/Path/Value/WindowsPathUnitTest.php:104-111 | joining the `\`-separated pieces of a string gives the string back |
| WindowsPath.ImplodeExplode | tests/Path/Value/WindowsPathUnitTest.php:104-111 | splitting joined separator-free pieces gives the pieces back |
| WindowsPath.ExplodeAtSeparator | tests/Path/Value/WindowsPathUnitTest.php:104-111 | the pieces of `a\b` are the pieces of `a` followed by those of `b` |
| WindowsPath.NormalizeIdempotent | tests/Path/Value/WindowsPathUnitTest.php:185-192 | normalizing a normalized path changes nothing |
| WindowsPath.NormalizeOfRooted | tests/Path/Value/WindowsPathUnitTest.php:169-184 | a drive root followed by plain segments is already normal |
| WindowsPath.ResolvedIsAbsoluteAndStable | tests/Path/Value/WindowsPathUnitTest.php:53-56 | against a drive-rooted base, every raw path resolves to a drive-rooted normal form, and resolving that again against any base gives it back |
| WindowsPath.EmptyOrDotIsBase | tests/Path/Value/WindowsPathUnitTest.php:71-86 | `''` and `.` resolve to the normalized base, which is the base itself when the base is already normal |
| WindowsPath.EmptyOrDotRelativeTo | tests/Path/Value/WindowsPathUnitTest.php:71-86 | `''` and `.` are not absolute, and `resolvedRelativeTo(other)` is the other path's resolved form |
| WindowsPath.RelativePlainIsAppended | tests/Path/Value/WindowsPathUnitTest.php:88-111 | a relative path of plain segments (including `' '`) extends the base's segments by its own, also at a bare drive root |
| WindowsPath.RelativePlainIsBaseSepPath | tests/Path/Value/WindowsPathUnitTest.php:88-111 | below a base that is not a bare root, a relative plain path resolves to base + `\` + path |
| WindowsPath.TrailingSeparatorDropped | tests/Path/Value/WindowsPathUnitTest.php:112-119 | a trailing `\` does not change the resolved path |
| WindowsPath.RepeatedSeparatorsCollapse | tests/Path/Value/WindowsPathUnitTest.php:120-127 | `\\` resolves like `\` |
| WindowsPath.DotSegmentVanishes | tests/Path/Value/WindowsPathUnitTest.php:152-159 | a `\.\` segment resolves like `\` |
| WindowsPath.NormalizeSkipsIgnored | tests/Path/Value/WindowsPathUnitTest.php:152-159 | an empty or `.` piece between separators is ignored by normalization |
| WindowsPath.PushThenPop | tests/Path/Value/WindowsPathUnitTest.php:128-135 | a plain segment followed by `..` leaves the segment stack as it was |
| WindowsPath.DotDotPopsSegment | tests/Path/Value/WindowsPathUnitTest.php:128-135 | `x\seg\..` resolves like `x` |
| WindowsPath.NormalizePushThenPop | tests/Path/Value/WindowsPathUnitTest.php:128-135 | normalization drops a trailing plain segment followed by `..` |
| WindowsPath.DotDotAtRootStays | tests/Path/Value/WindowsPathUnitTest.php:136-151 | at a drive root, `..` resolves to the root with its trailing `\`, and a leading `..\` before a relative path is ignored |
| WindowsPath.DotDotAtRoot | tests/Path/Value/WindowsPathUnitTest.php:144-151 | `..` against `X:\` gives `X:\` |
| WindowsPath.DotDotAtRootThen | tests/Path/Value/WindowsPathUnitTest.php:136-143 | `..\raw` against `X:\` resolves like `raw` |
| WindowsPath.NormalizeKeepsDrive | tests/Path/Value/WindowsPathUnitTest.php:161-168 | a drive-rooted path keeps its `X:\` through normalization |
| WindowsPath.SpecificDriveIgnoresBase | tests/Path/Value/WindowsPathUnitTest.php:160-192 | an `X:\...` path is absolute; `resolved` and `resolvedRelativeTo` both ignore the base and keep the path's own drive |
| WindowsPath.CurrentDriveTakesBaseDrive | tests/Path/Value/WindowsPathUnitTest.php:193-233 | a `\...` path is absolute and resolves as if prefixed by the base's drive, so the result starts with the base's `X:\` |
| WindowsPath.ExampleEmptyPath | tests/Path/Value/WindowsPathUnitTest.php:71-78 | `''` against `C:\Windows\One` gives `C:\Windows\One` |
| WindowsPath.ExampleRelative | tests/Path/Value/WindowsPathUnitTest.php:88-95 | `One` against `C:\Windows` gives `C:\Windows\One` |
| WindowsPath.ExampleDotDotAtRoot | tests/Path/Value/WindowsPathUnitTest.php:144-151 | `..` against `C:\` gives `C:\` |
| WindowsPath.ExampleSpecificDrive | tests/Path/Value/WindowsPathUnitTest.php:161-168 | `D:\` against `C:\` gives `D:\` |
| WindowsPath.ExampleCurrentDrive | tests/Path/Value/WindowsPathUnitTest.php:202-209 | `\One` against `C:\Windows` gives `C:\One` |
| PreconditionsTree.StatusMessage | tests/Infrastructure/Service/Precondition/PreconditionTestCase.php:49-68 | `getStatusMessage` is the fulfilled message when `isFulfilled` holds and the unfulfilled one otherwise (a newer tree's being its first unfulfilled child's status); for every precondition, at any depth, that unfulfilled status is exactly the message of the exception `assertIsFulfilled` throws |
| PreconditionsTree.FirstLeafFailure | tests/PHPUnit/Domain/Aggregate/PreconditionsTree/AbstractPreconditionsTreeUnitTest.php:141-210 | along a list of leaves there is no failure iff every leaf is fulfilled, and a failure is some leaf's exception |
| PreconditionsTree.FailureIsFirstLeafFailure | tests/PHPUnit/Domain/Aggregate/PreconditionsTree/AbstractPreconditionsTreeUnitTest.php:141-210 | a precondition throws iff one of its leaves (in `getLeaves` order) does; when every tree forwards, the exception is the first failing leaf's |
| PreconditionsTree.FulfilledIffAllLeavesFulfilled | tests/PHPUnit/Domain/Aggregate/PreconditionsTree/AbstractPreconditionsTreeUnitTest.php:141-210 | a tree is fulfilled iff every one of its leaves is, so one false leaf makes it false |
| PreconditionsTree.ForwardedMessageIsFirstFailingLeaf | tests/Precondition/Service/StagingDirIsReadyUnitTest.php:64-86 | when every tree forwards, an unfulfilled tree's status message and exception come from its first failing leaf, and all leaves before it are fulfilled |
| PreconditionsTree.FirstFailingIndex | tests/Precondition/Service/StagingDirIsReadyUnitTest.php:64-86 | a failing list of leaves has a first failing leaf that gives its exception |
| PreconditionsTree.LeafProbesArePrefix | tests/PHPUnit/Domain/Aggregate/PreconditionsTree/AbstractPreconditionsTreeUnitTest.php:148-156 | the leaves checked are a prefix of the leaves, in order, each with the caller's arguments |
| PreconditionsTree.LeafProbesStopAtFailure | tests/PHPUnit/Domain/Aggregate/PreconditionsTree/AbstractPreconditionsTreeUnitTest.php:148-156 | every checked leaf but the last is fulfilled; with no failure all leaves are checked; with a failure the last one checked is the first failing leaf |
| PreconditionsTree.ProbesFollowLeaves | tests/PHPUnit/Domain/Aggregate/PreconditionsTree/AbstractPreconditionsTreeUnitTest.php:148-156 | evaluating a tree of any depth checks leaves exactly as a walk along `getLeaves()` does |
| PreconditionsTree.FulfilledProbesEveryLeafOnce | tests/PHPUnit/Domain/Aggregate/PreconditionsTree/AbstractPreconditionsTreeUnitTest.php:148-156 | a fulfilled precondition checks each of its leaves exactly once, in order |
| PreconditionsTree.ProbesCarryContext | tests/Precondition/Service/StagingDirIsReadyUnitTest.php:54-59 | every leaf check receives the caller's (active, staging, exclusions, timeout) unchanged |
| PreconditionsTree.FirstFailureNoneIffAllChildren | tests/PHPUnit/Domain/Aggregate/PreconditionsTree/AbstractPreconditionsTreeUnitTest.php:158-209 | the walk over the children finds no failure iff every child is fulfilled |
| PreconditionsTree.FirstFailureAfterPassing | src/Infrastructure/Precondition/Service/BeginnerPreconditions.php:25-30 | once the children before `k` are fulfilled, the walk's verdict is child `k`'s failure, or the verdict on the rest |
| PreconditionsTree.TreeFulfilledIffChildren | tests/PHPUnit/Domain/Aggregate/PreconditionsTree/AbstractPreconditionsTreeUnitTest.php:158-209 | a tree is fulfilled iff each child is |
| PreconditionsTree.TreeReportsFirstFailingChild | tests/PHPUnit/Domain/Aggregate/PreconditionsTree/AbstractPreconditionsTreeUnitTest.php:77-131 | when child `k` is the first to fail, a forwarding tree throws that child's exception, and an older tree throws its own unfulfilled message |
| PreconditionsTree.ChildrenConcat | tests/PHPUnit/Domain/Aggregate/PreconditionsTree/AbstractPreconditionsTreeUnitTest.php:158-205 | the leaves of concatenated children are the parts' leaves concatenated, and the first failure is the first part's or else the second's |
| PreconditionsTree.OneChild | tests/PHPUnit/Domain/Aggregate/PreconditionsTree/AbstractPreconditionsTreeUnitTest.php:158-205 | a single child contributes its own leaves and its own failure |
| PreconditionsTree.NestingKeepsLeavesAndVerdict | tests/PHPUnit/Domain/Aggregate/PreconditionsTree/AbstractPreconditionsTreeUnitTest.php:158-205 | wrapping a precondition in one more tree keeps its leaves, its verdict and its leaf checks |
| PreconditionsTree.NestKeepsLeavesAndVerdict | tests/PHPUnit/Domain/Aggregate/PreconditionsTree/AbstractPreconditionsTreeUnitTest.php:158-205 | the same holds at any nesting depth |
| PreconditionsTree.SingleChildStatus | tests/PHPUnit/Domain/Aggregate/PreconditionsTree/AbstractPreconditionsTreeUnitTest.php:77-131 | a one-child tree reports its fulfilled message when the child holds; otherwise it reports its own unfulfilled message (older policy) or the child's message (newer policy) |
| Preconditions.TwoChildren | tests/Precondition/Service/StagingDirIsReadyUnitTest.php:26-45 | two children's leaves in order; the first failure is the first child's, else the second's |
| Preconditions.ThreeChildren | src/Infrastructure/Precondition/Service/BeginnerPreconditions.php:25-30 | three children's leaves in order, with the first failure found in child order |
| Preconditions.FourChildren | tests/Infrastructure/Aggregate/PreconditionsTree/NoUnsupportedLinksExistUnitTest.php:43-51 | four children's leaves in order, and no failure iff all four are fulfilled |
| Preconditions.BubblingLeaves | tests/PHPUnit/Domain/Aggregate/PreconditionsTree/AbstractPreconditionsTreeUnitTest.php:158-205 | four leaves under trees nested 0, 2, 4 and 10 deep are the tree's leaves, in order |
| Preconditions.BubblingExample | tests/PHPUnit/Domain/Aggregate/PreconditionsTree/AbstractPreconditionsTreeUnitTest.php:141-210 | with only the deepest leaf failing, the tree is unfulfilled, its leaves are the four in order, each leaf is checked once per evaluation, and `assertIsFulfilled` throws |
| Preconditions.BeginnerPreconditionsStructure | src/Infrastructure/Precondition/Service/BeginnerPreconditions.php:17-46 | fixed name and description; leaves are common, links, staging-does-not-exist in order; fulfilled iff all three are, with the fixed fulfilled message |
| Preconditions.BeginnerPreconditionsFirstFailure | src/Infrastructure/Precondition/Service/BeginnerPreconditions.php:25-30 | the exception is the common check's if it fails, else the link check's, else the staging-directory check's |
| Preconditions.TwoChildForwardingTree | tests/Precondition/Service/StagingDirIsReadyUnitTest.php:48-86 | a forwarding two-child tree: leaves concatenated; both fulfilled gives the tree's fulfilled message; a failing first child gives that child's exception and message; every leaf check gets the same arguments |
| Preconditions.StagingDirIsReadyBehaviour | tests/Precondition/Service/StagingDirIsReadyUnitTest.php:48-86 | leaves are exists then writable; both fulfilled gives "The staging directory is ready to use."; a failing first child's message and exception are forwarded |
| Preconditions.ActiveDirIsReadyBehaviour | tests/Precondition/Service/ActiveDirIsReadyUnitTest.php:20-81 | the declared name and description; leaves are exists then writable; both fulfilled gives "The active directory is ready to use."; a failing first child makes it unfulfilled with that child's message |
| Preconditions.NoUnsupportedLinksExistBehaviour | tests/Infrastructure/Aggregate/PreconditionsTree/NoUnsupportedLinksExistUnitTest.php:43-85 | fulfilled iff all four link checks are, with "There are no unsupported links in the codebase."; otherwise its own exception with "There are unsupported links in the codebase."; leaves in child order |
| Preconditions.ActiveDirIsWritableBehaviour | tests/Precondition/Service/ActiveDirIsWritableUnitTest.php:43-59 | fulfilled iff the filesystem says the active directory is writable; "The active directory is writable." or "The active directory is not writable.", the latter also in the exception |
| CodebaseSymlinks.Directories | src/Infrastructure/Service/Precondition/CodeBaseContainsNoSymlinks.php:38-41 | the active directory labelled `active`, then the staging directory labelled `staging` |
| CodebaseSymlinks.SymlinkMessage | src/Infrastructure/Service/Precondition/CodeBaseContainsNoSymlinks.php:57-61 | the message is `sprintf` of the template with the directory's label and path, in that order |
| CodebaseSymlinks.SymlinkMessageHasNoPercent | src/Infrastructure/Service/Precondition/CodeBaseContainsNoSymlinks.php:57-61 | a filled message holds no `%` unless the label or the path does |
| CodebaseSymlinks.FindFiles | src/Infrastructure/Service/Precondition/CodeBaseContainsNoSymlinks.php:89-97 | a missing directory gives no files without asking the finder; otherwise the finder's answer |
| CodebaseSymlinks.HasLinkIffSomeLink | src/Infrastructure/Service/Precondition/CodeBaseContainsNoSymlinks.php:55-64 | the loop finds a link iff some file is a link |
| CodebaseSymlinks.UpToFirstLink | src/Infrastructure/Service/Precondition/CodeBaseContainsNoSymlinks.php:55-64 | the files examined are a prefix that ends at the first link, or all files when there is none |
| CodebaseSymlinks.OnlyLastExaminedIsLink | src/Infrastructure/Service/Precondition/CodeBaseContainsNoSymlinks.php:55-64 | no file examined before the last one is a link |
| CodebaseSymlinks.ScanDir | src/Infrastructure/Service/Precondition/CodeBaseContainsNoSymlinks.php:43-66 | one directory passes iff its search succeeds with no link; the finder is asked only if it exists; a finder error gives its message and examines nothing; a link gives the symlink message naming the directory |
| CodebaseSymlinks.FirstDirDecides | src/Infrastructure/Service/Precondition/CodeBaseContainsNoSymlinks.php:43-66 | a directory that is not clean ends the scan; a clean one is followed by the scan of the rest |
| CodebaseSymlinks.CheckSteps | src/Infrastructure/Service/Precondition/CodeBaseContainsNoSymlinks.php:36-69 | `isFulfilled` is the active directory's step, followed by the staging directory's only when the active one is clean |
| CodebaseSymlinks.ScanFulfilledIffAllClean | src/Infrastructure/Service/Precondition/CodeBaseContainsNoSymlinks.php:43-68 | the scan over any directory list passes iff every directory is clean |
| CodebaseSymlinks.FulfilledIffNoLinks | src/Infrastructure/Service/Precondition/CodeBaseContainsNoSymlinks.php:36-69 | `isFulfilled` is true iff both searches succeed and neither finds a link |
| CodebaseSymlinks.MissingDirectoryIgnored | src/Infrastructure/Service/Precondition/CodeBaseContainsNoSymlinks.php:89-97 | a missing directory contributes nothing: the verdict is the other directory's, and the finder is not asked about it |
| CodebaseSymlinks.LinkInActiveDirectory | src/Infrastructure/Service/Precondition/CodeBaseContainsNoSymlinks.php:55-64 | a link in the active directory gives the active message; the staging directory is not searched; files are examined up to the link |
| CodebaseSymlinks.LinkInStagingDirectory | src/Infrastructure/Service/Precondition/CodeBaseContainsNoSymlinks.php:38-66 | with a clean active directory, a link in the staging directory gives the staging message after all active files were examined |
| CodebaseSymlinks.FinderErrorBecomesMessage | src/Infrastructure/Service/Precondition/CodeBaseContainsNoSymlinks.php:44-53 | a finder error is not raised: the result is false, the message is the error's, and an active-directory error stops the scan before the staging directory |
| CodebaseSymlinks.CodebaseContainsNoSymlinksBehaviour | src/Infrastructure/Service/Precondition/CodeBaseContainsNoSymlinks.php:36-81 | as a leaf: fulfilled iff both directories are clean, with "The codebase contains no symlinks."; otherwise the scan's message as status and in the exception |
| CodebaseSymlinks.ExamineFiles | src/Infrastructure/Service/Precondition/CodeBaseContainsNoSymlinks.php:55-65 | the inner loop reports a link iff there is one, and examines the files up to the first link |
| CodebaseSymlinks.ScanForSymlinks | src/Infrastructure/Service/Precondition/CodeBaseContainsNoSymlinks.php:36-69 | the outer loop returns the verdict, the directories searched and the files examined, exactly as the functional scan does |
| CodebaseSymlinks.IsFulfilledAsWritten | src/Infrastructure/Service/Precondition/CodeBaseContainsNoSymlinks.php:36-69 | as written: when it returns true the message field is left as it was |
| CodebaseSymlinks.FreshInstanceAgrees | src/Infrastructure/Service/Precondition/CodeBaseContainsNoSymlinks.php:36-69 | on a fresh instance the field-based code gives the same verdict and message as the functional scan |
| CodebaseSymlinks.FilledFieldSticks | src/Infrastructure/Service/Precondition/CodeBaseContainsNoSymlinks.php:57-61 | once the field holds a message without `%`, any later link reports that message unchanged |
| CodebaseSymlinks.StaleMessageOnSecondCall | src/Infrastructure/Service/Precondition/CodeBaseContainsNoSymlinks.php:50-61 | a second call with a link only in the staging directory reports the first call's active-directory message, where the scan reports the staging directory |
| Stager.Renumber | src/Domain/Core/Stager/Stager.php:100-103 | `array_merge` keeps values, order and string keys, and gives every integer key a new index of at least `next` |
| Stager.RenumberIncreasing | src/Domain/Core/Stager/Stager.php:100-103 | renumbered integer keys strictly increase in order of appearance |
| Stager.RenumberIntKeys | src/Domain/Core/Stager/Stager.php:100-103 | an array with only integer keys is renumbered `next`, `next + 1`, ... |
| Stager.RenumberConsecutive | src/Domain/Core/Stager/Stager.php:100-103 | in an array that mixes key types, the k-th integer-keyed entry (counted among the integer-keyed positions, in order) gets the key `next + k` |
| Stager.PrependArgument | src/Domain/Core/Stager/Stager.php:100-103 | the merged array is one entry longer, with the new argument at integer key 0 first |
| Stager.PrependArgumentValues | src/Domain/Core/Stager/Stager.php:100-105 | the runner's values are the new argument followed by the command's values, unchanged and in order |
| Stager.PrependArgumentStringKeys | src/Domain/Core/Stager/Stager.php:100-103 | the merged array has exactly the command's string keys |
| Stager.PrependArgumentDistinct | src/Domain/Core/Stager/Stager.php:100-103 | merging a valid array gives a valid array with no repeated key |
| Stager.PrependArgumentToList | src/Domain/Core/Stager/Stager.php:100-103 | for a list, the merge is the list with the argument in front |
| Stager.ListHasNoOptionKeys | src/Domain/Core/Stager/Stager.php:72-75 | a list never has a `--working-dir` or `-d` key, because the check reads keys and not values |
| Stager.ValidateCommand | src/Domain/Core/Stager/Stager.php:64-76 | passes iff the command is non-empty, its first value is not `composer`, and there is no `--working-dir` or `-d` key; each failure gives its own `InvalidArgumentException` message, checked in that order |
| Stager.ValidateStagingDir | src/Domain/Core/Stager/Stager.php:82-91 | passes iff the directory exists and is writable; a missing one gives `DirectoryNotFoundException`, an existing unwritable one `DirectoryNotWritableException`, each with its filled message |
| Stager.Stage | src/Domain/Core/Stager/Stager.php:36-44 | the runner is called iff both validations pass, with the working-dir command and the caller's callback and timeout; `stage` succeeds iff the runner does |
| Stager.StageWithDefaults | src/Domain/Core/Stager/Stager.php:36-41 | by default the runner gets no callback and the 120-second timeout |
| Stager.CommandValidatedFirst | src/Domain/Core/Stager/Stager.php:42-57 | an invalid command gives its error whatever the filesystem says, and the runner is not called |
| Stager.StagingDirChecked | src/Domain/Core/Stager/Stager.php:82-91 | for a valid command: a missing directory gives not-found, an unwritable one not-writable, and the runner is not called |
| Stager.RunnerCall | src/Domain/Core/Stager/Stager.php:98-109 | the runner gets `--working-dir=<staging>` and the command's values, with the caller's callback and timeout; a runner exception becomes `ProcessFailedException` with the same message and code and the original as previous |
| Stager.ListCommandRun | src/Domain/Core/Stager/Stager.php:98-105 | for a list command the runner receives the list `['--working-dir=<staging>', ...command]` |
| Beginner.Begin | tests/PHPUnit/Core/BeginnerUnitTest.php:69-87 | preconditions asserted exactly once with (active, staging, exclusions); the syncer called at most once, only when they hold, with all five arguments passed through; success iff the sync succeeds |
| Beginner.BeginWithDefaults | tests/PHPUnit/Core/BeginnerUnitTest.php:51-62 | the defaults are no exclusions, no callback and the default timeout |
| Beginner.PreconditionFailurePassesThrough | tests/PHPUnit/Core/BeginnerUnitTest.php:110-122 | an unfulfilled tree's exception surfaces unchanged, with the tree's status message |
| Beginner.SyncErrorWrapped | tests/PHPUnit/Core/BeginnerUnitTest.php:129-155 | a syncer `InvalidArgumentException` or `IOException` becomes a `RuntimeException` with the same message and the original as previous |
| Beginner.BeginReportsFirstFailingGroup | src/Infrastructure/Precondition/Service/BeginnerPreconditions.php:25-30 | with the beginner tree, `begin` reports the common check's failure, else the link check's, else the staging check's, and syncs nothing |

## Left out

- Translation and translatable messages: every message is a plain string.
- The real filesystem, `is_link`, the recursive finder, the Composer runner and the file syncer.
  They are parameters, so their own behaviour (including the sync algorithm and
  timeouts inside it) is not modelled.
- Working-directory capture and a path's immutability after `chdir`: the base is always an
  explicit argument.
- The Symfony console wiring (`src/Console/Application.php`) and the code-sniffer rule
  (`tools/phpcs/...`). These are tooling, not product logic.
- The process wrappers (`RsyncRunner`, `ComposerRunner`, `ComposerProcessProcessRunner`,
  `ProcessFactory`) are left out apart from the default timeout of 120 seconds
  (`src/Infrastructure/Process/Runner/RsyncRunnerInterface.php:43`). `ComposerIsAvailableInterface`
  is left out because it has no behaviour.
- `NoHardLinksExist` is left out: its unfulfilled behaviour is still a to-do in its unit test.
  It appears only as an opaque child of the link tree.
- Format.Sprintf: only `%s` and `%%` are interpreted. A `%` followed by any other character,
  and a `%` at the very end, are copied as ordinary characters. PHP differs there: `%d`, `%5s`
  and `%1$s` consume arguments, and a trailing or unknown specifier raises `ValueError`. The
  modelled templates use only `%s`.
- Stager.Renumber: numeric-string keys, which PHP converts to integers, are not modelled. A key
  is either an integer or a non-numeric string.
- WindowsPath.Resolve: only `\` is a separator; `/` is treated as an ordinary character.
- WindowsPath.TrailingSeparatorDropped and WindowsPath.DotDotPopsSegment: stated only when the
  edit does not change how the raw path is anchored. For example, `''` plus `\` is the absolute
  path `\`.
- Beginner.Begin: the preconditions are asserted with no timeout. The `begin` revision modelled
  here passes only (active, staging, exclusions) to `assertIsFulfilled`.
- Leaf and tree names, descriptions and messages that appear neither in
  `BeginnerPreconditions.php` nor in the unit tests are stand-ins:
  - `StagingDirIsReady`'s name and description;
  - `NoUnsupportedLinksExist`'s name and description;
  - `ActiveDirIsWritable`'s name and description;
  - `CodeBaseContainsNoSymlinks`'s leaf identity.
  No property depends on their text.
- Evaluation order of a tree: trees stop at the first failing child in every query. The unit
  tests check only the verdict, and that each leaf is called once when the failing leaf is last,
  so they hold either way. The verdict, messages and exceptions do not depend on the order; only
  the leaf-check trace does (PreconditionsTree.LeafProbesStopAtFailure).
- `AbstractPreconditionsTree` and `AbstractPrecondition`: their `isFulfilled`,
  `getStatusMessage`, `assertIsFulfilled` and `getLeaves` are modelled in `preconditions_tree.dfy`,
  with the behaviour inferred from the unit tests cited in the table.

## Findings

| source | as written | input that shows it | evidently intended | confidence | as-written member | corrected member |
|---|---|---|---|---|---|---|
| src/Infrastructure/Service/Precondition/CodeBaseContainsNoSymlinks.php:50-61 | The unfulfilled-message template lives in an instance field. A link overwrites the field with `sprintf(field, name, path)`, and a finder error overwrites it with the error's message, so a later call on the same (shared) service formats the previous message instead of the template. | First call: the only link is `\a\l`, in active directory `\a`, and the message names the active directory. Second call: the only link is `\s\l`, in staging directory `\s`. It still reports `The active directory at "\a" contains symlinks...`. | Every call fills the original template, so the second call names the staging directory `\s`. | not executed | CodebaseSymlinks.StaleMessageOnSecondCall | CodebaseSymlinks.LinkInStagingDirectory |
