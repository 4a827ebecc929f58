/** `Stager::stage`: validate the Composer command, check the staging
    directory, then run Composer in the staging directory by prepending a
    `--working-dir=` argument. Errors from the runner are rewrapped. */
module Stager {
  import opened Wrappers
  import opened Filesystem
  import opened PathExceptions
  import opened Process

  // ---------------------------------------------------------------------
  // PHP arrays

  /** A PHP array key: an integer or a (non-numeric) string. */
  datatype Key = IntKey(index: int) | StrKey(name: string)

  datatype Entry = Entry(key: Key, value: string)

  /** The command as an ordered PHP array of strings. */
  type Command = seq<Entry>

  /** A PHP array never holds the same key twice. */
  predicate DistinctKeys(cmd: Command) {
    forall i, j | 0 <= i < j < |cmd| :: cmd[i].key != cmd[j].key
  }

  /** `array_key_exists`. */
  predicate HasKey(cmd: Command, k: Key) {
    exists i | 0 <= i < |cmd| :: cmd[i].key == k
  }

  /** The array's values, in order. */
  function Values(cmd: Command): (vs: seq<string>)
    ensures |vs| == |cmd|
    ensures forall i | 0 <= i < |cmd| :: vs[i] == cmd[i].value
  {
    seq(|cmd|, i requires 0 <= i < |cmd| => cmd[i].value)
  }

  /** A list: the values keyed `0`, `1`, ... in order, as
      `['require', 'foo/bar']` is. */
  function FromList(args: seq<string>): (cmd: Command)
    ensures |cmd| == |args|
    ensures forall i | 0 <= i < |args| :: cmd[i] == Entry(IntKey(i), args[i])
  {
    seq(|args|, i requires 0 <= i < |args| => Entry(IntKey(i), args[i]))
  }

  /** The number of integer keys among the first `n` entries. */
  function IntKeyCount(cmd: Command, n: nat): (c: nat)
    requires n <= |cmd|
    ensures c <= n
  {
    if n == 0 then 0
    else IntKeyCount(cmd, n - 1) + (if cmd[n - 1].key.IntKey? then 1 else 0)
  }

  /** The integer keys of `array_merge`'s result: the integer keys are
      renumbered from `next` in order of appearance, string keys are kept. */
  function Renumber(cmd: Command, next: int): (r: Command)
    ensures |r| == |cmd|
    ensures forall i | 0 <= i < |cmd| :: r[i].value == cmd[i].value
    ensures forall i | 0 <= i < |cmd| :: cmd[i].key.StrKey? ==> r[i].key == cmd[i].key
    ensures forall i | 0 <= i < |cmd| :: cmd[i].key.IntKey? ==> r[i].key.IntKey? && r[i].key.index >= next
  {
    seq(|cmd|, i requires 0 <= i < |cmd| =>
      if cmd[i].key.IntKey? then Entry(IntKey(next + IntKeyCount(cmd, i)), cmd[i].value) else cmd[i])
  }

  /** Counting over a longer prefix never gives less. */
  lemma {:induction false} IntKeyCountMonotone(cmd: Command, m: nat, n: nat)
    requires m <= n <= |cmd|
    ensures IntKeyCount(cmd, m) <= IntKeyCount(cmd, n)
    decreases n
  {
    if m < n {
      IntKeyCountMonotone(cmd, m, n - 1);
    }
  }

  /** Renumbering hands out strictly increasing integer keys: one pair. */
  lemma RenumberIncreasingAt(cmd: Command, next: int, i: int, j: int)
    requires 0 <= i < j < |cmd| && cmd[i].key.IntKey? && cmd[j].key.IntKey?
    ensures Renumber(cmd, next)[i].key.index < Renumber(cmd, next)[j].key.index
  {
    IntKeyCountMonotone(cmd, i + 1, j);
    assert IntKeyCount(cmd, i + 1) == IntKeyCount(cmd, i) + 1;
  }

  /** Renumbering hands out strictly increasing integer keys. */
  lemma RenumberIncreasing(cmd: Command, next: int)
    ensures forall i, j | 0 <= i < j < |cmd| && cmd[i].key.IntKey? && cmd[j].key.IntKey? ::
              Renumber(cmd, next)[i].key.index < Renumber(cmd, next)[j].key.index
  {
    forall i, j | 0 <= i < j < |cmd| && cmd[i].key.IntKey? && cmd[j].key.IntKey?
      ensures Renumber(cmd, next)[i].key.index < Renumber(cmd, next)[j].key.index
    {
      RenumberIncreasingAt(cmd, next, i, j);
    }
  }

  /** The positions of the integer-keyed entries among the first `n`, in
      increasing order: exactly those positions, each once. */
  function IntKeyPositions(cmd: Command, n: nat): (ps: seq<nat>)
    requires n <= |cmd|
    ensures forall k | 0 <= k < |ps| :: ps[k] < n && cmd[ps[k]].key.IntKey?
    ensures forall k, l | 0 <= k < l < |ps| :: ps[k] < ps[l]
    ensures forall i | 0 <= i < n && cmd[i].key.IntKey? :: i in ps
  {
    if n == 0 then []
    else IntKeyPositions(cmd, n - 1) + (if cmd[n - 1].key.IntKey? then [n - 1] else [])
  }

  /** Before the k-th integer-keyed entry there are exactly k others. */
  lemma {:induction false} CountAtPositions(cmd: Command, n: nat)
    requires n <= |cmd|
    ensures |IntKeyPositions(cmd, n)| == IntKeyCount(cmd, n)
    ensures forall k | 0 <= k < |IntKeyPositions(cmd, n)| ::
              IntKeyCount(cmd, IntKeyPositions(cmd, n)[k]) == k
    decreases n
  {
    if n > 0 {
      CountAtPositions(cmd, n - 1);
    }
  }

  /** `array_merge` numbers the integer keys `next`, `next + 1`, ... in order
      of appearance, whatever string keys lie between them: the k-th
      integer-keyed entry gets the key `next + k`. */
  lemma RenumberConsecutive(cmd: Command, next: int)
    ensures forall k | 0 <= k < |IntKeyPositions(cmd, |cmd|)| ::
              Renumber(cmd, next)[IntKeyPositions(cmd, |cmd|)[k]].key == IntKey(next + k)
  {
    CountAtPositions(cmd, |cmd|);
  }

  /** `array_merge([$first], $cmd)`: the first array is a one-element list,
      so no string key collides and every integer key of `cmd` moves up. */
  function PrependArgument(first: string, cmd: Command): (r: Command)
    ensures |r| == |cmd| + 1
    ensures r[0] == Entry(IntKey(0), first)
  {
    [Entry(IntKey(0), first)] + Renumber(cmd, 1)
  }

  /** The merged array holds the new argument followed by the command's
      values, unchanged and in order. */
  lemma PrependArgumentValues(first: string, cmd: Command)
    ensures Values(PrependArgument(first, cmd)) == [first] + Values(cmd)
  {
    var r := PrependArgument(first, cmd);
    var rest := Renumber(cmd, 1);
    var vs := [first] + Values(cmd);
    forall i | 0 <= i < |r|
      ensures Values(r)[i] == vs[i]
    {
      if i > 0 {
        assert r[i] == rest[i - 1];
      }
    }
  }

  /** The merged array has exactly the command's string keys. */
  lemma PrependArgumentStringKeys(first: string, cmd: Command, name: string)
    ensures HasKey(PrependArgument(first, cmd), StrKey(name)) <==> HasKey(cmd, StrKey(name))
  {
    var r := PrependArgument(first, cmd);
    var rest := Renumber(cmd, 1);
    var k := StrKey(name);
    if HasKey(cmd, k) {
      var i :| 0 <= i < |cmd| && cmd[i].key == k;
      assert r[i + 1] == rest[i];
    }
    if HasKey(r, k) {
      var i :| 0 <= i < |r| && r[i].key == k;
      assert i > 0;
      assert r[i] == rest[i - 1];
    }
  }

  /** Merging keeps the array valid: no key appears twice. */
  lemma PrependArgumentDistinct(first: string, cmd: Command)
    requires DistinctKeys(cmd)
    ensures DistinctKeys(PrependArgument(first, cmd))
  {
    var r := PrependArgument(first, cmd);
    var rest := Renumber(cmd, 1);
    RenumberIncreasing(cmd, 1);
    forall i, j | 0 <= i < j < |r|
      ensures r[i].key != r[j].key
    {
      assert r[j] == rest[j - 1];
      if i > 0 {
        assert r[i] == rest[i - 1];
      }
    }
  }

  /** For a list the merge is the list with the argument in front. */
  lemma PrependArgumentToList(first: string, args: seq<string>)
    ensures PrependArgument(first, FromList(args)) == FromList([first] + args)
  {
    var r := PrependArgument(first, FromList(args));
    var l := FromList([first] + args);
    assert |r| == |l|;
    forall i | 0 <= i < |r|
      ensures r[i] == l[i]
    {
      if i > 0 {
        ListEntryRenumbered(args, i - 1);
        assert l[i] == Entry(IntKey(i), ([first] + args)[i]);
      }
    }
  }

  /** One entry of a list, renumbered from 1, moves up by one. */
  lemma ListEntryRenumbered(args: seq<string>, i: nat)
    requires i < |args|
    ensures Renumber(FromList(args), 1)[i] == Entry(IntKey(i + 1), args[i])
  {
    var cmd := FromList(args);
    assert forall k | 0 <= k < |cmd| :: cmd[k].key.IntKey?;
    AllIntKeysCounted(cmd, i);
  }

  /** In an array with only integer keys, every entry before position `n`
      is counted. */
  lemma {:induction false} AllIntKeysCounted(cmd: Command, n: nat)
    requires n <= |cmd|
    requires forall i | 0 <= i < |cmd| :: cmd[i].key.IntKey?
    ensures IntKeyCount(cmd, n) == n
    decreases n
  {
    if n > 0 {
      AllIntKeysCounted(cmd, n - 1);
    }
  }

  /** An array with only integer keys is renumbered consecutively. */
  lemma RenumberIntKeys(cmd: Command, next: int)
    requires forall i | 0 <= i < |cmd| :: cmd[i].key.IntKey?
    ensures forall i | 0 <= i < |cmd| :: Renumber(cmd, next)[i] == Entry(IntKey(next + i), cmd[i].value)
  {
    forall i | 0 <= i < |cmd|
      ensures Renumber(cmd, next)[i] == Entry(IntKey(next + i), cmd[i].value)
    {
      AllIntKeysCounted(cmd, i);
    }
  }

  /** A list has only integer keys, so it never trips the
      `--working-dir`/`-d` check. */
  lemma ListHasNoOptionKeys(args: seq<string>)
    ensures !HasKey(FromList(args), StrKey("--working-dir"))
    ensures !HasKey(FromList(args), StrKey("-d"))
  {
  }

  // ---------------------------------------------------------------------
  // stage

  /** A project exception thrown by the Composer runner. */
  datatype RunnerError = RunnerError(message: string, code: int)

  /** One call of the Composer runner. */
  datatype Invocation = Invocation(command: Command, callback: Option<Callback>, timeout: Option<int>)

  type Runner = Invocation -> Outcome<RunnerError>

  datatype StageError =
    | InvalidArgument(message: string)
    | PathFailure(exception: PathException)
    | ProcessFailed(message: string, code: int, previous: RunnerError)

  const EmptyCommandMessage: string := "The Composer command cannot be empty"
  const ComposerPrefixMessage: string := "The Composer command cannot begin with \"composer\"--it is implied"
  const WorkingDirMessage: string := "Cannot stage a Composer command containing the \"--working-dir\" (or \"-d\") option"

  /** `validateCommand`: an empty command, one beginning with `composer`,
      or one with a `--working-dir` or `-d` key is rejected, checked in
      that order. `reset()` gives the first value. */
  function ValidateCommand(cmd: Command): (r: Outcome<StageError>)
    ensures r.Pass? <==>
              && cmd != [] && cmd[0].value != "composer"
              && !HasKey(cmd, StrKey("--working-dir")) && !HasKey(cmd, StrKey("-d"))
    ensures cmd == [] ==> r == Fail(InvalidArgument(EmptyCommandMessage))
    ensures cmd != [] && cmd[0].value == "composer" ==> r == Fail(InvalidArgument(ComposerPrefixMessage))
    ensures cmd != [] && cmd[0].value != "composer" && !r.Pass? ==> r == Fail(InvalidArgument(WorkingDirMessage))
  {
    if cmd == [] then Fail(InvalidArgument(EmptyCommandMessage))
    else if cmd[0].value == "composer" then Fail(InvalidArgument(ComposerPrefixMessage))
    else if HasKey(cmd, StrKey("--working-dir")) || HasKey(cmd, StrKey("-d")) then Fail(InvalidArgument(WorkingDirMessage))
    else Pass
  }

  /** `validatePreconditions`: the resolved staging directory must exist,
      and then be writable. */
  function ValidateStagingDir(fs: Filesystem, stagingDir: string): (r: Outcome<StageError>)
    ensures r.Pass? <==> fs.pathExists(stagingDir) && fs.isWritable(stagingDir)
    ensures !fs.pathExists(stagingDir) ==>
              r == Fail(PathFailure(PathException(DirectoryNotFound, stagingDir,
                                                  "The staging directory does not exist at \"" + stagingDir + "\"", 0)))
    ensures fs.pathExists(stagingDir) && !fs.isWritable(stagingDir) ==>
              r == Fail(PathFailure(PathException(DirectoryNotWritable, stagingDir,
                                                  "The staging directory is not writable at \"" + stagingDir + "\"", 0)))
  {
    if !fs.pathExists(stagingDir) then
      Fail(PathFailure(WithPath(DirectoryNotFound, stagingDir, "The staging directory does not exist at \"", "\"")))
    else if !fs.isWritable(stagingDir) then
      Fail(PathFailure(WithPath(DirectoryNotWritable, stagingDir, "The staging directory is not writable at \"", "\"")))
    else Pass
  }

  /** The command handed to the runner. */
  function WorkingDirCommand(stagingDir: string, cmd: Command): Command {
    PrependArgument("--working-dir=" + stagingDir, cmd)
  }

  /** The outcome of `stage` and the runner call it made, if any. */
  datatype StageRun = StageRun(result: Outcome<StageError>, invocation: Option<Invocation>)

  /** `stage($composerCommand, $stagingDir, $callback, $timeout)` with the
      staging directory already resolved. */
  function Stage(cmd: Command, stagingDir: string, callback: Option<Callback>, timeout: Option<int>, fs: Filesystem, runner: Runner): (r: StageRun)
    ensures r.invocation.Some? <==> ValidateCommand(cmd).Pass? && ValidateStagingDir(fs, stagingDir).Pass?
    ensures r.invocation.Some? ==> r.invocation.value == Invocation(WorkingDirCommand(stagingDir, cmd), callback, timeout)
    ensures r.result.Pass? <==> r.invocation.Some? && runner(r.invocation.value).Pass?
  {
    match ValidateCommand(cmd)
    case Fail(e) => StageRun(Fail(e), None)
    case Pass =>
      match ValidateStagingDir(fs, stagingDir)
      case Fail(e) => StageRun(Fail(e), None)
      case Pass =>
        var call := Invocation(WorkingDirCommand(stagingDir, cmd), callback, timeout);
        match runner(call)
        case Pass => StageRun(Pass, Some(call))
        case Fail(e) => StageRun(Fail(ProcessFailed(e.message, e.code, e)), Some(call))
  }

  /** `stage` with the default callback (none) and timeout. */
  function StageWithDefaults(cmd: Command, stagingDir: string, fs: Filesystem, runner: Runner): (r: StageRun)
    ensures r.invocation.Some? ==> r.invocation.value.callback == None && r.invocation.value.timeout == Some(DefaultTimeout)
  {
    Stage(cmd, stagingDir, None, Some(DefaultTimeout), fs, runner)
  }

  /** The command is validated before the directory is looked at: an
      invalid command gives its error whatever the filesystem says, and the
      runner is not called. */
  lemma CommandValidatedFirst(cmd: Command, stagingDir: string, callback: Option<Callback>, timeout: Option<int>, fs: Filesystem, runner: Runner)
    requires ValidateCommand(cmd).Fail?
    ensures Stage(cmd, stagingDir, callback, timeout, fs, runner) == StageRun(ValidateCommand(cmd), None)
  {
  }

  /** A missing staging directory gives `DirectoryNotFoundException`, an
      unwritable one `DirectoryNotWritableException`; the runner is not
      called. */
  lemma StagingDirChecked(cmd: Command, stagingDir: string, callback: Option<Callback>, timeout: Option<int>, fs: Filesystem, runner: Runner)
    requires ValidateCommand(cmd).Pass?
    ensures !fs.pathExists(stagingDir) ==>
              Stage(cmd, stagingDir, callback, timeout, fs, runner)
              == StageRun(Fail(PathFailure(PathException(DirectoryNotFound, stagingDir,
                                                         "The staging directory does not exist at \"" + stagingDir + "\"", 0))), None)
    ensures fs.pathExists(stagingDir) && !fs.isWritable(stagingDir) ==>
              Stage(cmd, stagingDir, callback, timeout, fs, runner)
              == StageRun(Fail(PathFailure(PathException(DirectoryNotWritable, stagingDir,
                                                         "The staging directory is not writable at \"" + stagingDir + "\"", 0))), None)
  {
  }

  /** The runner receives `--working-dir=<staging dir>` followed by the
      command's values unchanged, with the caller's callback and timeout;
      its success is `stage`'s success and its exception is rethrown as
      `ProcessFailedException` with the same message and code. */
  lemma RunnerCall(cmd: Command, stagingDir: string, callback: Option<Callback>, timeout: Option<int>, fs: Filesystem, runner: Runner)
    requires ValidateCommand(cmd).Pass? && ValidateStagingDir(fs, stagingDir).Pass?
    ensures Values(Stage(cmd, stagingDir, callback, timeout, fs, runner).invocation.value.command)
         == ["--working-dir=" + stagingDir] + Values(cmd)
    ensures Stage(cmd, stagingDir, callback, timeout, fs, runner).invocation.value.callback == callback
    ensures Stage(cmd, stagingDir, callback, timeout, fs, runner).invocation.value.timeout == timeout
    ensures runner(Stage(cmd, stagingDir, callback, timeout, fs, runner).invocation.value).Pass? ==>
              Stage(cmd, stagingDir, callback, timeout, fs, runner).result == Pass
    ensures runner(Stage(cmd, stagingDir, callback, timeout, fs, runner).invocation.value).Fail? ==>
              var e := runner(Stage(cmd, stagingDir, callback, timeout, fs, runner).invocation.value).error;
              Stage(cmd, stagingDir, callback, timeout, fs, runner).result == Fail(ProcessFailed(e.message, e.code, e))
  {
    PrependArgumentValues("--working-dir=" + stagingDir, cmd);
  }

  /** For a list command such as `['update']` the runner receives
      `['--working-dir=<staging dir>', 'update']`. */
  lemma ListCommandRun(args: seq<string>, stagingDir: string, fs: Filesystem, runner: Runner)
    requires args != [] && args[0] != "composer"
    requires fs.pathExists(stagingDir) && fs.isWritable(stagingDir)
    ensures StageWithDefaults(FromList(args), stagingDir, fs, runner).invocation
         == Some(Invocation(FromList(["--working-dir=" + stagingDir] + args), None, Some(DefaultTimeout)))
  {
    ListHasNoOptionKeys(args);
    PrependArgumentToList("--working-dir=" + stagingDir, args);
  }
}
