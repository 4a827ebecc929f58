/** `CodeBaseContainsNoSymlinks`: the active directory and then the staging
    directory are searched with the recursive file finder, and the first
    symlink found makes the precondition unfulfilled. A directory that does
    not exist counts as empty; a finder error makes the precondition
    unfulfilled with the error's message instead of being raised. */
module CodebaseSymlinks {
  import opened Wrappers
  import opened Format
  import opened Filesystem
  import opened PreconditionsTree

  /** A directory to scan: its name in the message and its resolved path. */
  datatype Dir = Dir(name: string, path: string)

  /** The active directory, then the staging directory. */
  function Directories(activeDir: string, stagingDir: string): (ds: seq<Dir>)
    ensures |ds| == 2
    ensures ds[0] == Dir("active", activeDir) && ds[1] == Dir("staging", stagingDir)
  {
    [Dir("active", activeDir), Dir("staging", stagingDir)]
  }

  /** The unfulfilled message template,
      `The %s directory at "%s" contains symlinks, which is not supported.`,
      in its three plain pieces. */
  const TemplatePrefix: string := "The "
  const TemplateMiddle: string := " directory at \""
  const TemplateSuffix: string := "\" contains symlinks, which is not supported."
  const Template: string := TemplatePrefix + "%s" + TemplateMiddle + "%s" + TemplateSuffix

  /** The unfulfilled message for a symlink: `sprintf` of the template with
      the directory's name and its resolved path, in that order. */
  function SymlinkMessage(name: string, path: string): (m: string)
    ensures Sprintf(Template, [name, path]) == Some(m)
    ensures m == TemplatePrefix + name + TemplateMiddle + path + TemplateSuffix
  {
    SubstituteTwo(TemplatePrefix, TemplateMiddle, TemplateSuffix, name, path);
    TemplatePrefix + name + TemplateMiddle + path + TemplateSuffix
  }

  /** A filled message holds no `%` unless the name or the path does. */
  lemma SymlinkMessageHasNoPercent(name: string, path: string)
    requires '%' !in name && '%' !in path
    ensures '%' !in SymlinkMessage(name, path)
  {
    assert '%' !in TemplatePrefix && '%' !in TemplateMiddle && '%' !in TemplateSuffix;
    var m := SymlinkMessage(name, path);
    assert m == TemplatePrefix + name + TemplateMiddle + path + TemplateSuffix;
  }

  /** `findFiles`: no files for a directory that does not exist (the finder
      is not consulted), otherwise whatever the finder answers. */
  function FindFiles(fs: Filesystem, path: string): (r: Result<seq<string>, FinderError>)
    ensures !fs.pathExists(path) ==> r == Success([])
    ensures fs.pathExists(path) ==> r == fs.find(path)
  {
    if !fs.pathExists(path) then Success([]) else fs.find(path)
  }

  /** Some file in `files` is a link. */
  predicate HasLink(isLink: string -> bool, files: seq<string>)
    decreases |files|
  {
    files != [] && (isLink(files[0]) || HasLink(isLink, files[1..]))
  }

  lemma {:induction false} HasLinkIffSomeLink(isLink: string -> bool, files: seq<string>)
    ensures HasLink(isLink, files) <==> exists i | 0 <= i < |files| :: isLink(files[i])
    decreases |files|
  {
    if files != [] {
      HasLinkIffSomeLink(isLink, files[1..]);
      if HasLink(isLink, files[1..]) {
        var i :| 0 <= i < |files[1..]| && isLink(files[1..][i]);
        assert isLink(files[i + 1]);
      }
      if exists i | 0 <= i < |files| :: isLink(files[i]) {
        var i :| 0 <= i < |files| && isLink(files[i]);
        if i > 0 {
          assert isLink(files[1..][i - 1]);
        }
      }
    }
  }

  /** The files `is_link` is asked about: every file up to and including the
      first link, or all of them when there is none. */
  function UpToFirstLink(isLink: string -> bool, files: seq<string>): (r: seq<string>)
    ensures r <= files
    ensures HasLink(isLink, files) <==> r != [] && isLink(r[|r| - 1])
    ensures !HasLink(isLink, files) ==> r == files
    decreases |files|
  {
    if files == [] then []
    else if isLink(files[0]) then [files[0]]
    else [files[0]] + UpToFirstLink(isLink, files[1..])
  }

  /** Only the last file examined can be a link. */
  lemma {:induction false} OnlyLastExaminedIsLink(isLink: string -> bool, files: seq<string>)
    ensures forall i | 0 <= i < |UpToFirstLink(isLink, files)| - 1 :: !isLink(UpToFirstLink(isLink, files)[i])
    decreases |files|
  {
    if files != [] && !isLink(files[0]) {
      OnlyLastExaminedIsLink(isLink, files[1..]);
      var r := UpToFirstLink(isLink, files);
      var rest := UpToFirstLink(isLink, files[1..]);
      assert r == [files[0]] + rest;
      assert forall i | 1 <= i < |r| - 1 :: r[i] == rest[i - 1];
    }
  }


  /** What one `isFulfilled` call does: the verdict (`None` when fulfilled,
      otherwise the unfulfilled status message), the directories handed to
      the finder and the files handed to `is_link`, in order. */
  datatype Scan = Scan(outcome: Option<string>, searched: seq<string>, checked: seq<string>)

  /** A directory is clean when the search succeeds and finds no link. */
  predicate Clean(fs: Filesystem, path: string) {
    FindFiles(fs, path).Success? && !HasLink(fs.isLink, FindFiles(fs, path).value)
  }

  /** One directory: the finder is asked only when the directory exists; a
      finder error gives its message; otherwise the files are examined up to
      the first link, which gives the symlink message naming the
      directory. */
  function ScanDir(fs: Filesystem, d: Dir): (s: Scan)
    ensures s.outcome.None? <==> Clean(fs, d.path)
    ensures s.searched == if fs.pathExists(d.path) then [d.path] else []
    ensures fs.pathExists(d.path) && fs.find(d.path).Failure? ==>
              s.outcome == Some(fs.find(d.path).error.message) && s.checked == []
    ensures FindFiles(fs, d.path).Success? ==> s.checked == UpToFirstLink(fs.isLink, FindFiles(fs, d.path).value)
    ensures FindFiles(fs, d.path).Success? && HasLink(fs.isLink, FindFiles(fs, d.path).value) ==>
              s.outcome == Some(SymlinkMessage(d.name, d.path))
  {
    var searched := if fs.pathExists(d.path) then [d.path] else [];
    match FindFiles(fs, d.path)
    case Failure(e) => Scan(Some(e.message), searched, [])
    case Success(files) =>
      Scan(if HasLink(fs.isLink, files) then Some(SymlinkMessage(d.name, d.path)) else None,
           searched, UpToFirstLink(fs.isLink, files))
  }

  /** A finished prefix of the scan followed by the scan of the rest. */
  function After(searched: seq<string>, checked: seq<string>, rest: Scan): Scan {
    Scan(rest.outcome, searched + rest.searched, checked + rest.checked)
  }

  /** The directories are visited in order and the first finder error or
      link ends the scan. */
  function ScanDirs(fs: Filesystem, dirs: seq<Dir>): Scan
    decreases |dirs|
  {
    if dirs == [] then Scan(None, [], [])
    else
      var first := ScanDir(fs, dirs[0]);
      if first.outcome.Some? then first else After(first.searched, first.checked, ScanDirs(fs, dirs[1..]))
  }

  /** `isFulfilled(activeDir, stagingDir)`, with the message
      `getStatusMessage` reports when it returns false. */
  function Check(fs: Filesystem, activeDir: string, stagingDir: string): Scan {
    ScanDirs(fs, Directories(activeDir, stagingDir))
  }

  /** The first directory decides unless it is clean. */
  lemma FirstDirDecides(fs: Filesystem, d: Dir, rest: seq<Dir>)
    ensures !Clean(fs, d.path) ==> ScanDirs(fs, [d] + rest) == ScanDir(fs, d)
    ensures Clean(fs, d.path) ==>
              ScanDirs(fs, [d] + rest) == After(ScanDir(fs, d).searched, ScanDir(fs, d).checked, ScanDirs(fs, rest))
  {
    assert ([d] + rest)[0] == d && ([d] + rest)[1..] == rest;
  }

  /** Scanning one directory on its own is that directory's step. */
  lemma SingleDir(fs: Filesystem, d: Dir)
    ensures ScanDirs(fs, [d]) == ScanDir(fs, d)
  {
    FirstDirDecides(fs, d, []);
    assert [d] + [] == [d];
    var s := ScanDir(fs, d);
    assert s.searched + [] == s.searched && s.checked + [] == s.checked;
  }

  /** Both directories' steps, in order. */
  lemma CheckSteps(fs: Filesystem, activeDir: string, stagingDir: string)
    ensures !Clean(fs, activeDir) ==> Check(fs, activeDir, stagingDir) == ScanDir(fs, Dir("active", activeDir))
    ensures Clean(fs, activeDir) ==>
              Check(fs, activeDir, stagingDir)
              == After(ScanDir(fs, Dir("active", activeDir)).searched, ScanDir(fs, Dir("active", activeDir)).checked,
                       ScanDir(fs, Dir("staging", stagingDir)))
  {
    assert Directories(activeDir, stagingDir) == [Dir("active", activeDir)] + [Dir("staging", stagingDir)];
    FirstDirDecides(fs, Dir("active", activeDir), [Dir("staging", stagingDir)]);
    SingleDir(fs, Dir("staging", stagingDir));
  }

  /** Fulfilled if and only if every directory is clean. */
  lemma {:induction false} ScanFulfilledIffAllClean(fs: Filesystem, dirs: seq<Dir>)
    ensures ScanDirs(fs, dirs).outcome.None? <==> forall i | 0 <= i < |dirs| :: Clean(fs, dirs[i].path)
    decreases |dirs|
  {
    if dirs != [] {
      ScanFulfilledIffAllClean(fs, dirs[1..]);
      assert forall i | 1 <= i < |dirs| :: dirs[i] == dirs[1..][i - 1];
    }
  }

  /** The precondition holds exactly when neither directory contains a link
      and neither search fails. */
  lemma FulfilledIffNoLinks(fs: Filesystem, activeDir: string, stagingDir: string)
    ensures Check(fs, activeDir, stagingDir).outcome.None? <==> Clean(fs, activeDir) && Clean(fs, stagingDir)
  {
    ScanFulfilledIffAllClean(fs, Directories(activeDir, stagingDir));
  }

  /** A directory that does not exist contributes no files: the verdict is
      the other directory's, and the finder is not asked about it. */
  lemma MissingDirectoryIgnored(fs: Filesystem, activeDir: string, stagingDir: string)
    ensures !fs.pathExists(activeDir) ==> Check(fs, activeDir, stagingDir) == ScanDir(fs, Dir("staging", stagingDir))
    ensures !fs.pathExists(stagingDir) ==>
              && Check(fs, activeDir, stagingDir).outcome == ScanDir(fs, Dir("active", activeDir)).outcome
              && Check(fs, activeDir, stagingDir).searched == ScanDir(fs, Dir("active", activeDir)).searched
  {
    CheckSteps(fs, activeDir, stagingDir);
    var a := ScanDir(fs, Dir("active", activeDir));
    var s := ScanDir(fs, Dir("staging", stagingDir));
    if !fs.pathExists(activeDir) {
      assert a.searched == [] && a.checked == [];
      assert [] + s.searched == s.searched && [] + s.checked == s.checked;
    }
    if !fs.pathExists(stagingDir) && Clean(fs, activeDir) {
      assert s.searched == [];
      assert a.searched + [] == a.searched;
    }
  }

  /** A link in the active directory ends the scan there: the staging
      directory is not searched, and the message names the active
      directory. */
  lemma LinkInActiveDirectory(fs: Filesystem, activeDir: string, stagingDir: string)
    requires FindFiles(fs, activeDir).Success? && HasLink(fs.isLink, FindFiles(fs, activeDir).value)
    ensures Check(fs, activeDir, stagingDir).outcome == Some(SymlinkMessage("active", activeDir))
    ensures Check(fs, activeDir, stagingDir).searched == if fs.pathExists(activeDir) then [activeDir] else []
    ensures Check(fs, activeDir, stagingDir).checked == UpToFirstLink(fs.isLink, FindFiles(fs, activeDir).value)
  {
    CheckSteps(fs, activeDir, stagingDir);
  }

  /** A link in the staging directory is reported only when the active
      directory is clean, and the message names the staging directory;
      every file of the active directory was examined first. */
  lemma LinkInStagingDirectory(fs: Filesystem, activeDir: string, stagingDir: string)
    requires Clean(fs, activeDir)
    requires FindFiles(fs, stagingDir).Success? && HasLink(fs.isLink, FindFiles(fs, stagingDir).value)
    ensures Check(fs, activeDir, stagingDir).outcome == Some(SymlinkMessage("staging", stagingDir))
    ensures Check(fs, activeDir, stagingDir).checked
         == FindFiles(fs, activeDir).value + UpToFirstLink(fs.isLink, FindFiles(fs, stagingDir).value)
  {
    CheckSteps(fs, activeDir, stagingDir);
  }

  /** A finder error is not raised: the precondition is unfulfilled and the
      status message is the error's message. An error searching the active
      directory ends the scan before the staging directory. */
  lemma FinderErrorBecomesMessage(fs: Filesystem, activeDir: string, stagingDir: string)
    ensures fs.pathExists(activeDir) && fs.find(activeDir).Failure? ==>
              && Check(fs, activeDir, stagingDir).outcome == Some(fs.find(activeDir).error.message)
              && Check(fs, activeDir, stagingDir).searched == [activeDir]
              && Check(fs, activeDir, stagingDir).checked == []
    ensures Clean(fs, activeDir) && fs.pathExists(stagingDir) && fs.find(stagingDir).Failure? ==>
              Check(fs, activeDir, stagingDir).outcome == Some(fs.find(stagingDir).error.message)
  {
    CheckSteps(fs, activeDir, stagingDir);
  }

  /** The precondition as a leaf of a preconditions tree. */
  const CodebaseContainsNoSymlinksLeaf: LeafInfo := LeafInfo(
    "codebase-contains-no-symlinks",
    "Codebase contains no symlinks",
    "The codebase cannot contain symlinks.",
    "The codebase contains no symlinks.")

  /** Under an environment that answers the leaf with `Check`, the leaf is
      fulfilled exactly when both directories are clean, and otherwise
      reports the scan's message as its status and in its exception. */
  lemma CodebaseContainsNoSymlinksBehaviour(fs: Filesystem, oracle: Oracle, ctx: Context)
    requires oracle(CodebaseContainsNoSymlinksLeaf, ctx) == Check(fs, ctx.activeDir, ctx.stagingDir).outcome
    ensures IsFulfilled(Leaf(CodebaseContainsNoSymlinksLeaf), oracle, ctx) <==> Clean(fs, ctx.activeDir) && Clean(fs, ctx.stagingDir)
    ensures Clean(fs, ctx.activeDir) && Clean(fs, ctx.stagingDir) ==>
              StatusMessage(Leaf(CodebaseContainsNoSymlinksLeaf), oracle, ctx) == "The codebase contains no symlinks."
    ensures !(Clean(fs, ctx.activeDir) && Clean(fs, ctx.stagingDir)) ==>
              && StatusMessage(Leaf(CodebaseContainsNoSymlinksLeaf), oracle, ctx) == Check(fs, ctx.activeDir, ctx.stagingDir).outcome.value
              && AssertIsFulfilled(Leaf(CodebaseContainsNoSymlinksLeaf), oracle, ctx)
                 == Fail(PreconditionError("Codebase contains no symlinks", Check(fs, ctx.activeDir, ctx.stagingDir).outcome.value))
  {
    FulfilledIffNoLinks(fs, ctx.activeDir, ctx.stagingDir);
  }

  // ---------------------------------------------------------------------
  // the scan as loops

  lemma Assoc(a: seq<string>, b: seq<string>, c: seq<string>)
    ensures a + (b + c) == (a + b) + c
  {
  }

  /** The inner `foreach ($files as $file)` loop: stops at the first link.
      Returns whether one was found and the files examined. */
  method ExamineFiles(isLink: string -> bool, files: seq<string>) returns (found: bool, examined: seq<string>)
    ensures found <==> HasLink(isLink, files)
    ensures examined == UpToFirstLink(isLink, files)
  {
    var rest := files;
    examined := [];
    while rest != []
      invariant UpToFirstLink(isLink, files) == examined + UpToFirstLink(isLink, rest)
      invariant HasLink(isLink, files) <==> HasLink(isLink, rest)
      decreases |rest|
    {
      if isLink(rest[0]) {
        return true, examined + [rest[0]];
      }
      Assoc(examined, [rest[0]], UpToFirstLink(isLink, rest[1..]));
      examined := examined + [rest[0]];
      rest := rest[1..];
    }
    assert examined + [] == examined;
    found := false;
  }

  /** `isFulfilled` as a loop over the directories. Besides the verdict it
      returns the directories searched and the files examined, in call
      order. */
  method ScanForSymlinks(fs: Filesystem, dirs: seq<Dir>) returns (outcome: Option<string>, searched: seq<string>, checked: seq<string>)
    ensures Scan(outcome, searched, checked) == ScanDirs(fs, dirs)
  {
    searched, checked := [], [];
    var remaining := dirs;
    while remaining != []
      invariant ScanDirs(fs, dirs) == After(searched, checked, ScanDirs(fs, remaining))
      decreases |remaining|
    {
      var d := remaining[0];
      var step := ScanDir(fs, d);
      var here := if fs.pathExists(d.path) then [d.path] else [];
      var found := FindFiles(fs, d.path);
      if found.Failure? {
        assert checked + [] == checked;
        return Some(found.error.message), searched + here, checked;
      }
      var hasLink, examined := ExamineFiles(fs.isLink, found.value);
      if hasLink {
        return Some(SymlinkMessage(d.name, d.path)), searched + here, checked + examined;
      }
      var rest := ScanDirs(fs, remaining[1..]);
      Assoc(searched, here, rest.searched);
      Assoc(checked, examined, rest.checked);
      searched, checked := searched + here, checked + examined;
      remaining := remaining[1..];
    }
    assert searched + [] == searched && checked + [] == checked;
    outcome := None;
  }

  // ---------------------------------------------------------------------
  // the message field as written

  /** As written, the unfulfilled message is an instance field: it starts
      as the template, a finder error overwrites it with the error's
      message, and a link overwrites it with `sprintf(field, name, path)`.
      The service is shared, so a later call formats the previous call's
      message instead of the template. The result is the verdict and the
      field afterwards, or `None` when `sprintf` runs out of arguments. */
  function IsFulfilledAsWritten(field: string, fs: Filesystem, dirs: seq<Dir>): (r: Option<(bool, string)>)
    ensures r.Some? && r.value.0 ==> r.value.1 == field
    decreases |dirs|
  {
    if dirs == [] then Some((true, field))
    else
      var d := dirs[0];
      match FindFiles(fs, d.path)
      case Failure(e) => Some((false, e.message))
      case Success(files) =>
        if HasLink(fs.isLink, files) then
          match Sprintf(field, [d.name, d.path])
          case None => None
          case Some(m) => Some((false, m))
        else IsFulfilledAsWritten(field, fs, dirs[1..])
  }

  /** On a fresh instance the field-based code agrees with `ScanDirs`. */
  lemma {:induction false} FreshInstanceAgrees(fs: Filesystem, dirs: seq<Dir>)
    ensures IsFulfilledAsWritten(Template, fs, dirs)
         == Some((ScanDirs(fs, dirs).outcome.None?, ScanDirs(fs, dirs).outcome.GetOr(Template)))
    decreases |dirs|
  {
    if dirs != [] {
      FreshInstanceAgrees(fs, dirs[1..]);
    }
  }

  /** Once the field holds a message without `%`, a link anywhere reports
      that message unchanged, whichever directory holds the link. */
  lemma {:induction false} FilledFieldSticks(field: string, fs: Filesystem, dirs: seq<Dir>)
    requires '%' !in field
    requires forall i | 0 <= i < |dirs| :: FindFiles(fs, dirs[i].path).Success?
    ensures IsFulfilledAsWritten(field, fs, dirs) == Some((ScanDirs(fs, dirs).outcome.None?, field))
    decreases |dirs|
  {
    if dirs != [] {
      var d := dirs[0];
      NoPercentIsVerbatim(field, [d.name, d.path]);
      assert forall i | 0 <= i < |dirs[1..]| :: dirs[1..][i] == dirs[i + 1];
      FilledFieldSticks(field, fs, dirs[1..]);
    }
  }

  /** A filesystem in which every path exists and `link`, inside `dir`, is
      the only file and the only link. */
  function OneLinkIn(dir: string, link: string): Filesystem {
    Filesystem(p => true, p => true, f => f == link, p => if p == dir then Success([link]) else Success([]))
  }

  /** The as-written field goes stale: after a call that found a link in the
      active directory `\a`, a second call that finds a link only in the
      staging directory `\s` still reports the active directory, where
      `Check` reports the staging directory. */
  lemma StaleMessageOnSecondCall()
    ensures IsFulfilledAsWritten(Template, OneLinkIn("\\a", "\\a\\l"), Directories("\\a", "\\s"))
         == Some((false, SymlinkMessage("active", "\\a")))
    ensures IsFulfilledAsWritten(SymlinkMessage("active", "\\a"), OneLinkIn("\\s", "\\s\\l"), Directories("\\a", "\\s"))
         == Some((false, SymlinkMessage("active", "\\a")))
    ensures Check(OneLinkIn("\\s", "\\s\\l"), "\\a", "\\s").outcome == Some(SymlinkMessage("staging", "\\s"))
    ensures SymlinkMessage("active", "\\a") != SymlinkMessage("staging", "\\s")
  {
    FirstCallFillsField();
    SecondCallReportsActive();
    MessagesDiffer();
  }

  lemma FirstCallFillsField()
    ensures IsFulfilledAsWritten(Template, OneLinkIn("\\a", "\\a\\l"), Directories("\\a", "\\s"))
         == Some((false, SymlinkMessage("active", "\\a")))
  {
    var fs := OneLinkIn("\\a", "\\a\\l");
    var files: seq<string> := ["\\a\\l"];
    assert FindFiles(fs, "\\a") == Success(files);
    assert HasLink(fs.isLink, files);
    FreshInstanceAgrees(fs, Directories("\\a", "\\s"));
    LinkInActiveDirectory(fs, "\\a", "\\s");
  }

  lemma SecondCallReportsActive()
    ensures IsFulfilledAsWritten(SymlinkMessage("active", "\\a"), OneLinkIn("\\s", "\\s\\l"), Directories("\\a", "\\s"))
         == Some((false, SymlinkMessage("active", "\\a")))
    ensures Check(OneLinkIn("\\s", "\\s\\l"), "\\a", "\\s").outcome == Some(SymlinkMessage("staging", "\\s"))
  {
    var fs := OneLinkIn("\\s", "\\s\\l");
    var files: seq<string> := ["\\s\\l"];
    assert FindFiles(fs, "\\a") == Success([]) && FindFiles(fs, "\\s") == Success(files);
    assert HasLink(fs.isLink, files);
    LinkInStagingDirectory(fs, "\\a", "\\s");
    SymlinkMessageHasNoPercent("active", "\\a");
    FilledFieldSticks(SymlinkMessage("active", "\\a"), fs, Directories("\\a", "\\s"));
  }

  lemma MessagesDiffer()
    ensures SymlinkMessage("active", "\\a") != SymlinkMessage("staging", "\\s")
  {
    assert SymlinkMessage("active", "\\a")[4] == 'a';
    assert SymlinkMessage("staging", "\\s")[4] == 's';
  }
}
