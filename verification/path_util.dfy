/** The string helpers of `PathUtil`: trailing-separator handling and making
    a path relative to an ancestor. They compare strings only; nothing here
    touches a filesystem. */
module PathUtil {

  /** The platform decides PHP's `DIRECTORY_SEPARATOR`. */
  datatype Platform = Posix | Windows

  function DirectorySeparator(platform: Platform): (sep: char)
    ensures sep == '/' || sep == '\\'
  {
    if platform.Windows? then '\\' else '/'
  }

  /** The characters `rtrim($path, '/\\')` removes. */
  predicate IsSlash(c: char) {
    c == '/' || c == '\\'
  }

  predicate IsAsciiLetter(c: char) {
    ('a' <= c <= 'z') || ('A' <= c <= 'Z')
  }

  /** The pattern `/^[a-z]:\\?$/i`: a drive letter of either case, a colon and
      at most one backslash. PCRE's `$` also matches just before a final
      newline, so one trailing "\n" is accepted as well. */
  predicate IsDriveRoot(path: string) {
    var body := if |path| > 0 && path[|path| - 1] == '\n' then path[..|path| - 1] else path;
    && (|body| == 2 || (|body| == 3 && body[2] == '\\'))
    && IsAsciiLetter(body[0])
    && body[1] == ':'
  }

  /** Some character of the path is not a separator. */
  predicate HasContent(path: string) {
    exists i | 0 <= i < |path| :: !IsSlash(path[i])
  }

  /** `rtrim($s, '/\\')`: the longest prefix of `s` that does not end in a
      separator. */
  function RTrimSlashes(s: string): (r: string)
    ensures r <= s
    ensures r == [] || !IsSlash(r[|r| - 1])
    ensures forall i | |r| <= i < |s| :: IsSlash(s[i])
  {
    if s != [] && IsSlash(s[|s| - 1]) then RTrimSlashes(s[..|s| - 1]) else s
  }

  /** `stripTrailingSlash`: drive roots and strings made only of separators
      (the empty string among them) come back unchanged; anything else loses
      every trailing `/` and `\`. */
  function StripTrailingSlash(path: string): (r: string)
    ensures IsDriveRoot(path) ==> r == path
    ensures !HasContent(path) ==> r == path
    ensures !IsDriveRoot(path) && HasContent(path) ==>
              && r != []
              && r <= path
              && !IsSlash(r[|r| - 1])
              && (forall i | |r| <= i < |path| :: IsSlash(path[i]))
  {
    if IsDriveRoot(path) then path
    else
      var trimmed := RTrimSlashes(path);
      if trimmed == [] then path else trimmed
  }

  /** Stripping twice is stripping once. */
  lemma StripTrailingSlashIdempotent(path: string)
    ensures StripTrailingSlash(StripTrailingSlash(path)) == StripTrailingSlash(path)
  {
    var r := StripTrailingSlash(path);
    if !IsDriveRoot(path) && HasContent(path) && !IsDriveRoot(r) {
      assert !IsSlash(r[|r| - 1]);
      assert RTrimSlashes(r) == r;
    }
  }

  /** `ensureTrailingSlash`: the empty path stands for `.`; the path is
      stripped and exactly one `DIRECTORY_SEPARATOR` is appended. */
  function EnsureTrailingSlash(path: string, platform: Platform): (r: string)
    ensures |r| >= 2 && r[|r| - 1] == DirectorySeparator(platform)
    ensures path == "" ==> r == ['.', DirectorySeparator(platform)]
    ensures IsDriveRoot(path) || (path != "" && !HasContent(path)) ==>
              r == path + [DirectorySeparator(platform)]
    ensures !IsDriveRoot(path) && HasContent(path) ==>
              && r[..|r| - 1] <= path
              && !IsSlash(r[|r| - 2])
              && (forall i | |r| - 1 <= i < |path| :: IsSlash(path[i]))
  {
    var p := if path == "" then "." else path;
    assert p == "." ==> HasContent(p) && !IsDriveRoot(p) by {
      if p == "." { assert !IsSlash(p[0]); }
    }
    StripTrailingSlash(p) + [DirectorySeparator(platform)]
  }

  /** Appending the separator and stripping again gives what stripping alone
      gives, unless the stripped path is itself a drive root such as `C:`. */
  lemma EnsureThenStrip(path: string, platform: Platform)
    requires HasContent(path) && !IsDriveRoot(path)
    requires !IsDriveRoot(StripTrailingSlash(path))
    ensures StripTrailingSlash(EnsureTrailingSlash(path, platform)) == StripTrailingSlash(path)
  {
    var s := StripTrailingSlash(path);
    var e := EnsureTrailingSlash(path, platform);
    assert e == s + [DirectorySeparator(platform)];
    assert e[..|e| - 1] == s;
    assert RTrimSlashes(e) == RTrimSlashes(s);
    assert RTrimSlashes(s) == s;
    assert !IsDriveRoot(e) by {
      if IsDriveRoot(e) {
        assert e[|e| - 1] != '\n';
        assert |e| == 3 && e[2] == '\\';
        assert IsDriveRoot(s);
        assert false;
      }
    }
    assert HasContent(e) by {
      assert !IsSlash(e[|s| - 1]);
    }
  }

  /** A root is not left alone: the separator is appended after it, so `/`
      becomes `//` on POSIX and `C:\` becomes `C:\\` on Windows. */
  lemma EnsureTrailingSlashDoublesRoots()
    ensures EnsureTrailingSlash("/", Posix) == "//"
    ensures EnsureTrailingSlash("C:\\", Windows) == "C:\\\\"
  {
    assert !HasContent("/") by { assert forall i | 0 <= i < 1 :: "/"[i] == '/'; }
    assert IsDriveRoot("C:\\");
  }

  /** `getPathRelativeToAncestor`: when the path begins with the ancestor and
      a trailing separator, that prefix is removed; otherwise the path comes
      back unchanged, without error. The result is always a suffix of the
      path. */
  function GetPathRelativeToAncestor(path: string, ancestor: string, platform: Platform): (r: string)
    ensures |r| <= |path| && path[|path| - |r|..] == r
    ensures EnsureTrailingSlash(ancestor, platform) <= path ==>
              path == EnsureTrailingSlash(ancestor, platform) + r
    ensures !(EnsureTrailingSlash(ancestor, platform) <= path) ==> r == path
  {
    var prefix := EnsureTrailingSlash(ancestor, platform);
    if prefix <= path then path[|prefix|..] else path
  }

  /** Prefixing a relative path with its ancestor and making it relative again
      returns the relative path. */
  lemma RelativeToAncestorRoundTrip(ancestor: string, relative: string, platform: Platform)
    ensures GetPathRelativeToAncestor(EnsureTrailingSlash(ancestor, platform) + relative, ancestor, platform)
         == relative
  {
    var prefix := EnsureTrailingSlash(ancestor, platform);
    assert prefix <= prefix + relative;
  }
}
