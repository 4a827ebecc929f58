/** `PathException` and its four subclasses. Each is built from a path and an
    optional message template; the message is the template with the path
    substituted for `%s`. The subclasses differ only in their default
    template. */
module PathExceptions {
  import opened Wrappers
  import opened Format

  datatype Kind = PathError | DirectoryAlreadyExists | DirectoryNotFound | DirectoryNotWritable | FileNotFound

  /** The message template used when the constructor receives none. */
  function DefaultTemplate(kind: Kind): string {
    match kind
    case PathError => ""
    case DirectoryAlreadyExists => "Directory already exists: \"%s\""
    case DirectoryNotFound => "No such directory: \"%s\""
    case DirectoryNotWritable => "Directory not writable: \"%s\""
    case FileNotFound => "No such file: \"%s\""
  }

  /** A constructed exception: `getPath()` is `path`, `getMessage()` is
      `message`, `getCode()` is `code`. */
  datatype PathException = PathException(kind: Kind, path: string, message: string, code: int)

  /** Raised by `sprintf` inside the constructor when the template asks for
      more values than the one path. */
  datatype ConstructionError = ArgumentCountError

  /** `new <Kind>Exception($path, $message, $code)`, where a missing message
      means the class's default template. */
  function New(kind: Kind, path: string, template: Option<string>, code: int): (r: Result<PathException, ConstructionError>)
    ensures r.Success? ==> r.value.kind == kind && r.value.path == path && r.value.code == code
    ensures r.Success? <==> Sprintf(template.GetOr(DefaultTemplate(kind)), [path]).Some?
    ensures r.Success? ==> r.value.message == Sprintf(template.GetOr(DefaultTemplate(kind)), [path]).value
  {
    match Sprintf(template.GetOr(DefaultTemplate(kind)), [path])
    case Some(message) => Success(PathException(kind, path, message, code))
    case None => Failure(ArgumentCountError)
  }

  /** Built from a template with exactly one `%s` between plain texts, as
      every caller in the modelled code does; such a construction cannot
      fail. */
  function WithPath(kind: Kind, path: string, prefix: string, suffix: string): (e: PathException)
    requires '%' !in prefix && '%' !in suffix
    ensures e.kind == kind && e.path == path && e.code == 0
    ensures e.message == prefix + path + suffix
    ensures New(kind, path, Some(prefix + "%s" + suffix), 0) == Success(e)
  {
    SubstituteOne(prefix, suffix, path, []);
    assert [path] + [] == [path];
    New(kind, path, Some(prefix + "%s" + suffix), 0).value
  }

  /** With no message given, the default template is filled in. */
  lemma DefaultTemplateFilled(kind: Kind, path: string, prefix: string, suffix: string)
    requires '%' !in prefix && '%' !in suffix
    requires DefaultTemplate(kind) == prefix + "%s" + suffix
    ensures New(kind, path, None, 0) == Success(PathException(kind, path, prefix + path + suffix, 0))
  {
    CustomMessageSubstitutesPath(kind, path, prefix, suffix, 0);
  }

  /** With no message given, the base class's message is empty. */
  lemma DefaultPathErrorMessage(path: string)
    ensures New(PathError, path, None, 0) == Success(PathException(PathError, path, "", 0))
  {
    NoPercentIsVerbatim("", [path]);
  }

  lemma DefaultDirectoryAlreadyExistsMessage(path: string)
    ensures New(DirectoryAlreadyExists, path, None, 0)
         == Success(PathException(DirectoryAlreadyExists, path, "Directory already exists: \"" + path + "\"", 0))
  {
    DefaultTemplateFilled(DirectoryAlreadyExists, path, "Directory already exists: \"", "\"");
  }

  lemma DefaultDirectoryNotFoundMessage(path: string)
    ensures New(DirectoryNotFound, path, None, 0)
         == Success(PathException(DirectoryNotFound, path, "No such directory: \"" + path + "\"", 0))
  {
    DefaultTemplateFilled(DirectoryNotFound, path, "No such directory: \"", "\"");
  }

  lemma DefaultDirectoryNotWritableMessage(path: string)
    ensures New(DirectoryNotWritable, path, None, 0)
         == Success(PathException(DirectoryNotWritable, path, "Directory not writable: \"" + path + "\"", 0))
  {
    DefaultTemplateFilled(DirectoryNotWritable, path, "Directory not writable: \"", "\"");
  }

  lemma DefaultFileNotFoundMessage(path: string)
    ensures New(FileNotFound, path, None, 0)
         == Success(PathException(FileNotFound, path, "No such file: \"" + path + "\"", 0))
  {
    DefaultTemplateFilled(FileNotFound, path, "No such file: \"", "\"");
  }

  /** A custom message without `%` is used verbatim by every class. */
  lemma CustomMessageVerbatim(kind: Kind, path: string, message: string, code: int)
    requires '%' !in message
    ensures New(kind, path, Some(message), code) == Success(PathException(kind, path, message, code))
  {
    NoPercentIsVerbatim(message, [path]);
  }

  /** A custom message with one `%s` gets the path substituted, in every
      class. */
  lemma CustomMessageSubstitutesPath(kind: Kind, path: string, prefix: string, suffix: string, code: int)
    requires '%' !in prefix && '%' !in suffix
    ensures New(kind, path, Some(prefix + "%s" + suffix), code)
         == Success(PathException(kind, path, prefix + path + suffix, code))
  {
    SubstituteOne(prefix, suffix, path, []);
    assert [path] + [] == [path];
  }

  /** A template asking for two values fails in every class: only the path
      is passed to `sprintf`. */
  lemma TwoPlaceholdersFail(kind: Kind, path: string, prefix: string, middle: string, suffix: string, code: int)
    requires '%' !in prefix && '%' !in middle
    ensures New(kind, path, Some(prefix + "%s" + middle + "%s" + suffix), code) == Failure(ArgumentCountError)
  {
    var rest := middle + "%s" + suffix;
    var t := prefix + "%s" + middle + "%s" + suffix;
    assert t == prefix + ("%s" + rest);
    assert [path] == [path] + [];
    MissingArgument(middle, suffix);
    assert Sprintf(rest, []) == None;
    SubstituteHead(rest, path, []);
    assert Sprintf("%s" + rest, [path]) == None;
    PlainPrefix(prefix, "%s" + rest, [path]);
    assert Sprintf(t, [path]) == None;
  }
}
