/** The part of PHP's `sprintf` the modelled messages use: `%s` conversions
    filled from an argument list, and the `%%` escape. */
module Format {
  import opened Wrappers

  /** `sprintf(template, ...args)` for templates whose only conversions are
      `%s` and `%%`. Arguments are consumed left to right and surplus ones
      are ignored. A `%s` with no argument left makes PHP raise an
      `ArgumentCountError`, modelled as `None`. A `%` followed by any other
      character is copied as an ordinary character. */
  function Sprintf(template: string, args: seq<string>): Option<string>
    decreases |template|
  {
    if |template| < 2 then Some(template)
    else if template[0] == '%' && template[1] == 's' then
      if args == [] then None
      else Prepend(args[0], Sprintf(template[2..], args[1..]))
    else if template[0] == '%' && template[1] == '%' then
      Prepend("%", Sprintf(template[2..], args))
    else
      Prepend([template[0]], Sprintf(template[1..], args))
  }

  /** Text in front of a formatted rest, or the rest's failure. */
  function Prepend(text: string, rest: Option<string>): (r: Option<string>)
    ensures r.Some? <==> rest.Some?
    ensures r.Some? ==> r.value == text + rest.value
  {
    match rest
    case Some(s) => Some(text + s)
    case None => None
  }

  /** A template without any `%` is used verbatim, whatever the arguments. */
  lemma {:induction false} NoPercentIsVerbatim(template: string, args: seq<string>)
    requires '%' !in template
    ensures Sprintf(template, args) == Some(template)
    decreases |template|
  {
    if |template| >= 2 {
      assert template[0] != '%';
      assert '%' !in template[1..];
      NoPercentIsVerbatim(template[1..], args);
      assert [template[0]] + template[1..] == template;
    }
  }

  /** Text before the first conversion is copied unchanged and does not
      consume arguments. */
  lemma {:induction false} PlainPrefix(prefix: string, rest: string, args: seq<string>)
    requires '%' !in prefix
    ensures Sprintf(prefix + rest, args) == Prepend(prefix, Sprintf(rest, args))
    decreases |prefix|
  {
    if prefix == [] {
      assert prefix + rest == rest;
      if Sprintf(rest, args).Some? {
        assert prefix + Sprintf(rest, args).value == Sprintf(rest, args).value;
      }
    } else {
      var t := prefix + rest;
      assert t[0] == prefix[0] != '%';
      assert t[1..] == prefix[1..] + rest;
      if |t| >= 2 {
        PlainPrefix(prefix[1..], rest, args);
        assert Sprintf(t, args) == Prepend([t[0]], Sprintf(t[1..], args));
        PrependTwice([prefix[0]], prefix[1..], Sprintf(rest, args));
        assert [prefix[0]] + prefix[1..] == prefix;
      } else {
        assert rest == [] && t == prefix;
        assert Sprintf(rest, args) == Some([]);
        assert prefix + [] == prefix;
      }
    }
  }

  /** Prepending twice is prepending the joined text. */
  lemma PrependTwice(a: string, b: string, rest: Option<string>)
    ensures Prepend(a, Prepend(b, rest)) == Prepend(a + b, rest)
  {
    if rest.Some? {
      assert a + (b + rest.value) == (a + b) + rest.value;
    }
  }

  /** A leading `%s` takes the first argument and leaves the rest. */
  lemma SubstituteHead(rest: string, arg: string, more: seq<string>)
    ensures Sprintf("%s" + rest, [arg] + more) == Prepend(arg, Sprintf(rest, more))
  {
    var t := "%s" + rest;
    assert t[0] == '%' && t[1] == 's' && t[2..] == rest;
    assert ([arg] + more)[1..] == more;
  }

  /** A `%s` with no argument left fails, whatever follows it. */
  lemma MissingArgument(prefix: string, rest: string)
    requires '%' !in prefix
    ensures Sprintf(prefix + "%s" + rest, []) == None
  {
    assert prefix + "%s" + rest == prefix + ("%s" + rest);
    PlainPrefix(prefix, "%s" + rest, []);
    var t := "%s" + rest;
    assert t[0] == '%' && t[1] == 's';
  }

  /** One `%s` between two plain texts receives the first argument. */
  lemma SubstituteOne(prefix: string, suffix: string, arg: string, more: seq<string>)
    requires '%' !in prefix && '%' !in suffix
    ensures Sprintf(prefix + "%s" + suffix, [arg] + more) == Some(prefix + arg + suffix)
  {
    assert prefix + "%s" + suffix == prefix + ("%s" + suffix);
    PlainPrefix(prefix, "%s" + suffix, [arg] + more);
    SubstituteHead(suffix, arg, more);
    NoPercentIsVerbatim(suffix, more);
    assert Sprintf("%s" + suffix, [arg] + more) == Some(arg + suffix);
    assert prefix + (arg + suffix) == prefix + arg + suffix;
  }

  /** Two `%s` conversions receive the first two arguments, in order. */
  lemma SubstituteTwo(prefix: string, middle: string, suffix: string, first: string, second: string)
    requires '%' !in prefix && '%' !in middle && '%' !in suffix
    ensures Sprintf(prefix + "%s" + middle + "%s" + suffix, [first, second])
         == Some(prefix + first + middle + second + suffix)
  {
    var tail := middle + "%s" + suffix;
    Regroup(prefix, "%s", middle, "%s", suffix);
    PlainPrefix(prefix, "%s" + tail, [first, second]);
    assert [first, second] == [first] + [second];
    SubstituteHead(tail, first, [second]);
    assert [second] + [] == [second];
    SubstituteOne(middle, suffix, second, []);
    Regroup(prefix, first, middle, second, suffix);
  }

  /** Five texts joined left to right, regrouped from the second on. */
  lemma Regroup(a: string, b: string, c: string, d: string, e: string)
    ensures a + b + c + d + e == a + (b + (c + d + e))
  {
  }
}
