/** Windows path resolution. A raw path is either absolute from a specific
    drive (`D:\...`), absolute from the current drive (`\...`), or relative.
    Resolution anchors the raw path (nothing, the base's drive, or the base
    followed by `\`), splits it on `\`, keeps the first piece as the drive
    root and walks the remaining segments as a stack: empty and `.` segments
    vanish, `..` pops one segment and never pops the root. */
module WindowsPath {

  const Sep: char := '\\'

  predicate IsDriveLetter(c: char) {
    ('a' <= c <= 'z') || ('A' <= c <= 'Z')
  }

  datatype PathKind = AbsoluteFromSpecificDrive | AbsoluteFromCurrentDrive | Relative

  /** How a raw path is anchored; it depends on the raw string alone. */
  function Kind(raw: string): PathKind {
    if |raw| >= 3 && IsDriveLetter(raw[0]) && raw[1] == ':' && raw[2] == Sep then AbsoluteFromSpecificDrive
    else if |raw| >= 1 && raw[0] == Sep then AbsoluteFromCurrentDrive
    else Relative
  }

  predicate IsAbsolute(raw: string) {
    Kind(raw) != Relative
  }

  // ---------------------------------------------------------------------
  // explode / implode on the separator

  /** `explode('\\', s)`: the pieces between separators; never empty. */
  function Explode(s: string): (parts: seq<string>)
    ensures |parts| >= 1
  {
    if s == [] then [[]]
    else
      var rest := Explode(s[1..]);
      if s[0] == Sep then [[]] + rest
      else [[s[0]] + rest[0]] + rest[1..]
  }

  /** No piece contains the separator. */
  lemma {:induction false} ExplodePiecesHaveNoSeparator(s: string)
    ensures forall i | 0 <= i < |Explode(s)| :: Sep !in Explode(s)[i]
    decreases |s|
  {
    if s != [] {
      ExplodePiecesHaveNoSeparator(s[1..]);
      var rest := Explode(s[1..]);
      if s[0] != Sep {
        assert Sep !in rest[0];
        assert Explode(s)[0] == [s[0]] + rest[0];
        assert forall i | 1 <= i < |Explode(s)| :: Explode(s)[i] == rest[i];
      }
    }
  }

  /** `implode('\\', parts)`. */
  function Implode(parts: seq<string>): string {
    if parts == [] then []
    else if |parts| == 1 then parts[0]
    else parts[0] + [Sep] + Implode(parts[1..])
  }

  /** Splitting at one separator splits the pieces there. */
  lemma {:induction false} ExplodeAtSeparator(a: string, b: string)
    ensures Explode(a + [Sep] + b) == Explode(a) + Explode(b)
    decreases |a|
  {
    if a == [] {
      var s := a + [Sep] + b;
      assert s[0] == Sep && s[1..] == b;
    } else {
      ExplodeAtSeparator(a[1..], b);
      ExplodeConsAppend(a, b);
    }
  }

  /** One step of `ExplodeAtSeparator`: the first character of `a` starts
      a new piece or joins the first one, on both sides alike. */
  lemma ExplodeConsAppend(a: string, b: string)
    requires a != []
    requires Explode(a[1..] + [Sep] + b) == Explode(a[1..]) + Explode(b)
    ensures Explode(a + [Sep] + b) == Explode(a) + Explode(b)
  {
    var s := a + [Sep] + b;
    assert s[0] == a[0] && s[1..] == a[1..] + [Sep] + b;
    if a[0] == Sep {
      ExplodeConsSeparator(a, b);
    } else {
      ExplodeConsOther(a, b);
    }
  }

  lemma ExplodeConsSeparator(a: string, b: string)
    requires a != [] && a[0] == Sep
    requires Explode(a[1..] + [Sep] + b) == Explode(a[1..]) + Explode(b)
    requires (a + [Sep] + b)[1..] == a[1..] + [Sep] + b
    ensures Explode(a + [Sep] + b) == Explode(a) + Explode(b)
  {
    var ea := Explode(a[1..]);
    var eb := Explode(b);
    assert Explode(a + [Sep] + b) == [[]] + (ea + eb);
    assert Explode(a) == [[]] + ea;
    AppendAssoc([[]], ea, eb);
  }

  lemma ExplodeConsOther(a: string, b: string)
    requires a != [] && a[0] != Sep
    requires Explode(a[1..] + [Sep] + b) == Explode(a[1..]) + Explode(b)
    requires (a + [Sep] + b)[0] == a[0] && (a + [Sep] + b)[1..] == a[1..] + [Sep] + b
    ensures Explode(a + [Sep] + b) == Explode(a) + Explode(b)
  {
    var ea := Explode(a[1..]);
    var eb := Explode(b);
    assert (ea + eb)[0] == ea[0];
    assert (ea + eb)[1..] == ea[1..] + eb;
    var first := [[a[0]] + ea[0]];
    assert Explode(a + [Sep] + b) == first + (ea[1..] + eb);
    assert Explode(a) == first + ea[1..];
    AppendAssoc(first, ea[1..], eb);
  }

  /** A string without separators is one piece. */
  lemma {:induction false} ExplodeWithoutSeparator(s: string)
    requires Sep !in s
    ensures Explode(s) == [s]
    decreases |s|
  {
    if s != [] {
      assert Sep !in s[1..];
      ExplodeWithoutSeparator(s[1..]);
      assert [s[0]] + s[1..] == s;
    }
  }

  /** Implode then explode gives back the pieces. */
  lemma {:induction false} ImplodeExplode(parts: seq<string>)
    requires |parts| >= 1
    requires forall i | 0 <= i < |parts| :: Sep !in parts[i]
    ensures Explode(Implode(parts)) == parts
    decreases |parts|
  {
    if |parts| == 1 {
      ExplodeWithoutSeparator(parts[0]);
    } else {
      ImplodeExplode(parts[1..]);
      ExplodeAtSeparator(parts[0], Implode(parts[1..]));
      ExplodeWithoutSeparator(parts[0]);
      assert [parts[0]] + parts[1..] == parts;
    }
  }

  lemma {:induction false} ImplodeAppend(a: seq<string>, b: seq<string>)
    requires |a| >= 1 && |b| >= 1
    ensures Implode(a + b) == Implode(a) + [Sep] + Implode(b)
    decreases |a|
  {
    if |a| == 1 {
      assert (a + b)[1..] == b;
    } else {
      assert (a + b)[1..] == a[1..] + b;
      ImplodeAppend(a[1..], b);
    }
  }

  /** Explode then implode gives back the string. */
  lemma {:induction false} ExplodeImplode(s: string)
    ensures Implode(Explode(s)) == s
    decreases |s|
  {
    if s != [] {
      var rest := Explode(s[1..]);
      ExplodeImplode(s[1..]);
      assert [s[0]] + s[1..] == s;
      if s[0] != Sep && |rest| > 1 {
        var parts := Explode(s);
        assert parts[1..] == rest[1..];
        assert Implode(parts) == [s[0]] + rest[0] + [Sep] + Implode(rest[1..]);
      }
    }
  }

  // ---------------------------------------------------------------------
  // the segment stack

  /** A segment that survives normalization unchanged. */
  predicate IsPlainSegment(seg: string) {
    seg != "" && seg != "." && seg != ".." && Sep !in seg
  }

  /** Every segment is plain; stated by recursion so that the solver unfolds
      it only on demand. */
  predicate AllPlain(segs: seq<string>)
    decreases |segs|
  {
    segs == [] || (IsPlainSegment(segs[0]) && AllPlain(segs[1..]))
  }

  lemma {:induction false} AllPlainAppend(a: seq<string>, b: seq<string>)
    ensures AllPlain(a + b) <==> AllPlain(a) && AllPlain(b)
    decreases |a|
  {
    if a == [] {
      assert a + b == b;
    } else {
      assert (a + b)[0] == a[0] && (a + b)[1..] == a[1..] + b;
      AllPlainAppend(a[1..], b);
    }
  }

  /** One segment against the stack of segments kept so far. */
  function Step(stack: seq<string>, seg: string): seq<string> {
    if seg == "" || seg == "." then stack
    else if seg == ".." then (if stack == [] then [] else stack[..|stack| - 1])
    else stack + [seg]
  }

  function Walk(stack: seq<string>, segs: seq<string>): seq<string>
    decreases |segs|
  {
    if segs == [] then stack else Walk(Step(stack, segs[0]), segs[1..])
  }

  lemma {:induction false} WalkAppend(stack: seq<string>, a: seq<string>, b: seq<string>)
    ensures Walk(stack, a + b) == Walk(Walk(stack, a), b)
    decreases |a|
  {
    if a == [] {
      assert a + b == b;
    } else {
      assert (a + b)[0] == a[0] && (a + b)[1..] == a[1..] + b;
      WalkAppend(Step(stack, a[0]), a[1..], b);
    }
  }

  /** Plain segments are pushed as they are. */
  lemma {:induction false} WalkPlain(stack: seq<string>, segs: seq<string>)
    requires AllPlain(segs)
    ensures Walk(stack, segs) == stack + segs
    decreases |segs|
  {
    if segs != [] {
      WalkPlain(stack + [segs[0]], segs[1..]);
      assert stack + [segs[0]] + segs[1..] == stack + segs;
    }
  }

  /** The stack only ever holds plain segments. */
  lemma {:induction false} WalkKeepsPlain(stack: seq<string>, segs: seq<string>)
    requires AllPlain(stack)
    requires forall i | 0 <= i < |segs| :: Sep !in segs[i]
    ensures AllPlain(Walk(stack, segs))
    decreases |segs|
  {
    if segs != [] {
      var seg := segs[0];
      if seg == ".." && stack != [] {
        assert stack == stack[..|stack| - 1] + [stack[|stack| - 1]];
        AllPlainAppend(stack[..|stack| - 1], [stack[|stack| - 1]]);
      } else if seg != "" && seg != "." && seg != ".." {
        assert Sep !in segs[0];
        assert AllPlain([seg]);
        AllPlainAppend(stack, [seg]);
      }
      WalkKeepsPlain(Step(stack, seg), segs[1..]);
    }
  }

  // ---------------------------------------------------------------------
  // normalization and resolution

  /** The drive root (the first piece), one separator, then the walked
      segments joined by single separators. */
  function Normalize(absolute: string): string {
    var parts := Explode(absolute);
    parts[0] + [Sep] + Implode(Walk([], parts[1..]))
  }

  /** What a raw path is prefixed with before normalization. */
  function Anchor(kind: PathKind, base: string): string {
    match kind
    case AbsoluteFromSpecificDrive => []
    case AbsoluteFromCurrentDrive => if |base| >= 2 then base[..2] else base
    case Relative => base + [Sep]
  }

  /** The resolved form of `raw` against `base` (the working directory, or
      the resolved form of another path for `resolvedRelativeTo`). */
  function Resolve(raw: string, base: string): string {
    Normalize(Anchor(Kind(raw), base) + raw)
  }

  /** A path value: its raw input and the base it was constructed with. Two
      values built from the same raw string and base are equal. */
  datatype Path = Path(raw: string, base: string) {

    predicate IsAbsolute() {
      Kind(raw) != Relative
    }

    function Resolved(): string {
      Resolve(raw, base)
    }

    /** The raw input resolved against another path's resolved form. */
    function ResolvedRelativeTo(other: Path): string {
      Resolve(raw, other.Resolved())
    }
  }

  /** A drive-rooted string that normalization leaves alone: what every
      resolution against a drive-rooted base produces. */
  predicate IsResolvedForm(p: string) {
    Kind(p) == AbsoluteFromSpecificDrive && Normalize(p) == p
  }

  /** The drive root `X:\` followed by plain segments. */
  function Rooted(drive: string, segs: seq<string>): string {
    drive + [Sep] + Implode(segs)
  }

  lemma ExplodeRooted(drive: string, segs: seq<string>)
    requires Sep !in drive && AllPlain(segs)
    ensures Explode(Rooted(drive, segs)) == [drive] + (if segs == [] then [""] else segs)
  {
    ExplodeAtSeparator(drive, Implode(segs));
    ExplodeWithoutSeparator(drive);
    if segs != [] {
      PlainHaveNoSeparator(segs);
      ImplodeExplode(segs);
    }
  }

  /** Normalization keeps the first piece and the walked rest. */
  lemma NormalizeBy(s: string, root: string, walked: seq<string>)
    requires Explode(s)[0] == root
    requires Walk([], Explode(s)[1..]) == walked
    ensures Normalize(s) == root + [Sep] + Implode(walked)
  {
  }

  /** A drive followed by plain segments is already normal. */
  lemma NormalizeOfRooted(drive: string, segs: seq<string>)
    requires Sep !in drive && AllPlain(segs)
    ensures Normalize(Rooted(drive, segs)) == Rooted(drive, segs)
  {
    var r := Rooted(drive, segs);
    ExplodeRooted(drive, segs);
    var parts := Explode(r);
    assert parts[0] == drive;
    if segs != [] {
      assert parts[1..] == segs;
      WalkPlain([], segs);
      NormalizeBy(r, drive, segs);
    } else {
      assert parts[1..] == [""];
      assert Walk([], [""]) == [];
      NormalizeBy(r, drive, []);
    }
  }

  /** Normalizing twice is normalizing once. */
  lemma NormalizeIdempotent(s: string)
    ensures Normalize(Normalize(s)) == Normalize(s)
  {
    var parts := Explode(s);
    var segs := Walk([], parts[1..]);
    ExplodePiecesHaveNoSeparator(s);
    WalkKeepsPlain([], parts[1..]);
    NormalizeOfRooted(parts[0], segs);
  }

  /** A drive-rooted string explodes with its drive `X:` first. */
  lemma DriveIsFirstPiece(s: string)
    requires Kind(s) == AbsoluteFromSpecificDrive
    ensures Explode(s)[0] == s[..2]
  {
    assert s == s[..2] + [Sep] + s[3..];
    ExplodeAtSeparator(s[..2], s[3..]);
    ExplodeWithoutSeparator(s[..2]);
  }

  /** Anchoring any raw path against a drive-rooted base gives a string
      whose first piece is a drive `X:`. */
  lemma AnchoredHasDrive(raw: string, base: string) returns (drive: string)
    requires Kind(base) == AbsoluteFromSpecificDrive
    ensures Explode(Anchor(Kind(raw), base) + raw)[0] == drive
    ensures |drive| == 2 && IsDriveLetter(drive[0]) && drive[1] == ':'
  {
    var a := Anchor(Kind(raw), base) + raw;
    match Kind(raw) {
      case AbsoluteFromSpecificDrive =>
        assert a == raw;
        DriveIsFirstPiece(raw);
        drive := raw[..2];
      case AbsoluteFromCurrentDrive =>
        assert raw == [Sep] + raw[1..];
        assert a == base[..2] + [Sep] + raw[1..];
        ExplodeAtSeparator(base[..2], raw[1..]);
        ExplodeWithoutSeparator(base[..2]);
        drive := base[..2];
      case Relative =>
        assert a == base + [Sep] + raw;
        ExplodeAtSeparator(base, raw);
        DriveIsFirstPiece(base);
        drive := base[..2];
    }
  }

  /** Against a drive-rooted base, every raw path resolves to a drive-rooted
      normal form: the result is absolute, and resolving it again against
      any base changes nothing. */
  lemma ResolvedIsAbsoluteAndStable(raw: string, base: string, other: string)
    requires Kind(base) == AbsoluteFromSpecificDrive
    ensures IsResolvedForm(Resolve(raw, base))
    ensures Resolve(Resolve(raw, base), other) == Resolve(raw, base)
  {
    var a := Anchor(Kind(raw), base) + raw;
    var drive := AnchoredHasDrive(raw, base);
    var r := Resolve(raw, base);
    NormalizeBy(a, drive, Walk([], Explode(a)[1..]));
    assert r[..2] == drive && r[2] == Sep;
    assert r[0] == drive[0] && r[1] == drive[1];
    assert Kind(r) == AbsoluteFromSpecificDrive;
    assert Anchor(Kind(r), other) + r == r;
    NormalizeIdempotent(a);
  }

  /** An empty or `.` path resolves to the (normalized) base itself. */
  lemma EmptyOrDotIsBase(raw: string, base: string)
    requires raw == "" || raw == "."
    ensures Resolve(raw, base) == Normalize(base)
    ensures IsResolvedForm(base) ==> Resolve(raw, base) == base
  {
    assert Kind(raw) == Relative;
    ExplodeAtSeparator(base, raw);
    ExplodeWithoutSeparator(raw);
    var parts := Explode(base);
    assert Explode(base + [Sep] + raw)[1..] == parts[1..] + [raw];
    WalkAppend([], parts[1..], [raw]);
  }

  /** On path values: an empty or `.` path resolved relative to another path
      gives that path's resolved form. */
  lemma EmptyOrDotRelativeTo(p: Path, other: Path)
    requires p.raw == "" || p.raw == "."
    requires Kind(other.base) == AbsoluteFromSpecificDrive
    ensures !p.IsAbsolute()
    ensures p.ResolvedRelativeTo(other) == other.Resolved()
  {
    ResolvedIsAbsoluteAndStable(other.raw, other.base, other.base);
    EmptyOrDotIsBase(p.raw, other.Resolved());
  }

  lemma HeadTail(xs: seq<string>, x: string, t: seq<string>)
    requires xs == [x] + t
    ensures xs[0] == x && xs[1..] == t
  {
  }

  lemma {:induction false} PlainHaveNoSeparator(segs: seq<string>)
    requires AllPlain(segs)
    ensures forall i | 0 <= i < |segs| :: Sep !in segs[i]
    decreases |segs|
  {
    if segs != [] {
      PlainHaveNoSeparator(segs[1..]);
      assert forall i | 1 <= i < |segs| :: segs[i] == segs[1..][i - 1];
    }
  }

  /** The pieces of a rooted base followed by relative segments. */
  lemma ExplodeRootedThenRelative(drive: string, baseSegs: seq<string>, segs: seq<string>)
    requires Sep !in drive && AllPlain(baseSegs)
    requires |segs| >= 1 && AllPlain(segs)
    ensures Explode(Rooted(drive, baseSegs) + [Sep] + Implode(segs))
         == [drive] + ((if baseSegs == [] then [""] else baseSegs) + segs)
  {
    var firstRest := if baseSegs == [] then [""] else baseSegs;
    var e1 := Explode(Rooted(drive, baseSegs));
    var e2 := Explode(Implode(segs));
    var ea := Explode(Rooted(drive, baseSegs) + [Sep] + Implode(segs));
    assert e1 == [drive] + firstRest by {
      ExplodeRooted(drive, baseSegs);
    }
    assert e2 == segs by {
      PlainHaveNoSeparator(segs);
      ImplodeExplode(segs);
    }
    assert ea == e1 + e2 by {
      ExplodeAtSeparator(Rooted(drive, baseSegs), Implode(segs));
    }
    AppendAssoc([drive], firstRest, segs);
  }

  lemma AppendAssoc(a: seq<string>, b: seq<string>, c: seq<string>)
    ensures a + b + c == a + (b + c)
  {
  }

  /** Normalization keeps the first piece and walks the others. */
  lemma NormalizeFromPieces(a: string, drive: string, rest: seq<string>)
    requires Explode(a) == [drive] + rest
    ensures Normalize(a) == drive + [Sep] + Implode(Walk([], rest))
  {
    HeadTail(Explode(a), drive, rest);
  }

  /** Walking the pieces after the drive of a rooted base, then plain
      segments, keeps them all. */
  lemma WalkRootedRest(baseSegs: seq<string>, segs: seq<string>)
    requires AllPlain(baseSegs) && AllPlain(segs)
    ensures Walk([], (if baseSegs == [] then [""] else baseSegs) + segs) == baseSegs + segs
  {
    if baseSegs == [] {
      assert ([""] + segs)[0] == "" && ([""] + segs)[1..] == segs;
      assert Walk([], [""] + segs) == Walk([], segs);
      WalkPlain([], segs);
      assert [] + segs == baseSegs + segs;
    } else {
      WalkAppend([], baseSegs, segs);
      WalkPlain([], baseSegs);
      WalkPlain(baseSegs, segs);
      assert [] + baseSegs == baseSegs;
    }
  }

  /** A relative path of plain segments extends a resolved base by those
      segments. */
  lemma RelativePlainIsAppended(drive: string, baseSegs: seq<string>, segs: seq<string>)
    requires Sep !in drive && AllPlain(baseSegs)
    requires |segs| >= 1 && AllPlain(segs)
    requires Kind(Implode(segs)) == Relative
    ensures Resolve(Implode(segs), Rooted(drive, baseSegs)) == Rooted(drive, baseSegs + segs)
  {
    var base := Rooted(drive, baseSegs);
    var raw := Implode(segs);
    var a := base + [Sep] + raw;
    var firstRest := if baseSegs == [] then [""] else baseSegs;
    assert Resolve(raw, base) == Normalize(a) by {
      assert Anchor(Kind(raw), base) + raw == a;
    }
    assert Walk([], firstRest + segs) == baseSegs + segs by {
      WalkRootedRest(baseSegs, segs);
    }
    assert Explode(a) == [drive] + (firstRest + segs) by {
      ExplodeRootedThenRelative(drive, baseSegs, segs);
    }
    NormalizeFromPieces(a, drive, firstRest + segs);
  }

  /** Below a base that is not a bare drive root, a relative path of plain
      segments resolves to `base + "\" + path`. */
  lemma RelativePlainIsBaseSepPath(drive: string, baseSegs: seq<string>, segs: seq<string>)
    requires Sep !in drive && |baseSegs| >= 1 && AllPlain(baseSegs)
    requires |segs| >= 1 && AllPlain(segs)
    requires Kind(Implode(segs)) == Relative
    ensures Resolve(Implode(segs), Rooted(drive, baseSegs)) == Rooted(drive, baseSegs) + [Sep] + Implode(segs)
  {
    RelativePlainIsAppended(drive, baseSegs, segs);
    ImplodeAppend(baseSegs, segs);
  }

  /** Inserting a separator-led piece after the first separator-free
      prefix changes neither the drive nor the anchoring. */
  lemma KindOfInsert(x: string, m: string, y: string)
    ensures Kind(x + [Sep] + m + [Sep] + y) == Kind(x + [Sep] + y)
  {
    var long := x + [Sep] + m + [Sep] + y;
    var short := x + [Sep] + y;
    if |x| >= 3 {
      assert long[..3] == x[..3] == short[..3];
    } else if |x| == 2 {
      assert long[..3] == short[..3];
    } else if |x| == 1 {
      assert long[1] == short[1] == Sep && long[0] == short[0];
    } else {
      assert long[0] == short[0] == Sep;
    }
  }

  /** An empty or `.` piece between two separators is ignored by the walk. */
  lemma NormalizeSkipsIgnored(a: string, m: string, y: string)
    requires m == "" || m == "."
    ensures Normalize(a + [Sep] + (m + [Sep] + y)) == Normalize(a + [Sep] + y)
  {
    var ea := Explode(a);
    var ey := Explode(y);
    assert Explode(a + [Sep] + (m + [Sep] + y)) == [ea[0]] + ((ea[1..] + [m]) + ey) by {
      ExplodeIgnoredPiece(a, m, y);
    }
    assert Explode(a + [Sep] + y) == [ea[0]] + (ea[1..] + ey) by {
      ExplodeAtSeparator(a, y);
      assert ea == [ea[0]] + ea[1..];
      AppendAssoc([ea[0]], ea[1..], ey);
    }
    assert Walk([], (ea[1..] + [m]) + ey) == Walk([], ea[1..] + ey) by {
      WalkAppend([], ea[1..] + [m], ey);
      WalkAppend([], ea[1..], [m]);
      WalkAppend([], ea[1..], ey);
    }
    NormalizeFromPieces(a + [Sep] + (m + [Sep] + y), ea[0], (ea[1..] + [m]) + ey);
    NormalizeFromPieces(a + [Sep] + y, ea[0], ea[1..] + ey);
  }

  /** The pieces of a string with a separator-free piece inserted. */
  lemma ExplodeIgnoredPiece(a: string, m: string, y: string)
    requires Sep !in m
    ensures Explode(a + [Sep] + (m + [Sep] + y)) == [Explode(a)[0]] + ((Explode(a)[1..] + [m]) + Explode(y))
  {
    var ea := Explode(a);
    var ey := Explode(y);
    ExplodeAtSeparator(m, y);
    ExplodeWithoutSeparator(m);
    ExplodeAtSeparator(a, m + [Sep] + y);
    assert ea == [ea[0]] + ea[1..];
    AppendAssoc([ea[0]], ea[1..], [m] + ey);
    AppendAssoc(ea[1..], [m], ey);
  }

  /** Repeated separators collapse to one. */
  lemma RepeatedSeparatorsCollapse(x: string, y: string, base: string)
    ensures Resolve(x + [Sep, Sep] + y, base) == Resolve(x + [Sep] + y, base)
  {
    KindOfInsert(x, "", y);
    assert x + [Sep, Sep] + y == x + [Sep] + "" + [Sep] + y;
    var a := Anchor(Kind(x + [Sep] + y), base) + x;
    assert a + [Sep] + ("" + [Sep] + y) == Anchor(Kind(x + [Sep] + y), base) + (x + [Sep, Sep] + y);
    assert a + [Sep] + y == Anchor(Kind(x + [Sep] + y), base) + (x + [Sep] + y);
    NormalizeSkipsIgnored(a, "", y);
  }

  /** A `.` segment vanishes. */
  lemma DotSegmentVanishes(x: string, y: string, base: string)
    ensures Resolve(x + [Sep, '.', Sep] + y, base) == Resolve(x + [Sep] + y, base)
  {
    KindOfInsert(x, ".", y);
    assert x + [Sep, '.', Sep] + y == x + [Sep] + "." + [Sep] + y;
    var a := Anchor(Kind(x + [Sep] + y), base) + x;
    assert a + [Sep] + ("." + [Sep] + y) == Anchor(Kind(x + [Sep] + y), base) + (x + [Sep, '.', Sep] + y);
    assert a + [Sep] + y == Anchor(Kind(x + [Sep] + y), base) + (x + [Sep] + y);
    NormalizeSkipsIgnored(a, ".", y);
  }

  /** A trailing separator is dropped, as long as removing it does not change
      how the path is anchored (`C:\` is absolute, `C:` is not). */
  lemma TrailingSeparatorDropped(x: string, base: string)
    requires Kind(x + [Sep]) == Kind(x)
    ensures Resolve(x + [Sep], base) == Resolve(x, base)
  {
    var a := Anchor(Kind(x), base) + x;
    assert Anchor(Kind(x + [Sep]), base) + (x + [Sep]) == a + [Sep] + [];
    ExplodeAtSeparator(a, []);
    var ea := Explode(a);
    assert Explode(a + [Sep] + []) == ea + [""];
    assert (ea + [""])[1..] == ea[1..] + [""];
    WalkAppend([], ea[1..], [""]);
  }

  /** A plain segment followed by `..` leaves the stack as it was. */
  lemma PushThenPop(stack: seq<string>, seg: string)
    requires IsPlainSegment(seg)
    ensures Walk(stack, [seg, ".."]) == stack
  {
    var pushed := stack + [seg];
    assert [seg, ".."][1..] == [".."] && [".."][1..] == [];
    assert Step(stack, seg) == pushed;
    assert Step(pushed, "..") == stack by {
      assert pushed[..|pushed| - 1] == stack;
    }
    assert Walk(pushed, [".."]) == Walk(stack, []);
  }

  /** `..` pops the segment before it. */
  lemma DotDotPopsSegment(x: string, seg: string, base: string)
    requires IsPlainSegment(seg)
    requires Kind(x + [Sep] + seg + [Sep, '.', '.']) == Kind(x)
    ensures Resolve(x + [Sep] + seg + [Sep, '.', '.'], base) == Resolve(x, base)
  {
    var a := Anchor(Kind(x), base) + x;
    var raw := x + [Sep] + seg + [Sep, '.', '.'];
    assert Resolve(raw, base) == Normalize(a + [Sep] + seg + [Sep] + "..") by {
      assert Anchor(Kind(x), base) + raw == a + [Sep] + seg + [Sep] + "..";
    }
    NormalizePushThenPop(a, seg);
  }

  /** Normalization drops a plain segment followed by `..` at the end. */
  lemma NormalizePushThenPop(a: string, seg: string)
    requires IsPlainSegment(seg)
    ensures Normalize(a + [Sep] + seg + [Sep] + "..") == Normalize(a)
  {
    var ea := Explode(a);
    ExplodeSegmentUp(a, seg);
    assert ea == [ea[0]] + ea[1..];
    AppendAssoc([ea[0]], ea[1..], [seg, ".."]);
    WalkAppend([], ea[1..], [seg, ".."]);
    PushThenPop(Walk([], ea[1..]), seg);
    NormalizeFromPieces(a + [Sep] + seg + [Sep] + "..", ea[0], ea[1..] + [seg, ".."]);
  }

  /** The pieces of a string followed by a plain segment and `..`. */
  lemma ExplodeSegmentUp(a: string, seg: string)
    requires IsPlainSegment(seg)
    ensures Explode(a + [Sep] + seg + [Sep] + "..") == Explode(a) + [seg, ".."]
  {
    assert Explode(seg + [Sep] + "..") == [seg, ".."] by {
      ExplodeAtSeparator(seg, "..");
      ExplodeWithoutSeparator(seg);
      ExplodeWithoutSeparator("..");
    }
    assert a + [Sep] + seg + [Sep] + ".." == a + [Sep] + (seg + [Sep] + "..");
    ExplodeAtSeparator(a, seg + [Sep] + "..");
  }

  /** `..` at a drive root stays at the root, and the root keeps its
      trailing separator. */
  lemma DotDotAtRootStays(drive: string, raw: string)
    requires Sep !in drive
    requires Kind(raw) == Relative
    ensures Resolve("..", Rooted(drive, [])) == Rooted(drive, [])
    ensures Resolve(".." + [Sep] + raw, Rooted(drive, [])) == Resolve(raw, Rooted(drive, []))
  {
    DotDotAtRoot(drive);
    DotDotAtRootThen(drive, raw);
  }

  /** The pieces of a drive root followed by `..`. */
  lemma ExplodeRootUp(drive: string)
    requires Sep !in drive
    ensures Explode(Rooted(drive, []) + [Sep] + "..") == [drive] + ["", ".."]
  {
    ExplodeRooted(drive, []);
    ExplodeWithoutSeparator("..");
    ExplodeAtSeparator(Rooted(drive, []), "..");
  }

  lemma DotDotAtRoot(drive: string)
    requires Sep !in drive
    ensures Resolve("..", Rooted(drive, [])) == Rooted(drive, [])
  {
    var root := Rooted(drive, []);
    ExplodeRootUp(drive);
    assert Walk([], ["", ".."]) == [];
    NormalizeFromPieces(root + [Sep] + "..", drive, ["", ".."]);
  }

  lemma ExplodeRootUpThen(drive: string, raw: string)
    requires Sep !in drive
    ensures Explode(Rooted(drive, []) + [Sep] + ".." + [Sep] + raw) == [drive] + (["", ".."] + Explode(raw))
  {
    ExplodeRootUp(drive);
    ExplodeAtSeparator(Rooted(drive, []) + [Sep] + "..", raw);
  }

  lemma ExplodeRootThen(drive: string, raw: string)
    requires Sep !in drive
    ensures Explode(Rooted(drive, []) + [Sep] + raw) == [drive] + ([""] + Explode(raw))
  {
    ExplodeRooted(drive, []);
    ExplodeAtSeparator(Rooted(drive, []), raw);
  }

  lemma DotDotAtRootThen(drive: string, raw: string)
    requires Sep !in drive
    requires Kind(raw) == Relative
    ensures Resolve(".." + [Sep] + raw, Rooted(drive, [])) == Resolve(raw, Rooted(drive, []))
  {
    var root := Rooted(drive, []);
    var er := Explode(raw);
    var long := root + [Sep] + ".." + [Sep] + raw;
    assert Kind(".." + [Sep] + raw) == Relative;
    assert root + [Sep] + (".." + [Sep] + raw) == long;
    ExplodeRootUpThen(drive, raw);
    ExplodeRootThen(drive, raw);
    WalkAppend([], ["", ".."], er);
    WalkAppend([], [""], er);
    NormalizeFromPieces(long, drive, ["", ".."] + er);
    NormalizeFromPieces(root + [Sep] + raw, drive, [""] + er);
  }

  /** Normalizing a drive-rooted string keeps its leading `X:\`. */
  lemma NormalizeKeepsDrive(s: string)
    requires Kind(s) == AbsoluteFromSpecificDrive
    ensures |Normalize(s)| >= 3 && Normalize(s)[..3] == s[..3]
  {
    DriveIsFirstPiece(s);
    var parts := Explode(s);
    NormalizeBy(s, s[..2], Walk([], parts[1..]));
    assert s[..3] == s[..2] + [Sep];
  }

  /** A path absolute from a specific drive ignores the base, in `resolved`
      and in `resolvedRelativeTo` alike, and keeps its drive. */
  lemma SpecificDriveIgnoresBase(p: Path, other: Path)
    requires Kind(p.raw) == AbsoluteFromSpecificDrive
    ensures p.IsAbsolute()
    ensures p.Resolved() == Normalize(p.raw)
    ensures p.ResolvedRelativeTo(other) == p.Resolved()
    ensures |p.Resolved()| >= 3 && p.Resolved()[..3] == p.raw[..3]
  {
    assert Anchor(Kind(p.raw), p.base) + p.raw == p.raw;
    assert Anchor(Kind(p.raw), other.Resolved()) + p.raw == p.raw;
    NormalizeKeepsDrive(p.raw);
  }

  /** A path absolute from the current drive takes the drive of the base (of
      the other path's resolved form, in `resolvedRelativeTo`), exactly as if
      that drive had been written in front of it. */
  lemma CurrentDriveTakesBaseDrive(raw: string, base: string, other: string)
    requires Kind(raw) == AbsoluteFromCurrentDrive
    requires Kind(base) == AbsoluteFromSpecificDrive
    ensures IsAbsolute(raw)
    ensures Kind(base[..2] + raw) == AbsoluteFromSpecificDrive
    ensures Resolve(raw, base) == Resolve(base[..2] + raw, other)
    ensures |Resolve(raw, base)| >= 3 && Resolve(raw, base)[..3] == base[..3]
  {
    var d := base[..2] + raw;
    assert d[0] == base[0] && d[1] == base[1] && d[2] == raw[0];
    assert Kind(d) == AbsoluteFromSpecificDrive;
    assert Anchor(Kind(raw), base) + raw == d;
    assert Anchor(Kind(d), other) + d == d;
    NormalizeKeepsDrive(d);
    assert d[..3] == base[..3];
  }

  /** An empty path resolves to its base (first row of the unit test's data
      provider). */
  lemma ExampleEmptyPath()
    ensures Resolve("", "C:\\Windows\\One") == "C:\\Windows\\One"
  {
    assert Normalize("C:\\Windows\\One") == "C:\\Windows\\One" by {
      assert AllPlain(["Windows", "One"]);
      assert Rooted("C:", ["Windows", "One"]) == "C:\\Windows\\One";
      NormalizeOfRooted("C:", ["Windows", "One"]);
    }
    EmptyOrDotIsBase("", "C:\\Windows\\One");
  }

  /** A simple relative path is appended to its base. */
  lemma ExampleRelative()
    ensures Resolve("One", "C:\\Windows") == "C:\\Windows\\One"
  {
    assert AllPlain(["Windows"]) && AllPlain(["One"]);
    assert Implode(["One"]) == "One";
    assert Rooted("C:", ["Windows"]) == "C:\\Windows";
    RelativePlainIsBaseSepPath("C:", ["Windows"], ["One"]);
  }

  /** `..` against a drive root gives the root. */
  lemma ExampleDotDotAtRoot()
    ensures Resolve("..", "C:\\") == "C:\\"
  {
    assert Rooted("C:", []) == "C:\\";
    DotDotAtRootStays("C:", "");
  }

  /** A specific-drive root ignores a base on another drive. */
  lemma ExampleSpecificDrive()
    ensures Resolve("D:\\", "C:\\") == "D:\\"
  {
    assert Rooted("D:", []) == "D:\\";
    SpecificDriveIgnoresBase(Path("D:\\", "C:\\"), Path("D:\\", "C:\\"));
    NormalizeOfRooted("D:", []);
  }

  /** A current-drive path takes the base's drive. */
  lemma ExampleCurrentDrive()
    ensures Resolve("\\One", "C:\\Windows") == "C:\\One"
  {
    CurrentDriveTakesBaseDrive("\\One", "C:\\Windows", "C:\\Windows");
    assert "C:\\Windows"[..2] + "\\One" == "C:\\One";
    assert AllPlain(["One"]);
    assert Rooted("C:", ["One"]) == "C:\\One";
    NormalizeOfRooted("C:", ["One"]);
    SpecificDriveIgnoresBase(Path("C:\\One", "C:\\Windows"), Path("C:\\One", "C:\\Windows"));
  }
}
