/** The composite of preconditions. A leaf asks something of the environment;
    a tree has an ordered list of children and is fulfilled when all of them
    are. Evaluation walks the children in order and stops at the first one
    that fails. What the tree reports when a child fails is a per-tree
    policy: older trees report their own unfulfilled message, newer trees
    pass the failing child's exception on unchanged. */
module PreconditionsTree {
  import opened Wrappers

  /** What a tree reports when one of its children fails. */
  datatype Policy =
    | ReportOwn(unfulfilledMessage: string)
    | ForwardChild

  /** A leaf precondition: its identity, `getName()`, `getDescription()` and
      the message `getStatusMessage()` gives when it is fulfilled. */
  datatype LeafInfo = LeafInfo(id: string, name: string, description: string, fulfilledMessage: string)

  datatype TreeInfo = TreeInfo(name: string, description: string, fulfilledMessage: string, policy: Policy)

  datatype Precondition =
    | Leaf(leaf: LeafInfo)
    | Tree(tree: TreeInfo, children: seq<Precondition>)
  {
    function Name(): string {
      match this
      case Leaf(l) => l.name
      case Tree(t, _) => t.name
    }

    function FulfilledMessage(): string {
      match this
      case Leaf(l) => l.fulfilledMessage
      case Tree(t, _) => t.fulfilledMessage
    }
  }

  /** The arguments every precondition receives: the active and staging
      directories, the optional exclusions and the optional timeout. */
  datatype Context = Context(activeDir: string, stagingDir: string, exclusions: Option<seq<string>>, timeout: Option<int>)

  /** What the environment says about a leaf: `None` when it is fulfilled,
      otherwise the message of the exception its `assertIsFulfilled` throws. */
  type Oracle = (LeafInfo, Context) -> Option<string>

  /** A `PreconditionException`: the precondition that raised it and its
      message. */
  datatype PreconditionError = PreconditionError(failed: string, message: string)

  /** The exception a single leaf raises, if any. */
  function LeafError(l: LeafInfo, oracle: Oracle, ctx: Context): Option<PreconditionError> {
    match oracle(l, ctx)
    case None => None
    case Some(m) => Some(PreconditionError(l.name, m))
  }

  // ---------------------------------------------------------------------
  // evaluation

  /** `assertIsFulfilled` as a value: the exception the precondition throws,
      or `None`. Children are asserted in order and the first failure ends
      the walk. */
  function Failure(p: Precondition, oracle: Oracle, ctx: Context): Option<PreconditionError>
    decreases p
  {
    match p
    case Leaf(l) => LeafError(l, oracle, ctx)
    case Tree(t, cs) =>
      match FirstFailure(cs, oracle, ctx)
      case None => None
      case Some(e) =>
        match t.policy
        case ReportOwn(m) => Some(PreconditionError(t.name, m))
        case ForwardChild => Some(e)
  }

  function FirstFailure(cs: seq<Precondition>, oracle: Oracle, ctx: Context): Option<PreconditionError>
    decreases cs
  {
    if cs == [] then None
    else
      match Failure(cs[0], oracle, ctx)
      case Some(e) => Some(e)
      case None => FirstFailure(cs[1..], oracle, ctx)
  }

  predicate IsFulfilled(p: Precondition, oracle: Oracle, ctx: Context) {
    Failure(p, oracle, ctx).None?
  }

  /** `getStatusMessage`, as every precondition defines it: the fulfilled
      message when `isFulfilled` holds, otherwise the unfulfilled message. A
      leaf's unfulfilled message is its exception's; an older tree's is its
      own; a newer tree's is the status message of its first unfulfilled
      child. Whichever it is, it is the message `assertIsFulfilled` throws. */
  function StatusMessage(p: Precondition, oracle: Oracle, ctx: Context): (r: string)
    ensures Failure(p, oracle, ctx).None? ==> r == p.FulfilledMessage()
    ensures Failure(p, oracle, ctx).Some? ==> r == Failure(p, oracle, ctx).value.message
    decreases p
  {
    if IsFulfilled(p, oracle, ctx) then p.FulfilledMessage()
    else
      match p
      case Leaf(l) => (match oracle(l, ctx) case Some(m) => m case None => "")
      case Tree(t, cs) =>
        match t.policy
        case ReportOwn(m) => m
        case ForwardChild => FirstUnfulfilledStatus(cs, oracle, ctx)
  }

  /** The status message of the first unfulfilled child, if there is one. */
  function FirstUnfulfilledStatus(cs: seq<Precondition>, oracle: Oracle, ctx: Context): (r: string)
    ensures FirstFailure(cs, oracle, ctx).Some? ==> r == FirstFailure(cs, oracle, ctx).value.message
    decreases cs
  {
    if cs == [] then ""
    else if !IsFulfilled(cs[0], oracle, ctx) then StatusMessage(cs[0], oracle, ctx)
    else FirstUnfulfilledStatus(cs[1..], oracle, ctx)
  }

  function AssertIsFulfilled(p: Precondition, oracle: Oracle, ctx: Context): Outcome<PreconditionError> {
    match Failure(p, oracle, ctx)
    case None => Pass
    case Some(e) => Fail(e)
  }

  // ---------------------------------------------------------------------
  // leaves

  /** `getLeaves`: the leaves in pre-order, left to right; a tree contributes
      only the leaves below it. */
  function Leaves(p: Precondition): seq<LeafInfo>
    decreases p
  {
    match p
    case Leaf(l) => [l]
    case Tree(_, cs) => LeavesOf(cs)
  }

  function LeavesOf(cs: seq<Precondition>): seq<LeafInfo>
    decreases cs
  {
    if cs == [] then [] else Leaves(cs[0]) + LeavesOf(cs[1..])
  }

  /** The first exception along a sequence of leaves. */
  function FirstLeafFailure(ls: seq<LeafInfo>, oracle: Oracle, ctx: Context): (r: Option<PreconditionError>)
    ensures r.None? <==> forall i | 0 <= i < |ls| :: oracle(ls[i], ctx).None?
    ensures r.Some? ==> exists i | 0 <= i < |ls| :: r == LeafError(ls[i], oracle, ctx)
    decreases |ls|
  {
    if ls == [] then None
    else if LeafError(ls[0], oracle, ctx).Some? then LeafError(ls[0], oracle, ctx)
    else
      var r := FirstLeafFailure(ls[1..], oracle, ctx);
      assert forall i | 1 <= i < |ls| :: ls[i] == ls[1..][i - 1];
      r
  }

  lemma {:induction false} FirstLeafFailureAppend(a: seq<LeafInfo>, b: seq<LeafInfo>, oracle: Oracle, ctx: Context)
    ensures FirstLeafFailure(a + b, oracle, ctx)
         == if FirstLeafFailure(a, oracle, ctx).Some? then FirstLeafFailure(a, oracle, ctx) else FirstLeafFailure(b, oracle, ctx)
    decreases |a|
  {
    if a == [] {
      assert a + b == b;
    } else {
      assert (a + b)[0] == a[0] && (a + b)[1..] == a[1..] + b;
      FirstLeafFailureAppend(a[1..], b, oracle, ctx);
    }
  }

  /** Every tree below forwards its children's exceptions. */
  predicate AllForward(p: Precondition)
    decreases p
  {
    match p
    case Leaf(_) => true
    case Tree(t, cs) => t.policy.ForwardChild? && AllForwardOf(cs)
  }

  predicate AllForwardOf(cs: seq<Precondition>)
    decreases cs
  {
    cs == [] || (AllForward(cs[0]) && AllForwardOf(cs[1..]))
  }

  /** A precondition fails exactly when one of its leaves does; when every
      tree forwards, the exception is the first failing leaf's own. */
  lemma {:induction false} FailureIsFirstLeafFailure(p: Precondition, oracle: Oracle, ctx: Context)
    ensures Failure(p, oracle, ctx).Some? <==> FirstLeafFailure(Leaves(p), oracle, ctx).Some?
    ensures AllForward(p) ==> Failure(p, oracle, ctx) == FirstLeafFailure(Leaves(p), oracle, ctx)
    decreases p
  {
    match p
    case Leaf(l) =>
      assert Leaves(p)[1..] == [];
    case Tree(t, cs) =>
      FirstFailureIsFirstLeafFailure(cs, oracle, ctx);
  }

  lemma {:induction false} FirstFailureIsFirstLeafFailure(cs: seq<Precondition>, oracle: Oracle, ctx: Context)
    ensures FirstFailure(cs, oracle, ctx).Some? <==> FirstLeafFailure(LeavesOf(cs), oracle, ctx).Some?
    ensures AllForwardOf(cs) ==> FirstFailure(cs, oracle, ctx) == FirstLeafFailure(LeavesOf(cs), oracle, ctx)
    decreases cs
  {
    if cs != [] {
      FailureIsFirstLeafFailure(cs[0], oracle, ctx);
      FirstFailureIsFirstLeafFailure(cs[1..], oracle, ctx);
      FirstLeafFailureAppend(Leaves(cs[0]), LeavesOf(cs[1..]), oracle, ctx);
    }
  }

  /** A tree is fulfilled if and only if every one of its leaves is. */
  lemma FulfilledIffAllLeavesFulfilled(p: Precondition, oracle: Oracle, ctx: Context)
    ensures IsFulfilled(p, oracle, ctx) <==> forall i | 0 <= i < |Leaves(p)| :: oracle(Leaves(p)[i], ctx).None?
  {
    FailureIsFirstLeafFailure(p, oracle, ctx);
  }

  /** When every tree forwards, the status message of an unfulfilled
      precondition is the message of its first failing leaf, and every
      leaf before that one is fulfilled. */
  lemma ForwardedMessageIsFirstFailingLeaf(p: Precondition, oracle: Oracle, ctx: Context)
    requires AllForward(p)
    requires !IsFulfilled(p, oracle, ctx)
    ensures exists k | 0 <= k < |Leaves(p)| ::
              && oracle(Leaves(p)[k], ctx) == Some(StatusMessage(p, oracle, ctx))
              && Failure(p, oracle, ctx) == Some(PreconditionError(Leaves(p)[k].name, StatusMessage(p, oracle, ctx)))
              && (forall j | 0 <= j < k :: oracle(Leaves(p)[j], ctx).None?)
  {
    FailureIsFirstLeafFailure(p, oracle, ctx);
    FirstFailingIndex(Leaves(p), oracle, ctx);
    var k :| FailsFirstAt(Leaves(p), oracle, ctx, k);
    assert oracle(Leaves(p)[k], ctx) == Some(StatusMessage(p, oracle, ctx));
  }

  /** Leaf `k` is the first failing one and gives the first exception. */
  predicate FailsFirstAt(ls: seq<LeafInfo>, oracle: Oracle, ctx: Context, k: int) {
    && 0 <= k < |ls|
    && oracle(ls[k], ctx).Some?
    && FirstLeafFailure(ls, oracle, ctx) == Some(PreconditionError(ls[k].name, oracle(ls[k], ctx).value))
    && (forall j | 0 <= j < k :: oracle(ls[j], ctx).None?)
  }

  /** The first exception along leaves comes from the first failing leaf. */
  lemma {:induction false} FirstFailingIndex(ls: seq<LeafInfo>, oracle: Oracle, ctx: Context)
    requires FirstLeafFailure(ls, oracle, ctx).Some?
    ensures exists k :: FailsFirstAt(ls, oracle, ctx, k)
    decreases |ls|
  {
    if LeafError(ls[0], oracle, ctx).Some? {
      assert FailsFirstAt(ls, oracle, ctx, 0);
    } else {
      FirstFailingIndex(ls[1..], oracle, ctx);
      var k :| FailsFirstAt(ls[1..], oracle, ctx, k);
      FailsFirstShift(ls, oracle, ctx, k);
    }
  }

  /** Past a fulfilled first leaf, the first failing index moves up by one. */
  lemma FailsFirstShift(ls: seq<LeafInfo>, oracle: Oracle, ctx: Context, k: int)
    requires |ls| > 0 && oracle(ls[0], ctx).None?
    requires FailsFirstAt(ls[1..], oracle, ctx, k)
    ensures FailsFirstAt(ls, oracle, ctx, k + 1)
  {
    assert ls[k + 1] == ls[1..][k];
    assert forall j | 1 <= j < k + 1 :: ls[j] == ls[1..][j - 1];
  }

  // ---------------------------------------------------------------------
  // probes

  /** One call of a leaf's check, with the arguments it received. */
  datatype Probe = Probe(leaf: LeafInfo, ctx: Context)

  /** The leaf checks one evaluation makes, in order. */
  function Probes(p: Precondition, oracle: Oracle, ctx: Context): seq<Probe>
    decreases p
  {
    match p
    case Leaf(l) => [Probe(l, ctx)]
    case Tree(_, cs) => ProbesOf(cs, oracle, ctx)
  }

  function ProbesOf(cs: seq<Precondition>, oracle: Oracle, ctx: Context): seq<Probe>
    decreases cs
  {
    if cs == [] then []
    else if Failure(cs[0], oracle, ctx).Some? then Probes(cs[0], oracle, ctx)
    else Probes(cs[0], oracle, ctx) + ProbesOf(cs[1..], oracle, ctx)
  }

  /** The leaves a first-failure walk along `ls` checks: all of them up to
      and including the first that fails. */
  function LeafProbes(ls: seq<LeafInfo>, oracle: Oracle, ctx: Context): (r: seq<Probe>)
    ensures |r| <= |ls|
    decreases |ls|
  {
    if ls == [] then []
    else if oracle(ls[0], ctx).Some? then [Probe(ls[0], ctx)]
    else [Probe(ls[0], ctx)] + LeafProbes(ls[1..], oracle, ctx)
  }

  /** The walk checks a prefix of the leaves, each with the caller's
      arguments. */
  lemma {:induction false} LeafProbesArePrefix(ls: seq<LeafInfo>, oracle: Oracle, ctx: Context)
    ensures forall i | 0 <= i < |LeafProbes(ls, oracle, ctx)| :: LeafProbes(ls, oracle, ctx)[i] == Probe(ls[i], ctx)
    decreases |ls|
  {
    if ls != [] && oracle(ls[0], ctx).None? {
      LeafProbesArePrefix(ls[1..], oracle, ctx);
      var r := LeafProbes(ls, oracle, ctx);
      var rest := LeafProbes(ls[1..], oracle, ctx);
      assert r == [Probe(ls[0], ctx)] + rest;
      assert forall i | 1 <= i < |r| :: r[i] == rest[i - 1] && ls[i] == ls[1..][i - 1];
    }
  }

  /** All but the last checked leaf are fulfilled; the walk checks every
      leaf exactly when none fails, and otherwise stops at a failing one. */
  lemma {:induction false} LeafProbesStopAtFailure(ls: seq<LeafInfo>, oracle: Oracle, ctx: Context)
    ensures forall i | 0 <= i < |LeafProbes(ls, oracle, ctx)| - 1 :: oracle(ls[i], ctx).None?
    ensures FirstLeafFailure(ls, oracle, ctx).None? ==> |LeafProbes(ls, oracle, ctx)| == |ls|
    ensures FirstLeafFailure(ls, oracle, ctx).Some? ==>
              |LeafProbes(ls, oracle, ctx)| >= 1 && oracle(ls[|LeafProbes(ls, oracle, ctx)| - 1], ctx).Some?
    decreases |ls|
  {
    if ls != [] && oracle(ls[0], ctx).None? {
      LeafProbesStopAtFailure(ls[1..], oracle, ctx);
      var n := |LeafProbes(ls[1..], oracle, ctx)|;
      assert |LeafProbes(ls, oracle, ctx)| == n + 1;
      assert FirstLeafFailure(ls, oracle, ctx) == FirstLeafFailure(ls[1..], oracle, ctx);
      assert forall i | 1 <= i < |ls| :: ls[i] == ls[1..][i - 1];
    }
  }

  lemma {:induction false} LeafProbesAppend(a: seq<LeafInfo>, b: seq<LeafInfo>, oracle: Oracle, ctx: Context)
    ensures LeafProbes(a + b, oracle, ctx)
         == if FirstLeafFailure(a, oracle, ctx).Some? then LeafProbes(a, oracle, ctx)
            else LeafProbes(a, oracle, ctx) + LeafProbes(b, oracle, ctx)
    decreases |a|
  {
    if a == [] {
      assert a + b == b;
      assert LeafProbes(a, oracle, ctx) + LeafProbes(b, oracle, ctx) == LeafProbes(b, oracle, ctx);
    } else {
      var ab := a + b;
      assert ab[0] == a[0] && ab[1..] == a[1..] + b;
      if oracle(a[0], ctx).None? {
        LeafProbesAppend(a[1..], b, oracle, ctx);
        assert LeafError(a[0], oracle, ctx).None?;
        assert FirstLeafFailure(a, oracle, ctx) == FirstLeafFailure(a[1..], oracle, ctx);
        var head := [Probe(a[0], ctx)];
        assert LeafProbes(ab, oracle, ctx) == head + LeafProbes(a[1..] + b, oracle, ctx);
        assert LeafProbes(a, oracle, ctx) == head + LeafProbes(a[1..], oracle, ctx);
        ProbesAssoc(head, LeafProbes(a[1..], oracle, ctx), LeafProbes(b, oracle, ctx));
      }
    }
  }

  lemma ProbesAssoc(x: seq<Probe>, y: seq<Probe>, z: seq<Probe>)
    ensures x + (y + z) == (x + y) + z
  {
  }

  /** Evaluating a tree checks its leaves in pre-order, each once, with the
      same arguments, up to and including the first failing leaf; when the
      tree is fulfilled, every leaf is checked exactly once. */
  lemma {:induction false} ProbesFollowLeaves(p: Precondition, oracle: Oracle, ctx: Context)
    ensures Probes(p, oracle, ctx) == LeafProbes(Leaves(p), oracle, ctx)
    decreases p
  {
    match p
    case Leaf(l) =>
      assert Leaves(p)[1..] == [];
    case Tree(t, cs) =>
      ProbesOfFollowLeaves(cs, oracle, ctx);
  }

  lemma {:induction false} ProbesOfFollowLeaves(cs: seq<Precondition>, oracle: Oracle, ctx: Context)
    ensures ProbesOf(cs, oracle, ctx) == LeafProbes(LeavesOf(cs), oracle, ctx)
    decreases cs
  {
    if cs != [] {
      ProbesFollowLeaves(cs[0], oracle, ctx);
      ProbesOfFollowLeaves(cs[1..], oracle, ctx);
      FailureIsFirstLeafFailure(cs[0], oracle, ctx);
      LeafProbesAppend(Leaves(cs[0]), LeavesOf(cs[1..]), oracle, ctx);
    }
  }

  /** A fulfilled precondition probes each of its leaves exactly once, in
      order, with the caller's arguments. */
  lemma FulfilledProbesEveryLeafOnce(p: Precondition, oracle: Oracle, ctx: Context)
    requires IsFulfilled(p, oracle, ctx)
    ensures |Probes(p, oracle, ctx)| == |Leaves(p)|
    ensures forall i | 0 <= i < |Leaves(p)| :: Probes(p, oracle, ctx)[i] == Probe(Leaves(p)[i], ctx)
  {
    ProbesFollowLeaves(p, oracle, ctx);
    FailureIsFirstLeafFailure(p, oracle, ctx);
    LeafProbesArePrefix(Leaves(p), oracle, ctx);
    LeafProbesStopAtFailure(Leaves(p), oracle, ctx);
  }

  /** Every leaf check receives the caller's arguments unchanged. */
  lemma ProbesCarryContext(p: Precondition, oracle: Oracle, ctx: Context)
    ensures |Probes(p, oracle, ctx)| <= |Leaves(p)|
    ensures forall i | 0 <= i < |Probes(p, oracle, ctx)| :: Probes(p, oracle, ctx)[i] == Probe(Leaves(p)[i], ctx)
  {
    ProbesFollowLeaves(p, oracle, ctx);
    LeafProbesArePrefix(Leaves(p), oracle, ctx);
  }

  // ---------------------------------------------------------------------
  // children

  /** The children are fulfilled together or the walk finds a failure. */
  lemma {:induction false} FirstFailureNoneIffAllChildren(cs: seq<Precondition>, oracle: Oracle, ctx: Context)
    ensures FirstFailure(cs, oracle, ctx).None? <==> forall i | 0 <= i < |cs| :: IsFulfilled(cs[i], oracle, ctx)
    decreases |cs|
  {
    if cs != [] {
      FirstFailureNoneIffAllChildren(cs[1..], oracle, ctx);
      assert forall i | 1 <= i < |cs| :: cs[i] == cs[1..][i - 1];
    }
  }

  /** Once the children before `k` are fulfilled, the walk's verdict is
      decided from `cs[k]` on. */
  lemma {:induction false} FirstFailureAfterPassing(cs: seq<Precondition>, k: nat, oracle: Oracle, ctx: Context)
    requires k < |cs|
    requires forall j | 0 <= j < k :: IsFulfilled(cs[j], oracle, ctx)
    ensures FirstFailure(cs, oracle, ctx)
         == if Failure(cs[k], oracle, ctx).Some? then Failure(cs[k], oracle, ctx) else FirstFailure(cs[k + 1..], oracle, ctx)
    decreases k
  {
    if k > 0 {
      assert IsFulfilled(cs[0], oracle, ctx);
      assert forall j | 0 <= j < k - 1 :: cs[1..][j] == cs[j + 1];
      FirstFailureAfterPassing(cs[1..], k - 1, oracle, ctx);
      assert cs[1..][k - 1] == cs[k];
      assert cs[1..][k..] == cs[k + 1..];
    }
  }

  /** A tree is fulfilled if and only if each child is. */
  lemma TreeFulfilledIffChildren(info: TreeInfo, cs: seq<Precondition>, oracle: Oracle, ctx: Context)
    ensures IsFulfilled(Tree(info, cs), oracle, ctx) <==> forall i | 0 <= i < |cs| :: IsFulfilled(cs[i], oracle, ctx)
  {
    FirstFailureNoneIffAllChildren(cs, oracle, ctx);
  }

  /** When child `k` is the first that fails, the tree's exception is that
      child's (forwarding) or the tree's own (reporting). */
  lemma TreeReportsFirstFailingChild(info: TreeInfo, cs: seq<Precondition>, k: nat, oracle: Oracle, ctx: Context)
    requires k < |cs|
    requires forall j | 0 <= j < k :: IsFulfilled(cs[j], oracle, ctx)
    requires !IsFulfilled(cs[k], oracle, ctx)
    ensures info.policy.ForwardChild? ==> Failure(Tree(info, cs), oracle, ctx) == Failure(cs[k], oracle, ctx)
    ensures info.policy.ReportOwn? ==>
              Failure(Tree(info, cs), oracle, ctx) == Some(PreconditionError(info.name, info.policy.unfulfilledMessage))
  {
    FirstFailureAfterPassing(cs, k, oracle, ctx);
  }

  /** Splitting the children in two: the leaves are the two parts' leaves
      and the walk stops in the first part if it finds a failure there. */
  lemma {:induction false} ChildrenConcat(xs: seq<Precondition>, ys: seq<Precondition>, oracle: Oracle, ctx: Context)
    ensures LeavesOf(xs + ys) == LeavesOf(xs) + LeavesOf(ys)
    ensures FirstFailure(xs + ys, oracle, ctx)
         == if FirstFailure(xs, oracle, ctx).Some? then FirstFailure(xs, oracle, ctx) else FirstFailure(ys, oracle, ctx)
    decreases |xs|
  {
    if xs == [] {
      assert xs + ys == ys;
    } else {
      assert (xs + ys)[0] == xs[0] && (xs + ys)[1..] == xs[1..] + ys;
      ChildrenConcat(xs[1..], ys, oracle, ctx);
    }
  }

  /** One child on its own. */
  lemma OneChild(p: Precondition, oracle: Oracle, ctx: Context)
    ensures LeavesOf([p]) == Leaves(p)
    ensures FirstFailure([p], oracle, ctx) == Failure(p, oracle, ctx)
  {
    var cs := [p];
    assert cs[0] == p && cs[1..] == [];
    assert LeavesOf(cs) == Leaves(p) + [];
  }

  // ---------------------------------------------------------------------
  // nesting

  /** Wrapping a precondition in further trees changes neither its leaves
      nor whether it is fulfilled. */
  lemma NestingKeepsLeavesAndVerdict(info: TreeInfo, p: Precondition, oracle: Oracle, ctx: Context)
    ensures Leaves(Tree(info, [p])) == Leaves(p)
    ensures IsFulfilled(Tree(info, [p]), oracle, ctx) <==> IsFulfilled(p, oracle, ctx)
    ensures Probes(Tree(info, [p]), oracle, ctx) == Probes(p, oracle, ctx)
  {
    var cs := [p];
    assert cs[0] == p && cs[1..] == [];
    assert LeavesOf(cs) == Leaves(p) + LeavesOf([]);
    assert Leaves(p) + [] == Leaves(p);
    assert FirstFailure(cs, oracle, ctx).None? <==> Failure(p, oracle, ctx).None?;
    assert ProbesOf(cs, oracle, ctx) == Probes(p, oracle, ctx) by {
      if Failure(p, oracle, ctx).None? {
        assert ProbesOf(cs, oracle, ctx) == Probes(p, oracle, ctx) + ProbesOf([], oracle, ctx);
        assert Probes(p, oracle, ctx) + [] == Probes(p, oracle, ctx);
      }
    }
  }

  /** A tree with one child: fulfilled gives the tree's fulfilled message;
      a failing child gives the tree's own unfulfilled message under the
      older policy, the child's message under the newer one. */
  lemma SingleChildStatus(info: TreeInfo, child: Precondition, oracle: Oracle, ctx: Context)
    ensures IsFulfilled(child, oracle, ctx) ==>
              StatusMessage(Tree(info, [child]), oracle, ctx) == info.fulfilledMessage
    ensures !IsFulfilled(child, oracle, ctx) && info.policy.ReportOwn? ==>
              StatusMessage(Tree(info, [child]), oracle, ctx) == info.policy.unfulfilledMessage
    ensures !IsFulfilled(child, oracle, ctx) && info.policy.ForwardChild? ==>
              StatusMessage(Tree(info, [child]), oracle, ctx) == StatusMessage(child, oracle, ctx)
  {
    var cs := [child];
    assert cs[0] == child && cs[1..] == [];
    assert FirstFailure(cs, oracle, ctx) == Failure(child, oracle, ctx);
  }

  /** `p` wrapped in `n` single-child trees. */
  function Nest(info: TreeInfo, p: Precondition, n: nat): Precondition
    decreases n
  {
    if n == 0 then p else Tree(info, [Nest(info, p, n - 1)])
  }

  /** However deep the nesting, the leaves, the verdict and the leaf checks
      are those of the precondition inside. */
  lemma {:induction false} NestKeepsLeavesAndVerdict(info: TreeInfo, p: Precondition, n: nat, oracle: Oracle, ctx: Context)
    ensures Leaves(Nest(info, p, n)) == Leaves(p)
    ensures IsFulfilled(Nest(info, p, n), oracle, ctx) <==> IsFulfilled(p, oracle, ctx)
    ensures Probes(Nest(info, p, n), oracle, ctx) == Probes(p, oracle, ctx)
    decreases n
  {
    if n > 0 {
      NestKeepsLeavesAndVerdict(info, p, n - 1, oracle, ctx);
      NestingKeepsLeavesAndVerdict(info, Nest(info, p, n - 1), oracle, ctx);
    }
  }
}
