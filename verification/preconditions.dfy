/** The concrete preconditions trees and the active-directory-is-writable
    leaf. The children of a tree are its constructor arguments, so they are
    parameters here. */
module Preconditions {
  import opened Wrappers
  import opened Filesystem
  import opened PreconditionsTree

  /** Leaves and first failure of a literal list of children, in order. */
  lemma TwoChildren(a: Precondition, b: Precondition, oracle: Oracle, ctx: Context)
    ensures LeavesOf([a, b]) == Leaves(a) + Leaves(b)
    ensures FirstFailure([a, b], oracle, ctx)
         == if !IsFulfilled(a, oracle, ctx) then PreconditionsTree.Failure(a, oracle, ctx) else PreconditionsTree.Failure(b, oracle, ctx)
  {
    assert [a, b] == [a] + [b];
    OneChild(a, oracle, ctx);
    OneChild(b, oracle, ctx);
    ChildrenConcat([a], [b], oracle, ctx);
  }

  lemma ThreeChildren(a: Precondition, b: Precondition, c: Precondition, oracle: Oracle, ctx: Context)
    ensures LeavesOf([a, b, c]) == Leaves(a) + Leaves(b) + Leaves(c)
    ensures FirstFailure([a, b, c], oracle, ctx)
         == if !IsFulfilled(a, oracle, ctx) then PreconditionsTree.Failure(a, oracle, ctx)
            else if !IsFulfilled(b, oracle, ctx) then PreconditionsTree.Failure(b, oracle, ctx)
            else PreconditionsTree.Failure(c, oracle, ctx)
  {
    assert [a, b, c] == [a, b] + [c];
    TwoChildren(a, b, oracle, ctx);
    OneChild(c, oracle, ctx);
    ChildrenConcat([a, b], [c], oracle, ctx);
  }

  lemma FourChildren(a: Precondition, b: Precondition, c: Precondition, d: Precondition, oracle: Oracle, ctx: Context)
    ensures LeavesOf([a, b, c, d]) == Leaves(a) + Leaves(b) + Leaves(c) + Leaves(d)
    ensures FirstFailure([a, b, c, d], oracle, ctx).None? <==>
              IsFulfilled(a, oracle, ctx) && IsFulfilled(b, oracle, ctx) && IsFulfilled(c, oracle, ctx) && IsFulfilled(d, oracle, ctx)
  {
    assert [a, b, c, d] == [a, b, c] + [d];
    ThreeChildren(a, b, c, oracle, ctx);
    OneChild(d, oracle, ctx);
    ChildrenConcat([a, b, c], [d], oracle, ctx);
  }

  /** Four leaves below a tree at nesting depths 0, 2, 4 and 10. */
  function BubblingTree(info: TreeInfo, l0: LeafInfo, l1: LeafInfo, l2: LeafInfo, l3: LeafInfo): Precondition {
    Tree(info, [Leaf(l0), Nest(info, Leaf(l1), 2), Nest(info, Leaf(l2), 4), Nest(info, Leaf(l3), 10)])
  }

  lemma BubblingLeaves(info: TreeInfo, l0: LeafInfo, l1: LeafInfo, l2: LeafInfo, l3: LeafInfo, oracle: Oracle, ctx: Context)
    ensures Leaves(BubblingTree(info, l0, l1, l2, l3)) == [l0, l1, l2, l3]
  {
    NestKeepsLeavesAndVerdict(info, Leaf(l1), 2, oracle, ctx);
    NestKeepsLeavesAndVerdict(info, Leaf(l2), 4, oracle, ctx);
    NestKeepsLeavesAndVerdict(info, Leaf(l3), 10, oracle, ctx);
    FourChildren(Leaf(l0), Nest(info, Leaf(l1), 2), Nest(info, Leaf(l2), 4), Nest(info, Leaf(l3), 10), oracle, ctx);
  }

  /** Of the four leaves only the deepest fails: the tree is unfulfilled,
      its leaves are the four leaves in order, one evaluation checks each of
      them once, and `assertIsFulfilled` throws. */
  lemma BubblingExample(info: TreeInfo, l0: LeafInfo, l1: LeafInfo, l2: LeafInfo, l3: LeafInfo, oracle: Oracle, ctx: Context)
    requires oracle(l0, ctx).None? && oracle(l1, ctx).None? && oracle(l2, ctx).None?
    requires oracle(l3, ctx).Some?
    ensures !IsFulfilled(BubblingTree(info, l0, l1, l2, l3), oracle, ctx)
    ensures Leaves(BubblingTree(info, l0, l1, l2, l3)) == [l0, l1, l2, l3]
    ensures Probes(BubblingTree(info, l0, l1, l2, l3), oracle, ctx)
         == [Probe(l0, ctx), Probe(l1, ctx), Probe(l2, ctx), Probe(l3, ctx)]
    ensures AssertIsFulfilled(BubblingTree(info, l0, l1, l2, l3), oracle, ctx).Fail?
  {
    var t := BubblingTree(info, l0, l1, l2, l3);
    var ls := [l0, l1, l2, l3];
    BubblingLeaves(info, l0, l1, l2, l3, oracle, ctx);
    assert FirstLeafFailure(ls, oracle, ctx).Some? by {
      assert oracle(ls[3], ctx).Some?;
    }
    FailureIsFirstLeafFailure(t, oracle, ctx);
    ProbesFollowLeaves(t, oracle, ctx);
    LeafProbesArePrefix(ls, oracle, ctx);
    LeafProbesStopAtFailure(ls, oracle, ctx);
    var r := LeafProbes(ls, oracle, ctx);
    assert |r| == 4 by {
      assert oracle(ls[|r| - 1], ctx).Some?;
    }
  }

  // ---------------------------------------------------------------------
  // BeginnerPreconditions

  const BeginnerInfo: TreeInfo := TreeInfo(
    "Beginner preconditions",
    "The preconditions for beginning the staging process.",
    "The preconditions for beginning the staging process are fulfilled.",
    ForwardChild)

  /** Common preconditions, then no unsupported links, then the staging
      directory does not exist. */
  function BeginnerPreconditions(common: Precondition, noUnsupportedLinks: Precondition, stagingDirDoesNotExist: Precondition): Precondition {
    Tree(BeginnerInfo, [common, noUnsupportedLinks, stagingDirDoesNotExist])
  }

  /** The beginner tree's leaves are its three children's leaves, in order;
      it is fulfilled if and only if all three are, and then reports its own
      fulfilled message. Its name and description are fixed. */
  lemma BeginnerPreconditionsStructure(common: Precondition, links: Precondition, stagingDirDoesNotExist: Precondition, oracle: Oracle, ctx: Context)
    ensures BeginnerPreconditions(common, links, stagingDirDoesNotExist).Name() == "Beginner preconditions"
    ensures BeginnerPreconditions(common, links, stagingDirDoesNotExist).tree.description
         == "The preconditions for beginning the staging process."
    ensures Leaves(BeginnerPreconditions(common, links, stagingDirDoesNotExist))
         == Leaves(common) + Leaves(links) + Leaves(stagingDirDoesNotExist)
    ensures IsFulfilled(BeginnerPreconditions(common, links, stagingDirDoesNotExist), oracle, ctx)
        <==> IsFulfilled(common, oracle, ctx) && IsFulfilled(links, oracle, ctx) && IsFulfilled(stagingDirDoesNotExist, oracle, ctx)
    ensures IsFulfilled(BeginnerPreconditions(common, links, stagingDirDoesNotExist), oracle, ctx) ==>
              StatusMessage(BeginnerPreconditions(common, links, stagingDirDoesNotExist), oracle, ctx)
              == "The preconditions for beginning the staging process are fulfilled."
  {
    ThreeChildren(common, links, stagingDirDoesNotExist, oracle, ctx);
  }

  /** The exception the beginner tree throws is the first failing child's:
      the staging-directory check is reported only when the common and the
      link checks pass. */
  lemma BeginnerPreconditionsFirstFailure(common: Precondition, links: Precondition, stagingDirDoesNotExist: Precondition, oracle: Oracle, ctx: Context)
    ensures PreconditionsTree.Failure(BeginnerPreconditions(common, links, stagingDirDoesNotExist), oracle, ctx)
         == if !IsFulfilled(common, oracle, ctx) then PreconditionsTree.Failure(common, oracle, ctx)
            else if !IsFulfilled(links, oracle, ctx) then PreconditionsTree.Failure(links, oracle, ctx)
            else PreconditionsTree.Failure(stagingDirDoesNotExist, oracle, ctx)
  {
    ThreeChildren(common, links, stagingDirDoesNotExist, oracle, ctx);
  }

  // ---------------------------------------------------------------------
  // StagingDirIsReady and ActiveDirIsReady

  const StagingDirIsReadyInfo: TreeInfo := TreeInfo(
    "Staging directory is ready",
    "The preconditions for using the staging directory.",
    "The staging directory is ready to use.",
    ForwardChild)

  function StagingDirIsReady(stagingDirExists: Precondition, stagingDirIsWritable: Precondition): Precondition {
    Tree(StagingDirIsReadyInfo, [stagingDirExists, stagingDirIsWritable])
  }

  const ActiveDirIsReadyInfo: TreeInfo := TreeInfo(
    "Active directory is ready",
    "The preconditions for using the active directory.",
    "The active directory is ready to use.",
    ForwardChild)

  function ActiveDirIsReady(activeDirExists: Precondition, activeDirIsWritable: Precondition): Precondition {
    Tree(ActiveDirIsReadyInfo, [activeDirExists, activeDirIsWritable])
  }

  /** A forwarding tree of two children: its leaves are theirs in order;
      both fulfilled gives the tree's fulfilled message; the first child
      failing gives that child's exception and message; every leaf check
      receives the same arguments. */
  lemma TwoChildForwardingTree(info: TreeInfo, first: Precondition, second: Precondition, oracle: Oracle, ctx: Context)
    requires info.policy.ForwardChild?
    ensures Leaves(Tree(info, [first, second])) == Leaves(first) + Leaves(second)
    ensures IsFulfilled(first, oracle, ctx) && IsFulfilled(second, oracle, ctx) ==>
              && IsFulfilled(Tree(info, [first, second]), oracle, ctx)
              && StatusMessage(Tree(info, [first, second]), oracle, ctx) == info.fulfilledMessage
    ensures !IsFulfilled(first, oracle, ctx) ==>
              && !IsFulfilled(Tree(info, [first, second]), oracle, ctx)
              && AssertIsFulfilled(Tree(info, [first, second]), oracle, ctx) == Fail(PreconditionsTree.Failure(first, oracle, ctx).value)
              && StatusMessage(Tree(info, [first, second]), oracle, ctx) == StatusMessage(first, oracle, ctx)
    ensures forall i | 0 <= i < |Probes(Tree(info, [first, second]), oracle, ctx)| ::
              Probes(Tree(info, [first, second]), oracle, ctx)[i].ctx == ctx
  {
    TwoChildren(first, second, oracle, ctx);
    ProbesCarryContext(Tree(info, [first, second]), oracle, ctx);
  }

  /** `StagingDirIsReady`: staging directory exists, then is writable. */
  lemma StagingDirIsReadyBehaviour(stagingDirExists: Precondition, stagingDirIsWritable: Precondition, oracle: Oracle, ctx: Context)
    ensures Leaves(StagingDirIsReady(stagingDirExists, stagingDirIsWritable)) == Leaves(stagingDirExists) + Leaves(stagingDirIsWritable)
    ensures IsFulfilled(stagingDirExists, oracle, ctx) && IsFulfilled(stagingDirIsWritable, oracle, ctx) ==>
              StatusMessage(StagingDirIsReady(stagingDirExists, stagingDirIsWritable), oracle, ctx)
              == "The staging directory is ready to use."
    ensures !IsFulfilled(stagingDirExists, oracle, ctx) ==>
              && StatusMessage(StagingDirIsReady(stagingDirExists, stagingDirIsWritable), oracle, ctx)
                 == StatusMessage(stagingDirExists, oracle, ctx)
              && AssertIsFulfilled(StagingDirIsReady(stagingDirExists, stagingDirIsWritable), oracle, ctx)
                 == Fail(PreconditionsTree.Failure(stagingDirExists, oracle, ctx).value)
  {
    TwoChildForwardingTree(StagingDirIsReadyInfo, stagingDirExists, stagingDirIsWritable, oracle, ctx);
  }

  /** `ActiveDirIsReady`: active directory exists, then is writable, with
      the declared name, description and fulfilled message. */
  lemma ActiveDirIsReadyBehaviour(activeDirExists: Precondition, activeDirIsWritable: Precondition, oracle: Oracle, ctx: Context)
    ensures ActiveDirIsReady(activeDirExists, activeDirIsWritable).Name() == "Active directory is ready"
    ensures ActiveDirIsReady(activeDirExists, activeDirIsWritable).tree.description == "The preconditions for using the active directory."
    ensures Leaves(ActiveDirIsReady(activeDirExists, activeDirIsWritable)) == Leaves(activeDirExists) + Leaves(activeDirIsWritable)
    ensures IsFulfilled(activeDirExists, oracle, ctx) && IsFulfilled(activeDirIsWritable, oracle, ctx) ==>
              StatusMessage(ActiveDirIsReady(activeDirExists, activeDirIsWritable), oracle, ctx)
              == "The active directory is ready to use."
    ensures !IsFulfilled(activeDirExists, oracle, ctx) ==>
              && !IsFulfilled(ActiveDirIsReady(activeDirExists, activeDirIsWritable), oracle, ctx)
              && StatusMessage(ActiveDirIsReady(activeDirExists, activeDirIsWritable), oracle, ctx)
                 == StatusMessage(activeDirExists, oracle, ctx)
  {
    TwoChildForwardingTree(ActiveDirIsReadyInfo, activeDirExists, activeDirIsWritable, oracle, ctx);
  }

  // ---------------------------------------------------------------------
  // NoUnsupportedLinksExist

  const NoUnsupportedLinksExistInfo: TreeInfo := TreeInfo(
    "Unsupported links preconditions",
    "Preconditions concerning unsupported links.",
    "There are no unsupported links in the codebase.",
    ReportOwn("There are unsupported links in the codebase."))

  /** No absolute links, no hard links, no links on Windows, no symlinks
      pointing outside the codebase. */
  function NoUnsupportedLinksExist(noAbsoluteLinks: Precondition, noHardLinks: Precondition, noLinksOnWindows: Precondition, noSymlinksOutside: Precondition): Precondition {
    Tree(NoUnsupportedLinksExistInfo, [noAbsoluteLinks, noHardLinks, noLinksOnWindows, noSymlinksOutside])
  }

  /** The link tree is fulfilled exactly when its four children are, with
      its own fulfilled message; any failing child makes it report its own
      unfulfilled message in its own exception. */
  lemma NoUnsupportedLinksExistBehaviour(a: Precondition, h: Precondition, w: Precondition, s: Precondition, oracle: Oracle, ctx: Context)
    ensures IsFulfilled(NoUnsupportedLinksExist(a, h, w, s), oracle, ctx) <==>
              IsFulfilled(a, oracle, ctx) && IsFulfilled(h, oracle, ctx) && IsFulfilled(w, oracle, ctx) && IsFulfilled(s, oracle, ctx)
    ensures IsFulfilled(NoUnsupportedLinksExist(a, h, w, s), oracle, ctx) ==>
              StatusMessage(NoUnsupportedLinksExist(a, h, w, s), oracle, ctx) == "There are no unsupported links in the codebase."
    ensures !IsFulfilled(NoUnsupportedLinksExist(a, h, w, s), oracle, ctx) ==>
              && StatusMessage(NoUnsupportedLinksExist(a, h, w, s), oracle, ctx) == "There are unsupported links in the codebase."
              && AssertIsFulfilled(NoUnsupportedLinksExist(a, h, w, s), oracle, ctx)
                 == Fail(PreconditionError("Unsupported links preconditions", "There are unsupported links in the codebase."))
    ensures Leaves(NoUnsupportedLinksExist(a, h, w, s)) == Leaves(a) + Leaves(h) + Leaves(w) + Leaves(s)
  {
    FourChildren(a, h, w, s, oracle, ctx);
  }

  // ---------------------------------------------------------------------
  // ActiveDirIsWritable

  const ActiveDirIsWritableLeaf: LeafInfo := LeafInfo(
    "active-dir-is-writable",
    "Active directory is writable",
    "The active directory must be writable before any changes can be made.",
    "The active directory is writable.")

  /** The leaf's check: the filesystem says whether the active directory is
      writable. */
  function ActiveDirIsWritableCheck(fs: Filesystem, ctx: Context): Option<string> {
    if fs.isWritable(ctx.activeDir) then None else Some("The active directory is not writable.")
  }

  /** Under an environment that answers the leaf with its check, the leaf
      is fulfilled if and only if the active directory is writable, and its
      status message and exception follow. */
  lemma ActiveDirIsWritableBehaviour(fs: Filesystem, oracle: Oracle, ctx: Context)
    requires oracle(ActiveDirIsWritableLeaf, ctx) == ActiveDirIsWritableCheck(fs, ctx)
    ensures IsFulfilled(Leaf(ActiveDirIsWritableLeaf), oracle, ctx) <==> fs.isWritable(ctx.activeDir)
    ensures fs.isWritable(ctx.activeDir) ==>
              StatusMessage(Leaf(ActiveDirIsWritableLeaf), oracle, ctx) == "The active directory is writable."
    ensures !fs.isWritable(ctx.activeDir) ==>
              && StatusMessage(Leaf(ActiveDirIsWritableLeaf), oracle, ctx) == "The active directory is not writable."
              && AssertIsFulfilled(Leaf(ActiveDirIsWritableLeaf), oracle, ctx)
                 == Fail(PreconditionError("Active directory is writable", "The active directory is not writable."))
  {
  }
}
