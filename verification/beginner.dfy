/** `Beginner::begin`: assert the beginner preconditions once, then copy the
    active directory to the staging directory with the file syncer once.
    A precondition exception passes through; a syncer exception is
    rethrown as a `RuntimeException`. */
module Beginner {
  import opened Wrappers
  import opened Process
  import opened PreconditionsTree
  import opened Preconditions

  /** The two exceptions the file syncer is declared to throw. */
  datatype SyncError =
    | SyncInvalidArgument(message: string)
    | SyncIOError(message: string)

  /** One call of the file syncer. */
  datatype SyncCall = SyncCall(activeDir: string, stagingDir: string, exclusions: Option<seq<string>>,
                               callback: Option<Callback>, timeout: Option<int>)

  type Syncer = SyncCall -> Outcome<SyncError>

  datatype BeginError =
    | PreconditionFailed(error: PreconditionError)
    | RuntimeFailure(message: string, previous: SyncError)

  /** The outcome of `begin`, the contexts the preconditions were asserted
      with and the syncer calls made, in order. */
  datatype BeginRun = BeginRun(result: Outcome<BeginError>, checks: seq<Context>, syncs: seq<SyncCall>)

  /** `begin($activeDir, $stagingDir, $exclusions, $callback, $timeout)`.
      The preconditions are asserted without a timeout. */
  function Begin(activeDir: string, stagingDir: string, exclusions: Option<seq<string>>, callback: Option<Callback>,
                 timeout: Option<int>, preconditions: Precondition, oracle: Oracle, syncer: Syncer): (r: BeginRun)
    ensures r.checks == [Context(activeDir, stagingDir, exclusions, None)]
    ensures r.syncs == [] <==> !IsFulfilled(preconditions, oracle, Context(activeDir, stagingDir, exclusions, None))
    ensures r.syncs != [] ==> r.syncs == [SyncCall(activeDir, stagingDir, exclusions, callback, timeout)]
    ensures r.result.Pass? <==> r.syncs != [] && syncer(r.syncs[0]).Pass?
  {
    var ctx := Context(activeDir, stagingDir, exclusions, None);
    match AssertIsFulfilled(preconditions, oracle, ctx)
    case Fail(e) => BeginRun(Fail(PreconditionFailed(e)), [ctx], [])
    case Pass =>
      var call := SyncCall(activeDir, stagingDir, exclusions, callback, timeout);
      match syncer(call)
      case Pass => BeginRun(Pass, [ctx], [call])
      case Fail(e) => BeginRun(Fail(RuntimeFailure(e.message, e)), [ctx], [call])
  }

  /** `begin($activeDir, $stagingDir)`: no exclusions, no callback, the
      default timeout. */
  function BeginWithDefaults(activeDir: string, stagingDir: string, preconditions: Precondition, oracle: Oracle, syncer: Syncer): (r: BeginRun)
    ensures r.checks == [Context(activeDir, stagingDir, None, None)]
    ensures r.syncs != [] ==> r.syncs == [SyncCall(activeDir, stagingDir, None, None, Some(DefaultTimeout))]
  {
    Begin(activeDir, stagingDir, None, None, Some(DefaultTimeout), preconditions, oracle, syncer)
  }

  /** An unfulfilled precondition surfaces as the same exception, with the
      same message, and nothing is synced. */
  lemma PreconditionFailurePassesThrough(activeDir: string, stagingDir: string, exclusions: Option<seq<string>>,
                                          callback: Option<Callback>, timeout: Option<int>,
                                          preconditions: Precondition, oracle: Oracle, syncer: Syncer)
    requires !IsFulfilled(preconditions, oracle, Context(activeDir, stagingDir, exclusions, None))
    ensures Begin(activeDir, stagingDir, exclusions, callback, timeout, preconditions, oracle, syncer).result
         == Fail(PreconditionFailed(PreconditionsTree.Failure(preconditions, oracle, Context(activeDir, stagingDir, exclusions, None)).value))
    ensures Begin(activeDir, stagingDir, exclusions, callback, timeout, preconditions, oracle, syncer).result.error.error.message
         == StatusMessage(preconditions, oracle, Context(activeDir, stagingDir, exclusions, None))
  {
  }

  /** A syncer exception becomes a `RuntimeException` with the same message
      and the original as its previous exception. */
  lemma SyncErrorWrapped(activeDir: string, stagingDir: string, exclusions: Option<seq<string>>,
                         callback: Option<Callback>, timeout: Option<int>,
                         preconditions: Precondition, oracle: Oracle, syncer: Syncer)
    requires IsFulfilled(preconditions, oracle, Context(activeDir, stagingDir, exclusions, None))
    requires syncer(SyncCall(activeDir, stagingDir, exclusions, callback, timeout)).Fail?
    ensures var e := syncer(SyncCall(activeDir, stagingDir, exclusions, callback, timeout)).error;
            Begin(activeDir, stagingDir, exclusions, callback, timeout, preconditions, oracle, syncer).result
            == Fail(RuntimeFailure(e.message, e))
  {
  }

  /** With the beginner tree, a failing common precondition is the one
      reported, and neither the link nor the staging-directory checks'
      exceptions reach the caller. */
  lemma BeginReportsFirstFailingGroup(activeDir: string, stagingDir: string, common: Precondition, links: Precondition,
                                      stagingDirDoesNotExist: Precondition, oracle: Oracle, syncer: Syncer)
    ensures var ctx := Context(activeDir, stagingDir, None, None);
            var r := BeginWithDefaults(activeDir, stagingDir, BeginnerPreconditions(common, links, stagingDirDoesNotExist), oracle, syncer);
            && (!IsFulfilled(common, oracle, ctx) ==>
                  r.result == Fail(PreconditionFailed(PreconditionsTree.Failure(common, oracle, ctx).value)) && r.syncs == [])
            && (IsFulfilled(common, oracle, ctx) && !IsFulfilled(links, oracle, ctx) ==>
                  r.result == Fail(PreconditionFailed(PreconditionsTree.Failure(links, oracle, ctx).value)) && r.syncs == [])
            && (IsFulfilled(common, oracle, ctx) && IsFulfilled(links, oracle, ctx) && !IsFulfilled(stagingDirDoesNotExist, oracle, ctx) ==>
                  r.result == Fail(PreconditionFailed(PreconditionsTree.Failure(stagingDirDoesNotExist, oracle, ctx).value)) && r.syncs == [])
  {
    var ctx := Context(activeDir, stagingDir, None, None);
    BeginnerPreconditionsFirstFailure(common, links, stagingDirDoesNotExist, oracle, ctx);
  }
}
