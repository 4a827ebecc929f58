/** What the runners and the syncer share: the default timeout and the
    output callback. */
module Process {
  /** `ProcessRunnerInterface::DEFAULT_TIMEOUT`, in seconds. */
  const DefaultTimeout: int := 120

  /** An output callback object, passed through by identity. */
  datatype Callback = Callback(id: nat)
}
