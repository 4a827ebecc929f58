/** The environment the services query, as given functions: the filesystem
    service, PHP's `is_link` and the recursive file finder. Paths are the
    resolved path strings. */
module Filesystem {
  import opened Wrappers

  /** The two exceptions the finder is declared to throw. */
  datatype FinderError =
    | FinderInvalidArgument(message: string)
    | FinderIOError(message: string)

  datatype Filesystem = Filesystem(
    pathExists: string -> bool,
    isWritable: string -> bool,
    isLink: string -> bool,
    find: string -> Result<seq<string>, FinderError>)
}
