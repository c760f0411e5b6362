/**
 * The error types of the executor (packages/voxurf/src/error.rs) and of the web-extension
 * interface (packages/voxurf-extension/src/interface.rs). A boxed `source` error is kept as
 * its message.
 */
module Errors {
  import opened StdStr

  /** Why a line of the model's action block was rejected. */
  datatype ActionParseError =
    | MissingId(ty: string)
    | NonIntegerId(id: string)
    | MissingTextInType
    | TextInTypeNotSingleQuoted(text: string)
    | MissingDescription
    | ActionsAfterFinish

  /**
   * Why a user command failed. `ActionParse` is the variant wrapping an `ActionParseError`.
   * `PollIntervalZero` is not a variant of the source's enum: it stands for the panic of the
   * stability monitor's division by a zero poll interval, which ends the command as surely.
   */
  datatype ExecutionError =
    | IdNotFound(id: nat)
    | TreeStabilisationTimeout(timeoutMs: U32)
    | NoTreeUpdate(timeoutMs: U32)
    | ModelError(source: string)
    | InterfaceError(source: string)
    | ActionParse(error: ActionParseError)
    | CommandNotFinished(numTrips: U32)
    | PollIntervalZero

  /** Failures of the web-extension interface while building the element tree. */
  datatype WeiError =
    | TreeReconstitutionTimeout(numIters: nat)
    | AxTreeParseFailed(source: string)
}
