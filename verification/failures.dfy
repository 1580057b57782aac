/**
  The exceptions the persistence layer distinguishes: the Cassandra driver's
  failures, and the Java exceptions the layer itself raises or lets through.
 */
module Failures {
  import opened Wrappers

  /** The write type a WriteTimeoutException reports. */
  datatype WriteType = Simple | Batch | UnloggedBatch | Counter | BatchLog | Cas | View | Cdc

  /**
    A failure of a driver call. WriteTimeout and QueryExecution are both
    QueryExecutionExceptions; QueryValidation is a QueryValidationException;
    Driver is anything else (no host available, a closed connection, ...).
   */
  datatype Failure =
    | WriteTimeout(writeType: WriteType)
    | QueryValidation(detail: string)
    | QueryExecution(detail: string)
    | Driver(detail: string)

  /** Caught by `catch (QueryValidationException | QueryExecutionException e)`. */
  predicate IsQueryFailure(f: Failure) {
    !f.Driver?
  }

  /** An exception that leaves a call of the persistence layer. */
  datatype Error =
      /** PersistenceRuntimeException with an optional message and the driver failure as cause. */
    | Persistence(message: Option<string>, cause: Failure)
      /** A driver failure that is not caught and leaves unwrapped. */
    | Propagated(failure: Failure)
    | NullPointer
    | NoSuchElement
    | NumberFormat(input: string)
    | ArrayIndexOutOfBounds
    | IllegalArgument
}
