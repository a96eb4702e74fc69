/** What a route handler answers: a status and a body, or an exception that
    escapes the handler (the framework then answers with its own error
    page, which is not modelled). */
module Http {
  import opened FileTree

  /** Why a step inside a handler's `try` failed, as the handler reports
      it: its own "not found" error, a failure of the operating system, or
      the `TypeError` the path functions throw for an argument that is not a
      string. */
  datatype Cause = SourceNotFound(sourcePath: string) | OsError | NotAString

  /** `error.message` where the model knows it. */
  function CauseMessage(c: Cause): string
    requires c.SourceNotFound?
  {
    "Source file not found: " + c.sourcePath
  }

  /** One entry of the move report's `failedItems`: `{ item, error }`. */
  datatype MoveFailure = MoveFailure(item: string, error: Cause)

  /** The response bodies the handlers send: plain text, or a JSON object
      with the keys named here (`undeletedItems` is the delete report's
      `failedItems` key). */
  datatype Body =
    | Text(text: string)
    | JsonMessage(message: string)
    | JsonError(error: string)
    | JsonErrorFrom(prefix: string, cause: Cause)
    | JsonRenamed(message: string, newPath: string)
    | JsonMoveReport(message: string, movedItems: seq<string>, failedItems: seq<MoveFailure>)
    | JsonDeleteReport(message: string, deletedItems: seq<string>, undeletedItems: seq<string>)

  datatype Outcome = Response(status: int, body: Body) | Uncaught

  /** What a request leaves behind: the answer and the file tree. */
  datatype Handled = Handled(outcome: Outcome, tree: Tree)
}
