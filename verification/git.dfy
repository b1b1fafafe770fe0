/** What the model sees of the external `git` tool: the argument lists the
    tool would be run with, and the replies it gives back. */
module Git {

  /** The arguments of one `git` invocation, without the leading `git`. */
  type Command = seq<string>

  /** What a finished `git` invocation reports to its caller. */
  datatype Reply = Reply(exitCode: int, stdout: string)
  {
    predicate Succeeded()
    {
      exitCode == 0
    }
  }

  /** How a run of one of the tool's operations ends: it returns a boolean,
      or a failing `git` call (or a failed lookup) raises an exception. Either
      way `log` lists the `git` invocations made, in order. */
  datatype Outcome = Returned(value: bool, log: seq<Command>) | Raised(log: seq<Command>)

  /** The answer to a `(y/N)` prompt lower-cases to "y". */
  predicate Confirms(response: string)
  {
    response == "y" || response == "Y"
  }
}
