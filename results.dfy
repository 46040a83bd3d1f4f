/** Error values for the exceptions the report aggregator raises, and the
    Option/Result wrappers that carry them. Every fatal error of the tool
    aborts the whole run, so one Result per stage is enough. */
module Results {

  datatype Option<+T> = None | Some(value: T)

  /** The ways a run of the aggregator can fail. */
  datatype Error =
    | MissingField(name: string)          // IndexError from `xpath(...)[0]`, KeyError from `dict[...]`
    | NotAnInteger(name: string, text: string)  // ValueError from `int(x)`
    | InconsistentEstimate(name: string)  // the best/worst assertions of `summarize`
    | MissingFile(path: string)           // `open` of a file that is not there
    | NoProjectName                       // IndexError while reading `set project_name`
    | ReportNotFound(dir: string)         // no export report in any candidate place
    | TypeMismatch                        // TypeError in an arithmetic on a string
    | ZeroDivision                        // ZeroDivisionError
    | BadExtraKey(key: string)            // an extra-info key without `=` or an integer epoch
    | MissingExtra                        // the "No extra info" assertion
    | UnknownColumn(name: string)         // ValueError from `list.index`
    | UnsupportedFormat(ext: string)      // unrecognised output extension
    | NegativePrecision                   // ValueError from a `{:.Nf}` format with N < 0

  datatype Result<+T> = Ok(value: T) | Err(error: Error) {
    predicate IsFailure() {
      Err?
    }

    function PropagateFailure<U>(): Result<U>
      requires Err?
    {
      Err(error)
    }

    function Extract(): T
      requires Ok?
    {
      value
    }
  }
}
