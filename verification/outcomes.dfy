/** Option and result types, and the fatal conditions of a generation run.
    Every `exitWithError`/`process.exit` of the tool becomes an `Err` here. */
module Outcomes {

  datatype Option<+T> = None | Some(value: T)

  /** Why a run stops before anything is generated. */
  datatype Failure =
    | NoTemplates                   // the template root holds no directory
    | TemplateNotFound              // the chosen index names no template
    | EmptyValue(key: string)       // the user left the value of `key` empty
    | MissingValue(name: string)    // substitution met a name without a value

  datatype Result<+T> = Ok(value: T) | Err(error: Failure)
}
