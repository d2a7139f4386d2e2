/** Values shared by every stage of the pipeline. */
module Common {

  datatype Option<+T> = None | Some(value: T)

  /** The exceptions the script can raise while processing one config. */
  datatype Fault =
    | KeyError(key: string)          // a missing dictionary key
    | FileNotFound(path: string)     // a glob match that is neither a file nor a directory
    | RecursionLimit                 // replace_project_dir nested too deeply

  /** How a Python call ends: it returns a boolean, or it raises. */
  datatype Outcome = Returned(ok: bool) | Raised(fault: Fault)
}
