/** The exceptions that stop scripts/invalid.py, and a Result type that carries them. */
module Errors {

  /** An exception raised by the script between lines 15 and 48. The script has no
      handler, so the first one raised ends the run. */
  datatype ScriptError =
      /** `fields[1]` or `fields[3]` on line 20 is out of range: the results line with
          this (0-based) line number splits into fewer than four fields. */
    | IndexError(line: nat)
      /** The unpacking on line 27 fails: the record at this (0-based) position in
          `data` does not have exactly seven fields. */
    | UnpackError(record: nat, fields: nat)
      /** `float(...)` on line 29 rejects this text, taken from the record at this
          position in `data`. */
    | FloatError(record: nat, text: string)

  datatype Option<+T> = None | Some(value: T)

  datatype Result<+T> = Ok(value: T) | Err(error: ScriptError)
}
