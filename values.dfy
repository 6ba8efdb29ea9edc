/** Value shapes shared by every layer of the shell: optional values, the
    values a parameter type can produce, and the `{value}` / `{error}`
    object a type's parser returns. */
module Values {

  datatype Option<+T> = None | Some(value: T)

  /** The JavaScript values a parameter type hands to a command handler.
      `Undefined` is what an argument slot holds when its parser failed. */
  datatype Value =
    | Undefined
    | Str(s: string)
    | Bool(b: bool)
    | ContractRef(name: string)

  /** A parser's result: `{value}` on success, `{error}` on failure, never both. */
  datatype ParseResult = Ok(value: Value) | Err(error: string)
  {
    /** The value pushed into the argument list (undefined on failure). */
    function ValueOrUndefined(): Value
    {
      if Ok? then value else Undefined
    }

    /** The errors pushed into the error list (none on success). */
    function Errors(): seq<string>
    {
      if Err? then [error] else []
    }
  }
}
