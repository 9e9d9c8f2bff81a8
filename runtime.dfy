/** Values and services of the JavaScript runtime that the router code relies on:
    optional values, thrown errors, and the host functions the model treats as opaque. */
module Runtime {

  datatype Option<+T> = None | Some(value: T)

  /** The errors the router code raises with `throw`, plus the TypeError the runtime raises
      when the code reads a property of `undefined`. */
  datatype Error =
    | InvalidMethod          // "Method must be one of ..."
    | TerminalNotString      // "Terminal must be a string!"
    | TerminalFormat         // "Terminal must be in the format of `controller.action`!"
    | InvalidRouteName(name: string)
    | TypeError

  /** The completion of a JavaScript call: a returned value or a thrown error. */
  datatype Outcome<+T> = Return(value: T) | Throw(error: Error)

  /** Services of the host that the model does not look inside.
      - search(source, s) is `new RegExp(source).test(s)` for a regular expression that is not
        one of the two default classes (those are given exact semantics by the model).
      - decode is `decodeURIComponent`.
      - encode is the query-string encoder applied to the unconsumed parameters. */
  datatype Host = Host(
    search: (string, string) -> bool,
    decode: string -> string,
    encode: map<string, string> -> string)

  /** JavaScript truthiness of an optional string: `undefined` and `""` are falsy. */
  predicate Truthy(s: Option<string>) {
    s.Some? && s.value != ""
  }
}
