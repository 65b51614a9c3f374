/** The error taxonomy of templimiter as one tagged datatype, the text each
    kind renders, and the Result type every fallible operation returns. */
module Errors {

  /** One constructor per error class; the fields are the constructor
      arguments of the corresponding exception. */
  datatype Error =
    | ArgumentError(argName: string, argType: string, sample: string, details: string)
    | ConfigError(tag: string, value: string, details: string)
    | IOError(path: string, operation: string, details: string)
    | InternalError(details: string)
    | TypeError(typeTo: string, typeFrom: string, details: string)

  /** Success or a raised error; usable with `:-`. */
  datatype Result<+T> = Ok(value: T) | Err(error: Error) {
    predicate IsFailure() {
      Err?
    }

    function PropagateFailure<U>(): Result<U>
      requires Err?
    {
      Err(error)
    }

    function Extract(): T
      requires Ok?
    {
      value
    }
  }

  /** An optional value; None plays the role of a sentinel such as npos. */
  datatype Option<+T> = None | Some(value: T)

  /** The class name an error reports through `name()`. */
  function Name(e: Error): string {
    match e
    case ArgumentError(_, _, _, _) => "ArgumentError"
    case ConfigError(_, _, _) => "ConfigError"
    case IOError(_, _, _) => "IOError"
    case InternalError(_) => "InternalError"
    case TypeError(_, _, _) => "TypeError"
  }

  function Header(e: Error): string {
    "[" + Name(e) + "]"
  }

  /** The part of an argument error between the header and the details. */
  function ArgumentBody(argName: string, argType: string, sample: string): string {
    if argName == "" || argType == "" || sample == "" then
      " Unspecified argument error."
    else
      " Invalid argument (" + argName + "). Expected argument of type " + argType
      + ". Sample: <" + sample + ">."
  }

  function ConfigBody(tag: string, value: string): string {
    if tag == "" && value == "" then
      " Unspecified configuration error."
    else
      " Invalid configuration value"
      + (if value != "" then " (" + value + ")" else "")
      + (if tag != "" then " at tag <" + tag + ">" else "")
      + "."
  }

  function IOBody(path: string, operation: string): string {
    if path == "" || operation == "" then
      " Unspecified I/O error."
    else
      " Unable to perform I/O operation (" + operation + ") on file \"" + path + "\"."
  }

  /** The middle clause of a type error; empty when both types are unknown
      but details are present. */
  function TypeBody(typeTo: string, typeFrom: string, details: string): string {
    if typeTo == "" && typeFrom == "" && details == "" then " Unspecified type error."
    else if typeTo != "" && typeFrom != "" then
      " Error converting to <" + typeTo + "> from <" + typeFrom + ">."
    else if typeTo != "" then " Error converting to <" + typeTo + ">."
    else if typeFrom != "" then " Error converting from <" + typeFrom + ">."
    else ""
  }

  /** Non-empty details follow a single space; empty details add nothing. */
  function DetailsSuffix(details: string): string {
    if details != "" then " " + details else ""
  }

  /** The message an error carries (`what()`). */
  function Describe(e: Error): (d: string)
    ensures Header(e) <= d
    ensures e.InternalError? ==> |d| > |Header(e)|
  {
    match e
    case ArgumentError(n, t, s, x) => Header(e) + ArgumentBody(n, t, s) + DetailsSuffix(x)
    case ConfigError(tag, v, x) => Header(e) + ConfigBody(tag, v) + DetailsSuffix(x)
    case IOError(p, op, x) => Header(e) + IOBody(p, op) + DetailsSuffix(x)
    case InternalError(x) =>
      Header(e) + (if x == "" then " Unspecified argument error." else " " + x)
    case TypeError(to, from, x) => Header(e) + TypeBody(to, from, x) + DetailsSuffix(x)
  }

  /** The same error without details. */
  function WithoutDetails(e: Error): Error {
    match e
    case ArgumentError(n, t, s, _) => ArgumentError(n, t, s, "")
    case ConfigError(tag, v, _) => ConfigError(tag, v, "")
    case IOError(p, op, _) => IOError(p, op, "")
    case InternalError(_) => InternalError("")
    case TypeError(to, from, _) => TypeError(to, from, "")
  }

  /** Details are appended after one space to the detail-free message, for
      every kind whose middle clause does not itself depend on the details. */
  lemma DetailsAreAppended(e: Error)
    requires e.details != ""
    requires !e.InternalError?
    requires e.TypeError? ==> e.typeTo != "" || e.typeFrom != ""
    ensures Describe(e) == Describe(WithoutDetails(e)) + " " + e.details
  {
  }

  lemma DiffersAt(a: string, b: string, k: nat)
    requires k < |a| && k < |b| && a[k] != b[k]
    ensures a != b
  {
  }

  /** An argument error is unspecified exactly when one of name, type or
      sample is missing. */
  lemma ArgumentUnspecifiedIff(n: string, t: string, s: string)
    ensures ArgumentBody(n, t, s) == " Unspecified argument error."
            <==> (n == "" || t == "" || s == "")
  {
    if n != "" && t != "" && s != "" {
      DiffersAt(ArgumentBody(n, t, s), " Unspecified argument error.", 1);
    }
  }

  /** A configuration error is unspecified exactly when both tag and value are
      missing. */
  lemma ConfigUnspecifiedIff(tag: string, v: string)
    ensures ConfigBody(tag, v) == " Unspecified configuration error."
            <==> (tag == "" && v == "")
  {
    if tag != "" || v != "" {
      DiffersAt(ConfigBody(tag, v), " Unspecified configuration error.", 1);
    }
  }

  /** An I/O error is unspecified exactly when path or operation is missing. */
  lemma IOUnspecifiedIff(p: string, op: string)
    ensures IOBody(p, op) == " Unspecified I/O error." <==> (p == "" || op == "")
  {
    if p != "" && op != "" {
      DiffersAt(IOBody(p, op), " Unspecified I/O error.", 3);
    }
  }

  /** A type error with neither type but some details is the header followed
      by the details alone. */
  lemma TypeErrorDetailsOnly(x: string)
    requires x != ""
    ensures Describe(TypeError("", "", x)) == Header(TypeError("", "", x)) + " " + x
  {
  }

  /** An internal error with details is the header, a space and the details;
      without details it falls back to the (misnamed) argument-error text. */
  lemma InternalErrorText(x: string)
    ensures x != "" ==> Describe(InternalError(x)) == Header(InternalError(x)) + " " + x
    ensures x == "" ==> Describe(InternalError(x)) == Header(InternalError(x)) + " Unspecified argument error."
  {
  }
}
