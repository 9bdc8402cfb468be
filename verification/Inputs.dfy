/** Declared inputs of a bootstrap configuration. */
module Inputs {
  import opened Prelude
  import opened TextScan

  datatype InputType = UidPair | Gid | Bool | Path

  datatype InputValue = BoolValue(b: bool) | IntegerValue(n: nat) | StringValue(s: string)

  function ValueText(v: InputValue): string {
    match v
    case BoolValue(b) => if b then "true" else "false"
    case IntegerValue(n) => ToDecimal(n)
    case StringValue(s) => s
  }

  datatype Input = Input(
    inputType: InputType,
    aliases: seq<string>,
    runtime: bool,
    default: Option<InputValue>)

  datatype Declaration = Declaration(name: string, input: Input)
}
