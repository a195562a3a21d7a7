/** The errors an instruction can raise, and the message text each one carries. */
module Errors {

  datatype AsmError =
    | MissingRegister                // parseRegister on an empty or missing token
    | InvalidRegister(reg: string)   // parseRegister on anything else it does not know
    | InvalidStoreSyntax             // a store whose second operand is not `imm(reg)`
    | UnknownInstruction(name: string)
    | MatchOnUndefined               // `tokens[2].match(...)` when there is no third token

  /** The `message` of the JavaScript error object the source throws. */
  function Message(e: AsmError): string {
    match e
    case MissingRegister => "Missing register"
    case InvalidRegister(reg) => "Invalid register: " + reg
    case InvalidStoreSyntax => "Invalid Store syntax"
    case UnknownInstruction(name) => "Unknown instruction: " + name
    case MatchOnUndefined => "Cannot read properties of undefined (reading 'match')"
  }
}
