/** The failures of the calculator and the message each one carries to the caller. */
module Errors {

  datatype Error =
    | EmptyExpression
    | InvalidCharacter(c: char)
    | MismatchedClose
    | MismatchedOpen
    | NumberFormat(text: string)
    | UnaryMissingOperand
    | OperatorMissingOperand
    | InvalidExpression
    | EmptyEquation
    | NoEquals
    | RightSideNotNumber
    | InvalidXTerm(term: string)
    | InvalidConstantTerm(term: string)
    | NoSolution

  /** The text of the exception, which the public entry points put in the "error" field. */
  function Message(e: Error): string
  {
    match e
    case EmptyExpression => "Empty expression"
    case InvalidCharacter(c) => "Invalid character: " + [c]
    case MismatchedClose => "Mismatched ')'"
    case MismatchedOpen => "Mismatched '('"
    case NumberFormat(t) => "For input string: \"" + t + "\""
    case UnaryMissingOperand => "Unary minus missing operand"
    case OperatorMissingOperand => "Operator missing operand"
    case InvalidExpression => "Invalid expression"
    case EmptyEquation => "Empty equation"
    case NoEquals => "No '=' found"
    case RightSideNotNumber => "Right side must be a number"
    case InvalidXTerm(t) => "Invalid x term: " + t
    case InvalidConstantTerm(t) => "Invalid constant term: " + t
    case NoSolution => "No x term or infinite/no solutions"
  }
}
