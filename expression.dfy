/** The compiler's `expression` value: lowered Lua text plus a parenthesisation flag. */
module Expressions {

  /**
   * A lowered expression. `parens` marks text that must be wrapped in
   * parentheses when it is embedded in a larger expression.
   */
  datatype Expression = Expression(str: string, parens: bool)

  /** expression.StringWithParens: parentheses are added exactly when the flag is set. */
  function StringWithParens(e: Expression): (s: string)
    ensures e.parens ==> s == "(" + e.str + ")"
    ensures !e.parens ==> s == e.str
  {
    if e.parens then "(" + e.str + ")" else e.str
  }
}
