/**
 * The character constants and the two patterns the parser consults. The class that
 * defines them is not part of this model; the values here are the ones the parser's
 * branches need (END_CHAR must hold the comma, the apostrophe and the closing bracket
 * for the segment-closing branches to be reachable).
 */
module CharConstants {

  const SPACE_CHAR: char := ' '
  const COMMA_CHAR: char := ','
  const APOSTROPHE_CHAR: char := '\''
  const BRACKETS_LEFT_CHAR: char := '('
  const BRACKETS_RIGHT_CHAR: char := ')'
  const END_CHAR: seq<char> := [COMMA_CHAR, APOSTROPHE_CHAR, BRACKETS_RIGHT_CHAR]
  const OPERATORS: seq<char> := ['!', '&', '|', '>', '<', '=', '-', '+', '*', '/']
  const EQUAL: char := '='
  const LE: char := '<'
  const GE: char := '>'

  predicate IsOperator(c: char) {
    c in OPERATORS
  }

  /** A character of a function name (the `\w` class). */
  predicate IsNameChar(c: char) {
    'a' <= c <= 'z' || 'A' <= c <= 'Z' || '0' <= c <= '9' || c == '_'
  }

  /** OPERATOR_PATTERN: the head is a non-empty run of operator characters. */
  predicate AllOperators(head: string) {
    |head| > 0 && forall k :: 0 <= k < |head| ==> IsOperator(head[k])
  }

  /** Length of the leading run of operator characters and spaces. */
  function OperatorRun(head: string): (n: nat)
    ensures n <= |head|
    ensures forall k :: 0 <= k < n ==> IsOperator(head[k]) || head[k] == SPACE_CHAR
    ensures n < |head| ==> !IsOperator(head[n]) && head[n] != SPACE_CHAR
  {
    if |head| == 0 || !(IsOperator(head[0]) || head[0] == SPACE_CHAR) then 0
    else 1 + OperatorRun(head[1..])
  }

  /**
   * OPERATOR_START_PATTERN: the head starts with an operator character, continues with
   * operator characters and spaces, and ends with a non-empty name.
   */
  predicate OperatorsThenName(head: string) {
    && |head| > 0
    && IsOperator(head[0])
    && OperatorRun(head) < |head|
    && forall k :: OperatorRun(head) <= k < |head| ==> IsNameChar(head[k])
  }
}
