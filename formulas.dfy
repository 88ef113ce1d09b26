/** The formula collaborator, as the cell sees it: a parsed formula exposes its
    canonical expression text and the positions it reads; parsing and
    evaluation themselves are supplied from outside. */
module Formulas {
  import opened Outcomes
  import opened Positions

  /** Evaluation-time error categories; they are values, not exceptions. */
  datatype FormulaError = RefError | ValueError | ArithmeticError

  /** FormulaInterface::Value: a number or a formula error. */
  datatype FormulaValue = Number(number: real) | Fault(fault: FormulaError)

  datatype FormulaData = FormulaData(expression: string, refs: seq<Position>)

  /** A parsed formula. The referenced positions are in the formula's own order
      and may repeat; the parser only ever reports valid positions. */
  type Formula = f: FormulaData | forall i :: 0 <= i < |f.refs| ==> IsValid(f.refs[i])
    witness FormulaData("", [])

  /** ParseFormula: None when the expression does not parse. */
  type Parser = string -> Option<Formula>

  /** FormulaInterface::Evaluate bound to the owning sheet. */
  type Evaluator = Formula -> FormulaValue

  /** A parser whose formulas print back as the text they were parsed from. */
  ghost predicate Canonical(parse: Parser) {
    forall e :: parse(e).Some? ==> parse(e).value.expression == e
  }

  /** A parser that accepts nothing; `Clear` passes it because an empty text is
      never parsed. */
  function NoParse(e: string): Option<Formula> {
    None
  }
}
