/** Cell content (the Empty/Text/Formula implementations behind Cell::impl_),
    its observables, and the per-position node of the sheet's arena. */
module Cells {
  import opened Outcomes
  import opened Positions
  import opened Formulas

  /** FORMULA_SIGN and ESCAPE_SIGN. */
  const FormulaSign: char := '='
  const EscapeSign: char := '\''

  /** Exactly one of EmptyImpl, TextImpl, FormulaImpl; only a formula carries
      the memoised result (`cache_`). */
  datatype Content =
    | Empty
    | Text(raw: string)
    | FormulaCell(formula: Formula, cache: Option<FormulaValue>)

  /** CellInterface::Value: text, number or formula error. */
  datatype CellValue = Str(text: string) | Num(number: real) | FormulaFault(fault: FormulaError)

  /** A cell of the sheet: its content, the positions it reads (`reference_`)
      and the positions that read it (`depend_`). Sets, so an edge is present
      at most once. */
  datatype Node = Node(content: Content, reference: set<Position>, depend: set<Position>)

  /** A freshly constructed Cell: empty, with no edges. */
  const EmptyNode: Node := Node(Empty, {}, {})

  /** The sheet's storage: a key maps to a live cell, or to None once
      ClearCell has reset the owning pointer. */
  type Arena = map<Position, Option<Node>>

  /** The set of positions listed in `refs` (duplicates collapse). */
  function Members(refs: seq<Position>): set<Position> {
    set q | q in refs
  }

  /** GetText of each implementation. */
  function GetText(c: Content): (t: string)
    ensures c.FormulaCell? ==> |t| >= 1 && t[0] == FormulaSign
  {
    match c
    case Empty => ""
    case Text(raw) => raw
    case FormulaCell(f, _) => [FormulaSign] + f.expression
  }

  /** GetValue of each implementation; a formula is evaluated by `evaluate`.
      Only a formula yields a number or an error; a text shows its raw
      characters, less a leading ESCAPE_SIGN; a formula's value is a fresh
      evaluation whatever its cache holds. */
  function GetValue(c: Content, evaluate: Evaluator): (r: CellValue)
    ensures r.Str? <==> !c.FormulaCell?
    ensures c.Empty? ==> r.text == ""
    ensures c.Text? ==> (r.text == c.raw <==> |c.raw| == 0 || c.raw[0] != EscapeSign)
    ensures c.Text? && |c.raw| > 0 && c.raw[0] == EscapeSign ==> [EscapeSign] + r.text == c.raw
    ensures c.FormulaCell? ==>
      (r.Num? && evaluate(c.formula) == Number(r.number)) ||
      (r.FormulaFault? && evaluate(c.formula) == Fault(r.fault))
  {
    match c
    case Empty => Str("")
    case Text(raw) => Str(if |raw| > 0 && raw[0] == EscapeSign then raw[1..] else raw)
    case FormulaCell(f, _) =>
      match evaluate(f)
      case Number(x) => Num(x)
      case Fault(e) => FormulaFault(e)
  }

  /** GetReferencedCells: the base implementation returns nothing; a formula
      delegates to the parsed formula. */
  function ReferencedCells(c: Content): (r: seq<Position>)
    ensures !c.FormulaCell? ==> r == []
    ensures c.FormulaCell? ==> r == c.formula.refs
    ensures forall i :: 0 <= i < |r| ==> IsValid(r[i])
  {
    if c.FormulaCell? then c.formula.refs else []
  }

  /** GetCache: the base implementation returns none; a formula returns its
      memoised value, if any. */
  function GetCache(c: Content): (r: Option<FormulaValue>)
    ensures !c.FormulaCell? ==> r == None
    ensures c.FormulaCell? ==> r == c.cache
  {
    if c.FormulaCell? then c.cache else None
  }

  /** ResetCache: clears a formula's cache; a no-op for the other kinds. */
  function ResetCache(c: Content): (r: Content)
    ensures GetCache(r) == None
    ensures GetText(r) == GetText(c) && ReferencedCells(r) == ReferencedCells(c)
    ensures GetCache(c) == None ==> r == c
  {
    if c.FormulaCell? then FormulaCell(c.formula, None) else c
  }

  /** The content Cell::Set builds for `text`: an empty text gives Empty, a
      text starting with FORMULA_SIGN and longer than it is parsed as a
      formula (SyntaxError when that fails), anything else is Text. */
  function Classify(text: string, parse: Parser): (r: Result<Content>)
    ensures r.Err? <==> |text| > 1 && text[0] == FormulaSign && parse(text[1..]).None?
    ensures r.Err? ==> r.error == SyntaxError
    ensures r.Ok? ==> GetCache(r.value) == None && (r.value.Empty? <==> text == [])
    ensures r.Ok? && !r.value.FormulaCell? ==> GetText(r.value) == text
  {
    if text == [] then Ok(Empty)
    else if text[0] == FormulaSign && |text| > 1 then
      match parse(text[1..])
      case None => Err(SyntaxError)
      case Some(f) => Ok(FormulaCell(f, None))
    else Ok(Text(text))
  }

  /** What each text turns into, case by case. */
  lemma {:induction false} ClassifyCases(text: string, parse: Parser)
    ensures text == [] ==> Classify(text, parse) == Ok(Empty)
    ensures |text| > 1 && text[0] == FormulaSign ==>
      (parse(text[1..]).None? ==> Classify(text, parse) == Err(SyntaxError)) &&
      (parse(text[1..]).Some? ==> Classify(text, parse) == Ok(FormulaCell(parse(text[1..]).value, None)))
    ensures text != [] && (text[0] != FormulaSign || |text| == 1) ==> Classify(text, parse) == Ok(Text(text))
    ensures Classify(text, parse).Err? ==> Classify(text, parse).error == SyntaxError
    ensures Classify(text, parse).Ok? ==> GetCache(Classify(text, parse).value) == None
  {
  }

  /** GetText gives back the text Set was called with, provided the parser
      prints formulas back as it read them. */
  lemma {:induction false} TextRoundTrip(text: string, parse: Parser)
    requires Canonical(parse)
    requires Classify(text, parse).Ok?
    ensures GetText(Classify(text, parse).value) == text
  {
    if text != [] && text[0] == FormulaSign && |text| > 1 {
      var f := parse(text[1..]).value;
      assert f.expression == text[1..];
      assert [text[0]] + text[1..] == text;
    }
  }

  /** The value of a text cell drops exactly one leading ESCAPE_SIGN: putting
      it back yields the text. */
  lemma EscapeStripped(raw: string, evaluate: Evaluator)
    ensures GetText(Text(raw)) == raw
    ensures var v := GetValue(Text(raw), evaluate).text;
      if |raw| > 0 && raw[0] == EscapeSign then [EscapeSign] + v == raw else v == raw
  {
    if |raw| > 0 && raw[0] == EscapeSign {
      assert [raw[0]] + raw[1..] == raw;
    }
  }

  /** Only a formula ever holds a cache, and resetting twice is resetting once. */
  lemma CacheOnlyInFormula(c: Content)
    ensures GetCache(c).Some? ==> c.FormulaCell?
    ensures ResetCache(ResetCache(c)) == ResetCache(c)
    ensures !c.FormulaCell? ==> ReferencedCells(c) == [] && ResetCache(c) == c
  {
  }
}
