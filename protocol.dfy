/** Cell::Set as a whole: the intended protocol (no-op check, classify, parse,
    cycle check, edge rewrite, swap, invalidation), the protocol as the source
    writes it (with the old references re-committed at the end), and the
    invariants the intended one keeps. */
module Protocol {
  import opened Outcomes
  import opened Positions
  import opened Formulas
  import opened Cells
  import opened Graph
  import opened Invalidation
  import opened Edges

  /** CheckDependency's verdict: the cell at pos is reachable from one of the
      positions the new content reads (the position itself included). */
  ghost predicate Cyclic(s: Arena, pos: Position, refs: seq<Position>) {
    exists i :: 0 <= i < |refs| && Reaches(s, refs[i], pos)
  }

  /** Cell::Set(text) on the cell at pos with the edges committed from the new
      content. An error leaves the arena as it was. */
  ghost function CellSetSpec(s: Arena, pos: Position, text: string, parse: Parser): (r: Result<Arena>)
    requires Live(s, pos)
    ensures GetText(s[pos].value.content) == text ==> r == Ok(s)
    ensures r.Err? ==> r.error in {SyntaxError, CircularDependency, NullCell}
    ensures r.Err? && r.error == SyntaxError ==> Classify(text, parse).Err?
    ensures r.Ok? ==> s.Keys <= r.value.Keys && Live(r.value, pos)
    ensures r.Ok? ==> forall q :: q in s && s[q].None? ==> r.value[q].None?
  {
    if GetText(s[pos].value.content) == text then Ok(s)
    else
      match Classify(text, parse)
      case Err(e) => Err(e)
      case Ok(c) =>
        if Cyclic(s, pos, ReferencedCells(c)) then Err(CircularDependency)
        else if HitsNullCell(s, pos, ReferencedCells(c)) then Err(NullCell)
        else Ok(InvalidateSpec(Commit(s, pos, c), pos))
  }

  // ---------------------------------------------------------------------------
  // Acyclicity after a commit

  /** A rank for the arena after a commit at a: every cell that reached a is
      lifted by k, every other keeps its rank, a created cell gets 0. */
  ghost function Rerank(s: Arena, r: Arena, rank: map<Position, nat>, a: Position, k: nat): map<Position, nat> {
    map p | p in rank.Keys + r.Keys ::
      if p in rank && Reaches(s, p, a) then rank[p] + k else if p in rank then rank[p] else 0
  }

  /** Committing a content none of whose positions reaches a keeps the graph
      acyclic. */
  lemma CommitRanked(s: Arena, rank: map<Position, nat>, a: Position, c: Content, k: nat)
    requires Ranked(s, rank) && Live(s, a) && !Cyclic(s, a, ReferencedCells(c))
    requires forall x :: x in rank ==> rank[x] < k
    ensures Ranked(Commit(s, a, c), Rerank(s, Commit(s, a, c), rank, a, k))
  {
    var r := Commit(s, a, c);
    var rank' := Rerank(s, r, rank, a, k);
    var refs := ReferencedCells(c);
    CommitEdges(s, a, c);
    ReachesSelf(s, a);
    forall x, y | Edge(r, x, y)
      ensures y in rank' && x in rank' && rank'[y] < rank'[x]
    {
      if x == a {
        var i :| 0 <= i < |refs| && refs[i] == y;
        assert !Reaches(s, y, a);
      } else {
        assert Edge(s, x, y);
        if Reaches(s, y, a) {
          ReachesStep(s, x, y, a);
        }
      }
    }
  }

  /** Every cached formula other than the committed one reads only cached
      formulas, if that held everywhere before. */
  lemma CommitCacheClosed(s: Arena, a: Position, c: Content)
    requires Live(s, a) && CacheClosed(s) && GetCache(c) == None
    ensures CacheClosedExcept(Commit(s, a, c), a)
  {
    var r := Commit(s, a, c);
    CommitEdges(s, a, c);
    forall e, d | Cached(r, e) && Edge(r, e, d) && d != a && Live(r, d) && r[d].value.content.FormulaCell?
      ensures Cached(r, d)
    {
      RelinkAt(s, a, ReferencedCells(c), e);
      RelinkAt(s, a, ReferencedCells(c), d);
    }
  }

  // ---------------------------------------------------------------------------
  // The intended Set

  /** A successful Set keeps the edge sets consistent and the graph acyclic. */
  lemma SetKeepsValid(s: Arena, rank: map<Position, nat>, pos: Position, text: string, parse: Parser)
    returns (rank': map<Position, nat>)
    requires WellFormed(s) && Ranked(s, rank) && Live(s, pos)
    requires CellSetSpec(s, pos, text, parse).Ok?
    ensures WellFormed(CellSetSpec(s, pos, text, parse).value)
    ensures Ranked(CellSetSpec(s, pos, text, parse).value, rank')
  {
    if GetText(s[pos].value.content) == text {
      rank' := rank;
    } else {
      var c := Classify(text, parse).value;
      var r0 := Commit(s, pos, c);
      CommitWellFormed(s, pos, c);
      var k := RankBound(rank);
      CommitRanked(s, rank, pos, c, k);
      rank' := Rerank(s, r0, rank, pos, k);
      InvalidateTouchesCachesOnly(r0, pos);
      CachesOnlyKeepsWellFormed(r0, InvalidateSpec(r0, pos));
      CachesOnlyKeepsRanked(r0, InvalidateSpec(r0, pos), rank');
    }
  }

  /** What a successful Set with a new text leaves at pos: the classified
      content with no cache, `reference` the set of positions it reads, each of
      which now holds a cell that lists pos among its readers. */
  lemma SetResult(s: Arena, pos: Position, text: string, parse: Parser)
    requires WellFormed(s) && Live(s, pos) && GetText(s[pos].value.content) != text
    requires CellSetSpec(s, pos, text, parse).Ok?
    ensures var r := CellSetSpec(s, pos, text, parse).value;
      var c := Classify(text, parse).value;
      && Live(r, pos) && r[pos].value.content == c
      && r[pos].value.reference == Members(ReferencedCells(c))
      && (forall i :: 0 <= i < |ReferencedCells(c)| ==>
            Live(r, ReferencedCells(c)[i]) && pos in r[ReferencedCells(c)[i]].value.depend)
  {
    var c := Classify(text, parse).value;
    ClassifyCases(text, parse);
    var r0 := Commit(s, pos, c);
    CommitWellFormed(s, pos, c);
    var r := InvalidateSpec(r0, pos);
    InvalidateTouchesCachesOnly(r0, pos);
    CachesOnlyAt(r0, r, pos);
    assert ResetCache(c) == c;
    forall i | 0 <= i < |ReferencedCells(c)|
      ensures Live(r, ReferencedCells(c)[i]) && pos in r[ReferencedCells(c)[i]].value.depend
    {
      var q := ReferencedCells(c)[i];
      RelinkAt(s, pos, ReferencedCells(c), q);
      CachesOnlyAt(r0, r, q);
    }
  }

  /** After a successful Set, no cell that reads pos holds a cache, and if every
      cached formula read only cached formulas before, it still does: the
      early-stopping walk misses no stale cache. */
  lemma SetKeepsCacheClosed(s: Arena, pos: Position, text: string, parse: Parser)
    requires WellFormed(s) && Live(s, pos) && CacheClosed(s)
    requires CellSetSpec(s, pos, text, parse).Ok?
    ensures CacheClosed(CellSetSpec(s, pos, text, parse).value)
    ensures GetText(s[pos].value.content) != text ==>
      var r := CellSetSpec(s, pos, text, parse).value;
      forall d :: d in r[pos].value.depend ==> !Cached(r, d)
  {
    if GetText(s[pos].value.content) != text {
      var c := Classify(text, parse).value;
      ClassifyCases(text, parse);
      var r0 := Commit(s, pos, c);
      CommitWellFormed(s, pos, c);
      CommitCacheClosed(s, pos, c);
      InvalidationCoversCachedReaders(r0, pos);
      InvalidateTouchesCachesOnly(r0, pos);
      CachesOnlyAt(r0, InvalidateSpec(r0, pos), pos);
    }
  }

  /** Setting the same text twice is setting it once, whatever the parser:
      either the second call finds the text unchanged, or it classifies the
      text as the first did, the new content's references cannot reach the
      cell, re-linking them and swapping the same content in changes nothing,
      and no reader of the cell holds a cache any more. */
  lemma SetIdempotent(s: Arena, rank: map<Position, nat>, pos: Position, text: string, parse: Parser)
    requires WellFormed(s) && Ranked(s, rank) && Live(s, pos)
    requires CellSetSpec(s, pos, text, parse).Ok?
    ensures var r := CellSetSpec(s, pos, text, parse).value;
      Live(r, pos) && CellSetSpec(r, pos, text, parse) == Ok(r)
  {
    if GetText(s[pos].value.content) != text {
      var c := Classify(text, parse).value;
      var r := CellSetSpec(s, pos, text, parse).value;
      SetResult(s, pos, text, parse);
      var rank' := SetKeepsValid(s, rank, pos, text, parse);
      if GetText(r[pos].value.content) != text {
        ClassifyCases(text, parse);
        var refs := ReferencedCells(c);
        OwnReadsNotCyclic(r, rank', pos);
        assert !HitsNullCell(r, pos, refs) by {
          forall q | q in r[pos].value.reference
            ensures Live(r, q)
          {
            assert q in refs;
          }
        }
        CommitSameIsIdentity(r, pos, c);
        SetLeavesReadersUncached(s, pos, text, parse);
        InvalidateQuiet(r, pos);
      }
    }
  }

  /** After a Set that changed the text, neither the cell nor any cell
      reading it holds a cache. */
  lemma SetLeavesReadersUncached(s: Arena, pos: Position, text: string, parse: Parser)
    requires WellFormed(s) && Live(s, pos) && GetText(s[pos].value.content) != text
    requires CellSetSpec(s, pos, text, parse).Ok?
    ensures var r := CellSetSpec(s, pos, text, parse).value;
      && Live(r, pos) && !Cached(r, pos)
      && forall d :: d in r[pos].value.depend ==> !Cached(r, d)
  {
    var c := Classify(text, parse).value;
    var r0 := Commit(s, pos, c);
    var r := InvalidateSpec(r0, pos);
    CommitWellFormed(s, pos, c);
    InvalidateKeepsNode(r0, pos, pos);
    forall d | d in r[pos].value.depend
      ensures !Cached(r, d)
    {
      InvalidationClearsReaders(r0, pos, d);
    }
  }

  /** In an acyclic arena the positions a cell reads never lead back to it. */
  lemma OwnReadsNotCyclic(s: Arena, rank: map<Position, nat>, pos: Position)
    requires Ranked(s, rank) && Live(s, pos)
    ensures !Cyclic(s, pos, ReferencedCells(s[pos].value.content))
  {
    var refs := ReferencedCells(s[pos].value.content);
    forall i | 0 <= i < |refs|
      ensures !Reaches(s, refs[i], pos)
    {
      if Reaches(s, refs[i], pos) {
        var path :| ReadsPath(s, path) && path[0] == refs[i] && path[|path| - 1] == pos;
        var cycle := [pos] + path;
        forall j | 0 <= j < |cycle| - 1
          ensures Edge(s, cycle[j], cycle[j + 1])
        {
          if j > 0 {
            assert cycle[j] == path[j - 1] && cycle[j + 1] == path[j];
          }
        }
        assert ReadsPath(s, cycle);
        NoCycle(s, rank, cycle);
        assert false;
      }
    }
  }

  /** A formula that reads its own cell is rejected. */
  lemma SelfReferenceRejected(s: Arena, pos: Position, text: string, parse: Parser)
    requires Live(s, pos) && GetText(s[pos].value.content) != text
    requires Classify(text, parse).Ok? && pos in ReferencedCells(Classify(text, parse).value)
    ensures CellSetSpec(s, pos, text, parse) == Err(CircularDependency)
  {
    var refs := ReferencedCells(Classify(text, parse).value);
    var i :| 0 <= i < |refs| && refs[i] == pos;
    ReachesSelf(s, pos);
  }

  /** A formula that reads a cell which (transitively) reads pos is rejected:
      the cycle is found through the existing cells' references. */
  lemma ReaderReferenceRejected(s: Arena, pos: Position, y: Position, text: string, parse: Parser)
    requires Live(s, pos) && GetText(s[pos].value.content) != text
    requires Classify(text, parse).Ok? && y in ReferencedCells(Classify(text, parse).value)
    requires Edge(s, y, pos)
    ensures CellSetSpec(s, pos, text, parse) == Err(CircularDependency)
  {
    var refs := ReferencedCells(Classify(text, parse).value);
    var i :| 0 <= i < |refs| && refs[i] == y;
    ReachesSelf(s, pos);
    ReachesStep(s, y, pos, pos);
  }

  /** Clear is Set(""): it needs no parser, and it leaves a cell that shows
      the empty text, reads nothing and is read by no cell from its side. */
  lemma ClearDropsEdges(s: Arena, pos: Position, parse: Parser)
    requires WellFormed(s) && Live(s, pos)
    requires CellSetSpec(s, pos, "", parse).Ok?
    ensures CellSetSpec(s, pos, "", parse) == CellSetSpec(s, pos, "", NoParse)
    ensures var r := CellSetSpec(s, pos, "", parse).value;
      && Live(r, pos) && GetText(r[pos].value.content) == "" && r[pos].value.reference == {}
      && forall q :: Live(r, q) ==> pos !in r[q].value.depend
  {
    var r := CellSetSpec(s, pos, "", parse).value;
    if GetText(s[pos].value.content) == "" {
      assert ReferencedCells(s[pos].value.content) == [];
    } else {
      SetResult(s, pos, "", parse);
    }
    CellSetWellFormed(s, pos, "", parse);
    var readSet := r[pos].value.reference;
    forall q | Live(r, q)
      ensures pos !in r[q].value.depend
    {
      assert pos in r[q].value.depend ==> q in readSet;
    }
  }

  /** A successful Set keeps the edge sets consistent. */
  lemma CellSetWellFormed(s: Arena, pos: Position, text: string, parse: Parser)
    requires WellFormed(s) && Live(s, pos)
    requires CellSetSpec(s, pos, text, parse).Ok?
    ensures WellFormed(CellSetSpec(s, pos, text, parse).value)
  {
    if GetText(s[pos].value.content) != text {
      var c := Classify(text, parse).value;
      var r0 := Commit(s, pos, c);
      CommitWellFormed(s, pos, c);
      InvalidateTouchesCachesOnly(r0, pos);
      CachesOnlyKeepsWellFormed(r0, InvalidateSpec(r0, pos));
    }
  }

  // ---------------------------------------------------------------------------
  // The Set the source writes: line 50 re-commits the references the cell had
  // before the call

  /** UpdateDependencies(refs), failing where the source would dereference a
      null entry. */
  function TryRelink(s: Arena, a: Position, refs: seq<Position>): Result<Arena>
    requires Live(s, a)
  {
    if HitsNullCell(s, a, refs) then Err(NullCell) else Ok(Relink(s, a, refs))
  }

  /** The three branches of Set before its final re-commit: a formula checks,
      commits and swaps in its own references; a non-empty text checks and
      re-commits the OLD references, then swaps in the text; the empty text
      swaps in Empty and commits no references. */
  ghost function StagedAsWritten(s: Arena, pos: Position, text: string, parse: Parser): (r: Result<Arena>)
    requires Live(s, pos)
    ensures r.Err? ==> r.error in {SyntaxError, CircularDependency, NullCell}
    ensures r.Ok? ==> Classify(text, parse).Ok? && s.Keys <= r.value.Keys && Live(r.value, pos)
    ensures r.Ok? ==> r.value[pos].value.content == Classify(text, parse).value
  {
    var olds := ReferencedCells(s[pos].value.content);
    if text != [] then
      if text[0] == FormulaSign && |text| > 1 then
        match parse(text[1..])
        case None => Err(SyntaxError)
        case Some(f) =>
          if Cyclic(s, pos, f.refs) then Err(CircularDependency)
          else if HitsNullCell(s, pos, f.refs) then Err(NullCell)
          else Ok(Install(Relink(s, pos, f.refs), pos, FormulaCell(f, None)))
      else if Cyclic(s, pos, olds) then Err(CircularDependency)
      else if HitsNullCell(s, pos, olds) then Err(NullCell)
      else Ok(Install(Relink(s, pos, olds), pos, Text(text)))
    else TryRelink(Install(s, pos, Empty), pos, [])
  }

  /** Cell::Set as written: the staged branch, then UpdateDependencies on the
      references the cell had before the call, then InvalidateCache. */
  ghost function SetAsWritten(s: Arena, pos: Position, text: string, parse: Parser): (r: Result<Arena>)
    requires Live(s, pos)
    ensures GetText(s[pos].value.content) == text ==> r == Ok(s)
    ensures r.Err? ==> r.error in {SyntaxError, CircularDependency, NullCell}
    ensures r.Ok? ==> s.Keys <= r.value.Keys && Live(r.value, pos)
    ensures r.Ok? && GetText(s[pos].value.content) != text ==>
      r.value[pos].value.reference == Members(ReferencedCells(s[pos].value.content))
  {
    if GetText(s[pos].value.content) == text then Ok(s)
    else
      match StagedAsWritten(s, pos, text, parse)
      case Err(e) => Err(e)
      case Ok(s2) =>
        if !Live(s2, pos) then Err(NullCell)
        else
          match TryRelink(s2, pos, ReferencedCells(s[pos].value.content))
          case Err(e) => Err(e)
          case Ok(s3) => Ok(InvalidateSpec(s3, pos))
  }

  /** As written, every successful Set leaves the cell's `reference` equal to
      the positions its content read BEFORE the call, whatever the new
      content reads. */
  lemma SetAsWrittenRestoresOldEdges(s: Arena, pos: Position, text: string, parse: Parser)
    requires WellFormed(s) && Live(s, pos) && SetAsWritten(s, pos, text, parse).Ok?
    ensures var r := SetAsWritten(s, pos, text, parse).value;
      Live(r, pos) && r[pos].value.reference == Members(ReferencedCells(s[pos].value.content))
  {
    if GetText(s[pos].value.content) != text {
      var s2 := StagedAsWritten(s, pos, text, parse).value;
      var olds := ReferencedCells(s[pos].value.content);
      var s3 := Relink(s2, pos, olds);
      RelinkAt(s2, pos, olds, pos);
      InvalidateTouchesCachesOnly(s3, pos);
      CachesOnlyAt(s3, InvalidateSpec(s3, pos), pos);
    }
  }

  /** The last two steps of Set as written, once the staged branch succeeded. */
  lemma SetAsWrittenTail(s: Arena, pos: Position, text: string, parse: Parser, s2: Arena)
    requires Live(s, pos) && GetText(s[pos].value.content) != text
    requires StagedAsWritten(s, pos, text, parse) == Ok(s2) && Live(s2, pos)
    requires !HitsNullCell(s2, pos, ReferencedCells(s[pos].value.content))
    ensures SetAsWritten(s, pos, text, parse) ==
      Ok(InvalidateSpec(Relink(s2, pos, ReferencedCells(s[pos].value.content)), pos))
  {
  }

  /** The formula branch of Set as written, once parsing and both checks pass. */
  lemma StagedFormula(s: Arena, pos: Position, text: string, parse: Parser, f: Formula)
    requires Live(s, pos) && |text| > 1 && text[0] == FormulaSign && parse(text[1..]) == Some(f)
    requires !Cyclic(s, pos, f.refs) && !HitsNullCell(s, pos, f.refs)
    ensures StagedAsWritten(s, pos, text, parse) == Ok(Install(Relink(s, pos, f.refs), pos, FormulaCell(f, None)))
  {
  }

  /** A live cell whose `reference` differs from what its content reads
      breaks the edge invariant. */
  lemma StaleEdgesNotWellFormed(r: Arena, p: Position)
    requires Live(r, p) && r[p].value.reference != Members(ReferencedCells(r[p].value.content))
    ensures !WellFormed(r)
  {
  }

  /** Invalidation leaves the node's edges and the text it shows. */
  lemma InvalidateKeepsNode(s: Arena, a: Position, p: Position)
    requires Live(s, a) && Live(s, p)
    ensures var r := InvalidateSpec(s, a);
      && Live(r, p) && r[p].value.reference == s[p].value.reference && r[p].value.depend == s[p].value.depend
      && ReferencedCells(r[p].value.content) == ReferencedCells(s[p].value.content)
      && GetText(r[p].value.content) == GetText(s[p].value.content)
  {
    InvalidateTouchesCachesOnly(s, a);
    CachesOnlyAt(s, InvalidateSpec(s, a), p);
    CachesOnlyKeepsGraph(s, InvalidateSpec(s, a));
  }

  const A1: Position := Position(0, 0)
  const B1: Position := Position(0, 1)

  /** A parser that reads every expression as a formula referring to B1. */
  function ReadsB1(e: string): Option<Formula> {
    Some(FormulaData(e, [B1]))
  }

  /** The formula "=B1" reads. */
  const ReadB1: Formula := FormulaData("B1", [B1])

  /** A sheet holding one empty cell, at A1. */
  const OnlyA1: Arena := map[A1 := Some(EmptyNode)]

  /** The steps Set("=B1") on A1 of OnlyA1 takes as written: commit [B1] and
      swap in the formula, then re-commit the old (empty) reference list. */
  lemma FormulaSetAsWrittenSteps()
    ensures SetAsWritten(OnlyA1, A1, "=B1", ReadsB1) ==
      Ok(InvalidateSpec(Relink(Install(Relink(OnlyA1, A1, [B1]), A1, FormulaCell(ReadB1, None)), A1, []), A1))
  {
    var s := OnlyA1;
    assert "=B1"[1..] == "B1";
    DeadEndReachesOnlyItself(s, B1, A1);
    assert !Cyclic(s, A1, ReadB1.refs);
    RelinkAt(s, A1, ReadB1.refs, A1);
    RelinkAt(s, A1, ReadB1.refs, B1);
    var s2 := Install(Relink(s, A1, ReadB1.refs), A1, FormulaCell(ReadB1, None));
    assert !HitsNullCell(s, A1, ReadB1.refs);
    StagedFormula(s, A1, "=B1", ReadsB1, ReadB1);
    assert s2[A1].value.reference == {B1} by {
      assert Members([B1]) == {B1};
    }
    assert !HitsNullCell(s2, A1, []);
    SetAsWrittenTail(s, A1, "=B1", ReadsB1, s2);
  }

  /** The arena those steps produce. */
  lemma FormulaSetAsWrittenResult()
    ensures var r := InvalidateSpec(Relink(Install(Relink(OnlyA1, A1, [B1]), A1, FormulaCell(ReadB1, None)), A1, []), A1);
      && Live(r, A1) && Live(r, B1)
      && ReferencedCells(r[A1].value.content) == [B1]
      && r[A1].value.reference == {} && r[B1].value.depend == {}
      && !WellFormed(r)
  {
    var s2 := Install(Relink(OnlyA1, A1, [B1]), A1, FormulaCell(ReadB1, None));
    RelinkAt(OnlyA1, A1, [B1], A1);
    RelinkAt(OnlyA1, A1, [B1], B1);
    var s3 := Relink(s2, A1, []);
    RelinkAt(s2, A1, [], B1);
    RelinkAt(s2, A1, [], A1);
    InvalidateKeepsNode(s3, A1, A1);
    InvalidateKeepsNode(s3, A1, B1);
    StaleEdgesNotWellFormed(InvalidateSpec(s3, A1), A1);
  }

  /** A sheet holding one fresh cell keeps the edge invariant. */
  lemma OnlyA1WellFormed()
    ensures WellFormed(OnlyA1)
  {
  }

  /** Setting "=B1" on an empty A1, as written: A1 holds the formula reading
      B1, yet its `reference` is empty and B1 does not list A1 as a reader,
      so the edge sets no longer agree with the contents. */
  lemma FormulaEdgesLostAsWritten()
    ensures WellFormed(OnlyA1)
    ensures var r := SetAsWritten(OnlyA1, A1, "=B1", ReadsB1);
      && r.Ok? && Live(r.value, A1) && Live(r.value, B1)
      && ReferencedCells(r.value[A1].value.content) == [B1]
      && r.value[A1].value.reference == {} && r.value[B1].value.depend == {}
      && !WellFormed(r.value)
  {
    OnlyA1WellFormed();
    FormulaSetAsWrittenSteps();
    FormulaSetAsWrittenResult();
  }

  /** The same Set, intended: A1 reads B1 and B1 lists A1 as its reader. */
  lemma FormulaEdgesKept()
    ensures var r := CellSetSpec(OnlyA1, A1, "=B1", ReadsB1);
      && r.Ok? && Live(r.value, A1) && Live(r.value, B1)
      && r.value[A1].value.reference == {B1} && A1 in r.value[B1].value.depend
      && WellFormed(r.value)
  {
    FormulaSetSucceeds();
    assert Members([B1]) == {B1};
    SetResult(OnlyA1, A1, "=B1", ReadsB1);
    CellSetWellFormed(OnlyA1, A1, "=B1", ReadsB1);
  }

  /** The intended Set of `=B1` on A1 passes every check: B1 cannot reach A1
      and is not a cleared entry. */
  lemma FormulaSetSucceeds()
    ensures WellFormed(OnlyA1) && Live(OnlyA1, A1)
    ensures CellSetSpec(OnlyA1, A1, "=B1", ReadsB1).Ok?
  {
    var s := OnlyA1;
    OnlyA1WellFormed();
    assert "=B1"[1..] == "B1";
    DeadEndReachesOnlyItself(s, B1, A1);
    assert !Cyclic(s, A1, ReadB1.refs);
  }

  /** A sheet where the formula cell A1 reads B1, both edges recorded. */
  const A1ReadsB1: Arena :=
    map[A1 := Some(Node(FormulaCell(ReadB1, None), {B1}, {})), B1 := Some(Node(Empty, {}, {A1}))]

  /** A1ReadsB1 satisfies the edge invariant. */
  lemma A1ReadsB1WellFormed()
    ensures WellFormed(A1ReadsB1)
  {
    assert Members([B1]) == {B1};
  }

  /** The empty-text branch of Clear on A1 of A1ReadsB1, as written: Empty
      swapped in, then no references committed, so A1 and B1 are unlinked. */
  lemma ClearStagedAsWritten()
    ensures var s2 := Relink(Install(A1ReadsB1, A1, Empty), A1, []);
      && StagedAsWritten(A1ReadsB1, A1, "", NoParse) == Ok(s2)
      && Live(s2, A1) && Live(s2, B1)
      && s2[A1].value.content == Empty && s2[A1].value.reference == {}
      && s2[B1].value.depend == {}
  {
    var s1 := Install(A1ReadsB1, A1, Empty);
    RelinkAt(s1, A1, [], A1);
    RelinkAt(s1, A1, [], B1);
  }

  /** The steps Clear on A1 of A1ReadsB1 takes as written: swap in Empty and
      commit no references, then re-commit the old reference list [B1]. */
  lemma ClearAsWrittenSteps()
    ensures SetAsWritten(A1ReadsB1, A1, "", NoParse) ==
      Ok(InvalidateSpec(Relink(Relink(Install(A1ReadsB1, A1, Empty), A1, []), A1, [B1]), A1))
  {
    ClearStagedAsWritten();
    var s2 := Relink(Install(A1ReadsB1, A1, Empty), A1, []);
    assert !HitsNullCell(s2, A1, [B1]);
    SetAsWrittenTail(A1ReadsB1, A1, "", NoParse, s2);
  }

  /** Clearing a formula cell A1 that reads B1, as written: A1 shows the empty
      text, yet still lists B1 in its `reference` and B1 still lists A1. */
  lemma ClearKeepsEdgesAsWritten()
    ensures var r := SetAsWritten(A1ReadsB1, A1, "", NoParse);
      && WellFormed(A1ReadsB1) && r.Ok? && Live(r.value, A1) && Live(r.value, B1)
      && GetText(r.value[A1].value.content) == ""
      && r.value[A1].value.reference == {B1} && r.value[B1].value.depend == {A1}
      && !WellFormed(r.value)
  {
    A1ReadsB1WellFormed();
    ClearAsWrittenSteps();
    ClearRecommitAsWritten();
    var s3 := Relink(Relink(Install(A1ReadsB1, A1, Empty), A1, []), A1, [B1]);
    InvalidateKeepsNode(s3, A1, A1);
    InvalidateKeepsNode(s3, A1, B1);
    StaleEdgesNotWellFormed(InvalidateSpec(s3, A1), A1);
  }

  /** Line 50 on the unlinked A1 of the Clear above: the old reference B1 is
      linked again, both ways, under the Empty content. */
  lemma ClearRecommitAsWritten()
    ensures var s3 := Relink(Relink(Install(A1ReadsB1, A1, Empty), A1, []), A1, [B1]);
      && Live(s3, A1) && Live(s3, B1) && s3[A1].value.content == Empty
      && s3[A1].value.reference == {B1} && s3[B1].value.depend == {A1}
  {
    ClearStagedAsWritten();
    var s2 := Relink(Install(A1ReadsB1, A1, Empty), A1, []);
    assert Members([B1]) == {B1};
    RelinkAt(s2, A1, [B1], A1);
    RelinkAt(s2, A1, [B1], B1);
  }
}
