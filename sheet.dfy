/** The Sheet container (the position-keyed map owning every cell) with the
    Cell operations that act on the cells it owns. */
module Sheets {
  import opened Outcomes
  import opened Positions
  import opened Formulas
  import opened Cells
  import opened Graph
  import opened Invalidation
  import opened Edges
  import opened Protocol

  /** Sheet::SetCell: reject an invalid position; create an empty cell when
      the key is absent (it stays even if Set then fails); a cleared entry is
      a null cell. */
  ghost function SetCellSpec(s: Arena, pos: Position, text: string, parse: Parser): (r: (Outcome, Arena))
    ensures r.0 == Fail(InvalidPosition) <==> !IsValid(pos)
    ensures !IsValid(pos) ==> r.1 == s
    ensures IsValid(pos) ==> pos in r.1 && s.Keys <= r.1.Keys
    ensures r.0.Pass? ==> Live(r.1, pos)
    ensures forall q :: q in s && s[q].None? ==> r.1[q].None?
  {
    if !IsValid(pos) then (Fail(InvalidPosition), s)
    else if pos in s && s[pos].None? then (Fail(NullCell), s)
    else
      var s0 := if pos in s then s else s[pos := Some(EmptyNode)];
      match CellSetSpec(s0, pos, text, parse)
      case Ok(s') => (Pass, s')
      case Err(e) => (Fail(e), s0)
  }

  /** Sheet::ClearCell: reject an invalid position; on a live cell, Clear it
      and reset the entry, keeping the key; otherwise do nothing. */
  ghost function ClearCellSpec(s: Arena, pos: Position): (r: (Outcome, Arena))
    ensures r.0 == Fail(InvalidPosition) <==> !IsValid(pos)
    ensures r.0.Fail? ==> r.1 == s
    ensures r.1.Keys == s.Keys
    ensures r.0.Pass? && pos in s ==> r.1[pos].None?
    ensures forall q :: q in s && s[q].None? ==> r.1[q].None?
  {
    if !IsValid(pos) then (Fail(InvalidPosition), s)
    else if Live(s, pos) then
      match CellSetSpec(s, pos, "", NoParse)
      case Ok(s') => (Pass, s'[pos := None])
      case Err(e) => (Fail(e), s)
    else (Pass, s)
  }

  /** FormulaImpl::GetValue's side effect: a formula without a cache stores its
      evaluation; other contents are left alone. */
  function Filled(c: Content, evaluate: Evaluator): (r: Content)
    ensures GetText(r) == GetText(c) && ReferencedCells(r) == ReferencedCells(c)
    ensures c.FormulaCell? ==> GetCache(r).Some?
    ensures GetCache(c).Some? || !c.FormulaCell? ==> r == c
  {
    if c.FormulaCell? && c.cache.None? then FormulaCell(c.formula, Some(evaluate(c.formula))) else c
  }

  /** Creating an empty cell at a fresh valid position keeps the invariants. */
  lemma AddEmptyKeepsValid(s: Arena, rank: map<Position, nat>, pos: Position)
    requires WellFormed(s) && Ranked(s, rank) && IsValid(pos) && pos !in s
    ensures WellFormed(s[pos := Some(EmptyNode)]) && Ranked(s[pos := Some(EmptyNode)], rank[pos := 0])
  {
    var r := s[pos := Some(EmptyNode)];
    assert Members([]) == {};
    forall x, y | Edge(r, x, y)
      ensures Edge(s, x, y)
    {
      assert x != pos;
    }
    forall x, y | Live(s, x) && y in s[x].value.reference
      ensures y != pos
    {
    }
  }

  /** Resetting the entry of a cell that reads nothing keeps the invariants;
      cells that read it keep references to the nulled entry. */
  lemma NullDetachedKeepsValid(s: Arena, rank: map<Position, nat>, pos: Position)
    requires WellFormed(s) && Ranked(s, rank) && Live(s, pos)
    requires ReferencedCells(s[pos].value.content) == []
    requires forall q :: Live(s, q) ==> pos !in s[q].value.depend
    ensures WellFormed(s[pos := None]) && Ranked(s[pos := None], rank)
  {
    var r := s[pos := None];
    forall x, y | Edge(r, x, y)
      ensures Edge(s, x, y)
    {
    }
  }

  /** A successful SetCell keeps the invariants. */
  lemma SetCellKeepsValid(s: Arena, rank: map<Position, nat>, pos: Position, text: string, parse: Parser)
    returns (rank': map<Position, nat>)
    requires WellFormed(s) && Ranked(s, rank)
    ensures WellFormed(SetCellSpec(s, pos, text, parse).1) && Ranked(SetCellSpec(s, pos, text, parse).1, rank')
  {
    rank' := rank;
    if IsValid(pos) && !(pos in s && s[pos].None?) {
      var s0 := s;
      if pos !in s {
        AddEmptyKeepsValid(s, rank, pos);
        s0, rank' := s[pos := Some(EmptyNode)], rank[pos := 0];
      }
      if CellSetSpec(s0, pos, text, parse).Ok? {
        rank' := SetKeepsValid(s0, rank', pos, text, parse);
      }
    }
  }

  /** A successful ClearCell keeps the invariants; the key stays, with a null
      entry. */
  lemma ClearCellKeepsValid(s: Arena, rank: map<Position, nat>, pos: Position)
    returns (rank': map<Position, nat>)
    requires WellFormed(s) && Ranked(s, rank)
    ensures WellFormed(ClearCellSpec(s, pos).1) && Ranked(ClearCellSpec(s, pos).1, rank')
    ensures ClearCellSpec(s, pos).0 == Pass && Live(s, pos) ==>
      pos in ClearCellSpec(s, pos).1 && ClearCellSpec(s, pos).1[pos].None?
  {
    rank' := rank;
    if IsValid(pos) && Live(s, pos) && CellSetSpec(s, pos, "", NoParse).Ok? {
      var s' := CellSetSpec(s, pos, "", NoParse).value;
      rank' := SetKeepsValid(s, rank, pos, "", NoParse);
      ClearDropsEdges(s, pos, NoParse);
      NullDetachedKeepsValid(s', rank', pos);
    }
  }

  /** SetCell on a position cleared before dereferences the reset pointer:
      the model reports a null cell and changes nothing. */
  lemma SetAfterClearFails(s: Arena, pos: Position, text: string, parse: Parser)
    requires Live(s, pos) && ClearCellSpec(s, pos).0 == Pass
    ensures var cleared := ClearCellSpec(s, pos).1;
      SetCellSpec(cleared, pos, text, parse) == (Fail(NullCell), cleared)
  {
    assert IsValid(pos);
  }

  class Sheet {
    /** `sheet_`: every key ever written or auto-created; None once cleared. */
    var cells: Arena
    /** A rank witnessing that no cell reaches itself. */
    ghost var rank: map<Position, nat>

    ghost predicate Valid()
      reads this
    {
      WellFormed(cells) && Ranked(cells, rank)
    }

    constructor ()
      ensures Valid() && cells == map[]
    {
      cells := map[];
      rank := map[];
    }

    /** Sheet::GetCell (both overloads): InvalidPosition for an invalid
        position, null for a position never stored or cleared, the stored
        cell otherwise. */
    function GetCell(pos: Position): (r: Result<Option<Node>>)
      reads this
      ensures r.Err? <==> !IsValid(pos)
      ensures r.Err? ==> r.error == InvalidPosition
      ensures r.Ok? ==> (r.value.Some? <==> Live(cells, pos))
      ensures r.Ok? && r.value.Some? ==> r.value.value == cells[pos].value
    {
      if !IsValid(pos) then Err(InvalidPosition)
      else if pos !in cells then Ok(None)
      else Ok(cells[pos])
    }

    /** Cell::CheckCircularDepend: depth-first search from `refs` along the
        positions the existing cells read, skipping null cells and cells in
        `visited`; it finds the cell at target exactly when target is
        reachable. `visited` holds cells known not to reach target. */
    method CheckCircularDepend(target: Position, refs: seq<Position>, visited: set<Position>, ghost bound: nat)
      returns (found: bool, seen: set<Position>)
      requires Valid() && Live(cells, target)
      requires forall v :: v in visited ==> !Reaches(cells, v, target)
      requires forall i :: 0 <= i < |refs| && refs[i] in rank ==> rank[refs[i]] < bound
      ensures found <==> Cyclic(cells, target, refs)
      ensures !found ==> visited <= seen && forall v :: v in seen ==> !Reaches(cells, v, target)
      decreases bound
    {
      seen := visited;
      var i := 0;
      while i < |refs|
        invariant 0 <= i <= |refs|
        invariant visited <= seen
        invariant forall v :: v in seen ==> !Reaches(cells, v, target)
        invariant forall j :: 0 <= j < i ==> !Reaches(cells, refs[j], target)
      {
        var c := refs[i];
        if c == target {
          ReachesSelf(cells, target);
          return true, seen;
        }
        ReachesVia(cells, c, target);
        if Live(cells, c) && c !in seen {
          var another := ReferencedCells(cells[c].value.content);
          if another != [] {
            forall j | 0 <= j < |another|
              ensures another[j] in rank && rank[another[j]] < rank[c]
            {
              assert Edge(cells, c, another[j]);
            }
            var f, seen' := CheckCircularDepend(target, another, seen, rank[c]);
            if f {
              return true, seen';
            }
            seen := seen';
          }
          seen := seen + {c};
        }
        i := i + 1;
      }
      return false, seen;
    }

    /** Cell::CheckDependency: CircularDependency when the new references
        lead back to the cell at target; nothing changes either way. */
    method CheckDependency(target: Position, refs: seq<Position>) returns (r: Outcome)
      requires Valid() && Live(cells, target)
      ensures r == (if Cyclic(cells, target, refs) then Fail(CircularDependency) else Pass)
    {
      ghost var k := RankBound(rank);
      var found, _ := CheckCircularDepend(target, refs, {}, k);
      r := if found then Fail(CircularDependency) else Pass;
    }

    /** The first half of UpdateDependencies: the cell at a leaves the
        `depend_` of every cell it read, then its `reference_` is cleared. */
    method DetachReads(a: Position)
      requires Live(cells, a) && forall q :: q in cells[a].value.reference ==> Live(cells, q)
      modifies this
      ensures cells == Linked(old(cells), a, old(cells)[a].value.reference, {}) && rank == old(rank)
    {
      ghost var s := cells;
      var olds := cells[a].value.reference;
      var todo := olds;
      while todo != {}
        invariant todo <= olds && cells == Unlinked(s, a, olds - todo)
        invariant rank == old(rank)
        decreases todo
      {
        var q :| q in todo;
        UnlinkStep(s, a, olds - todo, q);
        cells := cells[q := Some(cells[q].value.(depend := cells[q].value.depend - {a}))];
        assert (olds - todo) + {q} == olds - (todo - {q});
        todo := todo - {q};
      }
      UnlinkedCleared(s, a, olds);
      cells := cells[a := Some(cells[a].value.(reference := {}))];
    }

    /** Cell::UpdateDependencies(newRefs) on the cell at a; the null
        dereferences the source would perform are reported up front. */
    method UpdateDependencies(a: Position, newRefs: seq<Position>) returns (r: Outcome)
      requires Live(cells, a)
      modifies this
      ensures r == (if HitsNullCell(old(cells), a, newRefs) then Fail(NullCell) else Pass)
      ensures r == Pass ==> cells == Relink(old(cells), a, newRefs)
      ensures r == Pass && EdgesInverse(old(cells)) ==>
        && EdgesInverse(cells) && cells[a].value.reference == Members(newRefs)
        && forall i :: 0 <= i < |newRefs| ==> Live(cells, newRefs[i]) && a in cells[newRefs[i]].value.depend
      ensures r != Pass ==> cells == old(cells)
      ensures rank == old(rank)
    {
      if HitsNullCell(cells, a, newRefs) {
        return Fail(NullCell);
      }
      ghost var s := cells;
      var olds := cells[a].value.reference;
      DetachReads(a);
      assert Members(newRefs[..0]) == {};
      for i := 0 to |newRefs|
        invariant cells == Linked(s, a, olds, Members(newRefs[..i]))
        invariant rank == old(rank)
      {
        var q := newRefs[i];
        LinkStep(s, a, olds, Members(newRefs[..i]), q);
        if q !in cells {
          cells := cells[q := Some(EmptyNode)];
        }
        cells := cells[a := Some(cells[a].value.(reference := cells[a].value.reference + {q}))];
        cells := cells[q := Some(cells[q].value.(depend := cells[q].value.depend + {a}))];
        assert Members(newRefs[..i + 1]) == Members(newRefs[..i]) + {q} by {
          assert newRefs[..i + 1] == newRefs[..i] + [q];
        }
      }
      assert newRefs[..|newRefs|] == newRefs;
      if EdgesInverse(s) {
        RelinkKeepsInverse(s, a, newRefs);
      }
      r := Pass;
    }

    /** Cell::InvalidateCacheRecursive from the cell at x: every reader of x
        whose cache is present has it reset and is walked from in turn;
        readers without a cache are not descended into. */
    method InvalidateCacheRecursive(x: Position)
      requires Live(cells, x)
      modifies this
      ensures CachesOnly(old(cells), cells) && rank == old(rank)
      ensures ClosedRoot(old(cells), cells, x) && ClosedCleared(old(cells), cells) && Supported(old(cells), cells, x)
      decreases |CachedSet(cells)|
    {
      ghost var a := cells;
      WalkStart(a, x);
      var todo := cells[x].value.depend;
      while todo != {}
        invariant todo <= a[x].value.depend
        invariant CachesOnly(a, cells) && ClosedCleared(a, cells) && Supported(a, cells, x)
        invariant forall d :: d in a[x].value.depend && d !in todo ==> !Cached(cells, d)
        invariant rank == old(rank)
        decreases todo
      {
        var d :| d in todo;
        if Cached(cells, d) {
          ghost var b := cells;
          cells := cells[d := Some(Reset(cells[d].value))];
          ghost var m := cells;
          ResetShrinksCached(b, d);
          CachesOnlyCount(a, b);
          InvalidateCacheRecursive(d);
          WalkStepCaches(a, b, m, cells, d);
          WalkStepClosed(a, b, m, cells, d);
          WalkStepSupported(a, b, m, cells, x, d);
        }
        todo := todo - {d};
      }
    }

    /** Cell::InvalidateCache on the cell at p: reset its own cache, then walk
        its readers. */
    method InvalidateCache(p: Position)
      requires Valid() && Live(cells, p)
      modifies this
      ensures Valid() && cells == InvalidateSpec(old(cells), p) && rank == old(rank)
    {
      ResetOne(cells, p);
      ClearCachesIsCachesOnly(cells, {p});
      CachesOnlyKeepsWellFormed(cells, ClearCaches(cells, {p}));
      CachesOnlyKeepsRanked(cells, ClearCaches(cells, {p}), rank);
      cells := cells[p := Some(Reset(cells[p].value))];
      ghost var s1 := cells;
      InvalidateCacheRecursive(p);
      WalkClearsCachedDependents(s1, cells, p, rank);
      CachesOnlyKeepsWellFormed(s1, cells);
      CachesOnlyKeepsRanked(s1, cells, rank);
    }

    /** Cell::Set(text) on the cell at pos, with the edges committed from the
        new content (see SetAsWritten for the source's final re-commit). */
    method CellSet(pos: Position, text: string, parse: Parser) returns (r: Outcome)
      requires Valid() && Live(cells, pos)
      modifies this
      ensures Valid()
      ensures GetText(old(cells)[pos].value.content) == text ==> r == Pass && cells == old(cells)
      ensures CellSetSpec(old(cells), pos, text, parse).Ok? ==>
        r == Pass && cells == CellSetSpec(old(cells), pos, text, parse).value
      ensures CellSetSpec(old(cells), pos, text, parse).Err? ==>
        r == Fail(CellSetSpec(old(cells), pos, text, parse).error) && cells == old(cells)
    {
      if GetText(cells[pos].value.content) == text {
        return Pass;
      }
      var classified := Classify(text, parse);
      if classified.Err? {
        return Fail(classified.error);
      }
      var c := classified.value;
      var refs := ReferencedCells(c);
      var check := CheckDependency(pos, refs);
      if check.Fail? {
        return check;
      }
      ghost var s := cells;
      var linked := UpdateDependencies(pos, refs);
      if linked.Fail? {
        return linked;
      }
      cells := cells[pos := Some(cells[pos].value.(content := c))];
      assert cells == Commit(s, pos, c);
      CommitWellFormed(s, pos, c);
      ghost var k := RankBound(rank);
      CommitRanked(s, rank, pos, c, k);
      rank := Rerank(s, cells, rank, pos, k);
      InvalidateCache(pos);
      r := Pass;
    }

    /** Cell::Clear: Set(""). */
    method CellClear(pos: Position) returns (r: Outcome)
      requires Valid() && Live(cells, pos)
      modifies this
      ensures Valid()
      ensures CellSetSpec(old(cells), pos, "", NoParse).Ok? ==>
        r == Pass && cells == CellSetSpec(old(cells), pos, "", NoParse).value
      ensures CellSetSpec(old(cells), pos, "", NoParse).Err? ==>
        r == Fail(CellSetSpec(old(cells), pos, "", NoParse).error) && cells == old(cells)
    {
      r := CellSet(pos, "", NoParse);
    }

    /** Cell::GetValue: the value of the content; a formula is evaluated and,
        when it had no cache, keeps the evaluation as its cache. */
    method CellGetValue(pos: Position, evaluate: Evaluator) returns (v: CellValue)
      requires Valid() && Live(cells, pos)
      modifies this
      ensures Valid() && rank == old(rank)
      ensures v == GetValue(old(cells)[pos].value.content, evaluate)
      ensures cells == Install(old(cells), pos, Filled(old(cells)[pos].value.content, evaluate))
    {
      var c := cells[pos].value.content;
      InstallSameReads(cells, rank, pos, Filled(c, evaluate));
      if c.FormulaCell? && c.cache.None? {
        cells := cells[pos := Some(cells[pos].value.(content := FormulaCell(c.formula, Some(evaluate(c.formula)))))];
      }
      v := GetValue(c, evaluate);
    }

    /** Sheet::SetCell. */
    method SetCell(pos: Position, text: string, parse: Parser) returns (r: Outcome)
      requires Valid()
      modifies this
      ensures Valid()
      ensures (r, cells) == SetCellSpec(old(cells), pos, text, parse)
    {
      if !IsValid(pos) {
        return Fail(InvalidPosition);
      }
      if pos !in cells {
        AddEmptyKeepsValid(cells, rank, pos);
        cells := cells[pos := Some(EmptyNode)];
        rank := rank[pos := 0];
      } else if cells[pos].None? {
        return Fail(NullCell);
      }
      r := CellSet(pos, text, parse);
    }

    /** Sheet::ClearCell. */
    method ClearCell(pos: Position) returns (r: Outcome)
      requires Valid()
      modifies this
      ensures Valid()
      ensures (r, cells) == ClearCellSpec(old(cells), pos)
    {
      if !IsValid(pos) {
        return Fail(InvalidPosition);
      }
      if pos in cells && cells[pos].Some? {
        ghost var s := cells;
        r := CellClear(pos);
        if r.Fail? {
          return;
        }
        ClearDropsEdges(s, pos, NoParse);
        NullDetachedKeepsValid(cells, rank, pos);
        cells := cells[pos := None];
      } else {
        r := Pass;
      }
    }

    /** Sheet::GetPrintableSize: the smallest box holding every live cell. */
    method GetPrintableSize() returns (rows: nat, cols: nat)
      requires Valid()
      ensures forall p :: Live(cells, p) ==> p.row < rows && p.col < cols
      ensures rows == 0 <==> cols == 0
      ensures rows == 0 <==> forall p :: !Live(cells, p)
      ensures rows > 0 ==> exists p :: Live(cells, p) && p.row + 1 == rows
      ensures cols > 0 ==> exists p :: Live(cells, p) && p.col + 1 == cols
    {
      rows, cols := 0, 0;
      var todo := cells.Keys;
      while todo != {}
        invariant todo <= cells.Keys
        invariant forall p :: Live(cells, p) && p !in todo ==> p.row < rows && p.col < cols
        invariant rows == 0 <==> cols == 0
        invariant rows == 0 <==> forall p :: Live(cells, p) ==> p in todo
        invariant rows > 0 ==> exists p :: Live(cells, p) && p.row + 1 == rows
        invariant cols > 0 ==> exists p :: Live(cells, p) && p.col + 1 == cols
        decreases todo
      {
        var p :| p in todo;
        if cells[p].Some? {
          if p.col + 1 > cols {
            cols := p.col + 1;
          }
          if p.row + 1 > rows {
            rows := p.row + 1;
          }
        }
        todo := todo - {p};
      }
    }
  }
}
