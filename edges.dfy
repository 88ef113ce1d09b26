/** Cell::UpdateDependencies and the swap of `impl_`: rewriting the edges of
    one cell, auto-creating the cells it starts to read. */
module Edges {
  import opened Outcomes
  import opened Positions
  import opened Formulas
  import opened Cells
  import opened Graph

  /** The rewrite would dereference a null entry: a position the cell read
      before has been cleared (erasing from its `depend_`), or a position it is
      to read holds a cleared entry (SetCell on a reset pointer). */
  predicate HitsNullCell(s: Arena, a: Position, refs: seq<Position>)
    requires Live(s, a)
  {
    || (exists q :: q in s[a].value.reference && !Live(s, q))
    || (exists i :: 0 <= i < |refs| && refs[i] in s && s[refs[i]].None?)
  }

  /** UpdateDependencies(refs) on the cell at a: a leaves the `depend` set of
      every cell it read, its `reference` becomes the positions in refs, a
      joins their `depend` sets, and a position without a key is first created
      as an empty cell. */
  function Relink(s: Arena, a: Position, refs: seq<Position>): (r: Arena)
    requires Live(s, a)
    ensures r.Keys == s.Keys + Members(refs)
    ensures Live(r, a) && r[a].value.reference == Members(refs)
    ensures forall p :: p in s && s[p].None? ==> r[p] == s[p]
  {
    Linked(s, a, s[a].value.reference, Members(refs))
  }

  /** The arena once a has left the `depend` sets of `olds` and joined those
      of `news`, with `reference` of a equal to news. */
  function Linked(s: Arena, a: Position, olds: set<Position>, news: set<Position>): Arena {
    map p | p in s.Keys + news ::
      if p in s && s[p].None? then s[p]
      else
        var n := if p in s then s[p].value else EmptyNode;
        Some(Node(n.content,
                  if p == a then news else n.reference,
                  if p in news then n.depend + {a} else if p in olds then n.depend - {a} else n.depend))
  }

  /** The arena part-way through the first loop of UpdateDependencies: a has
      left the `depend` sets of the cells in `erased`. */
  function Unlinked(s: Arena, a: Position, erased: set<Position>): Arena {
    map p | p in s :: if p in erased && s[p].Some? then Some(s[p].value.(depend := s[p].value.depend - {a})) else s[p]
  }

  /** One step of the erase loop. */
  lemma UnlinkStep(s: Arena, a: Position, erased: set<Position>, q: Position)
    requires Live(s, q)
    ensures var u := Unlinked(s, a, erased);
      Live(u, q) && u[q := Some(u[q].value.(depend := u[q].value.depend - {a}))] == Unlinked(s, a, erased + {q})
  {
    var u := Unlinked(s, a, erased);
    var u' := u[q := Some(u[q].value.(depend := u[q].value.depend - {a}))];
    var w := Unlinked(s, a, erased + {q});
    assert u'.Keys == w.Keys;
    forall p | p in w
      ensures u'[p] == w[p]
    {
      if p == q {
        assert u[q].value.depend - {a} == s[q].value.depend - {a};
      }
    }
  }

  /** `reference_.clear()` after the erase loop. */
  lemma UnlinkedCleared(s: Arena, a: Position, olds: set<Position>)
    requires Live(s, a)
    ensures var u := Unlinked(s, a, olds);
      Live(u, a) && u[a := Some(u[a].value.(reference := {}))] == Linked(s, a, olds, {})
  {
    var u := Unlinked(s, a, olds);
    var u' := u[a := Some(u[a].value.(reference := {}))];
    var w := Linked(s, a, olds, {});
    assert u'.Keys == w.Keys;
    forall p | p in w
      ensures u'[p] == w[p]
    {
    }
  }

  /** One step of the link loop: create the cell at q if there is none, add q
      to `reference` of a and a to `depend` of q. */
  lemma LinkStep(s: Arena, a: Position, olds: set<Position>, news: set<Position>, q: Position)
    requires Live(s, a) && !(q in s && s[q].None?)
    ensures var l := Linked(s, a, olds, news);
      var l1 := if q !in l then l[q := Some(EmptyNode)] else l;
      && Live(l1, a) && Live(l1, q)
      && var l2 := l1[a := Some(l1[a].value.(reference := l1[a].value.reference + {q}))];
      && Live(l2, q)
      && l2[q := Some(l2[q].value.(depend := l2[q].value.depend + {a}))] == Linked(s, a, olds, news + {q})
  {
    var l := Linked(s, a, olds, news);
    var l1 := if q !in l then l[q := Some(EmptyNode)] else l;
    var l2 := l1[a := Some(l1[a].value.(reference := l1[a].value.reference + {q}))];
    var l3 := l2[q := Some(l2[q].value.(depend := l2[q].value.depend + {a}))];
    var w := Linked(s, a, olds, news + {q});
    assert l3.Keys == w.Keys;
    forall p | p in w
      ensures l3[p] == w[p]
    {
      if p == q {
        var n := if q in s then s[q].value else EmptyNode;
        assert (n.depend - {a}) + {a} == n.depend + {a};
        assert (n.depend + {a}) + {a} == n.depend + {a};
      }
    }
  }

  /** Swapping in a content that reads the same positions (as filling a
      formula's cache does) keeps the edge invariant and any rank. */
  lemma InstallSameReads(s: Arena, rank: map<Position, nat>, a: Position, c: Content)
    requires Live(s, a) && ReferencedCells(c) == ReferencedCells(s[a].value.content)
    ensures WellFormed(s) ==> WellFormed(Install(s, a, c))
    ensures Ranked(s, rank) ==> Ranked(Install(s, a, c), rank)
  {
    var r := Install(s, a, c);
    assert forall x, y :: Edge(r, x, y) <==> Edge(s, x, y);
  }

  /** Swapping a content in leaves both edge sets of every cell alone. */
  lemma InstallKeepsInverse(s: Arena, a: Position, c: Content)
    requires Live(s, a)
    ensures EdgesInverse(s) ==> EdgesInverse(Install(s, a, c))
  {
    var r := Install(s, a, c);
    assert forall p :: Live(r, p) <==> Live(s, p);
    assert forall p :: Live(s, p) ==> r[p].value.reference == s[p].value.reference && r[p].value.depend == s[p].value.depend;
  }

  /** `impl_ = ...`: the content of the cell at a replaced, its edges kept. */
  function Install(s: Arena, a: Position, c: Content): Arena
    requires Live(s, a)
  {
    s[a := Some(s[a].value.(content := c))]
  }

  /** The intended commit of a new content: rewrite the edges to the
      positions the content reads, then swap it in. */
  function Commit(s: Arena, a: Position, c: Content): Arena
    requires Live(s, a)
  {
    Install(Relink(s, a, ReferencedCells(c)), a, c)
  }

  /** What the edge rewrite does to the node at each position. */
  lemma RelinkAt(s: Arena, a: Position, refs: seq<Position>, p: Position)
    requires Live(s, a)
    ensures var r := Relink(s, a, refs);
      && (p in r <==> p in s || p in refs)
      && (p in s && s[p].None? ==> r[p] == s[p])
      && (p !in s && p in refs ==> r[p] == Some(Node(Empty, {}, {a})))
      && (Live(s, p) ==> Live(r, p) && r[p].value.content == s[p].value.content)
      && (Live(s, p) && p != a ==> r[p].value.reference == s[p].value.reference)
      && (Live(r, p) && p in refs ==> a in r[p].value.depend)
      && (Live(r, p) && p !in refs ==> a !in r[p].value.depend || p !in s[a].value.reference)
      && (Live(s, p) && p != a ==> r[p].value.depend - {a} == s[p].value.depend - {a})
      && r[a].value.reference == Members(refs)
  {
    if p !in s && p in refs {
      assert p in Members(refs) && p != a;
      assert EmptyNode.depend + {a} == {a};
    }
  }

  /** UpdateDependencies keeps the two edge sets mirroring each other; the
      cell's `reference` becomes the set of positions in refs, each of which
      holds a cell listing it as a reader, and no cell is dropped or nulled. */
  lemma RelinkKeepsInverse(s: Arena, a: Position, refs: seq<Position>)
    requires Live(s, a) && EdgesInverse(s) && !HitsNullCell(s, a, refs)
    ensures var r := Relink(s, a, refs);
      && EdgesInverse(r)
      && Live(r, a) && r[a].value.reference == Members(refs)
      && (forall i :: 0 <= i < |refs| ==> Live(r, refs[i]) && a in r[refs[i]].value.depend)
      && (forall p :: Live(s, p) ==> Live(r, p))
  {
    RelinkForward(s, a, refs);
    RelinkBackward(s, a, refs);
    var r := Relink(s, a, refs);
    forall i | 0 <= i < |refs|
      ensures Live(r, refs[i]) && a in r[refs[i]].value.depend
    {
      RelinkAt(s, a, refs, refs[i]);
    }
    forall p | Live(s, p)
      ensures Live(r, p)
    {
      RelinkAt(s, a, refs, p);
    }
    RelinkAt(s, a, refs, a);
  }

  /** After the rewrite, every cell a live cell reads lists it as a reader. */
  lemma RelinkForward(s: Arena, a: Position, refs: seq<Position>)
    requires Live(s, a) && EdgesInverse(s)
    ensures var r := Relink(s, a, refs);
      forall x, y :: Live(r, x) && y in r[x].value.reference ==> y in r && (r[y].Some? ==> x in r[y].value.depend)
  {
    var r := Relink(s, a, refs);
    forall x, y | Live(r, x) && y in r[x].value.reference
      ensures y in r && (r[y].Some? ==> x in r[y].value.depend)
    {
      RelinkAt(s, a, refs, x);
      RelinkAt(s, a, refs, y);
      if x != a {
        assert y in s;
      }
    }
  }

  /** After the rewrite, every reader of a live cell is live and reads it. */
  lemma RelinkBackward(s: Arena, a: Position, refs: seq<Position>)
    requires Live(s, a) && EdgesInverse(s)
    ensures var r := Relink(s, a, refs);
      forall x, y :: Live(r, y) && x in r[y].value.depend ==> Live(r, x) && y in r[x].value.reference
  {
    var r := Relink(s, a, refs);
    forall x, y | Live(r, y) && x in r[y].value.depend
      ensures Live(r, x) && y in r[x].value.reference
    {
      RelinkAt(s, a, refs, x);
      RelinkAt(s, a, refs, y);
      if y in s && x != a {
        assert x in s[y].value.depend;
      }
    }
  }

  /** Re-linking a cell to the positions it already reads changes nothing. */
  lemma RelinkSameIsIdentity(s: Arena, a: Position, refs: seq<Position>)
    requires WellFormed(s) && Live(s, a) && s[a].value.reference == Members(refs)
    ensures Relink(s, a, refs) == s
  {
    var r := Relink(s, a, refs);
    forall p | p in Members(refs)
      ensures p in s && (s[p].Some? ==> a in s[p].value.depend)
    {
      assert p in s[a].value.reference;
    }
    assert r.Keys == s.Keys;
    forall p | p in s
      ensures r[p] == s[p]
    {
      if Live(s, p) && p in Members(refs) {
        assert s[p].value.depend + {a} == s[p].value.depend;
      }
    }
  }

  /** Committing the content a well-formed cell already holds changes nothing. */
  lemma CommitSameIsIdentity(s: Arena, a: Position, c: Content)
    requires WellFormed(s) && Live(s, a) && s[a].value.content == c
    ensures Commit(s, a, c) == s
  {
    RelinkSameIsIdentity(s, a, ReferencedCells(c));
    assert s[a].value.(content := c) == s[a].value;
  }

  /** The read edges after a commit: those of the committed cell are its new
      content's, every other cell reads what it read before (a created cell
      reads nothing). */
  lemma CommitEdges(s: Arena, a: Position, c: Content)
    requires Live(s, a)
    ensures forall x, y :: Edge(Commit(s, a, c), x, y) <==>
      (x == a && y in ReferencedCells(c)) || (x != a && Edge(s, x, y))
  {
    var r := Commit(s, a, c);
    forall x, y
      ensures Edge(r, x, y) <==> (x == a && y in ReferencedCells(c)) || (x != a && Edge(s, x, y))
    {
      RelinkAt(s, a, ReferencedCells(c), x);
    }
  }

  /** A commit keeps the edge sets consistent with the contents and with each
      other (the inverse-edge invariant UpdateDependencies maintains), and
      every position the content reads holds a cell afterwards. */
  lemma CommitWellFormed(s: Arena, a: Position, c: Content)
    requires WellFormed(s) && Live(s, a) && !HitsNullCell(s, a, ReferencedCells(c))
    ensures WellFormed(Commit(s, a, c))
    ensures forall i :: 0 <= i < |ReferencedCells(c)| ==> Live(Commit(s, a, c), ReferencedCells(c)[i])
  {
    var refs := ReferencedCells(c);
    var rl := Relink(s, a, refs);
    var r := Commit(s, a, c);
    RelinkKeepsInverse(s, a, refs);
    InstallKeepsInverse(rl, a, c);
    forall p | p in r
      ensures IsValid(p)
    {
      RelinkAt(s, a, refs, p);
    }
    forall x | Live(r, x)
      ensures r[x].value.reference == Members(ReferencedCells(r[x].value.content))
    {
      RelinkAt(s, a, refs, x);
    }
  }

}
