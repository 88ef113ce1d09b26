/** The dependency graph over the arena: read edges, reachability, the
    invariants the cells keep between them, and the cache-walk vocabulary. */
module Graph {
  import opened Outcomes
  import opened Positions
  import opened Formulas
  import opened Cells

  /** A position holding a cell (GetCell would return non-null). */
  predicate Live(s: Arena, p: Position) {
    p in s && s[p].Some?
  }

  /** x reads y: y is among the positions x's content references
      (what CheckCircularDepend follows through GetReferencedCells). */
  predicate Edge(s: Arena, x: Position, y: Position) {
    Live(s, x) && y in ReferencedCells(s[x].value.content)
  }

  /** A sequence of positions, each reading the next. */
  ghost predicate ReadsPath(s: Arena, path: seq<Position>) {
    |path| >= 1 && forall i :: 0 <= i < |path| - 1 ==> Edge(s, path[i], path[i + 1])
  }

  /** y is x itself or reachable from x along read edges. */
  ghost predicate Reaches(s: Arena, x: Position, y: Position) {
    exists path :: ReadsPath(s, path) && path[0] == x && path[|path| - 1] == y
  }

  /** Acyclicity, witnessed by a rank that strictly decreases along every read
      edge; every key has a rank. */
  ghost predicate Ranked(s: Arena, rank: map<Position, nat>) {
    && (forall p :: p in s ==> p in rank)
    && (forall x, y :: Edge(s, x, y) ==> y in rank && x in rank && rank[y] < rank[x])
  }

  /** The two edge sets mirror each other: every position a cell reads is a
      key, B in A.reference iff A in B.depend for live A and B, and every
      reader is live. */
  ghost predicate EdgesInverse(s: Arena) {
    && (forall a, b :: Live(s, a) && b in s[a].value.reference ==>
          b in s && (s[b].Some? ==> a in s[b].value.depend))
    && (forall a, b :: Live(s, b) && a in s[b].value.depend ==>
          Live(s, a) && b in s[a].value.reference)
  }

  /** The edge sets agree with the contents and with each other: every key
      is a valid position and a cell's `reference` is the set of positions
      its content reads. */
  ghost predicate WellFormed(s: Arena) {
    && (forall p :: p in s ==> IsValid(p))
    && (forall a :: Live(s, a) ==> s[a].value.reference == Members(ReferencedCells(s[a].value.content)))
    && EdgesInverse(s)
  }

  // ---------------------------------------------------------------------------
  // Reachability

  lemma ReachesSelf(s: Arena, x: Position)
    ensures Reaches(s, x, x)
  {
    assert ReadsPath(s, [x]);
  }

  /** Prepending a read edge to a path. */
  lemma {:induction false} ReachesStep(s: Arena, x: Position, y: Position, t: Position)
    requires Edge(s, x, y) && Reaches(s, y, t)
    ensures Reaches(s, x, t)
  {
    var path :| ReadsPath(s, path) && path[0] == y && path[|path| - 1] == t;
    var longer := [x] + path;
    forall i | 0 <= i < |longer| - 1
      ensures Edge(s, longer[i], longer[i + 1])
    {
      if i > 0 {
        assert longer[i] == path[i - 1] && longer[i + 1] == path[i];
      }
    }
    assert ReadsPath(s, longer) && longer[0] == x && longer[|longer| - 1] == t;
  }

  /** A cell other than the target reaches it only through a live cell and one
      of the positions that cell reads. */
  lemma {:induction false} ReachesInversion(s: Arena, x: Position, t: Position)
    requires Reaches(s, x, t) && x != t
    ensures Live(s, x)
    ensures exists i :: 0 <= i < |ReferencedCells(s[x].value.content)| &&
                        Reaches(s, ReferencedCells(s[x].value.content)[i], t)
  {
    var path :| ReadsPath(s, path) && path[0] == x && path[|path| - 1] == t;
    assert |path| >= 2;
    assert Edge(s, path[0], path[1]);
    var rest := path[1..];
    assert ReadsPath(s, rest) by {
      forall i | 0 <= i < |rest| - 1
        ensures Edge(s, rest[i], rest[i + 1])
      {
        assert rest[i] == path[i + 1] && rest[i + 1] == path[i + 2];
      }
    }
    var refs := ReferencedCells(s[x].value.content);
    var k :| 0 <= k < |refs| && refs[k] == path[1];
    assert Reaches(s, refs[k], t);
  }

  /** Reaching another cell is reaching it from one of the positions the
      (live) cell reads. */
  lemma ReachesVia(s: Arena, x: Position, t: Position)
    requires x != t
    ensures Reaches(s, x, t) <==>
      Live(s, x) && exists i :: 0 <= i < |ReferencedCells(s[x].value.content)| &&
                                Reaches(s, ReferencedCells(s[x].value.content)[i], t)
  {
    if Reaches(s, x, t) {
      ReachesInversion(s, x, t);
    }
    if Live(s, x) && exists i :: 0 <= i < |ReferencedCells(s[x].value.content)| &&
                                 Reaches(s, ReferencedCells(s[x].value.content)[i], t) {
      var refs := ReferencedCells(s[x].value.content);
      var i :| 0 <= i < |refs| && Reaches(s, refs[i], t);
      ReachesStep(s, x, refs[i], t);
    }
  }

  /** A position that is not live and not the target reaches nothing. */
  lemma DeadEndReachesOnlyItself(s: Arena, x: Position, t: Position)
    requires !Live(s, x) || ReferencedCells(s[x].value.content) == []
    ensures Reaches(s, x, t) <==> x == t
  {
    if x == t {
      ReachesSelf(s, x);
    } else if Reaches(s, x, t) {
      ReachesInversion(s, x, t);
    }
  }

  /** The rank strictly decreases along a path of two or more cells. */
  lemma {:induction false} RankAlongPath(s: Arena, rank: map<Position, nat>, path: seq<Position>)
    requires Ranked(s, rank) && ReadsPath(s, path) && |path| >= 2
    ensures path[0] in rank && path[|path| - 1] in rank
    ensures rank[path[|path| - 1]] < rank[path[0]]
    decreases |path|
  {
    assert Edge(s, path[0], path[1]);
    if |path| > 2 {
      var rest := path[1..];
      assert ReadsPath(s, rest) by {
        forall i | 0 <= i < |rest| - 1
          ensures Edge(s, rest[i], rest[i + 1])
        {
          assert rest[i] == path[i + 1] && rest[i + 1] == path[i + 2];
        }
      }
      RankAlongPath(s, rank, rest);
    }
  }

  /** A ranked graph has no cycle: no cell reaches itself through one or more
      read edges. */
  lemma NoCycle(s: Arena, rank: map<Position, nat>, path: seq<Position>)
    requires Ranked(s, rank) && ReadsPath(s, path) && |path| >= 2
    ensures path[0] != path[|path| - 1]
  {
    RankAlongPath(s, rank, path);
  }

  /** Some number exceeds every rank. */
  lemma {:induction false} RankBound(rank: map<Position, nat>) returns (k: nat)
    ensures forall x :: x in rank ==> rank[x] < k
    decreases |rank|
  {
    if |rank| == 0 {
      k := 0;
    } else {
      var x :| x in rank;
      var rest := rank - {x};
      assert |rest| < |rank| by {
        assert rest.Keys < rank.Keys;
      }
      var k0 := RankBound(rest);
      k := if rank[x] < k0 then k0 else rank[x] + 1;
      forall y | y in rank
        ensures rank[y] < k
      {
        if y != x {
          assert y in rest;
        }
      }
    }
  }

  // ---------------------------------------------------------------------------
  // Caches

  /** A live formula cell whose cache is present. */
  predicate Cached(s: Arena, p: Position) {
    Live(s, p) && GetCache(s[p].value.content).Some?
  }

  function Reset(n: Node): (r: Node)
    ensures r.reference == n.reference && r.depend == n.depend
    ensures GetCache(r.content) == None
    ensures ReferencedCells(r.content) == ReferencedCells(n.content)
    ensures GetText(r.content) == GetText(n.content)
  {
    n.(content := ResetCache(n.content))
  }

  /** The arena with the caches of the cells at `targets` cleared. */
  function ClearCaches(s: Arena, targets: set<Position>): (r: Arena)
    ensures r.Keys == s.Keys
    ensures forall p :: Live(r, p) <==> Live(s, p)
    ensures forall p :: Cached(r, p) <==> Cached(s, p) && p !in targets
  {
    map p | p in s :: if p in targets && s[p].Some? then Some(Reset(s[p].value)) else s[p]
  }

  /** b is a with some caches cleared and nothing else changed. */
  ghost predicate CachesOnly(a: Arena, b: Arena) {
    && a.Keys == b.Keys
    && (forall p :: p in a && a[p].None? ==> b[p] == a[p])
    && (forall p :: p in a && a[p].Some? ==> b[p] == a[p] || b[p] == Some(Reset(a[p].value)))
  }

  /** p held a cache in a and holds none in b. */
  ghost predicate ClearedAt(a: Arena, b: Arena, p: Position) {
    Cached(a, p) && !Cached(b, p)
  }

  ghost function Cleared(a: Arena, b: Arena): set<Position> {
    set p | p in a && ClearedAt(a, b, p)
  }

  ghost function CachedSet(s: Arena): set<Position> {
    set p | p in s && Cached(s, p)
  }

  /** y reads x and holds a cache: the step InvalidateCacheRecursive takes. */
  predicate CachedDependEdge(s: Arena, x: Position, y: Position) {
    Live(s, x) && y in s[x].value.depend && Cached(s, y)
  }

  ghost predicate CachedDependPath(s: Arena, path: seq<Position>) {
    |path| >= 1 && forall i :: 0 <= i < |path| - 1 ==> CachedDependEdge(s, path[i], path[i + 1])
  }

  /** The cells reachable from x through one or more `depend` edges, every cell
      after x holding a cache: what the early-stopping walk clears. */
  ghost function CachedDependents(s: Arena, x: Position): set<Position> {
    set q | q in s && exists path :: CachedDependPath(s, path) && |path| >= 2 && path[0] == x && path[|path| - 1] == q
  }

  /** Every cell whose cache is present reads only formula cells whose caches
      are present too (evaluating a formula evaluates, and caches, what it
      reads). */
  ghost predicate CacheClosed(s: Arena) {
    forall e, d :: Cached(s, e) && Edge(s, e, d) && Live(s, d) && s[d].value.content.FormulaCell? ==> Cached(s, d)
  }

  /** Along a read path from a cached cell, every cell that reads the next one
      holds a cache: it is a formula, and CacheClosed passes the cache on. */
  lemma {:induction false} CachedAlong(s: Arena, path: seq<Position>, i: nat)
    requires CacheClosed(s) && ReadsPath(s, path) && Cached(s, path[0]) && i < |path| - 1
    ensures Cached(s, path[i])
  {
    if i > 0 {
      CachedAlong(s, path, i - 1);
      assert Edge(s, path[i - 1], path[i]);
      assert Edge(s, path[i], path[i + 1]);
    }
  }

  /** Under CacheClosed, when neither p nor any cell reading p holds a cache,
      no cell holding a cache reaches p: no cached value can depend on p. */
  lemma NoCachedReaches(s: Arena, p: Position)
    requires CacheClosed(s) && !Cached(s, p)
    requires forall x :: Edge(s, x, p) ==> !Cached(s, x)
    ensures forall e :: Cached(s, e) ==> !Reaches(s, e, p)
  {
    forall e | Cached(s, e)
      ensures !Reaches(s, e, p)
    {
      if Reaches(s, e, p) {
        var path :| ReadsPath(s, path) && path[0] == e && path[|path| - 1] == p;
        if |path| == 1 {
          assert false;
        } else {
          CachedAlong(s, path, |path| - 2);
          assert false;
        }
      }
    }
  }

  // ---------------------------------------------------------------------------
  // Cache clearing changes nothing else

  lemma CachesOnlyKeepsGraph(a: Arena, b: Arena)
    requires CachesOnly(a, b)
    ensures forall p :: Live(b, p) <==> Live(a, p)
    ensures forall p :: Live(a, p) ==>
      b[p].value.reference == a[p].value.reference && b[p].value.depend == a[p].value.depend &&
      ReferencedCells(b[p].value.content) == ReferencedCells(a[p].value.content) &&
      GetText(b[p].value.content) == GetText(a[p].value.content)
    ensures forall x, y :: Edge(b, x, y) <==> Edge(a, x, y)
    ensures forall p :: Cached(b, p) ==> Cached(a, p)
  {
  }

  /** The node at p keeps its edges and its references under a cache-only change. */
  lemma CachesOnlyAt(a: Arena, b: Arena, p: Position)
    requires CachesOnly(a, b) && p in a
    ensures p in b && (Live(b, p) <==> Live(a, p))
    ensures Live(a, p) ==>
      b[p].value.reference == a[p].value.reference && b[p].value.depend == a[p].value.depend &&
      ReferencedCells(b[p].value.content) == ReferencedCells(a[p].value.content)
  {
  }

  lemma CachesOnlyKeepsWellFormed(a: Arena, b: Arena)
    requires CachesOnly(a, b) && WellFormed(a)
    ensures WellFormed(b)
  {
    forall x | Live(b, x)
      ensures b[x].value.reference == Members(ReferencedCells(b[x].value.content))
    {
      CachesOnlyAt(a, b, x);
    }
    forall x, y | Live(b, x) && y in b[x].value.reference
      ensures y in b && (b[y].Some? ==> x in b[y].value.depend)
    {
      CachesOnlyAt(a, b, x);
      assert y in a;
      CachesOnlyAt(a, b, y);
    }
    forall x, y | Live(b, y) && x in b[y].value.depend
      ensures Live(b, x) && y in b[x].value.reference
    {
      CachesOnlyAt(a, b, y);
      assert Live(a, x);
      CachesOnlyAt(a, b, x);
    }
  }

  lemma CachesOnlyKeepsRanked(a: Arena, b: Arena, rank: map<Position, nat>)
    requires CachesOnly(a, b) && Ranked(a, rank)
    ensures Ranked(b, rank)
  {
    CachesOnlyKeepsGraph(a, b);
  }

  lemma ClearCachesIsCachesOnly(s: Arena, targets: set<Position>)
    ensures CachesOnly(s, ClearCaches(s, targets))
  {
  }

  lemma {:induction false} CachesOnlyTrans(a: Arena, b: Arena, c: Arena)
    requires CachesOnly(a, b) && CachesOnly(b, c)
    ensures CachesOnly(a, c)
  {
    forall p | p in a && a[p].Some?
      ensures c[p] == a[p] || c[p] == Some(Reset(a[p].value))
    {
      if b[p] != a[p] {
        assert Reset(Reset(a[p].value)) == Reset(a[p].value);
      }
    }
  }

  /** A cache-only change is exactly the clearing of the caches it cleared. */
  lemma {:induction false} CachesOnlyIsClearCaches(a: Arena, b: Arena)
    requires CachesOnly(a, b)
    ensures b == ClearCaches(a, Cleared(a, b))
  {
    var c := ClearCaches(a, Cleared(a, b));
    forall p | p in a
      ensures b[p] == c[p]
    {
      if a[p].Some? {
        var n := a[p].value;
        if ClearedAt(a, b, p) {
          assert p in Cleared(a, b);
          assert b[p] != a[p];
        } else {
          assert p !in Cleared(a, b);
          if GetCache(n.content).None? {
            assert Reset(n) == n;
          } else {
            assert Cached(b, p);
            assert b[p] != Some(Reset(n));
          }
        }
      }
    }
    assert b.Keys == c.Keys;
  }

  lemma {:induction false} SubsetSize<T>(x: set<T>, y: set<T>)
    requires x <= y
    ensures |x| <= |y|
    ensures x < y ==> |x| < |y|
    decreases |x|
  {
    if x != {} {
      var e :| e in x;
      assert x - {e} <= y - {e};
      if x < y {
        var f :| f in y && f !in x;
        assert f in y - {e} && f !in x - {e};
      }
      SubsetSize(x - {e}, y - {e});
      assert |x| == |x - {e}| + 1 && |y| == |y - {e}| + 1;
    } else if x < y {
      var e :| e in y;
    }
  }

  /** Clearing one more cache shrinks the set of cached cells. */
  lemma {:induction false} ResetShrinksCached(s: Arena, d: Position)
    requires Cached(s, d)
    ensures CachesOnly(s, s[d := Some(Reset(s[d].value))])
    ensures |CachedSet(s[d := Some(Reset(s[d].value))])| < |CachedSet(s)|
  {
    var t := s[d := Some(Reset(s[d].value))];
    assert CachedSet(t) < CachedSet(s) by {
      assert d in CachedSet(s) && d !in CachedSet(t);
      forall p | p in CachedSet(t) ensures p in CachedSet(s) {
        assert p != d;
      }
    }
    SubsetSize(CachedSet(t), CachedSet(s));
  }

  lemma {:induction false} CachesOnlyCount(a: Arena, b: Arena)
    requires CachesOnly(a, b)
    ensures CachedSet(b) <= CachedSet(a)
    ensures |CachedSet(b)| <= |CachedSet(a)|
  {
    CachesOnlyKeepsGraph(a, b);
    assert CachedSet(b) <= CachedSet(a);
    SubsetSize(CachedSet(b), CachedSet(a));
  }
}
