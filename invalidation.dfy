/** What Cell::InvalidateCache / InvalidateCacheRecursive clear: the walk along
    `depend` that stops at every reader whose cache is already empty. */
module Invalidation {
  import opened Outcomes
  import opened Positions
  import opened Formulas
  import opened Cells
  import opened Graph

  /** After a walk from x (a: before, b: after): no reader of x holds a cache. */
  ghost predicate ClosedRoot(a: Arena, b: Arena, x: Position)
    requires Live(a, x)
  {
    forall d :: d in a[x].value.depend ==> !Cached(b, d)
  }

  /** After a walk: no reader of a cell the walk cleared holds a cache. */
  ghost predicate ClosedCleared(a: Arena, b: Arena) {
    forall q, d :: ClearedAt(a, b, q) && d in a[q].value.depend ==> !Cached(b, d)
  }

  /** After a walk from x: every cell it cleared reads x or reads a cell it cleared. */
  ghost predicate Supported(a: Arena, b: Arena, x: Position)
    requires Live(a, x)
  {
    forall q :: ClearedAt(a, b, q) ==>
      q in a[x].value.depend || exists q' :: ClearedAt(a, b, q') && q in a[q'].value.depend
  }

  /** InvalidateCache on the cell at p: reset p's own cache, then clear the
      cached dependents the walk reaches. */
  ghost function InvalidateSpec(s: Arena, p: Position): (r: Arena)
    ensures r.Keys == s.Keys
    ensures forall q :: Live(r, q) <==> Live(s, q)
    ensures forall q :: Cached(r, q) ==> Cached(s, q)
    ensures !Cached(r, p)
  {
    var s1 := ClearCaches(s, {p});
    ClearCaches(s1, CachedDependents(s1, p))
  }

  /** Appending a cached reader to a walk path. */
  lemma {:induction false} ExtendCachedPath(s: Arena, path: seq<Position>, q: Position)
    requires CachedDependPath(s, path) && CachedDependEdge(s, path[|path| - 1], q)
    ensures CachedDependPath(s, path + [q])
  {
    var longer := path + [q];
    forall i | 0 <= i < |longer| - 1
      ensures CachedDependEdge(s, longer[i], longer[i + 1])
    {
      if i < |path| - 1 {
        assert longer[i] == path[i] && longer[i + 1] == path[i + 1];
      } else {
        assert longer[i] == path[|path| - 1] && longer[i + 1] == q;
      }
    }
  }

  /** A reader of a live cell is live and reads it. */
  lemma ReaderReads(s: Arena, b: Position, a: Position)
    requires WellFormed(s) && Live(s, b) && a in s[b].value.depend
    ensures Live(s, a) && Edge(s, a, b)
  {
    assert Live(s, a);
    assert b in s[a].value.reference;
  }

  /** The rank strictly decreases from a reader to the cell it reads. */
  ghost predicate DependRanked(s: Arena, rank: map<Position, nat>) {
    forall x, y :: Live(s, y) && x in s[y].value.depend ==> x in rank && y in rank && rank[y] < rank[x]
  }

  lemma ReadersRankHigher(s: Arena, rank: map<Position, nat>)
    requires WellFormed(s) && Ranked(s, rank)
    ensures DependRanked(s, rank)
  {
    forall x, y | Live(s, y) && x in s[y].value.depend
      ensures x in rank && y in rank && rank[y] < rank[x]
    {
      ReaderReads(s, y, x);
    }
  }

  /** A cached reader of a cell reached from x through cached readers is
      reached too. */
  lemma {:induction false} CachedReachExtends(s: Arena, x: Position, q': Position, q: Position)
    requires exists path :: CachedDependPath(s, path) && |path| >= 2 && path[0] == x && path[|path| - 1] == q'
    requires CachedDependEdge(s, q', q)
    ensures exists path :: CachedDependPath(s, path) && |path| >= 2 && path[0] == x && path[|path| - 1] == q
  {
    var path :| CachedDependPath(s, path) && |path| >= 2 && path[0] == x && path[|path| - 1] == q';
    ExtendCachedPath(s, path, q);
    var longer := path + [q];
    assert longer[0] == x && longer[|longer| - 1] == q;
  }

  /** Invalidating a cell that holds no cache and none of whose readers holds
      one changes nothing: the walk has nowhere to go. */
  lemma InvalidateQuiet(s: Arena, p: Position)
    requires Live(s, p) && !Cached(s, p)
    requires forall d :: d in s[p].value.depend ==> !Cached(s, d)
    ensures InvalidateSpec(s, p) == s
  {
    var s1 := ClearCaches(s, {p});
    assert s1 == s by {
      assert Reset(s[p].value) == s[p].value;
      assert forall q :: q in s ==> s1[q] == s[q];
    }
    assert CachedDependents(s, p) == {} by {
      forall path | CachedDependPath(s, path) && |path| >= 2
        ensures path[0] != p
      {
        assert CachedDependEdge(s, path[0], path[1]);
      }
    }
    assert ClearCaches(s, {}) == s;
  }

  /** A cell the walk cleared is reached from x through cached readers. */
  lemma {:induction false} ClearedIsReachable(a: Arena, b: Arena, x: Position, rank: map<Position, nat>, q: Position)
    requires DependRanked(a, rank) && Live(a, x)
    requires Supported(a, b, x) && ClearedAt(a, b, q)
    ensures exists path :: CachedDependPath(a, path) && |path| >= 2 && path[0] == x && path[|path| - 1] == q
    decreases if q in rank then rank[q] else 0
  {
    if q in a[x].value.depend {
      assert CachedDependEdge(a, x, q);
      assert CachedDependPath(a, [x, q]);
    } else {
      var q' :| ClearedAt(a, b, q') && q in a[q'].value.depend;
      assert CachedDependEdge(a, q', q);
      assert rank[q'] < rank[q];
      ClearedIsReachable(a, b, x, rank, q');
      CachedReachExtends(a, x, q', q);
    }
  }

  /** A cell reached from x through cached readers was cleared by the walk. */
  lemma {:induction false} ReachableIsCleared(a: Arena, b: Arena, x: Position, path: seq<Position>)
    requires Live(a, x) && ClosedRoot(a, b, x) && ClosedCleared(a, b)
    requires CachedDependPath(a, path) && |path| >= 2 && path[0] == x
    ensures ClearedAt(a, b, path[|path| - 1])
    decreases |path|
  {
    var n := |path|;
    assert CachedDependEdge(a, path[n - 2], path[n - 1]);
    if n > 2 {
      var prefix := path[..n - 1];
      assert CachedDependPath(a, prefix) by {
        forall i | 0 <= i < |prefix| - 1
          ensures CachedDependEdge(a, prefix[i], prefix[i + 1])
        {
          assert prefix[i] == path[i] && prefix[i + 1] == path[i + 1];
        }
      }
      ReachableIsCleared(a, b, x, prefix);
    }
  }

  /** Whatever order the walk visits readers in, a walk satisfying the three
      closure properties clears exactly the cached dependents of x. */
  lemma WalkClearsCachedDependents(a: Arena, b: Arena, x: Position, rank: map<Position, nat>)
    requires WellFormed(a) && Ranked(a, rank) && Live(a, x)
    requires CachesOnly(a, b) && ClosedRoot(a, b, x) && ClosedCleared(a, b) && Supported(a, b, x)
    ensures Cleared(a, b) == CachedDependents(a, x)
    ensures b == ClearCaches(a, CachedDependents(a, x))
  {
    ClearedAreCachedDependents(a, b, x, rank);
    CachedDependentsAreCleared(a, b, x);
    CachesOnlyIsClearCaches(a, b);
  }

  /** The walk clears only cached dependents of x. */
  lemma ClearedAreCachedDependents(a: Arena, b: Arena, x: Position, rank: map<Position, nat>)
    requires WellFormed(a) && Ranked(a, rank) && Live(a, x)
    requires CachesOnly(a, b) && Supported(a, b, x)
    ensures Cleared(a, b) <= CachedDependents(a, x)
  {
    ReadersRankHigher(a, rank);
    forall q | q in Cleared(a, b)
      ensures q in CachedDependents(a, x)
    {
      ClearedIsReachable(a, b, x, rank, q);
    }
  }

  /** The walk clears every cached dependent of x. */
  lemma CachedDependentsAreCleared(a: Arena, b: Arena, x: Position)
    requires Live(a, x) && CachesOnly(a, b) && ClosedRoot(a, b, x) && ClosedCleared(a, b)
    ensures CachedDependents(a, x) <= Cleared(a, b)
  {
    forall q | q in CachedDependents(a, x)
      ensures q in Cleared(a, b)
    {
      var path :| CachedDependPath(a, path) && |path| >= 2 && path[0] == x && path[|path| - 1] == q;
      ReachableIsCleared(a, b, x, path);
    }
  }

  /** Invalidation touches caches only. */
  lemma InvalidateTouchesCachesOnly(s: Arena, p: Position)
    ensures CachesOnly(s, InvalidateSpec(s, p))
    ensures !Cached(InvalidateSpec(s, p), p)
  {
    var s1 := ClearCaches(s, {p});
    ClearCachesIsCachesOnly(s, {p});
    ClearCachesIsCachesOnly(s1, CachedDependents(s1, p));
    CachesOnlyTrans(s, s1, InvalidateSpec(s, p));
  }

  /** A cached direct reader of p is among p's cached dependents. */
  lemma DirectReaderWalked(s: Arena, p: Position, e: Position)
    ensures CachedDependEdge(s, p, e) ==> e in CachedDependents(s, p)
  {
    if CachedDependEdge(s, p, e) {
      assert CachedDependPath(s, [p, e]);
    }
  }

  /** A cached reader of one of p's cached dependents is one too. */
  lemma WalkExtends(s: Arena, p: Position, d: Position, e: Position)
    ensures d in CachedDependents(s, p) && CachedDependEdge(s, d, e) ==> e in CachedDependents(s, p)
  {
    if d in CachedDependents(s, p) && CachedDependEdge(s, d, e) {
      var path :| CachedDependPath(s, path) && |path| >= 2 && path[0] == p && path[|path| - 1] == d;
      ExtendCachedPath(s, path, e);
      var longer := path + [e];
      assert longer[0] == p && longer[|longer| - 1] == e;
    }
  }

  /** After invalidating p, no direct reader of p holds a cache. */
  lemma InvalidationClearsReaders(s: Arena, p: Position, d: Position)
    requires Live(s, p) && d in s[p].value.depend
    ensures !Cached(InvalidateSpec(s, p), d)
  {
    var s1 := ClearCaches(s, {p});
    ClearCachesIsCachesOnly(s, {p});
    CachesOnlyAt(s, s1, p);
    DirectReaderWalked(s1, p, d);
  }

  /** CacheClosed, except possibly for readers of p. */
  ghost predicate CacheClosedExcept(s: Arena, p: Position) {
    forall e, d :: Cached(s, e) && Edge(s, e, d) && d != p && Live(s, d) && s[d].value.content.FormulaCell? ==> Cached(s, d)
  }

  /** After invalidating p, a formula read by a cell that kept its cache kept
      its own cache too. */
  lemma InvalidationKeepsClosedAt(s: Arena, p: Position, e: Position, d: Position)
    requires WellFormed(s) && CacheClosedExcept(s, p)
    requires var r := InvalidateSpec(s, p);
      Cached(r, e) && Edge(r, e, d) && Live(r, d) && r[d].value.content.FormulaCell?
    ensures Cached(InvalidateSpec(s, p), d)
  {
    var s1 := ClearCaches(s, {p});
    InvalidationPreimage(s, p, e, d);
    if d != p {
      assert Cached(s, d);
    }
    DirectReaderWalked(s1, p, e);
    WalkExtends(s1, p, d, e);
  }

  /** The edge e reads d after invalidating p, seen before it. */
  lemma InvalidationPreimage(s: Arena, p: Position, e: Position, d: Position)
    requires WellFormed(s)
    requires var r := InvalidateSpec(s, p);
      Cached(r, e) && Edge(r, e, d) && Live(r, d) && r[d].value.content.FormulaCell?
    ensures var s1 := ClearCaches(s, {p});
      && Cached(s1, e) && e !in CachedDependents(s1, p)
      && Cached(s, e) && Edge(s, e, d) && Live(s, d) && s[d].value.content.FormulaCell?
      && Live(s1, d) && e in s1[d].value.depend
      && (Cached(s1, d) <==> Cached(s, d) && d != p)
      && (Cached(InvalidateSpec(s, p), d) <==> Cached(s1, d) && d !in CachedDependents(s1, p))
  {
    var s1 := ClearCaches(s, {p});
    var c := CachedDependents(s1, p);
    var r := ClearCaches(s1, c);
    ClearCachesIsCachesOnly(s, {p});
    ClearCachesIsCachesOnly(s1, c);
    CachesOnlyTrans(s, s1, r);
    CachesOnlyAt(s, r, e);
    CachesOnlyAt(s, r, d);
    CachesOnlyAt(s, s1, d);
    assert Edge(s, e, d);
    assert e in s[d].value.depend by {
      assert d in s[e].value.reference;
    }
  }


  /** The early stop loses nothing when every cached formula reads only cached
      formulas (readers of p aside): afterwards no direct reader of p holds a
      cache, and the property holds everywhere, so no transitive reader of p
      holds one either. */
  lemma InvalidationCoversCachedReaders(s: Arena, p: Position)
    requires WellFormed(s) && Live(s, p) && CacheClosedExcept(s, p)
    ensures CacheClosed(InvalidateSpec(s, p))
    ensures forall d :: d in s[p].value.depend ==> !Cached(InvalidateSpec(s, p), d)
    ensures forall e :: Cached(InvalidateSpec(s, p), e) ==> !Reaches(InvalidateSpec(s, p), e, p)
  {
    var r := InvalidateSpec(s, p);
    forall d | d in s[p].value.depend
      ensures !Cached(r, d)
    {
      InvalidationClearsReaders(s, p, d);
    }
    forall e, d | Cached(r, e) && Edge(r, e, d) && Live(r, d) && r[d].value.content.FormulaCell?
      ensures Cached(r, d)
    {
      InvalidationKeepsClosedAt(s, p, e, d);
    }
    InvalidateTouchesCachesOnly(s, p);
    CachesOnlyKeepsGraph(s, r);
    forall x | Edge(r, x, p)
      ensures !Cached(r, x)
    {
      assert x in s[p].value.depend by {
        assert p in s[x].value.reference;
      }
    }
    NoCachedReaches(r, p);
  }

  // ---------------------------------------------------------------------------
  // The walk, one reader at a time

  /** Resetting the cache of the cell at p by a map update is ClearCaches on {p}. */
  lemma ResetOne(s: Arena, p: Position)
    requires Live(s, p)
    ensures s[p := Some(Reset(s[p].value))] == ClearCaches(s, {p})
  {
    var u := s[p := Some(Reset(s[p].value))];
    var c := ClearCaches(s, {p});
    assert u.Keys == c.Keys;
  }

  /** Before the walk from x visits any reader, the three closure properties
      hold vacuously. */
  lemma WalkStart(a: Arena, x: Position)
    requires Live(a, x)
    ensures CachesOnly(a, a) && ClosedCleared(a, a) && Supported(a, a, x)
  {
  }

  /** A cache-only change clears caches, never fills one. */
  lemma CachedBefore(a: Arena, b: Arena, p: Position)
    requires CachesOnly(a, b)
    ensures Cached(b, p) ==> Cached(a, p)
  {
  }

  /** The walk from x clears the cached reader d (a: before the walk, b: before
      this reader, m: with d reset, c: after the walk from d): the caches
      cleared so far stay cleared, d's among them. */
  lemma WalkStepCaches(a: Arena, b: Arena, m: Arena, c: Arena, d: Position)
    requires CachesOnly(a, b) && Cached(b, d) && m == b[d := Some(Reset(b[d].value))] && CachesOnly(m, c)
    ensures CachesOnly(a, m) && CachesOnly(a, c)
    ensures !Cached(c, d) && forall p :: !Cached(b, p) ==> !Cached(c, p)
  {
    ResetShrinksCached(b, d);
    CachesOnlyTrans(a, b, m);
    CachesOnlyTrans(a, m, c);
    forall p | !Cached(b, p)
      ensures !Cached(c, p)
    {
      CachedBefore(m, c, p);
      CachedBefore(b, m, p);
    }
    CachedBefore(m, c, d);
  }

  /** ... and no reader of a cell cleared so far holds a cache. */
  lemma WalkStepClosed(a: Arena, b: Arena, m: Arena, c: Arena, d: Position)
    requires CachesOnly(a, b) && ClosedCleared(a, b)
    requires Cached(b, d) && m == b[d := Some(Reset(b[d].value))]
    requires CachesOnly(m, c) && Live(m, d) && ClosedRoot(m, c, d) && ClosedCleared(m, c)
    ensures ClosedCleared(a, c)
  {
    WalkStepCaches(a, b, m, c, d);
    forall q, e | ClearedAt(a, c, q) && e in a[q].value.depend
      ensures !Cached(c, e)
    {
      CachesOnlyAt(a, m, q);
      if ClearedAt(a, b, q) {
        assert !Cached(b, e);
      } else if q != d {
        assert ClearedAt(m, c, q);
      }
    }
  }

  /** ... and every cell cleared so far reads x or reads a cell cleared so far. */
  lemma WalkStepSupported(a: Arena, b: Arena, m: Arena, c: Arena, x: Position, d: Position)
    requires Live(a, x) && d in a[x].value.depend
    requires CachesOnly(a, b) && Supported(a, b, x)
    requires Cached(b, d) && m == b[d := Some(Reset(b[d].value))]
    requires CachesOnly(m, c) && Live(m, d) && Supported(m, c, d)
    ensures Supported(a, c, x)
  {
    WalkStepCaches(a, b, m, c, d);
    CachesOnlyAt(a, m, d);
    forall q | ClearedAt(a, c, q)
      ensures q in a[x].value.depend || exists q' :: ClearedAt(a, c, q') && q in a[q'].value.depend
    {
      if ClearedAt(a, b, q) {
        if q !in a[x].value.depend {
          var q' :| ClearedAt(a, b, q') && q in a[q'].value.depend;
          assert ClearedAt(a, c, q');
        }
      } else if q != d {
        assert ClearedAt(m, c, q);
        if q in m[d].value.depend {
          assert ClearedAt(a, c, d);
        } else {
          var q' :| ClearedAt(m, c, q') && q in m[q'].value.depend;
          CachesOnlyAt(a, m, q');
          assert ClearedAt(a, c, q');
        }
      }
    }
  }
}
