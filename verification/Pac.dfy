/** The page allocator of one arena: jemalloc/src/extent.c over the extent sets of its
    dirty, muzzy and retained caches.  Splitting hooks and metadata allocation succeed;
    the merging hook may fail unless reliableMerge is set, as it is for memkind's hooks.
    The dirty cache delays coalescing; the other two do not. */
module PageAllocator {
  import opened Arith
  import opened ExtentSet
  import opened Options
  import opened ExtentSpace
  import opened ExtentCache

  /** Extents of at least this many pages are coalesced eagerly even in the dirty cache. */
  const LARGE_MINCLASS_PAGES: nat := 4

  /** Where a freed extent ends up: cached, or given back to the system with the
      pages it had absorbed. */
  datatype Fate = Kept(state: State, base: int) | Unmapped(lo: int, hi: int)

  /** Which of the hooks a request meets refuse: giving memory back, decommitting it, purging
      it and committing it. */
  datatype Hooks = Hooks(dallocFails: bool, decommitFails: bool, purgeFails: bool, commitFails: bool)

  datatype Interior = CantAlloc | Carved(lead: Option<int>, middle: int, trail: Option<int>)

  /** An eviction queue and the extents it belongs to. */
  datatype Turn = Turn(extents: Extents, queue: seq<Ext>)

  datatype Coalescing = NoNeighbor | MergeFailed | Merged(base: int)

  /** Every active extent that is not named stays as it is. */
  ghost predicate ActiveKept(x: Extents, y: Extents, named: set<int>) {
    forall b {:trigger x[b]} :: b in x && x[b].state == Active && b !in named ==> b in y && y[b] == x[b]
  }

  ghost predicate RetainedAt(x: Extents, p: int) {
    exists b :: b in x && b <= p < x[b].Past() && x[b].state == Retained
  }

  ghost predicate RetainedPages(x: Extents, lo: int, hi: int) { forall p :: lo <= p < hi ==> RetainedAt(x, p) }

  ghost predicate StaysRetained(x: Extents, y: Extents) { forall p :: RetainedAt(x, p) ==> RetainedAt(y, p) }

  /** Of a new mapping the middle is active and the rest retained. */
  ghost predicate Grown(x: Extents, base: int, allocSize: int, e: Edata) {
    && e.base in x && x[e.base] == e
    && RetainedPages(x, base, e.base) && RetainedPages(x, e.Past(), base + allocSize)
  }

  /** An extent is in two parts with its serial number, state and flags, of which only the
      lower may be a head; nothing else changed. */
  ghost predicate Halved(x: Extents, b: int, sizeA: nat, y: Extents)
    requires b in x
  {
    var e, d := x[b], b + sizeA;
    && b in y && d in y && y[b].base == b && y[d].base == d && y[b].Past() == d && y[d].Past() == e.Past()
    && y[b].sn == e.sn && y[b].state == e.state && y[b].committed == e.committed && y[b].zeroed == e.zeroed
    && y[d].sn == e.sn && y[d].state == e.state && y[d].committed == e.committed && y[d].zeroed == e.zeroed
    && y[b].head == e.head && !y[d].head
    && (forall c :: c in x && c != b ==> c in y && y[c] == x[c])
    && (forall c :: c in y && c != b && c != d ==> c in x)
  }

  class Pac {
    const dirty: Eset
    const muzzy: Eset
    const retained: Eset
    const reliableMerge: bool
    const lgMaxActiveFit: nat
    const oversizeThreshold: nat
    const mayForceDecay: bool
    var extents: Extents
    var emap: PageMap
    var snNext: nat

    ghost function Now(): Space
      reads this
    {
      Space(extents, snNext)
    }

    function EsetOf(s: State): Eset {
      if s == Dirty then dirty else if s == Muzzy then muzzy else retained
    }

    predicate DelayCoalesce(s: State) { s == Dirty }

    /** The cache of a state holds exactly the given extents. */
    ghost predicate Holds(s: State, c: set<Ext>)
      reads EsetOf(s)
    {
      EsetOf(s).Valid() && EsetOf(s).contents == c
    }

    ghost predicate Caches(x: Extents)
      reads dirty, muzzy, retained
    {
      && dirty != muzzy && dirty != retained && muzzy != retained
      && Holds(Dirty, Cached(x, Dirty)) && Holds(Muzzy, Cached(x, Muzzy)) && Holds(Retained, Cached(x, Retained))
    }

    /** Nothing is left to merge in the caches that coalesce at once. */
    ghost predicate Coalesced(x: Extents) {
      reliableMerge ==> Settled(x, Muzzy) && Settled(x, Retained)
    }

    ghost predicate NoneMerging(x: Extents) {
      forall b {:trigger x[b]} :: b in x ==> x[b].state != Merging
    }

    ghost predicate Valid()
      reads this, dirty, muzzy, retained
    {
      SpaceOk(extents, emap) && NoneMerging(extents) && Caches(extents) && Coalesced(extents)
    }

    constructor (classes: SizeClasses, reliableMerge: bool, lgMaxActiveFit: nat,
                 oversizeThreshold: nat, mayForceDecay: bool)
      requires classes.Valid()
      ensures Valid() && extents == map[]
      ensures fresh(dirty) && fresh(muzzy) && fresh(retained)
      ensures this.reliableMerge == reliableMerge && this.lgMaxActiveFit == lgMaxActiveFit
    {
      hide Eset.Valid, Named, Tiled, Settled;
      EmptySpaceOk();
      var d := new Eset(classes);
      var m := new Eset(classes);
      var r := new Eset(classes);
      dirty, muzzy, retained := d, m, r;
      this.reliableMerge, this.lgMaxActiveFit := reliableMerge, lgMaxActiveFit;
      this.oversizeThreshold, this.mayForceDecay := oversizeThreshold, mayForceDecay;
      extents, emap, snNext := map[], map[], 0;
    }

    static lemma EmptySpaceOk()
      ensures SpaceOk(map[], map[])
      ensures forall s :: Cached(map[], s) == {} && Settled(map[], s)
    {
    }

    /** emap_update_edata_state. */
    method UpdateState(b: int, s: State)
      requires SpaceOk(extents, emap) && b in extents
      modifies this`extents, this`emap
      ensures SpaceOk(extents, emap) && extents == WithState(old(extents), b, s)
      ensures extents == old(extents)[b := old(extents)[b].(state := s)]
      ensures SamePages(old(extents), extents) && |extents| == |old(extents)|
    {
      hide SpaceOk, SamePages;
      assert WithState(extents, b, s).Keys == extents.Keys;
      WithStateOk(extents, emap, b, s);
      extents := extents[b := extents[b].(state := s)];
      emap := Written(emap, extents[b]);
    }

    /** extent_deactivate_locked: into the cache of a state. */
    method Deactivate(s: State, b: int)
      requires SpaceOk(extents, emap) && Caches(extents) && IsCache(s)
      requires b in extents && !IsCache(extents[b].state)
      modifies this`extents, this`emap, EsetOf(s)
      ensures SpaceOk(extents, emap) && Caches(extents)
      ensures extents == WithState(old(extents), b, s) && SamePages(old(extents), extents)
      ensures |extents| == |old(extents)| && EsetOf(s).lru == old(EsetOf(s).lru) + [ExtOf(extents[b])]
    {
      hide Named, SamePages, Eset.Valid;
      var e := extents[b];
      CachedAfterState(extents, b, s, Dirty);
      CachedAfterState(extents, b, s, Muzzy);
      CachedAfterState(extents, b, s, Retained);
      assert forall f :: f in Cached(extents, s) ==> f.base != b;
      UpdateState(b, s);
      EsetOf(s).Insert(ExtOf(e));
    }

    /** The cache part of extent_activate_locked: out of the cache of a state. */
    method Activate(s: State, b: int)
      requires SpaceOk(extents, emap) && Caches(extents) && IsCache(s)
      requires b in extents && extents[b].state == s
      modifies this`extents, this`emap, EsetOf(s)
      ensures SpaceOk(extents, emap) && Caches(extents)
      ensures extents == WithState(old(extents), b, Active) && SamePages(old(extents), extents)
      ensures |extents| == |old(extents)| && EsetOf(s).lru == Drop(old(EsetOf(s).lru), ExtOf(extents[b]))
    {
      hide Named, SamePages, Eset.Valid;
      CachedAfterState(extents, b, Active, Dirty);
      CachedAfterState(extents, b, Active, Muzzy);
      CachedAfterState(extents, b, Active, Retained);
      EsetOf(s).Remove(ExtOf(extents[b]));
      UpdateState(b, Active);
    }

    /** ehooks_merge. */
    method MergeHook() returns (err: bool)
      ensures reliableMerge ==> !err
    {
      err := *;
      if reliableMerge {
        err := false;
      }
    }

    /** Merging two extents that are in no cache leaves every cache as it was. */
    lemma MergeTouchesNoCache(x: Extents, a: int, b: int)
      requires a in x && b in x && a != b && !IsCache(x[a].state) && !IsCache(x[b].state)
      ensures forall t :: IsCache(t) ==> Untouched(x, MergeExtents(x, a, b), t)
      ensures forall t :: IsCache(t) ==> Cached(MergeExtents(x, a, b), t) == Cached(x, t)
    {
    }

    /** emap_try_acquire_edata_neighbor and the removal that follows it: the extent is
        marked as merging and leaves its cache. */
    method Acquire(s: State, b: int)
      requires SpaceOk(extents, emap) && Caches(extents) && IsCache(s)
      requires b in extents && extents[b].state == s
      modifies this`extents, this`emap, EsetOf(s)
      ensures SpaceOk(extents, emap) && Caches(extents)
      ensures extents == WithState(old(extents), b, Merging) && SamePages(old(extents), extents)
      ensures EsetOf(s).lru == Drop(old(EsetOf(s).lru), ExtOf(extents[b]))
    {
      hide Named, SamePages, Eset.Valid;
      CachedAfterState(extents, b, Merging, Dirty);
      CachedAfterState(extents, b, Merging, Muzzy);
      CachedAfterState(extents, b, Merging, Retained);
      UpdateState(b, Merging);
      EsetOf(s).Remove(ExtOf(extents[b]));
    }

    /** extent_merge_impl: either the hook fails and nothing changes, or the lower extent
        takes over the upper one. */
    method MergeImpl(lo: int, hi: int) returns (err: bool)
      requires SpaceOk(extents, emap) && Caches(extents)
      requires lo in extents && hi in extents && extents[lo].Past() == hi
      requires !IsCache(extents[lo].state) && !IsCache(extents[hi].state)
      modifies this`extents, this`emap
      ensures SpaceOk(extents, emap) && Caches(extents) && SamePages(old(extents), extents)
      ensures extents == if err then old(extents) else MergeExtents(old(extents), lo, hi)
      ensures reliableMerge ==> !err
    {
      hide Named, Covered, Eset.Valid, Cached;
      err := MergeHook();
      if !err {
        MergeOk(extents, emap, lo, hi);
        MergePages(extents, lo, hi);
        MergeTouchesNoCache(extents, lo, hi);
        emap := MergeMap(extents, emap, lo, hi);
        extents := MergeExtents(extents, lo, hi);
      }
    }

    /** An active extent and a cached neighbour became one active extent. */
    ghost predicate Absorbed(x: Extents, y: Extents, s: State, b: int, n: int, forward: bool)
      requires b in x
    {
      && n in x && n != b && x[n].state == s
      && var lo, hi := if forward then b else n, if forward then n else b;
      && Mergeable(x[lo], x[hi])
      && y == MergeExtents(x, lo, hi)
    }

    lemma JoinIgnoresState(x: Extents, lo: int, hi: int, n: int)
      requires lo in x && hi in x && lo != hi && (n == lo || n == hi)
      ensures MergeExtents(WithState(x, n, Merging), lo, hi) == MergeExtents(x, lo, hi)
    {
    }

    /** The attempt of extent_try_coalesce_impl on one side, with extent_coalesce. */
    method TryOneSide(s: State, b: int, forward: bool) returns (r: Coalescing, ghost n: int)
      requires SpaceOk(extents, emap) && Caches(extents) && IsCache(s)
      requires b in extents && extents[b].state == Active
      modifies this`extents, this`emap, EsetOf(s)
      ensures SpaceOk(extents, emap) && Caches(extents) && SamePages(old(extents), extents)
      ensures !r.Merged? ==> extents == old(extents)
      ensures r.NoNeighbor? ==>
                forall c {:trigger extents[c]} :: c in extents && extents[c].state == s ==>
                  if forward then !Mergeable(extents[b], extents[c]) else !Mergeable(extents[c], extents[b])
      ensures r.Merged? ==>
                && Absorbed(old(extents), extents, s, b, n, forward)
                && r.base == (if forward then b else n)
                && EsetOf(s).lru == Drop(old(EsetOf(s).lru), ExtOf(old(extents)[n]))
      ensures r.NoNeighbor? ==> EsetOf(s).lru == old(EsetOf(s).lru)
      ensures r.MergeFailed? ==>
                && !reliableMerge && n in extents
                && EsetOf(s).lru == Drop(old(EsetOf(s).lru), ExtOf(extents[n])) + [ExtOf(extents[n])]
    {
      hide Named, Eset.Valid, Covered, Cached, Caches;
      NeighborIs(extents, emap, b, s, forward);
      var neighbor := Neighbor(extents, emap, b, s, forward, false);
      n := b;
      if neighbor.None? {
        return NoNeighbor, n;
      }
      var outer := neighbor.value;
      n := outer;
      ghost var x := extents;
      Acquire(s, outer);
      var lo, hi := if forward then b else outer, if forward then outer else b;
      var err := MergeImpl(lo, hi);
      if err {
        Deactivate(s, outer);
        return MergeFailed, n;
      }
      r := Merged(lo);
      JoinIgnoresState(x, lo, hi, outer);
    }

    lemma AbsorbedTook(x: Extents, y: Extents, s: State, b: int, n: int, forward: bool)
      requires Tiled(x) && b in x && x[b].state == Active && s != Active && Absorbed(x, y, s, b, n, forward)
      ensures var d := if forward then b else n;
              Took(x, b, y, d, s) && |y| == |x| - 1 && d in y && y[d].state == Active
    {
      var lo, hi := if forward then b else n, if forward then n else b;
      JoinIsUnion(x, lo, hi);
      hide IsUnion, Tiled, Mergeable;
      MergedKeys(x, lo, hi);
      hide MergeExtents;
      forall c | c in y && c != lo ensures c in x && y[c] == x[c] && !Part(y, y[lo], c) {
        assert !Part(x, y[lo], c);
      }
      forall c | c in x && c != b ensures if Part(x, y[lo], c) then x[c].state == s else c in y && y[c] == x[c] {
        assert Part(x, y[lo], c) <==> c == lo || c == hi;
      }
    }

    lemma MergedKeys(x: Extents, lo: int, hi: int)
      requires lo in x && hi in x && lo != hi
      ensures var y := MergeExtents(x, lo, hi);
              && lo in y && y[lo] == Join(x[lo], x[hi]) && hi !in y && |y| == |x| - 1
              && (forall c {:trigger y[c]} :: c in y && c != lo ==> c in x && y[c] == x[c] && c != hi)
              && (forall c {:trigger x[c]} :: c in x && c != lo && c != hi ==> c in y && y[c] == x[c])
    {
      var y := MergeExtents(x, lo, hi);
      assert y.Keys == x.Keys - {hi};
    }

    lemma JoinIsUnion(x: Extents, lo: int, hi: int)
      requires Tiled(x) && lo in x && hi in x && lo != hi && Mergeable(x[lo], x[hi])
      ensures var e := Join(x[lo], x[hi]);
              && e.base == lo && IsUnion(x, e) && lo < hi < e.Past() && x[lo].Past() <= e.Past() && x[hi].Past() == e.Past()
              && x[lo].base == lo && x[hi].base == hi
              && forall c :: Part(x, e, c) <==> c == lo || c == hi
    {
      var e := Join(x[lo], x[hi]);
      assert InSpace(lo, x[lo]) && InSpace(hi, x[hi]);
      assert forall c :: c in x && c != lo && c != hi ==> Separate(x[c], x[lo]) && Separate(x[c], x[hi]) && InSpace(c, x[c]);
      assert Part(x, e, lo) && Part(x, e, hi);
    }

    /** Exactly one cached neighbour was absorbed.  Where merging is reliable, it alone left the
        queue; a failed attempt puts a neighbour at its end. */
    ghost predicate AbsorbedOne(x: Extents, q: seq<Ext>, b0: int, y: Extents, r: seq<Ext>, b: int, s: State)
      requires b0 in x
    {
      exists n, forward: bool ::
        && Absorbed(x, y, s, b0, n, forward) && b == (if forward then b0 else n)
        && (reliableMerge ==> r == Drop(q, ExtOf(x[n])))
    }

    lemma AbsorbedOneIs(x: Extents, q: seq<Ext>, b0: int, y: Extents, r: seq<Ext>, b: int, s: State, n: int, forward: bool)
      requires b0 in x && Absorbed(x, y, s, b0, n, forward) && b == if forward then b0 else n
      requires reliableMerge ==> r == Drop(q, ExtOf(x[n]))
      ensures AbsorbedOne(x, q, b0, y, r, b, s)
    {
    }

    /** extent_try_coalesce_impl.  Each success removes an extent, so the loop ends; when
        it ends in a cache that coalesces at once, nothing is left to merge with. */
    method TryCoalesce(s: State, b0: int) returns (b: int, coalesced: bool)
      requires SpaceOk(extents, emap) && Caches(extents) && IsCache(s)
      requires b0 in extents && extents[b0].state == Active
      modifies this`extents, this`emap, EsetOf(s)
      ensures SpaceOk(extents, emap) && Caches(extents) && SamePages(old(extents), extents)
      ensures Took(old(extents), b0, extents, b, s)
      ensures !coalesced && reliableMerge ==> Isolated(extents, b, s)
      ensures !DelayCoalesce(s) ==> !coalesced
      ensures |extents| <= |old(extents)|
      ensures DelayCoalesce(s) ==> |extents| == if coalesced then |old(extents)| - 1 else |old(extents)|
      ensures coalesced ==>
                AbsorbedOne(old(extents), old(EsetOf(s).lru), b0, extents, EsetOf(s).lru, b, s)
      ensures DelayCoalesce(s) && !coalesced ==>
                extents == old(extents) && b == b0 && (reliableMerge ==> EsetOf(s).lru == old(EsetOf(s).lru))
    {
      hide Drop, Named, Eset.Valid, Covered, Cached, Caches, Absorbed, Tiled, Took, AbsorbedOne, Mergeable;
      b, coalesced := b0, false;
      TookNothing(extents, b0, s);
      ghost var q := EsetOf(s).lru;
      var again := true;
      while again
        invariant SpaceOk(extents, emap) && Caches(extents) && SamePages(old(extents), extents)
        invariant Took(old(extents), b0, extents, b, s) && b in extents && extents[b].state == Active
        invariant |extents| <= |old(extents)|
        invariant DelayCoalesce(s) ==>
                    extents == old(extents) && b == b0 && (reliableMerge ==> EsetOf(s).lru == old(EsetOf(s).lru))
        invariant !again && reliableMerge ==> Isolated(extents, b, s)
        decreases |extents|, again
      {
        again := false;
        ghost var n;
        ghost var x := extents;
        var r;
        r, n := TryOneSide(s, b, true);
        if r.Merged? {
          AbsorbedTook(x, extents, s, b, n, true);
          TookTransitive(old(extents), b0, x, b, extents, b, s);
          if DelayCoalesce(s) {
            AbsorbedOneIs(x, q, b0, extents, EsetOf(s).lru, b, s, n, true);
            return b, true;
          }
          again := true;
        }
        x := extents;
        r, n := TryOneSide(s, b, false);
        if r.Merged? {
          AbsorbedTook(x, extents, s, b, n, false);
          TookTransitive(old(extents), b0, x, b, extents, n, s);
          b := r.base;
          if DelayCoalesce(s) {
            AbsorbedOneIs(x, q, b0, extents, EsetOf(s).lru, b, s, n, false);
            return b, true;
          }
          again := true;
        }
      }
    }

    /** The freed extent b0 is now part of the extent b of state s, which took over
        cached neighbours; every other extent stayed as it was. */
    ghost predicate Recorded(x: Extents, b0: int, y: Extents, b: int, s: State) {
      b in y && y[b].state == s && Took(x, b0, WithState(y, b, Active), b, s)
    }

    /** Freeing b0 leaves every extent as it was that is neither active b0 nor cached in state
        s or retained, and makes no extent but the one it becomes. */
    ghost predicate Spared(x: Extents, y: Extents, b0: int, s: State, becomes: Option<int>) {
      && (forall c {:trigger x[c]} :: c in x && c != b0 && x[c].state != s && x[c].state != Retained ==>
            c in y && y[c] == x[c])
      && forall c {:trigger y[c]} :: c in y && becomes != Some(c) ==> c in x && y[c] == x[c] && c != b0
    }

    /** Whether a freed extent, of some size before and after coalescing, goes back at once. */
    predicate Oversize(s: State, size: int, coalesced: int) {
      DelayCoalesce(s) && size >= LARGE_MINCLASS_PAGES && coalesced >= oversizeThreshold && mayForceDecay
    }

    /** The coalescing of a freed extent: none for a small one where coalescing is delayed;
        otherwise, where merging is reliable, until no neighbour is left. */
    ghost predicate Coalesces(x: Extents, b0: int, y: Extents, b: int, s: State) {
      && Took(x, b0, y, b, s)
      && if DelayCoalesce(s) && x[b0].size < LARGE_MINCLASS_PAGES then y == x && b == b0
         else reliableMerge ==> Isolated(y, b, s)
    }

    /** The freed extent b0, coalesced, is the cached extent b. */
    ghost predicate Stored(x: Extents, b0: int, s: State, y: Extents, b: int) {
      b in y && y[b].state == s && Coalesces(x, b0, WithState(y, b, Active), b, s)
    }

    /** The extent b0 is stored as retained once it was decommitted or purged, as far as that
        succeeds: memory that is not committed is zeroed. */
    ghost predicate Retires(x: Extents, b0: int, y: Extents, b: int, h: Hooks)
      requires b0 in x
    {
      var committed := x[b0].committed && h.decommitFails;
      Stored(WithFlags(x, b0, committed, !committed || !h.purgeFails), b0, Retained, y, b)
    }

    /** The extent b0 goes back to the system or, when that is refused, is retained. */
    ghost predicate Dalloced(x: Extents, b0: int, y: Extents, fate: Fate, h: Hooks)
      requires b0 in x
    {
      match fate
      case Kept(state, b) => h.dallocFails && state == Retained && Retires(x, b0, y, b, h)
      case Unmapped(lo, hi) => !h.dallocFails && y == x - {b0} && lo == b0 && hi == x[b0].Past()
    }

    /** What becomes of an extent freed to cache s: coalesced, it is a cached extent there or,
        when it was dirty and oversize, a retained one, or its pages go back to the system. */
    ghost predicate Disposed(x: Extents, b0: int, s: State, y: Extents, fate: Fate, h: Hooks) {
      && b0 in x
      && (if fate.Kept? && fate.state == s then
            Stored(x, b0, s, y, fate.base) && !Oversize(s, x[b0].size, y[fate.base].size)
          else
            exists z: Extents, b: int ::
              Coalesces(x, b0, z, b, s) && Oversize(s, x[b0].size, z[b].size) && Dalloced(z, b, y, fate, h))
      && (fate.Kept? ==>
            && SamePages(x, y) && fate.base in y && y[fate.base].state == fate.state
            && fate.base <= b0 && x[b0].Past() <= y[fate.base].Past())
      && (fate.Unmapped? ==> fate.lo <= b0 && x[b0].Past() <= fate.hi && PagesRemoved(x, y, fate.lo, fate.hi))
      && Spared(x, y, b0, s, if fate.Kept? then Some(fate.base) else None)
    }

    /** The end of extent_record: the coalesced extent enters the cache. */
    method Store(s: State, ghost x: Extents, ghost b0: int, b: int)
      requires SpaceOk(extents, emap) && Caches(extents) && IsCache(s)
      requires NoneMerging(x) && Coalesced(x) && Took(x, b0, extents, b, s)
      requires !DelayCoalesce(s) && reliableMerge ==> Isolated(extents, b, s)
      modifies this`extents, this`emap, EsetOf(s)
      ensures Valid() && SamePages(old(extents), extents) && Recorded(x, b0, extents, b, s)
      ensures |extents| == |old(extents)| && extents == WithState(old(extents), b, s)
      ensures EsetOf(s).lru == old(EsetOf(s).lru) + [ExtOf(extents[b])]
    {
      hide Named, Eset.Valid, Covered, Cached, Caches, Settled, Untouched, Isolated, NoneMerging, Coalesced;
      TookKeeps(x, b0, extents, b, s);
      ghost var y := extents;
      BackToActive(y, b, s);
      StoreKeepsCoalesced(x, y, b, s);
      Deactivate(s, b);
    }

    lemma BackToActive(y: Extents, b: int, s: State)
      requires b in y && y[b].state == Active
      ensures WithState(WithState(y, b, s), b, Active) == y
    {
    }

    lemma StoreKeepsCoalesced(x: Extents, y: Extents, b: int, s: State)
      requires Tiled(y) && b in y && y[b].state == Active && IsCache(s) && Coalesced(x)
      requires NoneMerging(x) && forall c {:trigger y[c]} :: c in y && c != b ==> c in x && y[c] == x[c]
      requires Settled(x, s) ==> Settled(y, s)
      requires forall t :: IsCache(t) && t != s ==> Untouched(x, y, t)
      requires !DelayCoalesce(s) && reliableMerge ==> Isolated(y, b, s)
      ensures Coalesced(WithState(y, b, s)) && NoneMerging(WithState(y, b, s))
    {
      if reliableMerge {
        var z := WithState(y, b, s);
        if s != Dirty { SettledGrows(y, b, s); }
        if s != Muzzy { UntouchedKeeps(x, y, Muzzy); UntouchedKeeps(y, z, Muzzy); }
        if s != Retained { UntouchedKeeps(x, y, Retained); UntouchedKeeps(y, z, Retained); }
      }
    }

    /** extent_record. */
    method Record(s: State, b0: int, h: Hooks) returns (ghost fate: Fate)
      requires Valid() && IsCache(s) && b0 in extents && extents[b0].state == Active
      modifies this`extents, this`emap, dirty, muzzy, retained
      ensures Valid() && Disposed(old(extents), b0, s, extents, fate, h)
      ensures PurgedIffOversize(s, old(extents)[b0].size, extents, fate)
      decreases s == Dirty
    {
      assert InSpace(b0, extents[b0]);
      hide Named, Tiled, Eset.Valid, Covered, Cached, Caches, Settled, Untouched, Isolated, Coalesced, Took,
        PurgedIffOversize, Recorded, NoneMerging, Disposed, Oversize, Coalesces, Stored;
      ghost var x := extents;
      var size := extents[b0].size;
      var b := CoalesceFreed(s, b0);
      CoalescesTook(x, b0, extents, b, s);
      if DelayCoalesce(s) && Oversize(s, size, extents[b].size) {
        fate := MaximallyPurge(x, b0, b, h);
        DisposedOversize(x, b0, s, extents, fate, h);
        return;
      }
      ghost var z := extents;
      Store(s, x, b0, b);
      fate := Kept(s, b);
      StoredIs(x, b0, z, extents, b, s);
      StoredDisposed(x, b0, extents, b, s, h);
      DisposedOversize(x, b0, s, extents, fate, h);
    }

    /** A freed extent leaves its cache at once exactly when it was dirty, large and, coalesced,
        oversize, and decay may be forced. */
    ghost predicate PurgedIffOversize(s: State, size: nat, y: Extents, fate: Fate) {
      var large := s == Dirty && size >= LARGE_MINCLASS_PAGES && mayForceDecay;
      match fate
      case Kept(state, b) => b in y && (state == s <==> !(large && y[b].size >= oversizeThreshold))
      case Unmapped(lo, hi) => large && hi - lo >= oversizeThreshold
    }

    lemma DisposedOversize(x: Extents, b0: int, s: State, y: Extents, fate: Fate, h: Hooks)
      requires b0 in x && Disposed(x, b0, s, y, fate, h)
      ensures PurgedIffOversize(s, x[b0].size, y, fate)
    {
      hide SamePages, PagesRemoved, Spared, Isolated, IsUnion;
      if !(fate.Kept? && fate.state == s) {
        var z: Extents, b: int :| Coalesces(x, b0, z, b, s) && Oversize(s, x[b0].size, z[b].size) && Dalloced(z, b, y, fate, h);
        if fate.Kept? {
          assert s != Retained;
          var committed := z[b].committed && h.decommitFails;
          StoredRecorded(WithFlags(z, b, committed, !committed || !h.purgeFails), b, y, fate.base, Retained);
        }
      }
    }

    lemma CoalescesTook(x: Extents, b0: int, y: Extents, b: int, s: State)
      requires Coalesces(x, b0, y, b, s)
      ensures Took(x, b0, y, b, s) && b in y && (!DelayCoalesce(s) && reliableMerge ==> Isolated(y, b, s))
    {
    }

    lemma StoredIs(x: Extents, b0: int, z: Extents, y: Extents, b: int, s: State)
      requires Coalesces(x, b0, z, b, s) && b in z && y == WithState(z, b, s)
      ensures Stored(x, b0, s, y, b)
    {
      BackToActive(z, b, s);
    }

    /** The coalescing of extent_record: at once, or eagerly for a large extent. */
    method CoalesceFreed(s: State, b0: int) returns (b: int)
      requires SpaceOk(extents, emap) && Caches(extents) && IsCache(s)
      requires b0 in extents && extents[b0].state == Active
      modifies this`extents, this`emap, EsetOf(s)
      ensures SpaceOk(extents, emap) && Caches(extents) && SamePages(old(extents), extents)
      ensures Coalesces(old(extents), b0, extents, b, s) && b in extents
    {
      hide Named, Tiled, Eset.Valid, Covered, Cached, Caches, Isolated, IsUnion;
      b := b0;
      TookNothing(extents, b0, s);
      if !DelayCoalesce(s) {
        var coalesced;
        b, coalesced := TryCoalesce(s, b);
      } else if extents[b].size >= LARGE_MINCLASS_PAGES {
        b := CoalesceLarge(s, b);
      }
    }

    lemma StoredDisposed(x: Extents, b0: int, y: Extents, b: int, s: State, h: Hooks)
      requires Stored(x, b0, s, y, b) && b0 in x && SamePages(x, y)
      requires !Oversize(s, x[b0].size, y[b].size)
      ensures Disposed(x, b0, s, y, Kept(s, b), h)
    {
      SparedRecorded(x, b0, y, b, s);
    }

    /** extent_maximally_purge, which gives an oversize dirty extent back at once. */
    method MaximallyPurge(ghost x: Extents, ghost b0: int, b: int, h: Hooks) returns (ghost fate: Fate)
      requires SpaceOk(extents, emap) && Caches(extents) && NoneMerging(x) && Coalesced(x)
      requires b0 in x && Coalesces(x, b0, extents, b, Dirty) && SamePages(x, extents) && b in extents
      requires Oversize(Dirty, x[b0].size, extents[b].size)
      modifies this`extents, this`emap, dirty, muzzy, retained
      ensures Valid() && Disposed(x, b0, Dirty, extents, fate, h) && (fate.Kept? ==> fate.state == Retained)
      decreases true, 1
    {
      hide Named, Eset.Valid, Covered, Cached, Caches, Settled, Untouched, Isolated, Coalesced, Spared, Dalloced, IsUnion;
      TookKeeps(x, b0, extents, b, Dirty);
      assert Valid() by { StillCoalesced(x, extents, Dirty); }
      ghost var y := extents;
      fate := DallocWrapper(b, h);
      PurgedDisposed(x, b0, y, b, extents, fate, h);
    }

    lemma PurgedDisposed(x: Extents, b0: int, y: Extents, b: int, z: Extents, fate: Fate, h: Hooks)
      requires b0 in x && b in y && Coalesces(x, b0, y, b, Dirty) && SamePages(x, y)
      requires Oversize(Dirty, x[b0].size, y[b].size) && Dalloced(y, b, z, fate, h)
      requires fate.Kept? ==>
                 && SamePages(y, z) && fate.base in z && z[fate.base].state == Retained
                 && fate.base <= b && y[b].Past() <= z[fate.base].Past()
      requires fate.Unmapped? ==> PagesRemoved(y, z, fate.lo, fate.hi)
      ensures Disposed(x, b0, Dirty, z, fate, h) && (fate.Kept? ==> fate.state == Retained)
    {
      hide Covered, Isolated, IsUnion, Spared, Retires;
      SparedOversize(x, b0, y, b, z, Dirty, fate, h);
    }

    lemma SparedRecorded(x: Extents, b0: int, y: Extents, b: int, s: State)
      requires Recorded(x, b0, y, b, s)
      ensures Spared(x, y, b0, s, Some(b))
    {
      var z := WithState(y, b, Active);
      assert forall c :: c in y ==> c in z && (c != b ==> z[c] == y[c]);
    }

    lemma SparedOversize(x: Extents, b0: int, y: Extents, b: int, z: Extents, s: State, fate: Fate, h: Hooks)
      requires Took(x, b0, y, b, s)
      requires b in y && Dalloced(y, b, z, fate, h)
      ensures Spared(x, z, b0, s, if fate.Kept? then Some(fate.base) else None)
    {
      if fate.Kept? {
        SparedRetired(y, b, z, fate.base, h);
      }
    }

    lemma StoredRecorded(x: Extents, b0: int, y: Extents, b: int, s: State)
      requires Stored(x, b0, s, y, b)
      ensures Recorded(x, b0, y, b, s)
    {
    }

    lemma StoredFlags(x: Extents, b0: int, s: State, y: Extents, b: int)
      requires b0 in x && Stored(x, b0, s, y, b)
      ensures y[b].committed == x[b0].committed && (y[b].zeroed ==> x[b0].zeroed)
    {
    }

    lemma SparedRetired(x: Extents, b0: int, y: Extents, b: int, h: Hooks)
      requires b0 in x && Retires(x, b0, y, b, h)
      ensures Spared(x, y, b0, Retained, Some(b))
    {
      var committed := x[b0].committed && h.decommitFails;
      var w := WithFlags(x, b0, committed, !committed || !h.purgeFails);
      assert forall c :: c in x ==> c in w && (c != b0 ==> w[c] == x[c]);
      StoredRecorded(w, b0, y, b, Retained);
      SparedRecorded(w, b0, y, b, Retained);
    }

    lemma StillCoalesced(x: Extents, y: Extents, s: State)
      requires Coalesced(x) && IsCache(s)
      requires Settled(x, s) ==> Settled(y, s)
      requires forall t :: IsCache(t) && t != s ==> Untouched(x, y, t)
      ensures Coalesced(y)
    {
      if s != Muzzy { UntouchedKeeps(x, y, Muzzy); }
      if s != Retained { UntouchedKeeps(x, y, Retained); }
    }

    /** The loop of extent_record that coalesces a large extent one neighbour at a time. */
    method CoalesceLarge(s: State, b0: int) returns (b: int)
      requires SpaceOk(extents, emap) && Caches(extents) && IsCache(s) && DelayCoalesce(s)
      requires b0 in extents && extents[b0].state == Active
      modifies this`extents, this`emap, EsetOf(s)
      ensures SpaceOk(extents, emap) && Caches(extents) && SamePages(old(extents), extents)
      ensures Took(old(extents), b0, extents, b, s)
      ensures reliableMerge ==> Isolated(extents, b, s)
    {
      hide Named, Tiled, Eset.Valid, Covered, Cached, Caches;
      b := b0;
      TookNothing(extents, b0, s);
      var coalesced := true;
      while coalesced
        invariant SpaceOk(extents, emap) && Caches(extents) && SamePages(old(extents), extents)
        invariant Took(old(extents), b0, extents, b, s)
        invariant !coalesced && reliableMerge ==> Isolated(extents, b, s)
        decreases |extents|, coalesced
      {
        ghost var x, prev := extents, b;
        b, coalesced := TryCoalesce(s, b);
        TookTransitive(old(extents), b0, x, prev, extents, b, s);
      }
    }

    /** extent_dalloc_wrapper: the extent is deregistered and given back, or registered
        again and kept in the retained cache when the hook refuses. */
    method DallocWrapper(b0: int, h: Hooks) returns (ghost fate: Fate)
      requires Valid() && b0 in extents && extents[b0].state == Active
      modifies this`extents, this`emap, dirty, muzzy, retained
      ensures Valid()
      ensures Dalloced(old(extents), b0, extents, fate, h) && (fate.Kept? <==> h.dallocFails)
      ensures fate.Kept? ==>
                && SamePages(old(extents), extents) && fate.base in extents && extents[fate.base].state == Retained
                && fate.base <= b0 && old(extents)[b0].Past() <= extents[fate.base].Past()
      ensures fate.Unmapped? ==> PagesRemoved(old(extents), extents, fate.lo, fate.hi)
      ensures fate.Unmapped? ==> extents == old(extents) - {b0}
      ensures fate.Kept? ==> (extents[fate.base].committed <==> old(extents)[b0].committed && h.decommitFails)
      ensures fate.Kept? && extents[fate.base].committed && h.purgeFails ==> !extents[fate.base].zeroed
      decreases true, 0
    {
      hide Named, Eset.Valid, Covered, Cached;
      if h.dallocFails {
        var committed := extents[b0].committed && h.decommitFails;
        var zeroed := !committed || !h.purgeFails;
        ghost var x := extents;
        SetFlags(b0, committed, zeroed);
        fate := Record(Retained, b0, h);
        assert Stored(WithFlags(x, b0, committed, zeroed), b0, Retained, extents, fate.base);
        StoredFlags(WithFlags(x, b0, committed, zeroed), b0, Retained, extents, fate.base);
        return;
      }
      fate := Unmapped(b0, extents[b0].Past());
      DeregisterOk(extents, emap, b0);
      DeregisterPages(extents, b0);
      LeavingTouchesNoCache(extents, b0);
      emap := emap - {b0, extents[b0].Last()};
      extents := extents - {b0};
    }

    /** edata_committed_set and edata_zeroed_set on an active extent, as extent_commit_impl,
        extent_decommit_wrapper and extent_dalloc_wrapper do.  The page map does not name
        these flags. */
    method SetFlags(b: int, committed: bool, zeroed: bool)
      requires Valid() && b in extents && extents[b].state == Active
      modifies this`extents
      ensures Valid() && SamePages(old(extents), extents)
      ensures extents == WithFlags(old(extents), b, committed, zeroed)
      ensures extents == old(extents)[b := old(extents)[b].(committed := committed, zeroed := zeroed)]
    {
      hide Named, Eset.Valid, Covered, Cached, Settled;
      FlagsOk(extents, emap, b, committed, zeroed);
      FlagsTouchNoCache(extents, b, committed, zeroed);
      extents := WithFlags(extents, b, committed, zeroed);
    }

    lemma FlagsTouchNoCache(x: Extents, b: int, committed: bool, zeroed: bool)
      requires b in x && !IsCache(x[b].state)
      ensures forall t :: IsCache(t) ==> Cached(WithFlags(x, b, committed, zeroed), t) == Cached(x, t)
      ensures Coalesced(x) ==> Coalesced(WithFlags(x, b, committed, zeroed))
    {
      forall t | IsCache(t)
        ensures Cached(WithFlags(x, b, committed, zeroed), t) == Cached(x, t)
        ensures Settled(x, t) ==> Settled(WithFlags(x, b, committed, zeroed), t)
      {
        UntouchedKeeps(x, WithFlags(x, b, committed, zeroed), t);
      }
    }

    lemma LeavingTouchesNoCache(x: Extents, b: int)
      requires b in x && !IsCache(x[b].state)
      ensures forall t :: IsCache(t) ==> Untouched(x, x - {b}, t)
      ensures forall t :: IsCache(t) ==> Cached(x - {b}, t) == Cached(x, t)
      ensures Coalesced(x) ==> Coalesced(x - {b})
    {
    }

    /** extent_split_impl of an active extent. */
    method SplitImpl(b: int, sizeA: nat)
      requires SpaceOk(extents, emap) && Caches(extents)
      requires b in extents && extents[b].state == Active && 0 < sizeA < extents[b].size
      modifies this`extents, this`emap
      ensures SpaceOk(extents, emap) && Caches(extents) && SamePages(old(extents), extents)
      ensures b + sizeA !in old(extents) && extents == SplitExtents(old(extents), b, sizeA)
      ensures Halved(old(extents), b, sizeA, extents)
    {
      hide Named, Covered, Eset.Valid, Cached;
      assert InSpace(b, extents[b]);
      SplitOk(extents, emap, b, sizeA);
      SplitPages(extents, b, sizeA);
      SplitTouchesNoCache(extents, b, sizeA);
      emap := SplitMap(extents, emap, b, sizeA);
      extents := SplitExtents(extents, b, sizeA);
    }

    lemma SplitTouchesNoCache(x: Extents, b: int, sizeA: nat)
      requires b in x && x[b].state == Active && 0 < sizeA < x[b].size && b + sizeA !in x
      ensures forall t :: IsCache(t) ==> Untouched(x, SplitExtents(x, b, sizeA), t)
      ensures forall t :: IsCache(t) ==> Cached(SplitExtents(x, b, sizeA), t) == Cached(x, t)
    {
    }

    /** extent_split_wrapper, as pac_shrink_impl uses it on an active extent. */
    method SplitWrapper(b: int, sizeA: nat)
      requires Valid() && b in extents && extents[b].state == Active && 0 < sizeA < extents[b].size
      modifies this`extents, this`emap
      ensures Valid() && SamePages(old(extents), extents)
      ensures b + sizeA !in old(extents) && extents == SplitExtents(old(extents), b, sizeA)
      ensures Halved(old(extents), b, sizeA, extents)
    {
      hide Named, Covered, Eset.Valid, Cached, Caches, Settled, Untouched;
      ghost var x := extents;
      SplitImpl(b, sizeA);
      SplitTouchesNoCache(x, b, sizeA);
      UntouchedKeeps(x, extents, Muzzy);
      UntouchedKeeps(x, extents, Retained);
    }

    /** extent_merge_wrapper, as pac_expand_impl uses it on two active extents. */
    method MergeWrapper(lo: int, hi: int) returns (err: bool)
      requires Valid() && lo in extents && hi in extents && extents[lo].Past() == hi
      requires extents[lo].state == Active && extents[hi].state == Active
      modifies this`extents, this`emap
      ensures Valid() && SamePages(old(extents), extents)
      ensures extents == if err then old(extents) else MergeExtents(old(extents), lo, hi)
      ensures !err ==>
                var a, b := old(extents)[lo], old(extents)[hi];
                && extents.Keys == old(extents).Keys - {hi}
                && extents[lo] == Edata(lo, a.size + b.size, if a.sn < b.sn then a.sn else b.sn, Active,
                                        a.head, a.committed, a.zeroed && b.zeroed)
                && forall c :: c in extents && c != lo ==> extents[c] == old(extents)[c]
      ensures reliableMerge ==> !err
    {
      hide Named, Covered, Eset.Valid, Cached, Caches, Settled, Untouched;
      assert InSpace(lo, extents[lo]);
      ghost var x := extents;
      err := MergeImpl(lo, hi);
      if !err {
        MergeTouchesNoCache(x, lo, hi);
        UntouchedKeeps(x, extents, Muzzy);
        UntouchedKeeps(x, extents, Retained);
      }
    }

    /** Splitting off the lead and then the trail cuts out the middle. */
    lemma TwoSplits(x: Extents, b: int, leadSize: nat, size: nat)
      requires b in x && x[b].state == Active && 0 < size && leadSize + size <= x[b].size
      ensures var y := if leadSize == 0 then x else SplitExtents(x, b, leadSize);
              && b + leadSize in y && y[b + leadSize].size == x[b].size - leadSize
              && Cut(x, b, leadSize, size, Active) ==
                 if leadSize + size == x[b].size then y else SplitExtents(y, b + leadSize, size)
    {
    }

    /** extent_split_interior: refuses exactly when the aligned request does not fit. */
    method SplitInterior(b: int, size: nat, alignment: nat) returns (r: Interior)
      requires SpaceOk(extents, emap) && Caches(extents)
      requires b in extents && extents[b].state == Active && size > 0 && alignment > 0
      modifies this`extents, this`emap
      ensures SpaceOk(extents, emap) && Caches(extents) && SamePages(old(extents), extents)
      ensures r.CantAlloc? <==> !HasRoom(ExtOf(old(extents)[b]), size, alignment)
      ensures r.CantAlloc? ==> extents == old(extents)
      ensures r.Carved? ==>
                var gap, e := Gap(b, alignment), old(extents)[b];
                && gap + size <= e.size
                && extents == Cut(old(extents), b, gap, size, Active)
                && r == Carved(if gap == 0 then None else Some(b), b + gap,
                               if gap + size == e.size then None else Some(b + gap + size))
    {
      hide Named, Covered, Eset.Valid, Cached, Caches, CutInto;
      var leadSize := Gap(b, alignment);
      if extents[b].size < leadSize + size {
        return CantAlloc;
      }
      var trailSize := extents[b].size - leadSize - size;
      var middle, lead, trail := b, None, None;
      if leadSize != 0 {
        SplitImpl(b, leadSize);
        lead, middle := Some(b), b + leadSize;
      }
      if trailSize != 0 {
        SplitImpl(middle, size);
        trail := Some(middle + size);
      }
      TwoSplits(old(extents), b, leadSize, size);
      return Carved(lead, middle, trail);
    }

    /** extent_recycle_split: lead and trail go back to the cache without coalescing. */
    method RecycleSplit(s: State, b: int, size: nat, alignment: nat)
      requires SpaceOk(extents, emap) && Caches(extents) && IsCache(s)
      requires b in extents && extents[b].state == Active && size > 0 && alignment > 0
      requires HasRoom(ExtOf(extents[b]), size, alignment)
      modifies this`extents, this`emap, EsetOf(s)
      ensures SpaceOk(extents, emap) && Caches(extents) && SamePages(old(extents), extents)
      ensures extents == Cut(old(extents), b, Gap(b, alignment), size, s)
    {
      hide Named, Covered, Eset.Valid, Cached, Caches, Gap, CutInto;
      CutLeadMoves(extents, b, Gap(b, alignment), size, s);
      CutTrailMoves(extents, b, Gap(b, alignment), size, s);
      var r := SplitInterior(b, size, alignment);
      if r.lead.Some? {
        Deactivate(s, r.lead.value);
      }
      if r.trail.Some? {
        Deactivate(s, r.trail.value);
      }
    }

    function LgMaxFit(s: State): nat { if DelayCoalesce(s) then lgMaxActiveFit else PTR_BITS }

    /** The cached extent a request is served from: the one right behind the extent to expand,
        or what the fit chooses. */
    ghost predicate Extracted(x: Extents, s: State, expand: Option<int>, size: nat, alignment: nat, r: Option<int>)
      requires alignment > 0
    {
      && (r.Some? ==> r.value in x && x[r.value].state == s && x[r.value].base == r.value
                      && HasRoom(ExtOf(x[r.value]), size, alignment))
      && if expand.Some? then
           expand.value in x && var c := x[expand.value].Past();
           r == if c in x && x[c].state == s && !x[c].head && x[c].size >= size then Some(c) else None
         else
           EsetOf(s).classes.Valid() &&
           Chosen(EsetOf(s).classes, Cached(x, s), size, alignment, false, LgMaxFit(s),
                  if r.Some? then Some(ExtOf(x[r.value])) else None)
    }

    /** extent_recycle_extract: a cached extent that can satisfy the request, by expanding
        in place or by fit, still in its cache. */
    method RecycleExtract(s: State, expand: Option<int>, size: nat, alignment: nat) returns (r: Option<int>)
      requires Valid() && IsCache(s) && 0 < size < MAX_PAGES && 0 < alignment <= MAX_PAGES
      requires expand.Some? ==> expand.value in extents && extents[expand.value].state == Active && alignment == 1
      ensures Extracted(extents, s, expand, size, alignment, r)
    {
      hide Named, Eset.Valid, Chosen;
      if expand.Some? {
        ExpansionIs(extents, emap, expand.value, s);
        r := Neighbor(extents, emap, expand.value, s, true, true);
        if r.Some? {
          assert InSpace(r.value, extents[r.value]);
          if extents[r.value].size < size {
            r := None;
          }
        }
      } else {
        ClassesValid(s);
        var fit := EsetOf(s).Fit(size, alignment, false, LgMaxFit(s));
        if fit.None? {
          return None;
        }
        CachedAt(extents, s, fit.value);
        r := Some(fit.value.base);
        assert InSpace(r.value, extents[r.value]);
      }
    }

    lemma ClassesValid(s: State)
      requires EsetOf(s).Valid()
      ensures EsetOf(s).classes.Valid()
    {
    }

    /** The first half of extent_recycle, under the lock of the cache: an extent of exactly the
        requested size, aligned, is cut out of a cached one, or nothing changes. */
    method Carve(s: State, expand: Option<int>, size: nat, alignment: nat) returns (r: Option<int>, ghost src: Option<int>)
      requires Valid() && IsCache(s) && 0 < size < MAX_PAGES && 0 < alignment <= MAX_PAGES
      requires expand.Some? ==> expand.value in extents && extents[expand.value].state == Active && alignment == 1
      modifies this`extents, this`emap, EsetOf(s)
      ensures Valid() && SamePages(old(extents), extents) && Extracted(old(extents), s, expand, size, alignment, src)
      ensures src.None? ==> r.None? && extents == old(extents)
      ensures src.Some? ==>
                && r == Some(AlignUp(src.value, alignment))
                && extents == Cut(old(extents), src.value, Gap(src.value, alignment), size, s)
    {
      hide Named, Covered, Eset.Valid, Cached, Caches, Gap, Cut, Coalesced, Chosen;
      ghost var x := extents;
      r := RecycleExtract(s, expand, size, alignment);
      src := r;
      if r.None? {
        return;
      }
      var b := r.value;
      Activate(s, b);
      CutActivated(x, b, Gap(b, alignment), size, s);
      RecycleSplit(s, b, size, alignment);
      RecycleKeepsCoalesced(x, b, Gap(b, alignment), size, s);
      r := Some(AlignUp(b, alignment));
    }

    /** extent_commit_zero: uncommitted memory is committed if that is asked for, which the
        hook may refuse. */
    method CommitZero(b: int, commit: bool, h: Hooks) returns (failed: bool)
      requires Valid() && b in extents && extents[b].state == Active
      modifies this`extents
      ensures Valid() && SamePages(old(extents), extents)
      ensures failed <==> commit && !old(extents)[b].committed && h.commitFails
      ensures failed ==> extents == old(extents)
      ensures !failed ==> extents == WithFlags(old(extents), b, old(extents)[b].committed || commit, old(extents)[b].zeroed)
    {
      hide Named, Eset.Valid, Covered, Cached, Caches, Coalesced;
      failed := false;
      if commit && !extents[b].committed {
        failed := h.commitFails;
        if !failed {
          SetFlags(b, true, extents[b].zeroed);
        }
      } else {
        assert extents == WithFlags(extents, b, extents[b].committed || commit, extents[b].zeroed);
      }
    }

    /** What recycling does: nothing without a cached extent to serve from; otherwise the cut
        extent is handed out committed if asked for, or freed again when that is refused. */
    ghost predicate Recycled(x: Extents, s: State, expand: Option<int>, size: nat, alignment: nat, commit: bool,
                             h: Hooks, src: Option<int>, y: Extents, r: Option<int>, fate: Option<Fate>)
      requires 0 < alignment && 0 < size
    {
      && Extracted(x, s, expand, size, alignment, src)
      && (src.None? ==> r.None? && fate.None? && y == x)
      && (src.Some? ==>
            var z, mid := Cut(x, src.value, Gap(src.value, alignment), size, s), AlignUp(src.value, alignment);
            && mid in z
            && if r.Some? then
                 !(commit && !z[mid].committed && h.commitFails) && fate.None? && r.value == mid && y == WithFlags(z, mid, z[mid].committed || commit, z[mid].zeroed)
               else
                 commit && !z[mid].committed && h.commitFails && fate.Some? && Disposed(z, mid, s, y, fate.value, h))
    }

    /** extent_recycle. */
    method Recycle(s: State, expand: Option<int>, size: nat, alignment: nat, commit: bool, h: Hooks)
      returns (r: Option<int>, ghost src: Option<int>, ghost fate: Option<Fate>)
      requires Valid() && IsCache(s) && 0 < size < MAX_PAGES && 0 < alignment <= MAX_PAGES
      requires expand.Some? ==> expand.value in extents && extents[expand.value].state == Active && alignment == 1
      modifies this`extents, this`emap, dirty, muzzy, retained
      ensures Valid() && Recycled(old(extents), s, expand, size, alignment, commit, h, src, extents, r, fate)
      ensures fate.Some? && fate.value.Unmapped? ==>
                PagesRemoved(old(extents), extents, fate.value.lo, fate.value.hi)
      ensures fate.None? || fate.value.Kept? ==> SamePages(old(extents), extents)
      ensures r.Some? ==> src.Some? && HandedOut(old(extents), s, src.value, size, alignment, commit, extents, r.value)
    {
      hide Named, Covered, Eset.Valid, Cached, Caches, Gap, CutInto, Coalesced, Chosen, Spared, Recorded, HandedOut;
      ghost var x := extents;
      fate := None;
      r, src := Carve(s, expand, size, alignment);
      if r.None? {
        return;
      }
      MiddleOfCut(x, src.value, Gap(src.value, alignment), size, s);
      var failed := CommitZero(r.value, commit, h);
      if failed {
        ghost var f := Record(s, r.value, h);
        r, fate := None, Some(f);
      } else {
        RecycledHandsOut(x, s, src.value, size, alignment, commit, extents, r.value);
      }
    }

    /** What a recycled extent is: aligned, of the size asked for, inside the cached extent it
        came from, with that one's serial number and flags; the rest of that one stays cached
        and nothing else changed. */
    ghost predicate HandedOut(x: Extents, s: State, src: int, size: nat, alignment: nat, commit: bool, y: Extents, b: int)
      requires alignment > 0
    {
      && src in x && x[src].state == s && b in y && 0 <= src <= b < src + alignment && b % alignment == 0
      && b + size <= x[src].Past()
      && y[b] == Edata(b, size, x[src].sn, Active, b == src && x[src].head, x[src].committed || commit, x[src].zeroed)
      && (src < b ==> src in y && y[src] == x[src].(size := b - src))
      && (b + size < x[src].Past() ==>
            && b + size in y
            && y[b + size] == Edata(b + size, x[src].Past() - b - size, x[src].sn, s, false, x[src].committed, x[src].zeroed))
      && (forall c :: c in x && c != src ==> c in y && y[c] == x[c])
      && (forall c :: c in y && !(src <= c < x[src].Past()) ==> c in x)
    }

    lemma RecycledHandsOut(x: Extents, s: State, src: int, size: nat, alignment: nat, commit: bool, y: Extents, b: int)
      requires Tiled(x) && src in x && x[src].state == s && 0 < size && 0 < alignment
      requires src >= 0 && HasRoom(ExtOf(x[src]), size, alignment) && x[src].base == src
      requires Gap(src, alignment) + size <= x[src].size
      requires b == AlignUp(src, alignment)
      requires var z := Cut(x, src, Gap(src, alignment), size, s);
               b in z && y == WithFlags(z, b, z[b].committed || commit, z[b].zeroed)
      ensures HandedOut(x, s, src, size, alignment, commit, y, b)
    {
      assert InSpace(src, x[src]);
      CutPieces(x, src, Gap(src, alignment), size, s);
      AlignedUp(src, alignment);
      hide Cut, Gap, Tiled, AlignUp, HasRoom;
    }

    lemma AlignedUp(x: nat, alignment: nat)
      requires alignment > 0
      ensures AlignUp(x, alignment) == x + Gap(x, alignment)
      ensures AlignUp(x, alignment) % alignment == 0 && x <= AlignUp(x, alignment) < x + alignment
    {
    }

    lemma MiddleOfCut(x: Extents, b: int, leadSize: nat, size: nat, t: State)
      requires b in x && 0 < size && leadSize + size <= x[b].size
      ensures var y := Cut(x, b, leadSize, size, t); b + leadSize in y && y[b + leadSize].state == Active
    {
    }

    lemma RecycleKeepsCoalesced(x: Extents, b: int, leadSize: nat, size: nat, s: State)
      requires Tiled(x) && b in x && x[b].state == s && IsCache(s) && Coalesced(x) && NoneMerging(x)
      requires 0 < size && leadSize + size <= x[b].size
      ensures Coalesced(Cut(x, b, leadSize, size, s)) && NoneMerging(Cut(x, b, leadSize, size, s))
    {
      var y := Cut(x, b, leadSize, size, s);
      if reliableMerge {
        if s != Dirty { CutSettled(x, b, leadSize, size, s); }
        if s != Muzzy { CutUntouched(x, b, leadSize, size, s, Muzzy); UntouchedKeeps(x, y, Muzzy); }
        if s != Retained { CutUntouched(x, b, leadSize, size, s, Retained); UntouchedKeeps(x, y, Retained); }
      }
    }

    /** extent_alloc_wrapper: memory the system handed out, registered as a new extent.
        What the system hands out is not mapped already. */
    method AllocWrapper(base: nat, size: nat, head: bool, committed: bool, zeroed: bool)
      requires Valid() && FreeRange(extents, base, size)
      requires 0 < base && 0 < size && base + size <= MAX_PAGES
      modifies this`extents, this`emap, this`snNext
      ensures Valid() && base !in old(extents)
      ensures extents == old(extents)[base := Edata(base, size, old(snNext), Active, head, committed, zeroed)]
      ensures snNext == old(snNext) + 1
      ensures PagesAdded(old(extents), extents, base, base + size)
    {
      hide Named, Covered, Eset.Valid, Cached;
      var e := Edata(base, size, snNext, Active, head, committed, zeroed);
      snNext := snNext + 1;
      RegisterOk(extents, emap, e);
      RegisterPages(extents, e);
      ArrivingTouchesNoCache(extents, e);
      emap := RegisterMap(emap, e);
      extents := extents[base := e];
    }

    lemma ArrivingTouchesNoCache(x: Extents, e: Edata)
      requires e.base !in x && e.state == Active
      ensures forall t :: IsCache(t) ==> Cached(x[e.base := e], t) == Cached(x, t)
      ensures Coalesced(x) ==> Coalesced(x[e.base := e])
    {
      forall t | IsCache(t)
        ensures Cached(x[e.base := e], t) == Cached(x, t)
        ensures Settled(x, t) ==> Settled(x[e.base := e], t)
      {
        UntouchedKeeps(x, x[e.base := e], t);
      }
    }

    /** A piece, if there is one, is stored as retained. */
    ghost predicate Leaves(x: Extents, b: Option<int>, y: Extents) {
      if b.None? then y == x else exists d :: Stored(x, b.value, Retained, y, d)
    }

    /** A new mapping, cut into lead, middle and trail of which the outer two are stored as
        retained. */
    ghost predicate CutsOut(x: Extents, sn: nat, size: nat, alignment: nat, base: nat, allocSize: nat,
                            committed: bool, zeroed: bool, y: Extents)
      requires 0 < size && 0 < alignment && size + alignment - 1 <= allocSize
    {
      var gap := Gap(base, alignment);
      var w := x[base := Edata(base, allocSize, sn, Active, true, committed, zeroed)];
      BothLeave(Cut(w, base, gap, size, Active), if gap == 0 then None else Some(base),
                if gap + size == allocSize then None else Some(base + gap + size), y)
    }

    ghost predicate BothLeave(x: Extents, lead: Option<int>, trail: Option<int>, y: Extents) {
      exists z :: Leaves(x, lead, z) && Leaves(z, trail, y)
    }

    /** The middle is handed out, committed if asked for, or stored as retained as well. */
    ghost predicate Grows(x: Extents, sn: nat, size: nat, alignment: nat, base: nat, allocSize: nat,
                          committed: bool, zeroed: bool, commit: bool, h: Hooks, y: Extents, r: Option<int>)
      requires 0 < size && 0 < alignment && size + alignment - 1 <= allocSize
    {
      var middle := AlignUp(base, alignment);
      exists z: Extents ::
        && CutsOut(x, sn, size, alignment, base, allocSize, committed, zeroed, z) && middle in z
        && if r.Some? then r.value == middle && y == WithFlags(z, middle, z[middle].committed || commit, z[middle].zeroed)
           else commit && !committed && h.commitFails && Leaves(z, Some(middle), y)
    }

    /** Dirty and muzzy extents are the same before and after. */
    ghost predicate DecayingStay(x: Extents, y: Extents) { Untouched(x, y, Dirty) && Untouched(x, y, Muzzy) }

    lemma StayChain(x: Extents, y: Extents, z: Extents)
      requires DecayingStay(x, y) && DecayingStay(y, z)
      ensures DecayingStay(x, z)
    {
    }

    /** The mapping and the cut of extent_grow_retained: a new mapping large enough for any
        alignment, from which the request is cut; what is left over is recorded as retained. */
    method GrowAndCut(size: nat, alignment: nat, base: nat, allocSize: nat, committed: bool, zeroed: bool)
      returns (middle: int)
      requires Valid() && 0 < size && 0 < alignment && size + alignment - 1 <= allocSize
      requires FreeRange(extents, base, allocSize) && 0 < base && base + allocSize <= MAX_PAGES
      modifies this`extents, this`emap, this`snNext, dirty, muzzy, retained
      ensures Valid()
      ensures middle == AlignUp(base, alignment) && middle % alignment == 0 && base <= middle < base + alignment
      ensures Grown(extents, base, allocSize, Edata(middle, size, old(snNext), Active, middle == base, committed, zeroed))
      ensures ActiveKept(old(extents), extents, {})
      ensures PagesAdded(old(extents), extents, base, base + allocSize)
      ensures CutsOut(old(extents), old(snNext), size, alignment, base, allocSize, committed, zeroed, extents)
      ensures DecayingStay(old(extents), extents) && snNext == old(snNext) + 1
    {
      hide Named, Tiled, Covered, Eset.Valid, Cached, Caches, Gap, CutInto, Coalesced, DecayingStay, Leaves;
      AllocWrapper(base, allocSize, true, committed, zeroed);
      assert InSpace(base, extents[base]);
      CutActive(extents, base, Gap(base, alignment), size);
      AlignedUp(base, alignment);
      CutCoalesced(extents, base, Gap(base, alignment), size);
      LargeHasRoom(ExtOf(extents[base]), size, alignment);
      ghost var w := extents;
      var r := SplitInterior(base, size, alignment);
      middle := r.middle;
      ghost var x := extents;
      CutKeepsActive(w, base, Gap(base, alignment), size);
      KeptChain(old(extents), w, x, {}, {base});
      DecayingStayCut(old(extents), w, base, Gap(base, alignment), size);
      LeavesNothing(x);
      assert {} + {base} == {base} && {base} + {base} == {base};
      if r.lead.Some? {
        RecordRetained(r.lead.value);
        KeptChain(old(extents), x, extents, {base}, {base});
        StayChain(old(extents), x, extents);
      }
      ghost var y := extents;
      LeavesNothing(y);
      if r.trail.Some? {
        RecordRetained(r.trail.value);
        KeptChain(old(extents), y, extents, {base}, {r.trail.value});
        StayChain(old(extents), y, extents);
        LeadStays(y, extents, base, middle);
      }
      NotThereBefore(old(extents), extents, base, allocSize,
                     if r.trail.Some? then {base} + {r.trail.value} else {base});
    }

    /** extent_grow_retained: the middle of a new mapping is handed out, committed if that is
        asked for; when the hook refuses to commit it, all of the mapping is retained. */
    method GrowRetained(size: nat, alignment: nat, base: nat, allocSize: nat, committed: bool, zeroed: bool, commit: bool, h: Hooks)
      returns (r: Option<int>)
      requires Valid() && 0 < size && 0 < alignment && size + alignment - 1 <= allocSize
      requires FreeRange(extents, base, allocSize) && 0 < base && base + allocSize <= MAX_PAGES
      modifies this`extents, this`emap, this`snNext, dirty, muzzy, retained
      ensures Valid() && ActiveKept(old(extents), extents, {})
      ensures r.Some? ==> r.value == AlignUp(base, alignment) && r.value % alignment == 0 && base <= r.value < base + alignment
      ensures r.Some? ==>
                Grown(extents, base, allocSize,
                      Edata(r.value, size, old(snNext), Active, r.value == base, committed || commit, zeroed))
      ensures r.None? <==> commit && !committed && h.commitFails
      ensures r.None? ==> RetainedPages(extents, base, base + allocSize)
      ensures PagesAdded(old(extents), extents, base, base + allocSize)
      ensures Grows(old(extents), old(snNext), size, alignment, base, allocSize, committed, zeroed, commit, h, extents, r)
      ensures DecayingStay(old(extents), extents) && snNext == old(snNext) + 1
    {
      hide Named, Covered, Eset.Valid, Cached, Caches, Gap, Coalesced, RetainedAt, CutsOut, Leaves, DecayingStay;
      var middle := GrowAndCut(size, alignment, base, allocSize, committed, zeroed);
      ghost var x := extents;
      var failed := CommitZero(middle, commit, h);
      if failed {
        assert InSpace(middle, extents[middle]);
        RecordRetained(middle);
        KeptChain(old(extents), x, extents, {}, {middle});
        assert {} + {middle} == {middle};
        NotThereBefore(old(extents), extents, base, allocSize, {middle});
        StayChain(old(extents), x, extents);
        LeadStays(x, extents, base, middle);
        LeadStays(x, extents, middle + size, base + allocSize);
        r := None;
      } else {
        FlagsKeepGrown(x, base, allocSize, middle, extents[middle].committed, extents[middle].zeroed);
        KeptChain(old(extents), x, extents, {}, {middle});
        assert {} + {middle} == {middle};
        NotThereBefore(old(extents), extents, base, allocSize, {middle});
        StayChain(old(extents), x, extents);
        r := Some(middle);
      }
    }

    lemma FlagsKeepGrown(x: Extents, base: int, allocSize: int, middle: int, committed: bool, zeroed: bool)
      requires middle in x && x[middle].base == middle && x[middle].state == Active && Grown(x, base, allocSize, x[middle])
      ensures var y := WithFlags(x, middle, committed, zeroed);
              Grown(y, base, allocSize, y[middle]) && ActiveKept(x, y, {middle}) && DecayingStay(x, y)
    {
      var y := WithFlags(x, middle, committed, zeroed);
      forall p | RetainedAt(x, p) ensures RetainedAt(y, p) {
        var b :| b in x && b <= p < x[b].Past() && x[b].state == Retained;
        assert b in y && y[b] == x[b];
      }
    }

    lemma KeptChain(x: Extents, y: Extents, z: Extents, m: set<int>, n: set<int>)
      requires ActiveKept(x, y, m) && ActiveKept(y, z, n)
      ensures ActiveKept(x, z, m + n)
    {
    }

    /** What was named in a new mapping was no extent before. */
    lemma NotThereBefore(x: Extents, y: Extents, base: nat, size: nat, named: set<int>)
      requires Tiled(x) && FreeRange(x, base, size) && ActiveKept(x, y, named)
      requires forall b :: b in named ==> base <= b < base + size
      ensures ActiveKept(x, y, {})
    {
      assert forall b :: b in x ==> InSpace(b, x[b]) && x[b].base == b;
    }

    /** extent_record of a piece in the retained cache: its pages become retained, and pages
        that were stay so. */
    method RecordRetained(b: int)
      requires Valid() && b in extents && extents[b].state == Active
      modifies this`extents, this`emap, dirty, muzzy, retained
      ensures Valid() && SamePages(old(extents), extents) && ActiveKept(old(extents), extents, {b})
      ensures RetainedPages(extents, b, old(extents)[b].Past())
      ensures StaysRetained(old(extents), extents)
      ensures Leaves(old(extents), Some(b), extents) && DecayingStay(old(extents), extents)
    {
      hide Named, Eset.Valid, Covered, Cached, Caches, Coalesced, Stored, Spared, DecayingStay;
      ghost var x := extents;
      ghost var fate := Record(Retained, b, Hooks(true, true, true, true));
      SparedKeepsActive(x, extents, b, fate.base);
      SparedStaysRetained(x, extents, b, fate.base);
      SparedStay(x, extents, b, fate.base);
    }

    lemma SparedStay(x: Extents, y: Extents, b0: int, b: int)
      requires b0 in x && x[b0].state == Active && b in y && y[b].state == Retained
      requires Spared(x, y, b0, Retained, Some(b))
      ensures DecayingStay(x, y)
    {
    }

    lemma LeavesNothing(x: Extents)
      ensures Leaves(x, None, x)
    {
    }

    lemma DecayingStayCut(x: Extents, w: Extents, b: int, leadSize: nat, size: nat)
      requires Tiled(w) && b in w && w[b].state == Active && 0 < size && leadSize + size <= w[b].size
      requires b !in x && w == x[b := w[b]]
      ensures DecayingStay(x, Cut(w, b, leadSize, size, Active))
    {
      CutUntouched(w, b, leadSize, size, Active, Dirty);
      CutUntouched(w, b, leadSize, size, Active, Muzzy);
      hide CutInto;
      StayChain(x, w, Cut(w, b, leadSize, size, Active));
    }

    lemma SparedKeepsActive(x: Extents, y: Extents, b0: int, b: int)
      requires Spared(x, y, b0, Retained, Some(b))
      ensures ActiveKept(x, y, {b0})
    {
    }

    lemma SparedStaysRetained(x: Extents, y: Extents, b0: int, b: int)
      requires Spared(x, y, b0, Retained, Some(b)) && Tiled(x) && SamePages(x, y) && b in y && y[b].state == Retained
      requires b0 in x && b <= b0 && x[b0].Past() <= y[b].Past()
      ensures StaysRetained(x, y) && RetainedPages(y, b0, x[b0].Past())
    {
      forall p | RetainedAt(x, p) ensures RetainedAt(y, p) {
        var c :| c in x && c <= p < x[c].Past() && x[c].state == Retained;
        assert Covered(x, p);
        var d :| d in y && d <= p < y[d].Past();
        if d != b {
          assert d in x && y[d] == x[d];
          assert d != c ==> Separate(x[d], x[c]);
        }
      }
      forall p | b0 <= p < x[b0].Past() ensures RetainedAt(y, p) {
        assert b in y;
      }
    }

    lemma LeadStays(x: Extents, y: Extents, lo: int, hi: int)
      requires StaysRetained(x, y)
      ensures RetainedPages(x, lo, hi) ==> RetainedPages(y, lo, hi)
    {
    }

    /** All pieces of a cut that leaves lead and trail active are active. */
    lemma CutActive(x: Extents, b: int, leadSize: nat, size: nat)
      requires b in x && InSpace(b, x[b]) && x[b].state == Active && 0 < size && leadSize + size <= x[b].size
      ensures var y := Cut(x, b, leadSize, size, Active);
              && b + leadSize in y
              && y[b + leadSize] == Edata(b + leadSize, size, x[b].sn, Active, leadSize == 0 && x[b].head, x[b].committed, x[b].zeroed)
              && (leadSize > 0 ==> b in y && y[b].state == Active && y[b].Past() == b + leadSize)
              && (leadSize + size < x[b].size ==>
                    && b + leadSize + size in y && y[b + leadSize + size].state == Active
                    && y[b + leadSize + size].Past() == x[b].Past())
    {
    }

    /** A cut of an active extent touches no cache. */
    lemma CutCoalesced(x: Extents, b: int, leadSize: nat, size: nat)
      requires Tiled(x) && b in x && x[b].state == Active && 0 < size && leadSize + size <= x[b].size
      requires NoneMerging(x) && Coalesced(x)
      ensures var y := Cut(x, b, leadSize, size, Active); NoneMerging(y) && Coalesced(y)
    {
      hide Tiled, Settled, Untouched;
      var y := Cut(x, b, leadSize, size, Active);
      CutUntouched(x, b, leadSize, size, Active, Muzzy);
      CutUntouched(x, b, leadSize, size, Active, Retained);
      UntouchedKeeps(x, y, Muzzy);
      UntouchedKeeps(x, y, Retained);
    }

    /** A cut of an active extent leaves the other active ones. */
    lemma CutKeepsActive(x: Extents, b: int, leadSize: nat, size: nat)
      requires Tiled(x) && b in x && 0 < size && leadSize + size <= x[b].size
      ensures ActiveKept(x, Cut(x, b, leadSize, size, Active), {b})
    {
      assert forall c :: c in x && c != b ==> Separate(x[c], x[b]);
    }

    /** The extent at the front of the eviction queue. */
    method LruHead(s: State) returns (b: int)
      requires Valid() && IsCache(s) && EsetOf(s).lru != []
      ensures b in extents && extents[b].state == s && ExtOf(extents[b]) == EsetOf(s).lru[0] && b == EsetOf(s).lru[0].base
    {
      var e := EsetOf(s).lru[0];
      CachedAt(extents, s, e);
      b := e.base;
    }

    /** extent_try_delayed_coalesce, on an extent just taken out of the dirty cache: merged
        with one neighbour it goes back, otherwise it stays out. */
    method TryDelayedCoalesce(s: State, b0: int) returns (b: int, coalesced: bool)
      requires Valid() && IsCache(s) && DelayCoalesce(s) && b0 in extents && extents[b0].state == Active
      modifies this`extents, this`emap, EsetOf(s)
      ensures Valid() && SamePages(old(extents), extents) && b in extents
      ensures coalesced ==>
                && |extents| < |old(extents)| && Recorded(old(extents), b0, extents, b, s)
                && Rejoined(old(extents), old(EsetOf(s).lru), b0, extents, EsetOf(s).lru, b, s)
      ensures !coalesced ==>
                && extents == old(extents) && b == b0 && (reliableMerge ==> Isolated(extents, b, s))
                && (reliableMerge ==> EsetOf(s).lru == old(EsetOf(s).lru))
    {
      hide Named, Tiled, Covered, Cached, Caches, Eset.Valid, Settled, AbsorbedOne, IsUnion;
      ghost var x, q := extents, EsetOf(s).lru;
      b, coalesced := TryCoalesce(s, b0);
      TookKeeps(x, b0, extents, b, s);
      if coalesced {
        ghost var z, r := extents, EsetOf(s).lru;
        Store(s, x, b0, b);
        RejoinedIs(x, q, b0, z, r, extents, EsetOf(s).lru, b, s);
      } else {
        StillCoalesced(x, extents, s);
      }
    }

    /** The extent b0 absorbed one neighbour and went back to the end of the queue. */
    ghost predicate Rejoined(x: Extents, q: seq<Ext>, b0: int, y: Extents, r: seq<Ext>, b: int, s: State)
      requires b0 in x
    {
      && b in y && y[b].state == s && r != [] && r[|r| - 1] == ExtOf(y[b])
      && AbsorbedOne(x, q, b0, WithState(y, b, Active), r[..|r| - 1], b, s)
    }

    lemma RejoinedIs(x: Extents, q: seq<Ext>, b0: int, z: Extents, p: seq<Ext>, y: Extents, r: seq<Ext>, b: int, s: State)
      requires b0 in x && AbsorbedOne(x, q, b0, z, p, b, s) && b in z && z[b].state == Active
      requires y == WithState(z, b, s) && r == p + [ExtOf(y[b])]
      ensures Rejoined(x, q, b0, y, r, b, s)
    {
      BackToActive(z, b, s);
      assert r[..|r| - 1] == p;
    }

    /** Apart from the extent that left, only extents of state s differ. */
    ghost predicate OnlyWithin(x: Extents, y: Extents, s: State, left: Option<int>) {
      && (forall c {:trigger x[c]} :: c in x && x[c].state != s ==> c in y && y[c] == x[c] && left != Some(c))
      && (forall c {:trigger y[c]} :: c in y && left != Some(c) && y[c].state != s ==> c in x && y[c] == x[c])
    }

    lemma ActivatedWithin(w: Extents, x: Extents, b: int, s: State)
      requires OnlyWithin(w, x, s, None) && b in x && x[b].state == s
      ensures OnlyWithin(w, WithState(x, b, Active), s, Some(b))
    {
    }

    lemma RecordedWithin(w: Extents, x: Extents, b0: int, y: Extents, b: int, s: State)
      requires OnlyWithin(w, x, s, Some(b0)) && Recorded(x, b0, y, b, s)
      ensures OnlyWithin(w, y, s, None)
    {
      var z := WithState(y, b, Active);
      assert forall c :: c in y ==> c in z && (c != b ==> z[c] == y[c]);
    }

    lemma ActivatedIsolated(x: Extents, b: int, s: State)
      requires b in x && x[b].state == s && IsCache(s) && Coalesced(x) && NoneMerging(x)
      ensures var y := WithState(x, b, Active);
              Coalesced(y) && NoneMerging(y) && (reliableMerge && s != Dirty ==> Isolated(y, b, s))
    {
    }

    /** The loop of ecache_evict: the least recently used extent is taken out; if its cache
        delays coalescing, it is merged with one neighbour and put back until it has none. */
    method EvictLru(s: State, npagesMin: nat) returns (r: Option<int>, ghost turns: seq<Turn>)
      requires Valid() && IsCache(s)
      modifies this`extents, this`emap, EsetOf(s)
      ensures Valid() && SamePages(old(extents), extents) && OnlyWithin(old(extents), extents, s, r)
      ensures Turning(turns, s, npagesMin) && turns[0] == Turn(old(extents), old(EsetOf(s).lru))
      ensures var t := turns[|turns| - 1];
              if r.None? then (t.queue == [] || TotalPages(t.queue) <= npagesMin) && t == Turn(extents, EsetOf(s).lru)
              else
                && HasHead(t, s, npagesMin) && r.value == t.queue[0].base && extents == WithState(t.extents, r.value, Active)
                && (reliableMerge ==> Isolated(extents, r.value, s))
                && (reliableMerge || !DelayCoalesce(s) ==> EsetOf(s).lru == t.queue[1..])
    {
      hide Named, Tiled, Covered, Cached, Caches, Eset.Valid, Coalesced, NoneMerging, Took, Isolated, Untouched, Settled,
        OnlyWithin, Rejoined, TotalPages;
      assert OnlyWithin(extents, extents, s, None) by { SameWithin(extents, s); }
      turns := [Turn(extents, EsetOf(s).lru)];
      while true
        invariant Valid() && SamePages(old(extents), extents)
        invariant OnlyWithin(old(extents), extents, s, None)
        invariant Turning(turns, s, npagesMin) && turns[0] == Turn(old(extents), old(EsetOf(s).lru))
        invariant turns[|turns| - 1] == Turn(extents, EsetOf(s).lru)
        decreases |extents|
      {
        QueueLists(s);
        if EsetOf(s).lru == [] || EsetOf(s).npages <= npagesMin {
          return None, turns;
        }
        ghost var t := Turn(extents, EsetOf(s).lru);
        var b := LruHead(s);
        ActivatedIsolated(extents, b, s);
        ActivatedWithin(old(extents), extents, b, s);
        Activate(s, b);
        if !DelayCoalesce(s) {
          return Some(b), turns;
        }
        var coalesced;
        ghost var x, b0 := extents, b;
        b, coalesced := TryDelayedCoalesce(s, b);
        if !coalesced {
          return Some(b), turns;
        }
        RecordedWithin(old(extents), x, b0, extents, b, s);
        assert GoesRound(t, Turn(extents, EsetOf(s).lru), s, npagesMin);
        turns := turns + [Turn(extents, EsetOf(s).lru)];
      }
    }

    /** The cache is large enough for its head to be evicted. */
    ghost predicate HasHead(t: Turn, s: State, npagesMin: nat) {
      && t.queue != [] && TotalPages(t.queue) > npagesMin
      && var b := t.queue[0].base;
         b in t.extents && t.extents[b].state == s && ExtOf(t.extents[b]) == t.queue[0]
    }

    /** The head of the queue was merged with a neighbour and went back to its end. */
    ghost predicate GoesRound(t: Turn, u: Turn, s: State, npagesMin: nat) {
      && HasHead(t, s, npagesMin)
      && var b := t.queue[0].base;
         exists d :: Rejoined(WithState(t.extents, b, Active), t.queue[1..], b, u.extents, u.queue, d, s)
    }

    ghost predicate Turning(turns: seq<Turn>, s: State, npagesMin: nat) {
      && turns != [] && (!DelayCoalesce(s) ==> |turns| == 1)
      && forall i :: 0 <= i < |turns| - 1 ==> GoesRound(turns[i], turns[i + 1], s, npagesMin)
    }

    /** What an eviction does: heads of the queue go round until one has no neighbour to merge
        with, and leaves; none leaves once the cache is empty or small enough. */
    ghost predicate Evicted(x: Extents, s: State, npagesMin: nat, turns: seq<Turn>, y: Extents, rest: seq<Ext>,
                            r: Option<int>)
    {
      && Turning(turns, s, npagesMin) && turns[0].extents == x
      && Listed(turns[0].queue, Cached(x, s)) && Listed(rest, Cached(y, s))
      && (s != Retained ==> OnlyWithin(x, y, s, r))
      && var t := turns[|turns| - 1];
         if r.None? then (rest == [] || TotalPages(rest) <= npagesMin) && t == Turn(y, rest)
         else
           && HasHead(t, s, npagesMin) && r.value == t.queue[0].base
           && y == (if s == Retained then t.extents - {r.value} else WithState(t.extents, r.value, Active))
           && (s != Retained && reliableMerge ==> Isolated(y, r.value, s))
           && (reliableMerge || !DelayCoalesce(s) ==> rest == t.queue[1..])
    }

    /** ecache_evict: an extent leaves the cache.  A retained one also leaves the page map. */
    method Evict(s: State, npagesMin: nat) returns (r: Option<int>, ghost turns: seq<Turn>)
      requires Valid() && IsCache(s)
      modifies this`extents, this`emap, EsetOf(s)
      ensures Valid() && Evicted(old(extents), s, npagesMin, turns, extents, EsetOf(s).lru, r)
      ensures turns[0].queue == old(EsetOf(s).lru)
      ensures r.None? || s != Retained ==> SamePages(old(extents), extents)
      ensures r.Some? && s == Retained ==>
                && r.value in old(extents)
                && PagesRemoved(old(extents), extents, r.value, old(extents)[r.value].Past())
      ensures r.None? ==> EsetOf(s).lru == [] || EsetOf(s).npages <= npagesMin
      ensures s != Dirty ==>
                r == if old(EsetOf(s).lru) == [] || old(EsetOf(s).npages) <= npagesMin then None
                     else Some(old(EsetOf(s).lru)[0].base)
    {
      hide Named, Covered, Cached, Eset.Valid, Settled, OnlyWithin, Isolated, GoesRound, TotalPages;
      QueueLists(s);
      r, turns := EvictLru(s, npagesMin);
      ghost var z := extents;
      if r.Some? && s == Retained {
        var b := r.value;
        DeregisterOk(extents, emap, b);
        DeregisterPages(extents, b);
        LeavingTouchesNoCache(extents, b);
        emap := emap - {b, extents[b].Last()};
        extents := extents - {b};
        assert WithState(turns[0].extents, b, Active) - {b} == turns[0].extents - {b};
      }
      QueueLists(s);
    }

    lemma SameWithin(x: Extents, s: State)
      ensures OnlyWithin(x, x, s, None)
    {
    }

    lemma QueueLists(s: State)
      requires Valid() && IsCache(s)
      ensures Listed(EsetOf(s).lru, Cached(extents, s)) && TotalPages(EsetOf(s).lru) == EsetOf(s).npages
    {
    }
  }

  /** What a client may ask of the allocator.  The system picks where a mapping lands and which
      hooks refuse. */
  datatype Request =
    | Map(base: nat, size: nat, head: bool, committed: bool, zeroed: bool)
    | Grow(pages: nat, alignment: nat, base: nat, size: nat, committed: bool, zeroed: bool, commit: bool, hooks: Hooks)
    | Reuse(state: State, pages: nat, alignment: nat, commit: bool, hooks: Hooks)
    | Expand(state: State, extent: int, pages: nat, commit: bool, hooks: Hooks)
    | Split(extent: int, pages: nat)
    | Merge(extent: int, next: int)
    | SetFlags(extent: int, committed: bool, zeroed: bool)
    | Free(state: State, extent: int, hooks: Hooks)
    | Evict(state: State, npagesMin: nat)
    | Unmap(extent: int, hooks: Hooks)

  /** Pages the system gave to the allocator, and pages it took back. */
  datatype Event = Gained(lo: int, hi: int) | Lost(lo: int, hi: int)

  /** Whether a page is the allocator's after a history of gains and losses. */
  ghost predicate Owned(start: bool, history: seq<Event>, p: int) {
    if history == [] then start else
      var last := history[|history| - 1];
      if last.lo <= p < last.hi then last.Gained? else Owned(start, history[..|history| - 1], p)
  }

  predicate IsActive(x: Extents, b: int) { b in x && x[b].state == Active }

  /** A request the allocator's callers may make in its current state. */
  predicate Allowed(x: Extents, q: Request) {
    match q
    case Map(base, size, _, _, _) =>
      FreeRange(x, base, size) && 0 < base && 0 < size && base + size <= MAX_PAGES
    case Grow(pages, alignment, base, size, _, _, _, _) =>
      && FreeRange(x, base, size) && 0 < base && base + size <= MAX_PAGES
      && 0 < pages && 0 < alignment && pages + alignment - 1 <= size
    case Reuse(s, pages, alignment, _, _) => IsCache(s) && 0 < pages < MAX_PAGES && 0 < alignment <= MAX_PAGES
    case Expand(s, b, pages, _, _) => IsCache(s) && 0 < pages < MAX_PAGES && IsActive(x, b)
    case Split(b, pages) => IsActive(x, b) && 0 < pages < x[b].size
    case Merge(b, c) => IsActive(x, b) && IsActive(x, c) && x[b].Past() == c
    case SetFlags(b, _, _) => IsActive(x, b)
    case Free(s, b, _) => IsCache(s) && IsActive(x, b)
    case Evict(s, _) => IsCache(s)
    case Unmap(b, _) => IsActive(x, b)
  }

  /** A freed extent takes pages out of the allocator's hands only by going back. */
  function EventsOf(fate: Option<Fate>): seq<Event> {
    if fate.Some? && fate.value.Unmapped? then [Lost(fate.value.lo, fate.value.hi)] else []
  }

  /** The extents and the next serial number. */
  datatype Space = Space(extents: Extents, next: nat)

  /** What a request does to the extents, and which pages change hands for it. */
  ghost predicate Served(pac: Pac, q: Request, u: Space, v: Space, events: seq<Event>)
    requires Allowed(u.extents, q)
  {
    var x, y := u.extents, v.extents;
    && v.next == u.next + (if q.Map? || q.Grow? then 1 else 0)
    && match q
       case Map(base, size, head, committed, zeroed) =>
         && events == [Gained(base, base + size)] && base !in x
         && y == x[base := Edata(base, size, u.next, Active, head, committed, zeroed)]
       case Grow(pages, alignment, base, size, committed, zeroed, commit, h) =>
         && events == [Gained(base, base + size)] && ActiveKept(x, y, {}) && pac.DecayingStay(x, y)
         && exists r :: pac.Grows(x, u.next, pages, alignment, base, size, committed, zeroed, commit, h, y, r) &&
              (r.None? <==> commit && !committed && h.commitFails) &&
              if r.Some? then
                && base <= r.value < base + alignment && r.value % alignment == 0
                && Grown(y, base, size, Edata(r.value, pages, u.next, Active, r.value == base, committed || commit, zeroed))
              else RetainedPages(y, base, base + size)
       case Reuse(s, pages, alignment, commit, h) =>
         exists src, r, fate ::
           pac.Recycled(x, s, None, pages, alignment, commit, h, src, y, r, fate) && events == EventsOf(fate)
       case Expand(s, b, pages, commit, h) =>
         exists src, r, fate ::
           pac.Recycled(x, s, Some(b), pages, 1, commit, h, src, y, r, fate) && events == EventsOf(fate)
       case Split(b, pages) => events == [] && y == SplitExtents(x, b, pages)
       case Merge(b, c) => events == [] && (y == MergeExtents(x, b, c) || (y == x && !pac.reliableMerge))
       case SetFlags(b, committed, zeroed) => events == [] && y == WithFlags(x, b, committed, zeroed)
       case Free(s, b, h) =>
         exists fate :: pac.Disposed(x, b, s, y, fate, h) && events == EventsOf(Some(fate))
       case Evict(s, npagesMin) =>
         exists turns, rest, r ::
           && pac.Evicted(x, s, npagesMin, turns, y, rest, r)
           && events == if s == Retained && r.Some? && r.value in x then [Lost(r.value, x[r.value].Past())] else []
       case Unmap(b, h) =>
         exists fate :: pac.Dalloced(x, b, y, fate, h) && events == EventsOf(Some(fate))
  }

  /** A request leaves every active extent it does not name. */
  lemma ServedKeepsActive(pac: Pac, q: Request, u: Space, v: Space, events: seq<Event>)
    requires Tiled(u.extents) && Allowed(u.extents, q) && Served(pac, q, u, v, events)
    ensures ActiveKept(u.extents, v.extents, Names(q))
  {
    hide Tiled, Pac.Evicted, Pac.Disposed, Pac.Dalloced, Pac.Recycled, Pac.Grows, Grown, RetainedPages;
    var x, y := u.extents, v.extents;
    match q
    case Reuse(s, pages, alignment, commit, h) =>
      var src, r, fate :|
        pac.Recycled(x, s, None, pages, alignment, commit, h, src, y, r, fate) && events == EventsOf(fate);
      RecycledSpares(pac, x, s, None, pages, alignment, commit, h, src, y, r, fate);
    case Expand(s, b, pages, commit, h) =>
      var src, r, fate :|
        pac.Recycled(x, s, Some(b), pages, 1, commit, h, src, y, r, fate) && events == EventsOf(fate);
      RecycledSpares(pac, x, s, Some(b), pages, 1, commit, h, src, y, r, fate);
    case Split(b, pages) => SplitSpares(x, b, pages);
    case Free(s, b, h) =>
      var fate :| pac.Disposed(x, b, s, y, fate, h) && events == EventsOf(Some(fate));
      DisposedSpares(pac, x, b, s, y, fate, h);
    case Evict(s, npagesMin) =>
      var turns, rest, r :| pac.Evicted(x, s, npagesMin, turns, y, rest, r);
      EvictedSpares(pac, x, s, npagesMin, turns, y, rest, r);
    case Unmap(b, h) =>
      var fate :| pac.Dalloced(x, b, y, fate, h) && events == EventsOf(Some(fate));
      DallocedSpares(pac, x, b, y, fate, h);
    case _ =>
  }

  lemma SplitSpares(x: Extents, b: int, sizeA: nat)
    requires Tiled(x) && b in x && 0 < sizeA < x[b].size
    ensures ActiveKept(x, SplitExtents(x, b, sizeA), {b})
  {
    assert forall c :: c in x && c != b ==> Separate(x[c], x[b]);
  }

  lemma DisposedSpares(pac: Pac, x: Extents, b: int, s: State, y: Extents, fate: Fate, h: Hooks)
    requires IsCache(s) && pac.Disposed(x, b, s, y, fate, h)
    ensures ActiveKept(x, y, {b})
  {
  }

  lemma DallocedSpares(pac: Pac, x: Extents, b: int, y: Extents, fate: Fate, h: Hooks)
    requires b in x && pac.Dalloced(x, b, y, fate, h)
    ensures ActiveKept(x, y, {b})
  {
    hide Pac.Retires;
    if fate.Kept? { pac.SparedRetired(x, b, y, fate.base, h); }
  }

  lemma EvictedSpares(pac: Pac, x: Extents, s: State, npagesMin: nat, turns: seq<Turn>, y: Extents, rest: seq<Ext>,
                      r: Option<int>)
    requires IsCache(s) && pac.Evicted(x, s, npagesMin, turns, y, rest, r)
    ensures ActiveKept(x, y, {})
  {
    hide Cached, TotalPages, Pac.GoesRound;
  }

  /** A cached extent that may be broken up for so many pages: it fills a size class that holds
      them and that, where coalescing is delayed, is not too many times larger. */
  ghost predicate Fits(pac: Pac, x: Extents, s: State, c: int, pages: nat) {
    c in x && x[c].state == s && exists i: nat :: FillsClass(pac, s, x[c].size, pages, i)
  }

  ghost predicate FillsClass(pac: Pac, s: State, size: nat, pages: nat, i: nat) {
    var classes := pac.EsetOf(s).classes;
    && i < |classes.quanta| && i < |classes.bytes| && pages <= classes.quanta[i] <= size
    && (i + 1 < |classes.quanta| ==> size < classes.quanta[i + 1])
    && classes.bytes[i] < (pages * PAGE + 1) * Pow2(if s == Dirty && pac.lgMaxActiveFit != 64 then pac.lgMaxActiveFit else 63)
  }

  lemma FillsIsEligible(pac: Pac, s: State, e: Ext, pages: nat, i: nat)
    requires pac.EsetOf(s).classes.Valid() && e.size > 0
    ensures var classes := pac.EsetOf(s).classes;
            && (FillsClass(pac, s, e.size, pages, i) ==> classes.Eligible(e, pages, pac.LgMaxFit(s)))
            && (classes.Eligible(e, pages, pac.LgMaxFit(s)) && i == classes.FloorInd(e.size) ==>
                  FillsClass(pac, s, e.size, pages, i))
  {
    hide SizeClasses.TooLarge, SizeClasses.CeilInd, SizeClasses.FloorInd, Pow2;
    var classes := pac.EsetOf(s).classes;
    if i < |classes.quanta| {
      classes.TooLargeIff(i, pages, pac.LgMaxFit(s));
      classes.CeilIff(pages, i);
    }
    if FillsClass(pac, s, e.size, pages, i) { classes.FloorIs(e.size, i); }
  }

  lemma FitsIsEligible(pac: Pac, x: Extents, s: State, c: int, pages: nat)
    requires pac.EsetOf(s).classes.Valid() && c in x && x[c].state == s && x[c].size > 0
    ensures Fits(pac, x, s, c, pages) <==> pac.EsetOf(s).classes.Eligible(ExtOf(x[c]), pages, pac.LgMaxFit(s))
  {
    hide FillsClass, SizeClasses.Eligible;
    if Fits(pac, x, s, c, pages) {
      var i: nat :| FillsClass(pac, s, x[c].size, pages, i);
      FillsIsEligible(pac, s, ExtOf(x[c]), pages, i);
    } else {
      FillsIsEligible(pac, s, ExtOf(x[c]), pages, pac.EsetOf(s).classes.FloorInd(x[c].size));
    }
  }

  /** Reuse takes the oldest of the extents that fit, by serial number and then address. */
  lemma ReuseTakesOldest(pac: Pac, x: Extents, s: State, size: nat, alignment: nat, r: Option<int>, c: int)
    requires 0 < alignment && Tiled(x) && pac.Extracted(x, s, None, size, alignment, r)
    requires size + alignment - 1 < MAX_PAGES && Fits(pac, x, s, c, size + alignment - 1)
    ensures r.Some? && Fits(pac, x, s, r.value, size + alignment - 1)
    ensures x[r.value].sn < x[c].sn || (x[r.value].sn == x[c].sn && r.value <= c)
  {
    var most := size + alignment - 1;
    assert InSpace(c, x[c]);
    FitsIsEligible(pac, x, s, c, most);
    assert ExtOf(x[c]) in Cached(x, s);
    hide Fits, SizeClasses.Eligible, HasRoom, FirstAligned, Cached;
    var pool := pac.EsetOf(s).classes.EligibleExtents(Cached(x, s), most, pac.LgMaxFit(s));
    assert ExtOf(x[c]) in pool;
    assert InSpace(r.value, x[r.value]);
    FitsIsEligible(pac, x, s, r.value, most);
  }

  /** Recycling leaves every active extent. */
  lemma RecycledSpares(pac: Pac, x: Extents, s: State, expand: Option<int>, size: nat, alignment: nat, commit: bool,
                       h: Hooks, src: Option<int>, y: Extents, r: Option<int>, fate: Option<Fate>)
    requires Tiled(x) && IsCache(s) && 0 < alignment && 0 < size
    requires pac.Recycled(x, s, expand, size, alignment, commit, h, src, y, r, fate)
    ensures ActiveKept(x, y, {})
  {
    hide Chosen, Pac.Coalesces, Pac.Dalloced, Pac.Stored, SamePages, PagesRemoved, Gap;
    if src.Some? {
      var b := src.value;
      CutSpares(x, b, Gap(b, alignment), size, s);
      var z := Cut(x, b, Gap(b, alignment), size, s);
      assert ActiveKept(z, y, {AlignUp(b, alignment)});
      assert forall c :: c in x && c != b ==> Separate(x[c], x[b]);
    }
  }

  /** The active extents a request names. */
  function Names(q: Request): set<int> {
    match q
    case Split(b, _) => {b}
    case Merge(b, c) => {b, c}
    case SetFlags(b, _, _) => {b}
    case Free(_, b, _) => {b}
    case Unmap(b, _) => {b}
    case _ => {}
  }

  lemma CutSpares(x: Extents, b: int, leadSize: nat, size: nat, s: State)
    requires Tiled(x) && b in x && 0 < size && leadSize + size <= x[b].size && x[b].state == s && IsCache(s)
    ensures ActiveKept(x, Cut(x, b, leadSize, size, s), {})
  {
    assert forall c :: c in x && c != b ==> Separate(x[c], x[b]);
  }

  ghost predicate ChangesHands(x: Extents, y: Extents, events: seq<Event>) {
    && |events| <= 1
    && (events == [] ==> SamePages(x, y))
    && (events != [] && events[0].Gained? ==> PagesAdded(x, y, events[0].lo, events[0].hi))
    && (events != [] && events[0].Lost? ==> PagesRemoved(x, y, events[0].lo, events[0].hi))
  }

  /** One request: everything Valid says survives it, it does what it says and no more, and
      the pages change hands only with the system. */
  method Serve(pac: Pac, q: Request) returns (ghost events: seq<Event>)
    requires pac.Valid() && Allowed(pac.extents, q)
    modifies pac, pac.dirty, pac.muzzy, pac.retained
    ensures pac.Valid() && Served(pac, q, old(pac.Now()), pac.Now(), events)
    ensures ChangesHands(old(pac.extents), pac.extents, events)
  {
    hide Pac.Valid, SamePages, PagesAdded, PagesRemoved, FreeRange, Pac.Disposed, Pac.Dalloced, Pac.Recycled, Pac.Grows, Grown,
      RetainedPages, Pac.Evicted, ActiveKept, Pac.DecayingStay;
    events := [];
    match q {
      case Map(base, size, head, committed, zeroed) =>
        pac.AllocWrapper(base, size, head, committed, zeroed);
        events := [Gained(base, base + size)];
      case Grow(pages, alignment, base, size, committed, zeroed, commit, h) =>
        var _ := pac.GrowRetained(pages, alignment, base, size, committed, zeroed, commit, h);
        events := [Gained(base, base + size)];
      case Reuse(s, pages, alignment, commit, h) =>
        var _, _, fate := pac.Recycle(s, None, pages, alignment, commit, h);
        events := EventsOf(fate);
      case Expand(s, b, pages, commit, h) =>
        var _, _, fate := pac.Recycle(s, Some(b), pages, 1, commit, h);
        events := EventsOf(fate);
      case Split(b, pages) => pac.SplitWrapper(b, pages);
      case Merge(b, c) => var _ := pac.MergeWrapper(b, c);
      case SetFlags(b, committed, zeroed) => pac.SetFlags(b, committed, zeroed);
      case Free(s, b, h) => events := ServeFree(pac, s, b, h);
      case Evict(s, npagesMin) => events := ServeEvict(pac, s, npagesMin);
      case Unmap(b, h) => events := ServeUnmap(pac, b, h);
    }
  }

  method ServeFree(pac: Pac, s: State, b: int, h: Hooks) returns (ghost events: seq<Event>)
    requires pac.Valid() && IsCache(s) && IsActive(pac.extents, b)
    modifies pac`extents, pac`emap, pac.dirty, pac.muzzy, pac.retained
    ensures pac.Valid() && Served(pac, Free(s, b, h), old(pac.Now()), pac.Now(), events)
    ensures ChangesHands(old(pac.extents), pac.extents, events)
  {
    hide Pac.Valid, SamePages, PagesRemoved, Pac.Stored, Pac.Coalesces, Pac.Dalloced, Pac.Spared;
    ghost var fate := pac.Record(s, b, h);
    events := EventsOf(Some(fate));
  }

  method ServeEvict(pac: Pac, s: State, npagesMin: nat) returns (ghost events: seq<Event>)
    requires pac.Valid() && IsCache(s)
    modifies pac`extents, pac`emap, pac.dirty, pac.muzzy, pac.retained
    ensures pac.Valid() && Served(pac, Evict(s, npagesMin), old(pac.Now()), pac.Now(), events)
    ensures ChangesHands(old(pac.extents), pac.extents, events)
  {
    hide Pac.Valid, SamePages, PagesRemoved, Pac.Evicted;
    ghost var x := pac.extents;
    var r, turns := pac.Evict(s, npagesMin);
    assert pac.Evicted(x, s, npagesMin, turns, pac.extents, pac.EsetOf(s).lru, r);
    events := if r.Some? && s == Retained then [Lost(r.value, x[r.value].Past())] else [];
  }

  method ServeUnmap(pac: Pac, b: int, h: Hooks) returns (ghost events: seq<Event>)
    requires pac.Valid() && IsActive(pac.extents, b)
    modifies pac`extents, pac`emap, pac.dirty, pac.muzzy, pac.retained
    ensures pac.Valid() && Served(pac, Unmap(b, h), old(pac.Now()), pac.Now(), events)
    ensures ChangesHands(old(pac.extents), pac.extents, events)
  {
    hide Pac.Valid, SamePages, PagesRemoved, Pac.Retires;
    ghost var fate := pac.DallocWrapper(b, h);
    events := EventsOf(Some(fate));
  }

  // ----- whole runs

  /** The extents before each request and after the last, and the events of each request.
      A request that is not allowed is not made. */
  ghost predicate Trace(pac: Pac, requests: seq<Request>, trace: seq<Space>, events: seq<seq<Event>>) {
    && |trace| == |requests| + 1 && |events| == |requests|
    && forall i :: 0 <= i < |requests| ==> Follows(pac, requests[i], trace[i], trace[i + 1], events[i])
  }

  ghost predicate Follows(pac: Pac, q: Request, u: Space, v: Space, events: seq<Event>) {
    if Allowed(u.extents, q) then Served(pac, q, u, v, events) else v == u && events == []
  }

  ghost function History(events: seq<seq<Event>>): seq<Event> {
    if events == [] then [] else History(events[..|events| - 1]) + events[|events| - 1]
  }

  lemma OwnedGrows(start: Extents, x: Extents, y: Extents, history: seq<Event>, events: seq<Event>)
    requires forall p :: Covered(x, p) <==> Owned(Covered(start, p), history, p)
    requires ChangesHands(x, y, events)
    ensures forall p :: Covered(y, p) <==> Owned(Covered(start, p), history + events, p)
  {
    hide Covered;
    var all := history + events;
    if events == [] {
      assert all == history;
    } else {
      assert all[..|all| - 1] == history && all[|all| - 1] == events[0];
    }
  }

  /** Every run of allowed requests: extents stay disjoint, the page map stays exact, the
      caches agree with the extents, nothing mergeable stays cached, each request does what
      it says, and the extents cover exactly the pages the system gave and did not take
      back. */
  method Run(pac: Pac, requests: seq<Request>) returns (ghost trace: seq<Space>, ghost events: seq<seq<Event>>)
    requires pac.Valid()
    modifies pac, pac.dirty, pac.muzzy, pac.retained
    ensures pac.Valid() && Trace(pac, requests, trace, events)
    ensures trace[0] == old(pac.Now()) && trace[|requests|] == pac.Now()
    ensures forall p :: Covered(pac.extents, p) <==> Owned(Covered(old(pac.extents), p), History(events), p)
  {
    hide Pac.Valid, Covered, Allowed, Served, SamePages, PagesAdded, PagesRemoved;
    trace, events := [pac.Now()], [];
    for i := 0 to |requests|
      invariant pac.Valid() && |trace| == i + 1 && |events| == i
      invariant trace[0] == old(pac.Now()) && trace[i] == pac.Now()
      invariant forall j :: 0 <= j < i ==> Follows(pac, requests[j], trace[j], trace[j + 1], events[j])
      invariant forall p :: Covered(pac.extents, p) <==> Owned(Covered(old(pac.extents), p), History(events), p)
    {
      ghost var x, now := pac.extents, [];
      if Allowed(pac.extents, requests[i]) {
        now := Serve(pac, requests[i]);
        OwnedGrows(old(pac.extents), x, pac.extents, History(events), now);
      }
      assert (events + [now])[..i] == events && (now == [] ==> History(events) + now == History(events));
      trace, events := trace + [pac.Now()], events + [now];
    }
  }
}
