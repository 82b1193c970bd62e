/** What each change to the extents does to the cached ones: which extents a cache holds,
    and whether two of them could still be merged. */
module ExtentCache {
  import opened ExtentSet
  import opened ExtentSpace

  predicate IsCache(s: State) { s == Dirty || s == Muzzy || s == Retained }

  /** No cached extent of a state could be merged with the given extent. */
  ghost predicate Isolated(x: Extents, b: int, s: State)
    requires b in x
  {
    forall c {:trigger x[c]} :: c in x && x[c].state == s ==> !Mergeable(x[b], x[c]) && !Mergeable(x[c], x[b])
  }

  lemma CachedAfterState(x: Extents, b: int, s: State, t: State)
    requires Tiled(x) && b in x
    ensures var y := WithState(x, b, s);
            && (t == s ==> Cached(y, t) == Cached(x, t) + {ExtOf(x[b])})
            && (t != s && t == x[b].state ==> Cached(y, t) == Cached(x, t) - {ExtOf(x[b])})
            && (t != s && t != x[b].state ==> Cached(y, t) == Cached(x, t))
  {
    var y := WithState(x, b, s);
    forall e ensures e in Cached(y, t) <==> e.base in x && y[e.base].state == t && ExtOf(x[e.base]) == e {
      if e.base in x && y[e.base].state == t && ExtOf(x[e.base]) == e { assert e.base in y; }
    }
    forall e ensures e in Cached(x, t) <==> e.base in x && x[e.base].state == t && ExtOf(x[e.base]) == e {
      CachedAt(x, t, e);
    }
  }

  /** The extents of a state are the same before and after. */
  ghost predicate Untouched(x: Extents, y: Extents, t: State) {
    && (forall c {:trigger x[c]} :: c in x && x[c].state == t ==> c in y && y[c] == x[c])
    && (forall c {:trigger y[c]} :: c in y && y[c].state == t ==> c in x && x[c] == y[c])
  }

  lemma UntouchedKeeps(x: Extents, y: Extents, t: State)
    requires Untouched(x, y, t)
    ensures Cached(y, t) == Cached(x, t)
    ensures Settled(x, t) ==> Settled(y, t)
  {
  }

  // ----- when nothing cached is left to merge

  /** Caching an extent that nothing can be merged with keeps a state settled. */
  lemma SettledGrows(x: Extents, b: int, s: State)
    requires Tiled(x) && b in x && Settled(x, s) && Isolated(x, b, s)
    ensures Settled(WithState(x, b, s), s)
  {
  }

  // ----- cutting a request out of an extent

  /** The extent b cut into a lead of leadSize pages, an active middle of size pages and
      a trail with the rest.  Lead and trail, where they exist, have state t. */
  function Cut(x: Extents, b: int, leadSize: nat, size: nat, t: State): Extents
    requires b in x && 0 < size && leadSize + size <= x[b].size
  {
    CutInto(x, b, leadSize, size, t, t)
  }

  function CutInto(x: Extents, b: int, leadSize: nat, size: nat, t: State, u: State): Extents
    requires b in x && 0 < size && leadSize + size <= x[b].size
  {
    var e := x[b];
    var middle := (if leadSize == 0 then e else Trail(e, leadSize)).(size := size, state := Active);
    var y := (if leadSize == 0 then x else x[b := Lead(e, leadSize).(state := t)])[b + leadSize := middle];
    if leadSize + size == e.size then y
    else y[b + leadSize + size := Trail(e, leadSize + size).(state := u)]
  }

  /** Every extent after a cut is a piece or was there before. */
  lemma CutAt(x: Extents, b: int, leadSize: nat, size: nat, t: State, c: int)
    requires b in x && 0 < size && leadSize + size <= x[b].size
    requires c in Cut(x, b, leadSize, size, t)
    ensures var e, d := x[b], Cut(x, b, leadSize, size, t)[c];
            || d.state == Active
            || (leadSize > 0 && c == b && d == Lead(e, leadSize).(state := t))
            || (leadSize + size < e.size && d == Trail(e, leadSize + size).(state := t))
            || (c != b && c in x && d == x[c])
  {
  }

  /** A piece next to a cached extent is mergeable only if the whole extent was. */
  lemma PieceOutside(e: Edata, f: Edata, leadSize: nat, size: nat, t: State)
    requires 0 < size && leadSize + size <= e.size && 0 < f.size && Separate(e, f)
    ensures leadSize > 0 ==>
              var lead := Lead(e, leadSize).(state := t);
              !Mergeable(lead, f) && (Mergeable(f, lead) ==> Mergeable(f, e))
    ensures leadSize + size < e.size ==>
              var trail := Trail(e, leadSize + size).(state := t);
              !Mergeable(f, trail) && (Mergeable(trail, f) ==> Mergeable(e, f))
  {
  }

  /** Reinserting lead and trail without coalescing leaves a settled cache settled: the
      outer neighbours were not mergeable with the whole, and the inner one is active. */
  lemma CutSettled(x: Extents, b: int, leadSize: nat, size: nat, s: State)
    requires Tiled(x) && b in x && x[b].state == s && s != Active && Settled(x, s)
    requires 0 < size && leadSize + size <= x[b].size
    ensures Settled(Cut(x, b, leadSize, size, s), s)
  {
    hide CutInto;
    var y, e := Cut(x, b, leadSize, size, s), x[b];
    forall c, d | c in y && d in y && y[c].state == s && y[d].state == s ensures !Mergeable(y[c], y[d]) {
      CutAt(x, b, leadSize, size, s, c);
      CutAt(x, b, leadSize, size, s, d);
      if c in x && c != b && y[c] == x[c] {
        assert Separate(e, x[c]);
        PieceOutside(e, x[c], leadSize, size, s);
      }
      if d in x && d != b && y[d] == x[d] {
        assert Separate(e, x[d]);
        PieceOutside(e, x[d], leadSize, size, s);
      }
    }
  }

  /** What the pieces of a cut are: they lie one behind the other, inherit serial number and
      flags, and only the lowest may be a head. */
  lemma CutPieces(x: Extents, b: int, leadSize: nat, size: nat, t: State)
    requires Tiled(x) && b in x && 0 < size && leadSize + size <= x[b].size
    ensures var y, e := Cut(x, b, leadSize, size, t), x[b];
            var mid, past := b + leadSize, b + leadSize + size;
            && mid in y && (mid in x ==> mid == b)
            && y[mid] == Edata(mid, size, e.sn, Active, leadSize == 0 && e.head, e.committed, e.zeroed)
            && (leadSize > 0 ==> b in y && y[b] == Edata(b, leadSize, e.sn, t, e.head, e.committed, e.zeroed))
            && (past < e.Past() ==>
                  past in y && y[past] == Edata(past, e.Past() - past, e.sn, t, false, e.committed, e.zeroed))
            && (forall c :: c in x && c != b ==> c in y && y[c] == x[c])
            && (forall c :: c in y && !(b <= c < e.Past()) ==> c in x)
  {
    assert InSpace(b, x[b]);
    assert forall c :: c in x && c != b ==> Separate(x[c], x[b]) && InSpace(c, x[c]);
  }

  /** The other states, and every extent but the one cut, are as before. */
  lemma CutUntouched(x: Extents, b: int, leadSize: nat, size: nat, s: State, t: State)
    requires Tiled(x) && b in x && 0 < size && leadSize + size <= x[b].size
    requires t != x[b].state && t != s && t != Active
    ensures Untouched(x, Cut(x, b, leadSize, size, s), t)
  {
    var y := Cut(x, b, leadSize, size, s);
    forall c | c in x && x[c].state == t ensures c in y && y[c] == x[c] {
      assert Separate(x[c], x[b]);
    }
    forall c | c in y && y[c].state == t ensures c in x && y[c] == x[c] {
      CutAt(x, b, leadSize, size, s, c);
    }
  }

  /** Lead and trail are active right after the cut, and move to state s one by one. */
  lemma CutLeadMoves(x: Extents, b: int, leadSize: nat, size: nat, s: State)
    requires b in x && 0 < size && leadSize + size <= x[b].size
    ensures var y := CutInto(x, b, leadSize, size, Active, Active);
            leadSize > 0 ==>
              && b in y && y[b].state == Active
              && WithState(y, b, s) == CutInto(x, b, leadSize, size, s, Active)
  {
  }

  lemma CutTrailMoves(x: Extents, b: int, leadSize: nat, size: nat, s: State)
    requires b in x && 0 < size && leadSize + size <= x[b].size
    ensures leadSize == 0 ==> CutInto(x, b, leadSize, size, s, Active) == CutInto(x, b, leadSize, size, Active, Active)
    ensures leadSize + size == x[b].size ==>
              CutInto(x, b, leadSize, size, s, Active) == CutInto(x, b, leadSize, size, s, s)
    ensures var y, c := CutInto(x, b, leadSize, size, s, Active), b + leadSize + size;
            leadSize + size < x[b].size ==>
              && c in y && y[c].state == Active
              && WithState(y, c, s) == CutInto(x, b, leadSize, size, s, s)
  {
  }

  lemma CutActivated(x: Extents, b: int, leadSize: nat, size: nat, s: State)
    requires b in x && 0 < size && leadSize + size <= x[b].size
    ensures Cut(WithState(x, b, Active), b, leadSize, size, s) == Cut(x, b, leadSize, size, s)
  {
  }

  // ----- absorbing cached neighbours

  /** An extent of x that begins inside e. */
  ghost predicate Part(x: Extents, e: Edata, c: int) { c in x && e.base <= c < e.Past() }

  /** The extent e is the union of the parts of x in it: the lowest part decides whether it
      is a head and no other is one, all agree on being committed, the least serial number
      survives, and it is zeroed if all are. */
  ghost predicate IsUnion(x: Extents, e: Edata) {
    && e.base in x && e.head == x[e.base].head
    && (forall c {:trigger x[c]} :: Part(x, e, c) ==>
          && x[c].committed == e.committed && e.sn <= x[c].sn && (e.zeroed ==> x[c].zeroed)
          && (x[c].head ==> c == e.base))
    && (exists c :: Part(x, e, c) && x[c].sn == e.sn)
    && (!e.zeroed ==> exists c :: Part(x, e, c) && !x[c].zeroed)
  }

  /** The active extent b0 grew into the active extent b by absorbing extents cached in
      state s; every other extent stayed as it was. */
  ghost predicate Took(x: Extents, b0: int, y: Extents, b: int, s: State) {
    && b0 in x && b in y && x[b0].state == Active && y[b].state == Active && y[b].base == b
    && (forall c {:trigger y[c]} :: c in y && c != b ==> c in x && y[c] == x[c] && !Part(y, y[b], c))
    && (forall c {:trigger x[c]} :: c in x && c != b0 ==>
          if Part(x, y[b], c) then x[c].state == s else c in y && y[c] == x[c])
    && b <= x[b0].base == b0 && x[b0].Past() <= y[b].Past() && b0 < y[b].Past()
    && IsUnion(x, y[b])
  }

  lemma TookTransitive(x: Extents, b0: int, y: Extents, b1: int, z: Extents, b2: int, s: State)
    requires Took(x, b0, y, b1, s) && Took(y, b1, z, b2, s)
    ensures Took(x, b0, z, b2, s)
  {
    forall c | c in z && c != b2 ensures c in x && z[c] == x[c] && !Part(z, z[b2], c) {
      assert c in y && z[c] == y[c] && c != b1;
    }
    forall c | c in x && c != b0 ensures if Part(x, z[b2], c) then x[c].state == s else c in z && z[c] == x[c] {
      if !Part(x, y[b1], c) { assert c in y && y[c] == x[c] && c != b1; }
    }
    UnionTransitive(x, b0, y, b1, z, b2, s);
  }

  /** A union of parts that are themselves unions. */
  lemma UnionTransitive(x: Extents, b0: int, y: Extents, b1: int, z: Extents, b2: int, s: State)
    requires Took(x, b0, y, b1, s) && Took(y, b1, z, b2, s)
    ensures IsUnion(x, z[b2])
  {
    var e := z[b2];
    assert forall c :: Part(x, y[b1], c) ==> Part(x, e, c);
    assert forall c :: Part(y, e, c) && c != b1 ==> Part(x, e, c) && y[c] == x[c];
    forall c | Part(x, e, c)
      ensures x[c].committed == e.committed && e.sn <= x[c].sn && (e.zeroed ==> x[c].zeroed) && (x[c].head ==> c == e.base)
    {
      if Part(x, y[b1], c) {
        assert Part(y, e, b1);
      } else {
        assert c in y && y[c] == x[c] && Part(y, e, c);
      }
    }
    var c :| Part(y, e, c) && y[c].sn == e.sn;
    if c == b1 {
      var d :| Part(x, y[b1], d) && x[d].sn == y[b1].sn;
      assert Part(x, e, d);
    }
    if !e.zeroed {
      var c :| Part(y, e, c) && !y[c].zeroed;
      if c == b1 {
        var d :| Part(x, y[b1], d) && !x[d].zeroed;
        assert Part(x, e, d);
      }
    }
  }

  /** Absorbing nothing. */
  lemma TookNothing(x: Extents, b: int, s: State)
    requires Tiled(x) && b in x && x[b].state == Active
    ensures Took(x, b, x, b, s)
  {
    assert InSpace(b, x[b]);
    assert forall c :: c in x && c != b ==> Separate(x[c], x[b]) && InSpace(c, x[c]);
    assert Part(x, x[b], b);
  }

  /** Absorbing leaves the other caches alone and only takes from its own. */
  lemma TookKeeps(x: Extents, b0: int, y: Extents, b: int, s: State)
    requires Took(x, b0, y, b, s) && IsCache(s)
    ensures forall t :: IsCache(t) && t != s ==> Untouched(x, y, t)
    ensures Settled(x, s) ==> Settled(y, s)
  {
  }
}
