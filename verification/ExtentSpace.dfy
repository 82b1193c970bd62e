/** Extents and the page map as values: jemalloc/src/emap.c and the bookkeeping of
    extent_split_impl and extent_merge_impl.  An extent is known by its first page, which
    never changes while the extent lives.  Addresses and sizes are counted in pages. */
module ExtentSpace {
  import opened ExtentSet
  import opened Options

  datatype State = Active | Dirty | Muzzy | Retained | Merging

  datatype Edata = Edata(base: nat, size: nat, sn: nat, state: State,
                         head: bool, committed: bool, zeroed: bool) {
    function Past(): int { base + size }
    function Last(): int { base + size - 1 }
  }

  /** What a leaf element of the page map holds. */
  datatype Entry = Entry(owner: int, state: State, head: bool)

  type Extents = map<int, Edata>
  type PageMap = map<int, Entry>

  function EntryOf(e: Edata): Entry { Entry(e.base, e.state, e.head) }

  function ExtOf(e: Edata): Ext { Ext(e.base, e.size, e.sn) }

  ghost predicate InSpace(b: int, e: Edata) {
    e.base == b && 0 < b && 0 < e.size && e.Past() <= MAX_PAGES
  }

  ghost predicate Separate(e: Edata, f: Edata) { e.Past() <= f.base || f.Past() <= e.base }

  /** Extents lie in the address space, above the null page, and do not overlap. */
  ghost predicate Tiled(x: Extents) {
    && (forall b {:trigger x[b]} :: b in x ==> InSpace(b, x[b]))
    && (forall a, b {:trigger Separate(x[a], x[b])} :: a in x && b in x && a != b ==> Separate(x[a], x[b]))
  }

  /** The page map names an extent at its first and at its last page. */
  ghost predicate NamedAtEnds(m: PageMap, e: Edata) {
    && e.base in m && m[e.base] == EntryOf(e)
    && e.Last() in m && m[e.Last()] == EntryOf(e)
  }

  ghost predicate NamesAnEnd(x: Extents, p: int, entry: Entry) {
    entry.owner in x && (p == entry.owner || p == x[entry.owner].Last())
  }

  /** The page map names every extent at its first and last page, and nothing else. */
  ghost predicate Named(x: Extents, m: PageMap) {
    && (forall b {:trigger NamedAtEnds(m, x[b])} :: b in x ==> NamedAtEnds(m, x[b]))
    && (forall p {:trigger NamesAnEnd(x, p, m[p])} :: p in m ==> NamesAnEnd(x, p, m[p]))
  }

  ghost predicate SpaceOk(x: Extents, m: PageMap) { Tiled(x) && Named(x, m) }

  /** A page belongs to some extent. */
  ghost predicate Covered(x: Extents, p: int) {
    exists b :: b in x && b <= p < x[b].Past()
  }

  ghost predicate SamePages(x: Extents, y: Extents) {
    forall p :: Covered(x, p) <==> Covered(y, p)
  }

  ghost predicate PagesAdded(x: Extents, y: Extents, lo: int, hi: int) {
    forall p :: Covered(y, p) <==> Covered(x, p) || lo <= p < hi
  }

  ghost predicate PagesRemoved(x: Extents, y: Extents, lo: int, hi: int) {
    forall p :: Covered(y, p) <==> Covered(x, p) && !(lo <= p < hi)
  }

  predicate FreeRange(x: Extents, base: nat, size: nat) {
    forall b {:trigger x[b]} :: b in x ==> x[b].Past() <= base || base + size <= x[b].base
  }

  /** The cached extents of one state, as an extent set holds them. */
  ghost function Cached(x: Extents, s: State): set<Ext> {
    set b | b in x && x[b].state == s :: ExtOf(x[b])
  }

  lemma CachedAt(x: Extents, s: State, e: Ext)
    requires Tiled(x)
    ensures e in Cached(x, s) <==> e.base in x && x[e.base].state == s && ExtOf(x[e.base]) == e
  {
  }

  /** Distinct extents share no boundary page. */
  lemma Apart(x: Extents, a: int, b: int)
    requires Tiled(x) && a in x && b in x && a != b
    ensures a != x[b].Last() && x[a].Last() != b && x[a].Last() != x[b].Last()
  {
    assert Separate(x[a], x[b]);
  }

  // ----- emap_register_boundary and emap_deregister_boundary

  function RegisterMap(m: PageMap, e: Edata): PageMap {
    m[e.base := EntryOf(e)][e.Last() := EntryOf(e)]
  }

  lemma FreeEndsUnnamed(x: Extents, m: PageMap, e: Edata)
    requires SpaceOk(x, m) && FreeRange(x, e.base, e.size) && e.size > 0
    ensures e.base !in m && e.Last() !in m
  {
    forall p | p in m ensures p != e.base && p != e.Last() {
      assert NamesAnEnd(x, p, m[p]);
      assert Separate(x[m[p].owner], e);
    }
  }

  lemma RegisterOk(x: Extents, m: PageMap, e: Edata)
    requires SpaceOk(x, m) && FreeRange(x, e.base, e.size)
    requires 0 < e.base && 0 < e.size && e.Past() <= MAX_PAGES
    ensures e.base !in m && e.Last() !in m
    ensures SpaceOk(x[e.base := e], RegisterMap(m, e))
  {
    var y, m' := x[e.base := e], RegisterMap(m, e);
    assert e.base !in x;
    forall a, b | a in y && b in y && a != b ensures Separate(y[a], y[b]) {
      if a in x && b in x { assert Separate(x[a], x[b]); }
    }
    FreeEndsUnnamed(x, m, e);
    forall a | a in y ensures NamedAtEnds(m', y[a]) {
      if a != e.base {
        assert NamedAtEnds(m, x[a]);
        Apart(y, a, e.base);
      }
    }
    forall p | p in m' ensures NamesAnEnd(y, p, m'[p]) {
      if p in m { assert NamesAnEnd(x, p, m[p]); }
    }
  }

  lemma RegisterPages(x: Extents, e: Edata)
    requires Tiled(x) && FreeRange(x, e.base, e.size) && e.size > 0
    ensures PagesAdded(x, x[e.base := e], e.base, e.Past())
  {
    var y := x[e.base := e];
    forall p ensures Covered(y, p) <==> Covered(x, p) || e.base <= p < e.Past() {
      if Covered(y, p) { var a :| a in y && a <= p < y[a].Past(); assert a == e.base || a in x; }
      if Covered(x, p) { var a :| a in x && a <= p < x[a].Past(); assert a in y; }
      if e.base <= p < e.Past() { assert e.base in y; }
    }
  }

  lemma DeregisterOk(x: Extents, m: PageMap, b: int)
    requires SpaceOk(x, m) && b in x
    ensures SpaceOk(x - {b}, m - {b, x[b].Last()})
  {
    var y, m' := x - {b}, m - {b, x[b].Last()};
    forall a, c | a in y && c in y && a != c ensures Separate(y[a], y[c]) {
      assert Separate(x[a], x[c]);
    }
    forall a | a in y ensures NamedAtEnds(m', y[a]) {
      assert NamedAtEnds(m, x[a]);
      Apart(x, a, b);
    }
    forall p | p in m' ensures NamesAnEnd(y, p, m'[p]) {
      assert NamesAnEnd(x, p, m[p]);
    }
  }

  lemma DeregisterPages(x: Extents, b: int)
    requires Tiled(x) && b in x
    ensures PagesRemoved(x, x - {b}, b, x[b].Past())
  {
    var y := x - {b};
    forall p ensures Covered(y, p) <==> Covered(x, p) && !(b <= p < x[b].Past()) {
      if Covered(y, p) {
        var a :| a in y && a <= p < y[a].Past();
        assert a in x && Separate(x[a], x[b]);
      }
      if Covered(x, p) && !(b <= p < x[b].Past()) { var a :| a in x && a <= p < x[a].Past(); assert a in y; }
    }
  }

  // ----- emap_update_edata_state

  function WithState(x: Extents, b: int, s: State): Extents
    requires b in x
  {
    x[b := x[b].(state := s)]
  }

  /** Both boundary elements; a one-page extent has only one. */
  function Written(m: PageMap, e: Edata): PageMap {
    if e.size == 1 then m[e.base := EntryOf(e)] else m[e.base := EntryOf(e)][e.Last() := EntryOf(e)]
  }

  /** Rewriting one extent's boundary elements after changing fields other than its place. */
  lemma RewrittenOk(x: Extents, m: PageMap, e: Edata)
    requires SpaceOk(x, m) && e.base in x && e.size == x[e.base].size
    ensures SpaceOk(x[e.base := e], Written(m, e))
  {
    var b := e.base;
    var x0, m0 := x - {b}, m - {b, x[b].Last()};
    DeregisterOk(x, m, b);
    assert forall a :: a in x0 ==> Separate(x[a], x[b]);
    RegisterOk(x0, m0, e);
    assert x0[b := e] == x[b := e] && RegisterMap(m0, e) == Written(m, e);
  }

  lemma SameShapeSamePages(x: Extents, e: Edata)
    requires e.base in x && e.size == x[e.base].size && x[e.base].base == e.base
    ensures SamePages(x, x[e.base := e])
  {
    var y := x[e.base := e];
    forall p ensures Covered(x, p) <==> Covered(y, p) {
      if Covered(x, p) { var a :| a in x && a <= p < x[a].Past(); assert a in y; }
      if Covered(y, p) { var a :| a in y && a <= p < y[a].Past(); assert a in x; }
    }
  }

  lemma WithStateOk(x: Extents, m: PageMap, b: int, s: State)
    requires SpaceOk(x, m) && b in x
    ensures SpaceOk(WithState(x, b, s), Written(m, x[b].(state := s)))
    ensures SamePages(x, WithState(x, b, s))
  {
    RewrittenOk(x, m, x[b].(state := s));
    SameShapeSamePages(x, x[b].(state := s));
  }

  function WithFlags(x: Extents, b: int, committed: bool, zeroed: bool): Extents
    requires b in x
  {
    x[b := x[b].(committed := committed, zeroed := zeroed)]
  }

  /** The page map does not name the flags of an extent. */
  lemma FlagsOk(x: Extents, m: PageMap, b: int, committed: bool, zeroed: bool)
    requires SpaceOk(x, m) && b in x
    ensures SpaceOk(WithFlags(x, b, committed, zeroed), m)
    ensures SamePages(x, WithFlags(x, b, committed, zeroed))
  {
    var e := x[b].(committed := committed, zeroed := zeroed);
    assert NamedAtEnds(m, x[b]);
    assert Written(m, e) == m;
    RewrittenOk(x, m, e);
    SameShapeSamePages(x, e);
  }

  // ----- extent_split_impl

  function Lead(e: Edata, sizeA: nat): Edata { e.(size := sizeA) }

  function Trail(e: Edata, sizeA: nat): Edata
    requires sizeA < e.size
  {
    Edata(e.base + sizeA, e.size - sizeA, e.sn, e.state, false, e.committed, e.zeroed)
  }

  function SplitExtents(x: Extents, b: int, sizeA: nat): Extents
    requires b in x && 0 < sizeA < x[b].size
  {
    x[b := Lead(x[b], sizeA)][b + sizeA := Trail(x[b], sizeA)]
  }

  /** emap_split_commit: both boundary elements of lead and trail are written, even when
      the two elements of a one-page piece are the same. */
  function SplitMap(x: Extents, m: PageMap, b: int, sizeA: nat): PageMap
    requires b in x && 0 < sizeA < x[b].size
  {
    RegisterMap(RegisterMap(m, Lead(x[b], sizeA)), Trail(x[b], sizeA))
  }

  /** A split is a removal of the whole and an entry of each piece. */
  lemma SplitOk(x: Extents, m: PageMap, b: int, sizeA: nat)
    requires SpaceOk(x, m) && b in x && 0 < sizeA < x[b].size
    ensures b + sizeA !in x
    ensures SpaceOk(SplitExtents(x, b, sizeA), SplitMap(x, m, b, sizeA))
  {
    var lead, trail := Lead(x[b], sizeA), Trail(x[b], sizeA);
    var x0, m0 := x - {b}, m - {b, x[b].Last()};
    DeregisterOk(x, m, b);
    assert forall a :: a in x0 ==> Separate(x[a], x[b]);
    assert b + sizeA !in x;
    RegisterOk(x0, m0, lead);
    var x1, m1 := x0[b := lead], RegisterMap(m0, lead);
    RegisterOk(x1, m1, trail);
    assert x1[trail.base := trail] == SplitExtents(x, b, sizeA);
    assert RegisterMap(m1, trail) == SplitMap(x, m, b, sizeA);
  }

  /** Merging what a split made gives back the whole. */
  lemma SplitThenMerge(x: Extents, b: int, sizeA: nat)
    requires b in x && x[b].base == b && x[b].state == Active && 0 < sizeA < x[b].size && b + sizeA !in x
    ensures var y := SplitExtents(x, b, sizeA);
            y[b].Past() == b + sizeA && MergeExtents(y, b, b + sizeA) == x
  {
  }

  lemma SplitPages(x: Extents, b: int, sizeA: nat)
    requires Tiled(x) && b in x && 0 < sizeA < x[b].size
    ensures SamePages(x, SplitExtents(x, b, sizeA))
  {
    var y := SplitExtents(x, b, sizeA);
    assert forall a :: a in x && a != b ==> Separate(x[b], x[a]);
    forall p ensures Covered(x, p) <==> Covered(y, p) {
      if Covered(x, p) {
        var a :| a in x && a <= p < x[a].Past();
        assert a in y && b + sizeA in y;
      }
      if Covered(y, p) {
        var a :| a in y && a <= p < y[a].Past();
        assert b in x && (a != b + sizeA ==> a in x);
      }
    }
  }

  // ----- extent_merge_impl

  function Join(lo: Edata, hi: Edata): Edata {
    lo.(size := lo.size + hi.size, sn := if lo.sn < hi.sn then lo.sn else hi.sn, state := Active,
        zeroed := lo.zeroed && hi.zeroed)
  }

  function MergeExtents(x: Extents, a: int, b: int): Extents
    requires a in x && b in x
  {
    (x - {b})[a := Join(x[a], x[b])]
  }

  /** emap_merge_commit: the two inner boundary elements are cleared, then the outer two
      are written.  For a one-page extent the element just cleared is written again. */
  function MergeMap(x: Extents, m: PageMap, a: int, b: int): PageMap
    requires a in x && b in x
  {
    var entry := EntryOf(Join(x[a], x[b]));
    (m - {x[a].Last()} - {b})[a := entry][x[b].Last() := entry]
  }

  /** A merge is a removal of both parts and an entry of the whole. */
  lemma MergeOk(x: Extents, m: PageMap, a: int, b: int)
    requires SpaceOk(x, m) && a in x && b in x && x[a].Past() == b
    ensures SpaceOk(MergeExtents(x, a, b), MergeMap(x, m, a, b))
  {
    var whole := Join(x[a], x[b]);
    var x0, m0 := x - {a}, m - {a, x[a].Last()};
    DeregisterOk(x, m, a);
    var x1, m1 := x0 - {b}, m0 - {b, x[b].Last()};
    DeregisterOk(x0, m0, b);
    assert forall c :: c in x1 ==> Separate(x[c], x[a]) && Separate(x[c], x[b]);
    RegisterOk(x1, m1, whole);
    assert x1[a := whole] == MergeExtents(x, a, b);
    assert RegisterMap(m1, whole) == MergeMap(x, m, a, b);
  }

  lemma MergePages(x: Extents, a: int, b: int)
    requires Tiled(x) && a in x && b in x && x[a].Past() == b
    ensures SamePages(x, MergeExtents(x, a, b))
  {
    var y := MergeExtents(x, a, b);
    forall p ensures Covered(x, p) <==> Covered(y, p) {
      if Covered(x, p) {
        var c :| c in x && c <= p < x[c].Past();
        assert a in y && (c != b ==> c in y);
      }
      if Covered(y, p) {
        var c :| c in y && c <= p < y[c].Past();
        assert a in x && b in x && c in x;
      }
    }
  }

  // ----- neighbours

  /** The lower of two touching extents may absorb the upper one: the upper is not the
      head of a mapping, and both are committed or both are not. */
  ghost predicate Mergeable(lo: Edata, hi: Edata) {
    lo.Past() == hi.base && !hi.head && lo.committed == hi.committed
  }

  /** extent_can_acquire_neighbor read through the page map: the extent that touches
      the given one on a side, if it is cached in the given state and may be merged.
      An expanding request does not mind whether the neighbour is committed. */
  function Neighbor(x: Extents, m: PageMap, b: int, s: State, forward: bool, expanding: bool): Option<int>
    requires b in x && x[b].base == b && Named(x, m)
  {
    assert forall p :: p in m ==> NamesAnEnd(x, p, m[p]);
    var e := x[b];
    var page := if forward then e.Past() else b - 1;
    if page <= 0 || page !in m then None else
      var entry := m[page];
      var upperIsHead := if forward then entry.head else e.head;
      if upperIsHead || entry.state != s then None
      else if !expanding && e.committed != x[entry.owner].committed then None
      else Some(entry.owner)
  }

  /** The page map lookup finds exactly the mergeable neighbour. */
  lemma NeighborIs(x: Extents, m: PageMap, b: int, s: State, forward: bool)
    requires SpaceOk(x, m) && b in x
    ensures var n := Neighbor(x, m, b, s, forward, false);
            && (n.Some? ==> n.value in x && n.value != b && x[n.value].state == s
                            && if forward then Mergeable(x[b], x[n.value]) else Mergeable(x[n.value], x[b]))
            && (n.None? ==> forall c :: c in x && x[c].state == s ==>
                            if forward then !Mergeable(x[b], x[c]) else !Mergeable(x[c], x[b]))
  {
    var e := x[b];
    var page := if forward then e.Past() else b - 1;
    if page > 0 && page in m {
      var o := m[page].owner;
      assert NamesAnEnd(x, page, m[page]) && NamedAtEnds(m, x[o]);
      assert o != b;
      assert Separate(x[o], x[b]);
    }
    forall c | c in x && (if forward then Mergeable(x[b], x[c]) else Mergeable(x[c], x[b]))
      ensures page > 0 && page in m && m[page] == EntryOf(x[c])
    {
      assert NamedAtEnds(m, x[c]);
    }
  }

  /** What expanding in place finds: the cached extent that starts where this one ends. */
  lemma ExpansionIs(x: Extents, m: PageMap, b: int, s: State)
    requires SpaceOk(x, m) && b in x
    ensures var n := Neighbor(x, m, b, s, true, true);
            && (n.Some? ==> n.value in x && n.value == x[b].Past() && x[n.value].state == s && !x[n.value].head)
            && (n.None? ==> forall c :: c in x && x[c].state == s && c == x[b].Past() ==> x[c].head)
  {
    var page := x[b].Past();
    if page in m {
      var o := m[page].owner;
      assert NamesAnEnd(x, page, m[page]) && NamedAtEnds(m, x[o]);
      assert o != b;
      assert Separate(x[o], x[b]);
    }
    forall c | c in x && c == page ensures page in m && m[page] == EntryOf(x[c]) {
      assert NamedAtEnds(m, x[c]);
    }
  }

  /** No two cached extents of a state could still be merged. */
  ghost predicate Settled(x: Extents, s: State) {
    forall a, b :: a in x && b in x && x[a].state == s && x[b].state == s ==> !Mergeable(x[a], x[b])
  }
}
