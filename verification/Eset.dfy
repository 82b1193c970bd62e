/** The extent set of jemalloc/src/eset.c: cached extents indexed by size class, with a
    bitmap of non-empty classes, a cached minimum per class, an eviction queue and a page
    count.  Addresses and sizes are counted in pages. */
module ExtentSet {
  import opened Arith
  import opened Options

  /** Pages in a 64-bit address space, and bytes in a page. */
  const MAX_PAGES: nat := 0x10_0000_0000_0000
  const PAGE: nat := 4096
  const PTR_BITS: nat := 64

  datatype Ext = Ext(base: nat, size: nat, sn: nat)

  /** The order of reuse: oldest serial number first, then lowest address. */
  datatype Summary = Summary(sn: nat, addr: nat) {
    predicate Less(that: Summary) {
      sn < that.sn || (sn == that.sn && addr < that.addr)
    }
  }

  function SummaryOf(e: Ext): Summary { Summary(e.sn, e.base) }

  /** The extent can hold a request of some size at its first aligned page. */
  ghost predicate HasRoom(e: Ext, size: nat, alignment: nat)
    requires alignment > 0
  {
    AlignUp(e.base, alignment) + size <= e.base + e.size
  }

  lemma LargeHasRoom(e: Ext, size: nat, alignment: nat)
    requires alignment > 0 && size + alignment - 1 <= e.size
    ensures HasRoom(e, size, alignment)
  {
  }

  /** The test of eset_fit_alignment, where the next aligned address may wrap around. */
  predicate Accepts(e: Ext, size: nat, alignment: nat)
    requires 0 < size && 0 < alignment <= MAX_PAGES && e.base + e.size <= MAX_PAGES
    ensures Accepts(e, size, alignment) <==> HasRoom(e, size, alignment)
  {
    var nextAlign := AlignUp(e.base, alignment) % MAX_PAGES;
    e.base <= nextAlign < e.base + e.size && e.size - (nextAlign - e.base) >= size
  }

  /** Page size classes: quantized sizes in pages, strictly increasing from one page, and
      the byte size the fit limit is measured against, one entry more. */
  datatype SizeClasses = SizeClasses(quanta: seq<nat>, bytes: seq<nat>) {
    ghost predicate Valid() {
      && |quanta| > 0 && quanta[0] == 1
      && |bytes| == |quanta| + 1
      && (forall i, j :: 0 <= i < j < |quanta| ==> quanta[i] < quanta[j])
      && (forall i, j :: 0 <= i <= j < |bytes| ==> bytes[i] <= bytes[j])
    }

    /** Index of the least class that holds the size; one past the last if none does. */
    function CeilInd(size: nat): (r: nat)
      ensures r <= |quanta|
      ensures r < |quanta| ==> size <= quanta[r]
      ensures forall j :: 0 <= j < r ==> quanta[j] < size
    {
      CeilFrom(quanta, size, 0)
    }

    /** Index of the greatest class that the size fills. */
    function FloorInd(size: nat): (r: nat)
      requires Valid() && size > 0
      ensures r < |quanta| && quanta[r] <= size && (r + 1 < |quanta| ==> size < quanta[r + 1])
    {
      CeilFrom(quanta, size + 1, 0) - 1
    }

    /** A class is skipped when its size, shifted down by the fit limit, exceeds the
        request: large extents are not broken up for small requests. */
    predicate TooLarge(i: nat, size: nat, lgMaxFit: nat)
      requires i < |bytes|
    {
      bytes[i] / Pow2(if lgMaxFit == PTR_BITS then PTR_BITS - 1 else lgMaxFit) > size * PAGE
    }

    lemma TooLargeIsMonotone(i: nat, j: nat, size: nat, lgMaxFit: nat)
      requires Valid() && i <= j < |bytes| && TooLarge(i, size, lgMaxFit)
      ensures TooLarge(j, size, lgMaxFit)
    {
      var d := Pow2(if lgMaxFit == PTR_BITS then PTR_BITS - 1 else lgMaxFit);
      QuotientAbove(bytes[i], d, size * PAGE);
      QuotientAbove(bytes[j], d, size * PAGE);
    }

    lemma FloorIs(size: nat, i: nat)
      requires Valid() && size > 0 && i < |quanta| && quanta[i] <= size && (i + 1 < |quanta| ==> size < quanta[i + 1])
      ensures FloorInd(size) == i
    {
    }

    lemma CeilIff(size: nat, i: nat)
      requires Valid() && i < |quanta|
      ensures CeilInd(size) <= i <==> size <= quanta[i]
    {
    }

    lemma TooLargeIff(i: nat, size: nat, lgMaxFit: nat)
      requires i < |bytes|
      ensures TooLarge(i, size, lgMaxFit) <==>
              bytes[i] >= (size * PAGE + 1) * Pow2(if lgMaxFit == PTR_BITS then PTR_BITS - 1 else lgMaxFit)
    {
      QuotientAbove(bytes[i], Pow2(if lgMaxFit == PTR_BITS then PTR_BITS - 1 else lgMaxFit), size * PAGE);
    }

    ghost predicate FiledUnder(e: Ext, i: nat)
      requires Valid()
    {
      e.size > 0 && FloorInd(e.size) == i
    }

    /** The extents of one class. */
    ghost function Class(c: set<Ext>, i: nat): set<Ext>
      requires Valid()
    {
      set e | e in c && FiledUnder(e, i)
    }

    /** What first-fit may choose from, read off the plain set: extents of a class that
        holds the request and is not too large for it. */
    ghost predicate Eligible(e: Ext, size: nat, lgMaxFit: nat)
      requires Valid()
    {
      e.size > 0 && var i := FloorInd(e.size); CeilInd(size) <= i && !TooLarge(i, size, lgMaxFit)
    }

    ghost function EligibleExtents(c: set<Ext>, size: nat, lgMaxFit: nat): set<Ext>
      requires Valid()
    {
      set e | e in c && Eligible(e, size, lgMaxFit)
    }
  }

  /** An extent filed at or above the class of a request is large enough for it. */
  lemma FiledHighIsLarge(classes: SizeClasses, request: nat, size: nat)
    requires classes.Valid() && size > 0
    requires classes.CeilInd(request) <= classes.FloorInd(size)
    ensures request <= size
  {
  }

  function TotalPages(s: seq<Ext>): nat {
    if s == [] then 0 else s[0].size + TotalPages(s[1..])
  }

  lemma {:induction false} TotalPagesSplit(s: seq<Ext>, t: seq<Ext>)
    ensures TotalPages(s + t) == TotalPages(s) + TotalPages(t)
  {
    if s == [] {
      assert s + t == t;
    } else {
      assert (s + t)[1..] == s[1..] + t;
      TotalPagesSplit(s[1..], t);
    }
  }

  lemma TotalPagesGain(s: seq<Ext>, e: Ext)
    ensures TotalPages(s + [e]) == TotalPages(s) + e.size
  {
    TotalPagesSplit(s, [e]);
  }

  lemma TotalPagesWithout(s: seq<Ext>, i: nat)
    requires i < |s|
    ensures TotalPages(s[..i] + s[i + 1..]) + s[i].size == TotalPages(s)
  {
    var t := s[i..];
    assert s == s[..i] + t && t[1..] == s[i + 1..];
    TotalPagesSplit(s[..i], t);
    TotalPagesSplit(s[..i], s[i + 1..]);
  }

  /** A queue without one of its extents. */
  function Drop(q: seq<Ext>, e: Ext): seq<Ext> {
    if q == [] then [] else if q[0] == e then q[1..] else [q[0]] + Drop(q[1..], e)
  }

  lemma {:induction false} DropAt(q: seq<Ext>, i: nat)
    requires i < |q| && forall j :: 0 <= j < i ==> q[j] != q[i]
    ensures Drop(q, q[i]) == q[..i] + q[i + 1..]
    decreases i
  {
    if i > 0 {
      assert q[1..][i - 1] == q[i];
      DropAt(q[1..], i - 1);
      assert q[1..][..i - 1] == q[1..i] && q[1..][i..] == q[i + 1..];
    }
  }

  ghost predicate IsFirst(e: Ext, heap: set<Ext>) {
    e in heap && forall f :: f in heap ==> !SummaryOf(f).Less(SummaryOf(e))
  }

  lemma FirstExists(heap: set<Ext>) returns (e: Ext)
    requires heap != {}
    ensures IsFirst(e, heap)
  {
    e := LeastExists(heap, (x: Ext, y: Ext) => SummaryOf(x).Less(SummaryOf(y)));
  }

  /** The better of the first of one set and the first of another is the first of both. */
  ghost predicate IsBest(r: Option<Ext>, s: set<Ext>) {
    if r.None? then s == {} else IsFirst(r.value, s)
  }

  lemma BestOfUnion(r: Option<Ext>, s: set<Ext>, e: Ext, t: set<Ext>)
    requires IsBest(r, s) && IsFirst(e, t)
    ensures r.None? || SummaryOf(e).Less(SummaryOf(r.value)) ==> IsBest(Some(e), s + t)
    ensures r.Some? && !SummaryOf(e).Less(SummaryOf(r.value)) ==> IsBest(r, s + t)
  {
  }

  /** edata_heap_first. */
  method HeapFirst(heap: set<Ext>) returns (e: Ext)
    requires heap != {}
    ensures IsFirst(e, heap)
  {
    ghost var w := FirstExists(heap);
    e :| e in heap && forall f :: f in heap ==> !SummaryOf(f).Less(SummaryOf(e));
  }

  /** One size class: its heap, its bitmap bit and its cached minimum. */
  ghost predicate BinOk(heap: set<Ext>, bit: bool, min: Summary) {
    && (bit <==> heap != {})
    && forall e :: IsFirst(e, heap) ==> min == SummaryOf(e)
  }

  ghost predicate BinsOk(heaps: seq<set<Ext>>, bitmap: seq<bool>, heapMin: seq<Summary>) {
    && |heaps| == |bitmap| == |heapMin|
    && forall i :: 0 <= i < |heaps| ==> BinOk(heaps[i], bitmap[i], heapMin[i])
  }

  /** The heaps file each extent of the set under its own size class. */
  ghost predicate Filed(classes: SizeClasses, heaps: seq<set<Ext>>, contents: set<Ext>)
    requires classes.Valid() && |heaps| == |classes.quanta| + 1
    requires forall e :: e in contents ==> 0 < e.size
  {
    && (forall i, e :: 0 <= i < |heaps| && e in heaps[i] ==> e in contents && classes.FloorInd(e.size) == i)
    && (forall e :: e in contents ==> e in heaps[classes.FloorInd(e.size)])
  }

  /** The queue lists each extent of the set once. */
  ghost predicate Listed(lru: seq<Ext>, contents: set<Ext>) {
    && (forall e :: e in lru <==> e in contents)
    && (forall i, j :: 0 <= i < j < |lru| ==> lru[i] != lru[j])
  }

  ghost predicate Proper(contents: set<Ext>) {
    && (forall e :: e in contents ==> 0 < e.size && e.base + e.size <= MAX_PAGES)
    && (forall e, f :: e in contents && f in contents && e.base == f.base ==> e == f)
  }

  lemma BinGains(heap: set<Ext>, min: Summary, e: Ext)
    requires BinOk(heap, heap != {}, min)
    ensures BinOk(heap + {e}, true, if heap == {} || SummaryOf(e).Less(min) then SummaryOf(e) else min)
  {
    if heap != {} {
      var w := FirstExists(heap);
      forall x | IsFirst(x, heap + {e})
        ensures SummaryOf(x) == if SummaryOf(e).Less(min) then SummaryOf(e) else min
      {
        assert w in heap + {e} && e in heap + {e};
        if x in heap { assert IsFirst(x, heap); }
      }
    }
  }

  lemma BinLoses(heap: set<Ext>, min: Summary, e: Ext, first: Option<Ext>)
    requires BinOk(heap, true, min) && e in heap
    requires forall f, g :: f in heap && g in heap && f.base == g.base ==> f == g
    requires IsBest(first, heap - {e})
    ensures BinOk(heap - {e}, first.Some?,
                  if first.Some? && SummaryOf(e) == min then SummaryOf(first.value) else min)
  {
  }

  lemma BinsGain(heaps: seq<set<Ext>>, bitmap: seq<bool>, heapMin: seq<Summary>, i: nat, e: Ext)
    requires BinsOk(heaps, bitmap, heapMin) && i < |heaps|
    ensures var min := if heaps[i] == {} || SummaryOf(e).Less(heapMin[i]) then SummaryOf(e) else heapMin[i];
            BinsOk(heaps[i := heaps[i] + {e}], bitmap[i := true], heapMin[i := min])
  {
    assert BinOk(heaps[i], bitmap[i], heapMin[i]);
    BinGains(heaps[i], heapMin[i], e);
  }

  lemma BinsLose(heaps: seq<set<Ext>>, bitmap: seq<bool>, heapMin: seq<Summary>, i: nat, e: Ext, first: Option<Ext>)
    requires BinsOk(heaps, bitmap, heapMin) && i < |heaps| && e in heaps[i]
    requires forall f, g :: f in heaps[i] && g in heaps[i] && f.base == g.base ==> f == g
    requires IsBest(first, heaps[i] - {e})
    ensures var min := if first.Some? && SummaryOf(e) == heapMin[i] then SummaryOf(first.value) else heapMin[i];
            BinsOk(heaps[i := heaps[i] - {e}], bitmap[i := first.Some?], heapMin[i := min])
  {
    assert BinOk(heaps[i], bitmap[i], heapMin[i]);
    BinLoses(heaps[i], heapMin[i], e, first);
  }

  lemma FiledGains(classes: SizeClasses, heaps: seq<set<Ext>>, contents: set<Ext>, e: Ext)
    requires classes.Valid() && |heaps| == |classes.quanta| + 1
    requires (forall f :: f in contents ==> 0 < f.size) && 0 < e.size
    requires Filed(classes, heaps, contents)
    ensures var i := classes.FloorInd(e.size);
            Filed(classes, heaps[i := heaps[i] + {e}], contents + {e})
  {
  }

  lemma FiledLoses(classes: SizeClasses, heaps: seq<set<Ext>>, contents: set<Ext>, e: Ext)
    requires classes.Valid() && |heaps| == |classes.quanta| + 1
    requires (forall f :: f in contents ==> 0 < f.size) && 0 < e.size
    requires Filed(classes, heaps, contents)
    ensures var i := classes.FloorInd(e.size);
            Filed(classes, heaps[i := heaps[i] - {e}], contents - {e})
  {
  }

  lemma ListedLoses(lru: seq<Ext>, contents: set<Ext>, i: nat)
    requires Listed(lru, contents) && i < |lru|
    ensures Listed(lru[..i] + lru[i + 1..], contents - {lru[i]})
  {
  }

  /** No first extent of the classes in a range has room. */
  ghost predicate NoRoom(classes: SizeClasses, c: set<Ext>, lo: nat, hi: nat, size: nat, alignment: nat)
    requires classes.Valid() && alignment > 0
  {
    forall i, e {:trigger IsFirst(e, classes.Class(c, i))} ::
      lo <= i < hi && IsFirst(e, classes.Class(c, i)) ==> !HasRoom(e, size, alignment)
  }

  /** The first extent with room among the first ones of the classes in a range, by class. */
  ghost predicate FirstAligned(classes: SizeClasses, c: set<Ext>, lo: nat, hi: nat, size: nat, alignment: nat,
                               r: Option<Ext>)
    requires classes.Valid() && alignment > 0
  {
    if r.None? then NoRoom(classes, c, lo, hi, size, alignment) else
      exists i ::
        && lo <= i < hi && IsFirst(r.value, classes.Class(c, i)) && HasRoom(r.value, size, alignment)
        && NoRoom(classes, c, lo, i, size, alignment)
  }

  /** What eset_fit chooses from a plain set of extents. */
  ghost predicate Chosen(classes: SizeClasses, c: set<Ext>, size: nat, alignment: nat, exactOnly: bool, lgMaxFit: nat,
                         r: Option<Ext>)
    requires classes.Valid() && alignment > 0
  {
    var most := size + alignment - 1;
    if most >= MAX_PAGES then r.None? else
      var pool :=
        if exactOnly then classes.Class(c, classes.CeilInd(most)) else classes.EligibleExtents(c, most, lgMaxFit);
      if pool != {} then IsBest(r, pool)
      else if alignment > 1 then
        FirstAligned(classes, c, classes.CeilInd(size), classes.CeilInd(most), size, alignment, r)
      else r.None?
  }

  class Eset {
    const classes: SizeClasses
    var heaps: seq<set<Ext>>
    var bitmap: seq<bool>
    var heapMin: seq<Summary>
    var lru: seq<Ext>
    var npages: nat
    ghost var contents: set<Ext>

    /** The index structures all describe the plain set of extents. */
    ghost predicate Valid()
      reads this
    {
      && classes.Valid()
      && |heaps| == |bitmap| == |heapMin| == |classes.quanta| + 1
      && Proper(contents)
      && Filed(classes, heaps, contents)
      && BinsOk(heaps, bitmap, heapMin)
      && Listed(lru, contents)
      && npages == TotalPages(lru)
    }

    constructor (classes: SizeClasses)
      requires classes.Valid()
      ensures Valid() && contents == {} && this.classes == classes
    {
      this.classes := classes;
      heaps := seq(|classes.quanta| + 1, _ => {});
      bitmap := seq(|classes.quanta| + 1, _ => false);
      heapMin := seq(|classes.quanta| + 1, _ => Summary(0, 0));
      lru, npages, contents := [], 0, {};
    }

    /** eset_insert. */
    method Insert(e: Ext)
      requires Valid()
      requires 0 < e.size && e.base + e.size <= MAX_PAGES
      requires forall f :: f in contents ==> f.base != e.base
      modifies this
      ensures Valid() && contents == old(contents) + {e}
      ensures lru == old(lru) + [e]
    {
      hide Filed, BinsOk, TotalPages;
      var pind := classes.FloorInd(e.size);
      BinsGain(heaps, bitmap, heapMin, pind, e);
      FiledGains(classes, heaps, contents, e);
      TotalPagesGain(lru, e);
      var min := if heaps[pind] == {} || SummaryOf(e).Less(heapMin[pind]) then SummaryOf(e) else heapMin[pind];
      bitmap := bitmap[pind := true];
      heapMin := heapMin[pind := min];
      heaps := heaps[pind := heaps[pind] + {e}];
      lru := lru + [e];
      npages := npages + e.size;
      contents := contents + {e};
    }

    /** The heap part of eset_remove: the cached minimum is recomputed only when the
        removed extent compares equal to it. */
    method Unfile(e: Ext)
      requires Valid() && e in contents
      modifies this`heaps, this`bitmap, this`heapMin
      ensures |heaps| == |bitmap| == |heapMin| == |classes.quanta| + 1
      ensures Filed(classes, heaps, contents - {e}) && BinsOk(heaps, bitmap, heapMin)
    {
      hide BinsOk;
      var pind := classes.FloorInd(e.size);
      var heap, min, first := heaps[pind] - {e}, heapMin[pind], None;
      if heap != {} {
        var f := HeapFirst(heap);
        first := Some(f);
        if SummaryOf(e) == min {
          min := SummaryOf(f);
        }
      }
      BinsLose(heaps, bitmap, heapMin, pind, e, first);
      FiledLoses(classes, heaps, contents, e);
      bitmap := bitmap[pind := heap != {}];
      heapMin := heapMin[pind := min];
      heaps := heaps[pind := heap];
    }

    /** eset_remove. */
    method Remove(e: Ext)
      requires Valid() && e in contents
      modifies this
      ensures Valid() && contents == old(contents) - {e}
      ensures e.size <= old(npages)
      ensures lru == Drop(old(lru), e)
    {
      hide Filed, BinsOk, TotalPages, Drop;
      Unfile(e);
      var i :| 0 <= i < |lru| && lru[i] == e;
      TotalPagesWithout(lru, i);
      ListedLoses(lru, contents, i);
      DropAt(lru, i);
      lru := lru[..i] + lru[i + 1..];
      npages := npages - e.size;
      contents := contents - {e};
    }

    /** fb_ffs: the first set bit at or after a position, or the number of bits. */
    method FirstSetFrom(start: nat) returns (i: nat)
      requires start <= |bitmap|
      ensures start <= i <= |bitmap|
      ensures forall j :: start <= j < i ==> !bitmap[j]
      ensures i < |bitmap| ==> bitmap[i]
    {
      i := start;
      while i < |bitmap| && !bitmap[i]
        invariant start <= i <= |bitmap|
        invariant forall j :: start <= j < i ==> !bitmap[j]
      {
        i := i + 1;
      }
    }

    /** The eligible extents of the classes below i. */
    ghost function EligibleBelow(i: nat, size: nat, lgMaxFit: nat): set<Ext>
      reads this
      requires Valid()
    {
      set e | e in contents && classes.Eligible(e, size, lgMaxFit) && classes.FloorInd(e.size) < i
    }

    lemma ClassesSkipped(lo: nat, hi: nat, size: nat, lgMaxFit: nat)
      requires Valid() && lo <= hi <= |bitmap| && forall j :: lo <= j < hi ==> !bitmap[j]
      ensures EligibleBelow(hi, size, lgMaxFit) == EligibleBelow(lo, size, lgMaxFit)
    {
    }

    lemma ClassAdded(i: nat, size: nat, lgMaxFit: nat)
      requires Valid() && classes.CeilInd(size) <= i < |bitmap| && !classes.TooLarge(i, size, lgMaxFit)
      ensures EligibleBelow(i + 1, size, lgMaxFit) == EligibleBelow(i, size, lgMaxFit) + heaps[i]
    {
      HeapIsClass(i);
      hide Filed, BinsOk, Listed, SizeClasses.TooLarge, SizeClasses.CeilInd;
    }

    lemma ClassesExhausted(i: nat, size: nat, lgMaxFit: nat)
      requires Valid() && i <= |bitmap| && (i < |bitmap| ==> classes.TooLarge(i, size, lgMaxFit))
      ensures EligibleBelow(i, size, lgMaxFit) == classes.EligibleExtents(contents, size, lgMaxFit)
    {
      forall e | e in classes.EligibleExtents(contents, size, lgMaxFit) ensures e in EligibleBelow(i, size, lgMaxFit) {
        var j := classes.FloorInd(e.size);
        if i <= j { classes.TooLargeIsMonotone(i, j, size, lgMaxFit); }
      }
    }

    /** eset_first_fit without exact_only: the scan over cached minima finds what a
        linear scan over every eligible extent would. */
    method FirstFit(size: nat, lgMaxFit: nat) returns (r: Option<Ext>)
      requires Valid()
      ensures IsBest(r, classes.EligibleExtents(contents, size, lgMaxFit))
      ensures r.Some? ==> r.value in contents && size <= r.value.size
    {
      r := None;
      var pind := classes.CeilInd(size);
      var best := Summary(0, 0);
      var i := FirstSetFrom(pind);
      assert EligibleBelow(pind, size, lgMaxFit) == {};
      ClassesSkipped(pind, i, size, lgMaxFit);
      while i < |bitmap|
        invariant pind <= i <= |bitmap|
        invariant i < |bitmap| ==> bitmap[i]
        invariant IsBest(r, EligibleBelow(i, size, lgMaxFit))
        invariant r.Some? ==> best == SummaryOf(r.value)
        decreases |bitmap| - i
      {
        if classes.TooLarge(i, size, lgMaxFit) {
          break;
        }
        var e := HeapFirst(heaps[i]);
        assert BinOk(heaps[i], bitmap[i], heapMin[i]);
        ClassAdded(i, size, lgMaxFit);
        BestOfUnion(r, EligibleBelow(i, size, lgMaxFit), e, heaps[i]);
        if r.None? || heapMin[i].Less(best) {
          r, best := Some(e), heapMin[i];
        }
        var next := FirstSetFrom(i + 1);
        ClassesSkipped(i + 1, next, size, lgMaxFit);
        i := next;
      }
      ClassesExhausted(i, size, lgMaxFit);
      if r.Some? {
        FiledHighIsLarge(classes, size, r.value.size);
      }
    }

    /** eset_first_fit with exact_only: the first extent of the request's own class. */
    method FirstFitExact(size: nat) returns (r: Option<Ext>)
      requires Valid()
      ensures IsBest(r, classes.Class(contents, classes.CeilInd(size)))
      ensures r.Some? ==> r.value in contents && size <= r.value.size
    {
      HeapIsClass(classes.CeilInd(size));
      var heap := heaps[classes.CeilInd(size)];
      if heap == {} {
        return None;
      }
      var e := HeapFirst(heap);
      FiledHighIsLarge(classes, size, e.size);
      return Some(e);
    }

    /** eset_fit_alignment: tries the first extent of each class in a range. */
    method FitAlignment(minSize: nat, maxSize: nat, alignment: nat) returns (r: Option<Ext>)
      requires Valid() && 0 < minSize && 0 < alignment <= MAX_PAGES
      ensures r.Some? ==> r.value in contents && HasRoom(r.value, minSize, alignment)
      ensures FirstAligned(classes, contents, classes.CeilInd(minSize), classes.CeilInd(maxSize), minSize, alignment, r)
    {
      hide HasRoom, Accepts, BinsOk, BinOk, Filed, Listed, IsFirst, SizeClasses.CeilInd, SizeClasses.Class;
      var pind, pindMax := classes.CeilInd(minSize), classes.CeilInd(maxSize);
      var i := FirstSetFrom(pind);
      NothingFirst(pind, i);
      while i < pindMax
        invariant pind <= i <= |bitmap|
        invariant i < |bitmap| ==> bitmap[i]
        invariant NoRoom(classes, contents, pind, i, minSize, alignment)
        decreases |bitmap| - i
      {
        var e := ClassFirst(i);
        if Accepts(e, minSize, alignment) {
          return Some(e);
        }
        var next := FirstSetFrom(i + 1);
        NothingFirst(i + 1, next);
        i := next;
      }
      return None;
    }

    /** The heap of a class holds exactly its extents. */
    lemma HeapIsClass(i: nat)
      requires Valid() && i < |heaps|
      ensures heaps[i] == classes.Class(contents, i)
    {
    }

    lemma NothingFirst(lo: nat, hi: nat)
      requires Valid() && lo <= hi <= |bitmap| && forall j :: lo <= j < hi ==> !bitmap[j]
      ensures forall j, e :: lo <= j < hi ==> !IsFirst(e, classes.Class(contents, j))
    {
      forall j | lo <= j < hi ensures classes.Class(contents, j) == {} {
        HeapIsClass(j);
        assert BinOk(heaps[j], bitmap[j], heapMin[j]);
      }
    }

    /** The only first extent of a class that has any. */
    method ClassFirst(i: nat) returns (e: Ext)
      requires Valid() && i < |bitmap| && bitmap[i]
      ensures e in contents && IsFirst(e, classes.Class(contents, i))
      ensures forall f :: IsFirst(f, classes.Class(contents, i)) ==> f == e
    {
      assert BinOk(heaps[i], bitmap[i], heapMin[i]);
      HeapIsClass(i);
      e := HeapFirst(heaps[i]);
    }

    lemma Wraps(size: nat, alignment: nat)
      requires 0 < size < MAX_PAGES && 0 < alignment <= MAX_PAGES
      ensures var most := size + alignment - 1;
              if most < MAX_PAGES then most % MAX_PAGES == most else most % MAX_PAGES < size
    {
    }

    /** eset_fit: what it chooses is determined by the plain set, and has room for the aligned
        request. */
    method Fit(size: nat, alignment: nat, exactOnly: bool, lgMaxFit: nat) returns (r: Option<Ext>)
      requires Valid() && 0 < size < MAX_PAGES && 0 < alignment <= MAX_PAGES
      ensures r.Some? ==> r.value in contents && HasRoom(r.value, size, alignment)
      ensures Chosen(classes, contents, size, alignment, exactOnly, lgMaxFit, r)
    {
      hide Filed, BinsOk, Listed, Proper, Gap, HasRoom, FirstAligned, SizeClasses.Class,
        SizeClasses.EligibleExtents, SizeClasses.CeilInd;
      var maxSize := (size + alignment - 1) % MAX_PAGES;
      Wraps(size, alignment);
      if maxSize < size {
        return None;
      }
      if exactOnly {
        r := FirstFitExact(maxSize);
      } else {
        r := FirstFit(maxSize, lgMaxFit);
      }
      if r.Some? {
        LargeHasRoom(r.value, size, alignment);
      } else if alignment > 1 {
        r := FitAlignment(size, maxSize, alignment);
      }
    }
  }
}
