/** Slabs and bins of a manual arena: jemalloc/src/arena.c.  A slab is known by its
    serial number and address; its regions by their index.  A bin serves regions from
    slabcur, keeps other slabs with free regions in nonfull, and lists the rest in full. */
module SlabBin {
  import opened Arith
  import opened ExtentSet
  import opened Options

  type Slab = Summary

  /** A slab's bitmap of free regions and its free counter. */
  datatype SlabData = SlabData(free: set<nat>, nfree: nat)

  // ----- arena_slab_reg_alloc and arena_slab_reg_alloc_batch

  ghost predicate Increasing(s: seq<nat>) {
    forall i, j :: 0 <= i < j < |s| ==> s[i] < s[j]
  }

  /** Exactly the cnt lowest free regions, in order. */
  ghost predicate IsLowest(free: set<nat>, cnt: nat, regs: seq<nat>) {
    && |regs| == cnt && Increasing(regs)
    && (forall r :: r in regs ==> r in free)
    && (forall r, x :: r in free && r !in regs && x in regs ==> x < r)
  }

  ghost function Elements(s: seq<nat>): set<nat> { set r | r in s }

  /** bitmap_sfu and cfs_lu: find and clear the lowest set bit. */
  method FirstUnset(free: set<nat>) returns (r: nat, rest: set<nat>)
    requires free != {}
    ensures r in free && (forall x :: x in free ==> r <= x)
    ensures rest == free - {r}
  {
    ghost var w := LeastExists(free, (x: nat, y: nat) => x < y);
    r :| r in free && forall x :: x in free ==> r <= x;
    rest := free - {r};
  }

  /** Taking the lowest of what is left extends the lowest taken so far. */
  lemma LowestExtends(free: set<nat>, regs: seq<nat>, r: nat)
    requires IsLowest(free, |regs|, regs)
    requires r in free - Elements(regs) && forall x :: x in free - Elements(regs) ==> r <= x
    ensures IsLowest(free, |regs| + 1, regs + [r])
    ensures free - Elements(regs + [r]) == free - Elements(regs) - {r}
  {
    var more := regs + [r];
    assert forall x :: x in regs ==> x < r;
    assert forall x :: x in more <==> x in regs || x == r;
    forall i, j | 0 <= i < j < |more| ensures more[i] < more[j] {
      if j == |regs| { assert more[i] in regs; }
    }
    forall y, x | y in free && y !in more && x in more ensures x < y {
      assert y in free - Elements(regs);
    }
  }

  lemma {:induction false} ElementsSize(s: seq<nat>)
    requires Increasing(s)
    ensures |Elements(s)| == |s|
  {
    if s != [] {
      var init, last := s[..|s| - 1], s[|s| - 1];
      ElementsSize(init);
      assert s == init + [last];
      assert Elements(s) == Elements(init) + {last};
      assert last !in Elements(init);
    }
  }

  /** arena_slab_reg_alloc_batch, one bit at a time. */
  method RegAllocBatch(d: SlabData, cnt: nat) returns (d': SlabData, regs: seq<nat>)
    requires d.nfree == |d.free| && cnt <= d.nfree
    ensures IsLowest(d.free, cnt, regs)
    ensures d' == SlabData(d.free - Elements(regs), d.nfree - cnt) && d'.nfree == |d'.free|
  {
    regs := [];
    var free := d.free;
    for i := 0 to cnt
      invariant |regs| == i && IsLowest(d.free, i, regs)
      invariant free == d.free - Elements(regs) && |free| == d.nfree - i
    {
      var r, rest := FirstUnset(free);
      LowestExtends(d.free, regs, r);
      regs, free := regs + [r], rest;
    }
    d' := SlabData(free, d.nfree - cnt);
  }

  /** The batch is determined by the free regions: any way of taking the lowest ones
      takes the same ones. */
  lemma {:induction false} LowestUnique(free: set<nat>, cnt: nat, s: seq<nat>, t: seq<nat>)
    requires IsLowest(free, cnt, s) && IsLowest(free, cnt, t)
    ensures s == t
  {
    if cnt > 0 {
      var s1, t1 := s[..cnt - 1], t[..cnt - 1];
      LowestPrefix(free, s);
      LowestPrefix(free, t);
      LowestUnique(free, cnt - 1, s1, t1);
      assert s == s1 + [s[cnt - 1]] && t == t1 + [t[cnt - 1]];
    }
  }

  lemma LowestPrefix(free: set<nat>, s: seq<nat>)
    requires s != [] && IsLowest(free, |s|, s)
    ensures IsLowest(free, |s| - 1, s[..|s| - 1])
    ensures s[|s| - 1] in free && s[|s| - 1] !in s[..|s| - 1]
    ensures forall x :: x in free && x !in s[..|s| - 1] ==> s[|s| - 1] <= x
  {
    var init, last := s[..|s| - 1], s[|s| - 1];
    assert forall x :: x in s <==> x in init || x == last;
  }

  // ----- the batch over bitmap groups

  const GROUP_BITS: nat := 64

  /** The regions whose bits are set in groups of 64 bits. */
  ghost function Flatten(groups: seq<set<nat>>): set<nat> {
    set g, b | 0 <= g < |groups| && b in groups[g] :: g * GROUP_BITS + b
  }

  ghost predicate BitsInRange(groups: seq<set<nat>>) {
    forall g, b :: 0 <= g < |groups| && b in groups[g] ==> b < GROUP_BITS
  }

  lemma FlattenAt(groups: seq<set<nat>>, r: nat)
    requires BitsInRange(groups)
    ensures r in Flatten(groups) <==> r / GROUP_BITS < |groups| && r % GROUP_BITS in groups[r / GROUP_BITS]
  {
  }

  /** The lowest bit of the first non-empty group is the lowest region of all. */
  lemma FirstGroupFirst(groups: seq<set<nat>>, g: nat, b: nat)
    requires BitsInRange(groups) && g < |groups| && b in groups[g]
    requires forall k :: 0 <= k < g ==> groups[k] == {}
    requires forall c :: c in groups[g] ==> b <= c
    ensures var r := g * GROUP_BITS + b;
            && r in Flatten(groups) && (forall x :: x in Flatten(groups) ==> r <= x)
            && Flatten(groups[g := groups[g] - {b}]) == Flatten(groups) - {r}
  {
    var rest := groups[g := groups[g] - {b}];
    forall x: nat ensures x in Flatten(rest) <==> x in Flatten(groups) - {g * GROUP_BITS + b} {
      FlattenAt(groups, x);
      FlattenAt(rest, x);
    }
  }

  lemma EmptyGroups(groups: seq<set<nat>>)
    requires forall k :: 0 <= k < |groups| ==> groups[k] == {}
    ensures Flatten(groups) == {}
  {
  }

  /** arena_slab_reg_alloc_batch with popcount: whole groups at a time.  It takes the same
      regions as one bit at a time does. */
  method RegAllocBatchGroups(groups: array<set<nat>>, cnt: nat) returns (regs: seq<nat>)
    requires groups.Length > 0 && BitsInRange(groups[..]) && cnt <= |Flatten(groups[..])|
    modifies groups
    ensures BitsInRange(groups[..])
    ensures IsLowest(old(Flatten(groups[..])), cnt, regs)
    ensures Flatten(groups[..]) == old(Flatten(groups[..])) - Elements(regs)
  {
    hide Flatten, BitsInRange, IsLowest;
    ghost var all := Flatten(groups[..]);
    TakingStarts(all, groups[..]);
    var group := 0;
    var g := groups[group];
    regs := [];
    while |regs| < cnt
      invariant group < groups.Length && g == groups[group] && |regs| <= cnt
      invariant Taking(all, groups[..], group, regs)
      decreases cnt - |regs|
    {
      while g == {}
        invariant group < groups.Length && g == groups[group]
        invariant Taking(all, groups[..], group, regs)
        decreases groups.Length - group
      {
        TakingMovesOn(all, groups[..], group, regs);
        group := group + 1;
        g := groups[group];
      }
      var pop := if |g| > cnt - |regs| then cnt - |regs| else |g|;
      ghost var before := |regs|;
      ghost var rest := pop;
      assert groups[..][group := g] == groups[..];
      while pop > 0
        invariant group < groups.Length && |regs| + pop == before + rest <= cnt && 0 <= pop <= |g|
        invariant Taking(all, groups[..][group := g], group, regs)
      {
        ghost var now := groups[..][group := g];
        var bit, g' := FirstUnset(g);
        TakingOne(all, now, group, bit, regs);
        assert now[group := g'] == groups[..][group := g'];
        g := g';
        regs := regs + [group * GROUP_BITS + bit];
        pop := pop - 1;
      }
      ghost var seen := groups[..];
      groups[group] := g;
      assert groups[..] == seen[group := g];
    }
  }

  /** Part of a batch: the lowest regions are taken, the rest are still in the groups,
      and the groups before the current one are used up. */
  ghost predicate Taking(all: set<nat>, groups: seq<set<nat>>, group: nat, regs: seq<nat>) {
    && BitsInRange(groups)
    && IsLowest(all, |regs|, regs)
    && Flatten(groups) == all - Elements(regs)
    && group <= |groups| && forall k :: 0 <= k < group ==> groups[k] == {}
  }

  lemma TakingStarts(all: set<nat>, groups: seq<set<nat>>)
    requires BitsInRange(groups) && all == Flatten(groups)
    ensures Taking(all, groups, 0, [])
  {
  }

  lemma TakingOne(all: set<nat>, groups: seq<set<nat>>, group: nat, bit: nat, regs: seq<nat>)
    requires Taking(all, groups, group, regs) && group < |groups|
    requires bit in groups[group] && forall c :: c in groups[group] ==> bit <= c
    ensures Taking(all, groups[group := groups[group] - {bit}], group, regs + [group * GROUP_BITS + bit])
  {
    FirstGroupFirst(groups, group, bit);
    LowestExtends(all, regs, group * GROUP_BITS + bit);
  }

  lemma {:induction false} SubsetSize(s: set<nat>, t: set<nat>)
    requires s - t == {}
    ensures |s| <= |t|
  {
    if s != {} {
      var x :| x in s;
      assert x !in s - t;
      assert (s - {x}) - (t - {x}) == {};
      SubsetSize(s - {x}, t - {x});
    }
  }

  lemma TakingMovesOn(all: set<nat>, groups: seq<set<nat>>, group: nat, regs: seq<nat>)
    requires Taking(all, groups, group, regs) && group < |groups| && groups[group] == {} && |regs| < |all|
    ensures group + 1 < |groups| && Taking(all, groups, group + 1, regs)
  {
    ElementsSize(regs);
    if group + 1 == |groups| {
      EmptyGroups(groups);
      SubsetSize(all, Elements(regs));
      assert false;
    }
  }

  // ----- bins

  datatype BinState = BinState(slabcur: Option<Slab>, nonfull: set<Slab>, full: set<Slab>, slabs: map<Slab, SlabData>)

  type Region = (Slab, nat)

  predicate SlabOk(d: SlabData, nregs: nat) {
    d.nfree == |d.free| && forall r :: r in d.free ==> r < nregs
  }

  /** Every slab of the bin is in exactly one place. */
  predicate Partitioned(b: BinState) {
    && (forall s :: s in b.slabs ==> s in b.nonfull || s in b.full || b.slabcur == Some(s))
    && (forall s :: s in b.nonfull ==> s in b.slabs && s !in b.full && b.slabcur != Some(s))
    && (forall s :: s in b.full ==> s in b.slabs && s !in b.nonfull && b.slabcur != Some(s))
    && (b.slabcur.Some? ==> b.slabcur.value in b.slabs && b.slabcur.value !in b.nonfull && b.slabcur.value !in b.full)
  }

  /** The bin invariant while its lock is held: nonfull slabs are neither full nor empty,
      full slabs have no free region, and slabcur comes no later than any nonfull slab. */
  predicate Open(b: BinState, nregs: nat) {
    && Partitioned(b)
    && (forall s {:trigger b.slabs[s]} :: s in b.slabs ==> SlabOk(b.slabs[s], nregs))
    && (forall s {:trigger s in b.nonfull} :: s in b.nonfull ==> 0 < b.slabs[s].nfree < nregs)
    && (forall s {:trigger s in b.full} :: s in b.full ==> b.slabs[s].nfree == 0)
    && (b.slabcur.Some? ==> forall s :: s in b.nonfull ==> !s.Less(b.slabcur.value))
  }

  /** When the lock is free, slabcur is not an entirely free slab either. */
  predicate Closed(b: BinState, nregs: nat) {
    && Open(b, nregs)
    && (b.slabcur.Some? ==> b.slabs[b.slabcur.value].nfree < nregs)
  }

  lemma ClosedIsOpen(b: BinState, nregs: nat)
    requires Closed(b, nregs)
    ensures Open(b, nregs) && (b.slabcur.Some? ==> b.slabcur.value in b.slabs)
  {
  }

  /** The regions are allocated. */
  lemma SlabsOk(b: BinState, nregs: nat)
    requires Open(b, nregs)
    ensures forall s {:trigger b.slabs[s]} :: s in b.slabs ==> SlabOk(b.slabs[s], nregs)
  {
  }

  predicate Held(b: BinState, ptrs: seq<Region>, nregs: nat) {
    forall p {:trigger p in ptrs} :: p in ptrs ==> p.0 in b.slabs && p.1 !in b.slabs[p.0].free && p.1 < nregs
  }

  ghost predicate Distinct(ptrs: seq<Region>) {
    forall i, j :: 0 <= i < j < |ptrs| ==> ptrs[i] != ptrs[j]
  }

  function Regions(slab: Slab, regs: seq<nat>): (ptrs: seq<Region>)
    ensures |ptrs| == |regs| && forall i :: 0 <= i < |regs| ==> ptrs[i] == (slab, regs[i])
  {
    seq(|regs|, i requires 0 <= i < |regs| => (slab, regs[i]))
  }

  /** Free regions just taken are new to whoever holds other regions. */
  lemma TakenAreNew(b: BinState, ptrs: seq<Region>, slab: Slab, regs: seq<nat>, nfree: nat, nregs: nat)
    requires Held(b, ptrs, nregs) && Distinct(ptrs) && slab in b.slabs
    requires Increasing(regs) && forall r :: r in regs ==> r in b.slabs[slab].free && r < nregs
    ensures Distinct(ptrs + Regions(slab, regs))
    ensures var slabs := b.slabs[slab := SlabData(b.slabs[slab].free - Elements(regs), nfree)];
            Held(b.(slabs := slabs), ptrs + Regions(slab, regs), nregs)
  {
    var more := ptrs + Regions(slab, regs);
    forall i, j | 0 <= i < j < |more| ensures more[i] != more[j] {
      if i < |ptrs| <= j { assert more[i] in ptrs && regs[j - |ptrs|] in regs; }
    }
    forall p | p in more && p !in ptrs ensures p.0 == slab && p.1 in regs {
      var i :| 0 <= i < |more| && more[i] == p;
      assert i >= |ptrs|;
    }
  }

  /** The region indices of a slab. */
  function AllRegs(nregs: nat): (s: set<nat>)
    ensures |s| == nregs && forall r: nat :: r in s <==> r < nregs
  {
    if nregs == 0 then {} else AllRegs(nregs - 1) + {nregs - 1}
  }

  function FreshSlab(nregs: nat): SlabData { SlabData(AllRegs(nregs), nregs) }

  /** edata_heap_remove_first on the heap of nonfull slabs. */
  method RemoveFirst(slabs: set<Slab>) returns (s: Slab, rest: set<Slab>)
    requires slabs != {}
    ensures s in slabs && (forall t :: t in slabs ==> !t.Less(s)) && rest == slabs - {s}
  {
    ghost var w := LeastExists(slabs, (x: Slab, y: Slab) => x.Less(y));
    s :| s in slabs && forall t :: t in slabs ==> !t.Less(s);
    rest := slabs - {s};
  }

  /** slabcur without free regions is moved to full. */
  lemma RetireOk(b: BinState, nregs: nat)
    requires Open(b, nregs) && (b.slabcur.Some? ==> b.slabs[b.slabcur.value].nfree == 0)
    ensures var full := if b.slabcur.Some? then b.full + {b.slabcur.value} else b.full;
            Closed(BinState(None, b.nonfull, full, b.slabs), nregs)
  {
  }

  /** The oldest nonfull slab becomes slabcur. */
  lemma PromoteOk(b: BinState, nregs: nat, s: Slab)
    requires Open(b, nregs) && b.slabcur.None? && s in b.nonfull && forall t :: t in b.nonfull ==> !t.Less(s)
    ensures Closed(BinState(Some(s), b.nonfull - {s}, b.full, b.slabs), nregs)
  {
  }

  /** What happens while the bin's lock is dropped: the state other threads leave behind,
      and the slab this thread obtains, if any. */
  datatype Round = Round(others: BinState, obtained: Option<Slab>)

  // ----- which regions left the free sets

  type Slabs = map<Slab, SlabData>

  /** Exactly the given regions left the free sets. */
  ghost predicate TookOut(a: Slabs, b: Slabs, ptrs: seq<Region>) {
    && a.Keys == b.Keys
    && (forall p {:trigger p in ptrs} :: p in ptrs ==> p.0 in a && p.1 in a[p.0].free)
    && forall s, r {:trigger r in b[s].free} :: s in a ==> (r in b[s].free <==> r in a[s].free && (s, r) !in ptrs)
  }

  lemma TookNothing(a: Slabs)
    ensures TookOut(a, a, [])
  {
  }

  lemma TookMore(a: Slabs, b: Slabs, c: Slabs, ptrs: seq<Region>, more: seq<Region>)
    requires TookOut(a, b, ptrs) && TookOut(b, c, more)
    ensures TookOut(a, c, ptrs + more)
  {
    forall p | p in ptrs + more ensures p.0 in a && p.1 in a[p.0].free {
      if p in more { assert p.1 in b[p.0].free; }
    }
    forall s, r | s in a ensures r in c[s].free <==> r in a[s].free && (s, r) !in ptrs + more {
      assert r in b[s].free <==> r in a[s].free && (s, r) !in ptrs;
    }
  }

  lemma TookBeside(a: Slabs, b: Slabs, ptrs: seq<Region>, s: Slab, d: SlabData)
    requires TookOut(a, b, ptrs) && s !in a
    ensures TookOut(a[s := d], b[s := d], ptrs)
  {
    forall t, r | t in a[s := d] ensures r in b[s := d][t].free <==> r in a[s := d][t].free && (t, r) !in ptrs {
      if t != s { assert r in b[t].free <==> r in a[t].free && (t, r) !in ptrs; }
    }
  }

  lemma TookBatch(a: Slabs, s: Slab, regs: seq<nat>, nfree: nat)
    requires s in a && forall r :: r in regs ==> r in a[s].free
    ensures TookOut(a, a[s := SlabData(a[s].free - Elements(regs), nfree)], Regions(s, regs))
  {
    var ptrs := Regions(s, regs);
    forall t, r ensures (t, r) in ptrs <==> t == s && r in regs {
      if t == s && r in regs {
        var i :| 0 <= i < |regs| && regs[i] == r;
        assert ptrs[i] == (t, r);
      }
    }
  }

  /** Some slab has a free region. */
  ghost predicate HasFree(slabs: Slabs) { exists s {:trigger s in slabs} :: s in slabs && slabs[s].nfree > 0 }

  /** A bin without slabcur and nonfull slabs has none. */
  lemma NoneFree(b: BinState, nregs: nat)
    requires Open(b, nregs) && (b.slabcur.Some? ==> b.slabs[b.slabcur.value].nfree == 0) && b.nonfull == {}
    ensures !HasFree(b.slabs)
  {
    assert forall s :: s in b.slabs ==> s in b.full || b.slabcur == Some(s);
  }

  lemma SomeFree(b: BinState, nregs: nat, s: Slab)
    requires s in b.slabs && b.slabs[s].nfree > 0
    ensures HasFree(b.slabs)
  {
  }

  /** The slabs after others had the lock: what they leave counts if it keeps the invariant
      and the regions held; otherwise nobody interfered. */
  function Interfered(slabs: Slabs, others: BinState, held: seq<Region>, nregs: nat): Slabs {
    if Closed(others, nregs) && Held(others, held, nregs) then others.slabs else slabs
  }

  /** The slab a thread got while it did not hold the lock, which cannot be in the bin. */
  function Obtained(round: Round, slabs: Slabs): (r: Option<Slab>)
    ensures r.Some? ==> r.value !in slabs
  {
    if round.obtained.Some? && round.obtained.value !in slabs then round.obtained else None
  }

  /** The order regions are handed out in: oldest slab first, then lowest region, and those
      of a slab in reserve last. */
  predicate Precedes(spare: Option<Slab>, p: Region, q: Region) {
    if Some(p.0) == spare || Some(q.0) == spare then Some(q.0) == spare && (Some(p.0) != spare || p.1 < q.1)
    else p.0.Less(q.0) || (p.0 == q.0 && p.1 < q.1)
  }

  /** Regions taken in that order, before any that is still free. */
  ghost predicate FirstFit(spare: Option<Slab>, ptrs: seq<Region>, after: Slabs) {
    && (forall i, j :: 0 <= i < j < |ptrs| ==> Precedes(spare, ptrs[i], ptrs[j]))
    && (forall p, s, r {:trigger p in ptrs, r in after[s].free} ::
          p in ptrs && s in after && r in after[s].free ==> Precedes(spare, p, (s, r)))
  }

  /** The lowest regions of slabcur come before all other free ones of the bin. */
  lemma BatchIsFirst(b: BinState, nregs: nat, regs: seq<nat>, nfree: nat)
    requires Open(b, nregs) && b.slabcur.Some? && IsLowest(b.slabs[b.slabcur.value].free, |regs|, regs)
    ensures var s := b.slabcur.value;
            FirstFit(None, Regions(s, regs), b.slabs[s := SlabData(b.slabs[s].free - Elements(regs), nfree)])
  {
    var cur := b.slabcur.value;
    forall s | s in b.slabs && s != cur && b.slabs[s].free != {} ensures cur.Less(s) {
      assert SlabOk(b.slabs[s], nregs);
      assert s in b.nonfull;
    }
    var ptrs, after := Regions(cur, regs), b.slabs[cur := SlabData(b.slabs[cur].free - Elements(regs), nfree)];
    forall p, s, r | p in ptrs && s in after && r in after[s].free ensures Precedes(None, p, (s, r)) {
      var i :| 0 <= i < |ptrs| && ptrs[i] == p;
      assert regs[i] in regs;
      if s != cur { assert after[s] == b.slabs[s]; }
    }
  }

  /** One holding of the bin's lock: the slabs before, the slab in reserve, the regions
      taken and the slabs after. */
  datatype Stretch = Stretch(before: Slabs, spare: Option<Slab>, ptrs: seq<Region>, after: Slabs)

  predicate Installed(t: Stretch) { t.spare.Some? && t.spare.value in t.after }

  /** What a thread that wants so many regions does in one holding: it takes nothing but
      what it hands out, installs the slab in reserve only when every other region is used
      up, and ends short only when nothing is left. */
  ghost predicate Locked(t: Stretch, want: nat, nregs: nat) {
    && |t.ptrs| <= want
    && TookOut(Start(t, nregs), t.after, t.ptrs) && FirstFit(t.spare, t.ptrs, t.after)
    && (Installed(t) ==> UsedUp(t) && Used(t))
    && (|t.ptrs| < want ==> !HasFree(t.after) && (t.spare.Some? ==> Installed(t)))
  }

  /** The slabs a holding takes regions from. */
  ghost function Start(t: Stretch, nregs: nat): Slabs {
    if Installed(t) then t.before[t.spare.value := FreshSlab(nregs)] else t.before
  }

  /** The slabs from before have no free region left. */
  ghost predicate UsedUp(t: Stretch) {
    forall s :: s in t.before && s in t.after ==> t.after[s].nfree == 0
  }

  ghost predicate Used(t: Stretch) { t.spare.Some? && exists r :: (t.spare.value, r) in t.ptrs }

  /** In the middle of a holding: a slab installed has free regions until it is used. */
  ghost predicate Filling(t: Stretch, nregs: nat) {
    && (t.spare.Some? ==> t.spare.value !in t.before)
    && TookOut(Start(t, nregs), t.after, t.ptrs) && FirstFit(t.spare, t.ptrs, t.after)
    && (Installed(t) ==> UsedUp(t) && (Used(t) || t.after[t.spare.value].nfree > 0))
  }

  lemma FillingStarts(x: Slabs, spare: Option<Slab>, nregs: nat)
    requires spare.Some? ==> spare.value !in x
    ensures Filling(Stretch(x, spare, [], x), nregs) && !Installed(Stretch(x, spare, [], x))
  {
    TookNothing(x);
  }

  /** A batch from a slab goes on with the holding, and uses the installed slab. */
  lemma FillingBatch(t: Stretch, cur: Slab, more: seq<Region>, after: Slabs, nregs: nat)
    requires Filling(t, nregs) && cur in t.after && t.after[cur].nfree > 0
    requires TookOut(t.after, after, more) && more != [] && FirstFit(None, more, after)
    requires forall s :: s in after && s != cur ==> after[s] == t.after[s]
    requires forall s {:trigger after[s]} :: s in after ==> SlabOk(after[s], nregs)
    ensures var u := Stretch(t.before, t.spare, t.ptrs + more, after);
            Filling(u, nregs) && (Installed(u) <==> Installed(t)) && (Installed(u) ==> Used(u))
  {
    FirstFitMore(t, cur, more, after, nregs);
    hide TookOut, FirstFit;
    TookMore(Start(t, nregs), t.after, after, t.ptrs, more);
    TookKeys(t.after, after, more);
    TookKeys(Start(t, nregs), t.after, t.ptrs);
    if Installed(t) {
      assert cur == t.spare.value;
      TakenFrom(t.after, after, cur, more);
      var r :| (cur, r) in more;
      assert (cur, r) in t.ptrs + more;
    }
  }

  lemma FirstFitMore(t: Stretch, cur: Slab, more: seq<Region>, after: Slabs, nregs: nat)
    requires Filling(t, nregs) && cur in t.after && t.after[cur].nfree > 0
    requires TookOut(t.after, after, more) && FirstFit(None, more, after)
    requires forall s :: s in after && s != cur ==> after[s] == t.after[s]
    requires forall s {:trigger after[s]} :: s in after ==> SlabOk(after[s], nregs)
    ensures FirstFit(t.spare, t.ptrs + more, after)
  {
    var all := t.ptrs + more;
    assert forall p :: p in more ==> p.0 == cur && p.1 in t.after[cur].free by {
      forall p | p in more ensures p.0 == cur { assert p.1 !in after[p.0].free; }
    }
    if Installed(t) {
      assert cur == t.spare.value;
      assert forall s, r :: s in after && r in after[s].free ==> s == cur;
    }
    forall i, j | 0 <= i < j < |all| ensures Precedes(t.spare, all[i], all[j]) {
      if i >= |t.ptrs| {
        assert Precedes(None, more[i - |t.ptrs|], more[j - |t.ptrs|]);
        assert all[i] in more && all[j] in more;
      } else if j >= |t.ptrs| {
        assert all[i] in t.ptrs && all[j] in more;
      }
    }
  }

  lemma TookKeys(a: Slabs, b: Slabs, ptrs: seq<Region>)
    requires TookOut(a, b, ptrs)
    ensures a.Keys == b.Keys
  {
  }

  /** A batch from one slab holds a region of it. */
  lemma TakenFrom(a: Slabs, b: Slabs, s: Slab, ptrs: seq<Region>)
    requires TookOut(a, b, ptrs) && ptrs != [] && forall t :: t in b && t != s ==> b[t] == a[t]
    ensures exists r :: (s, r) in ptrs
  {
    var p := ptrs[0];
    assert p in ptrs;
    assert p.1 !in b[p.0].free;
  }

  /** With nothing left, the slab in reserve is installed. */
  lemma FillingInstalls(t: Stretch, nregs: nat)
    requires Filling(t, nregs) && t.spare.Some? && !Installed(t) && !HasFree(t.after) && nregs > 0
    ensures var u := t.(after := t.after[t.spare.value := FreshSlab(nregs)]);
            Installed(u) && Filling(u, nregs)
  {
    TookBeside(t.before, t.after, t.ptrs, t.spare.value, FreshSlab(nregs));
    assert forall s :: s in t.after ==> t.after[s].nfree == 0;
  }

  lemma FillingEnds(t: Stretch, want: nat, nregs: nat)
    requires Filling(t, nregs) && |t.ptrs| <= want
    requires |t.ptrs| < want ==> !HasFree(t.after) && (t.spare.Some? ==> Installed(t))
    requires |t.ptrs| == want ==> (Installed(t) ==> Used(t))
    ensures Locked(t, want, nregs) && (Installed(t) ==> t.ptrs != [])
  {
    if |t.ptrs| < want && Installed(t) {
      assert t.spare.value in t.after;
    }
  }

  /** The regions taken over several holdings. */
  ghost function Taken(ts: seq<Stretch>): seq<Region> {
    if ts == [] then [] else Taken(ts[..|ts| - 1]) + ts[|ts| - 1].ptrs
  }

  /** Between two holdings the thread had used everything up and made progress, others may
      have run, and it asked for a slab. */
  ghost predicate Between(t: Stretch, u: Stretch, rounds: seq<Round>, k: nat, held: seq<Region>, nregs: nat) {
    && (k > 0 ==> t.ptrs != [])
    && (if k < |rounds| then
          u.before == Interfered(t.after, rounds[k].others, held, nregs) && u.spare == Obtained(rounds[k], u.before)
        else u.before == t.after && u.spare.None?)
  }

  /** The holdings of one fill.  When the rounds given are used up, slab allocation fails
      and nobody interferes. */
  ghost predicate IsFill(ts: seq<Stretch>, slabs: Slabs, mine: seq<Region>, nfill: nat, rounds: seq<Round>, nregs: nat)
    decreases |ts|
  {
    && |ts| > 0
    && var n := |ts| - 1;
       var had := Taken(ts[..n]);
       && |had| <= nfill && Locked(ts[n], nfill - |had|, nregs)
       && if n == 0 then ts[0].before == slabs && ts[0].spare.None?
          else
            && IsFill(ts[..n], slabs, mine, nfill, rounds, nregs) && |had| < nfill
            && Between(ts[n - 1], ts[n], rounds, n - 1, mine + had, nregs)
  }

  /** A fill that is over: it is short only after slab allocation failed and nothing was found,
      and gives back the slab the last holding did not need. */
  ghost predicate Filled(ts: seq<Stretch>, slabs: Slabs, mine: seq<Region>, nfill: nat, rounds: seq<Round>, nregs: nat,
                         returned: Option<Slab>)
  {
    && IsFill(ts, slabs, mine, nfill, rounds, nregs)
    && var last := ts[|ts| - 1];
       && (|Taken(ts)| < nfill ==> |ts| > 1 && last.spare.None? && last.ptrs == [])
       && returned == if Installed(last) then None else last.spare
  }

  /** Every slab a fill obtained was installed and used, except one the last holding did not
      need. */
  lemma {:induction false} ObtainedAreUsed(ts: seq<Stretch>, x: Slabs, mine: seq<Region>, nfill: nat, rounds: seq<Round>,
                                           nregs: nat, k: nat)
    requires IsFill(ts, x, mine, nfill, rounds, nregs) && k < |ts| && ts[k].spare.Some?
    requires k < |ts| - 1 || Installed(ts[k])
    ensures exists r :: (ts[k].spare.value, r) in Taken(ts)
    decreases |ts|
  {
    hide TookOut, HasFree, Between, Interfered, Obtained;
    var n := |ts| - 1;
    if k < n {
      EndedShort(ts[..n], nfill, x, mine, rounds, nregs);
      ObtainedAreUsed(ts[..n], x, mine, nfill, rounds, nregs, k);
      var r :| (ts[k].spare.value, r) in Taken(ts[..n]);
      assert (ts[k].spare.value, r) in Taken(ts);
    } else {
      var r :| (ts[n].spare.value, r) in ts[n].ptrs;
      assert (ts[n].spare.value, r) in Taken(ts);
    }
  }

  /** A fill that has not enough after its last holding has installed what it had. */
  lemma EndedShort(ts: seq<Stretch>, nfill: nat, x: Slabs, mine: seq<Region>, rounds: seq<Round>, nregs: nat)
    requires IsFill(ts, x, mine, nfill, rounds, nregs) && |Taken(ts)| < nfill
    ensures var t := ts[|ts| - 1]; !HasFree(t.after) && (t.spare.Some? ==> Installed(t))
  {
  }

  /** One small allocation: a free region of the bin; else, after others ran, a free region
      of what they left; else one of the slab obtained meanwhile; else none. */
  ghost predicate Malloced(a: Slabs, mine: seq<Region>, round: Round, b: Slabs, ptr: Option<Region>, nregs: nat) {
    && (ptr.Some? ==> FirstFit(None, [ptr.value], b))
    && if HasFree(a) then ptr.Some? && TookOut(a, b, [ptr.value])
    else
      var mid := Interfered(a, round.others, mine, nregs);
      var spare := Obtained(round, mid);
      if HasFree(mid) then ptr.Some? && TookOut(mid, b, [ptr.value])
      else if spare.Some? then ptr.Some? && TookOut(mid[spare.value := FreshSlab(nregs)], b, [ptr.value])
      else ptr.None? && b == mid
  }

  /** The slab obtained for an allocation that was served without it. */
  ghost function Unneeded(a: Slabs, mine: seq<Region>, round: Round, nregs: nat): Option<Slab> {
    var mid := Interfered(a, round.others, mine, nregs);
    if !HasFree(a) && HasFree(mid) then Obtained(round, mid) else None
  }

  /** The slabs with some fresh ones beside them. */
  ghost function WithFresh(a: Slabs, more: set<Slab>, nregs: nat): Slabs {
    a + map s | s in more :: FreshSlab(nregs)
  }

  /** Of each slab the lowest regions were taken. */
  ghost predicate LowFirst(b: Slabs, ptrs: seq<Region>) {
    forall p, r {:trigger p in ptrs, r in b[p.0].free} :: p in ptrs && p.0 in b && r in b[p.0].free ==> p.1 < r
  }

  /** A fill from fresh slabs only: every new slab is one of those supplied and serves some
      of the regions, at most one keeps free regions, and it is short only when the supply
      is used up. */
  ghost predicate FilledFresh(a: Slabs, nfill: nat, supply: seq<Slab>, b: Slabs, ptrs: seq<Region>, nregs: nat) {
    && |ptrs| <= nfill && a.Keys <= b.Keys
    && (forall s :: s in b && s !in a ==> s in supply && b[s].nfree < nregs)
    && (forall s, t :: s in b && s !in a && t in b && t !in a && b[s].nfree > 0 && b[t].nfree > 0 ==> s == t)
    && TookOut(WithFresh(a, b.Keys - a.Keys, nregs), b, ptrs) && LowFirst(b, ptrs)
    && (|ptrs| < nfill ==> forall s :: s in supply ==> s in b)
  }

  /** The regions are all that was taken from slabs that were fresh. */
  ghost predicate Served(made: Slabs, ptrs: seq<Region>, nregs: nat) {
    && Held(BinState(None, {}, {}, made), ptrs, nregs) && LowFirst(made, ptrs)
    && TookOut(WithFresh(map[], made.Keys, nregs), made, ptrs)
  }

  class Bin {
    const nregs: nat
    var slabcur: Option<Slab>
    var nonfull: set<Slab>
    var full: set<Slab>
    var slabs: map<Slab, SlabData>

    function State(): BinState
      reads this
    {
      BinState(slabcur, nonfull, full, slabs)
    }

    ghost predicate Valid()
      reads this
    {
      nregs > 0 && Closed(State(), nregs)
    }

    constructor (nregs: nat)
      requires nregs > 0
      ensures Valid() && slabs == map[] && this.nregs == nregs
    {
      this.nregs := nregs;
      slabcur, nonfull, full, slabs := None, {}, {}, map[];
    }

    /** arena_bin_refill_slabcur_no_fresh_slab: slabcur becomes the oldest nonfull slab. */
    method RefillNoFresh() returns (empty: bool)
      requires Open(State(), nregs) && (slabcur.Some? ==> slabs[slabcur.value].nfree == 0)
      modifies this`slabcur, this`nonfull, this`full
      ensures Closed(State(), nregs)
      ensures empty <==> slabcur.None?
      ensures empty <==> old(nonfull) == {}
      ensures empty ==> nonfull == {}
      ensures !empty ==>
                && slabcur.value in old(nonfull) && slabs[slabcur.value].nfree > 0
                && nonfull == old(nonfull) - {slabcur.value}
    {
      hide Closed;
      RetireOk(State(), nregs);
      if slabcur.Some? {
        full := full + {slabcur.value};
        slabcur := None;
      }
      if nonfull == {} {
        return true;
      }
      var s, rest := RemoveFirst(nonfull);
      assert Open(State(), nregs) by { ClosedIsOpen(State(), nregs); }
      PromoteOk(State(), nregs, s);
      slabcur, nonfull := Some(s), rest;
      return false;
    }

    /** arena_bin_refill_slabcur_with_fresh_slab. */
    method InstallFresh(s: Slab)
      requires Open(State(), nregs) && slabcur.None? && nonfull == {} && s !in slabs && nregs > 0
      modifies this`slabcur, this`slabs
      ensures Open(State(), nregs) && slabcur == Some(s)
      ensures slabs == old(slabs)[s := FreshSlab(nregs)]
      ensures slabs[s].nfree == nregs && forall r: nat :: r in slabs[s].free <==> r < nregs
    {
      slabs := slabs[s := FreshSlab(nregs)];
      slabcur := Some(s);
    }

    /** A batch from slabcur, which then is not entirely free. */
    method TakeBatch(cnt: nat) returns (regs: seq<nat>)
      requires Open(State(), nregs) && slabcur.Some? && 0 < cnt <= slabs[slabcur.value].nfree
      modifies this`slabs
      ensures Closed(State(), nregs)
      ensures IsLowest(old(slabs)[slabcur.value].free, cnt, regs)
      ensures slabs == old(slabs)[slabcur.value := SlabData(old(slabs)[slabcur.value].free - Elements(regs),
                                                            old(slabs)[slabcur.value].nfree - cnt)]
    {
      FreeAtMost(slabs[slabcur.value], nregs);
      var d;
      d, regs := RegAllocBatch(slabs[slabcur.value], cnt);
      slabs := slabs[slabcur.value := d];
    }

    lemma FreeAtMost(d: SlabData, n: nat)
      requires SlabOk(d, n)
      ensures d.nfree <= n
    {
      assert d.free - AllRegs(n) == {};
      SubsetSize(d.free, AllRegs(n));
    }

    /** Other threads had the lock.  They may leave any state in which the invariant holds
        and the regions this thread holds are still allocated. */
    method LetOthersRun(others: BinState, ptrs: seq<Region>)
      requires Valid() && Held(State(), ptrs, nregs)
      modifies this
      ensures Valid() && Held(State(), ptrs, nregs)
      ensures slabs == Interfered(old(slabs), others, ptrs, nregs)
      ensures State() == if Closed(others, nregs) && Held(others, ptrs, nregs) then others else old(State())
    {
      if Closed(others, nregs) && Held(others, ptrs, nregs) {
        slabcur, nonfull, full, slabs := others.slabcur, others.nonfull, others.full, others.slabs;
      }
    }

    /** The batch-fill step of arena_cache_bin_fill_small. */
    method BatchInto(ptrs: seq<Region>, nfill: nat) returns (ptrs': seq<Region>)
      requires Open(State(), nregs) && slabcur.Some? && slabs[slabcur.value].nfree > 0
      requires |ptrs| < nfill && Distinct(ptrs) && Held(State(), ptrs, nregs)
      modifies this`slabs
      ensures Closed(State(), nregs) && slabs.Keys == old(slabs.Keys)
      ensures Distinct(ptrs') && Held(State(), ptrs', nregs)
      ensures ptrs < ptrs' && |ptrs'| <= nfill && (|ptrs'| < nfill ==> slabs[slabcur.value].nfree == 0)
      ensures TookOut(old(slabs), slabs, ptrs'[|ptrs|..]) && FirstFit(None, ptrs'[|ptrs|..], slabs)
      ensures forall s :: s in slabs && s != slabcur.value ==> slabs[s] == old(slabs)[s]
    {
      hide Closed, FirstFit;
      var s := slabcur.value;
      var tofill, nfree := nfill - |ptrs|, slabs[s].nfree;
      var cnt := if tofill < nfree then tofill else nfree;
      ghost var before := State();
      var regs := TakeBatch(cnt);
      TakenAreNew(before, ptrs, s, regs, nfree - cnt, nregs);
      TookBatch(before.slabs, s, regs, nfree - cnt);
      BatchIsFirst(before, nregs, regs, nfree - cnt);
      ptrs' := ptrs + Regions(s, regs);
      assert ptrs'[|ptrs|..] == Regions(s, regs);
    }

    /** Refilling slabcur from the bin, for a thread that holds some regions. */
    method Refill(ptrs: seq<Region>) returns (empty: bool)
      requires Open(State(), nregs) && (slabcur.Some? ==> slabcur.value in slabs && slabs[slabcur.value].nfree == 0)
      requires Held(State(), ptrs, nregs)
      modifies this`slabcur, this`nonfull, this`full
      ensures Closed(State(), nregs) && Open(State(), nregs) && Held(State(), ptrs, nregs)
      ensures empty ==> slabcur.None? && nonfull == {} && !HasFree(slabs)
      ensures !empty ==> slabcur.Some? && slabcur.value in slabs && slabs[slabcur.value].nfree > 0
      ensures !empty ==> |nonfull| < |old(nonfull)|
    {
      hide Closed, Open, Held, HasFree;
      ghost var before := State();
      empty := RefillNoFresh();
      HeldDependsOnSlabs(before, State(), ptrs);
      ClosedIsOpen(State(), nregs);
      if empty {
        NoneFree(State(), nregs);
      }
    }

    /** Installing a fresh slab, for a thread that holds some regions. */
    method Install(s: Slab, ptrs: seq<Region>)
      requires Open(State(), nregs) && slabcur.None? && nonfull == {} && s !in slabs && nregs > 0
      requires Held(State(), ptrs, nregs)
      modifies this`slabcur, this`slabs
      ensures Open(State(), nregs) && Held(State(), ptrs, nregs)
      ensures slabcur == Some(s) && slabs == old(slabs)[s := FreshSlab(nregs)]
    {
      hide Open, Held;
      HeldWithMore(State(), ptrs, s, FreshSlab(nregs));
      InstallFresh(s);
      HeldDependsOnSlabs(State().(slabcur := None), State(), ptrs);
    }

    /** The refill loop of arena_cache_bin_fill_small, with the lock held: slabcur first,
        then nonfull slabs, then the slab in reserve. */
    method FillLocked(ptrs0: seq<Region>, spare0: Option<Slab>, progress0: bool, nfill: nat)
      returns (ptrs: seq<Region>, spare: Option<Slab>, madeProgress: bool, retry: bool)
      requires Valid() && Distinct(ptrs0) && Held(State(), ptrs0, nregs) && |ptrs0| <= nfill
      requires spare0.Some? ==> spare0.value !in slabs
      modifies this
      ensures Valid() && Distinct(ptrs) && Held(State(), ptrs, nregs)
      ensures ptrs0 <= ptrs && |ptrs| <= nfill
      ensures Locked(Stretch(old(slabs), spare0, ptrs[|ptrs0|..], slabs), nfill - |ptrs0|, nregs)
      ensures madeProgress <==> progress0 || |ptrs| > |ptrs0|
      ensures spare == if spare0.Some? && spare0.value !in slabs then spare0 else None
      ensures retry ==> madeProgress && spare.None? && |ptrs| < nfill
      ensures !retry && |ptrs| < nfill ==> !madeProgress && spare0.None? && slabcur.None? && nonfull == {}
    {
      hide Closed, Open, Held, Distinct, TookOut, HasFree, Filling, Locked, Installed, Used, FirstFit;
      ptrs, spare, madeProgress, retry := ptrs0, spare0, progress0, false;
      ClosedIsOpen(State(), nregs);
      ghost var t := Stretch(slabs, spare0, [], slabs);
      FillingStarts(slabs, spare0, nregs);
      while |ptrs| < nfill
        invariant Open(State(), nregs) && (|ptrs| < nfill || Closed(State(), nregs))
        invariant slabcur.Some? ==> slabcur.value in slabs
        invariant Distinct(ptrs) && Held(State(), ptrs, nregs) && |ptrs| <= nfill
        invariant madeProgress <==> progress0 || |ptrs| > |ptrs0|
        invariant spare == if Installed(t) then None else spare0
        invariant t == Stretch(old(slabs), spare0, t.ptrs, slabs) && ptrs == ptrs0 + t.ptrs
        invariant Filling(t, nregs) && (|ptrs| == nfill && Installed(t) ==> Used(t))
        decreases nfill - |ptrs|, |nonfull| + if spare.Some? then 1 else 0
      {
        if slabcur.Some? && slabs[slabcur.value].nfree > 0 {
          ghost var had := ptrs;
          ptrs := BatchInto(ptrs, nfill);
          ClosedIsOpen(State(), nregs);
          SlabsOk(State(), nregs);
          FillingBatch(t, slabcur.value, ptrs[|had|..], slabs, nregs);
          t := Stretch(t.before, spare0, t.ptrs + ptrs[|had|..], slabs);
          madeProgress := true;
          continue;
        }
        var empty := Refill(ptrs);
        if !empty {
          continue;
        }
        InstalledIff(t);
        if spare.Some? {
          FillingInstalls(t, nregs);
          Install(spare.value, ptrs);
          t := t.(after := slabs);
          spare := None;
          continue;
        }
        retry := madeProgress;
        break;
      }
      FillingEnds(t, nfill - |ptrs0|, nregs);
      InstalledIff(t);
    }

    lemma InstalledIff(t: Stretch)
      ensures Installed(t) <==> t.spare.Some? && t.spare.value in t.after
    {
    }

    lemma NothingHeld(b: BinState)
      ensures Distinct([]) && Held(b, [], nregs)
    {
    }

    lemma HeldDependsOnSlabs(b: BinState, c: BinState, ptrs: seq<Region>)
      requires Held(b, ptrs, nregs) && b.slabs == c.slabs
      ensures Held(c, ptrs, nregs)
    {
    }

    lemma HeldWithMore(b: BinState, ptrs: seq<Region>, s: Slab, d: SlabData)
      requires Held(b, ptrs, nregs) && s !in b.slabs
      ensures Held(b.(slabs := b.slabs[s := d]), ptrs, nregs)
    {
    }

    /** arena_cache_bin_fill_small, for a thread that already holds some regions.  Each
        round is one stretch without the lock. */
    method CacheBinFill(mine: seq<Region>, nfill: nat, rounds: seq<Round>)
      returns (ptrs: seq<Region>, returned: Option<Slab>, asked: nat, ghost ts: seq<Stretch>)
      requires Valid() && Distinct(mine) && Held(State(), mine, nregs)
      modifies this
      ensures Valid()
      ensures |ptrs| <= nfill && Distinct(mine + ptrs) && Held(State(), mine + ptrs, nregs)
      ensures Filled(ts, old(slabs), mine, nfill, rounds, nregs, returned)
      ensures ptrs == Taken(ts) && slabs == ts[|ts| - 1].after
      ensures |ptrs| < nfill ==> slabcur.None? && nonfull == {} && returned.None?
      ensures forall k :: 0 <= k < |ts| && ts[k].spare.Some? ==> ts[k].spare.value in slabs || returned == ts[k].spare
      ensures |ts| == asked + 1
      ensures |ptrs| < nfill ==>
                asked > 0 && (asked <= |rounds| ==> rounds[asked - 1].obtained.None? || rounds[asked - 1].obtained.value in slabs)
      ensures forall k {:trigger rounds[k]} :: 0 <= k < asked && k < |rounds| ==>
                && ts[k + 1].before == (if Closed(rounds[k].others, nregs) && Held(rounds[k].others, mine + Taken(ts[..k + 1]), nregs)
                                        then rounds[k].others.slabs else ts[k].after)
                && ts[k + 1].spare == (if rounds[k].obtained.Some? && rounds[k].obtained.value !in ts[k + 1].before
                                       then rounds[k].obtained else None)
    {
      hide Closed, Open, Distinct, Held, TookOut, HasFree, Locked, Between, IsFill;
      var all, target := mine, |mine| + nfill;
      var madeProgress, spare, round := true, None, 0;
      ts := [];
      while true
        invariant Valid() && Distinct(all) && Held(State(), all, nregs) && |all| <= target
        invariant all == mine + Taken(ts) && round == |ts|
        invariant spare.Some? ==> spare.value !in slabs
        invariant |Taken(ts)| <= nfill
        invariant round == 0 ==> ts == [] && spare.None? && madeProgress && slabs == old(slabs)
        invariant round > 0 ==>
                    && IsFill(ts, old(slabs), mine, nfill, rounds, nregs) && |all| < target && !madeProgress
                    && forall ptrs :: Between(ts[round - 1], Stretch(slabs, spare, ptrs, slabs), rounds, round - 1, all, nregs)
        decreases target - |all|, madeProgress
      {
        var allocAndRetry;
        ghost var had, was, spare0 := all, slabs, spare;
        all, spare, madeProgress, allocAndRetry := FillLocked(all, spare, madeProgress, target);
        ghost var t := Stretch(was, spare0, all[|had|..], slabs);
        if round > 0 {
          assert Between(ts[round - 1], Stretch(was, spare0, [], was), rounds, round - 1, had, nregs);
        }
        FillGrows(ts, t, old(slabs), mine, nfill, rounds);
        ts := ts + [t];
        if !allocAndRetry {
          break;
        }
        spare := SlabAlloc(rounds, round, all, t);
        round := round + 1;
        madeProgress := false;
      }
      returned, ptrs, asked := spare, all[|mine|..], round;
      assert all == mine + ptrs && ptrs == Taken(ts);
      ObtainedArePlaced(ts, old(slabs), mine, nfill, rounds, State());
      AskedInTurn(ts, old(slabs), mine, nfill, rounds);
      if |ptrs| < nfill {
        NothingFound(ts, old(slabs), mine, nfill, rounds);
      }
    }

    /** Each holding after the first begins with what others left, and with the slab the
        stretch before it gave if that one is not in the bin. */
    lemma {:induction false} AskedInTurn(ts: seq<Stretch>, x: Slabs, mine: seq<Region>, nfill: nat, rounds: seq<Round>)
      requires IsFill(ts, x, mine, nfill, rounds, nregs)
      ensures forall k {:trigger rounds[k]} :: 0 <= k < |ts| - 1 && k < |rounds| ==>
                && ts[k + 1].before == (if Closed(rounds[k].others, nregs) && Held(rounds[k].others, mine + Taken(ts[..k + 1]), nregs)
                                        then rounds[k].others.slabs else ts[k].after)
                && ts[k + 1].spare == (if rounds[k].obtained.Some? && rounds[k].obtained.value !in ts[k + 1].before
                                       then rounds[k].obtained else None)
      decreases |ts|
    {
      hide Closed, Held, Locked;
      var n := |ts| - 1;
      if n > 0 {
        AskedInTurn(ts[..n], x, mine, nfill, rounds);
        assert forall k {:trigger rounds[k]} :: 0 <= k < n - 1 && k < |rounds| ==> ts[..n][..k + 1] == ts[..k + 1];
      }
    }

    /** A last holding that took nothing left the bin as it found it. */
    lemma NothingFound(ts: seq<Stretch>, x: Slabs, mine: seq<Region>, nfill: nat, rounds: seq<Round>)
      requires IsFill(ts, x, mine, nfill, rounds, nregs) && |ts| > 1
      requires ts[|ts| - 1].ptrs == [] && ts[|ts| - 1].spare.None?
      ensures var n := |ts| - 1;
              n <= |rounds| ==> rounds[n - 1].obtained.None? || rounds[n - 1].obtained.value in ts[n].after
    {
      hide Closed, Held, FirstFit, HasFree, Interfered;
      TookKeys(ts[|ts| - 1].before, ts[|ts| - 1].after, []);
    }

    /** arena_slab_alloc, with the lock dropped. */
    method SlabAlloc(rounds: seq<Round>, k: nat, held: seq<Region>, ghost t: Stretch) returns (spare: Option<Slab>)
      requires Valid() && Held(State(), held, nregs) && slabs == t.after && (k > 0 ==> t.ptrs != [])
      modifies this
      ensures Valid() && Held(State(), held, nregs) && (spare.Some? ==> spare.value !in slabs)
      ensures forall ptrs :: Between(t, Stretch(slabs, spare, ptrs, slabs), rounds, k, held, nregs)
      ensures k >= |rounds| ==> spare.None? && State() == old(State())
      ensures k < |rounds| ==>
                && State() == (if Closed(rounds[k].others, nregs) && Held(rounds[k].others, held, nregs) then rounds[k].others
                               else old(State()))
                && spare == (if rounds[k].obtained.Some? && rounds[k].obtained.value !in slabs then rounds[k].obtained else None)
    {
      hide Closed, Held, Interfered;
      spare := None;
      if k < |rounds| {
        LetOthersRun(rounds[k].others, held);
        spare := if rounds[k].obtained.Some? && rounds[k].obtained.value !in slabs then rounds[k].obtained else None;
      }
    }

    lemma ObtainedArePlaced(ts: seq<Stretch>, x: Slabs, mine: seq<Region>, nfill: nat, rounds: seq<Round>, b: BinState)
      requires IsFill(ts, x, mine, nfill, rounds, nregs) && Held(b, mine + Taken(ts), nregs)
      ensures forall k :: 0 <= k < |ts| && ts[k].spare.Some? && (k < |ts| - 1 || Installed(ts[k])) ==>
                ts[k].spare.value in b.slabs
    {
      hide IsFill, Installed;
      forall k | 0 <= k < |ts| && ts[k].spare.Some? && (k < |ts| - 1 || Installed(ts[k]))
        ensures ts[k].spare.value in b.slabs
      {
        ObtainedAreUsed(ts, x, mine, nfill, rounds, nregs, k);
        var r :| (ts[k].spare.value, r) in Taken(ts);
        assert (ts[k].spare.value, r) in mine + Taken(ts);
      }
    }

    /** One more holding of a fill. */
    lemma FillGrows(ts: seq<Stretch>, t: Stretch, x: Slabs, mine: seq<Region>, nfill: nat, rounds: seq<Round>)
      requires |Taken(ts)| <= nfill && Locked(t, nfill - |Taken(ts)|, nregs)
      requires ts == [] ==> t.before == x && t.spare.None?
      requires ts != [] ==> IsFill(ts, x, mine, nfill, rounds, nregs) && |Taken(ts)| < nfill
      requires ts != [] ==>
        Between(ts[|ts| - 1], Stretch(t.before, t.spare, [], t.before), rounds, |ts| - 1, mine + Taken(ts), nregs)
      ensures IsFill(ts + [t], x, mine, nfill, rounds, nregs) && Taken(ts + [t]) == Taken(ts) + t.ptrs
    {
      hide Locked;
      assert (ts + [t])[..|ts|] == ts;
    }

    /** arena_bin_malloc_no_fresh_slab. */
    method MallocNoFresh(mine: seq<Region>) returns (ptr: Option<Region>)
      requires Valid() && Distinct(mine) && Held(State(), mine, nregs)
      modifies this
      ensures Valid()
      ensures ptr.Some? <==> HasFree(old(slabs))
      ensures ptr.None? ==> slabcur.None? && nonfull == {} && slabs == old(slabs) && Held(State(), mine, nregs)
      ensures ptr.Some? ==> Distinct(mine + [ptr.value]) && Held(State(), mine + [ptr.value], nregs)
      ensures ptr.Some? ==> TookOut(old(slabs), slabs, [ptr.value]) && FirstFit(None, [ptr.value], slabs)
    {
      hide Closed, Open, Distinct, Held, HasFree, TookOut, FirstFit;
      ClosedIsOpen(State(), nregs);
      if slabcur.None? || slabs[slabcur.value].nfree == 0 {
        var empty := Refill(mine);
        if empty {
          return None;
        }
      }
      SomeFree(State(), nregs, slabcur.value);
      ptr := TakeOne(mine);
    }

    /** arena_slab_reg_alloc on slabcur. */
    method TakeOne(mine: seq<Region>) returns (ptr: Option<Region>)
      requires Open(State(), nregs) && slabcur.Some? && slabs[slabcur.value].nfree > 0
      requires Distinct(mine) && Held(State(), mine, nregs)
      modifies this`slabs
      ensures Closed(State(), nregs)
      ensures ptr.Some? && Distinct(mine + [ptr.value]) && Held(State(), mine + [ptr.value], nregs)
      ensures TookOut(old(slabs), slabs, [ptr.value]) && FirstFit(None, [ptr.value], slabs)
    {
      hide Closed, Open, Distinct, Held, TookOut, FirstFit;
      var all := BatchInto(mine, |mine| + 1);
      ptr := Some(all[|mine|]);
      assert all == mine + [ptr.value] && all[|mine|..] == [ptr.value];
    }

    /** arena_malloc_small: fails only if no slab could be had and none is left in the bin;
        a slab obtained but not needed is given back. */
    method MallocSmall(mine: seq<Region>, round: Round) returns (ptr: Option<Region>, returned: Option<Slab>)
      requires Valid() && Distinct(mine) && Held(State(), mine, nregs)
      modifies this
      ensures Valid()
      ensures ptr.None? ==> slabcur.None? && nonfull == {} && Held(State(), mine, nregs)
      ensures ptr.Some? ==> Distinct(mine + [ptr.value]) && Held(State(), mine + [ptr.value], nregs)
      ensures Malloced(old(slabs), mine, round, slabs, ptr, nregs)
      ensures returned == Unneeded(old(slabs), mine, round, nregs)
      ensures (exists s :: s in old(slabs) && old(slabs)[s].nfree > 0) ==>
                ptr.Some? && ptr.value.0 in old(slabs) && ptr.value.1 in old(slabs)[ptr.value.0].free && returned.None?
      ensures (forall s :: s in old(slabs) ==> old(slabs)[s].nfree == 0) ==>
                var left := if Closed(round.others, nregs) && Held(round.others, mine, nregs) then round.others.slabs else old(slabs);
                if exists s :: s in left && left[s].nfree > 0 then
                  && ptr.Some? && ptr.value.0 in left && ptr.value.1 in left[ptr.value.0].free
                  && returned == (if round.obtained.Some? && round.obtained.value !in left then round.obtained else None)
                else if round.obtained.Some? && round.obtained.value !in left then
                  ptr == Some((round.obtained.value, 0)) && returned.None? && slabs.Keys == left.Keys + {round.obtained.value}
                else ptr.None? && returned.None? && slabs == left
    {
      hide Closed, Open, Distinct, Held, TookOut, HasFree, Interfered, FirstFit, Malloced, Unneeded;
      returned := None;
      ptr := MallocNoFresh(mine);
      ghost var mid := slabs;
      if ptr.None? {
        LetOthersRun(round.others, mine);
        mid := slabs;
        var spare := if round.obtained.Some? && round.obtained.value !in slabs then round.obtained else None;
        ptr := MallocNoFresh(mine);
        if ptr.Some? {
          returned := spare;
        } else if spare.Some? {
          ClosedIsOpen(State(), nregs);
          Install(spare.value, mine);
          ptr := TakeOne(mine);
        }
      }
      MallocedBy(old(slabs), mine, round, mid, slabs, ptr);
      MallocedIs(old(State()), mine, round, slabs, ptr);
    }

    lemma MallocedBy(a: Slabs, mine: seq<Region>, round: Round, mid: Slabs, b: Slabs, ptr: Option<Region>)
      requires ptr.Some? ==> FirstFit(None, [ptr.value], b)
      requires HasFree(a) ==> ptr.Some? && TookOut(a, b, [ptr.value])
      requires !HasFree(a) ==> mid == Interfered(a, round.others, mine, nregs)
      requires !HasFree(a) && HasFree(mid) ==> ptr.Some? && TookOut(mid, b, [ptr.value])
      requires var spare := Obtained(round, mid);
               !HasFree(a) && !HasFree(mid) ==>
                 if spare.Some? then ptr.Some? && TookOut(mid[spare.value := FreshSlab(nregs)], b, [ptr.value])
                 else ptr.None? && b == mid
      ensures Malloced(a, mine, round, b, ptr, nregs)
      ensures Unneeded(a, mine, round, nregs) == if !HasFree(a) && HasFree(mid) then Obtained(round, mid) else None
    {
    }

    /** Where the region comes from, and that a fresh slab serves its first one. */
    lemma MallocedIs(a: BinState, mine: seq<Region>, round: Round, b: Slabs, ptr: Option<Region>)
      requires Closed(a, nregs) && nregs > 0 && Malloced(a.slabs, mine, round, b, ptr, nregs)
      ensures (exists s :: s in a.slabs && a.slabs[s].nfree > 0) ==>
                && ptr.Some? && ptr.value.0 in a.slabs && ptr.value.1 in a.slabs[ptr.value.0].free
                && Unneeded(a.slabs, mine, round, nregs).None?
      ensures (forall s :: s in a.slabs ==> a.slabs[s].nfree == 0) ==>
                var left := if Closed(round.others, nregs) && Held(round.others, mine, nregs) then round.others.slabs else a.slabs;
                var returned := Unneeded(a.slabs, mine, round, nregs);
                if exists s :: s in left && left[s].nfree > 0 then
                  && ptr.Some? && ptr.value.0 in left && ptr.value.1 in left[ptr.value.0].free
                  && returned == (if round.obtained.Some? && round.obtained.value !in left then round.obtained else None)
                else if round.obtained.Some? && round.obtained.value !in left then
                  ptr == Some((round.obtained.value, 0)) && returned.None? && b.Keys == left.Keys + {round.obtained.value}
                else ptr.None? && returned.None? && b == left
    {
      hide Held;
      var left := Interfered(a.slabs, round.others, mine, nregs);
      SlabsOk(a, nregs);
      if left != a.slabs { SlabsOk(round.others, nregs); }
      hide Closed, FirstFit, TookOut, AllRegs;
      if HasFree(a.slabs) {
        TakenIsFree(a.slabs, b, ptr.value);
      } else if HasFree(left) {
        TakenIsFree(left, b, ptr.value);
      } else if Obtained(round, left).Some? {
        FreshServesFirst(left, round.obtained.value, b, ptr.value);
      }
    }

    lemma TakenIsFree(a: Slabs, b: Slabs, p: Region)
      requires TookOut(a, b, [p])
      ensures p.0 in a && p.1 in a[p.0].free
    {
      assert p in [p];
    }

    lemma FreshServesFirst(x: Slabs, s: Slab, b: Slabs, p: Region)
      requires s !in x && (forall t :: t in x ==> SlabOk(x[t], nregs) && x[t].nfree == 0) && nregs > 0
      requires TookOut(x[s := FreshSlab(nregs)], b, [p]) && FirstFit(None, [p], b)
      ensures p == (s, 0) && b.Keys == x.Keys + {s}
    {
      assert p in [p];
      assert p.0 == s && 0 in FreshSlab(nregs).free;
      assert 0 in b[s].free <==> (s, 0) !in [p];
    }

    /** arena_bin_lower_slab, on a slab that is in none of the bin's places. */
    method LowerSlab(slab: Slab, d: SlabData)
      requires Valid() && slab !in slabs && SlabOk(d, nregs) && 0 < d.nfree < nregs
      modifies this
      ensures Valid() && slabs == old(slabs)[slab := d]
      ensures slabcur == if old(slabcur).Some? && slab.Less(old(slabcur).value) then Some(slab) else old(slabcur)
    {
      hide Closed;
      LowerOk(State(), nregs, slab, d);
      ClosedIsOpen(State(), nregs);
      if slabcur.Some? && slab.Less(slabcur.value) {
        if slabs[slabcur.value].nfree > 0 {
          nonfull := nonfull + {slabcur.value};
        } else {
          full := full + {slabcur.value};
        }
        slabcur := Some(slab);
      } else {
        nonfull := nonfull + {slab};
      }
      slabs := slabs[slab := d];
    }

    /** arena_dalloc_bin_locked_step with arena_dissociate_bin_slab: frees one region, and
        gives up the slab when that was its last. */
    method Dalloc(slab: Slab, reg: nat) returns (emptied: bool)
      requires Valid() && slab in slabs && reg < nregs && reg !in slabs[slab].free
      modifies this
      ensures Valid()
      ensures emptied <==> old(slabs)[slab].nfree + 1 == nregs
      ensures slabs == if emptied then old(slabs) - {slab}
                       else old(slabs)[slab := SlabData(old(slabs)[slab].free + {reg}, old(slabs)[slab].nfree + 1)]
      ensures slabcur == if emptied && old(slabcur) == Some(slab) then None
                         else if !emptied && old(slabs)[slab].nfree == 0 && old(slabcur).Some? && slab.Less(old(slabcur).value) then Some(slab)
                         else old(slabcur)
    {
      hide Closed;
      ClosedIsOpen(State(), nregs);
      WhereSlabIs(State(), nregs, slab);
      WithoutOk(State(), nregs, slab);
      var d := SlabData(slabs[slab].free + {reg}, slabs[slab].nfree + 1);
      FreeAtMost(d, nregs);
      if d.nfree == nregs {
        if slabcur == Some(slab) {
          slabcur := None;
        } else if nregs == 1 {
          full := full - {slab};
        } else {
          nonfull := nonfull - {slab};
        }
        slabs := slabs - {slab};
        return true;
      }
      if d.nfree == 1 && slabcur != Some(slab) {
        full := full - {slab};
        slabs := slabs - {slab};
        LowerSlab(slab, d);
      } else {
        FreedOk(State(), nregs, slab, d);
        slabs := slabs[slab := d];
      }
      return false;
    }

    /** The loop of arena_fill_small_fresh, without the lock: regions from fresh slabs
        only.  All but the last slab are used up. */
    method FillFromFresh(nfill: nat, supply: seq<Slab>)
      returns (ptrs: seq<Region>, fulls: map<Slab, SlabData>, last: Option<Slab>, lastData: SlabData)
      requires nregs > 0
      ensures |ptrs| <= nfill && Distinct(ptrs)
      ensures |ptrs| < nfill ==> last.None? && forall s :: s in supply ==> s in slabs || s in fulls
      ensures forall s :: s in fulls ==> s in supply && s !in slabs && fulls[s] == SlabData({}, 0)
      ensures last.Some? ==>
                && last.value in supply && last.value !in slabs && last.value !in fulls
                && SlabOk(lastData, nregs) && 0 < lastData.nfree < nregs
      ensures Served(if last.Some? then fulls[last.value := lastData] else fulls, ptrs, nregs)
    {
      hide Distinct, IsLowest, Served;
      ptrs, fulls, last, lastData := [], map[], None, SlabData({}, 0);
      NothingServed(fulls);
      var i := 0;
      while |ptrs| < nfill && i < |supply|
        invariant i <= |supply| && |ptrs| <= nfill && Distinct(ptrs)
        invariant last.Some? ==> |ptrs| == nfill
        invariant forall s :: s in supply[..i] ==> s in slabs || s in fulls || last == Some(s)
        invariant forall s :: s in fulls ==> s in supply && s !in slabs
        invariant forall s :: s in fulls ==> fulls[s] == SlabData({}, 0)
        invariant last.Some? ==>
                    && last.value in supply && last.value !in slabs && last.value !in fulls
                    && SlabOk(lastData, nregs) && 0 < lastData.nfree < nregs
        invariant Served(if last.Some? then fulls[last.value := lastData] else fulls, ptrs, nregs)
        decreases |supply| - i
      {
        var slab := supply[i];
        assert supply[..i + 1] == supply[..i] + [slab];
        i := i + 1;
        if slab in slabs || slab in fulls {
          continue;
        }
        var batch := if nfill - |ptrs| > nregs then nregs else nfill - |ptrs|;
        var d, regs := RegAllocBatch(FreshSlab(nregs), batch);
        FreshTaken(fulls, ptrs, slab, regs, d);
        ptrs := ptrs + Regions(slab, regs);
        if batch == nregs {
          assert d.free == {};
          fulls := fulls[slab := d];
        } else {
          last, lastData := Some(slab), d;
        }
      }
    }

    lemma FreshTaken(made: Slabs, ptrs: seq<Region>, slab: Slab, regs: seq<nat>, d: SlabData)
      requires Served(made, ptrs, nregs) && Distinct(ptrs) && slab !in made
      requires |regs| <= nregs && IsLowest(AllRegs(nregs), |regs|, regs)
      requires d == SlabData(AllRegs(nregs) - Elements(regs), nregs - |regs|)
      ensures Distinct(ptrs + Regions(slab, regs)) && Served(made[slab := d], ptrs + Regions(slab, regs), nregs)
    {
      hide TookOut, Held, Distinct;
      var x, fresh0 := made[slab := FreshSlab(nregs)], WithFresh(map[], made.Keys, nregs);
      HeldWithMore(BinState(None, {}, {}, made), ptrs, slab, FreshSlab(nregs));
      TakenAreNew(BinState(None, {}, {}, x), ptrs, slab, regs, nregs - |regs|, nregs);
      assert x[slab := d] == made[slab := d];
      assert WithFresh(map[], made[slab := d].Keys, nregs) == fresh0[slab := FreshSlab(nregs)];
      TookBatch(x, slab, regs, nregs - |regs|);
      TookBeside(fresh0, made, ptrs, slab, FreshSlab(nregs));
      TookMore(fresh0[slab := FreshSlab(nregs)], x, made[slab := d], ptrs, Regions(slab, regs));
    }

    lemma NothingServed(x: Slabs)
      requires x == map[]
      ensures Distinct([]) && Served(x, [], nregs)
    {
      TookNothing(x);
    }

    /** arena_fill_small_fresh.  Others may change the bin until the lock is taken. */
    method FillSmallFresh(mine: seq<Region>, nfill: nat, supply: seq<Slab>, others: BinState)
      returns (ptrs: seq<Region>)
      requires Valid() && Distinct(mine) && Held(State(), mine, nregs)
      modifies this
      ensures Valid()
      ensures Distinct(mine + ptrs) && Held(State(), mine + ptrs, nregs)
      ensures FilledFresh(Interfered(old(slabs), others, mine, nregs), nfill, supply, slabs, ptrs, nregs)
    {
      hide Closed, Open, TookOut, Held, Distinct, Interfered, FilledFresh;
      LetOthersRun(others, mine);
      var fulls, last, lastData;
      ptrs, fulls, last, lastData := FillFromFresh(nfill, supply);
      ghost var before := State();
      ghost var made := if last.Some? then fulls[last.value := lastData] else fulls;
      if last.Some? {
        LowerSlab(last.value, lastData);
      }
      FullsOk(State(), nregs, fulls);
      full := full + fulls.Keys;
      slabs := slabs + fulls;
      assert slabs == before.slabs + made;
      FilledFreshIs(before.slabs, nfill, supply, fulls, last, lastData, ptrs);
      ApartAreDistinct(before, mine, made, ptrs);
      HeldDependsOnSlabs(before.(slabs := before.slabs + made), State(), mine + ptrs);
    }

    lemma FilledFreshIs(x: Slabs, nfill: nat, supply: seq<Slab>, fulls: Slabs, last: Option<Slab>, d: SlabData,
                        ptrs: seq<Region>)
      requires |ptrs| <= nfill && x.Keys !! fulls.Keys && nregs > 0
      requires |ptrs| < nfill ==> forall s :: s in supply ==> s in x || s in fulls
      requires forall s :: s in fulls ==> s in supply && fulls[s] == SlabData({}, 0)
      requires last.Some? ==> last.value in supply && last.value !in x && last.value !in fulls && d.nfree < nregs
      requires var made := if last.Some? then fulls[last.value := d] else fulls;
               TookOut(WithFresh(map[], made.Keys, nregs), made, ptrs) && LowFirst(made, ptrs)
      ensures FilledFresh(x, nfill, supply, x + (if last.Some? then fulls[last.value := d] else fulls), ptrs, nregs)
    {
      hide TookOut, WithFresh;
      var made := if last.Some? then fulls[last.value := d] else fulls;
      var b := x + made;
      assert b.Keys == x.Keys + made.Keys && b.Keys - x.Keys == made.Keys;
      FreshBeside(x, made.Keys);
      TookApart(x, WithFresh(map[], made.Keys, nregs), made, ptrs);
    }

    lemma FreshBeside(x: Slabs, more: set<Slab>)
      ensures WithFresh(x, more, nregs) == x + WithFresh(map[], more, nregs)
      ensures WithFresh(map[], more, nregs).Keys == more
    {
    }

    lemma TookApart(x: Slabs, a: Slabs, b: Slabs, ptrs: seq<Region>)
      requires TookOut(a, b, ptrs) && x.Keys !! a.Keys
      ensures TookOut(x + a, x + b, ptrs)
    {
      forall s, r | s in x + a ensures r in (x + b)[s].free <==> r in (x + a)[s].free && (s, r) !in ptrs {
        if s in a { assert r in b[s].free <==> r in a[s].free && (s, r) !in ptrs; }
      }
    }

    lemma ApartAreDistinct(b: BinState, mine: seq<Region>, made: map<Slab, SlabData>, ptrs: seq<Region>)
      requires Held(b, mine, nregs) && Distinct(mine) && b.slabs.Keys !! made.Keys
      requires Held(BinState(None, {}, {}, made), ptrs, nregs) && Distinct(ptrs)
      ensures Distinct(mine + ptrs) && Held(b.(slabs := b.slabs + made), mine + ptrs, nregs)
    {
      var all := mine + ptrs;
      forall i, j | 0 <= i < j < |all| ensures all[i] != all[j] {
        if i < |mine| <= j { assert all[i] in mine && all[j] in ptrs; }
      }
    }
  }

  /** Slabs without free regions join the list of full slabs. */
  lemma FullsOk(b: BinState, nregs: nat, fulls: map<Slab, SlabData>)
    requires Closed(b, nregs) && b.slabs.Keys !! fulls.Keys
    requires forall s :: s in fulls ==> fulls[s] == SlabData({}, 0)
    ensures Closed(BinState(b.slabcur, b.nonfull, b.full + fulls.Keys, b.slabs + fulls), nregs)
  {
  }

  /** The slab leaves the bin from wherever it is. */
  function Without(b: BinState, slab: Slab): BinState {
    BinState(if b.slabcur == Some(slab) then None else b.slabcur, b.nonfull - {slab}, b.full - {slab}, b.slabs - {slab})
  }

  /** A slab is where its free regions say it is. */
  lemma WhereSlabIs(b: BinState, nregs: nat, slab: Slab)
    requires Closed(b, nregs) && slab in b.slabs
    ensures b.slabcur == Some(slab) ==> slab !in b.full && slab !in b.nonfull
    ensures b.slabcur != Some(slab) && b.slabs[slab].nfree == 0 ==> slab in b.full && slab !in b.nonfull
    ensures b.slabcur != Some(slab) && b.slabs[slab].nfree > 0 ==> slab in b.nonfull && slab !in b.full
    ensures Without(b, slab) ==
            BinState(if b.slabcur == Some(slab) then None else b.slabcur,
                     if b.slabcur != Some(slab) && b.slabs[slab].nfree > 0 then b.nonfull - {slab} else b.nonfull,
                     if b.slabcur != Some(slab) && b.slabs[slab].nfree == 0 then b.full - {slab} else b.full,
                     b.slabs - {slab})
  {
  }

  lemma WithoutOk(b: BinState, nregs: nat, slab: Slab)
    requires Closed(b, nregs) && slab in b.slabs
    ensures Closed(Without(b, slab), nregs)
  {
  }

  lemma FreedOk(b: BinState, nregs: nat, slab: Slab, d: SlabData)
    requires Closed(b, nregs) && slab in b.slabs && SlabOk(d, nregs) && 0 < d.nfree < nregs
    requires b.slabcur == Some(slab) || slab in b.nonfull
    ensures Closed(b.(slabs := b.slabs[slab := d]), nregs)
  {
  }

  /** arena_bin_lower_slab as a function of the bin. */
  function Lower(b: BinState, slab: Slab, d: SlabData): BinState
    requires b.slabcur.Some? ==> b.slabcur.value in b.slabs
  {
    var slabs := b.slabs[slab := d];
    if b.slabcur.Some? && slab.Less(b.slabcur.value) then
      if b.slabs[b.slabcur.value].nfree > 0 then BinState(Some(slab), b.nonfull + {b.slabcur.value}, b.full, slabs)
      else BinState(Some(slab), b.nonfull, b.full + {b.slabcur.value}, slabs)
    else BinState(b.slabcur, b.nonfull + {slab}, b.full, slabs)
  }

  lemma LowerOk(b: BinState, nregs: nat, slab: Slab, d: SlabData)
    requires Closed(b, nregs) && slab !in b.slabs && SlabOk(d, nregs) && 0 < d.nfree < nregs
    ensures Closed(Lower(b, slab, d), nregs)
  {
  }

  // ----- whole runs

  datatype BinOp =
    | Malloc(round: Round)
    | Fill(nfill: nat, rounds: seq<Round>)
    | FillFresh(nfill: nat, supply: seq<Slab>, others: BinState)
    | Free(which: nat)
    | Interference(others: BinState)

  /** The bin's slabs, the regions the thread holds and the slab that the last operation gave
      back to the arena, if any. */
  datatype Config = Config(slabs: Slabs, live: seq<Region>, back: Option<Slab>)

  /** What one operation does to the slabs and to the regions held. */
  ghost predicate Does(op: BinOp, a: Config, b: Config, nregs: nat) {
    match op
    case Malloc(round) =>
      && a.live <= b.live && |b.live| <= |a.live| + 1
      && var ptr := if |b.live| > |a.live| then Some(b.live[|a.live|]) else None;
         Malloced(a.slabs, a.live, round, b.slabs, ptr, nregs) && b.back == Unneeded(a.slabs, a.live, round, nregs)
    case Fill(nfill, rounds) =>
      exists ts: seq<Stretch> :: Filled(ts, a.slabs, a.live, nfill, rounds, nregs, b.back) &&
                   ts[|ts| - 1].after == b.slabs && b.live == a.live + Taken(ts)
    case FillFresh(nfill, supply, others) =>
      a.live <= b.live && b.back.None? &&
      FilledFresh(Interfered(a.slabs, others, a.live, nregs), nfill, supply, b.slabs, b.live[|a.live|..], nregs)
    case Free(which) =>
      if which < |a.live| then
        b.live == a.live[..which] + a.live[which + 1..] && Freed(a.slabs, a.live[which], b.slabs, b.back, nregs)
      else b == a.(back := None)
    case Interference(others) =>
      b.live == a.live && b.back.None? && b.slabs == Interfered(a.slabs, others, a.live, nregs)
  }

  /** The region is free again; a slab that becomes entirely free leaves the bin. */
  ghost predicate Freed(a: Slabs, p: Region, b: Slabs, back: Option<Slab>, nregs: nat) {
    && p.0 in a
    && if a[p.0].nfree + 1 == nregs then b == a - {p.0} && back == Some(p.0)
       else b == a[p.0 := SlabData(a[p.0].free + {p.1}, a[p.0].nfree + 1)] && back.None?
  }

  ghost predicate Trace(ops: seq<BinOp>, trace: seq<Config>, nregs: nat) {
    && |trace| == |ops| + 1
    && forall i :: 0 <= i < |ops| ==> Does(ops[i], trace[i], trace[i + 1], nregs)
  }

  /** Every run of a thread's allocations and frees, whatever others do in between: each
      operation takes or gives back exactly the regions it says, the bin invariant holds at
      the end, and the regions the thread holds are distinct and allocated, so no allocation
      ever hands out a region that is in use. */
  method Run(bin: Bin, ops: seq<BinOp>) returns (live: seq<Region>, ghost trace: seq<Config>)
    requires bin.Valid()
    modifies bin
    ensures bin.Valid() && Distinct(live) && Held(bin.State(), live, bin.nregs)
    ensures Trace(ops, trace, bin.nregs)
    ensures trace[0] == Config(old(bin.slabs), [], None)
    ensures trace[|ops|].slabs == bin.slabs && trace[|ops|].live == live
  {
    hide Closed, Open, Bin.State, Held, Distinct, Does;
    live := [];
    trace := [Config(bin.slabs, [], None)];
    bin.NothingHeld(bin.State());
    for i := 0 to |ops|
      invariant bin.Valid() && Distinct(live) && Held(bin.State(), live, bin.nregs)
      invariant |trace| == i + 1 && trace[0] == Config(old(bin.slabs), [], None)
      invariant trace[i].slabs == bin.slabs && trace[i].live == live
      invariant forall j :: 0 <= j < i ==> Does(ops[j], trace[j], trace[j + 1], bin.nregs)
    {
      ghost var before := trace[i].back;
      var back;
      live, back := Perform(bin, ops[i], live, before);
      trace := trace + [Config(bin.slabs, live, back)];
    }
  }

  method Perform(bin: Bin, op: BinOp, live: seq<Region>, ghost before: Option<Slab>)
    returns (live': seq<Region>, back: Option<Slab>)
    requires bin.Valid() && Distinct(live) && Held(bin.State(), live, bin.nregs)
    modifies bin
    ensures bin.Valid() && Distinct(live') && Held(bin.State(), live', bin.nregs)
    ensures Does(op, Config(old(bin.slabs), live, before), Config(bin.slabs, live', back), bin.nregs)
  {
    hide Closed, Open, Bin.State, Held, Distinct, Malloced, Filled, FilledFresh, Interfered, Freed, TookOut, Unneeded;
    back := None;
    match op {
      case Malloc(round) =>
        var ptr;
        ptr, back := bin.MallocSmall(live, round);
        live' := if ptr.Some? then live + [ptr.value] else live;
      case Fill(nfill, rounds) =>
        var ptrs, asked;
        ghost var ts;
        ptrs, back, asked, ts := bin.CacheBinFill(live, nfill, rounds);
        live' := live + ptrs;
      case FillFresh(nfill, supply, others) =>
        var ptrs := bin.FillSmallFresh(live, nfill, supply, others);
        live' := live + ptrs;
        assert live'[|live|..] == ptrs;
      case Free(which) =>
        live' := live;
        if which < |live| {
          live', back := FreeOne(bin, live, which);
        }
      case Interference(others) =>
        live' := live;
        bin.LetOthersRun(others, live);
    }
  }

  method FreeOne(bin: Bin, live: seq<Region>, which: nat) returns (rest: seq<Region>, back: Option<Slab>)
    requires bin.Valid() && Distinct(live) && Held(bin.State(), live, bin.nregs) && which < |live|
    modifies bin
    ensures bin.Valid() && Distinct(rest) && Held(bin.State(), rest, bin.nregs)
    ensures rest == live[..which] + live[which + 1..] && Freed(old(bin.slabs), live[which], bin.slabs, back, bin.nregs)
  {
    var p := live[which];
    assert p in live;
    rest := live[..which] + live[which + 1..];
    assert forall q :: q in rest ==> q in live && q != p;
    ghost var before := bin.State();
    var emptied := bin.Dalloc(p.0, p.1);
    back := if emptied then Some(p.0) else None;
    if emptied {
      LastRegion(before, live, p, bin.nregs);
    }
  }

  /** When the last region of a slab is freed, no other region of it is held. */
  lemma LastRegion(b: BinState, live: seq<Region>, p: Region, nregs: nat)
    requires Held(b, live, nregs) && p in live && SlabOk(b.slabs[p.0], nregs) && b.slabs[p.0].nfree + 1 == nregs
    ensures forall q :: q in live && q.0 == p.0 ==> q == p
  {
    var free := b.slabs[p.0].free;
    forall q | q in live && q.0 == p.0 ensures q.1 == p.1 {
      if q.1 != p.1 {
        var more := free + {p.1} + {q.1};
        assert |more| == |free| + 2;
        assert more - AllRegs(nregs) == {};
        SubsetSize(more, AllRegs(nregs));
        assert false;
      }
    }
  }
}
