/** The metadata allocator of jemalloc/src/base.c: blocks of huge pages filled by bumping an
    offset, their unused tails filed by size class, and the counters kept along the way. */
module BaseAllocator {
  import opened Arith
  import opened Options

  const QUANTUM: nat := 16
  const CACHELINE: nat := 64
  const PAGE: nat := 4096
  const HUGEPAGE: nat := 0x20_0000
  const THP_THRESHOLD: nat := 2        // blocks before huge pages are used, in the auto mode
  const THP_THRESHOLD_A0: nat := 5

  // ----- alignment

  lemma GapIs(x: nat, a: nat, g: nat)
    requires a > 0 && g < a && Multiple(x + g, a)
    ensures Gap(x, a) == g
  {
    var h := Gap(x, a);
    var p, q := (x + g) / a, (x + h) / a;
    assert x + g == p * a && x + h == q * a;
    if p > q { MulMonotone(q + 1, p, a); }
    if p < q { MulMonotone(p + 1, q, a); }
  }

  lemma MultipleSum(x: nat, y: nat, a: nat)
    requires a > 0 && Multiple(x, a)
    ensures (x + y) % a == y % a
  {
    var p, q := x / a, y / a;
    assert x == p * a && y == q * a + y % a;
    assert (p + q) * a == p * a + q * a;
    QuotientIs(x + y, p + q, a);
  }

  /** Alignment does not depend on whole multiples in front. */
  lemma GapShift(base: nat, x: nat, a: nat)
    requires a > 0 && Multiple(base, a)
    ensures Gap(base + x, a) == Gap(x, a)
  {
    hide Gap;
    MultipleSum(base, x + Gap(x, a), a);
    GapIs(base + x, a, Gap(x, a));
  }

  lemma MultipleOfMultiple(x: nat, a: nat, d: nat)
    requires d > 0 && a > 0 && Multiple(a, d) && Multiple(x, a)
    ensures Multiple(x, d)
  {
    var m, q := a / d, x / a;
    assert x == q * (m * d) == (q * m) * d;
    QuotientIs(x, q * m, d);
  }

  /** Between quanta, the gap to an alignment stops a quantum short of it. */
  lemma QuantumGap(x: nat, a: nat)
    requires a > 0 && Multiple(a, QUANTUM) && x % QUANTUM == 0
    ensures Gap(x, a) <= a - QUANTUM && (x + Gap(x, a)) % QUANTUM == 0
  {
    hide Gap;
    MultipleOfMultiple(x + Gap(x, a), a, QUANTUM);
    QuantumStep(x, Gap(x, a), a);
  }

  lemma QuantumStep(x: nat, g: nat, a: nat)
    requires g < a && a % QUANTUM == 0 && x % QUANTUM == 0 && (x + g) % QUANTUM == 0
    ensures g <= a - QUANTUM
  {
  }

  lemma {:induction false} Pow2Divides(i: nat, j: nat)
    requires i <= j
    ensures Pow2(j) % Pow2(i) == 0
  {
    var p, q := Pow2(i), Pow2(j);
    if i == j {
      QuotientIs(q, 1, p);
    } else {
      Pow2Divides(i, j - 1);
      var h := Pow2(j - 1);
      assert q == h + h;
      MultipleSum(h, h, p);
    }
  }

  lemma Pow2Literals()
    ensures Pow2(4) == QUANTUM && Pow2(21) == HUGEPAGE
  {
    assert Pow2(8) == 0x100;
    assert Pow2(12) == 0x1000;
    assert Pow2(16) == 0x1_0000;
  }

  /** A power of two divides a huge page or is a multiple of it. */
  lemma Pow2AndHugepage(k: nat)
    ensures if k <= 21 then HUGEPAGE % Pow2(k) == 0 else Pow2(k) > HUGEPAGE && Pow2(k) % HUGEPAGE == 0
  {
    hide Pow2;
    Pow2Literals();
    if k <= 21 {
      Pow2Divides(k, 21);
    } else {
      Pow2Divides(21, k);
      Pow2Grows(21, k);
    }
  }

  lemma Pow2Grows(m: nat, n: nat)
    requires m < n
    ensures Pow2(m) < Pow2(n)
  {
  }

  /** Rounding an alignment up to quanta gives a power of two of at least a quantum. */
  lemma RoundedAlignment(k: nat)
    ensures AlignUp(Pow2(k), QUANTUM) == Pow2(if k < 4 then 4 else k)
    ensures AlignUp(Pow2(k), QUANTUM) % QUANTUM == 0
  {
    hide Pow2, Gap;
    Pow2Literals();
    if k < 4 {
      Pow2Grows(k, 4);
      GapIs(Pow2(k), QUANTUM, QUANTUM - Pow2(k));
    } else {
      Pow2Divides(4, k);
      GapIs(Pow2(k), QUANTUM, 0);
    }
  }

  /** The gap reckoned for a block that has not been mapped yet is enough wherever the block
      ends up. */
  lemma FreshGap(base: nat, header: nat, k: nat)
    requires base % HUGEPAGE == 0 && 0 < header <= HUGEPAGE
    ensures Gap(base + header, Pow2(k)) <= Gap(header, Pow2(k))
  {
    hide Pow2, Gap;
    Pow2AndHugepage(k);
    if k <= 21 {
      MultipleOfMultiple(base, HUGEPAGE, Pow2(k));
      GapShift(base, header, Pow2(k));
    } else {
      FreshGapLarge(base, header, Pow2(k));
    }
  }

  lemma FreshGapLarge(base: nat, header: nat, a: nat)
    requires base % HUGEPAGE == 0 && 0 < header <= HUGEPAGE < a && Multiple(a, HUGEPAGE)
    ensures Gap(base + header, a) <= Gap(header, a)
  {
    hide Gap, Multiple;
    var q, r := base / a, base % a;
    Remainder(base, a);
    assert base - r == q * a;
    MultipleIsMultiple(q, a);
    GapShift(base - r, r + header, a);
    MultipleIsMultiple(1, a);
    assert header + (a - header) == 1 * a && r + header + (a - r - header) == 1 * a;
    GapIs(header, a, a - header);
    GapIs(r + header, a, a - r - header);
  }

  lemma MultipleIsMultiple(q: nat, a: nat)
    requires a > 0
    ensures Multiple(q * a, a)
  {
    QuotientIs(q * a, q, a);
  }

  lemma Remainder(x: nat, a: nat)
    requires a > 0 && Multiple(a, HUGEPAGE) && x % HUGEPAGE == 0
    ensures x % a + HUGEPAGE <= a
  {
    var q := x / a;
    MultipleIsMultiple(q, a);
    MultipleOfMultiple(q * a, a, HUGEPAGE);
    HugepageStep(x, q * a, x % a, a);
  }

  lemma HugepageStep(x: nat, y: nat, r: nat, a: nat)
    requires x == y + r && r < a && x % HUGEPAGE == 0 && Multiple(y, HUGEPAGE) && Multiple(a, HUGEPAGE)
    ensures r + HUGEPAGE <= a
  {
  }

  // ----- size classes, in bytes

  ghost predicate Classes(c: seq<nat>) {
    && |c| > 0 && c[0] <= QUANTUM
    && forall i, j :: 0 <= i < j < |c| ==> c[i] < c[j]
  }

  /** sz_size2index: the least class that holds the size. */
  function SizeInd(c: seq<nat>, size: nat): (r: nat)
    ensures r <= |c|
  {
    CeilFrom(c, size, 0)
  }

  /** The greatest class that does not exceed the size. */
  function FloorInd(c: seq<nat>, size: nat): (r: nat)
    requires Classes(c) && size >= QUANTUM
    ensures r < |c| && c[r] <= size
  {
    SizeInd(c, size + 1) - 1
  }

  /** What is filed at or above the class of a request holds the request. */
  lemma FiledHighHolds(c: seq<nat>, request: nat, size: nat, i: nat)
    requires Classes(c) && size >= QUANTUM && SizeInd(c, request) <= i == FloorInd(c, size)
    ensures request <= size
  {
  }

  // ----- blocks

  /** A mapped block and its serial number: `used` is the bump offset, of which `taken` bytes
      are header and allocations and the rest alignment gaps. */
  datatype Block = Block(addr: nat, size: nat, used: nat, taken: nat, sn: nat)

  /** The order tails of one class are taken in. */
  predicate Older(b: Block, c: Block) { b.sn < c.sn || (b.sn == c.sn && b.addr < c.addr) }

  /** An allocation, as offsets into its block. */
  datatype Range = Range(block: nat, lo: nat, hi: nat)

  function Used(b: Block): nat { b.used }
  function Taken(b: Block): nat { b.taken }
  function Mapped(b: Block): nat { b.size }
  function Resident(b: Block): nat { AlignUp(b.used, PAGE) }
  function Huge(b: Block): nat { AlignUp(b.used, HUGEPAGE) }

  function Total(bs: seq<Block>, f: Block -> nat): nat {
    if bs == [] then 0 else Total(bs[..|bs| - 1], f) + f(bs[|bs| - 1])
  }

  lemma {:induction false} TotalAfter(bs: seq<Block>, i: nat, b: Block, f: Block -> nat)
    requires i < |bs|
    ensures Total(bs[i := b], f) == Total(bs, f) - f(bs[i]) + f(b)
  {
    var n := |bs| - 1;
    if i < n {
      TotalAfter(bs[..n], i, b, f);
      assert bs[i := b][..n] == bs[..n][i := b];
    } else {
      assert bs[i := b][..n] == bs[..n];
    }
  }

  lemma TotalPush(bs: seq<Block>, b: Block, f: Block -> nat)
    ensures Total(bs + [b], f) == Total(bs, f) + f(b)
  {
  }

  lemma {:induction false} TotalOrder(bs: seq<Block>, f: Block -> nat, g: Block -> nat)
    requires forall b :: b in bs ==> f(b) <= g(b)
    ensures Total(bs, f) <= Total(bs, g)
  {
    if bs != [] {
      TotalOrder(bs[..|bs| - 1], f, g);
    }
  }

  /** Rounding each block up to a unit: whole units, and less than one too many per block. */
  lemma {:induction false} TotalRounded(bs: seq<Block>, f: Block -> nat, unit: nat)
    requires unit > 0 && forall b :: b in bs ==> b.used <= f(b) < b.used + unit && f(b) % unit == 0
    ensures Total(bs, f) % unit == 0
    ensures Total(bs, Used) <= Total(bs, f) <= Total(bs, Used) + |bs| * (unit - 1)
  {
    if bs != [] {
      var n := |bs| - 1;
      TotalRounded(bs[..n], f, unit);
      assert bs[n] in bs && |bs| == n + 1;
      var total, last := Total(bs[..n], f), f(bs[n]);
      assert Total(bs, f) == total + last && Total(bs, Used) == Total(bs[..n], Used) + bs[n].used;
      hide Total;
      MultipleSum(total, last, unit);
      OneMore(n, unit - 1);
    }
  }

  lemma OneMore(n: nat, k: nat)
    ensures (n + 1) * k == n * k + k
  {
  }

  ghost predicate Placed(b: Block, header: nat) {
    && b.addr % HUGEPAGE == 0 && b.size % HUGEPAGE == 0
    && 0 < header <= b.taken <= b.used <= b.size
  }

  predicate Apart(b: Block, c: Block) { b.addr + b.size <= c.addr || c.addr + c.size <= b.addr }

  lemma PlacedOrder(b: Block, header: nat)
    requires Placed(b, header)
    ensures Taken(b) <= Resident(b) <= Huge(b) <= Mapped(b)
  {
    hide Gap;
    AlignUpIsLeast(b.used, HUGEPAGE, b.size);
    MultipleOfMultiple(AlignUp(b.used, HUGEPAGE), HUGEPAGE, PAGE);
    AlignUpIsLeast(b.used, PAGE, AlignUp(b.used, HUGEPAGE));
  }

  lemma AlignUpIsLeast(x: nat, a: nat, y: nat)
    requires a > 0 && x <= y && Multiple(y, a)
    ensures AlignUp(x, a) <= y
  {
    hide Gap;
    var z := AlignUp(x, a);
    if y < z { GapIs(x, a, y - x); }
  }

  /** The next state of a block from which an aligned allocation is bumped. */
  function Bumped(b: Block, usize: nat, a: nat): Block
    requires a > 0
  {
    b.(used := b.used + Gap(b.addr + b.used, a) + usize, taken := b.taken + usize)
  }

  /** Page boundaries crossed in memory are page boundaries crossed by the offset. */
  lemma Crossed(b: Block, c: Block, unit: nat)
    requires unit > 0 && HUGEPAGE % unit == 0 && b.addr % HUGEPAGE == 0 && c.addr == b.addr
    ensures AlignUp(c.addr + c.used, unit) - AlignUp(b.addr + b.used, unit)
         == AlignUp(c.used, unit) - AlignUp(b.used, unit)
  {
    hide Gap;
    MultipleOfMultiple(b.addr, HUGEPAGE, unit);
    GapShift(b.addr, b.used, unit);
    GapShift(b.addr, c.used, unit);
  }

  // ----- the allocator

  datatype Thp = Disabled | Auto | Always

  /** The tails that are filed are those of every block but one, unless used up. */
  ghost predicate Filed(classes: seq<nat>, blocks: seq<Block>, avail: seq<set<nat>>, except: int) {
    && |avail| == |classes|
    && forall i, id :: 0 <= i < |avail| ==> (id in avail[i] <==> FiledAt(classes, blocks, except, id, i))
  }

  ghost predicate FiledAt(classes: seq<nat>, blocks: seq<Block>, except: int, id: nat, i: nat) {
    && id < |blocks| && id != except
    && Classes(classes) && blocks[id].size - blocks[id].used >= QUANTUM
    && FloorInd(classes, blocks[id].size - blocks[id].used) == i
  }

  ghost predicate BlocksOk(header: nat, blocks: seq<Block>, limit: nat) {
    && (forall i :: 0 <= i < |blocks| ==> Placed(blocks[i], header) && blocks[i].size < limit)
    && forall i, j :: 0 <= i < j < |blocks| ==> Apart(blocks[i], blocks[j])
  }

  ghost predicate QuantaOk(blocks: seq<Block>, except: int) {
    forall i :: 0 <= i < |blocks| && i != except ==> blocks[i].used % QUANTUM == 0
  }

  /** Every allocation lies in the used part of its block, behind the header, and later ones
      lie behind earlier ones. */
  ghost predicate AllocsOk(header: nat, blocks: seq<Block>, allocs: seq<Range>) {
    && (forall k :: 0 <= k < |allocs| ==>
          && allocs[k].block < |blocks|
          && header <= allocs[k].lo <= allocs[k].hi <= blocks[allocs[k].block].used)
    && forall k, l :: 0 <= k < l < |allocs| && allocs[k].block == allocs[l].block ==> allocs[k].hi <= allocs[l].lo
  }

  /** The addresses of an allocation. */
  ghost predicate Occupies(blocks: seq<Block>, r: Range, x: nat)
    requires r.block < |blocks|
  {
    blocks[r.block].addr + r.lo <= x < blocks[r.block].addr + r.hi
  }

  /** No byte belongs to two allocations. */
  lemma AllocsDisjoint(header: nat, blocks: seq<Block>, limit: nat, allocs: seq<Range>, k: nat, l: nat, x: nat)
    requires BlocksOk(header, blocks, limit) && AllocsOk(header, blocks, allocs) && k < l < |allocs|
    ensures !(Occupies(blocks, allocs[k], x) && Occupies(blocks, allocs[l], x))
  {
  }

  lemma BumpedOk(header: nat, blocks: seq<Block>, limit: nat, id: nat, usize: nat, a: nat)
    requires BlocksOk(header, blocks, limit) && id < |blocks| && a > 0
    requires Bumped(blocks[id], usize, a).used <= blocks[id].size
    ensures BlocksOk(header, blocks[id := Bumped(blocks[id], usize, a)], limit)
  {
  }

  lemma BumpedQuanta(b: Block, usize: nat, a: nat)
    requires b.addr % HUGEPAGE == 0 && a > 0 && Multiple(a, QUANTUM) && Multiple(usize, a)
    ensures Bumped(b, usize, a).used % QUANTUM == 0
    ensures Multiple(b.addr + b.used + Gap(b.addr + b.used, a), a)
  {
    hide Gap;
    var x := b.addr + b.used + Gap(b.addr + b.used, a);
    MultipleOfMultiple(x, a, QUANTUM);
    MultipleOfMultiple(usize, a, QUANTUM);
    MultipleOfMultiple(b.addr, HUGEPAGE, QUANTUM);
    QuantumSum(b.addr, x, usize);
  }

  lemma QuantumSum(x: nat, y: nat, z: nat)
    requires x % QUANTUM == 0 && y % QUANTUM == 0 && z % QUANTUM == 0
    ensures (y + z - x) % QUANTUM == 0
  {
  }

  lemma QuantumTail(size: nat, used: nat)
    requires size % HUGEPAGE == 0 && used % QUANTUM == 0
    ensures (size - used) % QUANTUM == 0
  {
  }

  lemma BumpedAllocs(header: nat, blocks: seq<Block>, allocs: seq<Range>, id: nat, usize: nat, a: nat)
    requires AllocsOk(header, blocks, allocs) && id < |blocks| && a > 0 && header <= blocks[id].used
    ensures var b := Bumped(blocks[id], usize, a);
            AllocsOk(header, blocks[id := b], allocs + [Range(id, b.used - usize, b.used)])
  {
  }

  lemma ThpStep(used: nat, used': nat)
    requires used <= used'
    ensures var d := AlignUp(used', HUGEPAGE) - AlignUp(used, HUGEPAGE);
            0 <= d && d / HUGEPAGE * HUGEPAGE == d
  {
  }

  lemma ShapeBumped(header: nat, limit: nat, blocks: seq<Block>, allocs: seq<Range>, id: nat, usize: nat, a: nat)
    requires BlocksOk(header, blocks, limit) && QuantaOk(blocks, id) && AllocsOk(header, blocks, allocs)
    requires id < |blocks| && a > 0 && Multiple(a, QUANTUM) && Multiple(usize, a)
    requires Bumped(blocks[id], usize, a).used <= blocks[id].size
    ensures var b := blocks[id];
            var c := Bumped(b, usize, a);
            var after := blocks[id := c];
            && BlocksOk(header, after, limit) && QuantaOk(after, -1)
            && AllocsOk(header, after, allocs + [Range(id, c.used - usize, c.used)])
            && (c.size - c.used) % QUANTUM == 0
            && Multiple(b.addr + b.used + Gap(b.addr + b.used, a), a)
  {
    hide Gap, Multiple;
    assert Placed(blocks[id], header);
    BumpedQuanta(blocks[id], usize, a);
    BumpedOk(header, blocks, limit, id, usize, a);
    BumpedAllocs(header, blocks, allocs, id, usize, a);
    QuantumTail(blocks[id].size, Bumped(blocks[id], usize, a).used);
  }

  /** What a bump adds to each total. */
  lemma TotalsBumped(header: nat, limit: nat, blocks: seq<Block>, id: nat, usize: nat, a: nat)
    requires BlocksOk(header, blocks, limit) && id < |blocks| && a > 0
    ensures var b := blocks[id];
            var c := Bumped(b, usize, a);
            var after := blocks[id := c];
            var pages := AlignUp(c.addr + c.used, PAGE) - AlignUp(b.addr + b.used, PAGE);
            var huge := AlignUp(c.addr + c.used, HUGEPAGE) - AlignUp(b.addr + b.used, HUGEPAGE);
            && Total(after, Taken) == Total(blocks, Taken) + usize
            && Total(after, Resident) == Total(blocks, Resident) + pages
            && Total(after, Mapped) == Total(blocks, Mapped)
            && Total(after, Huge) == Total(blocks, Huge) + huge
            && 0 <= huge && huge / HUGEPAGE * HUGEPAGE == huge
  {
    hide Gap, Multiple, Total;
    var b := blocks[id];
    var c := Bumped(b, usize, a);
    assert Placed(b, header);
    TotalAfter(blocks, id, c, Taken);
    TotalAfter(blocks, id, c, Resident);
    TotalAfter(blocks, id, c, Mapped);
    TotalAfter(blocks, id, c, Huge);
    Crossed(b, c, PAGE);
    Crossed(b, c, HUGEPAGE);
    ThpStep(b.used, c.used);
  }

  lemma AlignUpWhole(x: nat, a: nat)
    requires a > 0
    ensures AlignUp(x, a) / a * a == AlignUp(x, a)
  {
  }

  /** sz_psz2ind; the last entry stands for everything larger. */
  function PageInd(psizes: seq<nat>, size: nat): (r: nat)
    requires |psizes| > 0
    ensures r < |psizes| && (size <= psizes[|psizes| - 1] ==> size <= psizes[r])
    ensures forall j :: 0 <= j < r ==> psizes[j] < size
  {
    var r := CeilFrom(psizes, size, 0);
    if r < |psizes| then r else |psizes| - 1
  }

  /** The size of the next block: the next page size class in the series, or enough for the
      header, the gap and the request. */
  function BlockSize(psizes: seq<nat>, pindLast: nat, header: nat, usize: nat, a: nat): nat
    requires a > 0 && |psizes| > 2 && pindLast < |psizes|
  {
    var minBlockSize := AlignUp(psizes[PageInd(psizes, header + Gap(header, a) + usize)], HUGEPAGE);
    var pindNext := if pindLast + 1 < |psizes| - 2 then pindLast + 1 else pindLast;
    var nextBlockSize := AlignUp(psizes[pindNext], HUGEPAGE);
    if minBlockSize > nextBlockSize then minBlockSize else nextBlockSize
  }

  lemma BlockSizeIsEnough(psizes: seq<nat>, pindLast: nat, header: nat, usize: nat, a: nat)
    requires a > 0 && |psizes| > 2 && pindLast < |psizes|
    requires header + Gap(header, a) + usize <= psizes[|psizes| - 1]
    ensures var size := BlockSize(psizes, pindLast, header, usize, a);
            size % HUGEPAGE == 0 && header + Gap(header, a) + usize <= size
  {
  }

  /** The block is no smaller than the next class of the series, and no larger than whole huge
      pages of that class or of the first class that holds the request. */
  lemma BlockSizeIsLeast(psizes: seq<nat>, pindLast: nat, header: nat, usize: nat, a: nat, y: nat)
    requires a > 0 && |psizes| > 2 && pindLast < |psizes| && Multiple(y, HUGEPAGE)
    requires psizes[if pindLast + 1 < |psizes| - 2 then pindLast + 1 else pindLast] <= y
    requires exists i :: 0 <= i < |psizes| && header + Gap(header, a) + usize <= psizes[i] <= y
    requires forall i, j :: 0 <= i < j < |psizes| ==> psizes[i] < psizes[j]
    ensures var size := BlockSize(psizes, pindLast, header, usize, a);
            psizes[if pindLast + 1 < |psizes| - 2 then pindLast + 1 else pindLast] <= size <= y
  {
    hide Gap;
    var need := header + Gap(header, a) + usize;
    var i :| 0 <= i < |psizes| && need <= psizes[i] <= y;
    assert PageInd(psizes, need) <= i;
    AlignUpIsLeast(psizes[PageInd(psizes, need)], HUGEPAGE, y);
    AlignUpIsLeast(psizes[if pindLast + 1 < |psizes| - 2 then pindLast + 1 else pindLast], HUGEPAGE, y);
  }

  lemma AlignmentFacts(k: nat, size: nat)
    ensures var a := AlignUp(Pow2(k), QUANTUM);
            && a >= QUANTUM && a == Pow2(if k < 4 then 4 else k) && Multiple(a, QUANTUM) && Multiple(a, Pow2(k))
            && size <= AlignUp(size, a) && Multiple(AlignUp(size, a), a)
  {
    hide Pow2, Gap;
    RoundedAlignment(k);
    Pow2Divides(k, if k < 4 then 4 else k);
  }

  /** A tail of the size asked for holds the request wherever it has to be aligned. */
  lemma TailHolds(b: Block, usize: nat, a: nat)
    requires b.addr % HUGEPAGE == 0 && b.used % QUANTUM == 0 && a > 0 && Multiple(a, QUANTUM)
    requires b.used <= b.size && usize + a - QUANTUM <= b.size - b.used
    ensures Bumped(b, usize, a).used <= b.size
  {
    hide Gap, Multiple;
    assert b.addr % QUANTUM == 0;
    QuantumSum(0, b.addr, b.used);
    QuantumGap(b.addr + b.used, a);
  }

  lemma BlockAt(header: nat, blocks: seq<Block>, limit: nat, id: nat)
    requires BlocksOk(header, blocks, limit) && id < |blocks|
    ensures Placed(blocks[id], header)
  {
  }

  lemma FiledAgain(classes: seq<nat>, was: seq<Block>, blocks: seq<Block>, avail: seq<set<nat>>, id: nat)
    requires Classes(classes) && id < |blocks| && |was| == |blocks| && Filed(classes, was, avail, id)
    requires forall i :: 0 <= i < |blocks| && i != id ==> was[i] == blocks[i]
    requires blocks[id].used <= blocks[id].size
    ensures var bsize := blocks[id].size - blocks[id].used;
            if bsize >= QUANTUM then
              var i := FloorInd(classes, bsize);
              Filed(classes, blocks, avail[i := avail[i] + {id}], -1)
            else Filed(classes, blocks, avail, -1)
    ensures |avail| == |classes|
  {
    hide Classes, FloorInd;
    forall j: nat, i: nat | j != id ensures FiledAt(classes, was, id, j, i) == FiledAt(classes, blocks, -1, j, i) {
    }
  }

  /** What base_new asks of its first block. */
  ghost predicate FirstBlock(classes: seq<nat>, psizes: seq<nat>, header: nat, baseSize: nat, b: Block) {
    && Classes(classes) && |psizes| > 2 && 0 < header && header + baseSize + 2 * CACHELINE <= HUGEPAGE
    && header + Gap(header, QUANTUM) + baseSize <= psizes[|psizes| - 1]
    && b == Block(b.addr, BlockSize(psizes, 0, header, baseSize, QUANTUM), header, header, 0)
    && b.addr % HUGEPAGE == 0 && b.size < classes[|classes| - 1]
  }

  lemma FirstBlockOk(classes: seq<nat>, psizes: seq<nat>, header: nat, baseSize: nat, b: Block, avail: seq<set<nat>>)
    requires FirstBlock(classes, psizes, header, baseSize, b)
    requires |avail| == |classes| && forall i :: 0 <= i < |avail| ==> avail[i] == {}
    ensures Classes(classes) && |classes| > 0 && |psizes| > 2 && BlocksOk(header, [b], classes[|classes| - 1])
    ensures Filed(classes, [b], avail, 0) && QuantaOk([b], 0) && AllocsOk(header, [b], [])
    ensures var usize := AlignUp(baseSize, CACHELINE);
            && Multiple(CACHELINE, QUANTUM) && Multiple(usize, CACHELINE) && baseSize <= usize
            && Bumped(b, usize, CACHELINE).used <= b.size
  {
    hide Gap, BlockSize;
    BlockSizeIsEnough(psizes, 0, header, baseSize, QUANTUM);
    FirstFits(b, baseSize);
  }

  lemma FirstTotals(b: Block)
    ensures Total([b], Taken) == b.taken && Total([b], Mapped) == b.size
    ensures Total([b], Resident) == AlignUp(b.used, PAGE)
    ensures Total([b], Huge) == AlignUp(b.used, HUGEPAGE) == AlignUp(b.used, HUGEPAGE) / HUGEPAGE * HUGEPAGE
  {
  }

  lemma FirstFits(b: Block, baseSize: nat)
    requires b.size % HUGEPAGE == 0 && 0 < b.used <= b.size && b.used + baseSize + 2 * CACHELINE <= HUGEPAGE
    ensures var usize := AlignUp(baseSize, CACHELINE);
            && Multiple(CACHELINE, QUANTUM) && Multiple(usize, CACHELINE)
            && Bumped(b, usize, CACHELINE).used <= b.size
  {
  }

  /** The classes from one on where no tail is filed. */
  ghost predicate NoneFiled(avail: seq<set<nat>>, lo: nat, hi: nat) {
    forall i :: lo <= i < hi && i < |avail| ==> avail[i] == {}
  }

  /** The oldest tail of the first class that has any. */
  ghost predicate IsTail(blocks: seq<Block>, avail: seq<set<nat>>, lo: nat, i: nat, id: nat) {
    && lo <= i < |avail| && id in avail[i] && NoneFiled(avail, lo, i) && id < |blocks|
    && forall d :: d in avail[i] && d < |blocks| ==> !Older(blocks[d], blocks[id])
  }

  /** The tail to take for a class, if there is one. */
  ghost function TailFor(blocks: seq<Block>, avail: seq<set<nat>>, lo: nat): (id: Option<nat>)
    ensures id.Some? ==> exists i: nat :: IsTail(blocks, avail, lo, i, id.value)
    ensures id.None? ==> !exists i: nat, d: nat :: IsTail(blocks, avail, lo, i, d)
  {
    if exists i: nat, id: nat :: IsTail(blocks, avail, lo, i, id)
    then var i: nat, id: nat :| IsTail(blocks, avail, lo, i, id); Some(id)
    else None
  }

  lemma NoTailFor(blocks: seq<Block>, avail: seq<set<nat>>, lo: nat)
    requires NoneFiled(avail, lo, |avail|)
    ensures TailFor(blocks, avail, lo).None?
  {
  }

  /** Blocks apart are taken in one order only. */
  lemma TailForIs(header: nat, blocks: seq<Block>, limit: nat, avail: seq<set<nat>>, lo: nat, i: nat, id: nat)
    requires BlocksOk(header, blocks, limit) && IsTail(blocks, avail, lo, i, id)
    ensures TailFor(blocks, avail, lo) == Some(id)
  {
    var d := TailFor(blocks, avail, lo).value;
    var j: nat :| IsTail(blocks, avail, lo, j, d);
    assert i == j;
    assert !Older(blocks[d], blocks[id]) && !Older(blocks[id], blocks[d]);
    OneIsOlder(header, blocks, limit, d, id);
  }

  lemma OneIsOlder(header: nat, blocks: seq<Block>, limit: nat, d: nat, e: nat)
    requires BlocksOk(header, blocks, limit) && d < |blocks| && e < |blocks|
    ensures d == e || Older(blocks[d], blocks[e]) || Older(blocks[e], blocks[d])
  {
    assert Placed(blocks[d], header) && Placed(blocks[e], header);
    assert d < e ==> Apart(blocks[d], blocks[e]);
    assert e < d ==> Apart(blocks[e], blocks[d]);
  }

  /** Where the tails are filed once one of them was bumped. */
  function Refile(classes: seq<nat>, avail: seq<set<nat>>, id: nat, bsize: int): (r: seq<set<nat>>)
    ensures |r| == |avail|
  {
    var rest := seq(|avail|, j requires 0 <= j < |avail| => avail[j] - {id});
    var i := if bsize > 0 then SizeInd(classes, bsize + 1) - 1 else -1;
    if 0 <= i < |rest| then rest[i := rest[i] + {id}] else rest
  }

  /** The alignment, size and search size of base_alloc_impl. */
  function Alignment(k: nat): (a: nat)
    ensures a >= QUANTUM && Multiple(a, QUANTUM) && Multiple(a, Pow2(k)) && a < Pow2(k) + QUANTUM
  {
    AlignmentFacts(k, 0);
    AlignUp(Pow2(k), QUANTUM)
  }

  function Usize(size: nat, k: nat): (r: nat)
    ensures size <= r < size + Alignment(k) && Multiple(r, Alignment(k))
  {
    AlignUp(size, Alignment(k))
  }

  lemma UsizeIs(size: nat, k: nat)
    ensures Usize(size, k) == size + Gap(size, Alignment(k))
  {
    hide Gap, Multiple, Pow2, Alignment;
  }

  function Asize(size: nat, k: nat): nat { Usize(size, k) + Alignment(k) - QUANTUM }

  lemma Unfiled(classes: seq<nat>, blocks: seq<Block>, avail: seq<set<nat>>, i: nat, id: nat)
    requires Filed(classes, blocks, avail, -1) && i < |avail| && id in avail[i]
    ensures Filed(classes, blocks, avail[i := avail[i] - {id}], id)
  {
  }

  /** Bumping a request off a new block stays within it. */
  lemma BumpFits(b: Block, usize: nat, k: nat)
    requires 0 < b.used <= HUGEPAGE && b.addr % HUGEPAGE == 0 && b.used + Gap(b.used, Pow2(k)) + usize <= b.size
    ensures Bumped(b, usize, Pow2(k)).used <= b.size
  {
    hide Pow2, Gap;
    FreshGap(b.addr, b.used, k);
  }

  /** What an allocator is set up with. */
  datatype Config = Config(header: nat, classes: seq<nat>, psizes: seq<nat>, thp: Thp, madvise: bool, ind: nat) {
    predicate SwitchesLate() { madvise && thp == Auto }

    /** The block with which huge pages come into use, in the auto mode. */
    function Threshold(): nat { if ind != 0 then THP_THRESHOLD else THP_THRESHOLD_A0 }

    /** A size there are classes for. */
    predicate Admits(size: nat, k: nat) {
      |psizes| > 2 && header + Gap(header, Alignment(k)) + Usize(size, k) <= psizes[|psizes| - 1]
    }

    /** The block size base_block_alloc chooses. */
    function NextBlock(pindLast: nat, size: nat, k: nat): nat
      requires |psizes| > 2 && pindLast < |psizes|
    {
      BlockSize(psizes, pindLast, header, Usize(size, k), Alignment(k))
    }

    /** A block of whole huge pages with room for its header and a request. */
    predicate RoomIn(blockSize: nat, size: nat, k: nat) {
      blockSize % HUGEPAGE == 0 && header + Gap(header, Alignment(k)) + Usize(size, k) <= blockSize
    }
  }

  datatype Request = Request(size: nat, k: nat, place: Option<nat>)

  /** The blocks, their filed tails, the place in the size series, the next serial number,
      whether huge pages are in use, and the allocations. */
  datatype View = View(blocks: seq<Block>, avail: seq<set<nat>>, pindLast: nat, snNext: nat, switched: bool,
                       allocs: seq<Range>)

  /** Where base_map may put a block: on a huge page boundary, apart from every block. */
  predicate CanMap(classes: seq<nat>, blocks: seq<Block>, addr: nat, size: nat) {
    && |classes| > 0 && addr % HUGEPAGE == 0 && size < classes[|classes| - 1]
    && forall i :: 0 <= i < |blocks| ==> Apart(blocks[i], Block(addr, size, 0, 0, 0))
  }

  /** The address of the next range bumped off a block. */
  function AddressIn(b: Block, a: nat): nat
    requires a > 0
  {
    b.addr + b.used + Gap(b.addr + b.used, a)
  }

  /** After a range was bumped off a block: its tail is filed again, and the range is the last
      of the allocations. */
  function HandOut(c: Config, x: View, id: nat, usize: nat, a: nat): View
    requires id < |x.blocks| && a > 0
  {
    var b := Bumped(x.blocks[id], usize, a);
    x.(blocks := x.blocks[id := b], avail := Refile(c.classes, x.avail, id, b.size - b.used),
       allocs := x.allocs + [Range(id, b.used - usize, b.used)])
  }

  /** After base_auto_thp_switch, which looks whether the block to come is the one. */
  function Switched(c: Config, x: View): View {
    x.(switched := x.switched || (c.SwitchesLate() && |x.blocks| + 1 == c.Threshold()))
  }

  function Noted(c: Config, x: View, blockSize: nat): View
    requires |c.psizes| > 2
  {
    x.(pindLast := PageInd(c.psizes, blockSize))
  }

  /** A block of which only the header is used. */
  function NewBlock(c: Config, place: nat, blockSize: nat, sn: nat): Block {
    Block(place, blockSize, c.header, c.header, sn)
  }

  /** After a new block was linked in and a request bumped off it. */
  function Linked(c: Config, x: View, size: nat, k: nat, b: Block): View {
    HandOut(c, x.(blocks := x.blocks + [b]), |x.blocks|, Usize(size, k), Alignment(k))
  }

  /** The tail a request is bumped off, if one is filed high enough. */
  ghost function TailOf(c: Config, x: View, size: nat, k: nat): (id: Option<nat>)
    ensures id.Some? ==> id.value < |x.blocks|
  {
    TailFor(x.blocks, x.avail, SizeInd(c.classes, Asize(size, k)))
  }

  /** What a request does when nobody interferes: it is bumped off the oldest tail of the
      first class that has one large enough, or off a new block if there is none; it fails
      only if no block can be had either. */
  ghost function Allocated(c: Config, x: View, r: Request): (View, Option<nat>)
    requires |c.psizes| > 2 && x.pindLast < |c.psizes|
  {
    var id, a := TailOf(c, x, r.size, r.k), Alignment(r.k);
    if id.Some? then (HandOut(c, x, id.value, Usize(r.size, r.k), a), Some(AddressIn(x.blocks[id.value], a)))
    else if r.place.None? then (x, None)
    else
      var blockSize := c.NextBlock(x.pindLast, r.size, r.k);
      var b := NewBlock(c, r.place.value, blockSize, x.snNext);
      (Linked(c, Noted(c, Switched(c, x), blockSize).(snNext := x.snNext + 1), r.size, r.k, b), Some(AddressIn(b, a)))
  }

  // ----- several threads

  /** How far a thread is with a request: the lock is free in between. */
  datatype Phase =
    | Idle
    | Waiting(size: nat, k: nat)                              // no tail was large enough
    | Chosen(size: nat, k: nat, blockSize: nat)               // about to map a block
    | Backed(size: nat, k: nat, blockSize: nat)               // mapped, and huge pages seen to
    | Ranked(size: nat, k: nat, blockSize: nat)               // the size is noted in the series
    | Numbered(size: nat, k: nat, blockSize: nat, sn: nat)    // the serial number is read
    | Ready(size: nat, k: nat, blockSize: nat, sn: nat)       // and counted up

  datatype Step =
    | Ask(t: nat, size: nat, k: nat)
    | Choose(t: nat)
    | Fail(t: nat)
    | Switch(t: nat)
    | Note(t: nat)
    | Number(t: nat)
    | Count(t: nat)
    | Link(t: nat, place: nat)

  /** Whether a thread may take a step. */
  predicate CanStep(c: Config, blocks: seq<Block>, p: Phase, s: Step) {
    match s
    case Ask(_, size, k) => p.Idle? && c.Admits(size, k)
    case Choose(_) => p.Waiting?
    case Fail(_) => p.Chosen?
    case Switch(_) => p.Chosen?
    case Note(_) => p.Backed?
    case Number(_) => p.Ranked?
    case Count(_) => p.Numbered?
    case Link(_, place) => p.Ready? && CanMap(c.classes, blocks, place, p.blockSize)
  }

  /** What a step makes of the allocator and of its thread, and what it answers. */
  ghost function Stepped(c: Config, x: View, p: Phase, s: Step): (View, Phase, Option<nat>)
    requires |c.psizes| > 2 && x.pindLast < |c.psizes| && CanStep(c, x.blocks, p, s)
  {
    match s
    case Ask(_, size, k) =>
      var id, a := TailOf(c, x, size, k), Alignment(k);
      if id.Some? then (HandOut(c, x, id.value, Usize(size, k), a), Idle, Some(AddressIn(x.blocks[id.value], a)))
      else (x, Waiting(size, k), None)
    case Choose(_) => (x, Chosen(p.size, p.k, c.NextBlock(x.pindLast, p.size, p.k)), None)
    case Fail(_) => (x, Idle, None)
    case Switch(_) => (Switched(c, x), Backed(p.size, p.k, p.blockSize), None)
    case Note(_) => (Noted(c, x, p.blockSize), Ranked(p.size, p.k, p.blockSize), None)
    case Number(_) => (x, Numbered(p.size, p.k, p.blockSize, x.snNext), None)
    case Count(_) => (x.(snNext := p.sn + 1), Ready(p.size, p.k, p.blockSize, p.sn), None)
    case Link(_, place) =>
      var b := NewBlock(c, place, p.blockSize, p.sn);
      (Linked(c, x, p.size, p.k, b), Idle, Some(AddressIn(b, Alignment(p.k))))
  }

  datatype World = World(view: View, threads: seq<Phase>)

  predicate Enabled(c: Config, w: World, s: Step) {
    s.t < |w.threads| && CanStep(c, w.view.blocks, w.threads[s.t], s)
  }

  /** After a step of some thread; one that cannot be taken changes nothing. */
  ghost function After(c: Config, w: World, s: Step): (r: (World, Option<nat>))
    requires |c.psizes| > 2 && w.view.pindLast < |c.psizes|
    ensures r.0.view.pindLast < |c.psizes| && |r.0.threads| == |w.threads|
  {
    if Enabled(c, w, s) then
      var (y, q, addr) := Stepped(c, w.view, w.threads[s.t], s);
      (World(y, w.threads[s.t := q]), addr)
    else (w, None)
  }

  /** The world after a number of steps. */
  ghost function Final(c: Config, w: World, steps: seq<Step>): (v: World)
    requires |c.psizes| > 2 && w.view.pindLast < |c.psizes|
    ensures v.view.pindLast < |c.psizes| && |v.threads| == |w.threads|
  {
    if steps == [] then w else After(c, Final(c, w, steps[..|steps| - 1]), steps[|steps| - 1]).0
  }

  /** The answers of a number of steps. */
  ghost function Answers(c: Config, w: World, steps: seq<Step>): seq<Option<nat>>
    requires |c.psizes| > 2 && w.view.pindLast < |c.psizes|
  {
    if steps == [] then []
    else
      var n := |steps| - 1;
      Answers(c, w, steps[..n]) + [After(c, Final(c, w, steps[..n]), steps[n]).1]
  }

  /** The size and the alignment of the request a thread made last. */
  ghost function Wanted(c: Config, w: World, steps: seq<Step>, t: nat): (nat, nat)
    requires |c.psizes| > 2 && w.view.pindLast < |c.psizes|
  {
    if steps == [] then (0, 0)
    else
      var n := |steps| - 1;
      var s := steps[n];
      if s.Ask? && s.t == t && Enabled(c, Final(c, w, steps[..n]), s) then (s.size, s.k) else Wanted(c, w, steps[..n], t)
  }

  /** A thread under way remembers its request. */
  ghost predicate Pending(c: Config, w: World, steps: seq<Step>, threads: seq<Phase>)
    requires |c.psizes| > 2 && w.view.pindLast < |c.psizes|
  {
    forall t :: 0 <= t < |threads| && !threads[t].Idle? ==> (threads[t].size, threads[t].k) == Wanted(c, w, steps, t)
  }

  /** An answer, the request it serves, and its place among the allocations. */
  datatype Serving = Serving(addr: Option<nat>, size: nat, k: nat, at: nat)

  /** Every answer begins a range of its own that holds the bytes requested. */
  ghost predicate AllServed(blocks: seq<Block>, allocs: seq<Range>, served: seq<Serving>) {
    && (forall i :: 0 <= i < |served| && served[i].addr.Some? ==>
          && served[i].at < |allocs| && allocs[served[i].at].block < |blocks|
          && var r := allocs[served[i].at];
             blocks[r.block].addr + r.lo == served[i].addr.value && r.lo + served[i].size <= r.hi
             && Multiple(served[i].addr.value, Pow2(served[i].k)))
    && forall i, j :: 0 <= i < j < |served| && served[i].addr.Some? && served[j].addr.Some? ==> served[i].at < served[j].at
  }

  ghost predicate Recorded(c: Config, w: World, steps: seq<Step>, answers: seq<Option<nat>>, served: seq<Serving>)
    requires |c.psizes| > 2 && w.view.pindLast < |c.psizes|
  {
    && |answers| == |served| == |steps|
    && forall j {:trigger answers[j]} {:trigger served[j]} :: 0 <= j < |steps| ==>
         answers[j] == served[j].addr && (served[j].size, served[j].k) == Wanted(c, w, steps[..j + 1], steps[j].t)
  }

  lemma RecordedMore(c: Config, w: World, steps: seq<Step>, s: Step, answers: seq<Option<nat>>, served: seq<Serving>,
                     now: Serving)
    requires |c.psizes| > 2 && w.view.pindLast < |c.psizes|
    requires Recorded(c, w, steps, answers, served) && (now.size, now.k) == Wanted(c, w, steps + [s], s.t)
    ensures Recorded(c, w, steps + [s], answers + [now.addr], served + [now])
  {
    hide Wanted;
    var all := steps + [s];
    assert forall j {:trigger served[j]} :: 0 <= j < |steps| ==> all[..j + 1] == steps[..j + 1];
    assert all[..|steps| + 1] == all;
  }

  /** What a step says about the request it serves, and about the threads. */
  ghost predicate StepServes(w: World, s: Step, v: World, addr: Option<nat>, size: nat, k: nat) {
    && w.view.allocs <= v.view.allocs && |w.view.blocks| <= |v.view.blocks|
    && (forall i :: 0 <= i < |w.view.blocks| ==> v.view.blocks[i].addr == w.view.blocks[i].addr)
    && (addr.Some? ==>
          && |w.view.allocs| < |v.view.allocs|
          && var r := v.view.allocs[|w.view.allocs|];
             && r.block < |v.view.blocks| && v.view.blocks[r.block].addr + r.lo == addr.value && r.lo + size <= r.hi
             && Multiple(addr.value, Pow2(k)))
    && |v.threads| == |w.threads| && (forall t :: 0 <= t < |w.threads| && t != s.t ==> v.threads[t] == w.threads[t])
    && (s.t < |w.threads| && !v.threads[s.t].Idle? ==> (v.threads[s.t].size, v.threads[s.t].k) == (size, k))
  }

  lemma AddressAligned(b: Block, k: nat)
    ensures Multiple(AddressIn(b, Alignment(k)), Pow2(k))
  {
    hide Gap, Pow2;
    MultipleOfMultiple(AddressIn(b, Alignment(k)), Alignment(k), Pow2(k));
  }

  lemma HandOutServes(c: Config, w: World, id: nat, s: Step, q: Phase, size: nat, k: nat)
    requires id < |w.view.blocks| && s.t < |w.threads| && q.Idle?
    ensures StepServes(w, s, World(HandOut(c, w.view, id, Usize(size, k), Alignment(k)), w.threads[s.t := q]),
                       Some(AddressIn(w.view.blocks[id], Alignment(k))), size, k)
  {
    AddressAligned(w.view.blocks[id], k);
    HandOutAppends(c, w.view, id, Usize(size, k), Alignment(k));
    hide Gap, Pow2, Multiple, HandOut, AddressIn, Usize, Alignment;
  }

  lemma LinkServes(c: Config, w: World, s: Step, b: Block, size: nat, k: nat)
    requires s.t < |w.threads|
    ensures StepServes(w, s, World(Linked(c, w.view, size, k, b), w.threads[s.t := Idle]), Some(AddressIn(b, Alignment(k))), size, k)
  {
    hide Gap, Pow2, Multiple, HandOut, AddressIn, Usize, Alignment;
    var x := w.view.(blocks := w.view.blocks + [b]);
    HandOutServes(c, w.(view := x), |w.view.blocks|, s, Idle, size, k);
  }

  /** A step serves the request its thread is under way with, or makes one. */
  lemma SteppedServes(c: Config, w: World, s: Step)
    requires |c.psizes| > 2 && w.view.pindLast < |c.psizes| && Enabled(c, w, s)
    ensures var p := w.threads[s.t];
            && (s.Ask? || !p.Idle?)
            && var (v, addr) := After(c, w, s);
               StepServes(w, s, v, addr, if s.Ask? then s.size else p.size, if s.Ask? then s.k else p.k)
  {
    hide Gap, Pow2, Multiple, HandOut, AddressIn, Usize, Alignment, TailOf, Linked;
    var p := w.threads[s.t];
    match s {
      case Ask(_, size, k) =>
        var id := TailOf(c, w.view, size, k);
        if id.Some? { HandOutServes(c, w, id.value, s, Idle, size, k); }
      case Link(_, place) => LinkServes(c, w, s, NewBlock(c, place, p.blockSize, p.sn), p.size, p.k);
      case _ =>
    }
  }

  /** Every answer of a run serves the request its thread made last. */
  lemma {:induction false} AnswersServed(c: Config, w: World, steps: seq<Step>) returns (served: seq<Serving>)
    requires |c.psizes| > 2 && w.view.pindLast < |c.psizes| && forall t :: 0 <= t < |w.threads| ==> w.threads[t].Idle?
    ensures Pending(c, w, steps, Final(c, w, steps).threads) && Recorded(c, w, steps, Answers(c, w, steps), served)
    ensures AllServed(Final(c, w, steps).view.blocks, Final(c, w, steps).view.allocs, served)
    decreases |steps|
  {
    hide Enabled, Stepped, Gap, Multiple, Pow2;
    if steps == [] {
      return [];
    }
    var n := |steps| - 1;
    var done, s := steps[..n], steps[n];
    assert steps == done + [s];
    var before := AnswersServed(c, w, done);
    var u := Final(c, w, done);
    var (size, k) := Wanted(c, w, steps, s.t);
    var now := Serving(After(c, u, s).1, size, k, |u.view.allocs|);
    if Enabled(c, u, s) {
      SteppedServes(c, u, s);
      EnabledThread(c, u, s);
    }
    ServedMore(u.view.blocks, u.view.allocs, After(c, u, s).0.view.blocks, After(c, u, s).0.view.allocs, before, now);
    RecordedMore(c, w, done, s, Answers(c, w, done), before, now);
    served := before + [now];
  }

  lemma EnabledThread(c: Config, w: World, s: Step)
    requires Enabled(c, w, s)
    ensures s.t < |w.threads|
  {
  }

  lemma AnswersApart(c: Config, w: World, steps: seq<Step>, answers: seq<Option<nat>>, served: seq<Serving>)
    requires |c.psizes| > 2 && w.view.pindLast < |c.psizes| && Recorded(c, w, steps, answers, served)
    requires forall i, j {:trigger served[i], served[j]} ::
               0 <= i < j < |served| && served[i].addr.Some? && served[j].addr.Some? ==>
                 || served[i].addr.value + served[i].size <= served[j].addr.value
                 || served[j].addr.value + served[j].size <= served[i].addr.value
    requires forall i {:trigger served[i]} :: 0 <= i < |served| && served[i].addr.Some? ==>
               Multiple(served[i].addr.value, Pow2(served[i].k))
    ensures forall i {:trigger answers[i]} :: 0 <= i < |answers| && answers[i].Some? ==>
              Multiple(answers[i].value, Pow2(Wanted(c, w, steps[..i + 1], steps[i].t).1))
    ensures forall i, j {:trigger answers[i], answers[j]} ::
              0 <= i < j < |answers| && answers[i].Some? && answers[j].Some? ==>
                || answers[i].value + Wanted(c, w, steps[..i + 1], steps[i].t).0 <= answers[j].value
                || answers[j].value + Wanted(c, w, steps[..j + 1], steps[j].t).0 <= answers[i].value
  {
    hide Wanted, Multiple, Pow2;
  }

  lemma ServedMore(blocks0: seq<Block>, allocs0: seq<Range>, blocks: seq<Block>, allocs: seq<Range>,
                   served: seq<Serving>, s: Serving)
    requires AllServed(blocks0, allocs0, served) && allocs0 <= allocs && |blocks0| <= |blocks|
    requires forall i :: 0 <= i < |blocks0| ==> blocks[i].addr == blocks0[i].addr
    requires s.addr.Some? ==>
      && s.at == |allocs0| < |allocs|
      && var r := allocs[s.at];
         && r.block < |blocks| && blocks[r.block].addr + r.lo == s.addr.value && r.lo + s.size <= r.hi
         && Multiple(s.addr.value, Pow2(s.k))
    ensures AllServed(blocks, allocs, served + [s])
  {
  }

  lemma ServedApart(header: nat, blocks: seq<Block>, limit: nat, allocs: seq<Range>, served: seq<Serving>)
    requires BlocksOk(header, blocks, limit) && AllocsOk(header, blocks, allocs) && AllServed(blocks, allocs, served)
    ensures forall i, j {:trigger served[i], served[j]} ::
              0 <= i < j < |served| && served[i].addr.Some? && served[j].addr.Some? ==>
                || served[i].addr.value + served[i].size <= served[j].addr.value
                || served[j].addr.value + served[j].size <= served[i].addr.value
    ensures forall i {:trigger served[i]} :: 0 <= i < |served| && served[i].addr.Some? ==>
              Multiple(served[i].addr.value, Pow2(served[i].k))
  {
    forall i, j | 0 <= i < j < |served| && served[i].addr.Some? && served[j].addr.Some?
      ensures || served[i].addr.value + served[i].size <= served[j].addr.value
              || served[j].addr.value + served[j].size <= served[i].addr.value
    {
      var q, r := allocs[served[i].at], allocs[served[j].at];
      assert Placed(blocks[q.block], header) && Placed(blocks[r.block], header);
      assert q.block < r.block ==> Apart(blocks[q.block], blocks[r.block]);
      assert r.block < q.block ==> Apart(blocks[r.block], blocks[q.block]);
    }
  }

  /** A thread under way holds a size there are classes for, and a block size with room. */
  ghost predicate PhaseOk(c: Config, p: Phase) {
    p.Idle? || (c.Admits(p.size, p.k) && (p.Waiting? || c.RoomIn(p.blockSize, p.size, p.k)))
  }

  /** What base_new leaves: one block, off which the base_t itself was bumped. */
  function FirstView(c: Config, baseSize: nat, place: nat): View
    requires |c.psizes| > 2
  {
    var size := BlockSize(c.psizes, 0, c.header, baseSize, QUANTUM);
    HandOut(c, View([NewBlock(c, place, size, 0)], seq(|c.classes|, _ => {}), PageInd(c.psizes, size), 1, false, []),
            0, AlignUp(baseSize, CACHELINE), CACHELINE)
  }

  class Base {
    const header: nat          // sizeof(base_block_t)
    const classes: seq<nat>    // every size class
    const psizes: seq<nat>     // page size classes
    const thp: Thp
    const madvise: bool
    const ind: nat
    var blocks: seq<Block>
    var avail: seq<set<nat>>
    var inUse: nat
    var resident: nat
    var mapped: nat
    var nThp: nat
    var switched: bool
    var pindLast: nat
    var snNext: nat
    ghost var allocs: seq<Range>

    ghost function Now(): View
      reads this
    {
      View(blocks, avail, pindLast, snNext, switched, allocs)
    }

    function Setup(): Config { Config(header, classes, psizes, thp, madvise, ind) }

    /** Huge pages are counted. */
    predicate CountsThp()
      reads this`switched
    {
      madvise && (thp == Always || switched)
    }

    ghost predicate Shape(except: int)
      reads this
    {
      && Classes(classes) && |classes| > 0 && |psizes| > 2 && |blocks| > 0 && pindLast < |psizes|
      && BlocksOk(header, blocks, classes[|classes| - 1])
      && QuantaOk(blocks, except)
      && AllocsOk(header, blocks, allocs)
      && Filed(classes, blocks, avail, except)
    }

    /** Each counter is a total over the blocks: resident telescopes to the page-rounded
        bump offsets. */
    ghost predicate Counted()
      reads this`blocks, this`inUse, this`resident, this`mapped, this`nThp, this`switched
    {
      && inUse == Total(blocks, Taken)
      && resident == Total(blocks, Resident)
      && mapped == Total(blocks, Mapped)
      && nThp * HUGEPAGE == (if CountsThp() then Total(blocks, Huge) else 0)
      && (switched ==> thp == Auto) && (madvise ==> thp != Disabled)
    }

    ghost predicate Valid()
      reads this
    {
      Shape(-1) && Counted()
    }

    /** base_new: the first block, holding the base_t itself. */
    constructor (header: nat, classes: seq<nat>, psizes: seq<nat>, thp: Thp, madvise: bool, ind: nat,
                 baseSize: nat, place: nat)
      requires |psizes| > 2 && (madvise ==> thp != Disabled)
      requires var size := BlockSize(psizes, 0, header, baseSize, QUANTUM);
               FirstBlock(classes, psizes, header, baseSize, Block(place, size, header, header, 0))
      ensures Setup() == Config(header, classes, psizes, thp, madvise, ind)
      ensures Valid() && Now() == FirstView(Setup(), baseSize, place)
      ensures |allocs| == 1 == |blocks| && allocs[0].block == 0 && allocs[0].lo + baseSize <= allocs[0].hi
    {
      hide AlignUp, Gap, Multiple, BlockSize, PageInd, Classes, AllocsOk, QuantaOk, Filed, Total, BlocksOk,
        Taken, Resident, Mapped, Huge, Bumped, Placed, FirstBlock;
      this.header, this.classes, this.psizes, this.thp, this.madvise, this.ind := header, classes, psizes, thp, madvise, ind;
      var size := BlockSize(psizes, 0, header, baseSize, QUANTUM);
      var b := Block(place, size, header, header, 0);
      blocks, avail, allocs := [b], seq(|classes|, _ => {}), [];
      switched, pindLast, snNext := false, PageInd(psizes, size), 1;
      inUse, resident, mapped := header, AlignUp(header, PAGE), size;
      nThp := if thp == Always && madvise then AlignUp(header, HUGEPAGE) / HUGEPAGE else 0;
      new;
      FirstBlockOk(classes, psizes, header, baseSize, b, avail);
      FirstTotals(b);
      HandOutAppends(Setup(), Now(), 0, AlignUp(baseSize, CACHELINE), CACHELINE);
      var _ := BumpAlloc(0, AlignUp(baseSize, CACHELINE), CACHELINE);
    }

    /** The order base_extent_bump_alloc_post asserts. */
    lemma CountersOrdered(except: int)
      requires Shape(except) && Counted()
      ensures inUse <= resident <= mapped && nThp * HUGEPAGE <= mapped
    {
      hide Gap;
      forall b | b in blocks ensures Taken(b) <= Resident(b) <= Huge(b) <= Mapped(b) {
        PlacedOrder(b, header);
      }
      TotalOrder(blocks, Taken, Resident);
      TotalOrder(blocks, Resident, Mapped);
      TotalOrder(blocks, Huge, Mapped);
    }

    /** resident counts the pages touched and the huge page counter the huge pages touched,
        of each block what its bump offset rounds up to. */
    lemma CountersRounded()
      requires Counted()
      ensures var used := Total(blocks, Used);
              && resident % PAGE == 0 && used <= resident <= used + |blocks| * (PAGE - 1)
              && (CountsThp() ==> used <= nThp * HUGEPAGE <= used + |blocks| * (HUGEPAGE - 1))
    {
      hide Gap;
      TotalRounded(blocks, Resident, PAGE);
      TotalRounded(blocks, Huge, HUGEPAGE);
    }

    /** Files the tail a bump leaves, under the greatest class it fills. */
    method File(id: nat, ghost was: seq<Block>)
      requires Classes(classes) && id < |blocks| && |was| == |blocks| && Filed(classes, was, avail, id)
      requires forall i :: 0 <= i < |blocks| && i != id ==> was[i] == blocks[i]
      requires blocks[id].used <= blocks[id].size && (blocks[id].size - blocks[id].used) % QUANTUM == 0
      modifies this`avail
      ensures Filed(classes, blocks, avail, -1)
      ensures avail == Refile(classes, old(avail), id, blocks[id].size - blocks[id].used)
    {
      hide Filed, Classes, FiledAt, Refile, SizeInd;
      RefileUnfiled(classes, was, avail, id, blocks[id].size - blocks[id].used);
      FiledAgain(classes, was, blocks, avail, id);
      var bsize := blocks[id].size - blocks[id].used;
      if bsize > 0 {
        var indexFloor := SizeInd(classes, bsize + 1) - 1;
        avail := avail[indexFloor := avail[indexFloor] + {id}];
      }
    }

    /** base_extent_bump_alloc. */
    method BumpAlloc(id: nat, usize: nat, a: nat) returns (addr: nat)
      requires Shape(id) && Counted() && id < |blocks|
      requires a > 0 && Multiple(a, QUANTUM) && Multiple(usize, a)
      requires Bumped(blocks[id], usize, a).used <= blocks[id].size
      modifies this`blocks, this`avail, this`inUse, this`resident, this`nThp, this`allocs
      ensures Valid() && Now() == HandOut(Setup(), old(Now()), id, usize, a)
      ensures Multiple(addr, a) && addr == AddressIn(old(blocks)[id], a)
    {
      hide Refile, Gap, Multiple, AlignUp, Total, Classes, FloorInd, BlocksOk, QuantaOk, AllocsOk, Filed, Taken, Resident, Mapped, Huge;
      ghost var was := blocks;
      var b := blocks[id];
      var gap := Gap(b.addr + b.used, a);
      addr := b.addr + b.used + gap;
      ShapeBumped(header, classes[|classes| - 1], blocks, allocs, id, usize, a);
      TotalsBumped(header, classes[|classes| - 1], blocks, id, usize, a);
      blocks := blocks[id := b.(used := b.used + gap + usize, taken := b.taken + usize)];
      allocs := allocs + [Range(id, b.used + gap, b.used + gap + usize)];
      File(id, was);
      inUse := inUse + usize;
      resident := resident + (AlignUp(addr + usize, PAGE) - AlignUp(addr - gap, PAGE));
      if CountsThp() {
        nThp := nThp + (AlignUp(addr + usize, HUGEPAGE) - AlignUp(addr - gap, HUGEPAGE)) / HUGEPAGE;
      }
      CountersOrdered(-1);
      assert inUse <= resident <= mapped;
    }

    /** base_auto_thp_switch, called before a block is added. */
    method AutoThpSwitch()
      requires Counted() && madvise && thp == Auto
      modifies this`switched, this`nThp
      ensures Counted() && Now() == Switched(Setup(), old(Now()))
    {
      hide AlignUp, Gap;
      if switched {
        return;
      }
      if |blocks| + 1 != (if ind != 0 then THP_THRESHOLD else THP_THRESHOLD_A0) {
        return;
      }
      switched := true;
      assert nThp == 0;
      for i := 0 to |blocks|
        invariant nThp * HUGEPAGE == Total(blocks[..i], Huge)
        invariant blocks == old(blocks) && switched
        invariant inUse == old(inUse) && resident == old(resident) && mapped == old(mapped)
      {
        assert blocks[..i + 1] == blocks[..i] + [blocks[i]];
        TotalPush(blocks[..i], blocks[i], Huge);
        AlignUpWhole(blocks[i].used, HUGEPAGE);
        nThp := nThp + AlignUp(blocks[i].used, HUGEPAGE) / HUGEPAGE;
      }
      assert blocks[..|blocks|] == blocks;
    }

    lemma PushBlock(b: Block)
      requires Shape(-1) && Placed(b, header) && CanMap(classes, blocks, b.addr, b.size)
      ensures BlocksOk(header, blocks + [b], classes[|classes| - 1]) && QuantaOk(blocks + [b], |blocks|)
      ensures AllocsOk(header, blocks + [b], allocs) && Filed(classes, blocks + [b], avail, |blocks|)
    {
    }

    /** Links a block in and counts its header. */
    method AddBlock(b: Block)
      requires Counted() && b.used == b.taken == header
      modifies this`blocks, this`inUse, this`resident, this`mapped, this`nThp
      ensures Counted() && blocks == old(blocks) + [b]
    {
      hide AlignUp, Gap, Total;
      TotalPush(blocks, b, Taken);
      TotalPush(blocks, b, Resident);
      TotalPush(blocks, b, Mapped);
      TotalPush(blocks, b, Huge);
      blocks := blocks + [b];
      inUse := inUse + header;
      resident := resident + AlignUp(header, PAGE);
      mapped := mapped + b.size;
      if madvise && !(thp == Auto && !switched) {
        AlignUpWhole(header, HUGEPAGE);
        nThp := nThp + AlignUp(header, HUGEPAGE) / HUGEPAGE;
      }
    }

    /** The search of base_alloc_impl, under the lock: bumps a filed tail, if one is filed high
        enough. */
    method TryTail(size: nat, k: nat) returns (addr: Option<nat>)
      requires Valid()
      modifies this
      ensures Valid()
      ensures var c, x, a := Setup(), old(Now()), Alignment(k);
              var id := TailOf(c, x, size, k);
              if id.None? then addr.None? && Now() == x
              else
                && addr == Some(AddressIn(x.blocks[id.value], a))
                && Now() == HandOut(c, x, id.value, Usize(size, k), a)
                && Multiple(addr.value, Pow2(k))
      ensures addr.None? ==> blocks == old(blocks) && allocs == old(allocs)
      ensures addr.Some? ==>
                && old(allocs) <= allocs && |allocs| == |old(allocs)| + 1 && |blocks| == |old(blocks)|
                && var r := allocs[|old(allocs)|];
                   r.block < |blocks| && blocks[r.block].addr + r.lo == addr.value && r.lo + size <= r.hi
      ensures forall i :: 0 <= i < |blocks| ==> i < |old(blocks)| && blocks[i].addr == old(blocks)[i].addr
      ensures addr.None? ==> NoneHolds(classes, blocks, size + Gap(size, Alignment(k)) + Alignment(k) - QUANTUM)
    {
      hide AlignUp, Gap, Multiple, Pow2, Total, BlocksOk, QuantaOk, AllocsOk, BlockSize, Bumped, Counted, NoneFiled, PageInd,
        TailFor, Refile, IsTail, NoneHolds, HandOut;
      AlignmentFacts(k, size);
      var a := AlignUp(Pow2(k), QUANTUM);
      var usize := AlignUp(size, a);
      var id := TakeTail(usize + a - QUANTUM);
      if id.None? {
        TailMissed(classes, blocks, avail, usize + a - QUANTUM);
        UsizeIs(size, k);
        return None;
      }
      assert Placed(blocks[id.value], header) by { BlockAt(header, blocks, classes[|classes| - 1], id.value); }
      TailHolds(blocks[id.value], usize, a);
      HandOutTaken(Setup(), old(Now()), avail, id.value, usize, a);
      HandOutAppends(Setup(), old(Now()), id.value, usize, a);
      var at := BumpAlloc(id.value, usize, a);
      MultipleOfMultiple(at, a, Pow2(k));
      addr := Some(at);
    }

    /** base_auto_thp_switch, as base_block_alloc calls it. */
    method SeeToHugePages()
      requires Valid()
      modifies this
      ensures Valid() && Now() == Switched(Setup(), old(Now()))
    {
      hide AlignUp, Gap, Filed, AllocsOk, QuantaOk, BlocksOk, Counted;
      if madvise && thp == Auto {
        AutoThpSwitch();
      }
    }

    /** The end of base_extent_alloc and of base_alloc_impl, under the lock: a mapped block is
        linked in and the request bumped off it. */
    method LinkBlock(size: nat, k: nat, blockSize: nat, sn: nat, place: nat) returns (addr: nat)
      requires Valid() && 0 < header <= HUGEPAGE && Setup().RoomIn(blockSize, size, k)
      requires CanMap(classes, blocks, place, blockSize)
      modifies this
      ensures var b := NewBlock(Setup(), place, blockSize, sn);
              && Valid() && Now() == Linked(Setup(), old(Now()), size, k, b)
              && addr == AddressIn(b, Alignment(k)) && Multiple(addr, Pow2(k))
      ensures old(allocs) <= allocs && |allocs| == |old(allocs)| + 1 && |blocks| == |old(blocks)| + 1
      ensures var r := allocs[|old(allocs)|];
              r.block < |blocks| && blocks[r.block].addr + r.lo == addr && r.lo + size <= r.hi
      ensures forall i :: 0 <= i < |old(blocks)| ==> blocks[i] == old(blocks)[i]
      ensures var b := blocks[|old(blocks)|]; b.addr == place && b.size == blockSize && b.sn == sn
      ensures snNext == old(snNext) && pindLast == old(pindLast)
    {
      hide AlignUp, Gap, Multiple, Pow2, Filed, AllocsOk, QuantaOk, BlocksOk, BlockSize, PageInd, Total, Bumped, Refile;
      AlignmentFacts(k, size);
      var a := AlignUp(Pow2(k), QUANTUM);
      var usize := AlignUp(size, a);
      var b := Block(place, blockSize, header, header, sn);
      PushBlock(b);
      assert Bumped(b, usize, a).used <= b.size by { BumpFits(b, usize, if k < 4 then 4 else k); }
      var id := |blocks|;
      AddBlock(b);
      CountersOrdered(id);
      assert inUse <= resident <= mapped && nThp * HUGEPAGE <= mapped;
      HandOutAppends(Setup(), Now(), id, usize, a);
      addr := BumpAlloc(id, usize, a);
      MultipleOfMultiple(addr, a, Pow2(k));
    }

    /** base_extent_alloc and what base_alloc_impl does with its block, when nobody
        interferes. */
    method ExtentAlloc(size: nat, k: nat, place: Option<nat>) returns (addr: Option<nat>)
      requires Valid() && 0 < header <= HUGEPAGE && Setup().Admits(size, k)
      requires place.Some? ==> CanMap(classes, blocks, place.value, Setup().NextBlock(pindLast, size, k))
      modifies this
      ensures Valid()
      ensures TailOf(Setup(), old(Now()), size, k).None? ==>
                (Now(), addr) == Allocated(Setup(), old(Now()), Request(size, k, place))
      ensures addr.Some? ==> Multiple(addr.value, Pow2(k))
      ensures addr.Some? <==> place.Some?
      ensures place.Some? ==>
                && |blocks| == |old(blocks)| + 1 && blocks[|old(blocks)|].addr == place.value
                && blocks[|old(blocks)|].sn == old(snNext) && snNext == old(snNext) + 1
                && (forall j :: 0 <= j < pindLast ==> psizes[j] < blocks[|old(blocks)|].size)
                && (blocks[|old(blocks)|].size <= psizes[|psizes| - 1] ==> blocks[|old(blocks)|].size <= psizes[pindLast])
      ensures addr.None? ==> allocs == old(allocs)
      ensures addr.Some? ==>
                && old(allocs) <= allocs && |allocs| == |old(allocs)| + 1
                && var r := allocs[|old(allocs)|];
                   r.block < |blocks| && blocks[r.block].addr + r.lo == addr.value && r.lo + size <= r.hi
    {
      hide AlignUp, Gap, Multiple, Pow2, Filed, AllocsOk, QuantaOk, BlocksOk, BlockSize, PageInd, Counted, Linked, TailOf;
      if place.None? {
        return None;
      }
      var blockSize := Setup().NextBlock(pindLast, size, k);
      BlockSizeIsEnough(psizes, pindLast, header, Usize(size, k), Alignment(k));
      SeeToHugePages();
      pindLast := PageInd(psizes, blockSize);
      var sn := snNext;
      snNext := snNext + 1;
      var at := LinkBlock(size, k, blockSize, sn, place.value);
      addr := Some(at);
    }

    /** base_alloc_impl, when nobody interferes: an aligned range of at least the requested
        size that overlaps no earlier one, from a filed tail or else from a new block. */
    method Alloc(size: nat, k: nat, place: Option<nat>) returns (addr: Option<nat>)
      requires Valid() && 0 < header <= HUGEPAGE && Setup().Admits(size, k)
      requires place.Some? ==> CanMap(classes, blocks, place.value, Setup().NextBlock(pindLast, size, k))
      modifies this
      ensures Valid() && (Now(), addr) == Allocated(Setup(), old(Now()), Request(size, k, place))
      ensures addr.Some? ==> Multiple(addr.value, Pow2(k))
      ensures place.Some? ==> addr.Some?
      ensures addr.None? ==> allocs == old(allocs)
      ensures addr.Some? ==>
                && old(allocs) <= allocs && |allocs| == |old(allocs)| + 1
                && var r := allocs[|old(allocs)|];
                   r.block < |blocks| && blocks[r.block].addr + r.lo == addr.value && r.lo + size <= r.hi
    {
      hide AlignUp, Gap, Filed, AllocsOk, QuantaOk, BlocksOk, BlockSize, PageInd, Counted, Linked, HandOut, TailOf;
      addr := TryTail(size, k);
      if addr.None? {
        addr := ExtentAlloc(size, k, place);
      }
    }

    /** One step of a thread under way. */
    method Perform(p: Phase, s: Step) returns (q: Phase, addr: Option<nat>)
      requires Valid() && 0 < header <= HUGEPAGE && PhaseOk(Setup(), p) && CanStep(Setup(), blocks, p, s)
      modifies this
      ensures Valid() && PhaseOk(Setup(), q) && (Now(), q, addr) == Stepped(Setup(), old(Now()), p, s)
      ensures addr.Some? ==> Multiple(addr.value, Pow2(if s.Ask? then s.k else p.k))
      ensures !q.Idle? ==> (q.size, q.k) == if s.Ask? then (s.size, s.k) else (p.size, p.k)
      ensures addr.None? ==> allocs == old(allocs)
      ensures addr.Some? ==>
                && old(allocs) <= allocs && |allocs| == |old(allocs)| + 1
                && var r := allocs[|old(allocs)|];
                   && r.block < |blocks| && blocks[r.block].addr + r.lo == addr.value
                   && r.lo + (if s.Ask? then s.size else p.size) <= r.hi
      ensures |old(blocks)| <= |blocks| && forall i :: 0 <= i < |old(blocks)| ==> blocks[i].addr == old(blocks)[i].addr
    {
      hide AlignUp, Gap, Multiple, Pow2, Filed, AllocsOk, QuantaOk, BlocksOk, BlockSize, PageInd, Counted, Linked,
        HandOut, TailOf, CanMap;
      addr := None;
      match s {
        case Ask(_, size, k) =>
          addr := TryTail(size, k);
          q := if addr.Some? then Idle else Waiting(size, k);
        case Choose(_) =>
          BlockSizeIsEnough(psizes, pindLast, header, Usize(p.size, p.k), Alignment(p.k));
          q := Chosen(p.size, p.k, Setup().NextBlock(pindLast, p.size, p.k));
        case Fail(_) => q := Idle;
        case Switch(_) =>
          SeeToHugePages();
          q := Backed(p.size, p.k, p.blockSize);
        case Note(_) =>
          pindLast := PageInd(psizes, p.blockSize);
          q := Ranked(p.size, p.k, p.blockSize);
        case Number(_) => q := Numbered(p.size, p.k, p.blockSize, snNext);
        case Count(_) =>
          snNext := p.sn + 1;
          q := Ready(p.size, p.k, p.blockSize, p.sn);
        case Link(_, place) =>
          var at := LinkBlock(p.size, p.k, p.blockSize, p.sn, place);
          q, addr := Idle, Some(at);
      }
    }

    /** The search of base_alloc_impl: the oldest tail of the first class, at or above that of
        the size, with any. */
    method TakeTail(asize: nat) returns (id: Option<nat>)
      requires Valid()
      modifies this`avail
      ensures id == TailFor(blocks, old(avail), SizeInd(classes, asize))
      ensures id.None? ==> Valid() && avail == old(avail) && NoneFiled(avail, SizeInd(classes, asize), |avail|)
      ensures id.Some? ==>
        exists i :: 0 <= i < |old(avail)| && avail == old(avail)[i := old(avail)[i] - {id.value}]
      ensures id.Some? ==>
        && Shape(id.value) && Counted() && id.value < |blocks|
        && asize <= blocks[id.value].size - blocks[id.value].used && blocks[id.value].used % QUANTUM == 0
    {
      hide BlocksOk, AllocsOk, Counted, Classes, FloorInd, SizeInd, TailFor;
      ghost var lo := SizeInd(classes, asize);
      var i := SizeInd(classes, asize);
      while i < |avail|
        invariant Valid() && lo <= i
        invariant avail == old(avail) && i <= |avail| && NoneFiled(avail, lo, i)
      {
        if avail[i] != {} {
          assert forall d :: d in avail[i] ==> FiledAt(classes, blocks, -1, d, i);
          OldestExists(blocks, avail[i]);
          var taken :| taken in avail[i] && forall d :: d in avail[i] ==> !Older(blocks[d], blocks[taken]);
          TailForIs(header, blocks, classes[|classes| - 1], avail, lo, i, taken);
          FiledHighHolds(classes, asize, blocks[taken].size - blocks[taken].used, i);
          ghost var before := avail;
          avail := avail[i := avail[i] - {taken}];
          Unfiled(classes, blocks, before, i, taken);
          return Some(taken);
        }
        i := i + 1;
      }
      NoTailFor(blocks, avail, lo);
      id := None;
    }
  }

  /** No block has a tail that fills a class of at least the size. */
  ghost predicate NoneHolds(classes: seq<nat>, blocks: seq<Block>, asize: nat) {
    forall i, j :: 0 <= i < |blocks| && 0 <= j < |classes| && QUANTUM <= classes[j] && asize <= classes[j] ==>
      blocks[i].size - blocks[i].used < classes[j]
  }

  /** Without a tail to take, no block has one that fills a class of at least the size. */
  lemma TailMissed(classes: seq<nat>, blocks: seq<Block>, avail: seq<set<nat>>, asize: nat)
    requires Classes(classes) && Filed(classes, blocks, avail, -1)
    requires NoneFiled(avail, SizeInd(classes, asize), |avail|)
    ensures NoneHolds(classes, blocks, asize)
  {
    forall i, j | 0 <= i < |blocks| && 0 <= j < |classes| && QUANTUM <= classes[j] && asize <= classes[j]
      ensures blocks[i].size - blocks[i].used < classes[j]
    {
      var tail := blocks[i].size - blocks[i].used;
      if classes[j] <= tail {
        assert SizeInd(classes, asize) <= j <= FloorInd(classes, tail);
        assert FiledAt(classes, blocks, -1, i, FloorInd(classes, tail));
        assert false;
      }
    }
  }

  /** A range bumped off a block begins at the address answered and is the size asked for;
      no block moves. */
  lemma HandOutAppends(c: Config, x: View, id: nat, usize: nat, a: nat)
    requires id < |x.blocks| && a > 0
    ensures var y := HandOut(c, x, id, usize, a);
            && |y.allocs| == |x.allocs| + 1 && x.allocs <= y.allocs && |y.blocks| == |x.blocks|
            && var r := y.allocs[|x.allocs|];
               && r.block == id && y.blocks[id].addr + r.lo == AddressIn(x.blocks[id], a) && r.lo + usize == r.hi
               && forall i :: 0 <= i < |x.blocks| ==> y.blocks[i].addr == x.blocks[i].addr && (i != id ==> y.blocks[i] == x.blocks[i])
    ensures var y := HandOut(c, x, id, usize, a);
            && y.blocks[id].size == x.blocks[id].size && y.blocks[id].sn == x.blocks[id].sn
            && y.snNext == x.snNext && y.pindLast == x.pindLast
  {
  }

  lemma OldestExists(blocks: seq<Block>, ids: set<nat>)
    requires ids != {} && forall d :: d in ids ==> d < |blocks|
    ensures exists id :: id in ids && forall d :: d in ids ==> !Older(blocks[d], blocks[id])
  {
    var id := LeastExists(ids, (d: nat, e: nat) => d < |blocks| && e < |blocks| && Older(blocks[d], blocks[e]));
    assert id in ids;
  }

  /** base_new as a whole: without a place for the first block, or without a lock, there is no
      base. */
  method NewBase(c: Config, baseSize: nat, place: Option<nat>, lock: bool) returns (b: Option<Base>)
    requires |c.psizes| > 2 && (c.madvise ==> c.thp != Disabled)
    requires place.Some? ==>
      var size := BlockSize(c.psizes, 0, c.header, baseSize, QUANTUM);
      FirstBlock(c.classes, c.psizes, c.header, baseSize, Block(place.value, size, c.header, c.header, 0))
    ensures b.Some? <==> place.Some? && lock
    ensures b.Some? ==>
      && fresh(b.value) && b.value.Setup() == c && b.value.Valid()
      && b.value.Now() == FirstView(c, baseSize, place.value)
  {
    hide FirstBlock, FirstView, BlockSize, Base.Valid;
    b := None;
    if place.Some? && lock {
      var first := new Base(c.header, c.classes, c.psizes, c.thp, c.madvise, c.ind, baseSize, place.value);
      b := Some(first);
    }
  }

  /** A tail that is filed nowhere is only added. */
  lemma RefileUnfiled(classes: seq<nat>, blocks: seq<Block>, avail: seq<set<nat>>, id: nat, bsize: int)
    requires Filed(classes, blocks, avail, id)
    ensures var i := if bsize > 0 then SizeInd(classes, bsize + 1) - 1 else -1;
            Refile(classes, avail, id, bsize) == if 0 <= i < |avail| then avail[i := avail[i] + {id}] else avail
  {
    assert forall j :: 0 <= j < |avail| ==> id !in avail[j] && avail[j] - {id} == avail[j];
    assert seq(|avail|, j requires 0 <= j < |avail| => avail[j] - {id}) == avail;
  }

  lemma RefileTaken(classes: seq<nat>, before: seq<set<nat>>, after: seq<set<nat>>, id: nat, bsize: int)
    requires exists i :: 0 <= i < |before| && after == before[i := before[i] - {id}]
    ensures Refile(classes, after, id, bsize) == Refile(classes, before, id, bsize)
  {
    assert forall j :: 0 <= j < |before| ==> after[j] - {id} == before[j] - {id};
  }

  lemma HandOutTaken(c: Config, x: View, avail: seq<set<nat>>, id: nat, usize: nat, a: nat)
    requires id < |x.blocks| && a > 0 && exists i :: 0 <= i < |x.avail| && avail == x.avail[i := x.avail[i] - {id}]
    ensures HandOut(c, x.(avail := avail), id, usize, a) == HandOut(c, x, id, usize, a)
  {
    hide Refile, Gap;
    var b := Bumped(x.blocks[id], usize, a);
    RefileTaken(c.classes, x.avail, avail, id, b.size - b.used);
  }

  /** Every interleaving of the steps of any number of threads: the allocator, the threads and
      the answers are what the steps make of them one by one, every answer is aligned as its
      request asked, the bytes requested at one answer share none with those at another, and
      the counters stay in order. */
  method Run(b: Base, n: nat, steps: seq<Step>) returns (threads: seq<Phase>, answers: seq<Option<nat>>)
    requires b.Valid() && 0 < b.header <= HUGEPAGE
    modifies b
    ensures b.Valid()
    ensures var c, w := b.Setup(), World(old(b.Now()), seq(n, _ => Idle));
            World(b.Now(), threads) == Final(c, w, steps) && answers == Answers(c, w, steps)
    ensures forall k: nat, l: nat, x: nat :: k < l < |b.allocs| ==>
      !(Occupies(b.blocks, b.allocs[k], x) && Occupies(b.blocks, b.allocs[l], x))
    ensures var c, w := b.Setup(), World(old(b.Now()), seq(n, _ => Idle));
            && |answers| == |steps|
            && (forall i {:trigger answers[i]} :: 0 <= i < |answers| && answers[i].Some? ==>
                  Multiple(answers[i].value, Pow2(Wanted(c, w, steps[..i + 1], steps[i].t).1)))
            && forall i, j {:trigger answers[i], answers[j]} ::
                 0 <= i < j < |answers| && answers[i].Some? && answers[j].Some? ==>
                   || answers[i].value + Wanted(c, w, steps[..i + 1], steps[i].t).0 <= answers[j].value
                   || answers[j].value + Wanted(c, w, steps[..j + 1], steps[j].t).0 <= answers[i].value
    ensures b.inUse <= b.resident <= b.mapped && b.nThp * HUGEPAGE <= b.mapped
  {
    hide AlignUp, Gap, Pow2, Multiple, Base.Counted, BlocksOk, QuantaOk, Filed, Stepped, CanStep, PhaseOk, Wanted, Pending,
      Recorded, AllServed, Occupies;
    threads, answers := seq(n, _ => Idle), [];
    ghost var c, w := b.Setup(), World(b.Now(), threads);
    assert forall t :: 0 <= t < n ==> PhaseOk(c, threads[t]) by { IdleOk(c); }
    for i := 0 to |steps|
      invariant b.Valid() && |threads| == n && |answers| == i
      invariant World(b.Now(), threads) == Final(c, w, steps[..i]) && answers == Answers(c, w, steps[..i])
      invariant forall t :: 0 <= t < n ==> PhaseOk(c, threads[t])
    {
      var s, addr := steps[i], None;
      assert steps[..i + 1][..i] == steps[..i] && steps[..i + 1][i] == s;
      if s.t < n && CanStep(b.Setup(), b.blocks, threads[s.t], s) {
        var q;
        q, addr := b.Perform(threads[s.t], s);
        threads := threads[s.t := q];
      }
      answers := answers + [addr];
    }
    assert steps[..|steps|] == steps;
    ghost var served := AnswersServed(c, w, steps);
    ServedApart(b.header, b.blocks, b.classes[|b.classes| - 1], b.allocs, served);
    AnswersApart(c, w, steps, answers, served);
    forall k: nat, l: nat, x: nat | k < l < |b.allocs|
      ensures !(Occupies(b.blocks, b.allocs[k], x) && Occupies(b.blocks, b.allocs[l], x))
    {
      AllocsDisjoint(b.header, b.blocks, b.classes[|b.classes| - 1], b.allocs, k, l, x);
    }
    b.CountersOrdered(-1);
  }

  lemma IdleOk(c: Config)
    ensures PhaseOk(c, Idle)
  {
  }
}
