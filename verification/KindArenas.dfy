/** How memkind maps kinds to jemalloc arenas: src/memkind_arena.c over the arena indices of
    jemalloc/src/ctl.c.  jemalloc hands out the index destroyed last, or the next new one;
    memkind takes a kind's arenas to be a contiguous range. */
module KindArenas {
  import opened Arith
  import opened Options

  const ARENA_LIMIT: nat := 4095
  const REGISTRY_ENTRIES: nat := 0xffe  // of arena_registry_g, one short of the limit
  const UINT_MAX: nat := 0xFFFF_FFFF
  const INT_MAX: nat := 0x7FFF_FFFF

  type Kind = nat

  // ----- the map length

  /** integer_log2: the index of the highest set bit. */
  function Log2(v: nat): (k: nat)
    requires v > 0
    ensures Pow2(k) <= v < 2 * Pow2(k)
  {
    if v == 1 then 0 else 1 + Log2(v / 2)
  }

  /** round_pow2_up. */
  function RoundPow2Up(v: nat): nat
    requires v > 0
  {
    var k := Log2(v);
    if v != Pow2(k) then Pow2(k + 1) else v
  }

  /** The least power of two that is not below v. */
  lemma RoundPow2UpIsLeast(v: nat)
    requires v > 0
    ensures var r := RoundPow2Up(v);
            && IsPow2(r) && v <= r < 2 * v
            && forall j: nat :: v <= Pow2(j) ==> r <= Pow2(j)
  {
    var k := Log2(v);
    forall j: nat | v <= Pow2(j) ensures RoundPow2Up(v) <= Pow2(j) {
      if j > k { Pow2Monotone(k + 1, j); } else { Pow2Monotone(j, k); }
    }
  }

  datatype Length = Invalid | Length(len: nat, mask: nat)

  /** How many arenas a kind that picks them by thread asks for: what the environment says if
      it is set, else four per processor, up to the limit per kind if there is one. */
  function Asked(env: int, cpus: nat, limit: nat): int {
    if env >= 0 then env else if limit != 0 && limit < 4 * cpus then limit else 4 * cpus
  }

  /** memkind_set_arena_map_len: one arena for a bijective kind; otherwise what is asked for,
      rounded up.  A negative environment value stands for none. */
  function MapLength(bijective: bool, env: int, cpus: nat, limit: nat): Length
    requires env >= -1 && 0 < cpus && 4 * cpus <= INT_MAX
  {
    if bijective then Length(1, 0)
    else if env == 0 || env > INT_MAX then Invalid
    else
      var len := RoundPow2Up(Asked(env, cpus, limit));
      Length(len, len - 1)
  }

  /** Bitwise and. */
  function And(x: nat, m: nat): nat
    decreases m
  {
    if m == 0 then 0 else 2 * And(x / 2, m / 2) + (x % 2) * (m % 2)
  }

  /** Halving before or after taking a remainder. */
  lemma HalvedRemainder(x: nat, p: nat)
    requires p > 0
    ensures x % (2 * p) == 2 * ((x / 2) % p) + x % 2
  {
    var q, r := (x / 2) / p, (x / 2) % p;
    assert x / 2 == q * p + r;
    assert q * (2 * p) == 2 * (q * p);
    QuotientIs(x, q, 2 * p);
  }

  /** Masking with a power of two less one is the remainder. */
  lemma {:induction false} AndMask(x: nat, k: nat)
    ensures And(x, Pow2(k) - 1) == x % Pow2(k) < Pow2(k)
    ensures x < Pow2(k) ==> And(x, Pow2(k) - 1) == x
  {
    if k > 0 {
      AndMask(x / 2, k - 1);
      AndOdd(x, Pow2(k - 1));
      HalvedRemainder(x, Pow2(k - 1));
    }
  }

  lemma AndOdd(x: nat, p: nat)
    requires p > 0
    ensures And(x, 2 * p - 1) == 2 * And(x / 2, p - 1) + x % 2
  {
    assert (2 * p - 1) / 2 == p - 1 && (2 * p - 1) % 2 == 1;
  }

  /** The length chosen is a power of two, no smaller than asked for and less than twice it. */
  lemma MapLengthIsPow2(bijective: bool, env: int, cpus: nat, limit: nat)
    requires env >= -1 && 0 < cpus && 4 * cpus <= INT_MAX
    ensures var l := MapLength(bijective, env, cpus, limit);
            && (l.Invalid? <==> !bijective && (env == 0 || env > INT_MAX))
            && (l.Length? ==> IsPow2(l.len) && l.mask == l.len - 1)
            && (bijective ==> l.len == 1)
            && (!bijective && l.Length? && env > 0 ==> env <= l.len < 2 * env)
            && (!bijective && env < 0 && (limit == 0 || 4 * cpus <= limit) ==> 4 * cpus <= l.len < 8 * cpus)
            && (!bijective && env < 0 && 0 < limit <= 4 * cpus ==> limit <= l.len < 2 * limit)
  {
    if bijective {
      assert Pow2(0) == 1;
    } else if MapLength(bijective, env, cpus, limit).Length? {
      RoundPow2UpIsLeast(Asked(env, cpus, limit));
    }
  }

  /** memkind_thread_get_arena: the arena a thread's hash selects. */
  function ThreadArena(zero: nat, mask: nat, hash: nat): nat { zero + And(hash, mask) }

  /** Every hash lands on an arena of the kind, and every arena of the kind is where some
      hash lands. */
  lemma ThreadArenaCovers(zero: nat, len: nat, hash: nat)
    requires IsPow2(len)
    ensures zero <= ThreadArena(zero, len - 1, hash) < zero + len
    ensures hash < len ==> ThreadArena(zero, len - 1, hash) == zero + hash
  {
    var k: nat :| len == Pow2(k);
    AndMask(hash, k);
  }

  // ----- blocks of indices

  function Block(start: nat, len: nat): (b: seq<nat>)
    ensures |b| == len && forall i :: 0 <= i < len ==> b[i] == start + i
  {
    seq(len, i => start + i)
  }

  /** The k-th block of indices after the first one memkind may use. */
  function Start(first: nat, len: nat, k: nat): nat { first + k * len }

  function Flatten(first: nat, len: nat, ks: seq<nat>): seq<nat> {
    if ks == [] then []
    else Flatten(first, len, ks[..|ks| - 1]) + Block(Start(first, len, ks[|ks| - 1]), len)
  }

  lemma NextStart(first: nat, len: nat, k: nat)
    ensures Start(first, len, k + 1) == Start(first, len, k) + len
  {
  }

  predicate InBlock(first: nat, len: nat, b: nat, i: nat) { Start(first, len, b) <= i < Start(first, len, b) + len }

  lemma BlockBelow(first: nat, len: nat, b: nat, n: nat)
    requires b < n
    ensures Start(first, len, b) + len <= Start(first, len, n)
  {
    MulMonotone(b + 1, n, len);
    assert (b + 1) * len == b * len + len;
  }

  /** Different blocks share no index. */
  lemma BlocksApart(first: nat, len: nat, j: nat, k: nat, i: nat)
    requires len > 0 && j != k && InBlock(first, len, j, i)
    ensures !InBlock(first, len, k, i)
  {
    if j < k { MulMonotone(j + 1, k, len); } else { MulMonotone(k + 1, j, len); }
  }

  ghost predicate Distinct(ks: seq<nat>) {
    forall i, j :: 0 <= i < j < |ks| ==> ks[i] != ks[j]
  }

  /** Every block belongs to one kind or is once on the destroyed stack. */
  ghost predicate Partition(live: map<Kind, nat>, dead: seq<nat>, nblocks: nat) {
    && Distinct(dead)
    && (forall b :: b in dead ==> b < nblocks && forall k :: k in live ==> live[k] != b)
    && (forall k :: k in live ==> live[k] < nblocks)
    && (forall j, k :: j in live && k in live && live[j] == live[k] ==> j == k)
  }

  /** The registry names exactly the arenas of existing kinds. */
  ghost predicate Registered(first: nat, len: nat, registry: map<nat, Kind>, live: map<Kind, nat>) {
    && (forall k, i {:trigger InBlock(first, len, live[k], i)} :: k in live && InBlock(first, len, live[k], i) ==>
          i in registry && registry[i] == k)
    && (forall i :: i in registry ==> registry[i] in live && InBlock(first, len, live[registry[i]], i))
  }

  function Assigned(registry: map<nat, Kind>, lo: nat, hi: nat, kind: Kind): (r: map<nat, Kind>)
    ensures forall i :: i in r <==> i in registry || lo <= i < hi
    ensures forall i :: i in r ==> r[i] == if lo <= i < hi then kind else registry[i]
  {
    if hi <= lo then registry else Assigned(registry, lo, hi - 1, kind)[hi - 1 := kind]
  }

  function Cleared(registry: map<nat, Kind>, lo: nat, hi: nat): map<nat, Kind> {
    map i | i in registry && !(lo <= i < hi) :: registry[i]
  }

  lemma RegisterBlock(first: nat, len: nat, registry: map<nat, Kind>, live: map<Kind, nat>, kind: Kind, b: nat)
    requires len > 0 && Registered(first, len, registry, live) && kind !in live
    requires forall k :: k in live ==> live[k] != b
    ensures var z := Start(first, len, b);
            && Registered(first, len, Assigned(registry, z, z + len, kind), live[kind := b])
            && forall i :: z <= i < z + len ==> i !in registry
  {
    hide Start;
    var z := Start(first, len, b);
    var registry', live' := Assigned(registry, z, z + len, kind), live[kind := b];
    forall i | i in registry ensures !(z <= i < z + len) {
      BlocksApart(first, len, live[registry[i]], b, i);
    }
    forall k, i | k in live' && InBlock(first, len, live'[k], i) ensures i in registry' && registry'[i] == k {
      if k != kind {
        assert InBlock(first, len, live[k], i);
      }
    }
  }

  lemma UnregisterBlock(first: nat, len: nat, registry: map<nat, Kind>, live: map<Kind, nat>, kind: Kind)
    requires len > 0 && Registered(first, len, registry, live) && kind in live
    requires forall k :: k in live && live[k] == live[kind] ==> k == kind
    ensures var z := Start(first, len, live[kind]);
            Registered(first, len, Cleared(registry, z, z + len), live - {kind})
  {
    hide Start;
    var z := Start(first, len, live[kind]);
    var registry', live' := Cleared(registry, z, z + len), live - {kind};
    forall k, i | k in live' && InBlock(first, len, live'[k], i) ensures i in registry' && registry'[i] == k {
      assert InBlock(first, len, live[k], i);
      BlocksApart(first, len, live[k], live[kind], i);
    }
    forall i | i in registry' ensures registry'[i] in live' && InBlock(first, len, live'[registry'[i]], i) {
      assert InBlock(first, len, live[registry[i]], i);
    }
  }

  lemma PartitionTake(live: map<Kind, nat>, dead: seq<nat>, nblocks: nat, kind: Kind)
    requires Partition(live, dead, nblocks) && kind !in live
    ensures dead == [] ==> Partition(live[kind := nblocks], dead, nblocks + 1)
    ensures dead != [] ==> Partition(live[kind := dead[|dead| - 1]], dead[..|dead| - 1], nblocks)
    ensures forall k :: k in live ==> live[k] != if dead == [] then nblocks else dead[|dead| - 1]
  {
    if dead != [] {
      var last, rest := dead[|dead| - 1], dead[..|dead| - 1];
      assert last in dead;
      forall b | b in rest ensures b in dead && b != last {
      }
    }
  }

  lemma PartitionGive(live: map<Kind, nat>, dead: seq<nat>, nblocks: nat, kind: Kind)
    requires Partition(live, dead, nblocks) && kind in live
    ensures Partition(live - {kind}, dead + [live[kind]], nblocks)
  {
    var b, live', dead' := live[kind], live - {kind}, dead + [live[kind]];
    forall i, j | 0 <= i < j < |dead'| ensures dead'[i] != dead'[j] {
      if j == |dead| { assert dead[i] in dead; }
    }
    forall c | c in dead' ensures c < nblocks && forall k :: k in live' ==> live'[k] != c {
      if c != b { assert c in dead; }
    }
  }

  datatype Op = Create(kind: Kind) | Destroy(kind: Kind)

  /** The arena indices in use and destroyed, and the first arena of each kind. */
  datatype Indexing = Indexing(narenas: nat, destroyed: seq<nat>, zero: map<Kind, nat>)

  /** What an operation makes of them: a kind is created from the block destroyed last or, if
      there is none, from new indices as long as they last. */
  function Performed(x: Indexing, op: Op, len: nat): Indexing {
    match op
    case Create(kind) =>
      var left := |x.destroyed| - len;
      if kind in x.zero then x
      else if x.destroyed == [] then
        if x.narenas + len > ARENA_LIMIT then x else Indexing(x.narenas + len, [], x.zero[kind := x.narenas])
      else if left < 0 || len == 0 then x
      else Indexing(x.narenas, x.destroyed[..left], x.zero[kind := x.destroyed[left]])
    case Destroy(kind) =>
      if kind in x.zero then Indexing(x.narenas, x.destroyed + Block(x.zero[kind], len), x.zero - {kind}) else x
  }

  function AllPerformed(x: Indexing, ops: seq<Op>, len: nat): Indexing {
    if ops == [] then x else Performed(AllPerformed(x, ops[..|ops| - 1], len), ops[|ops| - 1], len)
  }

  /** The state of jemalloc's arena indices and of memkind's registry.  Every kind has a map
      of the same length. */
  class Manager {
    const len: nat
    const first: nat                  // arenas jemalloc made for itself come before
    var narenas: nat                  // ctl_arenas->narenas
    var destroyed: seq<nat>           // ctl_arenas->destroyed, taken from the end
    var registry: map<nat, Kind>      // arena_registry_g
    var zero: map<Kind, nat>          // arena_zero of the kinds that exist
    ghost var live: map<Kind, nat>    // the block of each kind
    ghost var dead: seq<nat>          // the blocks on the destroyed stack
    ghost var nblocks: nat

    ghost predicate Valid()
      reads this
    {
      && len > 0 && narenas == Start(first, len, nblocks) <= ARENA_LIMIT
      && destroyed == Flatten(first, len, dead)
      && zero.Keys == live.Keys && (forall k :: k in live ==> zero[k] == Start(first, len, live[k]))
      && Partition(live, dead, nblocks) && Registered(first, len, registry, live)
    }

    function Indexes(): Indexing
      reads this
    {
      Indexing(narenas, destroyed, zero)
    }

    constructor (len: nat, first: nat)
      requires len > 0 && first <= ARENA_LIMIT
      ensures Valid() && zero == map[] && this.len == len && this.first == first
    {
      this.len, this.first := len, first;
      narenas, destroyed, registry, zero := first, [], map[], map[];
      live, dead, nblocks := map[], [], 0;
    }

    /** ctl_arena_init: the index destroyed last, or else a new one. */
    method ArenaInit() returns (i: nat)
      requires destroyed == [] ==> narenas < ARENA_LIMIT
      modifies this`narenas, this`destroyed
      ensures if old(destroyed) == []
              then i == old(narenas) && narenas == i + 1 && destroyed == []
              else i == old(destroyed)[|old(destroyed)| - 1] && narenas == old(narenas)
                   && destroyed == old(destroyed)[..|old(destroyed)| - 1]
    {
      if destroyed != [] {
        i := destroyed[|destroyed| - 1];
        destroyed := destroyed[..|destroyed| - 1];
      } else {
        i := narenas;
        narenas := narenas + 1;
      }
    }

    /** The loop of memkind_arena_create_map when indices come off the destroyed stack: they
        arrive in descending order, so the smallest is the last. */
    method TakeDestroyed(kind: Kind, ghost rest: seq<nat>, ghost start: nat) returns (arenaZero: nat)
      requires len > 0 && destroyed == rest + Block(start, len) && start + len <= ARENA_LIMIT
      modifies this`narenas, this`destroyed, this`registry
      ensures arenaZero == start && destroyed == rest && narenas == old(narenas)
      ensures registry == Assigned(old(registry), start, start + len, kind)
    {
      arenaZero := UINT_MAX;
      for i := 0 to len
        invariant destroyed == rest + Block(start, len)[..len - i] && narenas == old(narenas)
        invariant arenaZero == if i == 0 then UINT_MAX else start + len - i
        invariant registry == Assigned(old(registry), start + len - i, start + len, kind)
      {
        var index := ArenaInit();
        assert index == start + len - i - 1;
        if arenaZero > index {
          arenaZero := index;
        }
        registry := registry[index := kind];
      }
    }

    /** The same loop when the stack is empty: new indices arrive in ascending order. */
    method TakeNew(kind: Kind) returns (arenaZero: nat)
      requires len > 0 && destroyed == [] && narenas + len <= ARENA_LIMIT
      modifies this`narenas, this`destroyed, this`registry
      ensures arenaZero == old(narenas) && destroyed == [] && narenas == old(narenas) + len
      ensures registry == Assigned(old(registry), arenaZero, arenaZero + len, kind)
    {
      arenaZero := UINT_MAX;
      for i := 0 to len
        invariant destroyed == [] && narenas == old(narenas) + i
        invariant arenaZero == if i == 0 then UINT_MAX else old(narenas)
        invariant registry == Assigned(old(registry), old(narenas), old(narenas) + i, kind)
      {
        var index := ArenaInit();
        if arenaZero > index {
          arenaZero := index;
        }
        registry := registry[index := kind];
      }
    }

    /** The block on top of the stack lies below the indices handed out so far. */
    lemma LastBlockBelow()
      requires Valid() && dead != []
      ensures Start(first, len, dead[|dead| - 1]) + len <= narenas
    {
      var b := dead[|dead| - 1];
      assert b in dead;
      MulMonotone(b + 1, nblocks, len);
    }

    /** memkind_arena_create_map: the kind gets one whole block, whichever way jemalloc hands
        the indices out, and no other kind's registration changes. */
    method CreateMap(kind: Kind)
      requires Valid() && kind !in zero
      requires destroyed != [] || narenas + len <= ARENA_LIMIT
      modifies this
      ensures Valid() && Indexes() == Performed(old(Indexes()), Create(kind), len)
      ensures kind in zero && zero == old(zero)[kind := zero[kind]]
      ensures registry == Assigned(old(registry), zero[kind], zero[kind] + len, kind)
      ensures forall i :: zero[kind] <= i < zero[kind] + len ==> i !in old(registry)
    {
      hide Registered, Partition, Assigned, Start;
      NextStart(first, len, nblocks);
      ghost var b := if dead == [] then nblocks else dead[|dead| - 1];
      PartitionTake(live, dead, nblocks, kind);
      RegisterBlock(first, len, registry, live, kind, b);
      var arenaZero;
      if destroyed != [] {
        ghost var rest := dead[..|dead| - 1];
        LastBlockBelow();
        arenaZero := TakeDestroyed(kind, Flatten(first, len, rest), Start(first, len, b));
        dead := rest;
      } else {
        arenaZero := TakeNew(kind);
        nblocks := nblocks + 1;
      }
      zero := zero[kind := arenaZero];
      live := live[kind := b];
    }

    lemma BlockIsOwn(kind: Kind)
      requires Valid() && kind in live
      ensures forall k :: k in live && live[k] == live[kind] ==> k == kind
    {
    }

    /** The loop of memkind_arena_destroy: the kind's indices go onto the stack in ascending
        order, so that the largest is handed out again first. */
    method PutBack(start: nat)
      modifies this`destroyed, this`registry
      ensures destroyed == old(destroyed) + Block(start, len)
      ensures registry == Cleared(old(registry), start, start + len)
    {
      for i := 0 to len
        invariant destroyed == old(destroyed) + Block(start, len)[..i]
        invariant registry == Cleared(old(registry), start, start + i)
      {
        destroyed := destroyed + [start + i];
        registry := registry - {start + i};
      }
    }

    /** memkind_arena_destroy. */
    method Destroy(kind: Kind)
      requires Valid() && kind in zero
      modifies this
      ensures Valid() && zero == old(zero) - {kind}
      ensures Indexes() == Performed(old(Indexes()), Op.Destroy(kind), len)
      ensures registry == Cleared(old(registry), old(zero)[kind], old(zero)[kind] + len)
    {
      hide Registered, Partition, Start, Cleared;
      ghost var b := live[kind];
      BlockIsOwn(kind);
      PartitionGive(live, dead, nblocks, kind);
      UnregisterBlock(first, len, registry, live, kind);
      PutBack(zero[kind]);
      assert (dead + [b])[..|dead|] == dead;
      dead := dead + [b];
      zero := zero - {kind};
      live := live - {kind};
    }

    /** get_kind_by_arena. */
    function KindOf(arena: nat): Option<Kind>
      reads this
    {
      if arena in registry then Some(registry[arena]) else None
    }

    /** Whatever arena a thread's hash selects, it belongs to the kind asked for. */
    lemma SelectedArenaIsOwn(kind: Kind, hash: nat)
      requires Valid() && kind in zero && IsPow2(len)
      ensures KindOf(ThreadArena(zero[kind], len - 1, hash)) == Some(kind)
    {
      ThreadArenaCovers(zero[kind], len, hash);
      OwnedArenas(kind);
    }

    /** An arena is registered behind the end of the registry exactly when jemalloc has handed
        out every index it has and a kind owns the last one. */
    lemma RegistryOverrunIff()
      requires Valid()
      ensures (exists i: nat :: i in registry && i >= REGISTRY_ENTRIES)
              <==> narenas == ARENA_LIMIT && ARENA_LIMIT - 1 in registry
    {
      hide Start, Flatten, Registered, Partition;
      RegisteredBelow();
    }

    lemma RegisteredBelow()
      requires Valid()
      ensures forall i: nat :: i in registry ==> i < narenas
    {
      hide Start, Flatten;
      forall i: nat | i in registry ensures i < narenas {
        var b := live[registry[i]];
        assert InBlock(first, len, b, i);
        BlockBelow(first, len, b, nblocks);
      }
    }

    lemma OwnedArenas(kind: Kind)
      requires Valid() && kind in zero
      ensures forall i: nat :: KindOf(i) == Some(kind) <==> zero[kind] <= i < zero[kind] + len
    {
      forall i: nat ensures KindOf(i) == Some(kind) <==> zero[kind] <= i < zero[kind] + len {
        assert InBlock(first, len, live[kind], i) <==> zero[kind] <= i < zero[kind] + len;
      }
    }
  }

  /** Every run of creations and destructions does what the operations say: each existing kind owns exactly the arenas from
      its first one on, as many as the map is long, and no arena has two owners. */
  method Run(m: Manager, ops: seq<Op>)
    requires m.Valid()
    modifies m
    ensures m.Valid() && m.Indexes() == AllPerformed(old(m.Indexes()), ops, m.len)
    ensures forall k, i: nat :: k in m.zero ==>
              (m.KindOf(i) == Some(k) <==> m.zero[k] <= i < m.zero[k] + m.len)
  {
    hide Manager.Valid;
    for n := 0 to |ops|
      invariant m.Valid() && m.Indexes() == AllPerformed(old(m.Indexes()), ops[..n], m.len)
    {
      assert ops[..n + 1][..n] == ops[..n];
      match ops[n] {
        case Create(kind) =>
          if kind !in m.zero && (m.destroyed != [] || m.narenas + m.len <= ARENA_LIMIT) {
            m.CreateMap(kind);
          }
        case Destroy(kind) =>
          if kind in m.zero {
            m.Destroy(kind);
          }
      }
    }
    assert ops[..|ops|] == ops;
    forall k, i: nat | k in m.zero ensures m.KindOf(i) == Some(k) <==> m.zero[k] <= i < m.zero[k] + m.len {
      m.OwnedArenas(k);
    }
  }

  // ----- why the map length must not vary

  /** jemalloc's arena indices: how many there are, and the destroyed ones in order. */
  datatype Indices = Indices(narenas: nat, destroyed: seq<nat>)

  /** ctl_arena_init n times: the indices handed out, in order, and what is left. */
  function Hand(s: Indices, n: nat): (seq<nat>, Indices) {
    if n == 0 then ([], s)
    else
      var (given, t) := Hand(s, n - 1);
      if t.destroyed == [] then (given + [t.narenas], t.(narenas := t.narenas + 1))
      else (given + [t.destroyed[|t.destroyed| - 1]], t.(destroyed := t.destroyed[..|t.destroyed| - 1]))
  }

  /** From a stack that holds one block come first its indices in descending order and then
      new ones in ascending order. */
  lemma {:induction false} HandBlock(narenas: nat, start: nat, len: nat, n: nat)
    ensures var (given, t) := Hand(Indices(narenas, Block(start, len)), n);
            && |given| == n
            && (forall i :: 0 <= i < n ==> given[i] == if i < len then start + len - 1 - i else narenas + i - len)
            && t == if n <= len then Indices(narenas, Block(start, len)[..len - n]) else Indices(narenas + n - len, [])
  {
    if n == 0 {
      assert Block(start, len)[..len] == Block(start, len);
    } else {
      HandBlock(narenas, start, len, n - 1);
    }
  }

  /** Maps of different lengths break contiguity, whatever the lengths and whatever lies in
      between: kinds of length a and c are created, the first is destroyed, and a kind of a
      greater length b is created.  The arena behind the recycled block, which the new kind
      takes for its own, is not among those it was given, and belongs to the other kind. */
  lemma MixedLengthsBreak(first: nat, a: nat, b: nat, c: nat)
    requires 0 < a < b && 0 < c
    ensures var (mine, s1) := Hand(Indices(first, []), a);
            var (theirs, s2) := Hand(s1, c);
            var (given, s3) := Hand(s2.(destroyed := s2.destroyed + Block(first, a)), b);
            && mine == Block(first, a)
            && first in given && (forall i :: i in given ==> first <= i)
            && first <= first + a < first + b && first + a !in given && first + a in theirs
  {
    hide Hand;
    assert Block(first, 0) == [];
    HandBlock(first, first, 0, a);
    var (mine, s1) := Hand(Indices(first, []), a);
    assert mine == Block(first, a);
    assert Block(first + a, 0) == [];
    HandBlock(first + a, first + a, 0, c);
    var (theirs, s2) := Hand(s1, c);
    assert theirs[0] == first + a;
    assert [] + Block(first, a) == Block(first, a);
    HandBlock(first + a + c, first, a, b);
    var (given, s3) := Hand(s2.(destroyed := s2.destroyed + Block(first, a)), b);
    assert given[a - 1] == first;
  }
}
