/** The cuckoo hash table of jemalloc/src/ckh.c.

    A table is an array of cells grouped in buckets of four.  Every key has two
    buckets, and every stored item lives in one of them.  What the operations do to
    the stored items is stated on the multiset of items, so that "nothing is lost and
    nothing is duplicated" is a plain equation.

    The pseudo-random choices of the source are nondeterministic here, so each
    contract holds for every pseudo-random sequence. */
module Cuckoo {
  import opened Arith
  import opened Options

  const LG_BUCKET_CELLS := 2
  const BUCKET_CELLS := 4

  /** Largest table the size-class limit admits: sixteen bytes times 2^58. */
  const LG_CELLS_MAX := 58

  datatype Cell<K, V> = Vacant | Item(key: K, data: V)

  datatype Found<K, V> = Absent | Present(key: K, data: V)

  /** The stored items, with multiplicity. */
  ghost function Items<K, V>(cells: seq<Cell<K, V>>): multiset<Cell<K, V>> {
    multiset(cells)[Vacant := 0]
  }

  /** The items are exactly the entries of the map: no key is stored twice. */
  ghost predicate Represents<K, V>(items: multiset<Cell<K, V>>, m: map<K, V>) {
    && (forall c :: c in items ==> c.Item? && items[c] == 1 && c.key in m && m[c.key] == c.data)
    && (forall k :: k in m ==> Item(k, m[k]) in items)
  }

  lemma ItemsAfterUpdate<K, V>(cells: seq<Cell<K, V>>, i: nat, c: Cell<K, V>)
    requires i < |cells|
    ensures cells[i].Vacant? && c.Item? ==> Items(cells[i := c]) == Items(cells) + multiset{c}
    ensures cells[i].Item? && c.Item? ==>
              Items(cells[i := c]) + multiset{cells[i]} == Items(cells) + multiset{c}
    ensures cells[i].Item? && c.Vacant? ==> Items(cells[i := c]) + multiset{cells[i]} == Items(cells)
  {
  }

  lemma ItemsOfPrefix<K, V>(cells: seq<Cell<K, V>>, i: nat)
    requires i < |cells|
    ensures Items(cells[..i + 1]) ==
            Items(cells[..i]) + (if cells[i].Item? then multiset{cells[i]} else multiset{})
  {
    assert cells[..i + 1] == cells[..i] + [cells[i]];
  }

  /** Every item outside a prefix shows in the difference of the item counts. */
  lemma ItemsSplit<K, V>(cells: seq<Cell<K, V>>, i: nat)
    requires i <= |cells|
    ensures Items(cells) == Items(cells[..i]) + Items(cells[i..])
  {
    assert cells == cells[..i] + cells[i..];
  }

  lemma EmptyTableHasNoItems<K, V>(cells: seq<Cell<K, V>>)
    requires forall i :: 0 <= i < |cells| ==> cells[i].Vacant?
    ensures Items(cells) == multiset{}
  {
  }

  /** Adding an item with a new key to the items adds it to the map, and back. */
  lemma RepresentsSum<K, V>(items: multiset<Cell<K, V>>, m: map<K, V>, key: K, data: V)
    requires Represents(items, m) && key !in m
    ensures Represents(items + multiset{Item(key, data)}, m[key := data])
  {
    forall c | c in items + multiset{Item(key, data)}
      ensures c.Item? && (items + multiset{Item(key, data)})[c] == 1
      ensures c.key in m[key := data] && m[key := data][c.key] == c.data
    {
      if c in items {
        assert c.key != key;
      }
    }
  }

  lemma RepresentsDifference<K, V>(items: multiset<Cell<K, V>>, m: map<K, V>, c: Cell<K, V>)
    requires Represents(items + multiset{c}, m)
    ensures c.Item? && c.key in m && m[c.key] == c.data
    ensures Represents(items, m - {c.key})
  {
    var sum := items + multiset{c};
    assert c in sum;
    assert items[c] == 0;
    forall d | d in items ensures d.Item? && items[d] == 1 && d.key in m - {c.key} && m[d.key] == d.data {
      assert d in sum && d != c;
    }
    forall k | k in m - {c.key} ensures Item(k, m[k]) in items {
      assert Item(k, m[k]) in sum;
    }
  }

  datatype Insertion<K, V> =
    | Inserted
    | Cycle(key: K, data: V)      // gave up; this item is in hand
    | Unfinished(key: K, data: V) // still evicting; this item is in hand

  datatype Rebuilding = Rebuilt | BackOut | StillRunning

  datatype Growth = Grown | NoMemory | StillGrowing

  datatype Answer<K, V> =
    | Stored
    | OutOfMemory(lostKey: K, lostData: V)
    | Running

  /** A table, an item in hand and the bucket it is bound for. */
  datatype Hand<K, V> = Hand(cells: seq<Cell<K, V>>, bucket: nat, item: Cell<K, V>)

  /** The cells a table needs for a load of at most three quarters. */
  function MinCells(minItems: nat): (n: nat)
    ensures 4 * minItems < 3 * n <= 4 * (minItems + 3)
    ensures n % BUCKET_CELLS == 0
  {
    (minItems + (3 - minItems % 3)) / 3 * 4
  }

  /** The exponent of the smallest power of two with enough cells for a number of items. */
  method LgCells(minItems: nat) returns (lg: nat)
    requires MinCells(minItems) <= Pow2(LG_CELLS_MAX)
    ensures LG_BUCKET_CELLS <= lg <= LG_CELLS_MAX && MinCells(minItems) <= Pow2(lg)
    ensures lg > LG_BUCKET_CELLS ==> Pow2(lg - 1) < MinCells(minItems)
  {
    hide MinCells, Pow2;
    lg := LG_BUCKET_CELLS;
    while Pow2(lg) < MinCells(minItems)
      invariant LG_BUCKET_CELLS <= lg <= LG_CELLS_MAX
      invariant lg > LG_BUCKET_CELLS ==> Pow2(lg - 1) < MinCells(minItems)
      decreases LG_CELLS_MAX - lg
    {
      lg := lg + 1;
    }
  }

  /** The smallest power of two with enough cells is the smallest with a load below three
      quarters. */
  lemma SmallestLoad(minItems: nat, lg: nat)
    requires lg >= LG_BUCKET_CELLS && MinCells(minItems) <= Pow2(lg)
    requires lg > LG_BUCKET_CELLS ==> Pow2(lg - 1) < MinCells(minItems)
    ensures Pow2(lg) == BUCKET_CELLS * Pow2(lg - LG_BUCKET_CELLS) && 4 * minItems < 3 * Pow2(lg)
    ensures lg > LG_BUCKET_CELLS ==> 3 * (Pow2(lg) / 2) <= 4 * minItems
  {
    assert Pow2(lg) == 2 * Pow2(lg - 1) && Pow2(lg - 1) == 2 * Pow2(lg - 2);
    if lg > LG_BUCKET_CELLS {
      assert Pow2(lg - 1) == 4 * Pow2(lg - 3);
    }
  }

  /** A table of so many buckets cannot be had: it is too large, or there is no memory. */
  predicate NoTable(lg: nat, memory: nat -> bool) { lg + LG_BUCKET_CELLS > LG_CELLS_MAX || !memory(lg) }

  class Ckh<K(==), V(==)> {
    const hash0: K -> nat
    const hash1: K -> nat
    const lgMinBuckets: nat
    var lgCurBuckets: nat
    var count: nat
    var tab: array<Cell<K, V>>
    ghost var contents: map<K, V>

    function Bucket0(key: K, lg: nat): nat { hash0(key) % Pow2(lg) }
    function Bucket1(key: K, lg: nat): nat { hash1(key) % Pow2(lg) }

    /** Every item sits in one of its two buckets. */
    ghost predicate Placed(cells: seq<Cell<K, V>>, lg: nat) {
      forall i :: 0 <= i < |cells| && cells[i].Item? ==>
        i / BUCKET_CELLS == Bucket0(cells[i].key, lg) || i / BUCKET_CELLS == Bucket1(cells[i].key, lg)
    }

    ghost predicate Shaped()
      reads this, tab
    {
      && tab.Length == BUCKET_CELLS * Pow2(lgCurBuckets)
      && lgMinBuckets <= lgCurBuckets
      && lgCurBuckets + LG_BUCKET_CELLS <= LG_CELLS_MAX
    }

    /** Well placed, with a truthful item counter. */
    ghost predicate Consistent()
      reads this, tab
    {
      && Shaped()
      && Placed(tab[..], lgCurBuckets)
      && count == |Items(tab[..])|
    }

    ghost predicate Valid()
      reads this, tab
    {
      Consistent() && Represents(Items(tab[..]), contents)
    }

    /** ckh_new: the smallest table that leaves a quarter of its cells free once it holds the
        items asked for. */
    constructor (hash0: K -> nat, hash1: K -> nat, minItems: nat)
      requires 0 < minItems && MinCells(minItems) <= Pow2(LG_CELLS_MAX)
      ensures Valid() && contents == map[] && fresh(tab)
      ensures this.hash0 == hash0 && this.hash1 == hash1 && lgCurBuckets == lgMinBuckets
      ensures 4 * minItems < 3 * tab.Length
      ensures lgMinBuckets > 0 ==> 3 * (tab.Length / 2) <= 4 * minItems
    {
      hide MinCells, Pow2;
      var lgMinCells := LgCells(minItems);
      SmallestLoad(minItems, lgMinCells);
      this.hash0, this.hash1, this.lgMinBuckets := hash0, hash1, lgMinCells - LG_BUCKET_CELLS;
      lgCurBuckets, count, contents := lgMinCells - LG_BUCKET_CELLS, 0, map[];
      tab := new Cell<K, V>[BUCKET_CELLS * Pow2(lgMinCells - LG_BUCKET_CELLS)](_ => Vacant);
      new;
      EmptyTableHasNoItems(tab[..]);
    }

    method BucketSearch(bucket: nat, key: K) returns (cell: int)
      requires Shaped() && bucket < Pow2(lgCurBuckets)
      ensures -1 <= cell < tab.Length
      ensures cell >= 0 ==> tab[cell].Item? && tab[cell].key == key && cell / BUCKET_CELLS == bucket
      ensures cell == -1 ==>
                forall j :: 0 <= j < tab.Length && j / BUCKET_CELLS == bucket && tab[j].Item? ==> tab[j].key != key
    {
      var i := 0;
      while i < BUCKET_CELLS
        invariant 0 <= i <= BUCKET_CELLS
        invariant forall j :: bucket * BUCKET_CELLS <= j < bucket * BUCKET_CELLS + i && tab[j].Item? ==>
                    tab[j].key != key
      {
        var c := bucket * BUCKET_CELLS + i;
        if tab[c].Item? && tab[c].key == key {
          return c;
        }
        i := i + 1;
      }
      return -1;
    }

    /** ckh_isearch: the cell holding the key, or -1 exactly when no cell does. */
    method Isearch(key: K) returns (cell: int)
      requires Consistent()
      ensures -1 <= cell < tab.Length
      ensures cell >= 0 ==> tab[cell].Item? && tab[cell].key == key
      ensures cell == -1 ==> forall j :: 0 <= j < tab.Length && tab[j].Item? ==> tab[j].key != key
    {
      cell := BucketSearch(Bucket0(key, lgCurBuckets), key);
      if cell != -1 {
        return;
      }
      cell := BucketSearch(Bucket1(key, lgCurBuckets), key);
      if cell == -1 {
        assert forall j :: 0 <= j < tab.Length ==> tab[j] == tab[..][j];
      }
    }

    /** The cell tried at step i of a scan that starts at a random offset. */
    function Probe(bucket: nat, offset: nat, i: nat): (c: nat)
      ensures c / BUCKET_CELLS == bucket
      ensures bucket * BUCKET_CELLS <= c < (bucket + 1) * BUCKET_CELLS
    {
      bucket * BUCKET_CELLS + (i + offset) % BUCKET_CELLS
    }

    /** A scan of four steps tries every cell of its bucket. */
    lemma ProbeReaches(bucket: nat, offset: nat, j: nat) returns (i: nat)
      requires j / BUCKET_CELLS == bucket && offset < BUCKET_CELLS
      ensures i < BUCKET_CELLS && Probe(bucket, offset, i) == j
    {
      i := (j + BUCKET_CELLS - offset) % BUCKET_CELLS;
      assert (i + offset) % BUCKET_CELLS == j % BUCKET_CELLS;
    }

    ghost predicate BucketFull(cells: seq<Cell<K, V>>, bucket: nat) {
      forall j :: 0 <= j < |cells| && j / BUCKET_CELLS == bucket ==> cells[j].Item?
    }

    /** Neither bucket of the key has a vacant cell. */
    ghost predicate BothFull(cells: seq<Cell<K, V>>, lg: nat, key: K) {
      BucketFull(cells, Bucket0(key, lg)) && BucketFull(cells, Bucket1(key, lg))
    }

    /** Writing an item into a cell of one of its buckets keeps every item placed. */
    method WriteCell(c: nat, key: K, data: V)
      requires Shaped() && Placed(tab[..], lgCurBuckets) && c < tab.Length
      requires c / BUCKET_CELLS == Bucket0(key, lgCurBuckets) || c / BUCKET_CELLS == Bucket1(key, lgCurBuckets)
      modifies tab
      ensures Shaped() && Placed(tab[..], lgCurBuckets)
      ensures tab[..] == old(tab[..])[c := Item(key, data)]
    {
      tab[c] := Item(key, data);
    }

    /** Every item of a bucket has another bucket, and that has a vacant cell. */
    ghost predicate Relieved(cells: seq<Cell<K, V>>, lg: nat, bucket: nat) {
      forall j :: 0 <= j < |cells| && j / BUCKET_CELLS == bucket && cells[j].Item? ==>
        exists other ::
          && (other == Bucket0(cells[j].key, lg) || other == Bucket1(cells[j].key, lg))
          && other != bucket && !BucketFull(cells, other)
    }

    /** Whichever item of such a bucket is evicted finds room. */
    lemma EvictedFindsRoom(x: seq<Cell<K, V>>, y: seq<Cell<K, V>>, lg: nat, bucket: nat, item: Cell<K, V>, key: K, to: nat)
      requires Placed(x, lg) && Relieved(x, lg, bucket) && item.Item?
      requires exists c :: 0 <= c < |x| && c / BUCKET_CELLS == bucket && x[c].Item? && x[c].key == key && y == x[c := item]
      requires to == Bucket0(key, lg) || to == Bucket1(key, lg)
      requires Bucket0(key, lg) != Bucket1(key, lg) ==> to != bucket
      ensures to != bucket && !BucketFull(y, to)
    {
      var c :| 0 <= c < |x| && c / BUCKET_CELLS == bucket && x[c].Item? && x[c].key == key && y == x[c := item];
      var other :|
        && (other == Bucket0(key, lg) || other == Bucket1(key, lg))
        && other != bucket && !BucketFull(x, other);
      var j :| 0 <= j < |x| && j / BUCKET_CELLS == other && x[j].Vacant?;
      assert y[j].Vacant?;
    }

    /** The item was written into a vacant cell of the bucket. */
    ghost predicate Placing(x: seq<Cell<K, V>>, y: seq<Cell<K, V>>, bucket: nat, item: Cell<K, V>) {
      exists c :: 0 <= c < |x| && c / BUCKET_CELLS == bucket && x[c].Vacant? && y == x[c := item]
    }

    /** The bucket of a key that is not the given one, if it has two. */
    function OtherBucket(key: K, bucket: nat): nat
      reads this`lgCurBuckets
    {
      if Bucket1(key, lgCurBuckets) == bucket then Bucket0(key, lgCurBuckets) else Bucket1(key, lgCurBuckets)
    }

    /** One eviction: the item in hand takes a cell of its bucket, and what was there is now in
        hand, bound for its other bucket. */
    ghost predicate Evicts(x: Hand<K, V>, y: Hand<K, V>)
      reads this`lgCurBuckets
    {
      exists c :: Evicting(x, y, c)
    }

    ghost predicate Evicting(x: Hand<K, V>, y: Hand<K, V>, c: int)
      reads this`lgCurBuckets
    {
      && 0 <= c < |x.cells| && c / BUCKET_CELLS == x.bucket && x.cells[c].Item?
      && y == Hand(x.cells[c := x.item], OtherBucket(x.cells[c].key, x.bucket), x.cells[c])
    }

    /** ckh_try_bucket_insert: uses a vacant cell of the bucket if it has one. */
    method TryBucketInsert(bucket: nat, key: K, data: V) returns (full: bool)
      requires Consistent() && bucket < Pow2(lgCurBuckets)
      requires bucket == Bucket0(key, lgCurBuckets) || bucket == Bucket1(key, lgCurBuckets)
      modifies this`count, tab
      ensures Consistent()
      ensures full ==> tab[..] == old(tab[..]) && count == old(count) && BucketFull(tab[..], bucket)
      ensures !full ==> Items(tab[..]) == old(Items(tab[..])) + multiset{Item(key, data)}
      ensures !full ==> Placing(old(tab[..]), tab[..], bucket, Item(key, data))
    {
      var offset :| 0 <= offset < BUCKET_CELLS;
      var i := 0;
      while i < BUCKET_CELLS
        invariant 0 <= i <= BUCKET_CELLS
        invariant Consistent() && tab[..] == old(tab[..]) && count == old(count)
        invariant forall t :: 0 <= t < i ==> tab[..][Probe(bucket, offset, t)].Item?
      {
        var c := Probe(bucket, offset, i);
        if tab[c].Vacant? {
          ItemsAfterUpdate(tab[..], c, Item(key, data));
          WriteCell(c, key, data);
          count := count + 1;
          return false;
        }
        i := i + 1;
      }
      forall j | 0 <= j < tab.Length && j / BUCKET_CELLS == bucket ensures tab[..][j].Item? {
        var t := ProbeReaches(bucket, offset, j);
      }
      return true;
    }

    /** One eviction from a full bucket, of a random cell. */
    method EvictOne(bucket: nat, key: K, data: V) returns (key': K, data': V, tbucket: nat)
      requires Consistent() && bucket < Pow2(lgCurBuckets) && BucketFull(tab[..], bucket)
      requires bucket == Bucket0(key, lgCurBuckets) || bucket == Bucket1(key, lgCurBuckets)
      modifies tab
      ensures Consistent()
      ensures Items(tab[..]) + multiset{Item(key', data')} == old(Items(tab[..])) + multiset{Item(key, data)}
      ensures tbucket < Pow2(lgCurBuckets)
      ensures tbucket == Bucket0(key', lgCurBuckets) || tbucket == Bucket1(key', lgCurBuckets)
      ensures Bucket0(key', lgCurBuckets) != Bucket1(key', lgCurBuckets) ==> tbucket != bucket
      ensures exists c :: 0 <= c < |old(tab[..])| && c / BUCKET_CELLS == bucket &&
                old(tab[..])[c] == Item(key', data') && tab[..] == old(tab[..])[c := Item(key, data)]
      ensures Evicts(Hand(old(tab[..]), bucket, Item(key, data)), Hand(tab[..], tbucket, Item(key', data')))
    {
      hide Items;
      var i :| 0 <= i < BUCKET_CELLS;
      var c := bucket * BUCKET_CELLS + i;
      assert tab[..][c].Item?;
      ItemsAfterUpdate(tab[..], c, Item(key, data));
      var evicted := tab[c];
      WriteCell(c, key, data);
      key', data' := evicted.key, evicted.data;
      tbucket := Bucket1(key', lgCurBuckets);
      if tbucket == bucket {
        tbucket := Bucket0(key', lgCurBuckets);
      }
      assert Evicting(Hand(old(tab[..]), bucket, Item(key, data)), Hand(tab[..], tbucket, Item(key', data')), c);
      assert |Items(tab[..]) + multiset{evicted}| == |old(Items(tab[..])) + multiset{Item(key, data)}|;
    }

    /** ckh_evict_reloc_insert.  A chain of evictions leads from the table and the item given
        to the table and the item in hand at the end: the item is placed, or bound for the
        bucket the chain began with, or as many evictions were made as are allowed.  What
        holds then is what holds after every eviction of the source's unbounded loop. */
    method EvictRelocInsert(argBucket: nat, argKey: K, argData: V, fuel: nat)
      returns (r: Insertion<K, V>, ghost hands: seq<Hand<K, V>>)
      requires Consistent() && argBucket < Pow2(lgCurBuckets)
      requires argBucket == Bucket0(argKey, lgCurBuckets) || argBucket == Bucket1(argKey, lgCurBuckets)
      requires BucketFull(tab[..], argBucket)
      modifies this`count, tab
      ensures Consistent()
      ensures r.Inserted? ==> Items(tab[..]) == old(Items(tab[..])) + multiset{Item(argKey, argData)}
      ensures !r.Inserted? ==>
                && Items(tab[..]) + multiset{Item(r.key, r.data)} ==
                   old(Items(tab[..])) + multiset{Item(argKey, argData)}
                && count == old(count)
      ensures 0 < |hands| <= fuel + 1 && hands[0] == Hand(old(tab[..]), argBucket, Item(argKey, argData))
      ensures forall i :: 0 <= i < |hands| - 1 ==> Evicts(hands[i], hands[i + 1])
      ensures var last := hands[|hands| - 1];
              match r
              case Inserted => Placing(last.cells, tab[..], last.bucket, last.item)
              case Cycle(key, data) => |hands| > 1 && last == Hand(tab[..], argBucket, Item(key, data))
              case Unfinished(key, data) =>
                |hands| == fuel + 1 && last == Hand(tab[..], last.bucket, Item(key, data)) && BucketFull(tab[..], last.bucket)
      ensures fuel > 0 && Relieved(old(tab[..]), lgCurBuckets, argBucket) ==> r.Inserted?
    {
      hide Placed, Items, BucketFull, Evicts, Placing, Relieved, Bucket0, Bucket1, Pow2;
      var bucket: nat, key, data := argBucket, argKey, argData;
      var left := fuel;
      hands := [Hand(tab[..], bucket, Item(key, data))];
      while left > 0
        invariant 0 <= left <= fuel
        invariant |hands| == fuel - left + 1 && hands[0] == Hand(old(tab[..]), argBucket, Item(argKey, argData))
        invariant hands[|hands| - 1] == Hand(tab[..], bucket, Item(key, data))
        invariant forall i :: 0 <= i < |hands| - 1 ==> Evicts(hands[i], hands[i + 1])
        invariant Consistent() && bucket < Pow2(lgCurBuckets)
        invariant bucket == Bucket0(key, lgCurBuckets) || bucket == Bucket1(key, lgCurBuckets)
        invariant BucketFull(tab[..], bucket)
        invariant count == old(count)
        invariant Items(tab[..]) + multiset{Item(key, data)} ==
                  old(Items(tab[..])) + multiset{Item(argKey, argData)}
        invariant left < fuel ==> !Relieved(old(tab[..]), lgCurBuckets, argBucket)
      {
        ghost var before, hand := tab[..], Item(key, data);
        left := left - 1;
        var tbucket;
        key, data, tbucket := EvictOne(bucket, key, data);
        if left + 1 == fuel && Relieved(before, lgCurBuckets, argBucket) {
          EvictedFindsRoom(before, tab[..], lgCurBuckets, argBucket, hand, key, tbucket);
        }
        hands := hands + [Hand(tab[..], tbucket, Item(key, data))];
        if tbucket == argBucket {
          return Cycle(key, data), hands;
        }
        bucket := tbucket;
        var full := TryBucketInsert(bucket, key, data);
        if !full {
          return Inserted, hands;
        }
      }
      return Unfinished(key, data), hands;
    }

    /** ckh_try_insert.  It fails only if neither bucket has room. */
    method TryInsert(key: K, data: V, fuel: nat) returns (r: Insertion<K, V>)
      requires Consistent()
      modifies this`count, tab
      ensures Consistent()
      ensures !r.Inserted? ==> BothFull(old(tab[..]), lgCurBuckets, key)
      ensures !BucketFull(old(tab[..]), Bucket0(key, lgCurBuckets)) ==>
                r.Inserted? && Placing(old(tab[..]), tab[..], Bucket0(key, lgCurBuckets), Item(key, data))
      ensures BucketFull(old(tab[..]), Bucket0(key, lgCurBuckets)) && !BucketFull(old(tab[..]), Bucket1(key, lgCurBuckets)) ==>
                r.Inserted? && Placing(old(tab[..]), tab[..], Bucket1(key, lgCurBuckets), Item(key, data))
      ensures fuel > 0 && Relieved(old(tab[..]), lgCurBuckets, Bucket1(key, lgCurBuckets)) ==> r.Inserted?
      ensures r.Inserted? ==> Items(tab[..]) == old(Items(tab[..])) + multiset{Item(key, data)}
      ensures !r.Inserted? ==>
                && Items(tab[..]) + multiset{Item(r.key, r.data)} ==
                   old(Items(tab[..])) + multiset{Item(key, data)}
                && count == old(count)
    {
      var full := TryBucketInsert(Bucket0(key, lgCurBuckets), key, data);
      if !full {
        return Inserted;
      }
      full := TryBucketInsert(Bucket1(key, lgCurBuckets), key, data);
      if !full {
        return Inserted;
      }
      ghost var hands;
      r, hands := EvictRelocInsert(Bucket1(key, lgCurBuckets), key, data, fuel);
    }

    /** How many items have a bucket as their first. */
    ghost function Homed(cells: seq<Cell<K, V>>, lg: nat, bucket: nat): nat {
      if cells == [] then 0
      else
        var n := |cells| - 1;
        Homed(cells[..n], lg, bucket) +
        (if cells[n].Item? && hash0(cells[n].key) % Pow2(lg) == bucket then 1 else 0)
    }

    /** No bucket is the first of more items than it has cells. */
    ghost predicate Spread(cells: seq<Cell<K, V>>, lg: nat) {
      forall b: nat :: Homed(cells, lg, b) <= BUCKET_CELLS
    }

    /** Every item sits in its first bucket. */
    ghost predicate AtHome(cells: seq<Cell<K, V>>, lg: nat) {
      forall i :: 0 <= i < |cells| && cells[i].Item? ==> hash0(cells[i].key) % Pow2(lg) == i / BUCKET_CELLS
    }

    lemma {:induction false} HomedAfter(cells: seq<Cell<K, V>>, lg: nat, b: nat, i: nat, item: Cell<K, V>)
      requires i < |cells| && cells[i].Vacant? && item.Item?
      ensures Homed(cells[i := item], lg, b) ==
              Homed(cells, lg, b) + (if hash0(item.key) % Pow2(lg) == b then 1 else 0)
      decreases |cells|
    {
      var n := |cells| - 1;
      if i < n {
        HomedAfter(cells[..n], lg, b, i, item);
        assert cells[i := item][..n] == cells[..n][i := item];
      } else {
        assert cells[i := item][..n] == cells[..n];
      }
    }

    lemma {:induction false} HomedPrefix(cells: seq<Cell<K, V>>, lg: nat, b: nat, i: nat)
      requires i <= |cells|
      ensures Homed(cells[..i], lg, b) <= Homed(cells, lg, b)
      decreases |cells|
    {
      if i == |cells| {
        assert cells[..i] == cells;
      } else {
        HomedPrefix(cells[..|cells| - 1], lg, b, i);
        assert cells[..|cells| - 1][..i] == cells[..i];
      }
    }

    lemma HomedLast(cells: seq<Cell<K, V>>, lg: nat, b: nat, i: nat)
      requires i < |cells|
      ensures Homed(cells[..i + 1], lg, b) ==
              Homed(cells[..i], lg, b) + (if cells[i].Item? && hash0(cells[i].key) % Pow2(lg) == b then 1 else 0)
    {
      assert cells[..i + 1][..i] == cells[..i];
    }

    /** A full bucket of items at home. */
    lemma FullOfHomed(cells: seq<Cell<K, V>>, lg: nat, b: nat)
      requires AtHome(cells, lg) && BucketFull(cells, b) && (b + 1) * BUCKET_CELLS <= |cells|
      ensures Homed(cells, lg, b) >= BUCKET_CELLS
    {
      hide Homed;
      var i := b * BUCKET_CELLS;
      HomedLast(cells, lg, b, i);
      HomedLast(cells, lg, b, i + 1);
      HomedLast(cells, lg, b, i + 2);
      HomedLast(cells, lg, b, i + 3);
      HomedPrefix(cells, lg, b, i + 4);
    }

    /** The items of a prefix are all moved to their first buckets. */
    ghost predicate Moved(cells: seq<Cell<K, V>>, from: seq<Cell<K, V>>, i: nat, lg: nat)
      requires i <= |from|
    {
      AtHome(cells, lg) && forall b: nat :: Homed(cells, lg, b) == Homed(from[..i], lg, b)
    }

    /** Moving items that spread over the new buckets, one more finds its first bucket free. */
    lemma HomeIsFree(cells: seq<Cell<K, V>>, from: seq<Cell<K, V>>, i: nat, lg: nat)
      requires |cells| == BUCKET_CELLS * Pow2(lg) && i < |from| && from[i].Item? && Spread(from, lg)
      requires Moved(cells, from, i, lg)
      ensures !BucketFull(cells, hash0(from[i].key) % Pow2(lg))
    {
      hide Homed, BucketFull, AtHome;
      var b := hash0(from[i].key) % Pow2(lg);
      HomedLast(from, lg, b, i);
      HomedPrefix(from, lg, b, i + 1);
      if BucketFull(cells, b) {
        FullOfHomed(cells, lg, b);
      }
    }

    lemma StaysHome(x: seq<Cell<K, V>>, y: seq<Cell<K, V>>, from: seq<Cell<K, V>>, i: nat, lg: nat)
      requires i < |from| && from[i].Item? && Moved(x, from, i, lg)
      requires Placing(x, y, hash0(from[i].key) % Pow2(lg), from[i])
      ensures Moved(y, from, i + 1, lg)
    {
      hide Homed;
      var c :| 0 <= c < |x| && c / BUCKET_CELLS == hash0(from[i].key) % Pow2(lg) && x[c].Vacant? && y == x[c := from[i]];
      forall b: nat ensures Homed(y, lg, b) == Homed(from[..i + 1], lg, b) {
        HomedAfter(x, lg, b, c, from[i]);
        HomedLast(from, lg, b, i);
      }
    }

    /** ckh_rebuild: moves the items of the old table into the current, empty one.  The
        scan stays inside the old table because the counter is truthful. */
    method Rebuild(oldTab: array<Cell<K, V>>, fuel: nat) returns (r: Rebuilding)
      requires Shaped() && oldTab != tab
      requires forall i :: 0 <= i < tab.Length ==> tab[i].Vacant?
      requires count == |Items(oldTab[..])|
      modifies this`count, tab
      ensures r.Rebuilt? ==> Consistent() && Items(tab[..]) == Items(oldTab[..])
      ensures r.BackOut? ==> count == old(count)
      ensures Spread(oldTab[..], lgCurBuckets) ==> r.Rebuilt?
    {
      hide Moved, Spread, Placed, Items;
      ghost var from := oldTab[..];
      var total := count;
      count := 0;
      EmptyTableHasNoItems(tab[..]);
      EmptyTableHasNoItems(from[..0]);
      NobodyMoved(tab[..], from, lgCurBuckets);
      var i, nins := 0, 0;
      assert from[..oldTab.Length] == from;
      while nins < total
        invariant i <= oldTab.Length && nins <= total && oldTab[..] == from
        invariant Consistent() && nins == count
        invariant Items(tab[..]) == Items(from[..i])
        invariant Spread(from, lgCurBuckets) ==> Moved(tab[..], from, i, lgCurBuckets)
        decreases oldTab.Length - i
      {
        assert i < |from| && oldTab[i] == from[i];
        ItemsOfPrefix(from, i);
        if oldTab[i].Item? {
          var attempt := Move(oldTab[i].key, oldTab[i].data, fuel, from, i);
          if attempt.Cycle? {
            count := total;
            return BackOut;
          } else if attempt.Unfinished? {
            return StillRunning;
          }
          nins := nins + 1;
        } else {
          if Spread(from, lgCurBuckets) { SkipVacant(tab[..], from, i, lgCurBuckets); }
        }
        i := i + 1;
      }
      ItemsSplit(from, i);
      assert |Items(from[i..])| == 0;
      return Rebuilt;
    }

    /** One item of ckh_rebuild. */
    method Move(key: K, data: V, fuel: nat, ghost from: seq<Cell<K, V>>, ghost i: nat) returns (r: Insertion<K, V>)
      requires Consistent() && i < |from| && from[i] == Item(key, data)
      requires Spread(from, lgCurBuckets) ==> Moved(tab[..], from, i, lgCurBuckets)
      modifies this`count, tab
      ensures Consistent()
      ensures r.Inserted? ==> Items(tab[..]) == old(Items(tab[..])) + multiset{Item(key, data)}
      ensures !r.Inserted? ==> count == old(count)
      ensures Spread(from, lgCurBuckets) ==> r.Inserted? && Moved(tab[..], from, i + 1, lgCurBuckets)
    {
      hide Moved, Spread, BucketFull, Placing, BothFull, Relieved, Placed, Items;
      ghost var before := tab[..];
      if Spread(from, lgCurBuckets) { HomeIsFree(before, from, i, lgCurBuckets); }
      r := TryInsert(key, data, fuel);
      if Spread(from, lgCurBuckets) { StaysHome(before, tab[..], from, i, lgCurBuckets); }
    }

    lemma NobodyMoved(cells: seq<Cell<K, V>>, from: seq<Cell<K, V>>, lg: nat)
      requires forall i :: 0 <= i < |cells| ==> cells[i].Vacant?
      ensures Moved(cells, from, 0, lg) && Placed(cells, lg)
    {
      forall b: nat ensures Homed(cells, lg, b) == 0 { NoneHomed(cells, lg, b); }
    }

    lemma SkipVacant(cells: seq<Cell<K, V>>, from: seq<Cell<K, V>>, i: nat, lg: nat)
      requires i < |from| && from[i].Vacant? && Moved(cells, from, i, lg)
      ensures Moved(cells, from, i + 1, lg)
    {
      hide Homed, AtHome;
      forall b: nat ensures Homed(from[..i + 1], lg, b) == Homed(from[..i], lg, b) { HomedLast(from, lg, b, i); }
    }

    lemma {:induction false} NoneHomed(cells: seq<Cell<K, V>>, lg: nat, b: nat)
      requires forall i :: 0 <= i < |cells| ==> cells[i].Vacant?
      ensures Homed(cells, lg, b) == 0
      decreases |cells|
    {
      if cells != [] { NoneHomed(cells[..|cells| - 1], lg, b); }
    }

    /** ckh_grow: doubles until a rebuild succeeds.  The items never change. */
    method Grow(fuel: nat, memory: nat -> bool) returns (r: Growth)
      requires Consistent()
      modifies this`tab, this`count, this`lgCurBuckets
      ensures r.Grown? ==>
                && Consistent() && fresh(tab)
                && Items(tab[..]) == old(Items(tab[..]))
                && lgCurBuckets > old(lgCurBuckets) && memory(lgCurBuckets)
      ensures r.NoMemory? ==>
                && Consistent() && tab == old(tab)
                && tab[..] == old(tab[..]) && lgCurBuckets == old(lgCurBuckets)
                && exists lg :: lg > lgCurBuckets && NoTable(lg, memory)
      ensures var lg := old(lgCurBuckets) + 1;
              if NoTable(lg, memory) then r.NoMemory?
              else Spread(old(tab[..]), lg) ==> r.Grown? && lgCurBuckets == lg
    {
      hide Spread, Homed;
      var prev := lgCurBuckets;
      var lgCells := lgCurBuckets + LG_BUCKET_CELLS;
      while true
        invariant Consistent() && tab == old(tab) && tab[..] == old(tab[..])
        invariant lgCurBuckets == prev && lgCells >= prev + LG_BUCKET_CELLS
        invariant lgCells > prev + LG_BUCKET_CELLS ==> !NoTable(prev + 1, memory) && !Spread(tab[..], prev + 1)
        decreases LG_CELLS_MAX - lgCells
      {
        lgCells := lgCells + 1;
        if lgCells > LG_CELLS_MAX || !memory(lgCells - LG_BUCKET_CELLS) {
          assert NoTable(lgCells - LG_BUCKET_CELLS, memory);
          return NoMemory;
        }
        var spare := tab;
        lgCurBuckets := lgCells - LG_BUCKET_CELLS;
        tab := new Cell<K, V>[BUCKET_CELLS * Pow2(lgCurBuckets)](_ => Vacant);
        var outcome := Rebuild(spare, fuel);
        if outcome.Rebuilt? {
          return Grown;
        } else if outcome.StillRunning? {
          return StillGrowing;
        }
        tab, lgCurBuckets := spare, prev;
      }
    }

    /** ckh_shrink: halves the table if the items can be placed, else leaves it alone. */
    method Shrink(fuel: nat, memory: bool) returns (finished: bool)
      requires Consistent() && lgCurBuckets > lgMinBuckets
      modifies this`tab, this`count, this`lgCurBuckets
      ensures finished ==>
                && Consistent()
                && Items(tab[..]) == old(Items(tab[..]))
                && (tab == old(tab) ==> tab[..] == old(tab[..]) && lgCurBuckets == old(lgCurBuckets))
                && (tab == old(tab) || (fresh(tab) && lgCurBuckets == old(lgCurBuckets) - 1))
      ensures if !memory then finished && tab == old(tab)
              else Spread(old(tab[..]), old(lgCurBuckets) - 1) ==> finished && lgCurBuckets == old(lgCurBuckets) - 1
    {
      hide Spread, Homed;
      var prev, spare := lgCurBuckets, tab;
      if !memory {
        return true;
      }
      lgCurBuckets := prev - 1;
      tab := new Cell<K, V>[BUCKET_CELLS * Pow2(lgCurBuckets)](_ => Vacant);
      var outcome := Rebuild(spare, fuel);
      if outcome.Rebuilt? {
        return true;
      } else if outcome.StillRunning? {
        return false;
      }
      tab, lgCurBuckets := spare, prev;
      return true;
    }

    /** ckh_insert.  A failed insert leaves exactly one item of the old items plus the
        new one out of the table, and not necessarily the new one. */
    method Insert(key: K, data: V, fuel: nat, memory: nat -> bool) returns (r: Answer<K, V>)
      requires Valid() && key !in contents
      modifies this, tab
      ensures !r.Running? ==> Valid() && (tab == old(tab) || fresh(tab))
      ensures r.Stored? ==> contents == old(contents)[key := data]
      ensures r.OutOfMemory? ==>
                && var all := old(contents)[key := data];
                && r.lostKey in all && all[r.lostKey] == r.lostData
                && contents == all - {r.lostKey}
      ensures r.OutOfMemory? ==> exists lg :: lg > old(lgCurBuckets) && NoTable(lg, memory)
      ensures !r.Running? && tab == old(tab) ==> lgCurBuckets == old(lgCurBuckets)
      ensures !BothFull(old(tab[..]), old(lgCurBuckets), key) ==>
                r.Stored? && tab == old(tab) && lgCurBuckets == old(lgCurBuckets)
      ensures fuel > 0 && Relieved(old(tab[..]), old(lgCurBuckets), Bucket1(key, old(lgCurBuckets))) ==>
                r.Stored? && tab == old(tab) && lgCurBuckets == old(lgCurBuckets)
    {
      hide Relieved, Spread, BucketFull, BothFull, Placing, Placed, Represents, NoTable;
      ghost var all := Items(tab[..]) + multiset{Item(key, data)};
      RepresentsSum(Items(tab[..]), contents, key, data);
      contents := contents[key := data];
      var k, d := key, data;
      while true
        invariant Consistent() && (tab == old(tab) || fresh(tab))
        invariant contents == old(contents)[key := data]
        invariant Represents(all, contents)
        invariant Items(tab[..]) + multiset{Item(k, d)} == all
        invariant lgCurBuckets >= old(lgCurBuckets) && (tab == old(tab) ==> lgCurBuckets == old(lgCurBuckets))
        invariant || (&& BothFull(old(tab[..]), old(lgCurBuckets), key)
                      && !(fuel > 0 && Relieved(old(tab[..]), old(lgCurBuckets), Bucket1(key, old(lgCurBuckets)))))
                  || (k == key && tab == old(tab) && tab[..] == old(tab[..]) && lgCurBuckets == old(lgCurBuckets))
        decreases LG_CELLS_MAX - lgCurBuckets
      {
        var attempt := TryInsert(k, d, fuel);
        if attempt.Inserted? {
          return Stored;
        } else if attempt.Unfinished? {
          return Running;
        }
        k, d := attempt.key, attempt.data;
        var growth := Grow(fuel, memory);
        if growth.NoMemory? {
          RepresentsDifference(Items(tab[..]), contents, Item(k, d));
          contents := contents - {k};
          return OutOfMemory(k, d);
        } else if growth.StillGrowing? {
          return Running;
        }
      }
    }

    /** ckh_search. */
    method Search(key: K) returns (r: Found<K, V>)
      requires Valid()
      ensures r == if key in contents then Present(key, contents[key]) else Absent
    {
      var cell := Isearch(key);
      if cell == -1 {
        NotStored(key);
        return Absent;
      }
      assert tab[..][cell] in Items(tab[..]);
      return Present(tab[cell].key, tab[cell].data);
    }

    lemma NotStored(key: K)
      requires Valid()
      requires forall j :: 0 <= j < tab.Length && tab[j].Item? ==> tab[j].key != key
      ensures key !in contents
    {
    }

    /** The table is less than a quarter full and may be halved. */
    predicate Sparse(items: int, lg: nat) {
      lg + LG_BUCKET_CELLS >= 2 && items < Pow2(lg + LG_BUCKET_CELLS - 2) && lg > lgMinBuckets
    }

    /** ckh_remove: the map loses the key, whether or not the table is then halved. */
    method Remove(key: K, fuel: nat, memory: bool) returns (r: Found<K, V>, finished: bool)
      requires Valid()
      modifies this, tab
      ensures r == if key in old(contents) then Present(key, old(contents)[key]) else Absent
      ensures finished ==> Valid() && (tab == old(tab) || fresh(tab))
      ensures finished ==> contents == old(contents) - {key}
      ensures finished && key !in old(contents) ==> tab == old(tab) && tab[..] == old(tab[..]) && lgCurBuckets == old(lgCurBuckets)
      ensures finished ==>
        lgCurBuckets == old(lgCurBuckets) || (lgCurBuckets == old(lgCurBuckets) - 1 && Sparse(old(count) - 1, old(lgCurBuckets)))
      ensures !finished ==> key in old(contents) && Sparse(old(count) - 1, old(lgCurBuckets))
      ensures !finished || lgCurBuckets != old(lgCurBuckets) ==>
                memory && 4 * (old(count) - 1) < old(tab.Length) && old(lgCurBuckets) > lgMinBuckets
      ensures var cells := Cleared(old(tab[..]), key);
              && key in old(contents) && memory && 4 * (old(count) - 1) < old(tab.Length)
              && old(lgCurBuckets) > lgMinBuckets && Spread(cells, old(lgCurBuckets) - 1) ==>
                finished && lgCurBuckets == old(lgCurBuckets) - 1
    {
      hide Represents, Placed, Spread, Homed;
      Quarter(lgCurBuckets);
      var cell := Isearch(key);
      if cell == -1 {
        NotStored(key);
        return Absent, true;
      }
      r := Present(tab[cell].key, tab[cell].data);
      ClearCell(cell);
      assert tab[..] == Cleared(old(tab[..]), key);
      finished := true;
      if Sparse(count, lgCurBuckets) {
        finished := Shrink(fuel, memory);
      }
    }

    lemma OnlyOne(cells: seq<Cell<K, V>>, m: map<K, V>, i: nat)
      requires Represents(Items(cells), m) && i < |cells| && cells[i].Item?
      ensures forall j :: 0 <= j < |cells| && j != i && cells[j].Item? ==> cells[j].key != cells[i].key
    {
      forall j | 0 <= j < |cells| && j != i && cells[j].Item? ensures cells[j].key != cells[i].key {
        assert cells[i] in Items(cells) && cells[j] in Items(cells);
        if cells[j].key == cells[i].key {
          assert cells[j] == cells[i];
          ItemsSplit(cells, if i < j then j else i);
        }
      }
    }

    /** The cells without the item of a key. */
    ghost function Cleared(cells: seq<Cell<K, V>>, key: K): seq<Cell<K, V>> {
      seq(|cells|, i requires 0 <= i < |cells| => if cells[i].Item? && cells[i].key == key then Vacant else cells[i])
    }

    lemma Quarter(lg: nat)
      ensures BUCKET_CELLS * Pow2(lg) == 4 * Pow2(lg + LG_BUCKET_CELLS - 2)
    {
    }

    /** A stored key is in a bucket that one of its hashes selects. */
    lemma StoredWhereHashed(key: K) returns (i: nat)
      requires Valid() && key in contents
      ensures i < tab.Length && tab[i] == Item(key, contents[key])
      ensures var buckets := tab.Length / BUCKET_CELLS;
              i / BUCKET_CELLS == hash0(key) % buckets || i / BUCKET_CELLS == hash1(key) % buckets
    {
      assert Item(key, contents[key]) in Items(tab[..]);
      i :| 0 <= i < tab.Length && tab[..][i] == Item(key, contents[key]);
      assert tab.Length / BUCKET_CELLS == Pow2(lgCurBuckets);
    }

    method ClearCell(cell: nat)
      requires Valid() && cell < tab.Length && tab[cell].Item?
      modifies tab, this`count, this`contents
      ensures Valid()
      ensures count == old(count) - 1
      ensures var item := old(tab[cell]);
              && item.key in old(contents) && old(contents)[item.key] == item.data
              && contents == old(contents) - {item.key}
      ensures tab[..] == old(tab[..])[cell := Vacant]
      ensures forall j :: 0 <= j < |tab[..]| && j != cell && tab[..][j].Item? ==> tab[..][j].key != old(tab[cell]).key
    {
      ghost var before := tab[..];
      assert before[cell] in Items(before);
      OnlyOne(before, contents, cell);
      ItemsAfterUpdate(before, cell, Vacant);
      tab[cell] := Vacant;
      assert tab[..] == before[cell := Vacant];
      count := count - 1;
      RepresentsDifference(Items(tab[..]), contents, before[cell]);
      contents := contents - {before[cell].key};
    }
  }

  /** ckh_new as a whole: it fails without memory, and for a table beyond the largest size
      class. */
  method NewTable<K(==), V(==)>(hash0: K -> nat, hash1: K -> nat, minItems: nat, memory: bool)
    returns (t: Option<Ckh<K, V>>)
    requires 0 < minItems
    ensures t.Some? <==> memory && MinCells(minItems) <= Pow2(LG_CELLS_MAX)
    ensures t.Some? ==>
      var c := t.value;
      && fresh(c) && fresh(c.tab) && c.Valid() && c.contents == map[] && c.hash0 == hash0 && c.hash1 == hash1
      && 4 * minItems < 3 * c.tab.Length && (c.lgMinBuckets > 0 ==> 3 * (c.tab.Length / 2) <= 4 * minItems)
  {
    hide MinCells, Pow2, Ckh.Valid;
    t := None;
    if MinCells(minItems) <= Pow2(LG_CELLS_MAX) && memory {
      var c := new Ckh(hash0, hash1, minItems);
      t := Some(c);
    }
  }

  datatype Op<K, V> = Put(key: K, data: V) | Get(key: K) | Drop(key: K)

  /** The reference: what each operation answers on a plain map, and the map it leaves.  An
      insertion that fails loses one entry. */
  function MapStep<K, V>(m: map<K, V>, op: Op<K, V>, lost: Option<K>): (map<K, V>, Found<K, V>) {
    match op
    case Put(k, d) =>
      if k in m then (m, Absent)
      else (if lost.Some? then m[k := d] - {lost.value} else m[k := d], Absent)
    case Get(k) => (m, if k in m then Present(k, m[k]) else Absent)
    case Drop(k) => (m - {k}, if k in m then Present(k, m[k]) else Absent)
  }

  function MapRun<K, V>(m: map<K, V>, ops: seq<Op<K, V>>, lost: seq<Option<K>>): (map<K, V>, seq<Found<K, V>>)
    requires |lost| == |ops|
  {
    if ops == [] then (m, []) else
      var n := |ops| - 1;
      var (m1, answers) := MapRun(m, ops[..n], lost[..n]);
      var (m2, answer) := MapStep(m1, ops[n], lost[n]);
      (m2, answers + [answer])
  }

  /** The table's cells and size. */
  datatype Table<K, V> = Table(cells: seq<Cell<K, V>>, lg: nat)

  /** What an operation that is carried out does to the table.  An entry is lost only by the
      insertion of a new key whose buckets have no room, for want of a larger table, and is an
      old one or the new one. */
  ghost predicate Carried<K(!new), V(!new)>(t: Ckh<K, V>, op: Op<K, V>, x: Table<K, V>, m: map<K, V>, lost: Option<K>,
                                            y: Table<K, V>, memory: nat -> bool)
  {
    && t.Placed(y.cells, y.lg) && Represents(Items(y.cells), MapStep(m, op, lost).0)
    && (lost.Some? ==>
          && op.Put? && op.key !in m && t.BothFull(x.cells, x.lg, op.key)
          && (lost.value == op.key || lost.value in m) && exists lg :: lg > x.lg && NoTable(lg, memory))
    && (op.Get? || (op.Put? && op.key in m) || (op.Drop? && op.key !in m) ==> y == x)
    && (op.Put? && !t.BothFull(x.cells, x.lg, op.key) ==> y.lg == x.lg)
    && (op.Drop? ==> y.lg == x.lg || (y.lg == x.lg - 1 && t.Sparse(|Items(x.cells)| - 1, x.lg)))
  }

  /** When an operation may go on evicting: an insertion of a new key whose buckets have no
      room, and a removal after which the table is to be halved. */
  ghost predicate MayGoOn<K(!new), V(!new)>(t: Ckh<K, V>, op: Op<K, V>, x: Table<K, V>, m: map<K, V>) {
    || (op.Put? && op.key !in m && t.BothFull(x.cells, x.lg, op.key))
    || (op.Drop? && op.key in m && t.Sparse(|Items(x.cells)| - 1, x.lg))
  }

  /** Every run of the table answers as the plain map does, and holds the same entries, also
      after insertions that failed and lost an entry.  A run is cut short only when the
      evictions allowed run out, in an insertion of a new key whose buckets are both full or
      while a table less than a quarter full is halved; what ran before the cut agrees as
      well.  Put on a present key is skipped, since the source asserts that the key is
      absent. */
  method Run<K(==, !new), V(==, !new)>(t: Ckh<K, V>, ops: seq<Op<K, V>>, fuel: nat, memory: nat -> nat -> bool)
    returns (done: nat, answers: seq<Found<K, V>>, lost: seq<Option<K>>, ghost trace: seq<Table<K, V>>)
    requires t.Valid()
    modifies t, t.tab
    ensures done <= |ops| && |lost| == done
    ensures answers == MapRun(old(t.contents), ops[..done], lost).1
    ensures done == |ops| ==> t.Valid() && t.contents == MapRun(old(t.contents), ops, lost).0
    ensures |trace| == done + 1 && trace[0] == old(Table(t.tab[..], t.lgCurBuckets))
    ensures forall i :: 0 <= i < done ==>
      Carried(t, ops[i], trace[i], MapRun(old(t.contents), ops[..i], lost[..i]).0, lost[i], trace[i + 1], memory(i))
    ensures if done == |ops| then trace[done] == Table(t.tab[..], t.lgCurBuckets)
            else MayGoOn(t, ops[done], trace[done], MapRun(old(t.contents), ops[..done], lost).0)
  {
    hide Ckh.Valid, Ckh.BothFull, Ckh.Sparse, Ckh.Placed, Represents, Carried, MapStep, MayGoOn;
    answers, lost, done := [], [], 0;
    trace := [Table(t.tab[..], t.lgCurBuckets)];
    while done < |ops|
      invariant done <= |ops| && |lost| == done && t.Valid() && (t.tab == old(t.tab) || fresh(t.tab))
      invariant (t.contents, answers) == MapRun(old(t.contents), ops[..done], lost)
      invariant |trace| == done + 1 && trace[0] == old(Table(t.tab[..], t.lgCurBuckets))
      invariant trace[done] == Table(t.tab[..], t.lgCurBuckets)
      invariant forall i :: 0 <= i < done ==>
        Carried(t, ops[i], trace[i], MapRun(old(t.contents), ops[..i], lost[..i]).0, lost[i], trace[i + 1], memory(i))
    {
      assert ops[..done + 1][..done] == ops[..done];
      var ok, answer, loss := Perform(t, ops[done], fuel, memory(done));
      if !ok {
        return;
      }
      ghost var had := lost;
      answers, lost := answers + [answer], lost + [loss];
      assert lost[..done] == had && forall i :: 0 <= i < done ==> lost[..i] == had[..i];
      trace := trace + [Table(t.tab[..], t.lgCurBuckets)];
      done := done + 1;
    }
    assert ops[..done] == ops;
  }

  method Perform<K(==, !new), V(==, !new)>(t: Ckh<K, V>, op: Op<K, V>, fuel: nat, memory: nat -> bool)
    returns (ok: bool, answer: Found<K, V>, lost: Option<K>)
    requires t.Valid()
    modifies t, t.tab
    ensures ok ==> t.Valid() && (t.tab == old(t.tab) || fresh(t.tab))
    ensures ok ==> (t.contents, answer) == MapStep(old(t.contents), op, lost)
    ensures ok ==>
      Carried(t, op, old(Table(t.tab[..], t.lgCurBuckets)), old(t.contents), lost, Table(t.tab[..], t.lgCurBuckets), memory)
    ensures !ok ==> MayGoOn(t, op, old(Table(t.tab[..], t.lgCurBuckets)), old(t.contents))
  {
    hide Ckh.BothFull, Ckh.Sparse, Ckh.Placed, Represents, Ckh.Relieved, Ckh.Spread;
    ok, answer, lost := true, Absent, None;
    match op {
      case Put(k, d) =>
        var present := t.Search(k);
        if present.Absent? {
          var r := t.Insert(k, d, fuel, memory);
          ok := !r.Running?;
          lost := if r.OutOfMemory? then Some(r.lostKey) else None;
        }
      case Get(k) =>
        answer := t.Search(k);
      case Drop(k) =>
        answer, ok := t.Remove(k, fuel, t.lgCurBuckets > 0 && memory(t.lgCurBuckets - 1));
    }
  }
}
