/** A load or a store through the data cache: the split of the address into
    tag, set index and offset, the lookup, the choice of a victim, the
    write-back of a dirty victim and the refill, and the two write policies,
    write-back with write-allocate ("WB") and write-through without
    write-allocate ("WT"). */
module CacheAccess {
  import opened Arith
  import opened Wrappers
  import opened Memory
  import opened CacheSim

  /** The width of the bit string an address is cut into fields from. */
  const ADDRESS_BITS: nat := 20
  const TWO20: nat := 0x10_0000
  const INT_MAX: int := TWO31 - 1

  lemma Pow2Address()
    ensures Pow2(ADDRESS_BITS) == TWO20
  {
    Pow2Byte();
    Pow2Add(16, 4);
    assert Pow2(4) == 16;
  }

  /** The widths of the offset and index fields; the tag takes the rest. */
  datatype Geometry = Geometry(offsetBits: nat, indexBits: nat)

  predicate Fits20(g: Geometry) {
    g.offsetBits + g.indexBits <= ADDRESS_BITS
  }

  function TagBits(g: Geometry): nat
    requires Fits20(g)
  {
    ADDRESS_BITS - g.offsetBits - g.indexBits
  }

  /** `(int) log2` of the block size and of the set count. `None` where the
      source's behaviour is undefined or it throws: a set count or block size
      below 1, whose logarithm is not a number, and fields wider than the
      20-bit string, where `substr` throws `out_of_range`. */
  function GeometryOf(c: Cache): (r: Option<Geometry>)
    ensures r.Some? ==> Fits20(r.value) && NumSets(c.cacheSize, c.blockSize, c.assoc).Some?
    ensures r.Some? ==> Pow2(r.value.offsetBits) <= c.blockSize < Pow2(r.value.offsetBits + 1)
    ensures r.Some? ==>
      var n := NumSets(c.cacheSize, c.blockSize, c.assoc).value;
      Pow2(r.value.indexBits) <= n < Pow2(r.value.indexBits + 1)
  {
    match NumSets(c.cacheSize, c.blockSize, c.assoc)
    case None => None
    case Some(n) =>
      if n < 1 || c.blockSize < 1 then None
      else
        var g := Geometry(Log2(c.blockSize), Log2(n));
        if Fits20(g) then Some(g) else None
  }

  /** The fields of an address: the numbers its tag, index and offset bits
      spell in the low 20 bits, and the block's base, the address with its
      offset bits cleared. */
  datatype Fields = Fields(tag: nat, index: nat, offset: nat, base: nat)

  function Split(g: Geometry, address: nat): (f: Fields)
    requires Fits20(g)
    ensures f.offset < Pow2(g.offsetBits) && f.index < Pow2(g.indexBits) && f.tag < Pow2(TagBits(g))
    ensures f.base + f.offset == address && f.base % Pow2(g.offsetBits) == 0
  {
    var p, q, t := Pow2(g.offsetBits), Pow2(g.indexBits), Pow2(TagBits(g));
    CutBounds(address, p, q, t);
    Cut(address, p, q, t)
  }

  /** The fields for an offset of `p` values, `q` sets and `t` tags, the
      low bits being those below `p * q * t`. */
  function Cut(address: nat, p: nat, q: nat, t: nat): Fields
    requires p >= 1 && q >= 1 && t >= 1
  {
    var low := address % (p * (q * t));
    var blk := low / p;
    Fields(blk / q, blk % q, low % p, (address / p) * p)
  }

  lemma CutBounds(address: nat, p: nat, q: nat, t: nat)
    requires p >= 1 && q >= 1 && t >= 1
    ensures var f := Cut(address, p, q, t);
      f.offset < p && f.index < q && f.tag < t && f.base + f.offset == address && f.base % p == 0
  {
    var low := address % (p * (q * t));
    LowBits(address, low, p, q * t);
    QuotientBelow(low / p, q, t);
    DivModUnique((address / p) * p, p, address / p, 0);
  }

  lemma AddressWidths(g: Geometry)
    requires Fits20(g)
    ensures Pow2(g.offsetBits) * (Pow2(g.indexBits) * Pow2(TagBits(g))) == Pow2(ADDRESS_BITS)
  {
    Pow2Add(g.indexBits, TagBits(g));
    Pow2Add(g.offsetBits, g.indexBits + TagBits(g));
  }

  /** Cutting the low bits of a number below `p * k` and then below `p`
      leaves its residue modulo `p`; what is above `p` stays below `k`. */
  lemma LowBits(x: nat, m: nat, p: nat, k: nat)
    requires p >= 1 && k >= 1 && m == x % (p * k)
    ensures m % p == x % p && m / p < k
  {
    var Q, U, w := x / (p * k), m / p, m % p;
    assert x == (p * k) * Q + m;
    assert m == p * U + w;
    assert x == p * (k * Q + U) + w by {
      assert (p * k) * Q == p * (k * Q);
    }
    DivModUnique(x, p, k * Q + U, w);
    QuotientBelow(m, p, k);
  }

  /** A number below `d * m` has a quotient by `d` below `m`. */
  lemma QuotientBelow(x: nat, d: nat, m: nat)
    requires d >= 1 && x < d * m
    ensures x / d < m
  {
    if x / d >= m {
      assert (x / d) * d >= m * d by {
        MulGe(x / d - m, d);
      }
    }
  }

  /** The address `stoul` reads from a line's tag, the set index and zero
      offset bits: the first address of the block the line holds. */
  function BlockAddress(g: Geometry, tag: nat, index: nat): nat {
    (tag * Pow2(g.indexBits) + index) * Pow2(g.offsetBits)
  }

  /** The source's alignment check, `address + size > block_size + base`,
      in `unsigned long` arithmetic, passes. */
  predicate Fits(c: Cache, f: Fields, address: nat, size: nat) {
    (address + size) % TWO64 <= (c.blockSize + f.base) % TWO64
  }

  /** Whether a line is valid and holds `tag`. */
  predicate Holds(l: Line, tag: nat) {
    l.valid && l.tag == tag
  }

  /** The first way from `w` on that holds `tag`: the lookup loops. */
  function FindFrom(ways: seq<Line>, tag: nat, w: nat): (r: Option<nat>)
    requires w <= |ways|
    ensures r.Some? ==> w <= r.value < |ways| && Holds(ways[r.value], tag)
    ensures r.Some? ==> forall j :: w <= j < r.value ==> !Holds(ways[j], tag)
    ensures r.None? ==> forall j :: w <= j < |ways| ==> !Holds(ways[j], tag)
    decreases |ways| - w
  {
    if w == |ways| then None
    else if Holds(ways[w], tag) then Some(w)
    else FindFrom(ways, tag, w + 1)
  }

  /** The first invalid way from `w` on. */
  function FirstInvalid(ways: seq<Line>, w: nat): (r: Option<nat>)
    requires w <= |ways|
    ensures r.Some? ==> w <= r.value < |ways| && !ways[r.value].valid
    ensures r.Some? ==> forall j :: w <= j < r.value ==> ways[j].valid
    ensures r.None? ==> forall j :: w <= j < |ways| ==> ways[j].valid
    decreases |ways| - w
  {
    if w == |ways| then None
    else if !ways[w].valid then Some(w)
    else FirstInvalid(ways, w + 1)
  }

  /** The smallest access time from way `w` on, starting from `INT_MAX`. */
  function MinToa(ways: seq<Line>, w: nat): (m: int)
    requires w <= |ways|
    ensures m <= INT_MAX
    ensures forall j :: w <= j < |ways| ==> m <= ways[j].toa
    ensures m == INT_MAX || exists j :: w <= j < |ways| && ways[j].toa == m
    decreases |ways| - w
  {
    if w == |ways| then INT_MAX
    else
      var rest := MinToa(ways, w + 1);
      if ways[w].toa < rest then ways[w].toa else rest
  }

  /** The first way from `w` on whose access time is `t`. */
  function FirstWithToa(ways: seq<Line>, t: int, w: nat): (r: Option<nat>)
    requires w <= |ways|
    ensures r.Some? ==> w <= r.value < |ways| && ways[r.value].toa == t
    ensures r.Some? ==> forall j :: w <= j < r.value ==> ways[j].toa != t
    ensures r.None? ==> forall j :: w <= j < |ways| ==> ways[j].toa != t
    decreases |ways| - w
  {
    if w == |ways| then None
    else if ways[w].toa == t then Some(w)
    else FirstWithToa(ways, t, w + 1)
  }

  /** The replacement decision and what is left of the `rand()` values. */
  datatype Choice = Choice(way: Option<nat>, rands: seq<nat>)

  /** The way a miss replaces: the first invalid way; otherwise for "RANDOM"
      `rand() % associativity`, and for "LRU" and "FIFO" the first way with
      the smallest access time. `None` stands for the source's `-1` (any
      other policy, or no way found) and for a random way past the end of
      the set; either is undefined behaviour once the way is used. The
      values `rand()` returns come from `rands`. */
  function Victim(ways: seq<Line>, policy: string, assoc: int, rands: seq<nat>): (r: Choice)
    requires assoc != 0
    ensures r.way.Some? ==> r.way.value < |ways|
    ensures FirstInvalid(ways, 0).Some? ==> r == Choice(FirstInvalid(ways, 0), rands)
    ensures FirstInvalid(ways, 0).None? && r.way.Some? && (policy == "LRU" || policy == "FIFO") ==>
      && (forall j :: 0 <= j < |ways| ==> ways[r.way.value].toa <= ways[j].toa)
      && (forall j :: 0 <= j < r.way.value ==> ways[j].toa > ways[r.way.value].toa)
    ensures (policy == "LRU" || policy == "FIFO") && |ways| > 0
      && (forall j :: 0 <= j < |ways| ==> ways[j].toa <= INT_MAX)
      ==> r.way.Some?
    ensures policy != "RANDOM" ==> r.rands == rands
  {
    match FirstInvalid(ways, 0)
    case Some(w) => Choice(Some(w), rands)
    case None =>
      if policy == "RANDOM" then
        var x := if |rands| == 0 then 0 else rands[0];
        var w := x % Abs(assoc);
        Choice(if w < |ways| then Some(w) else None, if |rands| == 0 then [] else rands[1..])
      else if policy == "LRU" || policy == "FIFO" then
        MinToaFound(ways);
        Choice(FirstWithToa(ways, MinToa(ways, 0), 0), rands)
      else Choice(None, rands)
  }

  /** In a non-empty set whose access times fit an `int`, some way has the
      smallest access time. */
  lemma MinToaFound(ways: seq<Line>)
    ensures |ways| > 0 && (forall j :: 0 <= j < |ways| ==> ways[j].toa <= INT_MAX) ==>
      FirstWithToa(ways, MinToa(ways, 0), 0).Some?
  {
    if |ways| > 0 && (forall j :: 0 <= j < |ways| ==> ways[j].toa <= INT_MAX) {
      var m := MinToa(ways, 0);
      assert m <= ways[0].toa;
      if m == INT_MAX {
        assert ways[0].toa == m;
      }
    }
  }

  /** Memory after a victim's write-back, and the refilled line. */
  datatype Filled = Filled(mem: Mem, line: Line)

  /** Replacing `victim` by the block at `f.base`: a valid dirty victim's
      bytes are first written back to its own block; the line then takes
      the new block's bytes and tag and becomes valid, with dirty bit
      `dirty`. */
  function Fill(g: Geometry, bs: nat, f: Fields, victim: Line, mem: Mem, dirty: bool): (r: Filled)
    ensures r.line.valid && r.line.tag == f.tag && r.line.dirty == dirty && r.line.toa == victim.toa
    ensures |r.line.data| == bs && forall k :: 0 <= k < bs ==> r.line.data[k] == Read(r.mem, f.base + k)
    ensures victim.valid && victim.dirty ==>
      forall k :: 0 <= k < |victim.data| ==> Read(r.mem, BlockAddress(g, victim.tag, f.index) + k) == victim.data[k]
    ensures forall b: nat {:trigger Read(r.mem, b)} ::
      (!(victim.valid && victim.dirty) || b < BlockAddress(g, victim.tag, f.index)
       || BlockAddress(g, victim.tag, f.index) + |victim.data| <= b) ==> Read(r.mem, b) == Read(mem, b)
  {
    var mem' := if victim.valid && victim.dirty then WriteBlock(mem, BlockAddress(g, victim.tag, f.index), victim.data) else mem;
    Filled(mem', Line(true, dirty, ReadBlock(mem', f.base, bs), f.tag, victim.toa))
  }

  /** The cache, memory, the global access timer, and the `rand()` values
      still to come: the state a cache access reads and changes. */
  datatype CacheState = CacheState(cache: Cache, mem: Mem, timer: int, rands: seq<nat>)

  /** The outcome of a cached load: the unsigned little-endian value read
      (`None` when the destination is `x0`, whose value is never
      extracted), the "Unaligned Memory Access" error, or a crash. */
  datatype LoadResult = Loaded(raw: Option<nat>, st: CacheState) | LoadUnaligned | LoadCrash

  /** The outcome of a cached store. */
  datatype StoreResult = Stored(st: CacheState) | StoreUnaligned | StoreCrash

  /** The set an address maps to exists. */
  lemma IndexInTable(c: Cache, g: Geometry, address: nat)
    requires WellFormed(c) && GeometryOf(c) == Some(g)
    ensures Split(g, address).index < |c.table|
  {
  }

  /** The bytes a load reads from a line: `stoi` of the empty offset string
      throws when a block is one byte, and bytes past the line are
      undefined. */
  function Extract(g: Geometry, f: Fields, line: Line, size: nat, st: CacheState): (r: LoadResult)
    ensures r.Loaded? ==> f.offset + size <= |line.data| && r.st == st
    ensures r.Loaded? ==> r.raw == Some(BytesLE(line.data, f.offset, size))
    ensures r.LoadCrash? <==> g.offsetBits == 0 || f.offset + size > |line.data|
  {
    if g.offsetBits == 0 || f.offset + size > |line.data| then LoadCrash
    else Loaded(Some(BytesLE(line.data, f.offset, size)), st)
  }

  /** Whether the replacement policy stamps a line's access time on a
      refill, and on a hit. */
  predicate StampsRefill(c: Cache) {
    c.replPolicy == "FIFO" || c.replPolicy == "LRU"
  }

  predicate StampsHit(c: Cache) {
    c.replPolicy == "LRU"
  }

  /** A line whose access time is restamped from the global timer when
      `stamp` holds; the new timer value. */
  function Stamp(l: Line, timer: int, stamp: bool): (r: (Line, int))
    ensures stamp ==> r.1 == timer + 1 && r.0 == l.(toa := timer + 1)
    ensures !stamp ==> r == (l, timer)
  {
    if stamp then (l.(toa := timer + 1), timer + 1) else (l, timer)
  }

  /** `c'` counts one more hit than `c` when `hit`, one more miss otherwise. */
  predicate Counted(c: Cache, c': Cache, hit: bool) {
    if hit then c'.hits == c.hits + 1 && c'.misses == c.misses
    else c'.misses == c.misses + 1 && c'.hits == c.hits
  }

  /** Whether the access to `address` finds its block in the cache. */
  predicate Hits(c: Cache, g: Geometry, address: nat)
    requires WellFormed(c) && GeometryOf(c) == Some(g)
  {
    IndexInTable(c, g, address);
    FindFrom(c.table[Split(g, address).index], Split(g, address).tag, 0).Some?
  }

  /** The timer after an access: one tick for a hit under "LRU", and for a
      refill under "FIFO" or "LRU". */
  function Ticked(c: Cache, timer: int, hit: bool, refill: bool): int {
    if (hit && StampsHit(c)) || (!hit && refill && StampsRefill(c)) then timer + 1 else timer
  }

  /** A load of `size` bytes at `address` through the cache (the load path
      of `convert` with the cache enabled). `extract` is false when the
      destination is `x0`: the value is then never read out of the line.
      A load that succeeds counts a hit or a miss as the lookup finds the
      block or not, ticks the timer as the policy stamps, and changes memory
      only by a miss's write-back. */
  function CacheLoad(st: CacheState, address: nat, size: nat, extract: bool): (r: LoadResult)
    requires WellFormed(st.cache) && 1 <= size <= 8
    ensures r.Loaded? ==> WellFormed(r.st.cache)
    ensures r.Loaded? && r.raw.Some? ==> r.raw.value < Pow2(8 * size)
    ensures r.Loaded? ==>
      && GeometryOf(st.cache).Some?
      && var hit := Hits(st.cache, GeometryOf(st.cache).value, address);
      && Counted(st.cache, r.st.cache, hit)
      && r.st.timer == Ticked(st.cache, st.timer, hit, true)
      && (hit ==> r.st.mem == st.mem)
  {
    var c := st.cache;
    match GeometryOf(c)
    case None => LoadCrash
    case Some(g) =>
      var f := Split(g, address);
      if !Fits(c, f, address, size) then LoadUnaligned
      else
        IndexInTable(c, g, address);
        match FindFrom(c.table[f.index], f.tag, 0)
        case Some(w) => LoadHit(st, g, f, w, size, extract)
        case None => LoadMiss(st, g, f, size, extract, true)
  }

  /** A load that finds its block in way `w`; under "LRU" the line's access
      time is restamped. */
  function LoadHit(st: CacheState, g: Geometry, f: Fields, w: nat, size: nat, extract: bool): (r: LoadResult)
    requires f.index < |st.cache.table| && w < |st.cache.table[f.index]|
  {
    var c := st.cache;
    var ways := c.table[f.index];
    var (line, timer) := Stamp(ways[w], st.timer, StampsHit(c));
    var st' := CacheState(c.(hits := c.hits + 1, table := c.table[f.index := ways[w := line]]), st.mem, timer, st.rands);
    if extract then Extract(g, f, line, size, st') else Loaded(None, st')
  }

  /** A load whose block is not cached: the victim is written back if
      dirty, refilled with the block, stamped under "FIFO" and "LRU", and
      the value read from the line that now holds the tag. The refill sets
      tag, data and valid bit but never the dirty bit: with `keepDirty`, as
      `CacheLoad` passes it, the line keeps the victim's dirty bit; without,
      it is cleared as a copy of memory should be. */
  function LoadMiss(st: CacheState, g: Geometry, f: Fields, size: nat, extract: bool, keepDirty: bool): (r: LoadResult)
    requires WellFormed(st.cache) && f.index < |st.cache.table|
  {
    var c := st.cache;
    var choice := Victim(c.table[f.index], c.replPolicy, c.assoc, st.rands);
    match choice.way
    case None => LoadCrash
    case Some(v) =>
      var st' := Refill(st, g, f, v, keepDirty && c.table[f.index][v].dirty, choice.rands);
      var ways' := st'.cache.table[f.index];
      match FindFrom(ways', f.tag, 0)
      case None => Loaded(None, st')
      case Some(w) => if extract then Extract(g, f, ways'[w], size, st') else Loaded(None, st')
  }

  /** A miss's replacement of way `v` of the set by the block of `f`: the
      miss is counted, the victim written back if dirty, the line refilled
      with dirty bit `dirty` and stamped under "FIFO" and "LRU". */
  function Refill(st: CacheState, g: Geometry, f: Fields, v: nat, dirty: bool, rands: seq<nat>): (r: CacheState)
    requires WellFormed(st.cache) && f.index < |st.cache.table| && v < |st.cache.table[f.index]|
    ensures WellFormed(r.cache) && |r.cache.table| == |st.cache.table| && |r.cache.table[f.index]| == |st.cache.table[f.index]|
    ensures r.cache.misses == st.cache.misses + 1 && r.cache.hits == st.cache.hits
  {
    var c := st.cache;
    var ways := c.table[f.index];
    assert |ways[v].data| == c.blockSize;
    var filled := Fill(g, c.blockSize, f, ways[v], st.mem, dirty);
    var (line, timer) := Stamp(filled.line, st.timer, StampsRefill(c));
    CacheState(c.(misses := c.misses + 1, table := c.table[f.index := ways[v := line]]), filled.mem, timer, rands)
  }

  /** The loop that writes a store's bytes into every line of the set that
      holds the tag. */
  function WriteMatching(ways: seq<Line>, tag: nat, off: nat, value: nat, size: nat): (r: seq<Line>)
    requires forall j :: 0 <= j < |ways| && Holds(ways[j], tag) ==> off + size <= |ways[j].data|
    ensures |r| == |ways|
    ensures forall j :: 0 <= j < |ways| && !Holds(ways[j], tag) ==> r[j] == ways[j]
    ensures forall j :: 0 <= j < |ways| && Holds(ways[j], tag) ==>
      r[j] == ways[j].(data := StoreBytes(ways[j].data, off, value, size))
  {
    seq(|ways|, j requires 0 <= j < |ways| =>
      if Holds(ways[j], tag) then ways[j].(data := StoreBytes(ways[j].data, off, value, size)) else ways[j])
  }

  /** A store of the low `size` bytes of `value` at `address` through the
      cache (the store path of `convert` with the cache enabled). A store
      that succeeds counts a hit or a miss as the lookup finds the block or
      not. A hit under "WB" leaves memory alone; a miss under "WT" writes
      memory and leaves every line as it was; only a "WB" miss refills. */
  function CacheStore(st: CacheState, address: nat, size: nat, value: nat): (r: StoreResult)
    requires WellFormed(st.cache) && 1 <= size <= 8
    ensures r.Stored? ==> WellFormed(r.st.cache)
    ensures r.Stored? ==>
      && GeometryOf(st.cache).Some?
      && var hit := Hits(st.cache, GeometryOf(st.cache).value, address);
      && Counted(st.cache, r.st.cache, hit)
      && r.st.timer == Ticked(st.cache, st.timer, hit, st.cache.writePolicy == "WB")
      && (hit && st.cache.writePolicy == "WB" ==> r.st.mem == st.mem)
      && (!hit && st.cache.writePolicy == "WT" ==>
            r.st.cache.table == st.cache.table && r.st.mem == StoreLE(st.mem, address, value, size))
  {
    var c := st.cache;
    match GeometryOf(c)
    case None => StoreCrash
    case Some(g) =>
      var f := Split(g, address);
      if !Fits(c, f, address, size) then StoreUnaligned
      else
        IndexInTable(c, g, address);
        match FindFrom(c.table[f.index], f.tag, 0)
        case Some(w) => StoreHit(st, g, f, w, address, size, value)
        case None => StoreMiss(st, g, f, address, size, value)
  }

  /** A store that finds its block in way `w`: under "WT" memory is written
      too, under "WB" the line becomes dirty. */
  function StoreHit(st: CacheState, g: Geometry, f: Fields, w: nat, address: nat, size: nat, value: nat): (r: StoreResult)
    requires WellFormed(st.cache) && f.index < |st.cache.table| && w < |st.cache.table[f.index]|
  {
    var c := st.cache;
    var ways := c.table[f.index];
    var mem := if c.writePolicy == "WT" then StoreLE(st.mem, address, value, size) else st.mem;
    var (line, timer) := Stamp(ways[w], st.timer, StampsHit(c));
    if g.offsetBits == 0 || f.offset + size > |line.data| then StoreCrash
    else
      var written := line.(data := StoreBytes(line.data, f.offset, value, size));
      var line' := if c.writePolicy == "WB" then written.(dirty := true) else written;
      Stored(CacheState(c.(hits := c.hits + 1, table := c.table[f.index := ways[w := line']]), mem, timer, st.rands))
  }

  /** A store whose block is not cached: under "WB" the block is allocated
      and written in the cache, under "WT" memory alone is written. The
      victim is chosen, and `rand()` called, whatever the policy. */
  function StoreMiss(st: CacheState, g: Geometry, f: Fields, address: nat, size: nat, value: nat): (r: StoreResult)
    requires WellFormed(st.cache) && f.index < |st.cache.table|
  {
    var c := st.cache;
    var ways := c.table[f.index];
    var choice := Victim(ways, c.replPolicy, c.assoc, st.rands);
    if c.writePolicy == "WB" then
      match choice.way
      case None => StoreCrash
      case Some(v) =>
        var st1 := Refill(st, g, f, v, true, choice.rands);
        if g.offsetBits == 0 || f.offset + size > c.blockSize then StoreCrash
        else
          var ways' := st1.cache.table[f.index];
          var ways'' := WriteMatching(ways', f.tag, f.offset, value, size);
          Stored(st1.(cache := st1.cache.(table := st1.cache.table[f.index := ways''])))
    else
      var c1 := c.(misses := c.misses + 1);
      if c.writePolicy == "WT" then
        Stored(CacheState(c1, StoreLE(st.mem, address, value, size), st.timer, choice.rands))
      else
        Stored(CacheState(c1, st.mem, st.timer, choice.rands))
  }
}
