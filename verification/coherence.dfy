/** Transparency of the data cache: with a block size that is a power of
    two and either write policy, every load through the cache returns what
    a load from the memory the program sees would return, and every store
    changes that memory exactly as an uncached store would. The memory the
    program sees is the cache's view: a byte of a block held by a valid
    line is that line's byte, any other byte is main memory's. */
module Coherence {
  import opened Arith
  import opened Wrappers
  import opened Memory
  import opened CacheSim
  import opened CacheAccess

  /** An address below 2^20 lies in the block its tag and index fields
      name. */
  lemma Recombine(g: Geometry, a: nat)
    requires Fits20(g) && a < TWO20
    ensures Split(g, a).base == BlockAddress(g, Split(g, a).tag, Split(g, a).index)
  {
    var p, q, t := Pow2(g.offsetBits), Pow2(g.indexBits), Pow2(TagBits(g));
    AddressWidths(g);
    Pow2Address();
    CutRecombine(a, p, q, t);
  }

  lemma CutRecombine(a: nat, p: nat, q: nat, t: nat)
    requires p >= 1 && q >= 1 && t >= 1 && a < p * (q * t)
    ensures var f := Cut(a, p, q, t); f.base == (f.tag * q + f.index) * p
  {
    DivModUnique(a, p * (q * t), 0, a);
    var blk := a / p;
    assert blk == q * (blk / q) + blk % q;
  }

  /** The address `k` bytes into the block of tag `t` and set `s` splits
      back into `t`, `s` and `k`. */
  lemma Decompose(g: Geometry, t: nat, s: nat, k: nat)
    requires Fits20(g)
    requires t < Pow2(TagBits(g)) && s < Pow2(g.indexBits) && k < Pow2(g.offsetBits)
    ensures BlockAddress(g, t, s) + k < TWO20
    ensures Split(g, BlockAddress(g, t, s) + k) == Fields(t, s, k, BlockAddress(g, t, s))
  {
    var p, q, T := Pow2(g.offsetBits), Pow2(g.indexBits), Pow2(TagBits(g));
    AddressWidths(g);
    Pow2Address();
    CutDecompose(p, q, T, t, s, k);
  }

  lemma CutDecompose(p: nat, q: nat, T: nat, t: nat, s: nat, k: nat)
    requires t < T && s < q && k < p
    ensures (t * q + s) * p + k < p * (q * T)
    ensures Cut((t * q + s) * p + k, p, q, T) == Fields(t, s, k, (t * q + s) * p)
  {
    var blk := t * q + s;
    var a := blk * p + k;
    BlockBelow(t, s, q, T);
    BlockBelow(blk, k, p, q * T);
    assert a < p * (q * T) by {
      assert blk * p + k < (q * T) * p;
    }
    DivModUnique(a, p * (q * T), 0, a);
    DivModUnique(a, p, blk, k);
    DivModUnique(blk, q, t, s);
  }

  /** Digit `x` below `m` and digit `y` below `d` make a number below
      `m * d`. */
  lemma BlockBelow(x: nat, y: nat, d: nat, m: nat)
    requires x < m && y < d
    ensures x * d + y < m * d
  {
    MulGe(m - 1 - x, d);
    assert (m - 1 - x) * d == m * d - d - x * d;
  }

  /** Addresses in the blocks of two different (tag, set) pairs differ. */
  lemma BlocksDisjoint(g: Geometry, t1: nat, s1: nat, k1: nat, t2: nat, s2: nat, k2: nat)
    requires Fits20(g)
    requires t1 < Pow2(TagBits(g)) && s1 < Pow2(g.indexBits) && k1 < Pow2(g.offsetBits)
    requires t2 < Pow2(TagBits(g)) && s2 < Pow2(g.indexBits) && k2 < Pow2(g.offsetBits)
    requires BlockAddress(g, t1, s1) + k1 == BlockAddress(g, t2, s2) + k2
    ensures t1 == t2 && s1 == s2 && k1 == k2
  {
    Decompose(g, t1, s1, k1);
    Decompose(g, t2, s2, k2);
  }

  /** The setting of the transparency theorems: a well-formed cache whose
      block size is a power of two and whose write policy is "WB" or
      "WT". */
  ghost predicate Regular(c: Cache, g: Geometry) {
    && WellFormed(c) && GeometryOf(c) == Some(g)
    && c.blockSize == Pow2(g.offsetBits)
    && (c.writePolicy == "WB" || c.writePolicy == "WT")
  }

  /** The byte at address `b` as the program sees it: the byte of the valid
      line holding `b`'s block, or main memory's byte. */
  ghost function ViewByte(st: CacheState, g: Geometry, b: nat): byte
    requires WellFormed(st.cache) && GeometryOf(st.cache) == Some(g)
  {
    var f := Split(g, b);
    IndexInTable(st.cache, g, b);
    var ways := st.cache.table[f.index];
    match FindFrom(ways, f.tag, 0)
    case Some(w) => if f.offset < |ways[w].data| then ways[w].data[f.offset] else Read(st.mem, b)
    case None => Read(st.mem, b)
  }

  /** The memory the program sees through the cache, over the addresses the
      cache can tell apart. */
  ghost function View(st: CacheState, g: Geometry): Mem
    requires WellFormed(st.cache) && GeometryOf(st.cache) == Some(g)
  {
    map b: nat | b < TWO20 :: ViewByte(st, g, b)
  }

  lemma ReadView(st: CacheState, g: Geometry, b: nat)
    requires WellFormed(st.cache) && GeometryOf(st.cache) == Some(g)
    ensures Read(View(st, g), b) == if b < TWO20 then ViewByte(st, g, b) else 0
  {
  }

  /** A line has a block of `2^offsetBits` bytes and, if valid, a set
      number and tag that fit their fields. */
  ghost predicate LinePlaced(l: Line, s: nat, g: Geometry)
    requires Fits20(g)
  {
    |l.data| == Pow2(g.offsetBits) && (l.valid ==> s < Pow2(g.indexBits) && l.tag < Pow2(TagBits(g)))
  }

  ghost predicate SetPlaced(ways: seq<Line>, s: nat, g: Geometry)
    requires Fits20(g)
  {
    forall w :: 0 <= w < |ways| ==> LinePlaced(ways[w], s, g)
  }

  /** No two valid lines of a set hold the same block. */
  ghost predicate SetDistinct(ways: seq<Line>) {
    forall w1, w2 ::
      (0 <= w1 < |ways| && 0 <= w2 < |ways| && ways[w1].valid && ways[w2].valid && ways[w1].tag == ways[w2].tag) ==> w1 == w2
  }

  /** A clean valid line of set `s` holds memory's bytes of its block. */
  ghost predicate LineClean(l: Line, s: nat, mem: Mem, g: Geometry) {
    l.valid && !l.dirty ==> forall k :: 0 <= k < |l.data| ==> l.data[k] == Read(mem, BlockAddress(g, l.tag, s) + k)
  }

  ghost predicate SetClean(ways: seq<Line>, s: nat, mem: Mem, g: Geometry) {
    forall w :: 0 <= w < |ways| ==> LineClean(ways[w], s, mem, g)
  }

  ghost predicate SetCoherent(ways: seq<Line>, s: nat, mem: Mem, g: Geometry)
    requires Fits20(g)
  {
    SetPlaced(ways, s, g) && SetDistinct(ways) && SetClean(ways, s, mem, g)
  }

  /** The invariant every access keeps. */
  ghost predicate Coherent(st: CacheState, g: Geometry) {
    && Regular(st.cache, g)
    && forall s :: 0 <= s < |st.cache.table| ==> SetCoherent(st.cache.table[s], s, st.mem, g)
  }

  /** The lookup sees only which lines are valid and hold the tag. */
  lemma {:induction false} FindFromSame(ways: seq<Line>, ways': seq<Line>, t: nat, w: nat)
    requires |ways| == |ways'| && w <= |ways|
    requires forall j :: 0 <= j < |ways| ==> Holds(ways[j], t) == Holds(ways'[j], t)
    ensures FindFrom(ways, t, w) == FindFrom(ways', t, w)
    decreases |ways| - w
  {
    if w < |ways| {
      FindFromSame(ways, ways', t, w + 1);
    }
  }

  /** Two caches that differ at most in their counters and their table. */
  predicate SameConfig(c: Cache, c': Cache) {
    && c'.cacheSize == c.cacheSize && c'.blockSize == c.blockSize && c'.assoc == c.assoc
    && c'.writePolicy == c.writePolicy && c'.replPolicy == c.replPolicy
  }

  /** Replacing set `s` by a set of the same shape keeps a cache regular. */
  lemma UpdateRegular(c: Cache, c': Cache, g: Geometry, s: nat, ways': seq<Line>)
    requires Regular(c, g) && SameConfig(c, c') && s < |c.table|
    requires c'.table == c.table[s := ways'] && |ways'| == |c.table[s]|
    requires forall w :: 0 <= w < |ways'| ==> |ways'[w].data| == c.blockSize
    ensures Regular(c', g)
  {
  }

  /** A set whose lines only got new access times. */
  ghost predicate Restamped(ways: seq<Line>, ways': seq<Line>) {
    |ways'| == |ways| && forall j :: 0 <= j < |ways| ==> ways'[j] == ways[j].(toa := ways'[j].toa)
  }

  lemma RestampedCoherent(ways: seq<Line>, ways': seq<Line>, s: nat, mem: Mem, g: Geometry)
    requires Fits20(g) && Restamped(ways, ways') && SetCoherent(ways, s, mem, g)
    ensures SetCoherent(ways', s, mem, g)
    ensures forall t: nat :: FindFrom(ways', t, 0) == FindFrom(ways, t, 0)
  {
    forall t: nat
      ensures FindFrom(ways', t, 0) == FindFrom(ways, t, 0)
    {
      FindFromSame(ways, ways', t, 0);
    }
  }

  /** Byte `k` of the line a set holds under tag `t` is the view's byte
      `k` of that block. */
  lemma LineView(st: CacheState, g: Geometry, t: nat, s: nat, w: nat, k: nat)
    requires WellFormed(st.cache) && GeometryOf(st.cache) == Some(g)
    requires t < Pow2(TagBits(g)) && s < Pow2(g.indexBits) && s < |st.cache.table|
    requires FindFrom(st.cache.table[s], t, 0) == Some(w) && k < |st.cache.table[s][w].data| && k < Pow2(g.offsetBits)
    ensures st.cache.table[s][w].data[k] == Read(View(st, g), BlockAddress(g, t, s) + k)
  {
    Decompose(g, t, s, k);
    ReadView(st, g, BlockAddress(g, t, s) + k);
  }

  /** The line a set holds under tag `t` is the view of its block. */
  lemma BlockView(st: CacheState, g: Geometry, t: nat, s: nat, w: nat)
    requires Coherent(st, g)
    requires t < Pow2(TagBits(g)) && s < Pow2(g.indexBits) && s < |st.cache.table|
    requires FindFrom(st.cache.table[s], t, 0) == Some(w)
    ensures forall k :: 0 <= k < |st.cache.table[s][w].data| ==>
      st.cache.table[s][w].data[k] == Read(View(st, g), BlockAddress(g, t, s) + k)
  {
    var data := st.cache.table[s][w].data;
    assert |data| == Pow2(g.offsetBits);
    forall k | 0 <= k < |data|
      ensures data[k] == Read(View(st, g), BlockAddress(g, t, s) + k)
    {
      LineView(st, g, t, s, w, k);
    }
  }

  /** Byte `k` of a block no line holds is memory's byte. */
  lemma UncachedView(st: CacheState, g: Geometry, t: nat, s: nat, k: nat)
    requires WellFormed(st.cache) && GeometryOf(st.cache) == Some(g)
    requires t < Pow2(TagBits(g)) && s < Pow2(g.indexBits) && s < |st.cache.table|
    requires FindFrom(st.cache.table[s], t, 0).None? && k < Pow2(g.offsetBits)
    ensures Read(View(st, g), BlockAddress(g, t, s) + k) == Read(st.mem, BlockAddress(g, t, s) + k)
  {
    Decompose(g, t, s, k);
    ReadView(st, g, BlockAddress(g, t, s) + k);
  }

  /** A table that differs from another only by new access times in set
      `s`, over the same memory, gives the same view. */
  lemma RestampedView(st: CacheState, st': CacheState, g: Geometry, s: nat)
    requires WellFormed(st.cache) && GeometryOf(st.cache) == Some(g)
    requires WellFormed(st'.cache) && GeometryOf(st'.cache) == Some(g)
    requires st'.mem == st.mem && s < |st.cache.table| && |st'.cache.table| == |st.cache.table|
    requires st'.cache.table == st.cache.table[s := st'.cache.table[s]]
    requires Restamped(st.cache.table[s], st'.cache.table[s])
    ensures forall b :: Read(View(st', g), b) == Read(View(st, g), b)
  {
    forall b: nat
      ensures Read(View(st', g), b) == Read(View(st, g), b)
    {
      ReadView(st, g, b);
      ReadView(st', g, b);
      if b < TWO20 {
        var fb := Split(g, b);
        if fb.index == s {
          FindFromSame(st.cache.table[s], st'.cache.table[s], fb.tag, 0);
        }
      }
    }
  }

  /** The state after a load hit: the hit counted and the line's access
      time possibly renewed. */
  lemma LoadHitState(st: CacheState, g: Geometry, f: Fields, w: nat, size: nat, extract: bool)
    requires Coherent(st, g) && f.index < |st.cache.table| && w < |st.cache.table[f.index]|
    requires LoadHit(st, g, f, w, size, extract).Loaded?
    ensures var st' := LoadHit(st, g, f, w, size, extract).st;
      && st'.mem == st.mem && SameConfig(st.cache, st'.cache)
      && st'.cache.table == st.cache.table[f.index := st'.cache.table[f.index]]
      && Restamped(st.cache.table[f.index], st'.cache.table[f.index])
  {
  }

  /** A load hit keeps the invariant and the view. */
  lemma LoadHitKeeps(st: CacheState, g: Geometry, f: Fields, w: nat, size: nat, extract: bool)
    requires Coherent(st, g) && f.index < |st.cache.table| && w < |st.cache.table[f.index]|
    requires LoadHit(st, g, f, w, size, extract).Loaded?
    ensures var st' := LoadHit(st, g, f, w, size, extract).st;
      && Coherent(st', g)
      && forall b :: Read(View(st', g), b) == Read(View(st, g), b)
  {
    var st' := LoadHit(st, g, f, w, size, extract).st;
    LoadHitState(st, g, f, w, size, extract);
    var ways, ways' := st.cache.table[f.index], st'.cache.table[f.index];
    UpdateRegular(st.cache, st'.cache, g, f.index, ways');
    RestampedCoherent(ways, ways', f.index, st.mem, g);
    RestampedView(st, st', g, f.index);
  }

  /** A load hit returns the little-endian value of the view's bytes. */
  lemma LoadHitValue(st: CacheState, g: Geometry, address: nat, w: nat, size: nat, extract: bool)
    requires Coherent(st, g) && address < TWO20
    requires Split(g, address).index < |st.cache.table|
    requires FindFrom(st.cache.table[Split(g, address).index], Split(g, address).tag, 0) == Some(w)
    requires LoadHit(st, g, Split(g, address), w, size, extract).Loaded?
    ensures var r := LoadHit(st, g, Split(g, address), w, size, extract);
      r.raw.Some? ==> r.raw.value == LoadLE(View(st, g), address, size)
  {
    var f := Split(g, address);
    var r := LoadHit(st, g, f, w, size, extract);
    var data := st.cache.table[f.index][w].data;
    if r.raw.Some? {
      assert r.raw.value == BytesLE(data, f.offset, size) && f.offset + size <= |data|;
      ReadFromLine(st, g, address, w, size);
    }
  }

  /** Whether address `b` lies outside the block of tag `t` and set `s`. */
  predicate Outside(g: Geometry, b: nat, t: nat, s: nat) {
    b < BlockAddress(g, t, s) || BlockAddress(g, t, s) + Pow2(g.offsetBits) <= b
  }

  /** An address inside a block splits into that block's tag and set. */
  lemma InBlock(g: Geometry, b: nat, t: nat, s: nat)
    requires Fits20(g) && t < Pow2(TagBits(g)) && s < Pow2(g.indexBits) && !Outside(g, b, t, s)
    ensures b < TWO20 && Split(g, b).tag == t && Split(g, b).index == s
  {
    Decompose(g, t, s, b - BlockAddress(g, t, s));
  }

  /** The bytes of one block lie outside every other block. */
  lemma BlocksOutside(g: Geometry, t1: nat, s1: nat, k: nat, t2: nat, s2: nat)
    requires Fits20(g) && t1 < Pow2(TagBits(g)) && s1 < Pow2(g.indexBits) && k < Pow2(g.offsetBits)
    requires t2 < Pow2(TagBits(g)) && s2 < Pow2(g.indexBits) && (t1 != t2 || s1 != s2)
    ensures Outside(g, BlockAddress(g, t1, s1) + k, t2, s2)
  {
    if !Outside(g, BlockAddress(g, t1, s1) + k, t2, s2) {
      InBlock(g, BlockAddress(g, t1, s1) + k, t2, s2);
      Decompose(g, t1, s1, k);
    }
  }

  /** Memory that changed at most inside the block of tag `t` and set `s`,
      and only if `active`. */
  ghost predicate ChangedOnly(mem: Mem, mem': Mem, g: Geometry, active: bool, t: nat, s: nat) {
    forall b: nat {:trigger Read(mem', b)} :: (!active || Outside(g, b, t, s)) ==> Read(mem', b) == Read(mem, b)
  }

  /** A clean line stays true to memory when memory changes only in a block
      it does not hold. */
  lemma LineCleanFrame(l: Line, s: nat, mem: Mem, mem': Mem, g: Geometry, active: bool, t: nat, s0: nat)
    requires Fits20(g) && LinePlaced(l, s, g) && LineClean(l, s, mem, g)
    requires ChangedOnly(mem, mem', g, active, t, s0)
    requires active ==> t < Pow2(TagBits(g)) && s0 < Pow2(g.indexBits)
    requires active && l.valid && !l.dirty ==> l.tag != t || s != s0
    ensures LineClean(l, s, mem', g)
  {
    if l.valid && !l.dirty && active {
      forall k | 0 <= k < |l.data|
        ensures l.data[k] == Read(mem', BlockAddress(g, l.tag, s) + k)
      {
        BlocksOutside(g, l.tag, s, k, t, s0);
      }
    }
  }

  lemma SetCleanFrame(ways: seq<Line>, s: nat, mem: Mem, mem': Mem, g: Geometry, active: bool, t: nat, s0: nat)
    requires Fits20(g) && SetPlaced(ways, s, g) && SetClean(ways, s, mem, g)
    requires ChangedOnly(mem, mem', g, active, t, s0)
    requires active ==> t < Pow2(TagBits(g)) && s0 < Pow2(g.indexBits)
    requires active ==> forall w :: 0 <= w < |ways| && ways[w].valid && !ways[w].dirty ==> ways[w].tag != t || s != s0
    ensures SetClean(ways, s, mem', g)
  {
    forall w | 0 <= w < |ways|
      ensures LineClean(ways[w], s, mem', g)
    {
      LineCleanFrame(ways[w], s, mem, mem', g, active, t, s0);
    }
  }

  /** After a miss on `t`, the set with way `v` replaced by a line holding
      `t` finds `t` in way `v`. */
  lemma RefillFound(ways: seq<Line>, v: nat, l: Line, t: nat)
    requires v < |ways| && FindFrom(ways, t, 0).None? && Holds(l, t)
    ensures FindFrom(ways[v := l], t, 0) == Some(v)
  {
    assert Holds(ways[v := l][v], t);
    assert forall j :: 0 <= j < |ways| && j != v ==> ways[v := l][j] == ways[j];
  }

  /** In a set without repeated tags, a valid line's tag is found at that
      line. */
  lemma FoundAt(ways: seq<Line>, w: nat)
    requires w < |ways| && ways[w].valid && SetDistinct(ways)
    ensures FindFrom(ways, ways[w].tag, 0) == Some(w)
  {
    var r := FindFrom(ways, ways[w].tag, 0);
    assert Holds(ways[w], ways[w].tag);
  }

  /** Replacing the one line holding a tag by a line that does not hold it
      leaves no line holding it. */
  lemma EvictedGone(ways: seq<Line>, v: nat, l: Line)
    requires v < |ways| && ways[v].valid && SetDistinct(ways) && !Holds(l, ways[v].tag)
    ensures FindFrom(ways[v := l], ways[v].tag, 0).None?
  {
  }

  /** A tag held by neither the old nor the new line of way `v` is found
      where it was. */
  lemma OtherTags(ways: seq<Line>, v: nat, l: Line, t: nat)
    requires v < |ways| && !Holds(ways[v], t) && !Holds(l, t)
    ensures FindFrom(ways[v := l], t, 0) == FindFrom(ways, t, 0)
  {
    FindFromSame(ways, ways[v := l], t, 0);
  }

  /** What a refill of way `v` of set `f.index` with the block of `f`
      leaves: the set with one line replaced by a valid line holding the
      block's bytes as memory now has them, and memory changed at most in
      the block of a dirty victim, which now holds the victim's bytes. */
  ghost predicate Refilled(st: CacheState, st': CacheState, g: Geometry, f: Fields, v: nat) {
    && Coherent(st, g) && Regular(st'.cache, g)
    && f.tag < Pow2(TagBits(g)) && f.index < Pow2(g.indexBits) && f.base == BlockAddress(g, f.tag, f.index)
    && f.index < |st.cache.table| && v < |st.cache.table[f.index]|
    && FindFrom(st.cache.table[f.index], f.tag, 0).None?
    && |st'.cache.table| == |st.cache.table| && |st'.cache.table[f.index]| == |st.cache.table[f.index]|
    && st'.cache.table == st.cache.table[f.index := st.cache.table[f.index][v := st'.cache.table[f.index][v]]]
    && var victim, line := st.cache.table[f.index][v], st'.cache.table[f.index][v];
    && line.valid && line.tag == f.tag && |line.data| == Pow2(g.offsetBits)
    && (forall k :: 0 <= k < |line.data| ==> line.data[k] == Read(st'.mem, f.base + k))
    && ChangedOnly(st.mem, st'.mem, g, victim.valid && victim.dirty, victim.tag, f.index)
    && (victim.valid && victim.dirty ==>
          forall k :: 0 <= k < |victim.data| ==> Read(st'.mem, BlockAddress(g, victim.tag, f.index) + k) == victim.data[k])
  }

  /** A refill keeps the invariant. */
  lemma RefillKeeps(st: CacheState, st': CacheState, g: Geometry, f: Fields, v: nat)
    requires Refilled(st, st', g, f, v)
    ensures Coherent(st', g)
  {
    forall s | 0 <= s < |st'.cache.table|
      ensures SetCoherent(st'.cache.table[s], s, st'.mem, g)
    {
      RefillKeepsSet(st, st', g, f, v, s);
    }
  }

  lemma RefillKeepsSet(st: CacheState, st': CacheState, g: Geometry, f: Fields, v: nat, s: nat)
    requires Refilled(st, st', g, f, v) && s < |st.cache.table|
    ensures SetCoherent(st'.cache.table[s], s, st'.mem, g)
  {
    var victim := st.cache.table[f.index][v];
    var active := victim.valid && victim.dirty;
    assert active ==> victim.tag < Pow2(TagBits(g));
    var lines := st.cache.table[s];
    assert SetCoherent(lines, s, st.mem, g);
    if s != f.index {
      SetCleanFrame(lines, s, st.mem, st'.mem, g, active, victim.tag, f.index);
    } else {
      RefilledSet(lines, st'.cache.table[s], s, v, f.tag, st.mem, st'.mem, g);
    }
  }

  /** What a refill does to set `s`: way `v` replaced by a valid line
      holding block `t` as memory now has it, memory changed at most in the
      block of a dirty victim, and `t` not held before. */
  ghost predicate SetRefill(ways: seq<Line>, ways': seq<Line>, s: nat, v: nat, t: nat, mem: Mem, mem': Mem, g: Geometry)
    requires Fits20(g)
  {
    && v < |ways| && |ways'| == |ways| && ways' == ways[v := ways'[v]]
    && t < Pow2(TagBits(g)) && s < Pow2(g.indexBits) && FindFrom(ways, t, 0).None?
    && ways'[v].valid && ways'[v].tag == t && |ways'[v].data| == Pow2(g.offsetBits)
    && (forall k :: 0 <= k < |ways'[v].data| ==> ways'[v].data[k] == Read(mem', BlockAddress(g, t, s) + k))
    && ChangedOnly(mem, mem', g, ways[v].valid && ways[v].dirty, ways[v].tag, s)
  }

  /** The refilled set itself stays coherent. */
  lemma RefilledSet(ways: seq<Line>, ways': seq<Line>, s: nat, v: nat, t: nat, mem: Mem, mem': Mem, g: Geometry)
    requires Fits20(g) && SetCoherent(ways, s, mem, g) && SetRefill(ways, ways', s, v, t, mem, mem', g)
    ensures SetCoherent(ways', s, mem', g)
  {
    assert forall w :: 0 <= w < |ways| && w != v ==> !Holds(ways[w], t);
    RefilledSetClean(ways, ways', s, v, t, mem, mem', g);
  }

  lemma RefilledSetClean(ways: seq<Line>, ways': seq<Line>, s: nat, v: nat, t: nat, mem: Mem, mem': Mem, g: Geometry)
    requires Fits20(g) && SetCoherent(ways, s, mem, g) && SetRefill(ways, ways', s, v, t, mem, mem', g)
    ensures SetClean(ways', s, mem', g)
  {
    var victim := ways[v];
    var active := victim.valid && victim.dirty;
    forall w | 0 <= w < |ways'|
      ensures LineClean(ways'[w], s, mem', g)
    {
      if w != v {
        assert ways'[w] == ways[w] && LinePlaced(ways[w], s, g) && LineClean(ways[w], s, mem, g);
        assert active && ways[w].valid ==> ways[w].tag != victim.tag;
        LineCleanFrame(ways[w], s, mem, mem', g, active, victim.tag, s);
      }
    }
  }

  /** A refill keeps the view: the victim's bytes are back in memory or
      were there already, and the new line holds what memory holds. */
  lemma RefillViewByte(st: CacheState, st': CacheState, g: Geometry, f: Fields, v: nat, b: nat)
    requires Refilled(st, st', g, f, v) && b < TWO20
    ensures ViewByte(st', g, b) == ViewByte(st, g, b)
  {
    var victim := st.cache.table[f.index][v];
    var fb := Split(g, b);
    if fb.index != f.index {
      RefillOtherSet(st, st', g, f, v, b);
    } else if fb.tag == f.tag {
      RefillNewBlock(st, st', g, f, v, b);
    } else if victim.valid && fb.tag == victim.tag {
      RefillVictimBlock(st, st', g, f, v, b);
    } else {
      RefillOtherBlock(st, st', g, f, v, b);
    }
  }

  /** Memory keeps the bytes of every block but a dirty victim's. */
  lemma RefillMemory(st: CacheState, st': CacheState, g: Geometry, f: Fields, v: nat, b: nat)
    requires Refilled(st, st', g, f, v) && b < TWO20
    requires var victim := st.cache.table[f.index][v];
      !(victim.valid && victim.dirty) || Split(g, b).index != f.index || Split(g, b).tag != victim.tag
    ensures Read(st'.mem, b) == Read(st.mem, b)
  {
    var victim := st.cache.table[f.index][v];
    if victim.valid && victim.dirty && !Outside(g, b, victim.tag, f.index) {
      InBlock(g, b, victim.tag, f.index);
    }
  }

  lemma RefillOtherSet(st: CacheState, st': CacheState, g: Geometry, f: Fields, v: nat, b: nat)
    requires Refilled(st, st', g, f, v) && b < TWO20 && Split(g, b).index != f.index
    ensures ViewByte(st', g, b) == ViewByte(st, g, b)
  {
    RefillMemory(st, st', g, f, v, b);
  }

  lemma RefillNewBlock(st: CacheState, st': CacheState, g: Geometry, f: Fields, v: nat, b: nat)
    requires Refilled(st, st', g, f, v) && b < TWO20
    requires Split(g, b).index == f.index && Split(g, b).tag == f.tag
    ensures ViewByte(st', g, b) == ViewByte(st, g, b)
  {
    var ways, line := st.cache.table[f.index], st'.cache.table[f.index][v];
    Recombine(g, b);
    RefillFound(ways, v, line, f.tag);
    assert ways[v].valid ==> ways[v].tag != f.tag;
    RefillMemory(st, st', g, f, v, b);
  }

  lemma RefillVictimBlock(st: CacheState, st': CacheState, g: Geometry, f: Fields, v: nat, b: nat)
    requires Refilled(st, st', g, f, v) && b < TWO20
    requires Split(g, b).index == f.index && st.cache.table[f.index][v].valid
    requires Split(g, b).tag == st.cache.table[f.index][v].tag
    ensures ViewByte(st', g, b) == ViewByte(st, g, b)
  {
    var ways, line := st.cache.table[f.index], st'.cache.table[f.index][v];
    Recombine(g, b);
    assert ways[v].tag != f.tag;
    EvictedGone(ways, v, line);
    FoundAt(ways, v);
  }

  lemma RefillOtherBlock(st: CacheState, st': CacheState, g: Geometry, f: Fields, v: nat, b: nat)
    requires Refilled(st, st', g, f, v) && b < TWO20
    requires Split(g, b).index == f.index && Split(g, b).tag != f.tag
    requires !st.cache.table[f.index][v].valid || Split(g, b).tag != st.cache.table[f.index][v].tag
    ensures ViewByte(st', g, b) == ViewByte(st, g, b)
  {
    var ways, line := st.cache.table[f.index], st'.cache.table[f.index][v];
    OtherTags(ways, v, line, Split(g, b).tag);
    RefillMemory(st, st', g, f, v, b);
  }

  lemma RefillView(st: CacheState, st': CacheState, g: Geometry, f: Fields, v: nat)
    requires Refilled(st, st', g, f, v)
    ensures forall b :: Read(View(st', g), b) == Read(View(st, g), b)
  {
    forall b: nat
      ensures Read(View(st', g), b) == Read(View(st, g), b)
    {
      ReadView(st, g, b);
      ReadView(st', g, b);
      if b < TWO20 {
        RefillViewByte(st, st', g, f, v, b);
      }
    }
  }

  /** `Refill` does what `Refilled` describes, and finds the new block in
      way `v`. */
  lemma RefillFacts(st: CacheState, g: Geometry, f: Fields, v: nat, dirty: bool, rands: seq<nat>)
    requires Coherent(st, g) && f.tag < Pow2(TagBits(g)) && f.index < Pow2(g.indexBits)
    requires f.base == BlockAddress(g, f.tag, f.index)
    requires f.index < |st.cache.table| && v < |st.cache.table[f.index]|
    requires FindFrom(st.cache.table[f.index], f.tag, 0).None?
    ensures var st' := Refill(st, g, f, v, dirty, rands);
      && Refilled(st, st', g, f, v)
      && st'.cache.table[f.index][v].dirty == dirty
      && FindFrom(st'.cache.table[f.index], f.tag, 0) == Some(v)
  {
    var st' := Refill(st, g, f, v, dirty, rands);
    var ways := st.cache.table[f.index];
    var line := st'.cache.table[f.index][v];
    assert st'.cache.table[f.index] == ways[v := line];
    UpdateRegular(st.cache, st'.cache, g, f.index, ways[v := line]);
    RefillFound(ways, v, line, f.tag);
  }

  /** The value read from the line that holds an address's block is the
      view's value. */
  lemma ReadFromLine(st: CacheState, g: Geometry, address: nat, w: nat, size: nat)
    requires Coherent(st, g) && address < TWO20
    requires Split(g, address).index < |st.cache.table|
    requires FindFrom(st.cache.table[Split(g, address).index], Split(g, address).tag, 0) == Some(w)
    requires Split(g, address).offset + size <= |st.cache.table[Split(g, address).index][w].data|
    ensures BytesLE(st.cache.table[Split(g, address).index][w].data, Split(g, address).offset, size)
      == LoadLE(View(st, g), address, size)
  {
    var f := Split(g, address);
    Recombine(g, address);
    BlockView(st, g, f.tag, f.index, w);
    BlockAgrees(View(st, g), f.base, st.cache.table[f.index][w].data, f.offset, size);
  }

  /** A load miss keeps the invariant and the view, and returns the view's
      value. */
  lemma LoadMissKeeps(st: CacheState, g: Geometry, address: nat, size: nat, extract: bool, keepDirty: bool)
    requires Coherent(st, g) && address < TWO20
    requires Split(g, address).index < |st.cache.table|
    requires FindFrom(st.cache.table[Split(g, address).index], Split(g, address).tag, 0).None?
    requires LoadMiss(st, g, Split(g, address), size, extract, keepDirty).Loaded?
    ensures var r := LoadMiss(st, g, Split(g, address), size, extract, keepDirty);
      && Coherent(r.st, g)
      && (forall b :: Read(View(r.st, g), b) == Read(View(st, g), b))
      && (r.raw.Some? <==> extract)
      && (r.raw.Some? ==> r.raw.value == LoadLE(View(st, g), address, size))
  {
    var f := Split(g, address);
    var r := LoadMiss(st, g, f, size, extract, keepDirty);
    var choice := Victim(st.cache.table[f.index], st.cache.replPolicy, st.cache.assoc, st.rands);
    var v := choice.way.value;
    var dirty := keepDirty && st.cache.table[f.index][v].dirty;
    Recombine(g, address);
    RefillFacts(st, g, f, v, dirty, choice.rands);
    var st' := Refill(st, g, f, v, dirty, choice.rands);
    assert r.st == st';
    RefillKeeps(st, st', g, f, v);
    RefillView(st, st', g, f, v);
    if r.raw.Some? {
      ReadFromLine(st', g, address, v, size);
      LoadLEFrame(View(st', g), View(st, g), address, size);
    }
  }

  /** What a store into the line holding block `t` of set `s` does to the
      set: way `w` takes the stored bytes at `off`; either the line becomes
      dirty and memory is left alone ("WB"), or memory takes the same bytes
      and the dirty bit is kept ("WT"). */
  ghost predicate SetWrite(ways: seq<Line>, ways': seq<Line>, s: nat, w: nat, t: nat, off: nat, value: nat, size: nat,
                           mem: Mem, mem': Mem, g: Geometry)
    requires Fits20(g)
  {
    && w < |ways| && |ways'| == |ways| && ways' == ways[w := ways'[w]]
    && t < Pow2(TagBits(g)) && s < Pow2(g.indexBits) && Holds(ways[w], t)
    && off + size <= |ways[w].data|
    && ways'[w] == ways[w].(data := StoreBytes(ways[w].data, off, value, size), dirty := ways'[w].dirty, toa := ways'[w].toa)
    && ((mem' == mem && ways'[w].dirty)
        || (mem' == StoreLE(mem, BlockAddress(g, t, s) + off, value, size) && ways'[w].dirty == ways[w].dirty))
  }

  /** A store changes memory at most inside the block it writes. */
  lemma StoreInBlock(mem: Mem, g: Geometry, t: nat, s: nat, off: nat, value: nat, size: nat)
    requires off + size <= Pow2(g.offsetBits)
    ensures ChangedOnly(mem, StoreLE(mem, BlockAddress(g, t, s) + off, value, size), g, true, t, s)
  {
  }

  /** A written set stays coherent. */
  lemma WrittenSet(ways: seq<Line>, ways': seq<Line>, s: nat, w: nat, t: nat, off: nat, value: nat, size: nat,
                   mem: Mem, mem': Mem, g: Geometry)
    requires Fits20(g) && SetCoherent(ways, s, mem, g) && SetWrite(ways, ways', s, w, t, off, value, size, mem, mem', g)
    ensures SetCoherent(ways', s, mem', g)
  {
    var through := !(mem' == mem && ways'[w].dirty);
    if through {
      StoreInBlock(mem, g, t, s, off, value, size);
      if ways[w].valid && !ways[w].dirty {
        StoreAgrees(mem, BlockAddress(g, t, s), ways[w].data, off, value, size);
      }
    }
    WrittenSetClean(ways, ways', s, w, t, off, value, size, mem, mem', g);
  }

  lemma WrittenSetClean(ways: seq<Line>, ways': seq<Line>, s: nat, w: nat, t: nat, off: nat, value: nat, size: nat,
                        mem: Mem, mem': Mem, g: Geometry)
    requires Fits20(g) && SetCoherent(ways, s, mem, g) && SetWrite(ways, ways', s, w, t, off, value, size, mem, mem', g)
    requires !(mem' == mem && ways'[w].dirty) ==> ChangedOnly(mem, mem', g, true, t, s)
    requires !ways'[w].dirty ==>
      forall k :: 0 <= k < |ways[w].data| ==> ways'[w].data[k] == Read(mem', BlockAddress(g, t, s) + k)
    ensures SetClean(ways', s, mem', g)
  {
    var through := !(mem' == mem && ways'[w].dirty);
    forall j | 0 <= j < |ways'|
      ensures LineClean(ways'[j], s, mem', g)
    {
      if j != w {
        assert ways'[j] == ways[j] && LinePlaced(ways[j], s, g) && LineClean(ways[j], s, mem, g);
        assert ways[j].valid ==> ways[j].tag != t;
        LineCleanFrame(ways[j], s, mem, mem', g, through, t, s);
      }
    }
  }

  /** A store into the line found for `address`: the set of `address`
      written as `SetWrite` says and nothing else changed. */
  ghost predicate Written(st: CacheState, st': CacheState, g: Geometry, address: nat, w: nat, size: nat, value: nat) {
    && Coherent(st, g) && Regular(st'.cache, g) && address < TWO20
    && var f := Split(g, address);
    && f.index < |st.cache.table| && FindFrom(st.cache.table[f.index], f.tag, 0) == Some(w)
    && |st'.cache.table| == |st.cache.table| && st'.cache.table == st.cache.table[f.index := st'.cache.table[f.index]]
    && SetWrite(st.cache.table[f.index], st'.cache.table[f.index], f.index, w, f.tag, f.offset, value, size, st.mem, st'.mem, g)
  }

  /** A store into a cached block keeps the invariant. */
  lemma WrittenKeeps(st: CacheState, st': CacheState, g: Geometry, address: nat, w: nat, size: nat, value: nat)
    requires Written(st, st', g, address, w, size, value)
    ensures Coherent(st', g)
  {
    var f := Split(g, address);
    var ways, ways' := st.cache.table[f.index], st'.cache.table[f.index];
    var through := !(st'.mem == st.mem && ways'[w].dirty);
    if through {
      StoreInBlock(st.mem, g, f.tag, f.index, f.offset, value, size);
    }
    forall s | 0 <= s < |st'.cache.table|
      ensures SetCoherent(st'.cache.table[s], s, st'.mem, g)
    {
      assert SetCoherent(st.cache.table[s], s, st.mem, g);
      if s == f.index {
        WrittenSet(ways, ways', s, w, f.tag, f.offset, value, size, st.mem, st'.mem, g);
      } else {
        SetCleanFrame(st.cache.table[s], s, st.mem, st'.mem, g, through, f.tag, f.index);
      }
    }
  }

  /** The view of an address whose block way `w` holds is that line's
      byte. */
  lemma ViewOfLine(st: CacheState, g: Geometry, b: nat, w: nat)
    requires WellFormed(st.cache) && GeometryOf(st.cache) == Some(g)
    requires Split(g, b).index < |st.cache.table|
    requires FindFrom(st.cache.table[Split(g, b).index], Split(g, b).tag, 0) == Some(w)
    requires Split(g, b).offset < |st.cache.table[Split(g, b).index][w].data|
    ensures ViewByte(st, g, b) == st.cache.table[Split(g, b).index][w].data[Split(g, b).offset]
  {
  }

  /** Inside the written block the view takes the stored bytes. */
  lemma WrittenInBlock(st: CacheState, st': CacheState, g: Geometry, address: nat, w: nat, size: nat, value: nat, b: nat)
    requires Written(st, st', g, address, w, size, value) && Coherent(st', g) && b < TWO20
    requires Split(g, b).index == Split(g, address).index && Split(g, b).tag == Split(g, address).tag
    ensures ViewByte(st', g, b) == Read(StoreLE(View(st, g), address, value, size), b)
  {
    var f, fb := Split(g, address), Split(g, b);
    var ways, ways' := st.cache.table[f.index], st'.cache.table[f.index];
    Recombine(g, address);
    Recombine(g, b);
    FindFromSame(ways, ways', f.tag, 0);
    ViewOfLine(st', g, b, w);
    var m := View(st, g);
    BlockView(st, g, f.tag, f.index, w);
    var d, d' := ways[w].data, ways'[w].data;
    assert d' == StoreBytes(d, f.offset, value, size);
    assert f.base == fb.base && address == f.base + f.offset && b == f.base + fb.offset;
    StoreAgreesAt(m, f.base, d, f.offset, value, size, fb.offset, address, b);
  }

  /** Outside the written block the view is unchanged. */
  lemma WrittenOutside(st: CacheState, st': CacheState, g: Geometry, address: nat, w: nat, size: nat, value: nat, b: nat)
    requires Written(st, st', g, address, w, size, value) && Coherent(st', g) && b < TWO20
    requires Split(g, b).index != Split(g, address).index || Split(g, b).tag != Split(g, address).tag
    ensures ViewByte(st', g, b) == Read(StoreLE(View(st, g), address, value, size), b)
  {
    var f, fb := Split(g, address), Split(g, b);
    var ways, ways' := st.cache.table[f.index], st'.cache.table[f.index];
    Recombine(g, address);
    if !Outside(g, b, f.tag, f.index) {
      InBlock(g, b, f.tag, f.index);
    }
    StoreInBlock(st.mem, g, f.tag, f.index, f.offset, value, size);
    if fb.index == f.index {
      FindFromSame(ways, ways', fb.tag, 0);
    }
    ReadView(st, g, b);
  }

  lemma WrittenView(st: CacheState, st': CacheState, g: Geometry, address: nat, w: nat, size: nat, value: nat)
    requires Written(st, st', g, address, w, size, value)
    ensures Coherent(st', g)
    ensures forall b :: Read(View(st', g), b) == Read(StoreLE(View(st, g), address, value, size), b)
  {
    WrittenKeeps(st, st', g, address, w, size, value);
    var f := Split(g, address);
    WrittenBelow(st, st', g, address, w, size, value);
    forall b: nat
      ensures Read(View(st', g), b) == Read(StoreLE(View(st, g), address, value, size), b)
    {
      ReadView(st', g, b);
      ReadView(st, g, b);
      if b < TWO20 {
        if Split(g, b).index == f.index && Split(g, b).tag == f.tag {
          WrittenInBlock(st, st', g, address, w, size, value, b);
        } else {
          WrittenOutside(st, st', g, address, w, size, value, b);
        }
      }
    }
  }

  /** A store that fits its block stays below `2^20`. */
  lemma WrittenBelow(st: CacheState, st': CacheState, g: Geometry, address: nat, w: nat, size: nat, value: nat)
    requires Written(st, st', g, address, w, size, value)
    ensures address + size <= TWO20
  {
    BlockEnd(g, address, size);
  }

  /** An access that stays inside its block ends at or below `2^20`. */
  lemma BlockEnd(g: Geometry, address: nat, size: nat)
    requires Fits20(g) && address < TWO20 && Split(g, address).offset + size <= Pow2(g.offsetBits)
    ensures address + size <= TWO20
  {
    var f := Split(g, address);
    Recombine(g, address);
    Decompose(g, f.tag, f.index, Pow2(g.offsetBits) - 1);
  }

  /** In a set without duplicate tags the way found for a tag is the only
      way holding it. */
  lemma OnlyHolder(ways: seq<Line>, w: nat, t: nat)
    requires SetDistinct(ways) && FindFrom(ways, t, 0) == Some(w)
    ensures forall j :: 0 <= j < |ways| && Holds(ways[j], t) ==> j == w
  {
    forall j | 0 <= j < |ways| && Holds(ways[j], t)
      ensures j == w
    {
      FoundAt(ways, j);
    }
  }

  /** A store hit writes the line it finds as `Written` describes. */
  lemma StoreHitWritten(st: CacheState, g: Geometry, address: nat, w: nat, size: nat, value: nat)
    requires Coherent(st, g) && address < TWO20
    requires Split(g, address).index < |st.cache.table|
    requires FindFrom(st.cache.table[Split(g, address).index], Split(g, address).tag, 0) == Some(w)
    requires StoreHit(st, g, Split(g, address), w, address, size, value).Stored?
    ensures Written(st, StoreHit(st, g, Split(g, address), w, address, size, value).st, g, address, w, size, value)
  {
    var f := Split(g, address);
    var st' := StoreHit(st, g, f, w, address, size, value).st;
    var ways, ways' := st.cache.table[f.index], st'.cache.table[f.index];
    Recombine(g, address);
    assert ways' == ways[w := ways'[w]];
    assert ways'[w] == ways[w].(data := StoreBytes(ways[w].data, f.offset, value, size), dirty := ways'[w].dirty, toa := ways'[w].toa);
    UpdateRegular(st.cache, st'.cache, g, f.index, ways');
    if st.cache.writePolicy == "WB" {
      assert st'.mem == st.mem && ways'[w].dirty;
    } else {
      assert st'.mem == StoreLE(st.mem, BlockAddress(g, f.tag, f.index) + f.offset, value, size);
    }
  }

  /** A write-back store miss: the refilled set then written as
      `Written` describes. */
  lemma StoreMissWritten(st: CacheState, g: Geometry, address: nat, size: nat, value: nat)
    requires Coherent(st, g) && address < TWO20 && st.cache.writePolicy == "WB"
    requires Split(g, address).index < |st.cache.table|
    requires FindFrom(st.cache.table[Split(g, address).index], Split(g, address).tag, 0).None?
    requires StoreMiss(st, g, Split(g, address), address, size, value).Stored?
    ensures var f := Split(g, address);
      var choice := Victim(st.cache.table[f.index], st.cache.replPolicy, st.cache.assoc, st.rands);
      && choice.way.Some?
      && var st1 := Refill(st, g, f, choice.way.value, true, choice.rands);
      && Refilled(st, st1, g, f, choice.way.value)
      && Written(st1, StoreMiss(st, g, f, address, size, value).st, g, address, choice.way.value, size, value)
  {
    var f := Split(g, address);
    var choice := Victim(st.cache.table[f.index], st.cache.replPolicy, st.cache.assoc, st.rands);
    var v := choice.way.value;
    Recombine(g, address);
    RefillFacts(st, g, f, v, true, choice.rands);
    var st1 := Refill(st, g, f, v, true, choice.rands);
    RefillKeeps(st, st1, g, f, v);
    var st' := StoreMiss(st, g, f, address, size, value).st;
    var ways1, ways' := st1.cache.table[f.index], st'.cache.table[f.index];
    OnlyHolder(ways1, v, f.tag);
    assert ways' == ways1[v := ways'[v]];
    UpdateRegular(st1.cache, st'.cache, g, f.index, ways');
  }

  /** A write-back store miss keeps the invariant and makes the view the
      old view with the store applied. */
  lemma StoreMissAllocates(st: CacheState, g: Geometry, address: nat, size: nat, value: nat)
    requires Coherent(st, g) && address < TWO20 && st.cache.writePolicy == "WB"
    requires Split(g, address).index < |st.cache.table|
    requires FindFrom(st.cache.table[Split(g, address).index], Split(g, address).tag, 0).None?
    requires StoreMiss(st, g, Split(g, address), address, size, value).Stored?
    ensures var st' := StoreMiss(st, g, Split(g, address), address, size, value).st;
      && Coherent(st', g)
      && forall b :: Read(View(st', g), b) == Read(StoreLE(View(st, g), address, value, size), b)
  {
    var f := Split(g, address);
    var choice := Victim(st.cache.table[f.index], st.cache.replPolicy, st.cache.assoc, st.rands);
    var v := choice.way.value;
    StoreMissWritten(st, g, address, size, value);
    var st1 := Refill(st, g, f, v, true, choice.rands);
    var st' := StoreMiss(st, g, f, address, size, value).st;
    RefillView(st, st1, g, f, v);
    WrittenView(st1, st', g, address, v, size, value);
    forall b: nat
      ensures Read(View(st', g), b) == Read(StoreLE(View(st, g), address, value, size), b)
    {
      StoreLECongruent(View(st1, g), View(st, g), address, value, size, b);
    }
  }

  /** A write-through store miss: the table is left alone and memory
      takes the store. */
  lemma StoreMissThroughKeeps(st: CacheState, g: Geometry, address: nat, size: nat, value: nat)
    requires Coherent(st, g) && address < TWO20 && st.cache.writePolicy == "WT"
    requires Split(g, address).offset + size <= Pow2(g.offsetBits)
    requires Split(g, address).index < |st.cache.table|
    requires FindFrom(st.cache.table[Split(g, address).index], Split(g, address).tag, 0).None?
    ensures var r := StoreMiss(st, g, Split(g, address), address, size, value);
      && r.Stored? && r.st.cache.table == st.cache.table && r.st.mem == StoreLE(st.mem, address, value, size)
      && Coherent(r.st, g)
  {
    var f := Split(g, address);
    var st' := StoreMiss(st, g, f, address, size, value).st;
    Recombine(g, address);
    UpdateRegular(st.cache, st'.cache, g, f.index, st.cache.table[f.index]);
    StoreInBlock(st.mem, g, f.tag, f.index, f.offset, value, size);
    forall s | 0 <= s < |st'.cache.table|
      ensures SetCoherent(st'.cache.table[s], s, st'.mem, g)
    {
      assert SetCoherent(st.cache.table[s], s, st.mem, g);
      SetCleanFrame(st.cache.table[s], s, st.mem, st'.mem, g, true, f.tag, f.index);
    }
  }

  /** A write-through store miss makes the view the old view with the
      store applied. */
  lemma StoreMissThrough(st: CacheState, g: Geometry, address: nat, size: nat, value: nat)
    requires Coherent(st, g) && address < TWO20 && st.cache.writePolicy == "WT"
    requires Split(g, address).offset + size <= Pow2(g.offsetBits)
    requires Split(g, address).index < |st.cache.table|
    requires FindFrom(st.cache.table[Split(g, address).index], Split(g, address).tag, 0).None?
    ensures var r := StoreMiss(st, g, Split(g, address), address, size, value);
      && r.Stored? && Coherent(r.st, g)
      && forall b :: Read(View(r.st, g), b) == Read(StoreLE(View(st, g), address, value, size), b)
  {
    var f := Split(g, address);
    StoreMissThroughKeeps(st, g, address, size, value);
    var st' := StoreMiss(st, g, f, address, size, value).st;
    BlockEnd(g, address, size);
    forall b: nat
      ensures Read(View(st', g), b) == Read(StoreLE(View(st, g), address, value, size), b)
    {
      ReadView(st', g, b);
      ReadView(st, g, b);
      if b < TWO20 {
        ThroughByte(st, st', g, address, size, value, b);
      }
    }
  }

  /** One byte of `StoreMissThrough`. */
  lemma ThroughByte(st: CacheState, st': CacheState, g: Geometry, address: nat, size: nat, value: nat, b: nat)
    requires Coherent(st, g) && address < TWO20 && b < TWO20
    requires Split(g, address).offset + size <= Pow2(g.offsetBits)
    requires Split(g, address).index < |st.cache.table|
    requires FindFrom(st.cache.table[Split(g, address).index], Split(g, address).tag, 0).None?
    requires Coherent(st', g) && st'.cache.table == st.cache.table && st'.mem == StoreLE(st.mem, address, value, size)
    ensures ViewByte(st', g, b) == Read(StoreLE(View(st, g), address, value, size), b)
  {
    var f, fb := Split(g, address), Split(g, b);
    Recombine(g, address);
    ReadView(st, g, b);
    if Outside(g, b, f.tag, f.index) {
      StoreInBlock(st.mem, g, f.tag, f.index, f.offset, value, size);
      assert Read(st'.mem, b) == Read(st.mem, b);
    } else {
      InBlock(g, b, f.tag, f.index);
      StoreLECongruent(st.mem, View(st, g), address, value, size, b);
    }
  }

  /** An access the unaligned check lets through, below `2^20`, stays
      inside its block. */
  lemma FitsInBlock(c: Cache, g: Geometry, address: nat, size: nat)
    requires Regular(c, g) && 1 <= size && address + size <= TWO20 && Fits(c, Split(g, address), address, size)
    ensures Split(g, address).offset + size <= Pow2(g.offsetBits)
  {
    var f := Split(g, address);
    Recombine(g, address);
    Decompose(g, f.tag, f.index, Pow2(g.offsetBits) - 1);
    SmallResidues(address + size, c.blockSize + f.base, TWO64);
  }

  /** Below the modulus, residues compare as the numbers do. */
  lemma SmallResidues(x: nat, y: nat, m: nat)
    requires x < m && y < m && x % m <= y % m
    ensures x <= y
  {
  }

  /** Transparency of loads: a load through a coherent cache keeps it
      coherent, leaves the view unchanged and returns the view's
      little-endian value, which is read exactly when it is to be
      extracted. */
  lemma CacheLoadCoherent(st: CacheState, g: Geometry, address: nat, size: nat, extract: bool)
    requires Coherent(st, g) && 1 <= size <= 8 && address + size <= TWO20
    ensures var r := CacheLoad(st, address, size, extract);
      r.Loaded? ==>
        && Coherent(r.st, g)
        && (forall b :: Read(View(r.st, g), b) == Read(View(st, g), b))
        && (r.raw.Some? <==> extract)
        && (r.raw.Some? ==> r.raw.value == LoadLE(View(st, g), address, size))
  {
    var r := CacheLoad(st, address, size, extract);
    if r.Loaded? {
      var f := Split(g, address);
      IndexInTable(st.cache, g, address);
      match FindFrom(st.cache.table[f.index], f.tag, 0)
      case Some(w) =>
        assert r == LoadHit(st, g, f, w, size, extract);
        LoadHitKeeps(st, g, f, w, size, extract);
        LoadHitValue(st, g, address, w, size, extract);
      case None =>
        assert r == LoadMiss(st, g, f, size, extract, true);
        LoadMissKeeps(st, g, address, size, extract, true);
    }
  }

  /** Transparency of stores: a store through a coherent cache keeps it
      coherent and changes the view exactly as the same store would
      change a memory without a cache. */
  lemma CacheStoreCoherent(st: CacheState, g: Geometry, address: nat, size: nat, value: nat)
    requires Coherent(st, g) && 1 <= size <= 8 && address + size <= TWO20
    ensures var r := CacheStore(st, address, size, value);
      r.Stored? ==>
        && Coherent(r.st, g)
        && forall b :: Read(View(r.st, g), b) == Read(StoreLE(View(st, g), address, value, size), b)
  {
    var r := CacheStore(st, address, size, value);
    if r.Stored? {
      var f := Split(g, address);
      IndexInTable(st.cache, g, address);
      FitsInBlock(st.cache, g, address, size);
      match FindFrom(st.cache.table[f.index], f.tag, 0)
      case Some(w) =>
        assert r == StoreHit(st, g, f, w, address, size, value);
        StoreHitWritten(st, g, address, w, size, value);
        WrittenView(st, r.st, g, address, w, size, value);
      case None =>
        assert r == StoreMiss(st, g, f, address, size, value);
        if st.cache.writePolicy == "WB" {
          StoreMissAllocates(st, g, address, size, value);
        } else {
          StoreMissThrough(st, g, address, size, value);
        }
    }
  }

  /** A cache without valid lines, as `enableCache` builds it, is coherent
      and shows main memory as it is. */
  lemma EmptyCoherent(st: CacheState, g: Geometry)
    requires Regular(st.cache, g)
    requires forall s, w :: 0 <= s < |st.cache.table| && 0 <= w < |st.cache.table[s]| ==> !st.cache.table[s][w].valid
    ensures Coherent(st, g)
    ensures forall b: nat :: b < TWO20 ==> Read(View(st, g), b) == Read(st.mem, b)
  {
    forall b: nat | b < TWO20
      ensures Read(View(st, g), b) == Read(st.mem, b)
    {
      var f := Split(g, b);
      IndexInTable(st.cache, g, b);
      assert FindFrom(st.cache.table[f.index], f.tag, 0).None?;
    }
  }

  /** `invalidateCache` drops every line without writing dirty ones back:
      afterwards the view is main memory, whatever the lines held. */
  lemma InvalidatedView(st: CacheState, g: Geometry)
    requires Regular(st.cache, g)
    ensures var st' := st.(cache := InvalidateCache(st.cache));
      && Coherent(st', g)
      && forall b: nat :: b < TWO20 ==> Read(View(st', g), b) == Read(st.mem, b)
  {
    var st' := st.(cache := InvalidateCache(st.cache));
    assert Regular(st'.cache, g);
    EmptyCoherent(st', g);
  }

  /** Way `v` of the set of `f` is the way the lookup finds for `f`'s tag,
      and its bytes are memory's bytes of `f`'s block. */
  predicate HoldsCopy(st: CacheState, f: Fields, v: nat) {
    && f.index < |st.cache.table| && v < |st.cache.table[f.index]|
    && FindFrom(st.cache.table[f.index], f.tag, 0) == Some(v)
    && var line := st.cache.table[f.index][v];
    && forall k :: 0 <= k < |line.data| ==> line.data[k] == Read(st.mem, f.base + k)
  }

  /** A cached load that misses and evicts a dirty line leaves the line
      now holding the loaded block dirty, although its bytes are exactly
      memory's: the block will be written back again on its own eviction,
      and `dumpCache` reports it dirty. */
  lemma LoadMissStaysDirty(st: CacheState, g: Geometry, address: nat, size: nat, extract: bool, r: LoadResult)
    requires Coherent(st, g) && address < TWO20 && 1 <= size <= 8
    requires var f := Split(g, address);
      && f.index < |st.cache.table|
      && FindFrom(st.cache.table[f.index], f.tag, 0).None?
      && var choice := Victim(st.cache.table[f.index], st.cache.replPolicy, st.cache.assoc, st.rands);
      && choice.way.Some? && st.cache.table[f.index][choice.way.value].dirty
    requires r == CacheLoad(st, address, size, extract) && r.Loaded?
    ensures var f := Split(g, address);
      var v := Victim(st.cache.table[f.index], st.cache.replPolicy, st.cache.assoc, st.rands).way.value;
      HoldsCopy(r.st, f, v) && r.st.cache.table[f.index][v].dirty
  {
    var f := Split(g, address);
    assert r == LoadMiss(st, g, f, size, extract, true) by {
      IndexInTable(st.cache, g, address);
    }
    LoadMissDirty(st, g, address, size, extract);
  }

  /** The miss itself: the refilled way holds the block, with the victim's
      dirty bit. */
  lemma LoadMissDirty(st: CacheState, g: Geometry, address: nat, size: nat, extract: bool)
    requires Coherent(st, g) && address < TWO20
    requires Split(g, address).index < |st.cache.table|
    requires FindFrom(st.cache.table[Split(g, address).index], Split(g, address).tag, 0).None?
    requires LoadMiss(st, g, Split(g, address), size, extract, true).Loaded?
    ensures var f := Split(g, address);
      var v := Victim(st.cache.table[f.index], st.cache.replPolicy, st.cache.assoc, st.rands).way.value;
      var st' := LoadMiss(st, g, f, size, extract, true).st;
      && v < |st.cache.table[f.index]|
      && HoldsCopy(st', f, v)
      && st'.cache.table[f.index][v].dirty == st.cache.table[f.index][v].dirty
  {
    var f := Split(g, address);
    var choice := Victim(st.cache.table[f.index], st.cache.replPolicy, st.cache.assoc, st.rands);
    Recombine(g, address);
    RefillFacts(st, g, f, choice.way.value, st.cache.table[f.index][choice.way.value].dirty, choice.rands);
  }

  /** With the dirty bit cleared on refill, the line holding the loaded
      block after a load miss is clean. */
  lemma LoadMissClean(st: CacheState, g: Geometry, address: nat, size: nat, extract: bool)
    requires Coherent(st, g) && address < TWO20
    requires Split(g, address).index < |st.cache.table|
    requires FindFrom(st.cache.table[Split(g, address).index], Split(g, address).tag, 0).None?
    requires LoadMiss(st, g, Split(g, address), size, extract, false).Loaded?
    ensures var f := Split(g, address);
      var st' := LoadMiss(st, g, f, size, extract, false).st;
      && f.index < |st'.cache.table|
      && match FindFrom(st'.cache.table[f.index], f.tag, 0)
         case Some(w) => !st'.cache.table[f.index][w].dirty
         case None => false
  {
    var f := Split(g, address);
    var choice := Victim(st.cache.table[f.index], st.cache.replPolicy, st.cache.assoc, st.rands);
    Recombine(g, address);
    RefillFacts(st, g, f, choice.way.value, false, choice.rands);
  }
}
