/** The data-cache records and the operations on a whole cache: building it
    from a configuration (`enableCache`), invalidating it and listing its
    valid lines (`dumpCache`). */
module CacheSim {
  import opened Arith
  import opened Wrappers
  import opened Parse
  import opened Memory

  /** One way of a set (`cache_line`). `tag` is the number the address's tag
      bits spell; a fresh line's empty tag reads as 0, which is never looked
      at because tags are compared on valid lines only. `toa` is the time of
      the line's last access, used by the LRU and FIFO policies. */
  datatype Line = Line(valid: bool, dirty: bool, data: seq<byte>, tag: nat, toa: int)

  /** `cache_line(size)`: an invalid, clean line of `size` zero bytes. */
  function NewLine(size: nat): (l: Line)
    ensures !l.valid && !l.dirty && l.toa == 0 && l.tag == 0 && |l.data| == size
    ensures forall k :: 0 <= k < size ==> l.data[k] == 0
  {
    Line(false, false, seq<byte>(size, _ => 0), 0, 0)
  }

  /** `setTag`. */
  function SetTag(l: Line, tag: nat): (r: Line)
    ensures r.tag == tag
    ensures r.valid == l.valid && r.dirty == l.dirty && r.data == l.data && r.toa == l.toa
  {
    l.(tag := tag)
  }

  /** `setValid`. */
  function SetValid(l: Line, valid: bool): (r: Line)
    ensures r.valid == valid
    ensures r.dirty == l.dirty && r.data == l.data && r.tag == l.tag && r.toa == l.toa
  {
    l.(valid := valid)
  }

  /** `setDirty`. */
  function SetDirty(l: Line, dirty: bool): (r: Line)
    ensures r.dirty == dirty
    ensures r.valid == l.valid && r.data == l.data && r.tag == l.tag && r.toa == l.toa
  {
    l.(dirty := dirty)
  }

  /** The cache: its counters, the sets (set `i` of the source's map is
      `table[i]`), and the configuration as it was read. */
  datatype Cache = Cache(
    hits: int, misses: int, table: seq<seq<Line>>,
    cacheSize: int, blockSize: int, assoc: int,
    writePolicy: string, replPolicy: string)

  /** The `cache` constructor: no sets yet and both counters at zero. */
  function NewCache(cacheSize: int, blockSize: int, assoc: int, writePolicy: string, replPolicy: string): (c: Cache)
    ensures c.hits == 0 && c.misses == 0 && c.table == []
    ensures c.cacheSize == cacheSize && c.blockSize == blockSize && c.assoc == assoc
    ensures c.writePolicy == writePolicy && c.replPolicy == replPolicy
  {
    Cache(0, 0, [], cacheSize, blockSize, assoc, writePolicy, replPolicy)
  }

  /** `x / y` on C++ `int`s: `None` where the division traps, for a zero
      divisor and for the one quotient that does not fit an `int`. */
  function IntDiv(x: int, y: int): (r: Option<int>)
    ensures r.Some? <==> y != 0 && IsInt32(CDiv(x, y))
    ensures r.Some? ==> r.value == CDiv(x, y)
  {
    if y == 0 || !IsInt32(CDiv(x, y)) then None else Some(CDiv(x, y))
  }

  /** The number of sets, `cache_size / (block_size * associativity)`, with
      the product wrapping as a 32-bit multiplication does. */
  function NumSets(cacheSize: int, blockSize: int, assoc: int): Option<int> {
    IntDiv(cacheSize, Wrap32(blockSize * assoc))
  }

  function Max0(x: int): nat {
    if x < 0 then 0 else x
  }

  /** What `enableCache` leaves behind: a cache, the "Invalid file format"
      refusal (`NULL`), or an abort (an exception from `stoi` or from
      allocating the lines, a trapping division, or an integer read before
      any line set it). */
  datatype Enable = Enabled(cache: Cache) | InvalidFormat | Aborted

  /** The integer on a configuration line, as `stoi` reads it. */
  function ConfigInt(line: string): Option<int> {
    match Stoi(line, 10)
    case None => None
    case Some(p) => Some(p.value)
  }

  /** Whether the configuration lines that are read as integers all
      convert. */
  predicate IntsConvert(lines: seq<string>) {
    forall i :: 0 <= i < 3 && i < |lines| ==> ConfigInt(lines[i]).Some?
  }

  /** `enableCache` on the lines of the configuration file: cache size,
      block size, associativity, replacement policy and write policy. Lines
      are read in order, so a line that `stoi` rejects aborts before a sixth
      line is seen; missing policy lines leave the policies empty. */
  function EnableCache(lines: seq<string>): (r: Enable)
    ensures r == InvalidFormat <==> IntsConvert(lines) && |lines| > 5
    ensures r.Enabled? ==> 3 <= |lines| <= 5
  {
    if !IntsConvert(lines) then Aborted
    else if |lines| > 5 then InvalidFormat
    else if |lines| < 3 then Aborted
    else
      var repl := if |lines| >= 4 then lines[3] else "";
      var write := if |lines| >= 5 then lines[4] else "";
      Build(ConfigInt(lines[0]).value, ConfigInt(lines[1]).value, ConfigInt(lines[2]).value, write, repl)
  }

  /** The geometry part of `enableCache`, from the configured integers. An
      associativity of 0 makes the cache fully associative; the table gets
      one set of `associativity` fresh lines per set number. */
  function Build(cs: int, bs: int, a: int, write: string, repl: string): (r: Enable)
    ensures r.Enabled? || r == Aborted
    ensures r.Enabled? <==>
      && Assoc(cs, bs, a).Some? && NumSets(cs, bs, Assoc(cs, bs, a).value).Some?
      && !(bs < 0 && Assoc(cs, bs, a).value > 0 && NumSets(cs, bs, Assoc(cs, bs, a).value).value > 0)
    ensures r.Enabled? ==> WellFormed(r.cache) && r.cache.hits == 0 && r.cache.misses == 0
    ensures r.Enabled? ==> r.cache.cacheSize == cs && r.cache.blockSize == bs && r.cache.assoc == Assoc(cs, bs, a).value
    ensures r.Enabled? ==> r.cache.writePolicy == write && r.cache.replPolicy == repl
    ensures r.Enabled? ==> forall s, w :: 0 <= s < |r.cache.table| && 0 <= w < |r.cache.table[s]| ==>
      r.cache.table[s][w] == NewLine(Max0(bs))
  {
    var assoc := Assoc(cs, bs, a);
    if assoc.None? then Aborted
    else
      var n := NumSets(cs, bs, assoc.value);
      if n.None? || (n.value > 0 && assoc.value > 0 && bs < 0) then Aborted
      else Enabled(Table(NewCache(cs, bs, assoc.value, write, repl), n.value))
  }

  /** The associativity in use: the configured one, or for 0 the number of
      blocks that fit the cache. */
  function Assoc(cs: int, bs: int, a: int): (r: Option<int>)
    ensures a != 0 ==> r == Some(a)
    ensures a == 0 ==> r == IntDiv(cs, bs)
  {
    if a == 0 then IntDiv(cs, bs) else Some(a)
  }

  /** The cache `c` with `n` sets of fresh lines. */
  function Table(c: Cache, n: int): (r: Cache)
    requires NumSets(c.cacheSize, c.blockSize, c.assoc) == Some(n)
    requires n > 0 && c.assoc > 0 ==> c.blockSize >= 0
    ensures WellFormed(r)
    ensures r == c.(table := r.table)
    ensures forall s, w :: 0 <= s < |r.table| && 0 <= w < |r.table[s]| ==> r.table[s][w] == NewLine(Max0(c.blockSize))
  {
    var ways := seq(Max0(c.assoc), _ => NewLine(Max0(c.blockSize)));
    c.(table := seq(Max0(n), _ => ways))
  }

  /** The shape every cache built by `enableCache` has, and every access
      keeps: `numSets` sets of `associativity` lines of `block_size`
      bytes. */
  ghost predicate WellFormed(c: Cache) {
    && NumSets(c.cacheSize, c.blockSize, c.assoc).Some?
    && |c.table| == Max0(NumSets(c.cacheSize, c.blockSize, c.assoc).value)
    && (forall s :: 0 <= s < |c.table| ==> |c.table[s]| == Max0(c.assoc))
    && (forall s, w :: 0 <= s < |c.table| && 0 <= w < |c.table[s]| ==> |c.table[s][w].data| == c.blockSize)
  }

  /** An associativity of 0 asks for a fully associative cache: for a
      positive cache size of at least one positive block, the table is a
      single set holding a line for every whole block (a remainder smaller
      than a block is left unused). */
  lemma FullyAssociative(cs: nat, bs: nat, write: string, repl: string)
    requires 0 < bs <= cs < TWO31
    ensures Build(cs, bs, 0, write, repl).Enabled?
    ensures Build(cs, bs, 0, write, repl).cache.assoc == cs / bs
    ensures |Build(cs, bs, 0, write, repl).cache.table| == 1
    ensures |Build(cs, bs, 0, write, repl).cache.table[0]| == cs / bs
  {
    var a := cs / bs;
    assert IntDiv(cs, bs) == Some(a) by {
      DivBelow(cs, bs);
    }
    MulGe(a, bs);
    assert 0 < bs * a <= cs;
    assert Wrap32(bs * a) == bs * a by {
      Wrap32Id(bs * a);
    }
    assert cs < 2 * (bs * a) by {
      assert cs == bs * a + cs % bs;
    }
    DivModUnique(cs, bs * a, 1, cs - bs * a);
    assert NumSets(cs, bs, a) == Some(1);
  }

  lemma DivBelow(x: nat, y: nat)
    requires 0 < y && x < TWO31
    ensures x / y <= x
  {
    if x / y > 0 {
      MulGe(x / y, y);
    }
  }

  /** `invalidateCache`: every line becomes invalid; nothing else
      changes. */
  function InvalidateCache(c: Cache): (r: Cache)
    ensures r.hits == c.hits && r.misses == c.misses
    ensures r.cacheSize == c.cacheSize && r.blockSize == c.blockSize && r.assoc == c.assoc
    ensures r.writePolicy == c.writePolicy && r.replPolicy == c.replPolicy
    ensures |r.table| == |c.table|
    ensures forall s :: 0 <= s < |c.table| ==> |r.table[s]| == |c.table[s]|
    ensures forall s, w :: 0 <= s < |c.table| && 0 <= w < |c.table[s]| ==>
      r.table[s][w] == c.table[s][w].(valid := false)
  {
    var table := seq(|c.table|, s requires 0 <= s < |c.table| =>
      seq(|c.table[s]|, w requires 0 <= w < |c.table[s]| => SetValid(c.table[s][w], false)));
    c.(table := table)
  }

  /** One record of `dumpCache`: the set number, the tag, and whether the
      line is dirty. */
  datatype Record = Record(index: nat, tag: nat, dirty: bool)

  /** The records of the valid lines of set `s` from way `w` on. */
  function DumpSet(lines: seq<Line>, s: nat, w: nat): (r: seq<Record>)
    requires w <= |lines|
    ensures |r| <= |lines| - w
    decreases |lines| - w
  {
    if w == |lines| then []
    else
      var rest := DumpSet(lines, s, w + 1);
      if lines[w].valid then [Record(s, lines[w].tag, lines[w].dirty)] + rest else rest
  }

  /** The records of sets `s` onward. */
  function DumpSets(table: seq<seq<Line>>, s: nat): seq<Record>
    requires s <= |table|
    decreases |table| - s
  {
    if s == |table| then [] else DumpSet(table[s], s, 0) + DumpSets(table, s + 1)
  }

  /** `dumpCache` without the file: the records of the valid lines. The
      source walks an unordered map of sets, so the order of the sets is
      unspecified; only the set of records is modelled, as `DumpExact`
      states, and this sequence lists them set by set and way by way. */
  function DumpCache(c: Cache): seq<Record> {
    DumpSets(c.table, 0)
  }

  /** Whether way `w` of set `s` is a valid line that `r` describes. */
  predicate Describes(table: seq<seq<Line>>, s: nat, w: nat, r: Record) {
    && s < |table| && w < |table[s]| && table[s][w].valid
    && r == Record(s, table[s][w].tag, table[s][w].dirty)
  }

  /** The records of a set are exactly its valid lines from `w` on. */
  lemma {:induction false} DumpSetExact(lines: seq<Line>, table: seq<seq<Line>>, s: nat, w: nat, r: Record)
    requires s < |table| && table[s] == lines && w <= |lines|
    ensures r in DumpSet(lines, s, w) <==> exists v :: w <= v < |lines| && Describes(table, s, v, r)
    decreases |lines| - w
  {
    if w < |lines| {
      DumpSetExact(lines, table, s, w + 1, r);
      if Describes(table, s, w, r) {
        assert r == Record(s, lines[w].tag, lines[w].dirty);
      }
    }
  }

  /** The records of sets `s` onward are exactly their valid lines. */
  lemma {:induction false} DumpSetsExact(table: seq<seq<Line>>, s: nat, r: Record)
    requires s <= |table|
    ensures r in DumpSets(table, s) <==> exists t, v :: s <= t && Describes(table, t, v, r)
    decreases |table| - s
  {
    if s < |table| {
      DumpSetExact(table[s], table, s, 0, r);
      DumpSetsExact(table, s + 1, r);
      if exists t, v :: s <= t && Describes(table, t, v, r) {
        var t, v :| s <= t && Describes(table, t, v, r);
        if t == s {
          assert exists v' :: 0 <= v' < |table[s]| && Describes(table, s, v', r);
        } else {
          assert exists t', v' :: s + 1 <= t' && Describes(table, t', v', r);
        }
      }
    }
  }

  /** A record is dumped exactly when it describes a valid line: set,
      tag, and `Dirty` for a dirty line, `Clean` otherwise. */
  lemma DumpExact(c: Cache, r: Record)
    ensures r in DumpCache(c) <==> exists s, w :: Describes(c.table, s, w, r)
  {
    DumpSetsExact(c.table, 0, r);
  }

  /** The number of valid lines of a set from way `w` on. */
  function ValidCount(lines: seq<Line>, w: nat): nat
    requires w <= |lines|
    decreases |lines| - w
  {
    if w == |lines| then 0 else (if lines[w].valid then 1 else 0) + ValidCount(lines, w + 1)
  }

  /** One record per valid line: a set's records number its valid lines. */
  lemma {:induction false} DumpSetCount(lines: seq<Line>, s: nat, w: nat)
    requires w <= |lines|
    ensures |DumpSet(lines, s, w)| == ValidCount(lines, w)
    decreases |lines| - w
  {
    if w < |lines| {
      DumpSetCount(lines, s, w + 1);
    }
  }

  /** An invalidated cache dumps nothing. */
  lemma InvalidatedDumpsNothing(c: Cache)
    ensures DumpCache(InvalidateCache(c)) == []
  {
    var r := InvalidateCache(c);
    if DumpCache(r) != [] {
      var rec := DumpCache(r)[0];
      DumpExact(r, rec);
    }
  }
}
