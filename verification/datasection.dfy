/** The `.data` directives: `.dword`, `.word`, `.half` and `.byte` lines
    whose literals are written into memory one after another
    (`memHandle`). */
module DataSection {
  import opened Arith
  import opened Wrappers
  import opened Memory
  import opened Tokens
  import opened Parse

  /** A literal fits an item of `size` bytes when it lies between the most
      negative signed and the largest unsigned value of that width. */
  predicate InDataRange(v: int, size: nat) {
    size >= 1 && -(Pow2(8 * size - 1) as int) <= v <= Pow2(8 * size) - 1
  }

  /** The value of one literal of a `.data` line, if it is well-formed and
      fits the item size. */
  function DataValue(t: string, size: nat): (r: Option<i64>)
    ensures r.Some? <==> GetDec(t).Some? && InDataRange(GetDec(t).value, size)
    ensures r.Some? ==> r.value == GetDec(t).value
  {
    match GetDec(t)
    case None => None
    case Some(v) => if InDataRange(v, size) then Some(v) else None
  }

  /** A `.data` line is accepted when it has a literal and every literal
      is valid for the item size. */
  predicate DataLineValid(args: string, size: nat) {
    var toks := Runs(args, DataSeps);
    |toks| > 0 && forall k :: 0 <= k < |toks| ==> DataValue(toks[k], size).Some?
  }

  /** The unsigned value an item of `size` bytes holds for literal `v`: the
      value itself, or its two's complement for a negative literal. */
  function Encoded(v: int, size: nat): int {
    if v >= 0 then v else v + Pow2(8 * size)
  }

  /** The low `size` bytes of a literal in range are its encoding. */
  lemma EncodedBytes(v: i64, size: nat)
    requires 1 <= size <= 8
    requires InDataRange(v, size)
    ensures U64(v) % Pow2(8 * size) == Encoded(v, size)
  {
    var p, k := Pow2(8 * size), Pow2(64 - 8 * size);
    WidthSplit(size);
    EncodedCongruent(v, size);
    ResidueOfPattern(v, p, k, Encoded(v, size));
  }

  /** The residue modulo a power of two `p` up to `2^64` of a value's 64-bit
      pattern is the value's own residue `t`. */
  lemma ResidueOfPattern(v: int, p: int, k: int, t: int)
    requires p >= 1 && k >= 1 && p * k == TWO64
    requires 0 <= t < p && (t - v) % p == 0
    ensures U64(v) % p == t
  {
    var w := U64(v) % p;
    ModOfMod(v, p, k);
    NegatedMultiple(v - w, p);
    CongruentTrans(w, v, t, p);
    SameResidueInWindow(w, t, p, 0);
  }

  /** The encoding is the literal's residue: it lies in `[0, 2^(8 size))`
      and differs from the literal by a multiple of `2^(8 size)`. */
  lemma EncodedCongruent(v: int, size: nat)
    requires InDataRange(v, size)
    ensures 0 <= Encoded(v, size) < Pow2(8 * size)
    ensures (Encoded(v, size) - v) % Pow2(8 * size) == 0
  {
    var p := Pow2(8 * size);
    assert p == 2 * Pow2(8 * size - 1);
    if v < 0 {
      DivModUnique(p, p, 1, 0);
    }
  }

  /** The values of the literals of `toks`, each as `getDec` reads it
      (zero for one that does not read). */
  function Values(toks: seq<string>, size: nat): (vs: seq<int>)
    ensures |vs| == |toks|
    ensures forall k :: 0 <= k < |toks| && DataValue(toks[k], size).Some? ==> vs[k] == DataValue(toks[k], size).value
  {
    seq(|toks|, k requires 0 <= k < |toks| => DataValue(toks[k], size).GetOr(0))
  }

  /** Item `k` of `values` is stored, in `size` bytes, `k` items after `a`. */
  ghost predicate Stored(m: Mem, a: nat, values: seq<int>, size: nat)
    decreases |values|
  {
    |values| == 0 || (LoadLE(m, a, size) == Encoded(values[0], size) && Stored(m, a + size, values[1..], size))
  }

  /** `memHandle`: writes the literals of a `.data` line of items of `size`
      bytes (one of the four sizes `.dword`, `.word`, `.half` and `.byte`
      use) from `address` on and returns the address after them. On
      failure the source has already written the literals before the bad
      one; the model returns that memory and address too. */
  method MemHandle(m: Mem, args: string, size: nat, address: nat) returns (ok: bool, m': Mem, address': nat)
    requires size in {1, 2, 4, 8}
    ensures ok <==> DataLineValid(args, size)
    ensures ok ==> address' == address + |Runs(args, DataSeps)| * size
    ensures ok ==> Stored(m', address, Values(Runs(args, DataSeps), size), size)
    ensures ok ==> forall b: nat {:trigger Read(m', b)} :: b < address || address' <= b ==> Read(m', b) == Read(m, b)
  {
    ok, m', address' := StoreItems(m, args, size, address);
  }

  /** The loop of `memHandle`, for an item width of one to eight bytes;
      the integer bounds of `DataValue` match the source's `pow()` bounds
      only at the widths `MemHandle` passes. */
  method StoreItems(m: Mem, args: string, size: nat, address: nat) returns (ok: bool, m': Mem, address': nat)
    requires 1 <= size <= 8
    ensures ok <==> DataLineValid(args, size)
    ensures ok ==> address' == address + |Runs(args, DataSeps)| * size
    ensures ok ==> Stored(m', address, Values(Runs(args, DataSeps), size), size)
    ensures ok ==> forall b: nat {:trigger Read(m', b)} :: b < address || address' <= b ==> Read(m', b) == Read(m, b)
  {
    var arguments := DataArguments(args);
    if |arguments| < 1 {
      return false, m, address;
    }
    m' := m;
    address' := address;
    ghost var values: seq<int> := [];
    var i := 0;
    while i < |arguments|
      invariant 0 <= i <= |arguments| && |values| == i
      invariant address' == address + i * size && address <= address'
      invariant ReadUpTo(arguments, size, values, i)
      invariant Stored(m', address, values, size)
      invariant forall b: nat {:trigger Read(m', b)} :: b < address || address' <= b ==> Read(m', b) == Read(m, b)
    {
      var valid, num := ReadLiteral(arguments[i], size);
      if !valid {
        assert !DataValue(Runs(args, DataSeps)[i], size).Some?;
        return false, m', address';
      }
      var m1 := StoreLE(m', address', U64(num), size);
      EncodedBytes(num, size);
      StoredAppend(m', address, values, size, address', U64(num), num);
      assert Stored(m1, address, values + [num], size);
      StoreFrame(m, m', address, address', U64(num), size);
      ReadNext(arguments, size, values, i, num);
      m' := m1;
      values := values + [num];
      address' := address' + size;
      NextSlot(address, i, size);
      i := i + 1;
    }
    ReadAll(arguments, size, values);
    ok := true;
  }

  /** The first `n` literals of `toks` read as `values`. */
  ghost predicate ReadUpTo(toks: seq<string>, size: nat, values: seq<int>, n: nat)
    requires n <= |toks| && n <= |values|
  {
    n == 0 || (ReadUpTo(toks, size, values, n - 1) && DataValue(toks[n - 1], size) == Some(values[n - 1]))
  }

  /** Only the first `n` values matter to `ReadUpTo`. */
  lemma {:induction false} ReadUpToPrefix(toks: seq<string>, size: nat, values: seq<int>, more: seq<int>, n: nat)
    requires n <= |toks| && n <= |values| && ReadUpTo(toks, size, values, n)
    ensures ReadUpTo(toks, size, values + more, n)
  {
    if n > 0 {
      ReadUpToPrefix(toks, size, values, more, n - 1);
    }
  }

  lemma ReadNext(toks: seq<string>, size: nat, values: seq<int>, i: nat, num: int)
    requires i < |toks| && |values| == i && ReadUpTo(toks, size, values, i)
    requires DataValue(toks[i], size) == Some(num)
    ensures ReadUpTo(toks, size, values + [num], i + 1)
  {
    ReadUpToPrefix(toks, size, values, [num], i);
  }

  /** When every literal has been read, the line is valid and `values` are
      its literals' values. */
  lemma ReadAll(toks: seq<string>, size: nat, values: seq<int>)
    requires |toks| == |values| && ReadUpTo(toks, size, values, |toks|)
    ensures forall k :: 0 <= k < |toks| ==> DataValue(toks[k], size).Some?
    ensures values == Values(toks, size)
  {
    forall k | 0 <= k < |toks|
      ensures DataValue(toks[k], size) == Some(values[k])
    {
      ReadUpToAt(toks, size, values, |toks|, k);
    }
  }

  lemma {:induction false} ReadUpToAt(toks: seq<string>, size: nat, values: seq<int>, n: nat, k: nat)
    requires n <= |toks| && n <= |values| && ReadUpTo(toks, size, values, n) && k < n
    ensures DataValue(toks[k], size) == Some(values[k])
  {
    if k < n - 1 {
      ReadUpToAt(toks, size, values, n - 1, k);
    }
  }

  /** One literal of the line: its value, and whether it reads and fits
      the item size. */
  method ReadLiteral(t: string, size: nat) returns (valid: bool, num: i64)
    ensures valid <==> DataValue(t, size).Some?
    ensures valid ==> DataValue(t, size) == Some(num) && InDataRange(num, size)
  {
    var res := GetDec(t);
    if res.None? {
      return false, 0;
    }
    num := res.value;
    valid := InDataRange(num, size);
  }

  /** A store right after the region written so far keeps memory outside
      the extended region unchanged. */
  lemma StoreFrame(m0: Mem, m: Mem, address: nat, at: nat, v: nat, size: nat)
    requires address <= at
    requires forall b: nat {:trigger Read(m, b)} :: b < address || at <= b ==> Read(m, b) == Read(m0, b)
    ensures forall b: nat {:trigger Read(StoreLE(m, at, v, size), b)} ::
      b < address || at + size <= b ==> Read(StoreLE(m, at, v, size), b) == Read(m0, b)
  {
    var m1 := StoreLE(m, at, v, size);
    forall b: nat | b < address || at + size <= b
      ensures Read(m1, b) == Read(m0, b)
    {
      assert Read(m1, b) == Read(m, b);
    }
  }

  /** The address just past `n` items of `size` bytes from `a`. */
  lemma NextSlot(a: nat, n: nat, size: nat)
    ensures a + n * size + size == a + (n + 1) * size
  {
  }

  /** Storing one more item right after the stored ones extends them. */
  lemma {:induction false} StoredAppend(m: Mem, a: nat, values: seq<int>, size: nat, at: nat, v: nat, num: int)
    requires Stored(m, a, values, size)
    requires at == a + |values| * size
    requires v % Pow2(8 * size) == Encoded(num, size)
    ensures Stored(StoreLE(m, at, v, size), a, values + [num], size)
    decreases |values|
  {
    var m1 := StoreLE(m, at, v, size);
    if |values| == 0 {
      assert Stored(m1, a + size, [], size);
    } else {
      NextSlot(a + size, |values| - 1, size);
      assert a + size <= at;
      LoadLEFrame(m, m1, a, size);
      StoredAppend(m, a + size, values[1..], size, at, v, num);
      assert (values + [num])[1..] == values[1..] + [num];
    }
  }

  /** The recursive statement of the stored items in indexed form: item `k`
      is the `size` bytes at `a + k * size`. */
  lemma {:induction false} StoredIndexed(m: Mem, a: nat, values: seq<int>, size: nat, k: nat)
    requires Stored(m, a, values, size) && k < |values|
    ensures LoadLE(m, a + k * size, size) == Encoded(values[k], size)
    decreases k
  {
    if k > 0 {
      StoredIndexed(m, a + size, values[1..], size, k - 1);
      NextSlot(a, k - 1, size);
    }
  }
}
