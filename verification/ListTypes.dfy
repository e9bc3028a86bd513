/** The cells of the CoreMark linked list, its two comparators and their side effects. */
module ListTypes {
  import opened Crc

  /** `ee_s16`: the type of the index and, seen as bits, of the data word. */
  type S16 = x: int | -0x8000 <= x < 0x8000

  class ListData {
    var data16: bv16
    var idx: S16

    constructor (data16: bv16, idx: S16)
      ensures this.data16 == data16 && this.idx == idx
    {
      this.data16 := data16;
      this.idx := idx;
    }
  }

  class ListHead {
    var next: ListHead?
    var info: ListData

    constructor (info: ListData)
      ensures this.info == info && this.next == null
    {
      this.info := info;
      this.next := null;
    }
  }

  /** The part of `core_results` that the list benchmark reads and writes. */
  class CoreResults {
    var crc: bv16
    var crcstate: bv16
    var crcmatrix: bv16
    var seed3: S16

    constructor (seed3: S16)
      ensures this.seed3 == seed3 && crc == crcstate == crcmatrix == 0
    {
      this.crc, this.crcstate, this.crcmatrix, this.seed3 := 0, 0, 0, seed3;
    }
  }

  /** The comparators `core_list_mergesort` can be given: the two the benchmark uses, and any
      comparison without side effects. */
  datatype Comparator = CmpComplex | CmpIdx | CmpPure(f: (ListData, ListData) -> int)

  // ----- what a data word holds -----

  function Low7(d: bv16): bv16 { d & 0x007f }

  function High(d: bv16): bv16 { d & 0xff00 }

  predicate Cached(d: bv16) { d & 0x0080 != 0 }

  /** The low byte is rebuilt from its backup, the high byte. */
  function Regen(d: bv16): bv16 { (d & 0xff00) | (0x00ff & (d >> 8)) }

  lemma RegenFacts(d: bv16)
    ensures Regen(Regen(d)) == Regen(d)
    ensures High(Regen(d)) == High(d)
  {}

  /** A word is what it is rebuilt to exactly when its high byte repeats its low byte. */
  lemma RebuiltExactlyWhen(d: bv16)
    ensures Regen(d) == d <==> d & 0x00ff == d >> 8
  {}

  /** Equal backups rebuild equal words: whatever happened to the low bytes is forgotten. */
  lemma RegenFromHigh(d: bv16, e: bv16)
    requires High(d) == High(e)
    ensures Regen(d) == Regen(e)
  {
    assert Regen(d) == High(d) | (0x00ff & (High(d) >> 8));
    assert Regen(e) == High(e) | (0x00ff & (High(e) >> 8));
  }

  lemma CacheFacts(d: bv16, r: bv16)
    ensures var e := (d & 0xff00) | 0x0080 | (r & 0x007f);
            Cached(e) && High(e) == High(d) && Low7(e) == r & 0x007f
  {}

  // ----- comparing -----

  /** The value of a data item. */
  datatype Val = Val(data16: bv16, idx: S16)

  ghost function ValOf(d: ListData): Val
    reads d
  {
    Val(d.data16, d.idx)
  }

  /** The item has been given to the comparator before: comparing it again changes nothing. */
  ghost predicate SeenVal(cmp: Comparator, regen: bool, x: Val) {
    match cmp
    case CmpComplex => Cached(x.data16)
    case CmpIdx => regen ==> Regen(x.data16) == x.data16
    case CmpPure(_) => true
  }

  /** What comparing may have done to an item whose value was `x` and is now `y`. */
  ghost predicate Evolves(cmp: Comparator, regen: bool, x: Val, y: Val) {
    && (SeenVal(cmp, regen, x) ==> y == x)
    && (y != x ==>
        && y.idx == x.idx
        && SeenVal(cmp, regen, y)
        && match cmp
           case CmpComplex => High(y.data16) == High(x.data16)
           case CmpIdx => regen && y.data16 == Regen(x.data16)
           case CmpPure(_) => false)
  }

  /** What the sign of a comparison says about the values the comparator leaves behind. */
  ghost predicate LeVal(cmp: Comparator, a: ListData, x: Val, b: ListData, y: Val) {
    match cmp
    case CmpComplex => Low7(x.data16) as int <= Low7(y.data16) as int
    case CmpIdx => x.idx <= y.idx
    case CmpPure(f) => f(a, b) <= 0
  }

  lemma CachedBit(d: bv16)
    ensures ((d >> 7) & 1 == 1) == Cached(d)
  {}

  /** The benchmark that an evaluation runs, with its arguments. */
  datatype Call = NoCall | StateCall(step: bv16, crc: bv16) | MatrixCall(val: bv16, crc: bv16)

  /** The argument from the bits 3 to 6 of a word, which are taken twice. */
  function ArgumentOf(d: bv16): (x: bv16)
    ensures x <= 0xff
  {
    17 * (d / 8 % 16)
  }

  /** What has to be run for a word: nothing if it is cached, or if its operation is none of the first two. */
  function CallOf(d: bv16, crc: bv16): (c: Call)
    ensures c.StateCall? ==> 0x22 <= c.step <= 0xff
  {
    if Cached(d) || d % 8 > 1 then NoCall
    else if d % 8 == 0 then StateCall(if ArgumentOf(d) < 0x22 then 0x22 else ArgumentOf(d), crc)
    else MatrixCall(ArgumentOf(d), crc)
  }

  lemma WordFields(d: bv16)
    ensures d & 0x7 == d % 8
    ensures ((d >> 3) & 0xf) | (((d >> 3) & 0xf) << 4) == ArgumentOf(d)
  {}

  /** The value of a word, when the benchmark that is run for it returns `result`. */
  function Evaluated(d: bv16, result: bv16): bv16 { if d % 8 > 1 then d else result }

  /** The CRC after a word has been evaluated. */
  function CrcAfter(d: bv16, result: bv16, crc: bv16): bv16 {
    if Cached(d) then crc else Crc16(Evaluated(d, result), crc)
  }

  /** The CRC goes from `crc` to `after` by evaluating a word. */
  ghost predicate CrcOfOne(d: bv16, crc: bv16, after: bv16) { exists x :: after == CrcAfter(d, x, crc) }

  /** The CRC goes from `crc` to `after` by evaluating two words in this order. */
  ghost predicate CrcOfBoth(d: bv16, e: bv16, crc: bv16, after: bv16) {
    exists x, y :: after == CrcAfter(e, y, CrcAfter(d, x, crc))
  }

  lemma CachedAddsNothing()
    ensures forall d, x, crc :: Cached(d) ==> CrcAfter(d, x, crc) == crc
  {}

  /**
   `calc_func`, and the call it makes. The state and matrix benchmarks are not part of this module; `result` is what the
   one that is called returns, which may be any value.
   */
  method CalcFunc(d: ListData, res: CoreResults, result: bv16) returns (r: bv16, call: Call)
    modifies d`data16, res`crc, res`crcstate, res`crcmatrix
    ensures r == Low7(d.data16)
    ensures r == Low7(if old(Cached(d.data16)) then old(d.data16) else Evaluated(old(d.data16), result))
    ensures Evolves(CmpComplex, false, old(ValOf(d)), ValOf(d)) && SeenVal(CmpComplex, false, ValOf(d))
    ensures call == CallOf(old(d.data16), old(res.crc)) && res.crc == CrcAfter(old(d.data16), result, old(res.crc))
    ensures res.crcstate == if call.StateCall? && old(res.crcstate) == 0 then result else old(res.crcstate)
    ensures res.crcmatrix == if call.MatrixCall? && old(res.crcmatrix) == 0 then result else old(res.crcmatrix)
  {
    hide Crc16, CrcBits, CallOf, Evaluated;
    var data := d.data16;
    CachedBit(data);
    CachedCalls(data, res.crc);
    if (data >> 7) & 1 == 1 {
      return data & 0x007f, NoCall;
    }
    var retval;
    retval, call := Evaluate(data, res, result);
    res.crc := Crcu16(retval, res.crc);
    CacheFacts(data, retval);
    d.data16 := (data & 0xff00) | 0x0080 | (retval & 0x007f);
    r := retval & 0x007f;
  }

  lemma CachedCalls(d: bv16, crc: bv16)
    ensures Cached(d) ==> CallOf(d, crc) == NoCall
  {}

  /** The `switch` of `calc_func`. */
  method Evaluate(data: bv16, res: CoreResults, result: bv16) returns (retval: bv16, call: Call)
    requires !Cached(data)
    modifies res`crcstate, res`crcmatrix
    ensures retval == Evaluated(data, result) && call == CallOf(data, res.crc)
    ensures res.crcstate == if call.StateCall? && old(res.crcstate) == 0 then result else old(res.crcstate)
    ensures res.crcmatrix == if call.MatrixCall? && old(res.crcmatrix) == 0 then result else old(res.crcmatrix)
  {
    hide ArgumentOf, Cached;
    WordFields(data);
    call := NoCall;
    var flag := data & 0x7;
    var dtype := (data >> 3) & 0xf;
    dtype := dtype | (dtype << 4);
    if flag == 0 {
      if dtype < 0x22 {
        dtype := 0x22;
      }
      call := StateCall(dtype, res.crc);
      retval := result;
      if res.crcstate == 0 { res.crcstate := retval; }
    } else if flag == 1 {
      call := MatrixCall(dtype, res.crc);
      retval := result;
      if res.crcmatrix == 0 { res.crcmatrix := retval; }
    } else {
      retval := data;
    }
  }

  /** `cmp_complex`: evaluate and cache both items, then compare the cached values. */
  method CompareComplex(a: ListData, b: ListData, res: CoreResults) returns (r: int)
    modifies a`data16, b`data16, res
    ensures res.seed3 == old(res.seed3)
    ensures r == Low7(a.data16) as int - Low7(b.data16) as int
    ensures Evolves(CmpComplex, false, old(ValOf(a)), ValOf(a)) && SeenVal(CmpComplex, false, ValOf(a))
    ensures Evolves(CmpComplex, false, old(ValOf(b)), ValOf(b)) && SeenVal(CmpComplex, false, ValOf(b))
    ensures a != b ==> CrcOfBoth(old(a.data16), old(b.data16), old(res.crc), res.crc)
    ensures a == b ==> CrcOfOne(old(a.data16), old(res.crc), res.crc)
  {
    hide Low7, High, Cached, Crc16, Evaluated, CrcAfter, CallOf;
    CachedAddsNothing();
    var x: bv16, y: bv16 := *, *;
    var val1, _ := CalcFunc(a, res, x);
    var val2, _ := CalcFunc(b, res, y);
    r := val1 as int - val2 as int;
  }

  /** `cmp_idx`: compare by index; without a results structure, also rebuild both items. */
  method CompareIdx(a: ListData, b: ListData, res: CoreResults?) returns (r: int)
    modifies a`data16, b`data16
    ensures r == a.idx - b.idx
    ensures res == null ==> a.data16 == Regen(old(a.data16)) && b.data16 == Regen(old(b.data16))
    ensures res != null ==> a.data16 == old(a.data16) && b.data16 == old(b.data16)
  {
    if res == null {
      RegenFacts(a.data16);
      a.data16 := Regen(a.data16);
      b.data16 := Regen(b.data16);
    }
    r := a.idx - b.idx;
  }

  /** A call through the comparator pointer that `core_list_mergesort` is given. */
  method Compare(cmp: Comparator, a: ListData, b: ListData, res: CoreResults?) returns (r: int)
    requires cmp.CmpComplex? ==> res != null
    modifies a`data16, b`data16, res
    ensures res != null ==> res.seed3 == old(res.seed3)
    ensures r <= 0 <==> LeVal(cmp, a, ValOf(a), b, ValOf(b))
    ensures Evolves(cmp, res == null, old(ValOf(a)), ValOf(a)) && SeenVal(cmp, res == null, ValOf(a))
    ensures Evolves(cmp, res == null, old(ValOf(b)), ValOf(b)) && SeenVal(cmp, res == null, ValOf(b))
  {
    RegenFacts(a.data16);
    RegenFacts(b.data16);
    match cmp
    case CmpComplex =>
      hide Low7, High, Cached, Regen;
      r := CompareComplex(a, b, res);
    case CmpIdx =>
      hide Low7, High, Cached, Regen;
      r := CompareIdx(a, b, res);
    case CmpPure(f) =>
      r := f(a, b);
  }
}
