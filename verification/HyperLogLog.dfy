/** PFADD, PFCOUNT and PFMERGE over string values that hold 16384 one-byte registers. */
module HyperLogLog {
  import opened Data
  import Bits

  const HLL_REGISTERS := 16384
  const HDR_LEN := 16
  /** "HYLL" */
  const MAGIC: Bytes := [0x48, 0x59, 0x4C, 0x4C]

  datatype Value = Str(bytes: Bytes) | NotString

  type Store = map<Bytes, Value>

  datatype Reply = Arity | WrongType | InvalidHll | Integer(n: int) | Done

  // ---------------------------------------------------------------------------------------------
  // Index and rank of an element
  // ---------------------------------------------------------------------------------------------

  function TrailingZeros(n: nat): nat
    requires n > 0
  {
    if n % 2 == 1 then 0 else 1 + TrailingZeros(n / 2)
  }

  /** It is the position of the lowest bit that is 1. */
  lemma {:induction false} TrailingZerosExactly(n: nat, k: nat)
    requires n > 0
    ensures TrailingZeros(n) == k <==> Bits.BitAt(n, k) == 1 && ZeroBits(n, 0, k)
    decreases k
  {
    if n % 2 == 1 {
      assert Bits.BitAt(n, 0) == 1;
    } else if k > 0 {
      TrailingZerosExactly(n / 2, k - 1);
      ShiftZeros(n, k);
    }
  }

  /** The bits of n at positions lo <= p < hi are 0. */
  ghost predicate ZeroBits(n: nat, lo: nat, hi: nat) {
    forall p :: lo <= p < hi ==> Bits.BitAt(n, p) == 0
  }

  lemma ShiftZeros(n: nat, k: nat)
    requires n % 2 == 0 && k > 0
    ensures ZeroBits(n, 0, k) <==> ZeroBits(n / 2, 0, k - 1)
  {
    if ZeroBits(n, 0, k) {
      forall j | 0 <= j < k - 1 ensures Bits.BitAt(n / 2, j) == 0 {
        assert Bits.BitAt(n, j + 1) == 0;
      }
    }
    if ZeroBits(n / 2, 0, k - 1) {
      forall j | 0 <= j < k ensures Bits.BitAt(n, j) == 0 {
        assert j > 0 ==> Bits.BitAt(n / 2, j - 1) == 0;
      }
    }
  }

  /** A marker bit at position k stops the count there. */
  lemma {:induction false} MarkerStopsCount(y: nat, k: nat)
    requires y < Pow2(k)
    ensures TrailingZeros(y + Pow2(k)) <= k
    decreases k
  {
    var n := y + Pow2(k);
    if k > 0 && n % 2 == 0 {
      MarkerStopsCount(y / 2, k - 1);
      assert n / 2 == y / 2 + Pow2(k - 1);
    }
  }

  /** The register index is the low 14 bits of the hash. */
  function Index(h: u64): nat {
    h % HLL_REGISTERS
  }

  /** One more than the number of trailing zeros of the other 50 bits, with a marker bit above them. */
  function Rank(h: u64): byte {
    RankInBounds(h);
    TrailingZeros(h / HLL_REGISTERS + 0x4_0000_0000_0000) + 1
  }

  lemma Pow50()
    ensures Pow2(50) == 0x4_0000_0000_0000
  {
    assert Pow2(10) == 0x400 && Pow2(20) == 0x10_0000 && Pow2(30) == 0x4000_0000;
    assert Pow2(40) == 0x100_0000_0000;
  }

  /** A rank lies between 1 and 51. */
  lemma RankInBounds(h: u64)
    ensures 1 <= TrailingZeros(h / HLL_REGISTERS + 0x4_0000_0000_0000) + 1 <= 51
  {
    Pow50();
    MarkerStopsCount(h / HLL_REGISTERS, 50);
  }

  lemma {:induction false} MarkerBit(y: nat, k: nat, j: nat)
    requires y < Pow2(k) && j <= k
    ensures Bits.BitAt(y + Pow2(k), j) == if j < k then Bits.BitAt(y, j) else 1
    decreases k
  {
    if k > 0 {
      var n := y + Pow2(k);
      assert n / 2 == y / 2 + Pow2(k - 1) && n % 2 == y % 2;
      if j > 0 {
        MarkerBit(y / 2, k - 1, j - 1);
      }
    }
  }

  lemma BitAbove(h: u64, j: nat)
    ensures Bits.BitAt(h / HLL_REGISTERS, j) == Bits.BitAt(h, 14 + j)
  {
    Bits.BitOfShr(h, 14, j);
    Bits.ShrIsQuotient(h, 14);
    Pow14();
  }

  lemma Pow14()
    ensures Pow2(14) == HLL_REGISTERS
  {
    assert Pow2(7) == 128;
  }

  /** The rank is k + 1 if and only if the k bits of the hash above the low 14 are 0 and the next one is 1, or there is
      no next one. */
  lemma RankExactly(h: u64, k: nat)
    requires k <= 50
    ensures Rank(h) == k + 1 <==> ZeroBits(h, 14, 14 + k) && (k == 50 || Bits.BitAt(h, 14 + k) == 1)
  {
    Pow50();
    var marked := h / HLL_REGISTERS + Pow2(50);
    TrailingZerosExactly(marked, k);
    MarkedBit(h, marked, k);
    if ZeroBits(marked, 0, k) {
      forall p | 14 <= p < 14 + k ensures Bits.BitAt(h, p) == 0 {
        MarkedBit(h, marked, p - 14);
      }
    }
    if ZeroBits(h, 14, 14 + k) {
      forall p | 0 <= p < k ensures Bits.BitAt(marked, p) == 0 {
        MarkedBit(h, marked, p);
      }
    }
  }

  lemma MarkedBit(h: u64, marked: nat, j: nat)
    requires marked == h / HLL_REGISTERS + Pow2(50) && j <= 50
    ensures Bits.BitAt(marked, j) == if j < 50 then Bits.BitAt(h, 14 + j) else 1
  {
    Pow50();
    MarkerBit(h / HLL_REGISTERS, 50, j);
    BitAbove(h, j);
  }

  /** The register is the one whose number has the low 14 bits of the hash. */
  lemma IndexExactly(h: u64, j: nat)
    ensures Index(h) < HLL_REGISTERS
    ensures Bits.BitAt(Index(h), j) == if j < 14 then Bits.BitAt(h, j) else 0
  {
    Pow14();
    Bits.LowIsRemainder(h, 14);
    Bits.BitOfLow(h, 14, j);
  }

  // ---------------------------------------------------------------------------------------------
  // Buffers
  // ---------------------------------------------------------------------------------------------

  predicate IsHll(buf: Bytes) {
    |buf| == HDR_LEN + HLL_REGISTERS && buf[..4] == MAGIC
  }

  function NewHll(): (buf: Bytes)
    ensures IsHll(buf) && forall i :: HDR_LEN <= i < |buf| ==> buf[i] == 0
  {
    MAGIC + seq(HDR_LEN + HLL_REGISTERS - 4, _ => 0)
  }

  /** Raise the register of one element to its rank. */
  function Raise(buf: Bytes, h: u64): (r: Bytes)
    requires IsHll(buf)
    ensures IsHll(r)
  {
    var at := HDR_LEN + Index(h);
    if Rank(h) > buf[at] then
      var r := buf[at := Rank(h)];
      assert r[..4] == buf[..4];
      r
    else buf
  }

  function RaiseAll(buf: Bytes, elems: seq<Bytes>, hash: Bytes -> u64): (r: Bytes)
    requires IsHll(buf)
    ensures IsHll(r)
  {
    if elems == [] then buf
    else Raise(RaiseAll(buf, elems[..|elems| - 1], hash), hash(elems[|elems| - 1]))
  }

  /** Raise the first n registers of buf to those of src. */
  function JoinFirst(buf: Bytes, src: Bytes, n: nat): (r: Bytes)
    requires IsHll(buf) && IsHll(src) && n <= HLL_REGISTERS
    ensures IsHll(r)
    ensures forall i :: 0 <= i < |r| ==>
                          r[i] == if HDR_LEN <= i < HDR_LEN + n then Max(buf[i], src[i]) else buf[i]
  {
    var r := seq(|buf|, i requires 0 <= i < |buf| =>
                          if HDR_LEN <= i < HDR_LEN + n then Max(buf[i], src[i]) else buf[i]);
    assert r[..4] == buf[..4];
    r
  }

  function Join(buf: Bytes, src: Bytes): (r: Bytes)
    requires IsHll(buf) && IsHll(src)
    ensures IsHll(r)
  {
    JoinFirst(buf, src, HLL_REGISTERS)
  }

  // ---------------------------------------------------------------------------------------------
  // What the registers mean
  // ---------------------------------------------------------------------------------------------

  /** Where a register's value can come from: an element added, or a buffer that was there at the start. */
  datatype Source = Elem(e: Bytes) | Initial(buf: Bytes)

  /** What a source asks of register i. */
  function RankAt(s: Source, i: nat, hash: Bytes -> u64): nat {
    match s
    case Elem(e) => if Index(hash(e)) == i then Rank(hash(e)) else 0
    case Initial(buf) => if HDR_LEN + i < |buf| then buf[HDR_LEN + i] else 0
  }

  /** Register i is the greatest rank any of the sources asks for, or 0 when there are none. */
  ghost predicate RegisterIs(r: int, i: nat, sources: set<Source>, hash: Bytes -> u64) {
    && (forall s :: s in sources ==> RankAt(s, i, hash) <= r)
    && (r == 0 || exists s :: s in sources && RankAt(s, i, hash) == r)
  }

  /** The buffer is the sketch of exactly these sources. */
  ghost predicate Sketches(buf: Bytes, sources: set<Source>, hash: Bytes -> u64) {
    && IsHll(buf)
    && (forall i :: HDR_LEN <= i < |buf| ==> RegisterIs(buf[i], i - HDR_LEN, sources, hash))
  }

  /** The buffers among the sources hold ranks that elements can have. */
  ghost predicate SmallInitials(sources: set<Source>) {
    forall s, k :: s in sources && s.Initial? && 0 <= k < |s.buf| ==> s.buf[k] <= 51 || k < HDR_LEN
  }

  /** A sketch's registers are determined by its sources; they lie between 0 and 51, unless a buffer that was there
      at the start went beyond. */
  lemma SketchDetermined(a: Bytes, b: Bytes, sources: set<Source>, hash: Bytes -> u64)
    requires Sketches(a, sources, hash) && Sketches(b, sources, hash)
    ensures a[HDR_LEN..] == b[HDR_LEN..]
    ensures SmallInitials(sources) ==> forall i :: HDR_LEN <= i < |a| ==> 0 <= a[i] <= 51
  {
    forall i | HDR_LEN <= i < |a| ensures a[i] == b[i] && (SmallInitials(sources) ==> 0 <= a[i] <= 51) {
      RegisterDetermined(a[i], b[i], i - HDR_LEN, sources, hash);
    }
  }

  lemma RegisterDetermined(r: byte, s: byte, i: nat, sources: set<Source>, hash: Bytes -> u64)
    requires RegisterIs(r, i, sources, hash) && RegisterIs(s, i, sources, hash)
    ensures r == s && (SmallInitials(sources) ==> r <= 51)
  {
    if r > 0 {
      var x :| x in sources && RankAt(x, i, hash) == r;
      if x.Elem? {
        RankInBounds(hash(x.e));
      }
    }
    if s > 0 {
      var x :| x in sources && RankAt(x, i, hash) == s;
    }
  }

  lemma NewSketch(hash: Bytes -> u64)
    ensures Sketches(NewHll(), {}, hash)
  {
  }

  /** A buffer is the sketch of itself. */
  lemma InitialSketch(buf: Bytes, hash: Bytes -> u64)
    requires IsHll(buf)
    ensures Sketches(buf, {Initial(buf)}, hash)
  {
    forall i | HDR_LEN <= i < |buf| ensures RegisterIs(buf[i], i - HDR_LEN, {Initial(buf)}, hash) {
      assert RankAt(Initial(buf), i - HDR_LEN, hash) == buf[i];
    }
  }

  lemma RaiseSketch(buf: Bytes, elems: set<Source>, e: Bytes, hash: Bytes -> u64)
    requires Sketches(buf, elems, hash)
    ensures Sketches(Raise(buf, hash(e)), elems + {Elem(e)}, hash)
  {
    var r := Raise(buf, hash(e));
    forall i | HDR_LEN <= i < |r| ensures RegisterIs(r[i], i - HDR_LEN, elems + {Elem(e)}, hash) {
      RaisedRegister(buf[i], r[i], i - HDR_LEN, elems, e, hash);
    }
  }

  lemma RaisedRegister(old': byte, new': byte, i: nat, elems: set<Source>, e: Bytes, hash: Bytes -> u64)
    requires RegisterIs(old', i, elems, hash)
    requires new' == if Index(hash(e)) == i then Max(old', Rank(hash(e))) else old'
    ensures RegisterIs(new', i, elems + {Elem(e)}, hash)
  {
    if new' != 0 && new' == old' {
      var w :| w in elems && RankAt(w, i, hash) == new';
      assert w in elems + {Elem(e)};
    } else if new' != 0 {
      assert RankAt(Elem(e), i, hash) == new';
      assert Elem(e) in elems + {Elem(e)};
    }
  }

  lemma {:induction false} RaiseAllSketch(buf: Bytes, elems: set<Source>, more: seq<Bytes>, hash: Bytes -> u64)
    requires Sketches(buf, elems, hash)
    ensures Sketches(RaiseAll(buf, more, hash), elems + Elements(more), hash)
  {
    if more == [] {
      assert elems + Elements(more) == elems;
    } else {
      var init, last := more[..|more| - 1], more[|more| - 1];
      RaiseAllSketch(buf, elems, init, hash);
      RaiseSketch(RaiseAll(buf, init, hash), elems + Elements(init), last, hash);
      assert elems + Elements(more) == elems + Elements(init) + {Elem(last)};
    }
  }

  function Elements(s: seq<Bytes>): set<Source> {
    set e | e in s :: Elem(e)
  }

  /** Joining sketches gives the sketch of the union. */
  lemma JoinSketch(a: Bytes, b: Bytes, x: set<Source>, y: set<Source>, hash: Bytes -> u64)
    requires Sketches(a, x, hash) && Sketches(b, y, hash)
    ensures Sketches(Join(a, b), x + y, hash)
  {
    var r := Join(a, b);
    forall i | HDR_LEN <= i < |r| ensures RegisterIs(r[i], i - HDR_LEN, x + y, hash) {
      JoinedRegister(a[i], b[i], i - HDR_LEN, x, y, hash);
    }
  }

  lemma JoinedRegister(r: byte, s: byte, i: nat, x: set<Source>, y: set<Source>, hash: Bytes -> u64)
    requires RegisterIs(r, i, x, hash) && RegisterIs(s, i, y, hash)
    ensures RegisterIs(Max(r, s), i, x + y, hash)
  {
    if r > 0 {
      var e :| e in x && RankAt(e, i, hash) == r;
      assert e in x + y;
    }
    if s > 0 {
      var e :| e in y && RankAt(e, i, hash) == s;
      assert e in x + y;
    }
  }

  // ---------------------------------------------------------------------------------------------
  // The commands as functions of the store
  // ---------------------------------------------------------------------------------------------

  datatype Loaded = Missing | Found(buf: Bytes) | Bad(reply: Reply)

  function Load(store: Store, key: Bytes): (r: Loaded)
    ensures r.Found? ==> IsHll(r.buf)
  {
    if key !in store then Missing
    else match store[key]
      case NotString => Bad(WrongType)
      case Str(s) => if IsHll(s) then Found(s) else Bad(InvalidHll)
  }

  /** The registers of the named keys joined into buf, or the first error met. */
  function JoinKeys(store: Store, buf: Bytes, keys: seq<Bytes>): (r: Loaded)
    requires IsHll(buf)
    ensures !r.Missing? && (r.Found? ==> IsHll(r.buf))
  {
    if keys == [] then Found(buf)
    else
      var sofar := JoinKeys(store, buf, keys[..|keys| - 1]);
      if sofar.Bad? then sofar
      else match Load(store, keys[|keys| - 1])
        case Missing => sofar
        case Found(src) => Found(Join(sofar.buf, src))
        case Bad(e) => Bad(e)
  }

  datatype Counted = Registers(regs: Bytes) | Failed(reply: Reply)

  /** Raise the first n of a bare row of registers to those of a buffer. */
  function CoverFirst(regs: Bytes, src: Bytes, n: nat): (r: Bytes)
    requires |regs| == HLL_REGISTERS && IsHll(src) && n <= HLL_REGISTERS
    ensures |r| == HLL_REGISTERS
  {
    seq(HLL_REGISTERS, i requires 0 <= i < HLL_REGISTERS => if i < n then Max(regs[i], src[HDR_LEN + i]) else regs[i])
  }

  /** The registers PFCOUNT gathers, or the first error met. */
  function CountKeys(store: Store, keys: seq<Bytes>): (r: Counted)
    ensures r.Registers? ==> |r.regs| == HLL_REGISTERS
  {
    if keys == [] then Registers(seq(HLL_REGISTERS, _ => 0))
    else
      var sofar := CountKeys(store, keys[..|keys| - 1]);
      if sofar.Failed? then sofar
      else match Load(store, keys[|keys| - 1])
        case Missing => sofar
        case Found(src) => Registers(CoverFirst(sofar.regs, src, HLL_REGISTERS))
        case Bad(e) => Failed(e)
  }

  predicate AnyFound(store: Store, keys: seq<Bytes>) {
    exists k :: k in keys && Load(store, k).Found?
  }

  datatype Command =
    | PfAdd(key: Bytes, elems: seq<Bytes>)
    | PfCount(keys: seq<Bytes>)
    | PfMerge(dest: Bytes, sources: seq<Bytes>)

  function StoreAfter(store: Store, cmd: Command, hash: Bytes -> u64): Store {
    match cmd
    case PfAdd(key, elems) =>
      (match Load(store, key)
       case Bad(_) => store
       case Missing => store[key := Str(RaiseAll(NewHll(), elems, hash))]
       case Found(buf) => store[key := Str(RaiseAll(buf, elems, hash))])
    case PfCount(_) => store
    case PfMerge(dest, sources) =>
      var joined := MergeResult(store, dest, sources);
      if joined.Bad? then store else store[dest := Str(joined.buf)]
  }

  /** What PFMERGE will store, or the first error it meets. */
  function MergeResult(store: Store, dest: Bytes, sources: seq<Bytes>): (r: Loaded)
    ensures !r.Missing? && (r.Found? ==> IsHll(r.buf))
  {
    match Load(store, dest)
    case Bad(e) => Bad(e)
    case Missing => JoinKeys(store, NewHll(), sources)
    case Found(buf) => JoinKeys(store, buf, sources)
  }

  // ---------------------------------------------------------------------------------------------
  // The command handlers
  // ---------------------------------------------------------------------------------------------

  /** The inner register loop of PFCOUNT. */
  method CoverRegisters(regs: Bytes, src: Bytes) returns (r: Bytes)
    requires |regs| == HLL_REGISTERS && IsHll(src)
    ensures r == CoverFirst(regs, src, HLL_REGISTERS)
  {
    r := regs;
    assert r == CoverFirst(regs, src, 0);
    for i := 0 to HLL_REGISTERS
      invariant r == CoverFirst(regs, src, i)
    {
      if src[HDR_LEN + i] > r[i] {
        r := r[i := src[HDR_LEN + i]];
      }
      assert r == CoverFirst(regs, src, i + 1);
    }
  }

  /** The inner register loop of PFMERGE. */
  method JoinRegisters(buf: Bytes, src: Bytes) returns (r: Bytes)
    requires IsHll(buf) && IsHll(src)
    ensures r == Join(buf, src)
  {
    r := buf;
    assert r == JoinFirst(buf, src, 0);
    for i := 0 to HLL_REGISTERS
      invariant r == JoinFirst(buf, src, i)
    {
      if src[HDR_LEN + i] > r[HDR_LEN + i] {
        r := r[HDR_LEN + i := src[HDR_LEN + i]];
      }
      assert r == JoinFirst(buf, src, i + 1);
    }
  }

  /** The loop of PFADD over the elements. */
  method RaiseElements(buf: Bytes, elems: seq<Bytes>, hash: Bytes -> u64) returns (r: Bytes, changed: bool)
    requires IsHll(buf)
    ensures r == RaiseAll(buf, elems, hash) && (changed <==> r != buf)
  {
    r, changed := buf, false;
    assert elems[..0] == [];
    for i := 0 to |elems|
      invariant IsHll(r) && r == RaiseAll(buf, elems[..i], hash)
      invariant changed <==> r != buf
      invariant forall k :: HDR_LEN <= k < |r| ==> buf[k] <= r[k]
    {
      var idx, rank := Index(hash(elems[i])), Rank(hash(elems[i]));
      assert elems[..i + 1][..i] == elems[..i];
      if rank > r[HDR_LEN + idx] {
        r := Raise(r, hash(elems[i]));
        assert r[HDR_LEN + idx] > buf[HDR_LEN + idx];
        changed := true;
      }
    }
    assert elems[..|elems|] == elems;
  }

  class Db {
    var keys: Store

    constructor (store: Store)
      ensures keys == store
    {
      keys := store;
    }

    method Pfadd(args: seq<Bytes>, hash: Bytes -> u64) returns (r: Reply)
      modifies this
      ensures args == [] ==> r == Arity && keys == old(keys)
      ensures args != [] ==> keys == StoreAfter(old(keys), PfAdd(args[0], args[1..]), hash)
      ensures args != [] && Load(old(keys), args[0]).Bad? ==> r == Load(old(keys), args[0]).reply
      ensures args != [] && args[0] in old(keys) && old(keys)[args[0]].NotString? ==> r == WrongType
      ensures args != [] && args[0] in old(keys) && old(keys)[args[0]].Str? && !IsHll(old(keys)[args[0]].bytes) ==>
                r == InvalidHll
      ensures args != [] && args[0] !in old(keys) ==> r == Integer(1) && args[0] in keys
      ensures args != [] && !Load(old(keys), args[0]).Bad? ==> r == Integer(if keys == old(keys) then 0 else 1)
    {
      if args == [] {
        return Arity;
      }
      var key, elems := args[0], args[1..];
      var buf, changed := [], false;
      match Load(keys, key) {
        case Bad(e) => return e;
        case Missing => buf, changed := NewHll(), true;
        case Found(b) => buf := b;
      }
      var raised;
      buf, raised := RaiseElements(buf, elems, hash);
      changed := changed || raised;
      if changed {
        keys := keys[key := Str(buf)];
      } else {
        assert keys[key := Str(buf)] == keys;
      }
      r := Integer(if changed then 1 else 0);
    }

    method Pfcount(args: seq<Bytes>, estimate: Bytes -> nat) returns (r: Reply)
      ensures args == [] ==> r == Arity
      ensures args != [] ==>
                match CountKeys(keys, args)
                case Failed(e) => r == e
                case Registers(merged) => r == Integer(if AnyFound(keys, args) then estimate(merged) else 0)
    {
      if args == [] {
        return Arity;
      }
      var merged: Bytes := seq(HLL_REGISTERS, _ => 0);
      var found := false;
      assert args[..0] == [];
      for i := 0 to |args|
        invariant CountKeys(keys, args[..i]) == Registers(merged)
        invariant found <==> AnyFound(keys, args[..i])
      {
        CountKeysPrefix(keys, args, i + 1);
        assert args[..i + 1][..i] == args[..i] && args[..i + 1][i] == args[i];
        assert forall k :: k in args[..i + 1] <==> k in args[..i] || k == args[i];
        match Load(keys, args[i])
        case Missing =>
        case Bad(e) => return e;
        case Found(src) =>
          found := true;
          merged := CoverRegisters(merged, src);
      }
      assert args[..|args|] == args;
      r := Integer(if found then estimate(merged) else 0);
    }

    method Pfmerge(args: seq<Bytes>) returns (r: Reply)
      modifies this
      ensures args == [] ==> r == Arity && keys == old(keys)
      ensures args != [] ==>
                match MergeResult(old(keys), args[0], args[1..])
                case Bad(e) => r == e && keys == old(keys)
                case Found(buf) => r == Done && keys == old(keys)[args[0] := Str(buf)]
    {
      if args == [] {
        return Arity;
      }
      var dest, sources := args[0], args[1..];
      var buf := [];
      match Load(keys, dest) {
        case Bad(e) => return e;
        case Missing => buf := NewHll();
        case Found(b) => buf := b;
      }
      ghost var start := buf;
      assert sources[..0] == [];
      for i := 0 to |sources|
        invariant keys == old(keys)
        invariant IsHll(buf) && JoinKeys(keys, start, sources[..i]) == Found(buf)
      {
        JoinKeysPrefix(keys, start, sources, i + 1);
        assert sources[..i + 1][..i] == sources[..i] && sources[..i + 1][i] == sources[i];
        match Load(keys, sources[i])
        case Missing =>
        case Bad(e) => return e;
        case Found(src) => buf := JoinRegisters(buf, src);
      }
      assert sources[..|sources|] == sources;
      keys := keys[dest := Str(buf)];
      r := Done;
    }
  }

  /** The outcome is an error if and only if some key holds no sketch, and then it is that of the first such key. */
  lemma {:induction false} FirstError(store: Store, buf: Bytes, keys: seq<Bytes>, e: Reply)
    requires IsHll(buf)
    ensures JoinKeys(store, buf, keys) == Bad(e) <==>
              exists i :: && 0 <= i < |keys| && Load(store, keys[i]) == Bad(e)
                          && forall j :: 0 <= j < i ==> !Load(store, keys[j]).Bad?
  {
    if keys != [] {
      var init := keys[..|keys| - 1];
      FirstError(store, buf, init, e);
      assert keys == init + [keys[|keys| - 1]];
      if JoinKeys(store, buf, init).Bad? {
        FirstError(store, buf, init, JoinKeys(store, buf, init).reply);
      } else {
        NoError(store, buf, init);
      }
    }
  }

  lemma {:induction false} NoError(store: Store, buf: Bytes, keys: seq<Bytes>)
    requires IsHll(buf) && !JoinKeys(store, buf, keys).Bad?
    ensures forall i :: 0 <= i < |keys| ==> !Load(store, keys[i]).Bad?
  {
    if keys != [] {
      NoError(store, buf, keys[..|keys| - 1]);
    }
  }

  /** An error among the first keys is the outcome for all of them. */
  lemma {:induction false} JoinKeysPrefix(store: Store, buf: Bytes, keys: seq<Bytes>, n: nat)
    requires IsHll(buf) && n <= |keys|
    ensures JoinKeys(store, buf, keys[..n]).Bad? ==> JoinKeys(store, buf, keys) == JoinKeys(store, buf, keys[..n])
    decreases |keys|
  {
    if n == |keys| {
      assert keys[..n] == keys;
    } else {
      var init := keys[..|keys| - 1];
      assert init[..n] == keys[..n];
      JoinKeysPrefix(store, buf, init, n);
    }
  }

  lemma {:induction false} CountKeysPrefix(store: Store, keys: seq<Bytes>, n: nat)
    requires n <= |keys|
    ensures CountKeys(store, keys[..n]).Failed? ==> CountKeys(store, keys) == CountKeys(store, keys[..n])
    decreases |keys|
  {
    if n == |keys| {
      assert keys[..n] == keys;
    } else {
      var init := keys[..|keys| - 1];
      assert init[..n] == keys[..n];
      CountKeysPrefix(store, init, n);
    }
  }

  // ---------------------------------------------------------------------------------------------
  // Runs
  // ---------------------------------------------------------------------------------------------

  /** The sources recorded under each key: what was there at the start and what a run has added. */
  type Contents = map<Bytes, set<Source>>

  function ContentsOf(c: Contents, key: Bytes): set<Source> {
    if key in c then c[key] else {}
  }

  function ContentsOfAll(c: Contents, keys: seq<Bytes>): set<Source> {
    set k, e | k in keys && k in c && e in c[k] :: e
  }

  /** What a command adds: PFADD its elements, PFMERGE everything under its sources; a command that
      meets a value it cannot read adds nothing. */
  function ContentsAfter(store: Store, c: Contents, cmd: Command): Contents {
    match cmd
    case PfAdd(key, elems) =>
      if Load(store, key).Bad? then c else c[key := ContentsOf(c, key) + Elements(elems)]
    case PfCount(_) => c
    case PfMerge(dest, sources) =>
      if Load(store, dest).Bad? || exists k :: k in sources && Load(store, k).Bad? then c
      else c[dest := ContentsOf(c, dest) + ContentsOfAll(c, sources)]
  }

  function StoreAfterRun(store: Store, run: seq<Command>, hash: Bytes -> u64): Store {
    if run == [] then store else StoreAfter(StoreAfterRun(store, run[..|run| - 1], hash), run[|run| - 1], hash)
  }

  function ContentsAfterRun(store: Store, c: Contents, run: seq<Command>, hash: Bytes -> u64): Contents {
    if run == [] then c
    else ContentsAfter(StoreAfterRun(store, run[..|run| - 1], hash),
                       ContentsAfterRun(store, c, run[..|run| - 1], hash), run[|run| - 1])
  }

  /** Exactly the keys with recorded contents hold HyperLogLogs, each the sketch of its contents. */
  ghost predicate Tracks(store: Store, c: Contents, hash: Bytes -> u64) {
    forall key :: (key in c <==> Load(store, key).Found?)
                  && (key in c ==> Sketches(Load(store, key).buf, c[key], hash))
  }

  lemma {:induction false} JoinKeysSketch(store: Store, c: Contents, buf: Bytes, elems: set<Source>, keys: seq<Bytes>,
                                          hash: Bytes -> u64)
    requires Tracks(store, c, hash) && Sketches(buf, elems, hash)
    ensures JoinKeys(store, buf, keys).Bad? <==> exists k :: k in keys && Load(store, k).Bad?
    ensures JoinKeys(store, buf, keys).Found? ==>
              Sketches(JoinKeys(store, buf, keys).buf, elems + ContentsOfAll(c, keys), hash)
  {
    if keys == [] {
      assert elems + ContentsOfAll(c, keys) == elems;
    } else {
      var init, last := keys[..|keys| - 1], keys[|keys| - 1];
      JoinKeysSketch(store, c, buf, elems, init, hash);
      assert forall k :: k in keys <==> k in init || k == last;
      var sofar := JoinKeys(store, buf, init);
      if sofar.Found? {
        assert elems + ContentsOfAll(c, keys) == (elems + ContentsOfAll(c, init)) + ContentsOf(c, last);
        if Load(store, last).Found? {
          JoinSketch(sofar.buf, Load(store, last).buf, elems + ContentsOfAll(c, init), c[last], hash);
        } else {
          assert ContentsOf(c, last) == {};
          assert (elems + ContentsOfAll(c, init)) + {} == elems + ContentsOfAll(c, init);
        }
      }
    }
  }

  /** The buffer a command starts from: what is there, or a fresh one. */
  lemma StartSketch(store: Store, c: Contents, key: Bytes, hash: Bytes -> u64) returns (buf: Bytes)
    requires Tracks(store, c, hash) && !Load(store, key).Bad?
    ensures Sketches(buf, ContentsOf(c, key), hash)
    ensures buf == if key in c then Load(store, key).buf else NewHll()
    ensures key in c <==> Load(store, key).Found?
  {
    if key in c {
      buf := Load(store, key).buf;
    } else {
      buf := NewHll();
      NewSketch(hash);
    }
  }

  lemma TracksUpdate(store: Store, c: Contents, key: Bytes, buf: Bytes, elems: set<Source>, hash: Bytes -> u64)
    requires Tracks(store, c, hash) && Sketches(buf, elems, hash)
    ensures Tracks(store[key := Str(buf)], c[key := elems], hash)
  {
    var s, d := store[key := Str(buf)], c[key := elems];
    forall k ensures (k in d <==> Load(s, k).Found?) && (k in d ==> Sketches(Load(s, k).buf, d[k], hash)) {
      if k != key {
        assert Load(s, k) == Load(store, k);
      }
    }
  }

  lemma StepTracks(store: Store, c: Contents, cmd: Command, hash: Bytes -> u64)
    requires Tracks(store, c, hash)
    ensures Tracks(StoreAfter(store, cmd, hash), ContentsAfter(store, c, cmd), hash)
  {
    match cmd
    case PfAdd(key, elems) =>
      if !Load(store, key).Bad? {
        var buf := StartSketch(store, c, key, hash);
        RaiseAllSketch(buf, ContentsOf(c, key), elems, hash);
        TracksUpdate(store, c, key, RaiseAll(buf, elems, hash), ContentsOf(c, key) + Elements(elems), hash);
      }
    case PfCount(_) =>
    case PfMerge(dest, sources) =>
      if !Load(store, dest).Bad? {
        var buf := StartSketch(store, c, dest, hash);
        JoinKeysSketch(store, c, buf, ContentsOf(c, dest), sources, hash);
        var joined := JoinKeys(store, buf, sources);
        if joined.Found? {
          TracksUpdate(store, c, dest, joined.buf, ContentsOf(c, dest) + ContentsOfAll(c, sources), hash);
        }
      }
  }

  /** Every HyperLogLog of a store, as the one source of its key. */
  function InitialContents(store: Store): Contents {
    map key | key in store && Load(store, key).Found? :: {Initial(Load(store, key).buf)}
  }

  lemma InitiallyTracks(store: Store, hash: Bytes -> u64)
    ensures Tracks(store, InitialContents(store), hash)
  {
    forall key | Load(store, key).Found? ensures Sketches(Load(store, key).buf, {Initial(Load(store, key).buf)}, hash) {
      InitialSketch(Load(store, key).buf, hash);
    }
  }

  /** Over any run of PF commands from any store, each register is the greatest of the ranks of the elements that
      went into its key, directly or by merging, and of that register in the buffers there were at the start. */
  lemma {:induction false} RunTracks(store: Store, run: seq<Command>, hash: Bytes -> u64)
    ensures Tracks(StoreAfterRun(store, run, hash), ContentsAfterRun(store, InitialContents(store), run, hash), hash)
  {
    if run == [] {
      InitiallyTracks(store, hash);
    } else {
      var init := run[..|run| - 1];
      RunTracks(store, init, hash);
      StepTracks(StoreAfterRun(store, init, hash), ContentsAfterRun(store, InitialContents(store), init, hash),
                 run[|run| - 1], hash);
    }
  }

  /** Two runs, from any two stores, that leave the same sources under a key leave the same registers there, however
      and in whatever order they got there. */
  lemma RegistersDependOnElementsOnly(s: Store, a: seq<Command>, t: Store, b: seq<Command>, hash: Bytes -> u64,
                                      key: Bytes)
    requires key in ContentsAfterRun(s, InitialContents(s), a, hash)
    requires key in ContentsAfterRun(t, InitialContents(t), b, hash)
    requires ContentsAfterRun(s, InitialContents(s), a, hash)[key] ==
               ContentsAfterRun(t, InitialContents(t), b, hash)[key]
    ensures var x, y := Load(StoreAfterRun(s, a, hash), key), Load(StoreAfterRun(t, b, hash), key);
            x.Found? && y.Found? && x.buf[HDR_LEN..] == y.buf[HDR_LEN..]
  {
    RunTracks(s, a, hash);
    RunTracks(t, b, hash);
    SketchDetermined(Load(StoreAfterRun(s, a, hash), key).buf, Load(StoreAfterRun(t, b, hash), key).buf,
                     ContentsAfterRun(s, InitialContents(s), a, hash)[key], hash);
  }

  lemma {:induction false} CountMatchesJoin(store: Store, keys: seq<Bytes>)
    ensures CountKeys(store, keys) == match JoinKeys(store, NewHll(), keys)
                                      case Bad(e) => Failed(e)
                                      case Found(buf) => Registers(buf[HDR_LEN..])
  {
    if keys == [] {
      assert NewHll()[HDR_LEN..] == seq(HLL_REGISTERS, _ => 0);
    } else {
      CountMatchesJoin(store, keys[..|keys| - 1]);
      var sofar := JoinKeys(store, NewHll(), keys[..|keys| - 1]);
      var last := Load(store, keys[|keys| - 1]);
      if sofar.Found? && last.Found? {
        CoverMatchesJoin(sofar.buf, last.buf);
      }
    }
  }

  lemma CoverMatchesJoin(buf: Bytes, src: Bytes)
    requires IsHll(buf) && IsHll(src)
    ensures CoverFirst(buf[HDR_LEN..], src, HLL_REGISTERS) == Join(buf, src)[HDR_LEN..]
  {
  }

  /** PFCOUNT of several keys estimates from exactly the registers that PFMERGE of those keys into a
      missing key would store, and fails exactly when that PFMERGE fails, with the same error. */
  lemma CountUsesMergedRegisters(store: Store, dest: Bytes, keys: seq<Bytes>, hash: Bytes -> u64)
    requires dest !in store
    ensures match CountKeys(store, keys)
            case Failed(e) => MergeResult(store, dest, keys) == Bad(e)
            case Registers(regs) =>
              && MergeResult(store, dest, keys).Found?
              && Load(StoreAfter(store, PfMerge(dest, keys), hash), dest).Found?
              && Load(StoreAfter(store, PfMerge(dest, keys), hash), dest).buf[HDR_LEN..] == regs
  {
    CountMatchesJoin(store, keys);
  }
}
