/** BITCOUNT and BITOP: counting set bits through masked bytes, and combining strings bit by bit. */
module BitCount {
  import opened Data
  import opened Bits

  // ---------------------------------------------------------------------------------------------
  // Counting
  // ---------------------------------------------------------------------------------------------

  /** The number of set bits at positions lo <= p < hi. */
  function Ones(buf: Bytes, lo: nat, hi: nat): nat
    decreases hi, buf, lo
  {
    if hi <= lo then 0 else Ones(buf, lo, hi - 1) + GetBit(buf, hi - 1)
  }

  ghost function SetPositions(buf: Bytes, lo: nat, hi: nat): set<nat> {
    set p: nat | lo <= p < hi && GetBit(buf, p) == 1
  }

  lemma {:induction false} OnesCountsPositions(buf: Bytes, lo: nat, hi: nat)
    ensures Ones(buf, lo, hi) == |SetPositions(buf, lo, hi)|
    decreases hi
  {
    if hi <= lo {
      assert SetPositions(buf, lo, hi) == {};
    } else {
      OnesCountsPositions(buf, lo, hi - 1);
      LastPosition(buf, lo, hi - 1);
    }
  }

  lemma LastPosition(buf: Bytes, lo: nat, last: nat)
    requires lo <= last
    ensures |SetPositions(buf, lo, last + 1)| == |SetPositions(buf, lo, last)| + GetBit(buf, last)
  {
    OneMore(SetPositions(buf, lo, last), SetPositions(buf, lo, last + 1), last, GetBit(buf, last));
  }

  lemma OneMore(rest: set<nat>, all: set<nat>, last: nat, b: bit)
    requires last !in rest && forall p :: p in all <==> p in rest || (p == last && b == 1)
    ensures |all| == |rest| + b
  {
    assert all == if b == 1 then rest + {last} else rest;
  }

  lemma {:induction false} OnesSplit(buf: Bytes, a: nat, b: nat, c: nat)
    requires a <= b <= c
    ensures Ones(buf, a, c) == Ones(buf, a, b) + Ones(buf, b, c)
    decreases c
  {
    if b < c {
      OnesSplit(buf, a, b, c - 1);
    }
  }

  lemma {:induction false} OnesPastEnd(buf: Bytes, lo: nat, hi: nat)
    requires 8 * |buf| <= lo
    ensures Ones(buf, lo, hi) == 0
    decreases hi
  {
    if lo < hi {
      OnesPastEnd(buf, lo, hi - 1);
    }
  }

  /** The set bits of one byte from bit lo up to, not including, bit hi. */
  function PopRange(b: byte, lo: nat, hi: nat): nat
    requires hi <= 8
    decreases hi, b, lo
  {
    if hi <= lo then 0 else PopRange(b, lo, hi - 1) + Bit(b, hi - 1)
  }

  /** count_ones */
  function PopCount(b: byte): nat {
    PopRange(b, 0, 8)
  }

  lemma {:induction false} OnesInByte(buf: Bytes, i: nat, lo: nat, hi: nat)
    requires i < |buf| && lo <= hi <= 8
    ensures Ones(buf, 8 * i + lo, 8 * i + hi) == PopRange(buf[i], lo, hi)
    decreases hi
  {
    if lo < hi {
      OnesInByte(buf, i, lo, hi - 1);
      BitInByte(buf, i, hi - 1);
    }
  }

  lemma BitInByte(buf: Bytes, i: nat, k: nat)
    requires i < |buf| && k < 8
    ensures GetBit(buf, 8 * i + k) == Bit(buf[i], k)
  {
    assert (8 * i + k) / 8 == i && (8 * i + k) % 8 == k;
  }

  // ---------------------------------------------------------------------------------------------
  // Masks
  // ---------------------------------------------------------------------------------------------

  function AndBit(x: bit, y: bit): bit {
    if x == 1 && y == 1 then 1 else 0
  }

  function OrBit(x: bit, y: bit): bit {
    if x == 1 || y == 1 then 1 else 0
  }

  function XorBit(x: bit, y: bit): bit {
    if x == y then 0 else 1
  }

  function ByteOp(op: (bit, bit) -> bit, x: byte, y: byte): byte {
    BytePower();
    CombineBelow(op, x, y, 8);
    Combine(op, x, y, 8)
  }

  lemma BitOfByteOp(op: (bit, bit) -> bit, x: byte, y: byte, k: nat)
    requires k < 8
    ensures Bit(ByteOp(op, x, y), k) == op(Bit(x, k), Bit(y, k))
  {
    BitOfCombine(op, x, y, 8, 7 - k);
  }

  /** 0xff >> skip */
  function FirstMask(skip: nat): byte
    requires skip < 8
  {
    ShrShrinks(0xFF, skip);
    Shr(0xFF, skip)
  }

  lemma {:induction false} ShrShrinks(n: nat, k: nat)
    ensures Shr(n, k) <= n
    decreases k
  {
    if k > 0 {
      ShrShrinks(n / 2, k - 1);
    }
  }

  /** 0xff << (7 - keep), as a byte */
  function LastMask(keep: nat): byte
    requires keep < 8
  {
    BytePower();
    LowBelow(Shl(0xFF, 7 - keep), 8);
    Low(Shl(0xFF, 7 - keep), 8)
  }

  lemma BitOfFirstMask(skip: nat, k: nat)
    requires skip < 8 && k < 8
    ensures Bit(FirstMask(skip), k) == if skip <= k then 1 else 0
  {
    BitOfShr(0xFF, skip, 7 - k);
    BitOfFF(7 - k + skip);
  }

  lemma BitOfLastMask(keep: nat, k: nat)
    requires keep < 8 && k < 8
    ensures Bit(LastMask(keep), k) == if k <= keep then 1 else 0
  {
    var shifted, j := Shl(0xFF, 7 - keep), 7 - k;
    BitOfLow(shifted, 8, j);
    BitOfShl(0xFF, 7 - keep, j);
    if k <= keep {
      BitOfFF(keep - k);
    }
  }

  lemma BitOfFF(j: nat)
    ensures BitAt(0xFF, j) == if j < 8 then 1 else 0
  {
    BytePower();
    BitOfOnes(8, j);
  }

  /** m is b cut down to the bits from lo up to hi. */
  ghost predicate CutTo(m: byte, b: byte, lo: nat, hi: nat) {
    forall k :: 0 <= k < 8 ==> Bit(m, k) == if lo <= k < hi then Bit(b, k) else 0
  }

  lemma {:induction false} PopOfCut(m: byte, b: byte, lo: nat, hi: nat, n: nat)
    requires CutTo(m, b, lo, hi) && lo <= hi <= 8 && n <= 8
    ensures PopRange(m, 0, n) == if n <= lo then 0 else PopRange(b, lo, if n <= hi then n else hi)
    decreases n
  {
    if n > 0 {
      PopOfCut(m, b, lo, hi, n - 1);
      assert Bit(m, n - 1) == if lo <= n - 1 < hi then Bit(b, n - 1) else 0;
    }
  }

  /** One turn of the byte loop: mask the first byte on the left and the last byte on the right. */
  method MaskedByte(b: byte, isFirst: bool, isLast: bool, skip: nat, keep: nat) returns (m: byte)
    requires skip < 8 && keep < 8
    ensures CutTo(m, b, if isFirst then skip else 0, if isLast then keep + 1 else 8)
  {
    m := b;
    if isFirst {
      m := ByteOp(AndBit, m, FirstMask(skip));
      forall k | 0 <= k < 8 ensures Bit(m, k) == if skip <= k then Bit(b, k) else 0 {
        BitOfByteOp(AndBit, b, FirstMask(skip), k);
        BitOfFirstMask(skip, k);
      }
    }
    if isLast {
      var n := m;
      m := ByteOp(AndBit, m, LastMask(keep));
      forall k | 0 <= k < 8 ensures Bit(m, k) == if k <= keep then Bit(n, k) else 0 {
        BitOfByteOp(AndBit, n, LastMask(keep), k);
        BitOfLastMask(keep, k);
      }
    }
  }

  lemma CutCounts(buf: Bytes, i: nat, lo: nat, hi: nat, m: byte)
    requires i < |buf| && lo <= hi <= 8 && CutTo(m, buf[i], lo, hi)
    ensures Ones(buf, 8 * i + lo, 8 * i + hi) == PopCount(m)
  {
    PopOfCut(m, buf[i], lo, hi, 8);
    OnesInByte(buf, i, lo, hi);
  }

  /** The ones up to byte i and those of its part that is kept. */
  lemma CountOn(buf: Bytes, startBit: nat, reached: nat, i: nat, lo: nat, hi: nat, m: byte)
    requires i < |buf| && lo <= hi <= 8 && CutTo(m, buf[i], lo, hi)
    requires startBit <= reached == 8 * i + lo
    ensures Ones(buf, startBit, 8 * i + hi) == Ones(buf, startBit, reached) + PopCount(m)
  {
    CutCounts(buf, i, lo, hi, m);
    OnesSplit(buf, startBit, reached, 8 * i + hi);
  }

  /** The masked byte loop counts exactly the set positions of the inclusive range. */
  method CountBitsRange(buf: Bytes, startBit: nat, endBit: nat) returns (count: nat)
    requires |buf| > 0 && startBit <= endBit
    ensures count == Ones(buf, startBit, endBit + 1)
  {
    count := 0;
    var firstByte, lastByte := startBit / 8, endBit / 8;
    var skip, keep := startBit % 8, endBit % 8;
    assert startBit == 8 * firstByte + skip && endBit == 8 * lastByte + keep;
    var upTo := Min(lastByte, |buf| - 1);
    var i := firstByte;
    ghost var reached := startBit;
    while i <= upTo
      invariant firstByte <= i && (i <= upTo + 1 || i == firstByte)
      invariant reached == if i == firstByte then startBit else Min(8 * i, endBit + 1)
      invariant count == Ones(buf, startBit, reached)
    {
      var m := MaskedByte(buf[i], i == firstByte, i == lastByte, skip, keep);
      ghost var lo := if i == firstByte then skip else 0;
      ghost var hi := if i == lastByte then keep + 1 else 8;
      CountOn(buf, startBit, reached, i, lo, hi, m);
      reached := 8 * i + hi;
      count := count + PopCount(m);
      i := i + 1;
    }
    OnesSplit(buf, startBit, reached, endBit + 1);
    if reached <= endBit {
      OnesPastEnd(buf, reached, endBit + 1);
    }
  }

  // ---------------------------------------------------------------------------------------------
  // BITCOUNT
  // ---------------------------------------------------------------------------------------------

  datatype Range = Whole | Part(start: int, end: int, bitMode: bool)

  /** The set positions a range asks for, with no mention of clamping. */
  ghost function Asked(buf: Bytes, range: Range): set<nat> {
    match range
    case Whole => SetPositions(buf, 0, 8 * |buf|)
    case Part(start, end, bitMode) =>
      var u := if bitMode then 1 else 8;
      var total := 8 * |buf| / u;
      set p | p in SetPositions(buf, 0, 8 * |buf|) && Resolve(start, total) <= p / u <= Resolve(end, total)
  }

  /** The whole-string count: the sum of the bytes' set bits. */
  method CountAll(buf: Bytes) returns (n: nat)
    ensures n == Ones(buf, 0, 8 * |buf|)
  {
    n := 0;
    for i := 0 to |buf|
      invariant n == Ones(buf, 0, 8 * i)
    {
      OnesInByte(buf, i, 0, 8);
      OnesSplit(buf, 0, 8 * i, 8 * i + 8);
      n := n + PopCount(buf[i]);
    }
  }

  /** Clamping the resolved ends into the string changes nothing. */
  lemma ClampedRange(buf: Bytes, range: Range, total: nat, s: int, e: int)
    requires range.Part? && total == if range.bitMode then 8 * |buf| else |buf|
    requires s == Max(Resolve(range.start, total), 0) && e == Min(Resolve(range.end, total), total - 1)
    ensures s > e ==> Asked(buf, range) == {}
    ensures s <= e && range.bitMode ==> Asked(buf, range) == SetPositions(buf, s, e + 1)
    ensures s <= e && !range.bitMode ==> Asked(buf, range) == SetPositions(buf, 8 * s, 8 * e + 8)
  {
    var all := SetPositions(buf, 0, 8 * |buf|);
    forall p: nat | p in all
      ensures range.bitMode ==> (p in Asked(buf, range) <==> s <= p <= e)
      ensures !range.bitMode ==> (p in Asked(buf, range) <==> 8 * s <= p <= 8 * e + 7)
    {
      if !range.bitMode {
        assert 8 * |buf| / 8 == |buf|;
        UnitOf(p, s, e);
        assert p / 8 < |buf|;
      }
    }
  }

  lemma UnitOf(p: nat, s: int, e: int)
    ensures s <= p / 8 <= e <==> 8 * s <= p <= 8 * e + 7
  {
  }

  /** BITCOUNT counts the set positions asked for; a missing key counts as empty. */
  method Bitcount(value: Option<Bytes>, range: Range) returns (n: nat)
    ensures value.None? ==> n == 0
    ensures value.Some? ==> n == |Asked(value.value, range)|
  {
    if value.None? {
      return 0;
    }
    var buf := value.value;
    if range.Whole? {
      n := CountAll(buf);
      OnesCountsPositions(buf, 0, 8 * |buf|);
      return;
    }
    var total := if range.bitMode then 8 * |buf| else |buf|;
    if total == 0 {
      assert SetPositions(buf, 0, 8 * |buf|) == {};
      return 0;
    }
    var s := if range.start < 0 then total + range.start else range.start;
    var e := if range.end < 0 then total + range.end else range.end;
    if s < 0 {
      s := 0;
    }
    if e >= total {
      e := total - 1;
    }
    ClampedRange(buf, range, total, s, e);
    if e < 0 || s > e {
      return 0;
    }
    var sb, eb := if range.bitMode then s else 8 * s, if range.bitMode then e else 8 * e + 7;
    n := CountBitsRange(buf, sb, eb);
    OnesCountsPositions(buf, sb, eb + 1);
  }

  /** Byte mode is bit mode on the scaled range, for every pair of indices, negative ones included. */
  lemma ByteModeIsScaledBitMode(buf: Bytes, start: int, end: int)
    ensures Asked(buf, Part(start, end, false)) == Asked(buf, Part(8 * start, 8 * end + 7, true))
  {
    var bytes, bits := Asked(buf, Part(start, end, false)), Asked(buf, Part(8 * start, 8 * end + 7, true));
    forall p ensures p in bytes <==> p in bits {
      if p in SetPositions(buf, 0, 8 * |buf|) {
        var s, e := Resolve(start, |buf|), Resolve(end, |buf|);
        assert Resolve(8 * start, 8 * |buf|) == 8 * s && Resolve(8 * end + 7, 8 * |buf|) == 8 * e + 7;
        UnitOf(p, s, e);
      }
    }
  }

  // ---------------------------------------------------------------------------------------------
  // BITOP
  // ---------------------------------------------------------------------------------------------

  datatype Op = And | Or | Xor | Not

  function ByteOr0(s: Bytes, i: nat): byte {
    if i < |s| then s[i] else 0
  }

  function MaxLen(sources: seq<Bytes>): (n: nat)
    ensures forall s :: s in sources ==> |s| <= n
    ensures sources != [] ==> exists s :: s in sources && |s| == n
    ensures sources == [] ==> n == 0
  {
    if sources == [] then 0
    else
      var rest, last := sources[..|sources| - 1], sources[|sources| - 1];
      var n := Max(MaxLen(rest), |last|);
      assert forall s :: s in sources <==> s in rest || s == last;
      n
  }

  function OpBit(op: Op): (bit, bit) -> bit {
    match op
    case And => AndBit
    case Or => OrBit
    case Xor => XorBit
    case Not => XorBit
  }

  /** What the loop over sources starts from. */
  function Start(op: Op): byte {
    if op == And then 0xFF else 0
  }

  /** Byte i of the result after the given sources. */
  function FoldByte(op: Op, sources: seq<Bytes>, i: nat): byte {
    if sources == [] then Start(op)
    else ByteOp(OpBit(op), FoldByte(op, sources[..|sources| - 1], i), ByteOr0(sources[|sources| - 1], i))
  }

  /** What a bit of the result must be. */
  ghost predicate ResultBit(op: Op, sources: seq<Bytes>, pos: nat, b: bit) {
    match op
    case And => b == 1 <==> forall s :: s in sources ==> GetBit(s, pos) == 1
    case Or => b == 1 <==> exists s :: s in sources && GetBit(s, pos) == 1
    case Xor => b == Parity(sources, pos)
    case Not => |sources| == 1 && b == 1 - GetBit(sources[0], pos)
  }

  function Parity(sources: seq<Bytes>, pos: nat): bit {
    if sources == [] then 0
    else (Parity(sources[..|sources| - 1], pos) + GetBit(sources[|sources| - 1], pos)) % 2
  }

  lemma BitOfByteOr0(s: Bytes, i: nat, k: nat)
    requires k < 8
    ensures Bit(ByteOr0(s, i), k) == GetBit(s, 8 * i + k)
  {
    assert (8 * i + k) / 8 == i && (8 * i + k) % 8 == k;
    BitOfZero(7 - k);
  }

  lemma {:induction false} FoldByteBits(op: Op, sources: seq<Bytes>, i: nat, k: nat)
    requires k < 8 && op != Not
    ensures ResultBit(op, sources, 8 * i + k, Bit(FoldByte(op, sources, i), k))
  {
    if sources == [] {
      BitOfFF(7 - k);
      BitOfZero(7 - k);
    } else {
      var rest, last := sources[..|sources| - 1], sources[|sources| - 1];
      FoldByteBits(op, rest, i, k);
      BitOfByteOp(OpBit(op), FoldByte(op, rest, i), ByteOr0(last, i), k);
      BitOfByteOr0(last, i, k);
      assert forall s :: s in sources <==> s in rest || s == last;
    }
  }

  /** BITOP on the fetched sources: the result string, or None for NOT with other than one source. */
  method Bitop(op: Op, sources: seq<Bytes>) returns (r: Option<Bytes>)
    requires sources != []
    ensures r.None? <==> op == Not && |sources| != 1
    ensures r.Some? ==> IsBitop(r.value, op, sources)
  {
    if op == Not && |sources| != 1 {
      return None;
    }
    var maxLen := MaxLen(sources);
    var result: Bytes := seq(maxLen, _ => 0);
    for i := 0 to maxLen
      invariant |result| == maxLen
      invariant forall pos :: 0 <= pos < 8 * i ==> ResultBit(op, sources, pos, GetBit(result, pos))
    {
      ghost var before := result;
      var v: byte := 0;
      if op == Not {
        assert sources[0] in sources && |sources[0]| == maxLen;
        v := ByteOp(XorBit, sources[0][i], 0xFF);
      } else {
        v := CombineSources(op, sources, i);
      }
      result := result[i := v];
      forall pos | 0 <= pos < 8 * i + 8 ensures ResultBit(op, sources, pos, GetBit(result, pos)) {
        if pos < 8 * i {
          assert GetBit(result, pos) == GetBit(before, pos);
        } else if op == Not {
          NotBit(sources[0], i, pos - 8 * i);
        } else {
          FoldByteBits(op, sources, i, pos - 8 * i);
        }
      }
    }
    r := Some(result);
  }

  lemma NotBit(s: Bytes, i: nat, k: nat)
    requires i < |s| && k < 8
    ensures Bit(ByteOp(XorBit, s[i], 0xFF), k) == 1 - GetBit(s, 8 * i + k)
  {
    BitOfByteOp(XorBit, s[i], 0xFF, k);
    BitInByte(s, i, k);
    BitOfFF(7 - k);
  }

  /** The inner loop over the sources, for one byte position. */
  method CombineSources(op: Op, sources: seq<Bytes>, i: nat) returns (v: byte)
    requires op != Not
    ensures v == FoldByte(op, sources, i)
  {
    v := Start(op);
    assert sources[..0] == [];
    for j := 0 to |sources|
      invariant v == FoldByte(op, sources[..j], i)
    {
      assert sources[..j + 1][..j] == sources[..j];
      v := ByteOp(OpBit(op), v, ByteOr0(sources[j], i));
    }
    assert sources[..|sources|] == sources;
  }

  /** r is what BITOP makes of the sources. */
  ghost predicate IsBitop(r: Bytes, op: Op, sources: seq<Bytes>) {
    && |r| == MaxLen(sources)
    && (forall pos :: 0 <= pos < 8 * |r| ==> ResultBit(op, sources, pos, GetBit(r, pos)))
  }

  lemma AndOrBits(a: Bytes, b: Bytes, pos: nat, x: bit, y: bit)
    requires ResultBit(And, [a, b], pos, x) && ResultBit(Or, [a, b], pos, y)
    ensures x + y == GetBit(a, pos) + GetBit(b, pos)
  {
    assert forall s :: s in [a, b] <==> s == a || s == b;
  }

  lemma {:induction false} CountsAddUpTo(a: Bytes, b: Bytes, both: Bytes, either: Bytes, n: nat)
    requires IsBitop(both, And, [a, b]) && IsBitop(either, Or, [a, b]) && n <= 8 * |both|
    ensures Ones(both, 0, n) + Ones(either, 0, n) == Ones(a, 0, n) + Ones(b, 0, n)
    decreases n
  {
    if n > 0 {
      CountsAddUpTo(a, b, both, either, n - 1);
      AndOrBits(a, b, n - 1, GetBit(both, n - 1), GetBit(either, n - 1));
    }
  }

  /** Over two sources of any lengths, the counts of AND and OR add up to the counts of the two. */
  lemma AndOrCountsAddUp(a: Bytes, b: Bytes, both: Bytes, either: Bytes)
    requires IsBitop(both, And, [a, b]) && IsBitop(either, Or, [a, b])
    ensures |Asked(both, Whole)| + |Asked(either, Whole)| == |Asked(a, Whole)| + |Asked(b, Whole)|
  {
    var n := 8 * |both|;
    assert a in [a, b] && b in [a, b];
    CountsAddUpTo(a, b, both, either, n);
    OnesSplit(a, 0, 8 * |a|, n);
    OnesPastEnd(a, 8 * |a|, n);
    OnesSplit(b, 0, 8 * |b|, n);
    OnesPastEnd(b, 8 * |b|, n);
    OnesCountsPositions(both, 0, n);
    OnesCountsPositions(either, 0, n);
    OnesCountsPositions(a, 0, 8 * |a|);
    OnesCountsPositions(b, 0, 8 * |b|);
  }
}
