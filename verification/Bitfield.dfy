/** BITFIELD: integers of any width up to 64 at any bit offset of a string, with overflow policies. */
module Bitfield {
  import opened Data
  import opened Bits

  datatype FieldType = FieldType(signed: bool, width: nat) {
    /** What the type parser lets through: i1 to i64 and u1 to u63. */
    predicate Supported() {
      1 <= width <= 64 && (!signed ==> width <= 63)
    }

    function Span(): nat {
      Pow2(width)
    }

    /** type_bounds */
    function MinValue(): int
      requires Supported()
    {
      if signed then 0 - Pow2(width - 1) else 0
    }

    function MaxValue(): int
      requires Supported()
    {
      if signed then Pow2(width - 1) - 1 else Pow2(width) - 1
    }

    predicate Holds(v: int)
      requires Supported()
    {
      MinValue() <= v <= MaxValue()
    }
  }

  datatype Overflow = Wrap | Sat | Fail

  // ---------------------------------------------------------------------------------------------
  // Reading and writing raw bits
  // ---------------------------------------------------------------------------------------------

  /** The `width` bits from bit `off`, read as a number, first bit most significant. */
  function Field(buf: Bytes, off: nat, width: nat): nat
    decreases width, buf, off
  {
    if width == 0 then 0 else 2 * Field(buf, off, width - 1) + GetBit(buf, off + width - 1)
  }

  lemma {:induction false} FieldBelow(buf: Bytes, off: nat, width: nat)
    ensures Field(buf, off, width) < Pow2(width)
    decreases width
  {
    if width > 0 {
      FieldBelow(buf, off, width - 1);
    }
  }

  lemma {:induction false} BitOfField(buf: Bytes, off: nat, width: nat, j: nat)
    requires j < width
    ensures BitAt(Field(buf, off, width), j) == GetBit(buf, off + width - 1 - j)
    decreases width
  {
    FieldHalves(buf, off, width, Field(buf, off, width));
    if j > 0 {
      BitOfField(buf, off, width - 1, j - 1);
    }
  }

  lemma FieldHalves(buf: Bytes, off: nat, width: nat, n: nat)
    requires width > 0 && n == Field(buf, off, width)
    ensures n % 2 == GetBit(buf, off + width - 1) && n / 2 == Field(buf, off, width - 1)
  {
  }

  method GetBits(buf: Bytes, off: nat, width: nat) returns (value: nat)
    ensures value == Field(buf, off, width)
  {
    value := 0;
    for i := 0 to width
      invariant value == Field(buf, off, i)
    {
      var pos := off + i;
      var b: bit := if pos / 8 < |buf| then BitAt(buf[pos / 8], 7 - pos % 8) else 0;
      value := 2 * value + b;
    }
  }

  /** Zero bytes appended up to length n. */
  function Padded(buf: Bytes, n: nat): (r: Bytes)
    ensures |r| == Max(|buf|, n)
  {
    if |buf| < n then buf + seq(n - |buf|, _ => 0) else buf
  }

  lemma GetPadded(buf: Bytes, n: nat, p: nat)
    ensures GetBit(Padded(buf, n), p) == GetBit(buf, p)
  {
    BitOfZero(7 - p % 8);
  }

  /** Bytes needed to hold the field. */
  function Needed(off: nat, width: nat): nat {
    (off + width + 7) / 8
  }

  /** The buffer after the first n turns of the writing loop. */
  function Stored(buf: Bytes, off: nat, width: nat, value: nat, n: nat): (r: Bytes)
    requires n <= width
    ensures |r| == Max(|buf|, Needed(off, width))
    decreases n, buf
  {
    if n == 0 then Padded(buf, Needed(off, width))
    else
      InsideNeeded(off, width, n - 1);
      WithBit(Stored(buf, off, width, value, n - 1), off + n - 1, BitAt(value, width - n))
  }

  lemma InsideNeeded(off: nat, width: nat, i: nat)
    requires i < width
    ensures (off + i) / 8 < Needed(off, width)
  {
  }

  method SetBits(buf: Bytes, off: nat, width: nat, value: nat) returns (r: Bytes)
    ensures r == Stored(buf, off, width, value, width)
  {
    r := Padded(buf, Needed(off, width));
    for i := 0 to width
      invariant r == Stored(buf, off, width, value, i)
    {
      InsideNeeded(off, width, i);
      var pos := off + i;
      var b := BitAt(value, width - 1 - i);
      r := WithBit(r, pos, b);
    }
  }

  /** The field's bits are the value's bits; every other bit is as before, past the old end 0. */
  lemma {:induction false} GetStored(buf: Bytes, off: nat, width: nat, value: nat, n: nat, p: nat)
    requires n <= width
    ensures GetBit(Stored(buf, off, width, value, n), p)
            == if off <= p < off + n then BitAt(value, width - 1 - (p - off)) else GetBit(buf, p)
    decreases n
  {
    if n == 0 {
      GetPadded(buf, Needed(off, width), p);
    } else {
      InsideNeeded(off, width, n - 1);
      GetStored(buf, off, width, value, n - 1, p);
      GetWithBit(Stored(buf, off, width, value, n - 1), off + n - 1, BitAt(value, width - n), p);
    }
  }

  /** What is written is read back, modulo 2^width. */
  lemma ReadBack(buf: Bytes, off: nat, width: nat, value: nat)
    ensures Field(Stored(buf, off, width, value, width), off, width) == value % Pow2(width)
  {
    var r := Stored(buf, off, width, value, width);
    var f := Field(r, off, width);
    forall j | 0 <= j < width ensures BitAt(f, j) == BitAt(Low(value, width), j) {
      BitOfField(r, off, width, j);
      GetStored(buf, off, width, value, width, off + width - 1 - j);
      BitOfLow(value, width, j);
    }
    FieldBelow(r, off, width);
    LowBelow(value, width);
    SameBits(f, Low(value, width), width);
    LowIsRemainder(value, width);
  }

  // ---------------------------------------------------------------------------------------------
  // Values and their encodings
  // ---------------------------------------------------------------------------------------------

  function DecodeValue(raw: nat, ty: FieldType): int
    requires ty.Supported()
  {
    if ty.signed && ty.width < 64 && BitAt(raw, ty.width - 1) == 1 then raw - ty.Span()
    else if ty.signed && ty.width == 64 then (if raw >= Pow2(63) then raw - Pow2(64) else raw)
    else raw
  }

  /** The value cut to 64 bits two's complement, then masked to the width. */
  function EncodeValue(val: int, ty: FieldType): nat
    requires ty.Supported()
  {
    Low(val % Pow2(64), ty.width)
  }

  lemma {:induction false} TopBit(raw: nat, w: nat)
    requires w > 0 && raw < Pow2(w)
    ensures BitAt(raw, w - 1) == 1 <==> raw >= Pow2(w - 1)
    decreases w
  {
    if w > 1 {
      TopBit(raw / 2, w - 1);
    }
  }

  /** Both signed branches are two's complement. */
  lemma DecodeIsTwosComplement(raw: nat, ty: FieldType)
    requires ty.Supported() && raw < ty.Span()
    ensures DecodeValue(raw, ty) == if ty.signed && raw >= Pow2(ty.width - 1) then raw - ty.Span() else raw
    ensures ty.Holds(DecodeValue(raw, ty))
  {
    TopBit(raw, ty.width);
  }

  lemma EncodeIsRemainder(val: int, ty: FieldType)
    requires ty.Supported()
    ensures EncodeValue(val, ty) == val % ty.Span() < ty.Span()
  {
    LowIsRemainder(val % Pow2(64), ty.width);
    RemainderTwice(val, ty.width, 64);
  }

  lemma {:induction false} PowAdd(a: nat, b: nat)
    ensures Pow2(a + b) == Pow2(b) * Pow2(a)
    decreases b
  {
    if b > 0 {
      PowAdd(a, b - 1);
      DoubleProduct(Pow2(b - 1), Pow2(a));
    }
  }

  lemma DoubleProduct(x: int, y: int)
    ensures 2 * (x * y) == (2 * x) * y
  {
  }

  lemma RemainderTwice(val: int, w: nat, m: nat)
    requires w <= m
    ensures (val % Pow2(m)) % Pow2(w) == val % Pow2(w)
  {
    PowAdd(w, m - w);
    RemainderOfRemainder(val, Pow2(m - w), Pow2(w));
  }

  lemma RemainderOfRemainder(v: int, k: nat, d: nat)
    requires k > 0 && d > 0 && k * d > 0
    ensures (v % (k * d)) % d == v % d
  {
    var q, r := v / (k * d), v % (k * d);
    var q', r' := r / d, r % d;
    assert v == q * (k * d) + q' * d + r';
    assert q * (k * d) + q' * d == (q * k + q') * d;
    RemainderIs(v, d, q * k + q', r');
  }

  lemma RemainderOfShift(v: int, d: nat)
    requires d > 0
    ensures (v + d) % d == v % d && (v - d) % d == v % d
  {
    var q, r := v / d, v % d;
    assert (q + 1) * d == q * d + d && (q - 1) * d == q * d - d;
    RemainderIs(v + d, d, q + 1, r);
    RemainderIs(v - d, d, q - 1, r);
  }

  /** Decoding undoes encoding on every value the type holds. */
  lemma DecodeOfEncode(val: int, ty: FieldType)
    requires ty.Supported() && ty.Holds(val)
    ensures DecodeValue(EncodeValue(val, ty), ty) == val
  {
    EncodeIsRemainder(val, ty);
    DecodeIsTwosComplement(EncodeValue(val, ty), ty);
    if val < 0 {
      RemainderIs(val, ty.Span(), -1, val + ty.Span());
    } else {
      RemainderIs(val, ty.Span(), 0, val);
    }
  }

  /** Encoding undoes decoding on every raw field. */
  lemma EncodeOfDecode(raw: nat, ty: FieldType)
    requires ty.Supported() && raw < ty.Span()
    ensures EncodeValue(DecodeValue(raw, ty), ty) == raw
  {
    var v := DecodeValue(raw, ty);
    EncodeIsRemainder(v, ty);
    DecodeIsTwosComplement(raw, ty);
    RemainderIs(raw, ty.Span(), 0, raw);
    RemainderOfShift(raw, ty.Span());
  }

  // ---------------------------------------------------------------------------------------------
  // Overflow
  // ---------------------------------------------------------------------------------------------

  /** None is the refusal of FAIL. */
  function ApplyOverflow(val: int, ty: FieldType, ovf: Overflow): Option<int>
    requires ty.Supported()
  {
    if ty.Holds(val) then Some(val)
    else match ovf
      case Fail => None
      case Sat => Some(if val < ty.MinValue() then ty.MinValue() else ty.MaxValue())
      case Wrap => Some((val - ty.MinValue()) % ty.Span() + ty.MinValue())
  }

  /** The value of the type congruent to val. */
  function Wrapped(val: int, ty: FieldType): int
    requires ty.Supported()
  {
    (val - ty.MinValue()) % ty.Span() + ty.MinValue()
  }

  lemma BoundsSpan(ty: FieldType)
    requires ty.Supported()
    ensures ty.MaxValue() == ty.MinValue() + ty.Span() - 1
  {
  }

  lemma WrapIsWrapped(val: int, ty: FieldType)
    requires ty.Supported()
    ensures ApplyOverflow(val, ty, Wrap) == Some(Wrapped(val, ty))
    ensures ty.Holds(Wrapped(val, ty))
    ensures Wrapped(val, ty) % ty.Span() == val % ty.Span()
  {
    BoundsSpan(ty);
    var min, m := ty.MinValue(), ty.Span();
    if ty.Holds(val) {
      RemainderIs(val - min, m, 0, val - min);
    }
    RemainderOfSum(val - min, min, m);
  }

  lemma RemainderOfSum(a: int, b: int, d: nat)
    requires d > 0
    ensures (a % d + b) % d == (a + b) % d
  {
    var q, r := a / d, a % d;
    var q', r' := (r + b) / d, (r + b) % d;
    assert a + b == q * d + (q' * d + r');
    assert q * d + q' * d == (q + q') * d;
    RemainderIs(a + b, d, q + q', r');
  }

  /** WRAP gives the one value of the type that is congruent modulo 2^width. */
  lemma WrapIsUnique(val: int, v: int, ty: FieldType)
    requires ty.Supported() && ty.Holds(v)
    ensures ApplyOverflow(val, ty, Wrap) == Some(v) <==> v % ty.Span() == val % ty.Span()
  {
    WrapIsWrapped(val, ty);
    BoundsSpan(ty);
    if v % ty.Span() == val % ty.Span() {
      SameRemainder(v, val, 0 - ty.MinValue(), ty.Span());
      RemainderIs(v - ty.MinValue(), ty.Span(), 0, v - ty.MinValue());
    }
  }

  lemma SameRemainder(a: int, b: int, c: int, d: nat)
    requires d > 0 && a % d == b % d
    ensures (a + c) % d == (b + c) % d
  {
    RemainderOfSum(a, c, d);
    RemainderOfSum(b, c, d);
  }

  function Distance(x: int, y: int): nat {
    if x < y then y - x else x - y
  }

  /** SAT gives the nearest value of the type; FAIL refuses exactly what the type does not hold. */
  lemma SatIsNearest(val: int, v: int, ty: FieldType)
    requires ty.Supported() && ty.Holds(v)
    ensures var r := ApplyOverflow(val, ty, Sat);
            r.Some? && ty.Holds(r.value) && Distance(val, r.value) <= Distance(val, v)
    ensures ApplyOverflow(val, ty, Fail) == if ty.Holds(val) then Some(val) else None
  {
    BoundsSpan(ty);
  }

  // ---------------------------------------------------------------------------------------------
  // The operation loop
  // ---------------------------------------------------------------------------------------------

  datatype Op =
    | Get(ty: FieldType, off: nat)
    | Set(ty: FieldType, off: nat, val: int)
    | IncrBy(ty: FieldType, off: nat, incr: int)
    | SetOverflow(mode: Overflow)
  {
    predicate Supported() {
      !SetOverflow? ==> ty.Supported()
    }
  }

  /** The loop's variables; a None result is the null reply. */
  datatype Progress = Progress(buf: Bytes, overflow: Overflow, results: seq<Option<int>>, dirty: bool)

  function Read(buf: Bytes, ty: FieldType, off: nat): int
    requires ty.Supported()
  {
    DecodeValue(Field(buf, off, ty.width), ty)
  }

  function Write(buf: Bytes, ty: FieldType, off: nat, v: int): Bytes
    requires ty.Supported()
  {
    Stored(buf, off, ty.width, EncodeValue(v, ty), ty.width)
  }

  function Apply(s: Progress, op: Op): Progress
    requires op.Supported()
  {
    match op
    case SetOverflow(m) => s.(overflow := m)
    case Get(ty, off) => s.(results := s.results + [Some(Read(s.buf, ty, off))])
    case Set(ty, off, val) =>
      (match ApplyOverflow(val, ty, s.overflow)
       case Some(v) =>
         Progress(Write(s.buf, ty, off, v), s.overflow, s.results + [Some(Read(s.buf, ty, off))], true)
       case None => s.(results := s.results + [None]))
    case IncrBy(ty, off, incr) =>
      (match ApplyOverflow(Read(s.buf, ty, off) + incr, ty, s.overflow)
       case Some(v) => Progress(Write(s.buf, ty, off, v), s.overflow, s.results + [Some(v)], true)
       case None => s.(results := s.results + [None]))
  }

  ghost predicate AllSupported(ops: seq<Op>) {
    forall i :: 0 <= i < |ops| ==> ops[i].Supported()
  }

  function ApplyAll(s: Progress, ops: seq<Op>): Progress
    requires AllSupported(ops)
  {
    if ops == [] then s else Apply(ApplyAll(s, ops[..|ops| - 1]), ops[|ops| - 1])
  }

  /** Read a field as a value of its type. */
  method ReadField(buf: Bytes, ty: FieldType, off: nat) returns (v: int)
    requires ty.Supported()
    ensures v == Read(buf, ty, off)
  {
    var raw := GetBits(buf, off, ty.width);
    v := DecodeValue(raw, ty);
  }

  /** Write a value of the type into a field. */
  method WriteField(buf: Bytes, ty: FieldType, off: nat, v: int) returns (r: Bytes)
    requires ty.Supported()
    ensures r == Write(buf, ty, off, v)
  {
    r := SetBits(buf, off, ty.width, EncodeValue(v, ty));
  }

  /** One turn of the loop. */
  method Step(s: Progress, op: Op) returns (t: Progress)
    requires op.Supported()
    ensures t == Apply(s, op)
  {
    t := s;
    match op
    case SetOverflow(m) =>
      t := t.(overflow := m);
    case Get(ty, off) =>
      var v := ReadField(s.buf, ty, off);
      t := t.(results := s.results + [Some(v)]);
    case Set(ty, off, val) =>
      var r := ApplyOverflow(val, ty, s.overflow);
      if r.Some? {
        var old' := ReadField(s.buf, ty, off);
        var buf := WriteField(s.buf, ty, off, r.value);
        t := Progress(buf, s.overflow, s.results + [Some(old')], true);
      } else {
        t := t.(results := s.results + [None]);
      }
    case IncrBy(ty, off, incr) =>
      var cur := ReadField(s.buf, ty, off);
      var r := ApplyOverflow(cur + incr, ty, s.overflow);
      if r.Some? {
        var buf := WriteField(s.buf, ty, off, r.value);
        t := Progress(buf, s.overflow, s.results + [r], true);
      } else {
        t := t.(results := s.results + [None]);
      }
  }

  /** The overflow mode in force after some operations. */
  function ModeAfter(mode: Overflow, ops: seq<Op>): Overflow {
    if ops == [] then mode
    else
      var last := ops[|ops| - 1];
      if last.SetOverflow? then last.mode else ModeAfter(mode, ops[..|ops| - 1])
  }

  /** On this string and under this mode the operation writes nothing: it is no write, or the type does not hold the
      value it would write and the mode is FAIL. */
  predicate WritesNothing(buf: Bytes, mode: Overflow, op: Op)
    requires op.Supported()
  {
    match op
    case Set(ty, _, val) => mode == Fail && !ty.Holds(val)
    case IncrBy(ty, off, incr) => mode == Fail && !ty.Holds(Read(buf, ty, off) + incr)
    case _ => true
  }

  /** Every write of the command is refused, judged by the string the command finds. */
  ghost predicate AllRefused(buf: Bytes, mode: Overflow, ops: seq<Op>)
    requires AllSupported(ops)
  {
    forall i :: 0 <= i < |ops| ==> WritesNothing(buf, ModeAfter(mode, ops[..i]), ops[i])
  }

  /** A refused write leaves everything as it was but for a null reply. */
  lemma RefusedStep(s: Progress, op: Op)
    requires op.Supported()
    ensures (op.Set? || op.IncrBy?) && WritesNothing(s.buf, s.overflow, op) ==>
              Apply(s, op) == s.(results := s.results + [None])
    ensures Apply(s, op).dirty <==> s.dirty || !WritesNothing(s.buf, s.overflow, op)
    ensures WritesNothing(s.buf, s.overflow, op) ==> Apply(s, op).buf == s.buf
    ensures Apply(s, op).overflow == if op.SetOverflow? then op.mode else s.overflow
  {
  }

  /** A command marks the string as written if and only if not every write is refused, judged by the string it finds;
      and otherwise that string is the one it ends with. */
  lemma {:induction false} RefusedCommand(s: Progress, ops: seq<Op>)
    requires AllSupported(ops) && !s.dirty
    ensures ApplyAll(s, ops).overflow == ModeAfter(s.overflow, ops)
    ensures !ApplyAll(s, ops).dirty <==> AllRefused(s.buf, s.overflow, ops)
    ensures !ApplyAll(s, ops).dirty ==> ApplyAll(s, ops).buf == s.buf
  {
    if ops != [] {
      var init := ops[..|ops| - 1];
      RefusedCommand(s, init);
      RefusedStep(ApplyAll(s, init), ops[|ops| - 1]);
      RefusedSplit(s.buf, s.overflow, ops);
    }
  }

  lemma RefusedSplit(buf: Bytes, mode: Overflow, ops: seq<Op>)
    requires AllSupported(ops) && ops != []
    ensures var init := ops[..|ops| - 1];
            AllRefused(buf, mode, ops) <==>
              AllRefused(buf, mode, init) && WritesNothing(buf, ModeAfter(mode, init), ops[|ops| - 1])
  {
    var init := ops[..|ops| - 1];
    forall i | 0 <= i < |init| ensures init[..i] == ops[..i] && init[i] == ops[i] {
    }
  }

  // ---------------------------------------------------------------------------------------------
  // What the operations do to the string
  // ---------------------------------------------------------------------------------------------

  /** A written value is read back, and every bit outside the field is as it was. */
  lemma WriteRead(buf: Bytes, ty: FieldType, off: nat, v: int)
    requires ty.Supported() && ty.Holds(v)
    ensures Read(Write(buf, ty, off, v), ty, off) == v
    ensures forall p: nat :: !(off <= p < off + ty.width) ==> GetBit(Write(buf, ty, off, v), p) == GetBit(buf, p)
  {
    ReadBack(buf, off, ty.width, EncodeValue(v, ty));
    EncodeIsRemainder(v, ty);
    RemainderIs(EncodeValue(v, ty), ty.Span(), 0, EncodeValue(v, ty));
    DecodeOfEncode(v, ty);
    forall p: nat | !(off <= p < off + ty.width) ensures GetBit(Write(buf, ty, off, v), p) == GetBit(buf, p) {
      GetStored(buf, off, ty.width, EncodeValue(v, ty), ty.width, p);
    }
  }

  /** No operation touches a bit outside its field. */
  lemma OpFrame(s: Progress, op: Op, p: nat)
    requires op.Supported() && !op.SetOverflow? && !(op.off <= p < op.off + op.ty.width)
    ensures GetBit(Apply(s, op).buf, p) == GetBit(s.buf, p)
  {
    if op.Set? {
      SetFrame(s, op.ty, op.off, op.val, p);
    } else if op.IncrBy? {
      IncrFrame(s, op.ty, op.off, op.incr, p);
    }
  }

  lemma SetFrame(s: Progress, ty: FieldType, off: nat, val: int, p: nat)
    requires ty.Supported() && !(off <= p < off + ty.width)
    ensures GetBit(Apply(s, Set(ty, off, val)).buf, p) == GetBit(s.buf, p)
  {
    WriteOverflow(s.buf, ty, off, val, s.overflow, p);
  }

  lemma IncrFrame(s: Progress, ty: FieldType, off: nat, incr: int, p: nat)
    requires ty.Supported() && !(off <= p < off + ty.width)
    ensures GetBit(Apply(s, IncrBy(ty, off, incr)).buf, p) == GetBit(s.buf, p)
  {
    WriteOverflow(s.buf, ty, off, Read(s.buf, ty, off) + incr, s.overflow, p);
  }

  lemma WriteOverflow(buf: Bytes, ty: FieldType, off: nat, val: int, ovf: Overflow, p: nat)
    requires ty.Supported() && !(off <= p < off + ty.width)
    ensures var r := ApplyOverflow(val, ty, ovf);
            r.Some? ==> GetBit(Write(buf, ty, off, r.value), p) == GetBit(buf, p)
  {
    var r := ApplyOverflow(val, ty, ovf);
    OverflowHolds(val, ty, ovf);
    if r.Some? {
      WriteRead(buf, ty, off, r.value);
    }
  }

  /** Whatever a policy lets through, the type holds. */
  lemma OverflowHolds(val: int, ty: FieldType, ovf: Overflow)
    requires ty.Supported()
    ensures var r := ApplyOverflow(val, ty, ovf); r.Some? ==> ty.Holds(r.value)
  {
    BoundsSpan(ty);
    WrapIsWrapped(val, ty);
  }

  /** From b to a the field takes the value v: it is read there, no bit outside the field changes, and the string grows
      only as far as the field reaches. */
  ghost predicate TakesValue(b: Bytes, a: Bytes, ty: FieldType, off: nat, v: int)
    requires ty.Supported()
  {
    && Read(a, ty, off) == v
    && (forall p: nat :: !(off <= p < off + ty.width) ==> GetBit(a, p) == GetBit(b, p))
    && |b| <= |a| && off + ty.width <= 8 * |a|
    && (|b| < |a| ==> 8 * (|a| - 1) < off + ty.width)
  }

  /** What one operation does to a string, and what it replies. SET replies the value that was there, INCRBY the one
      that is there then; a write that is refused replies null. */
  ghost predicate Effect(b: Bytes, a: Bytes, mode: Overflow, op: Op, replies: seq<Option<int>>)
    requires op.Supported()
  {
    match op
    case SetOverflow(_) => a == b && replies == []
    case Get(ty, off) => a == b && replies == [Some(Read(b, ty, off))]
    case Set(ty, off, val) =>
      var v := ApplyOverflow(val, ty, mode);
      if v.None? then a == b && replies == [None]
      else TakesValue(b, a, ty, off, v.value) && replies == [Some(Read(b, ty, off))]
    case IncrBy(ty, off, incr) =>
      var v := ApplyOverflow(Read(b, ty, off) + incr, ty, mode);
      if v.None? then a == b && replies == [None]
      else TakesValue(b, a, ty, off, v.value) && replies == [Some(Read(a, ty, off))]
  }

  lemma WriteTakes(buf: Bytes, ty: FieldType, off: nat, val: int, ovf: Overflow)
    requires ty.Supported()
    ensures var r := ApplyOverflow(val, ty, ovf);
            r.Some? ==> TakesValue(buf, Write(buf, ty, off, r.value), ty, off, r.value)
  {
    var r := ApplyOverflow(val, ty, ovf);
    OverflowHolds(val, ty, ovf);
    if r.Some? {
      WriteRead(buf, ty, off, r.value);
    }
  }

  lemma SetEffect(s: Progress, ty: FieldType, off: nat, val: int) returns (reply: Option<int>)
    requires ty.Supported()
    ensures Effect(s.buf, Apply(s, Set(ty, off, val)).buf, s.overflow, Set(ty, off, val), [reply])
    ensures Apply(s, Set(ty, off, val)).results == s.results + [reply]
  {
    var v := ApplyOverflow(val, ty, s.overflow);
    reply := if v.None? then None else Some(Read(s.buf, ty, off));
    if v.Some? {
      var a := Write(s.buf, ty, off, v.value);
      assert TakesValue(s.buf, a, ty, off, v.value) by {
        WriteTakes(s.buf, ty, off, val, s.overflow);
      }
      assert Apply(s, Set(ty, off, val)) == Progress(a, s.overflow, s.results + [reply], true);
    }
  }

  lemma IncrEffect(s: Progress, ty: FieldType, off: nat, incr: int) returns (reply: Option<int>)
    requires ty.Supported()
    ensures Effect(s.buf, Apply(s, IncrBy(ty, off, incr)).buf, s.overflow, IncrBy(ty, off, incr), [reply])
    ensures Apply(s, IncrBy(ty, off, incr)).results == s.results + [reply]
  {
    var sum := Read(s.buf, ty, off) + incr;
    reply := ApplyOverflow(sum, ty, s.overflow);
    if reply.Some? {
      var a := Write(s.buf, ty, off, reply.value);
      assert TakesValue(s.buf, a, ty, off, reply.value) by {
        WriteTakes(s.buf, ty, off, sum, s.overflow);
      }
      assert Apply(s, IncrBy(ty, off, incr)) == Progress(a, s.overflow, s.results + [reply], true);
    }
  }

  /** Every operation has its effect, its reply is added at the end, and OVERFLOW sets the mode. */
  lemma EffectOf(s: Progress, op: Op) returns (replies: seq<Option<int>>)
    requires op.Supported()
    ensures Effect(s.buf, Apply(s, op).buf, s.overflow, op, replies)
    ensures Apply(s, op).results == s.results + replies
    ensures Apply(s, op).overflow == if op.SetOverflow? then op.mode else s.overflow
  {
    match op
    case SetOverflow(_) =>
      replies := [];
      assert s.results + [] == s.results;
    case Get(ty, off) =>
      replies := [Some(Read(s.buf, ty, off))];
    case Set(ty, off, val) =>
      var reply := SetEffect(s, ty, off, val);
      replies := [reply];
    case IncrBy(ty, off, incr) =>
      var reply := IncrEffect(s, ty, off, incr);
      replies := [reply];
  }

  /** How many operations reply: all but OVERFLOW. */
  function Replying(ops: seq<Op>): nat {
    if ops == [] then 0 else Replying(ops[..|ops| - 1]) + if ops[|ops| - 1].SetOverflow? then 0 else 1
  }

  /** A course of strings from the first to the last, one operation at a time, each under the mode in force and with its
      reply in its place. */
  ghost predicate Played(bufs: seq<Bytes>, mode: Overflow, ops: seq<Op>, results: seq<Option<int>>)
    requires AllSupported(ops)
  {
    && |bufs| == |ops| + 1
    && |results| == Replying(ops)
    && forall i :: 0 <= i < |ops| ==> TurnPlayed(bufs, mode, ops, results, i)
  }

  ghost predicate TurnPlayed(bufs: seq<Bytes>, mode: Overflow, ops: seq<Op>, results: seq<Option<int>>, i: nat)
    requires AllSupported(ops) && i < |ops| && |bufs| == |ops| + 1
  {
    var at, next := Replying(ops[..i]), Replying(ops[..i + 1]);
    at <= next <= |results| && Effect(bufs[i], bufs[i + 1], ModeAfter(mode, ops[..i]), ops[i], results[at..next])
  }

  lemma TurnKept(bufs: seq<Bytes>, mode: Overflow, ops: seq<Op>, results: seq<Option<int>>, i: nat, buf: Bytes, op: Op,
                 replies: seq<Option<int>>)
    requires AllSupported(ops) && op.Supported() && i < |ops| && |bufs| == |ops| + 1
    requires TurnPlayed(bufs, mode, ops, results, i)
    ensures AllSupported(ops + [op]) && TurnPlayed(bufs + [buf], mode, ops + [op], results + replies, i)
  {
    var all := ops + [op];
    assert all[..i] == ops[..i] && all[..i + 1] == ops[..i + 1];
    var at, next := Replying(ops[..i]), Replying(ops[..i + 1]);
    assert (results + replies)[at..next] == results[at..next];
  }

  lemma PlayedNext(bufs: seq<Bytes>, mode: Overflow, ops: seq<Op>, results: seq<Option<int>>, buf: Bytes, op: Op,
                   replies: seq<Option<int>>)
    requires AllSupported(ops) && op.Supported() && Played(bufs, mode, ops, results)
    requires Effect(bufs[|ops|], buf, ModeAfter(mode, ops), op, replies)
    ensures AllSupported(ops + [op]) && Played(bufs + [buf], mode, ops + [op], results + replies)
  {
    var all := ops + [op];
    assert all[..|ops|] == ops && all[..|ops| + 1] == all;
    forall i | 0 <= i < |all| ensures TurnPlayed(bufs + [buf], mode, all, results + replies, i) {
      if i < |ops| {
        TurnKept(bufs, mode, ops, results, i, buf, op, replies);
      } else {
        assert (results + replies)[|results|..] == replies;
      }
    }
  }

  /** The whole loop: some course of strings leads from the string found to the one left, every operation having its
      effect and its reply in its place. */
  lemma {:induction false} EveryOperation(s: Progress, ops: seq<Op>) returns (bufs: seq<Bytes>)
    requires AllSupported(ops) && s.results == []
    ensures Played(bufs, s.overflow, ops, ApplyAll(s, ops).results)
    ensures bufs[0] == s.buf && bufs[|ops|] == ApplyAll(s, ops).buf
    ensures ApplyAll(s, ops).overflow == ModeAfter(s.overflow, ops)
  {
    if ops == [] {
      bufs := [s.buf];
    } else {
      var init, op := ops[..|ops| - 1], ops[|ops| - 1];
      var before := EveryOperation(s, init);
      var t := ApplyAll(s, init);
      var replies := EffectOf(t, op);
      assert ops == init + [op];
      PlayedNext(before, s.overflow, init, t.results, Apply(t, op).buf, op, replies);
      bufs := before + [Apply(t, op).buf];
    }
  }

  /** BITFIELD after its operations are parsed; `stored` is what the key is set to, if it is set. */
  method Bitfield(value: Option<Bytes>, ops: seq<Op>) returns (results: seq<Option<int>>, stored: Option<Bytes>)
    requires AllSupported(ops)
    ensures var end := ApplyAll(Progress(if value.Some? then value.value else [], Wrap, [], false), ops);
            && results == end.results
            && stored == (if end.dirty then Some(end.buf) else None)
    ensures stored.None? <==> AllRefused(if value.Some? then value.value else [], Wrap, ops)
    ensures exists bufs :: && Played(bufs, Wrap, ops, results)
                           && bufs[0] == (if value.Some? then value.value else [])
                           && bufs[|ops|] == if stored.Some? then stored.value else bufs[0]
  {
    var s := Progress(if value.Some? then value.value else [], Wrap, [], false);
    ghost var start := s;
    assert ops[..0] == [];
    for i := 0 to |ops|
      invariant s == ApplyAll(start, ops[..i])
    {
      assert ops[..i + 1][..i] == ops[..i];
      s := Step(s, ops[i]);
    }
    assert ops[..|ops|] == ops;
    RefusedCommand(start, ops);
    ghost var bufs := EveryOperation(start, ops);
    results, stored := s.results, if s.dirty then Some(s.buf) else None;
  }

  // ---------------------------------------------------------------------------------------------
  // Chains of increments
  // ---------------------------------------------------------------------------------------------

  function Sum(xs: seq<int>): int {
    if xs == [] then 0 else Sum(xs[..|xs| - 1]) + xs[|xs| - 1]
  }

  function Increments(ty: FieldType, off: nat, incrs: seq<int>): (ops: seq<Op>)
    requires ty.Supported()
    ensures |ops| == |incrs| && AllSupported(ops)
    ensures forall i :: 0 <= i < |ops| ==> ops[i] == IncrBy(ty, off, incrs[i])
  {
    seq(|incrs|, i requires 0 <= i < |incrs| => IncrBy(ty, off, incrs[i]))
  }

  lemma WrappedSum(a: int, b: int, ty: FieldType)
    requires ty.Supported()
    ensures Wrapped(Wrapped(a, ty) + b, ty) == Wrapped(a + b, ty)
  {
    RemainderOfSum(a - ty.MinValue(), b, ty.Span());
  }

  /** The progress after a chain of increments of one field. */
  function After(s: Progress, ty: FieldType, off: nat, incrs: seq<int>): Progress
    requires ty.Supported()
  {
    if incrs == [] then s else Apply(After(s, ty, off, incrs[..|incrs| - 1]), IncrBy(ty, off, incrs[|incrs| - 1]))
  }

  lemma {:induction false} AfterIsApplyAll(s: Progress, ty: FieldType, off: nat, incrs: seq<int>)
    requires ty.Supported()
    ensures ApplyAll(s, Increments(ty, off, incrs)) == After(s, ty, off, incrs)
  {
    if incrs != [] {
      var init := incrs[..|incrs| - 1];
      var ops := Increments(ty, off, incrs);
      assert ops[..|ops| - 1] == Increments(ty, off, init);
      AfterIsApplyAll(s, ty, off, init);
    }
  }

  lemma {:induction false} AfterAddsUp(s: Progress, ty: FieldType, off: nat, incrs: seq<int>, total: int)
    requires ty.Supported() && s.overflow == Wrap && total == Read(s.buf, ty, off) + Sum(incrs)
    ensures After(s, ty, off, incrs).overflow == Wrap
    ensures Read(After(s, ty, off, incrs).buf, ty, off) == Wrapped(total, ty)
  {
    if incrs == [] {
      ReadIsWrapped(s.buf, ty, off);
    } else {
      var init, last := incrs[..|incrs| - 1], incrs[|incrs| - 1];
      AfterAddsUp(s, ty, off, init, total - last);
      IncrementStep(After(s, ty, off, init), After(s, ty, off, incrs), ty, off, last, total - last, total);
    }
  }

  /** Any chain of WRAP increments on one field ends at the start plus their sum, wrapped once. */
  lemma ChainOfIncrements(s: Progress, ty: FieldType, off: nat, incrs: seq<int>, total: int)
    requires ty.Supported() && s.overflow == Wrap && total == Read(s.buf, ty, off) + Sum(incrs)
    ensures Read(ApplyAll(s, Increments(ty, off, incrs)).buf, ty, off) == Wrapped(total, ty)
  {
    AfterIsApplyAll(s, ty, off, incrs);
    AfterAddsUp(s, ty, off, incrs, total);
  }

  lemma ReadIsWrapped(buf: Bytes, ty: FieldType, off: nat)
    requires ty.Supported()
    ensures Read(buf, ty, off) == Wrapped(Read(buf, ty, off), ty)
  {
    FieldBelow(buf, off, ty.width);
    DecodeIsTwosComplement(Field(buf, off, ty.width), ty);
    WrapIsWrapped(Read(buf, ty, off), ty);
  }

  lemma IncrementStep(s: Progress, t: Progress, ty: FieldType, off: nat, incr: int, sum: int, total: int)
    requires ty.Supported() && s.overflow == Wrap && Read(s.buf, ty, off) == Wrapped(sum, ty) && total == sum + incr
    requires t == Apply(s, IncrBy(ty, off, incr))
    ensures t.overflow == Wrap && Read(t.buf, ty, off) == Wrapped(total, ty)
    ensures |t.buf| == Max(|s.buf|, Needed(off, ty.width))
  {
    var v := Wrapped(total, ty);
    WrappedSum(sum, incr, ty);
    WrapIsWrapped(Wrapped(sum, ty) + incr, ty);
    assert t.buf == Write(s.buf, ty, off, v);
    WriteRead(s.buf, ty, off, v);
  }

  /** The chain leaves every other bit alone, and only the first increment can lengthen the string. */
  lemma {:induction false} AfterFrame(s: Progress, ty: FieldType, off: nat, incrs: seq<int>, p: nat)
    requires ty.Supported() && s.overflow == Wrap && !(off <= p < off + ty.width)
    ensures GetBit(After(s, ty, off, incrs).buf, p) == GetBit(s.buf, p)
    ensures |After(s, ty, off, incrs).buf| == if incrs == [] then |s.buf| else Max(|s.buf|, Needed(off, ty.width))
  {
    if incrs != [] {
      var init, last := incrs[..|incrs| - 1], incrs[|incrs| - 1];
      AfterFrame(s, ty, off, init, p);
      var sum := Read(s.buf, ty, off) + Sum(init);
      AfterAddsUp(s, ty, off, init, sum);
      var mid := After(s, ty, off, init);
      OpFrame(mid, IncrBy(ty, off, last), p);
      IncrementStep(mid, Apply(mid, IncrBy(ty, off, last)), ty, off, last, sum, sum + last);
    }
  }

  /** Reordering the increments changes nothing: the resulting string is the same byte for byte. */
  lemma OrderOfIncrementsIrrelevant(s: Progress, ty: FieldType, off: nat, a: seq<int>, b: seq<int>)
    requires ty.Supported() && s.overflow == Wrap && multiset(a) == multiset(b)
    ensures ApplyAll(s, Increments(ty, off, a)).buf == ApplyAll(s, Increments(ty, off, b)).buf
  {
    AfterIsApplyAll(s, ty, off, a);
    AfterIsApplyAll(s, ty, off, b);
    SumOfPermutation(a, b);
    assert |multiset(a)| == |a| && |multiset(b)| == |b|;
    SameSumSameBuffer(s, ty, off, a, b);
  }

  lemma SameSumSameBuffer(s: Progress, ty: FieldType, off: nat, a: seq<int>, b: seq<int>)
    requires ty.Supported() && s.overflow == Wrap && Sum(a) == Sum(b) && |a| == |b|
    ensures After(s, ty, off, a).buf == After(s, ty, off, b).buf
  {
    var x, y := After(s, ty, off, a).buf, After(s, ty, off, b).buf;
    AfterFrame(s, ty, off, a, off + ty.width);
    AfterFrame(s, ty, off, b, off + ty.width);
    forall p: nat | 0 <= p < 8 * |x| ensures GetBit(x, p) == GetBit(y, p) {
      if off <= p < off + ty.width {
        var total := Read(s.buf, ty, off) + Sum(a);
        AfterAddsUp(s, ty, off, a, total);
        AfterAddsUp(s, ty, off, b, total);
        SameReadSameBit(x, y, ty, off, p);
      } else {
        AfterFrame(s, ty, off, a, p);
        AfterFrame(s, ty, off, b, p);
      }
    }
    SameBuffer(x, y);
  }

  lemma SameReadSameBit(x: Bytes, y: Bytes, ty: FieldType, off: nat, p: nat)
    requires ty.Supported() && Read(x, ty, off) == Read(y, ty, off) && off <= p < off + ty.width
    ensures GetBit(x, p) == GetBit(y, p)
  {
    SameField(x, y, ty, off);
    BitOfField(x, off, ty.width, off + ty.width - 1 - p);
    BitOfField(y, off, ty.width, off + ty.width - 1 - p);
  }

  lemma SameField(x: Bytes, y: Bytes, ty: FieldType, off: nat)
    requires ty.Supported() && Read(x, ty, off) == Read(y, ty, off)
    ensures Field(x, off, ty.width) == Field(y, off, ty.width)
  {
    FieldBelow(x, off, ty.width);
    FieldBelow(y, off, ty.width);
    EncodeOfDecode(Field(x, off, ty.width), ty);
    EncodeOfDecode(Field(y, off, ty.width), ty);
  }

  function Without(b: seq<int>, k: nat): seq<int>
    requires k < |b|
  {
    b[..k] + b[k + 1..]
  }

  lemma MultisetWithout(b: seq<int>, k: nat)
    requires k < |b|
    ensures multiset(Without(b, k)) == multiset(b) - multiset{b[k]}
  {
    assert b == b[..k] + [b[k]] + b[k + 1..];
  }

  lemma {:induction false} SumOfPermutation(a: seq<int>, b: seq<int>)
    requires multiset(a) == multiset(b)
    ensures Sum(a) == Sum(b)
    decreases |a|
  {
    assert |multiset(a)| == |a| && |multiset(b)| == |b|;
    if a != [] {
      var n := |a| - 1;
      assert a[n] in multiset(b);
      var k :| 0 <= k < |b| && b[k] == a[n];
      MultisetWithout(a, n);
      MultisetWithout(b, k);
      SumOfPermutation(Without(a, n), Without(b, k));
      SumWithout(a, n);
      SumWithout(b, k);
    }
  }

  lemma {:induction false} SumWithout(b: seq<int>, k: nat)
    requires k < |b|
    ensures Sum(b) == Sum(Without(b, k)) + b[k]
    decreases |b|
  {
    var init := b[..|b| - 1];
    var rest := Without(b, k);
    if k == |b| - 1 {
      assert rest == init;
    } else {
      SumWithout(init, k);
      assert rest[..|rest| - 1] == Without(init, k);
    }
  }
}
