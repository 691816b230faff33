/** The byte codec of RDB snapshots: lengths, strings, fixed-width integers and the six kinds of values. */
module RdbCodec {
  import opened Data
  import Streams

  type StreamId = Streams.StreamId
  type Pair = (Bytes, Bytes)

  datatype Error = InvalidMagic | UnexpectedEof | UnknownType(b: byte) | CrcMismatch

  datatype Parsed<+T> = Ok(value: T, pos: nat) | Fail(error: Error)

  type Parser<T> = (Bytes, nat) -> Parsed<T>

  const TWO_32: nat := 0x1_0000_0000
  const TWO_64: nat := 0x1_0000_0000_0000_0000

  // ---------------------------------------------------------------------------------------------
  // Printers and parsers that undo them
  // ---------------------------------------------------------------------------------------------

  /** The bytes `code` stand in the input at pos. */
  predicate At(input: Bytes, pos: nat, code: Bytes) {
    pos + |code| <= |input| && input[pos..pos + |code|] == code
  }

  lemma AtBoth(input: Bytes, pos: nat, a: Bytes, b: Bytes)
    ensures At(input, pos, a + b) <==> At(input, pos, a) && At(input, pos + |a|, b)
  {
    if pos + |a| + |b| <= |input| {
      var here := input[pos..pos + |a| + |b|];
      assert here[..|a|] == input[pos..pos + |a|];
      assert here[|a|..] == input[pos + |a|..pos + |a| + |b|];
      assert here == here[..|a|] + here[|a|..];
      assert (a + b)[..|a|] == a && (a + b)[|a|..] == b;
    }
  }

  /** Wherever the code stands, the parser reads x from it and stops right behind it. */
  ghost predicate Reads<T(!new)>(p: Parser<T>, code: Bytes, x: T) {
    forall input: Bytes, pos: nat {:trigger At(input, pos, code)} ::
      At(input, pos, code) ==> p(input, pos) == Ok(x, pos + |code|)
  }

  /** The parser reads x back from what x is printed as. */
  ghost predicate Undoes<T(!new)>(p: Parser<T>, c: T -> Bytes, x: T) {
    Reads(p, c(x), x)
  }

  /** One parser after another. */
  function Then<S, T>(p: Parser<S>, q: Parser<T>, input: Bytes, pos: nat): Parsed<(S, T)> {
    match p(input, pos)
    case Fail(e) => Fail(e)
    case Ok(x, mid) =>
      match q(input, mid)
      case Fail(e) => Fail(e)
      case Ok(y, end) => Ok((x, y), end)
  }

  lemma ThenBack<S(!new), T(!new)>(p: Parser<S>, q: Parser<T>, a: Bytes, b: Bytes, x: S, y: T, input: Bytes, pos: nat)
    requires Reads(p, a, x) && Reads(q, b, y) && At(input, pos, a + b)
    ensures Then(p, q, input, pos) == Ok((x, y), pos + |a + b|)
  {
    AtBoth(input, pos, a, b);
    assert p(input, pos) == Ok(x, pos + |a|);
    assert q(input, pos + |a|) == Ok(y, pos + |a| + |b|);
  }

  /** Success moves the position forward and keeps it inside the input. */
  ghost predicate Advances<T(!new)>(p: Parser<T>) {
    forall input: Bytes, pos: nat :: p(input, pos).Ok? ==> pos < p(input, pos).pos <= |input|
  }

  lemma ThenReads<S(!new), T(!new)>(p: Parser<S>, q: Parser<T>, a: Bytes, b: Bytes, x: S, y: T)
    requires Reads(p, a, x) && Reads(q, b, y)
    ensures forall input: Bytes, pos: nat :: At(input, pos, a + b) ==>
              Then(p, q, input, pos) == Ok((x, y), pos + |a + b|)
  {
    forall input: Bytes, pos: nat | At(input, pos, a + b) ensures Then(p, q, input, pos) == Ok((x, y), pos + |a + b|) {
      ThenBack(p, q, a, b, x, y, input, pos);
    }
  }

  /** A parser chosen by what the first one read. */
  function Bind<S, T>(p: Parser<S>, f: S -> Parser<T>, input: Bytes, pos: nat): Parsed<(S, T)> {
    match p(input, pos)
    case Fail(e) => Fail(e)
    case Ok(x, mid) =>
      match f(x)(input, mid)
      case Fail(e) => Fail(e)
      case Ok(y, end) => Ok((x, y), end)
  }

  /** What the parser reads from the whole input it reads from the first n bytes if it needs no more; if it needs
      more, those end too early. */
  ghost predicate CutAt<T(!new)>(p: Parser<T>, input: Bytes, pos: nat, n: nat)
    requires n <= |input|
  {
    p(input, pos).Ok? ==>
      && pos <= p(input, pos).pos <= |input|
      && p(input[..n], pos) == if p(input, pos).pos <= n then p(input, pos) else Fail(UnexpectedEof)
  }

  ghost predicate NeedsAll<T(!new)>(p: Parser<T>) {
    forall input: Bytes, pos: nat, n: nat {:trigger CutAt(p, input, pos, n)} :: pos <= n <= |input| ==>
      CutAt(p, input, pos, n)
  }

  lemma ThenCut<S(!new), T(!new)>(p: Parser<S>, q: Parser<T>, input: Bytes, pos: nat, n: nat)
    requires NeedsAll(p) && NeedsAll(q) && pos <= n <= |input|
    ensures var r := Then(p, q, input, pos);
            r.Ok? ==>
              && pos <= r.pos <= |input|
              && Then(p, q, input[..n], pos) == if r.pos <= n then r else Fail(UnexpectedEof)
  {
    assert CutAt(p, input, pos, n);
    if p(input, pos).Ok? {
      var mid := p(input, pos).pos;
      assert CutAt(q, input, mid, if mid <= n then n else |input|);
    }
  }

  lemma BindCut<S(!new), T(!new)>(p: Parser<S>, f: S -> Parser<T>, input: Bytes, pos: nat, n: nat)
    requires NeedsAll(p) && pos <= n <= |input| && (p(input, pos).Ok? ==> NeedsAll(f(p(input, pos).value)))
    ensures var r := Bind(p, f, input, pos);
            r.Ok? ==>
              && pos <= r.pos <= |input|
              && Bind(p, f, input[..n], pos) == if r.pos <= n then r else Fail(UnexpectedEof)
  {
    assert CutAt(p, input, pos, n);
    if p(input, pos).Ok? {
      var mid := p(input, pos).pos;
      assert CutAt(f(p(input, pos).value), input, mid, if mid <= n then n else |input|);
    }
  }

  // ---------------------------------------------------------------------------------------------
  // Little-endian integers
  // ---------------------------------------------------------------------------------------------

  function LittleEndian(n: nat, width: nat): (r: Bytes)
    ensures |r| == width
    decreases width, n
  {
    if width == 0 then [] else [n % 0x100] + LittleEndian(n / 0x100, width - 1)
  }

  function FromLittleEndian(s: Bytes): nat {
    if s == [] then 0
    else
      var low: int := s[0];
      low + 0x100 * FromLittleEndian(s[1..])
  }

  function Capacity(width: nat): nat
    decreases width
  {
    if width == 0 then 1 else 0x100 * Capacity(width - 1)
  }

  lemma {:induction false} LittleEndianBack(n: nat, width: nat)
    requires n < Capacity(width)
    ensures FromLittleEndian(LittleEndian(n, width)) == n
    decreases width
  {
    if width > 0 {
      assert n / 0x100 < Capacity(width - 1);
      LittleEndianBack(n / 0x100, width - 1);
      assert LittleEndian(n, width)[1..] == LittleEndian(n / 0x100, width - 1);
    }
  }

  lemma {:induction false} FromLittleEndianBound(s: Bytes)
    ensures FromLittleEndian(s) < Capacity(|s|)
  {
    if s != [] {
      FromLittleEndianBound(s[1..]);
    }
  }

  lemma Capacities()
    ensures Capacity(4) == TWO_32 && Capacity(8) == TWO_64
  {
    assert Capacity(4) == 0x100 * (0x100 * (0x100 * (0x100 * Capacity(0))));
    assert Capacity(8) == 0x100 * (0x100 * (0x100 * (0x100 * Capacity(4))));
  }

  function ParseFixed(input: Bytes, pos: nat, width: nat): Parsed<nat> {
    if pos + width > |input| then Fail(UnexpectedEof)
    else Ok(FromLittleEndian(input[pos..pos + width]), pos + width)
  }

  /** Byte i of a number, the least significant being byte 0. */
  function ByteOf(n: nat, i: nat): byte
    decreases i, n
  {
    if i == 0 then n % 0x100 else ByteOf(n / 0x100, i - 1)
  }

  /** The least significant byte is printed first, and taken for it when it is read. */
  lemma {:induction false} LittleEndianBytes(n: nat, width: nat, i: nat)
    requires i < width
    ensures LittleEndian(n, width)[i] == ByteOf(n, i)
    decreases width
  {
    if i > 0 {
      LittleEndianBytes(n / 0x100, width - 1, i - 1);
    }
  }

  lemma {:induction false} FromLittleEndianBytes(s: Bytes, i: nat)
    requires i < |s|
    ensures ByteOf(FromLittleEndian(s), i) == s[i]
  {
    var low: int := s[0];
    var rest := FromLittleEndian(s[1..]);
    assert (low + 0x100 * rest) / 0x100 == rest && (low + 0x100 * rest) % 0x100 == low;
    if i > 0 {
      FromLittleEndianBytes(s[1..], i - 1);
    }
  }

  /** The number in the next `width` bytes is read, if there are as many. */
  ghost predicate ReadsNumber(r: Parsed<nat>, input: Bytes, pos: nat, width: nat) {
    if pos + width > |input| then r == Fail(UnexpectedEof)
    else
      && r.Ok? && r.pos == pos + width && r.value < Capacity(width)
      && forall i :: 0 <= i < width ==> ByteOf(r.value, i) == input[pos + i]
  }

  lemma FixedReads(input: Bytes, pos: nat, width: nat)
    ensures ReadsNumber(ParseFixed(input, pos, width), input, pos, width)
  {
    if pos + width <= |input| {
      var s := input[pos..pos + width];
      FromLittleEndianBound(s);
      forall i | 0 <= i < width ensures ByteOf(FromLittleEndian(s), i) == input[pos + i] {
        FromLittleEndianBytes(s, i);
      }
    }
  }

  lemma FixedBack(input: Bytes, pos: nat, n: nat, width: nat)
    requires n < Capacity(width) && At(input, pos, LittleEndian(n, width))
    ensures ParseFixed(input, pos, width) == Ok(n, pos + width)
  {
    LittleEndianBack(n, width);
  }

  function U64Code(n: u64): Bytes {
    LittleEndian(n, 8)
  }

  function ParseU64(input: Bytes, pos: nat): Parsed<u64> {
    match ParseFixed(input, pos, 8)
    case Fail(e) => Fail(e)
    case Ok(n, q) =>
      FromLittleEndianBound(input[pos..pos + 8]);
      Capacities();
      Ok(n, q)
  }

  lemma U64Back(n: u64)
    ensures Undoes(ParseU64, U64Code, n)
  {
    Capacities();
    forall input: Bytes, pos: nat | At(input, pos, U64Code(n))
      ensures ParseU64(input, pos) == Ok(n, pos + |U64Code(n)|)
    {
      FixedBack(input, pos, n, 8);
    }
  }

  // ---------------------------------------------------------------------------------------------
  // Lengths: one, two or five bytes
  // ---------------------------------------------------------------------------------------------

  /** encode_length: the long form keeps only the low 32 bits. */
  function LengthCode(len: nat): Bytes {
    if len < 0x40 then [len]
    else if len < 0x4000 then [0x40 + len / 0x100, len % 0x100]
    else [0x80] + LittleEndian(len % TWO_32, 4)
  }

  /** decode_length, with the three integer encodings it also accepts. */
  function ParseLength(input: Bytes, pos: nat): (r: Parsed<nat>)
    ensures r.Ok? ==> pos < r.pos <= |input|
  {
    if pos >= |input| then Fail(UnexpectedEof)
    else
      var first: int := input[pos];
      if first < 0x40 then Ok(first, pos + 1)
      else if first < 0x80 then
        if pos + 1 >= |input| then Fail(UnexpectedEof)
        else
          var second: int := input[pos + 1];
          Ok((first - 0x40) * 0x100 + second, pos + 2)
      else if first == 0x80 then ParseFixed(input, pos + 1, 4)
      else if first < 0xC0 then Fail(InvalidMagic)
      else if first == 0xC0 then ParseFixed(input, pos + 1, 1)
      else if first == 0xC1 then ParseFixed(input, pos + 1, 2)
      else if first == 0xC2 then ParseFixed(input, pos + 1, 4)
      else Fail(InvalidMagic)
  }

  /** What the bytes of a length mean, the forms no length is printed in included. The first byte decides: below 64 it
      is the length; below 128 its low six bits are the high byte and the next byte is the low one; 0x80, 0xC0, 0xC1
      and 0xC2 announce a number of four, one, two and four bytes; anything else is refused. */
  lemma LengthForms(input: Bytes, pos: nat)
    ensures pos >= |input| ==> ParseLength(input, pos) == Fail(UnexpectedEof)
    ensures pos < |input| ==>
              var r, first: int := ParseLength(input, pos), input[pos];
              if first < 64 then r == Ok(first, pos + 1)
              else if first < 128 then
                if pos + 1 >= |input| then r == Fail(UnexpectedEof)
                else r.Ok? && r.pos == pos + 2 && r.value / 256 == first % 64 && r.value % 256 == input[pos + 1]
              else if first == 0xC0 then ReadsNumber(r, input, pos + 1, 1)
              else if first == 0xC1 then ReadsNumber(r, input, pos + 1, 2)
              else if first == 0x80 || first == 0xC2 then ReadsNumber(r, input, pos + 1, 4)
              else r == Fail(InvalidMagic)
  {
    FixedReads(input, pos + 1, 1);
    FixedReads(input, pos + 1, 2);
    FixedReads(input, pos + 1, 4);
  }

  /** A length is printed in the shortest of the forms of one, two and five bytes. */
  lemma LengthWidth(len: nat)
    ensures |LengthCode(len)| == if len < 64 then 1 else if len < 16384 then 2 else 5
    ensures len >= 16384 ==> LengthCode(len)[0] == 0x80
  {
  }

  /** What a printed length reads back as. */
  function Kept(len: nat): nat {
    if len < 0x4000 then len else len % TWO_32
  }

  lemma ParseLengthOfCode(input: Bytes, pos: nat, len: nat)
    requires At(input, pos, LengthCode(len))
    ensures ParseLength(input, pos) == Ok(Kept(len), pos + |LengthCode(len)|)
  {
    var code := LengthCode(len);
    assert input[pos..pos + |code|][0] == input[pos] == code[0];
    if len < 0x40 {
    } else if len < 0x4000 {
      assert input[pos..pos + |code|][1] == input[pos + 1] == code[1];
    } else {
      AtBoth(input, pos, [0x80], LittleEndian(len % TWO_32, 4));
      Capacities();
      FixedBack(input, pos + 1, len % TWO_32, 4);
    }
  }

  lemma LengthReads(len: nat)
    ensures Reads(ParseLength, LengthCode(len), Kept(len))
  {
    forall input: Bytes, pos: nat | At(input, pos, LengthCode(len))
      ensures ParseLength(input, pos) == Ok(Kept(len), pos + |LengthCode(len)|)
    {
      ParseLengthOfCode(input, pos, len);
    }
  }

  /** A printed length reads back as itself exactly when it is below 2^32. */
  lemma LengthBack(len: nat)
    ensures Undoes(ParseLength, LengthCode, len) <==> len < TWO_32
  {
    LengthReads(len);
    if len >= TWO_32 {
      var code := LengthCode(len);
      assert At(code, 0, code) by { assert code[0..|code|] == code; }
      assert Kept(len) != len;
    }
  }

  // ---------------------------------------------------------------------------------------------
  // Strings
  // ---------------------------------------------------------------------------------------------

  function StringCode(s: Bytes): Bytes {
    LengthCode(|s|) + s
  }

  function ParseString(input: Bytes, pos: nat): (r: Parsed<Bytes>)
    ensures r.Ok? ==> pos < r.pos <= |input|
  {
    match ParseLength(input, pos)
    case Fail(e) => Fail(e)
    case Ok(len, q) => if q + len > |input| then Fail(UnexpectedEof) else Ok(input[q..q + len], q + len)
  }

  /** A string that is read is the bytes right behind its length, as they stand. */
  lemma StringForm(input: Bytes, pos: nat)
    ensures var len, r := ParseLength(input, pos), ParseString(input, pos);
            && (len.Fail? ==> r == Fail(len.error))
            && (len.Ok? ==> (r.Ok? <==> len.pos + len.value <= |input|) && (r.Fail? ==> r.error == UnexpectedEof))
            && (r.Ok? ==>
                 && r.pos == len.pos + len.value && |r.value| == len.value
                 && forall i :: 0 <= i < len.value ==> r.value[i] == input[len.pos + i])
  {
  }

  lemma StringAt(input: Bytes, pos: nat, s: Bytes)
    requires At(input, pos, StringCode(s))
    ensures Kept(|s|) <= |s|
    ensures ParseString(input, pos) == Ok(s[..Kept(|s|)], pos + |LengthCode(|s|)| + Kept(|s|))
  {
    AtBoth(input, pos, LengthCode(|s|), s);
    ParseLengthOfCode(input, pos, |s|);
    var q := pos + |LengthCode(|s|)|;
    var k := Kept(|s|);
    assert input[q..q + |s|][..k] == input[q..q + k];
  }

  // ---------------------------------------------------------------------------------------------
  // Counted lists
  // ---------------------------------------------------------------------------------------------

  function CodeMany<T>(c: T -> Bytes, items: seq<T>): Bytes {
    if items == [] then [] else CodeMany(c, items[..|items| - 1]) + c(items[|items| - 1])
  }

  function ParseMany<T>(p: Parser<T>, input: Bytes, pos: nat, n: nat): Parsed<seq<T>>
    decreases n
  {
    if n == 0 then Ok([], pos)
    else
      match p(input, pos)
      case Fail(e) => Fail(e)
      case Ok(x, q) => Resume([x], ParseMany(p, input, q, n - 1))
  }

  /** A list parse that goes on after some items. */
  function Resume<T>(items: seq<T>, rest: Parsed<seq<T>>): Parsed<seq<T>> {
    match rest
    case Fail(e) => Fail(e)
    case Ok(more, q) => Ok(items + more, q)
  }

  lemma ResumeTwice<T>(s: seq<T>, t: seq<T>, rest: Parsed<seq<T>>)
    ensures Resume(s, Resume(t, rest)) == Resume(s + t, rest)
  {
    if rest.Ok? {
      assert s + (t + rest.value) == s + t + rest.value;
    }
  }

  /** The elements of a list are printed first to last. */
  lemma {:induction false} CodeManyCons<T>(c: T -> Bytes, items: seq<T>)
    requires items != []
    ensures CodeMany(c, items) == c(items[0]) + CodeMany(c, items[1..])
  {
    if |items| == 1 {
      assert items[..0] == [] && items[1..] == [];
      assert CodeMany(c, items) == c(items[0]);
    } else {
      var front := items[..|items| - 1];
      CodeManyCons(c, front);
      assert front[1..] == items[1..][..|items| - 2];
      assert CodeMany(c, items) == c(items[0]) + CodeMany(c, front[1..]) + c(items[|items| - 1]);
    }
  }

  /** A count loop takes at least one byte per turn: a count beyond the input cannot succeed. */
  lemma {:induction false} ManyAdvances<T(!new)>(p: Parser<T>, input: Bytes, pos: nat, n: nat)
    requires Advances(p)
    ensures var r := ParseMany(p, input, pos, n);
            r.Ok? ==> |r.value| == n && pos + n <= r.pos && (n > 0 ==> r.pos <= |input|)
    decreases n
  {
    if n > 0 && p(input, pos).Ok? {
      ManyAdvances(p, input, p(input, pos).pos, n - 1);
    }
  }

  function CountedCode<T>(c: T -> Bytes, items: seq<T>): Bytes {
    LengthCode(|items|) + CodeMany(c, items)
  }

  function ParseCounted<T>(p: Parser<T>, input: Bytes, pos: nat): Parsed<seq<T>> {
    match ParseLength(input, pos)
    case Fail(e) => Fail(e)
    case Ok(n, q) => ParseMany(p, input, q, n)
  }

  lemma CountedAdvances<T(!new)>(p: Parser<T>, input: Bytes, pos: nat)
    requires Advances(p)
    ensures var r := ParseCounted(p, input, pos);
            r.Ok? ==> pos < r.pos <= |input| && |r.value| < r.pos - pos
  {
    match ParseLength(input, pos)
    case Fail(_) =>
    case Ok(n, q) => ManyAdvances(p, input, q, n);
  }

  // ---------------------------------------------------------------------------------------------
  // The elements of the six kinds of values
  // ---------------------------------------------------------------------------------------------

  type Scored = (Bytes, u64)
  type StreamItem = (StreamId, seq<Pair>)

  function PairCode(x: Pair): Bytes {
    StringCode(x.0) + StringCode(x.1)
  }

  function ParsePair(input: Bytes, pos: nat): Parsed<Pair> {
    Then(ParseString, ParseString, input, pos)
  }

  function ScoredCode(x: Scored): Bytes {
    StringCode(x.0) + U64Code(x.1)
  }

  function ParseScored(input: Bytes, pos: nat): Parsed<Scored> {
    Then(ParseString, ParseU64, input, pos)
  }

  function IdCode(id: StreamId): Bytes {
    U64Code(id.ms) + U64Code(id.num)
  }

  function ParseId(input: Bytes, pos: nat): Parsed<StreamId> {
    match Then(ParseU64, ParseU64, input, pos)
    case Fail(e) => Fail(e)
    case Ok((ms, num), q) => Ok(Streams.StreamId(ms, num), q)
  }

  function ItemCode(x: StreamItem): Bytes {
    IdCode(x.0) + CountedCode(PairCode, x.1)
  }

  function ParsePairs(input: Bytes, pos: nat): Parsed<seq<Pair>> {
    ParseCounted(ParsePair, input, pos)
  }

  function ParseItem(input: Bytes, pos: nat): Parsed<StreamItem> {
    Then(ParseId, ParsePairs, input, pos)
  }

  lemma IdBack(id: StreamId)
    ensures Undoes(ParseId, IdCode, id)
  {
    U64Back(id.ms);
    U64Back(id.num);
    forall input: Bytes, pos: nat | At(input, pos, IdCode(id))
      ensures ParseId(input, pos) == Ok(id, pos + |IdCode(id)|)
    {
      ThenBack(ParseU64, ParseU64, U64Code(id.ms), U64Code(id.num), id.ms, id.num, input, pos);
    }
  }

  predicate ShortPairs(s: seq<Pair>) {
    |s| < TWO_32 && forall x :: x in s ==> |x.0| < TWO_32 && |x.1| < TWO_32
  }

  /** What the parts of an element stand for: of a pair the first string is the field and the second its value; of a
      scored element the string is the member and the number its score; of an id the first number is the time; of a
      stream entry the id comes before its pairs. */
  lemma ElementForms(input: Bytes, pos: nat)
    ensures var r := ParsePair(input, pos);
            r.Ok? ==> exists q: nat :: && ParseString(input, pos) == Ok(r.value.0, q)
                                       && ParseString(input, q) == Ok(r.value.1, r.pos)
    ensures var r := ParseScored(input, pos);
            r.Ok? ==> exists q: nat :: && ParseString(input, pos) == Ok(r.value.0, q)
                                       && ParseU64(input, q) == Ok(r.value.1, r.pos)
    ensures var r := ParseId(input, pos);
            r.Ok? ==> exists q: nat :: && ParseU64(input, pos) == Ok(r.value.ms, q)
                                       && ParseU64(input, q) == Ok(r.value.num, r.pos)
    ensures var r := ParseItem(input, pos);
            r.Ok? ==> exists q: nat :: && ParseId(input, pos) == Ok(r.value.0, q)
                                       && ParsePairs(input, q) == Ok(r.value.1, r.pos)
  {
  }

  /** Every element parser moves forward inside the input. */
  lemma ElementsAdvance()
    ensures Advances(ParseString) && Advances(ParsePair) && Advances(ParseScored) && Advances(ParseId)
    ensures Advances(ParseItem)
  {
    forall input: Bytes, pos: nat | ParseItem(input, pos).Ok? ensures pos < ParseItem(input, pos).pos <= |input| {
      assert Advances(ParsePair);
      CountedAdvances(ParsePair, input, ParseId(input, pos).pos);
    }
  }

  // ---------------------------------------------------------------------------------------------
  // Values as written: collections listed in the order they were iterated
  // ---------------------------------------------------------------------------------------------

  datatype Image =
    | StrImage(s: Bytes)
    | ListImage(items: seq<Bytes>)
    | SetImage(members: seq<Bytes>)
    | ZSetImage(scored: seq<Scored>)
    | HashImage(pairs: seq<Pair>)
    | StreamImage(entries: seq<StreamItem>, lastId: StreamId)

  function TypeByte(v: Image): byte {
    match v
    case StrImage(_) => 0
    case ListImage(_) => 1
    case SetImage(_) => 2
    case ZSetImage(_) => 3
    case HashImage(_) => 4
    case StreamImage(_, _) => 19
  }

  function TotalFields(items: seq<StreamItem>): nat {
    if items == [] then 0 else TotalFields(items[..|items| - 1]) + |items[|items| - 1].1|
  }

  function StreamCode(items: seq<StreamItem>, lastId: StreamId): Bytes {
    StreamHead(items) + StreamBody(items, lastId)
  }

  function StreamHead(items: seq<StreamItem>): Bytes {
    LengthCode(|items|) + LengthCode(TotalFields(items))
  }

  function StreamBody(items: seq<StreamItem>, lastId: StreamId): Bytes {
    CodeMany(ItemCode, items) + IdCode(lastId)
  }

  function ValueCode(v: Image): Bytes {
    match v
    case StrImage(s) => StringCode(s)
    case ListImage(items) => CountedCode(StringCode, items)
    case SetImage(members) => CountedCode(StringCode, members)
    case ZSetImage(scored) => CountedCode(ScoredCode, scored)
    case HashImage(pairs) => CountedCode(PairCode, pairs)
    case StreamImage(entries, lastId) => StreamCode(entries, lastId)
  }

  function ParseItems(n: nat): Parser<seq<StreamItem>> {
    (input: Bytes, pos: nat) => ParseMany(ParseItem, input, pos, n)
  }

  /** The number of entries and the number of fields in all, which is not used. */
  function ParseCounts(input: Bytes, pos: nat): Parsed<(nat, nat)> {
    Then(ParseLength, ParseLength, input, pos)
  }

  /** The entries and the last id. */
  function BodyParser(counts: (nat, nat)): Parser<(seq<StreamItem>, StreamId)> {
    (input: Bytes, pos: nat) => Then(ParseItems(counts.0), ParseId, input, pos)
  }

  function ParseStream(input: Bytes, pos: nat): (r: Parsed<Image>)
    ensures r.Ok? ==> r.value.StreamImage?
  {
    match Bind(ParseCounts, BodyParser, input, pos)
    case Fail(e) => Fail(e)
    case Ok((_, body), q) => Ok(StreamImage(body.0, body.1), q)
  }

  /** decode_value, before the elements are put into their collection. */
  function ParseValue(input: Bytes, pos: nat, kind: byte): Parsed<Image> {
    if kind == 0 then
      match ParseString(input, pos)
      case Fail(e) => Fail(e)
      case Ok(s, q) => Ok(StrImage(s), q)
    else if kind == 1 then
      match ParseCounted(ParseString, input, pos)
      case Fail(e) => Fail(e)
      case Ok(items, q) => Ok(ListImage(items), q)
    else if kind == 2 then
      match ParseCounted(ParseString, input, pos)
      case Fail(e) => Fail(e)
      case Ok(members, q) => Ok(SetImage(members), q)
    else if kind == 3 then
      match ParseCounted(ParseScored, input, pos)
      case Fail(e) => Fail(e)
      case Ok(scored, q) => Ok(ZSetImage(scored), q)
    else if kind == 4 then
      match ParsePairs(input, pos)
      case Fail(e) => Fail(e)
      case Ok(pairs, q) => Ok(HashImage(pairs), q)
    else if kind == 19 then ParseStream(input, pos)
    else Fail(UnknownType(kind))
  }

  /** The type byte decides what is read: 0 a string, 1 a list, 2 a set, 3 a sorted set, 4 a hash, 19 a stream; nothing
      else is accepted. */
  lemma KindDecides(input: Bytes, pos: nat, kind: byte)
    ensures var r := ParseValue(input, pos, kind);
            && (r.Ok? ==>
                 && (r.value.StrImage? <==> kind == 0) && (r.value.ListImage? <==> kind == 1)
                 && (r.value.SetImage? <==> kind == 2) && (r.value.ZSetImage? <==> kind == 3)
                 && (r.value.HashImage? <==> kind == 4) && (r.value.StreamImage? <==> kind == 19))
            && (kind !in {0, 1, 2, 3, 4, 19} ==> r == Fail(UnknownType(kind)))
  {
  }

  predicate ShortStrings(s: seq<Bytes>) {
    |s| < TWO_32 && forall x :: x in s ==> |x| < TWO_32
  }

  /** Every count and every string of the value is below 2^32. */
  predicate Short(v: Image) {
    match v
    case StrImage(s) => |s| < TWO_32
    case ListImage(items) => ShortStrings(items)
    case SetImage(members) => ShortStrings(members)
    case ZSetImage(scored) => |scored| < TWO_32 && forall x :: x in scored ==> |x.0| < TWO_32
    case HashImage(pairs) => ShortPairs(pairs)
    case StreamImage(entries, _) => |entries| < TWO_32 && forall x :: x in entries ==> ShortPairs(x.1)
  }

  lemma StreamAdvances(input: Bytes, pos: nat)
    ensures var r := ParseStream(input, pos); r.Ok? ==> pos < r.pos <= |input| && |r.value.entries| < r.pos - pos
  {
    ElementsAdvance();
    match ParseCounts(input, pos)
    case Fail(_) =>
    case Ok((n, _), q) => ManyAdvances(ParseItem, input, q, n);
  }

  /** The number of elements of a collection. */
  function Size(v: Image): nat {
    match v
    case StrImage(s) => |s|
    case ListImage(items) => |items|
    case SetImage(members) => |members|
    case ZSetImage(scored) => |scored|
    case HashImage(pairs) => |pairs|
    case StreamImage(entries, _) => |entries|
  }

  /** Whatever the bytes, a value that is read lies inside the input, and however large a count they hold, a
      collection that is read has fewer elements than bytes were consumed. */
  lemma ValueAdvances(input: Bytes, pos: nat, kind: byte)
    ensures var r := ParseValue(input, pos, kind);
            r.Ok? ==> pos < r.pos <= |input| && Size(r.value) < r.pos - pos
  {
    if kind == 1 || kind == 2 {
      ElementsAdvance();
      CountedAdvances(ParseString, input, pos);
    } else if kind == 3 {
      ElementsAdvance();
      CountedAdvances(ParseScored, input, pos);
    } else if kind == 4 {
      ElementsAdvance();
      CountedAdvances(ParsePair, input, pos);
    } else if kind == 19 {
      StreamAdvances(input, pos);
    } else if kind == 0 {
      StringLongerCode(input, pos);
    }
  }

  lemma StringLongerCode(input: Bytes, pos: nat)
    ensures var r := ParseString(input, pos); r.Ok? ==> |r.value| < r.pos - pos
  {
  }

  // ---------------------------------------------------------------------------------------------
  // Input that ends too early
  // ---------------------------------------------------------------------------------------------

  lemma SliceOfCut(input: Bytes, n: nat, lo: nat, hi: nat)
    requires lo <= hi <= n <= |input|
    ensures input[..n][lo..hi] == input[lo..hi]
  {
  }

  lemma FixedCut(input: Bytes, pos: nat, n: nat, width: nat)
    requires pos <= n <= |input|
    ensures var r := ParseFixed(input, pos, width);
            r.Ok? ==>
              && pos <= r.pos <= |input|
              && ParseFixed(input[..n], pos, width) == if r.pos <= n then r else Fail(UnexpectedEof)
  {
    if pos + width <= n {
      SliceOfCut(input, n, pos, pos + width);
    }
  }

  lemma U64NeedsAll()
    ensures NeedsAll(ParseU64)
  {
    forall input: Bytes, pos: nat, n: nat | pos <= n <= |input| ensures CutAt(ParseU64, input, pos, n) {
      FixedCut(input, pos, n, 8);
    }
  }

  lemma LengthNeedsAll()
    ensures NeedsAll(ParseLength)
  {
    forall input: Bytes, pos: nat, n: nat | pos <= n <= |input| ensures CutAt(ParseLength, input, pos, n) {
      LengthCut(input, pos, n);
    }
  }

  lemma LengthCut(input: Bytes, pos: nat, n: nat)
    requires pos <= n <= |input|
    ensures CutAt(ParseLength, input, pos, n)
  {
    if pos < n {
      FixedCut(input, pos + 1, n, 1);
      FixedCut(input, pos + 1, n, 2);
      FixedCut(input, pos + 1, n, 4);
    }
  }

  lemma StringNeedsAll()
    ensures NeedsAll(ParseString)
  {
    forall input: Bytes, pos: nat, n: nat | pos <= n <= |input| ensures CutAt(ParseString, input, pos, n) {
      LengthCut(input, pos, n);
      match ParseLength(input, pos)
      case Fail(_) =>
      case Ok(len, q) =>
        if q + len <= n {
          SliceOfCut(input, n, q, q + len);
        }
    }
  }

  lemma {:induction false} ManyCut<T(!new)>(p: Parser<T>, input: Bytes, pos: nat, k: nat, n: nat)
    requires NeedsAll(p) && pos <= n <= |input|
    ensures var r := ParseMany(p, input, pos, k);
            r.Ok? ==>
              && pos <= r.pos <= |input|
              && ParseMany(p, input[..n], pos, k) == if r.pos <= n then r else Fail(UnexpectedEof)
    decreases k
  {
    if k > 0 && p(input, pos).Ok? {
      var q := p(input, pos).pos;
      assert CutAt(p, input, pos, n);
      if q <= n {
        ManyCut(p, input, q, k - 1, n);
      } else {
        ManyCut(p, input, q, k - 1, |input|);
      }
    }
  }

  lemma CountedCut<T(!new)>(p: Parser<T>, input: Bytes, pos: nat, n: nat)
    requires NeedsAll(p) && pos <= n <= |input|
    ensures var r := ParseCounted(p, input, pos);
            r.Ok? ==>
              && pos <= r.pos <= |input|
              && ParseCounted(p, input[..n], pos) == if r.pos <= n then r else Fail(UnexpectedEof)
  {
    LengthCut(input, pos, n);
    match ParseLength(input, pos)
    case Fail(_) =>
    case Ok(k, q) => ManyCut(p, input, q, k, if q <= n then n else |input|);
  }

  lemma PairNeedsAll()
    ensures NeedsAll(ParsePair)
  {
    StringNeedsAll();
    forall input: Bytes, pos: nat, n: nat | pos <= n <= |input| ensures CutAt(ParsePair, input, pos, n) {
      ThenCut(ParseString, ParseString, input, pos, n);
    }
  }

  lemma ScoredNeedsAll()
    ensures NeedsAll(ParseScored)
  {
    StringNeedsAll();
    U64NeedsAll();
    forall input: Bytes, pos: nat, n: nat | pos <= n <= |input| ensures CutAt(ParseScored, input, pos, n) {
      ThenCut(ParseString, ParseU64, input, pos, n);
    }
  }

  lemma IdNeedsAll()
    ensures NeedsAll(ParseId)
  {
    U64NeedsAll();
    forall input: Bytes, pos: nat, n: nat | pos <= n <= |input| ensures CutAt(ParseId, input, pos, n) {
      ThenCut(ParseU64, ParseU64, input, pos, n);
    }
  }

  lemma PairsNeedAll()
    ensures NeedsAll(ParsePairs)
  {
    PairNeedsAll();
    forall input: Bytes, pos: nat, n: nat | pos <= n <= |input| ensures CutAt(ParsePairs, input, pos, n) {
      CountedCut(ParsePair, input, pos, n);
    }
  }

  lemma ItemNeedsAll()
    ensures NeedsAll(ParseItem)
  {
    IdNeedsAll();
    PairsNeedAll();
    forall input: Bytes, pos: nat, n: nat | pos <= n <= |input| ensures CutAt(ParseItem, input, pos, n) {
      ThenCut(ParseId, ParsePairs, input, pos, n);
    }
  }

  lemma ItemsNeedAll(k: nat)
    ensures NeedsAll(ParseItems(k))
  {
    ItemNeedsAll();
    forall input: Bytes, pos: nat, n: nat | pos <= n <= |input| ensures CutAt(ParseItems(k), input, pos, n) {
      ManyCut(ParseItem, input, pos, k, n);
    }
  }

  lemma CountsNeedAll()
    ensures NeedsAll(ParseCounts)
  {
    LengthNeedsAll();
    forall input: Bytes, pos: nat, n: nat | pos <= n <= |input| ensures CutAt(ParseCounts, input, pos, n) {
      ThenCut(ParseLength, ParseLength, input, pos, n);
    }
  }

  lemma BodyNeedsAll(counts: (nat, nat))
    ensures NeedsAll(BodyParser(counts))
  {
    ItemsNeedAll(counts.0);
    IdNeedsAll();
    forall input: Bytes, pos: nat, n: nat | pos <= n <= |input| ensures CutAt(BodyParser(counts), input, pos, n) {
      ThenCut(ParseItems(counts.0), ParseId, input, pos, n);
    }
  }

  lemma StreamCut(input: Bytes, pos: nat, n: nat)
    requires pos <= n <= |input|
    ensures CutAt(ParseStream, input, pos, n)
  {
    CountsNeedAll();
    match ParseCounts(input, pos)
    case Fail(_) =>
    case Ok(counts, _) =>
      BodyNeedsAll(counts);
      BindCut(ParseCounts, BodyParser, input, pos, n);
  }

  function ValueParser(kind: byte): Parser<Image> {
    (input: Bytes, pos: nat) => ParseValue(input, pos, kind)
  }

  /** Every value needs all its bytes: read from input that ends inside it, it ends too early, never as something
      else. */
  lemma ValueNeedsAll(kind: byte)
    ensures NeedsAll(ValueParser(kind))
  {
    forall input: Bytes, pos: nat, n: nat | pos <= n <= |input| ensures CutAt(ValueParser(kind), input, pos, n) {
      ValueCut(input, pos, n, kind);
    }
  }

  lemma ValueCut(input: Bytes, pos: nat, n: nat, kind: byte)
    requires pos <= n <= |input|
    ensures CutAt(ValueParser(kind), input, pos, n)
  {
    StringNeedsAll();
    if kind == 0 {
      assert CutAt(ParseString, input, pos, n);
    } else if kind == 1 || kind == 2 {
      CountedCut(ParseString, input, pos, n);
    } else if kind == 3 {
      ScoredNeedsAll();
      CountedCut(ParseScored, input, pos, n);
    } else if kind == 4 {
      PairsNeedAll();
      assert CutAt(ParsePairs, input, pos, n);
    } else if kind == 19 {
      StreamCut(input, pos, n);
    }
  }
}
