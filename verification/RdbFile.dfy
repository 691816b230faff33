/** Whole RDB snapshots: saving a keyspace, and loading any bytes into one. */
module RdbFile {
  import opened Data
  import opened RdbCodec
  import opened RdbLimits
  import opened RdbValues

  // ---------------------------------------------------------------------------------------------
  // Records
  // ---------------------------------------------------------------------------------------------

  /** The expiry opcode in front of a record: none, milliseconds or seconds. */
  datatype Stamp = NoStamp | Millis(at: u64) | Seconds(sec: nat)

  datatype Record = Record(stamp: Stamp, key: Bytes, image: Image)

  const EXPIRE_MS: byte := 0xFC
  const EXPIRE_SEC: byte := 0xFD
  const END: byte := 0xFF

  /** The nine bytes REDIS0010. */
  const MAGIC: Bytes := [0x52, 0x45, 0x44, 0x49, 0x53, 0x30, 0x30, 0x31, 0x30]

  function StampCode(stamp: Stamp): Bytes {
    match stamp
    case NoStamp => []
    case Millis(at) => [EXPIRE_MS] + U64Code(at)
    case Seconds(sec) => [EXPIRE_SEC] + LittleEndian(sec, 4)
  }

  /** The optional stamp and the type byte behind it. */
  function ParseHead(input: Bytes, pos: nat): Parsed<(Stamp, byte)> {
    if pos >= |input| then Fail(UnexpectedEof)
    else if input[pos] == EXPIRE_MS then
      With(Then(ParseU64, ParseByte, input, pos + 1), (x: (u64, byte)) => (Millis(x.0), x.1))
    else if input[pos] == EXPIRE_SEC then
      With(Then(ParseU32, ParseByte, input, pos + 1), (x: (nat, byte)) => (Seconds(x.0), x.1))
    else Ok((NoStamp, input[pos]), pos + 1)
  }

  /** How a record begins: 0xFC and eight bytes for a stamp in milliseconds, 0xFD and four bytes for one in seconds,
      each followed by the type byte; any other byte is the type byte itself. */
  lemma HeadForms(input: Bytes, pos: nat)
    requires pos < |input| && ParseHead(input, pos).Ok?
    ensures var r := ParseHead(input, pos);
            var width := if input[pos] == 0xFC then 8 else if input[pos] == 0xFD then 4 else 0;
            var at := if width == 0 then pos else pos + 1 + width;
            && at < |input| && r.pos == at + 1 && r.value.1 == input[at]
            && (r.value.0.Millis? <==> width == 8) && (r.value.0.Seconds? <==> width == 4)
            && (width == 8 ==> forall i :: 0 <= i < 8 ==> ByteOf(r.value.0.at, i) == input[pos + 1 + i])
            && (width == 4 ==> forall i :: 0 <= i < 4 ==> ByteOf(r.value.0.sec, i) == input[pos + 1 + i])
  {
    FixedReads(input, pos + 1, 8);
    FixedReads(input, pos + 1, 4);
  }

  function ParseByte(input: Bytes, pos: nat): Parsed<byte> {
    if pos >= |input| then Fail(UnexpectedEof) else Ok(input[pos], pos + 1)
  }

  function ParseU32(input: Bytes, pos: nat): Parsed<nat> {
    ParseFixed(input, pos, 4)
  }

  /** The key, then the value. */
  function TailParser(head: (Stamp, byte)): Parser<(Bytes, Image)> {
    (input: Bytes, pos: nat) => Then(ParseString, ValueParser(head.1), input, pos)
  }

  /** The stamp, the type byte, the key and the value. */
  function ParseRecord(input: Bytes, pos: nat): Parsed<Record> {
    match Bind(ParseHead, TailParser, input, pos)
    case Fail(e) => Fail(e)
    case Ok((head, tail), end) => Ok(Record(head.0, tail.0, tail.1), end)
  }

  function HeadCode(stamp: Stamp, kind: byte): Bytes {
    StampCode(stamp) + [kind]
  }

  function TailCode(r: Record): Bytes {
    StringCode(r.key) + ValueCode(r.image)
  }

  function RecordCode(r: Record): Bytes {
    HeadCode(r.stamp, TypeByte(r.image)) + TailCode(r)
  }

  predicate ShortRecord(r: Record) {
    && |r.key| < TWO_32
    && Short(r.image)
    && (r.stamp.Seconds? ==> r.stamp.sec < TWO_32)
  }

  lemma FirstByte(input: Bytes, pos: nat, code: Bytes)
    requires code != [] && At(input, pos, code)
    ensures pos < |input| && input[pos] == code[0]
  {
    assert input[pos..pos + |code|][0] == input[pos];
  }

  lemma ByteReads(b: byte)
    ensures Reads(ParseByte, [b], b)
  {
    forall input: Bytes, pos: nat | At(input, pos, [b]) ensures ParseByte(input, pos) == Ok(b, pos + 1) {
      FirstByte(input, pos, [b]);
    }
  }

  lemma U32Reads(n: nat)
    requires n < TWO_32
    ensures Reads(ParseU32, LittleEndian(n, 4), n)
  {
    Capacities();
    forall input: Bytes, pos: nat | At(input, pos, LittleEndian(n, 4)) ensures ParseU32(input, pos) == Ok(n, pos + 4) {
      FixedBack(input, pos, n, 4);
    }
  }

  lemma MillisReads(at: u64, kind: byte)
    ensures Reads(ParseHead, HeadCode(Millis(at), kind), (Millis(at), kind))
  {
    U64Back(at);
    ByteReads(kind);
    ThenReads(ParseU64, ParseByte, U64Code(at), [kind], at, kind);
    var code := HeadCode(Millis(at), kind);
    assert code == [EXPIRE_MS] + (U64Code(at) + [kind]);
    forall input: Bytes, pos: nat | At(input, pos, code)
      ensures ParseHead(input, pos) == Ok((Millis(at), kind), pos + |code|)
    {
      FirstByte(input, pos, code);
      AtBoth(input, pos, [EXPIRE_MS], U64Code(at) + [kind]);
    }
  }

  lemma SecondsReads(sec: nat, kind: byte)
    requires sec < TWO_32
    ensures Reads(ParseHead, HeadCode(Seconds(sec), kind), (Seconds(sec), kind))
  {
    U32Reads(sec);
    ByteReads(kind);
    ThenReads(ParseU32, ParseByte, LittleEndian(sec, 4), [kind], sec, kind);
    var code := HeadCode(Seconds(sec), kind);
    assert code == [EXPIRE_SEC] + (LittleEndian(sec, 4) + [kind]);
    forall input: Bytes, pos: nat | At(input, pos, code)
      ensures ParseHead(input, pos) == Ok((Seconds(sec), kind), pos + |code|)
    {
      FirstByte(input, pos, code);
      AtBoth(input, pos, [EXPIRE_SEC], LittleEndian(sec, 4) + [kind]);
    }
  }

  lemma HeadReads(stamp: Stamp, kind: byte)
    requires kind < EXPIRE_MS && (stamp.Seconds? ==> stamp.sec < TWO_32)
    ensures Reads(ParseHead, HeadCode(stamp, kind), (stamp, kind))
  {
    match stamp
    case NoStamp =>
      assert HeadCode(stamp, kind) == [kind];
      forall input: Bytes, pos: nat | At(input, pos, [kind])
        ensures ParseHead(input, pos) == Ok((NoStamp, kind), pos + 1)
      {
        FirstByte(input, pos, [kind]);
      }
    case Millis(at) => MillisReads(at, kind);
    case Seconds(sec) => SecondsReads(sec, kind);
  }

  /** A stamp in seconds that does not fit four bytes is read as another. */
  lemma SecondsLost(sec: nat, kind: byte, input: Bytes, pos: nat)
    requires sec >= TWO_32 && At(input, pos, HeadCode(Seconds(sec), kind))
    ensures var r := ParseHead(input, pos); r.Ok? ==> r.value.0 != Seconds(sec)
  {
    FirstByte(input, pos, HeadCode(Seconds(sec), kind));
    Capacities();
    if pos + 5 <= |input| {
      FromLittleEndianBound(input[pos + 1..pos + 5]);
    }
  }

  lemma TailJudged(r: Record)
    ensures Judged(TailParser((r.stamp, TypeByte(r.image))), TailCode(r), (r.key, r.image),
                   |r.key| < TWO_32 && Short(r.image))
  {
    StringJudged(r.key);
    ValueJudged(r.image);
    ThenJudged(ParseString, ValueParser(TypeByte(r.image)), StringCode(r.key), ValueCode(r.image), r.key, r.image,
               |r.key| < TWO_32, Short(r.image));
  }

  lemma RecordJudgedAt(r: Record, input: Bytes, pos: nat)
    requires At(input, pos, RecordCode(r))
    ensures JudgedAs(ParseRecord(input, pos), r, pos + |RecordCode(r)|, ShortRecord(r))
  {
    var kind := TypeByte(r.image);
    if r.stamp.Seconds? && r.stamp.sec >= TWO_32 {
      AtBoth(input, pos, HeadCode(r.stamp, kind), TailCode(r));
      SecondsLost(r.stamp.sec, kind, input, pos);
      StampLost(r, input, pos);
    } else {
      HeadReads(r.stamp, kind);
      TailJudged(r);
      RecordByTail(r, HeadCode(r.stamp, kind), TailCode(r), |r.key| < TWO_32 && Short(r.image), input, pos);
    }
  }

  lemma RecordByTail(r: Record, front: Bytes, tail: Bytes, good: bool, input: Bytes, pos: nat)
    requires Reads(ParseHead, front, (r.stamp, TypeByte(r.image))) && At(input, pos, front + tail)
    requires Judged(TailParser((r.stamp, TypeByte(r.image))), tail, (r.key, r.image), good)
    ensures JudgedAs(ParseRecord(input, pos), r, pos + |front + tail|, good)
  {
    AtBoth(input, pos, front, tail);
    JudgedHere(TailParser((r.stamp, TypeByte(r.image))), tail, (r.key, r.image), good, input, pos + |front|);
    RecordOfParts(r, front, tail, good, input, pos);
  }

  lemma StampLost(r: Record, input: Bytes, pos: nat)
    requires ParseHead(input, pos).Ok? ==> ParseHead(input, pos).value.0 != r.stamp
    ensures JudgedAs(ParseRecord(input, pos), r, 0, false)
  {
  }

  lemma RecordOfParts(r: Record, front: Bytes, tail: Bytes, good: bool, input: Bytes, pos: nat)
    requires Reads(ParseHead, front, (r.stamp, TypeByte(r.image))) && At(input, pos, front)
    requires JudgedAs(TailParser((r.stamp, TypeByte(r.image)))(input, pos + |front|), (r.key, r.image),
                      pos + |front| + |tail|, good)
    ensures JudgedAs(ParseRecord(input, pos), r, pos + |front + tail|, good)
  {
    var head := (r.stamp, TypeByte(r.image));
    BindJudged(ParseHead, TailParser, front, tail, head, (r.key, r.image), good, input, pos);
    RecordOfBound(r, pos + |front + tail|, good, input, pos);
  }

  lemma RecordOfBound(r: Record, end: nat, good: bool, input: Bytes, pos: nat)
    requires BoundAs(Bind(ParseHead, TailParser, input, pos), (r.stamp, TypeByte(r.image)), (r.key, r.image), end, good)
    ensures JudgedAs(ParseRecord(input, pos), r, end, good)
  {
  }

  lemma RecordJudged(r: Record)
    ensures Judged(ParseRecord, RecordCode(r), r, ShortRecord(r))
  {
    forall input: Bytes, pos: nat | At(input, pos, RecordCode(r))
      ensures JudgedAs(ParseRecord(input, pos), r, pos + |RecordCode(r)|, ShortRecord(r))
    {
      RecordJudgedAt(r, input, pos);
    }
  }

  /** A printed record is read back if and only if its key, every count and string of its value and a stamp in seconds
      are below 2^32. */
  lemma RecordBack(r: Record)
    ensures Undoes(ParseRecord, RecordCode, r) <==> ShortRecord(r)
  {
    RecordJudged(r);
    ReadsIsGood(ParseRecord, RecordCode(r), r, ShortRecord(r));
  }

  /** A record cannot be taken for the end mark. */
  lemma RecordStart(r: Record)
    ensures RecordCode(r) != [] && RecordCode(r)[0] != END
  {
    assert RecordCode(r)[0] == HeadCode(r.stamp, TypeByte(r.image))[0];
  }

  lemma RecordAdvancesAt(input: Bytes, pos: nat)
    ensures var r := ParseRecord(input, pos); r.Ok? ==> pos < r.pos <= |input|
  {
    match ParseHead(input, pos)
    case Fail(_) =>
    case Ok(head, q) =>
      match ParseString(input, q)
      case Fail(_) =>
      case Ok(_, t) => ValueAdvances(input, t, head.1);
  }

  /** Whatever the bytes, a record that is read takes at least one byte and stays inside the input. */
  lemma RecordAdvances()
    ensures Advances(ParseRecord)
  {
    forall input: Bytes, pos: nat | ParseRecord(input, pos).Ok? ensures pos < ParseRecord(input, pos).pos <= |input| {
      RecordAdvancesAt(input, pos);
    }
  }

  lemma ByteNeedsAll()
    ensures NeedsAll(ParseByte)
  {
  }

  lemma HeadNeedsAll()
    ensures NeedsAll(ParseHead)
  {
    ByteNeedsAll();
    U64NeedsAll();
    U32NeedsAll();
    forall input: Bytes, pos: nat, n: nat | pos <= n <= |input| ensures CutAt(ParseHead, input, pos, n) {
      if pos < n {
        ThenCut(ParseU64, ParseByte, input, pos + 1, n);
        ThenCut(ParseU32, ParseByte, input, pos + 1, n);
      }
    }
  }

  lemma U32NeedsAll()
    ensures NeedsAll(ParseU32)
  {
    forall input: Bytes, pos: nat, n: nat | pos <= n <= |input| ensures CutAt(ParseU32, input, pos, n) {
      FixedCut(input, pos, n, 4);
    }
  }

  lemma TailNeedsAll(head: (Stamp, byte))
    ensures NeedsAll(TailParser(head))
  {
    StringNeedsAll();
    ValueNeedsAll(head.1);
    forall input: Bytes, pos: nat, n: nat | pos <= n <= |input| ensures CutAt(TailParser(head), input, pos, n) {
      ThenCut(ParseString, ValueParser(head.1), input, pos, n);
    }
  }

  /** A record needs all its bytes: cut anywhere inside, it ends too early. */
  lemma RecordNeedsAll()
    ensures NeedsAll(ParseRecord)
  {
    HeadNeedsAll();
    forall input: Bytes, pos: nat, n: nat | pos <= n <= |input| ensures CutAt(ParseRecord, input, pos, n) {
      match ParseHead(input, pos)
      case Fail(_) =>
      case Ok(head, _) =>
        TailNeedsAll(head);
        BindCut(ParseHead, TailParser, input, pos, n);
    }
  }

  // ---------------------------------------------------------------------------------------------
  // Records up to the end mark
  // ---------------------------------------------------------------------------------------------

  /** The records read before the end mark or an error, and which of them it was. */
  datatype Run<R> = Run(records: seq<R>, end: Parsed<()>)

  function ReadAll<R(!new)>(p: Parser<R>, input: Bytes, pos: nat): Run<R>
    requires Advances(p)
    decreases |input| - pos
  {
    if pos >= |input| then Run([], Fail(UnexpectedEof))
    else if input[pos] == END then Run([], Ok((), pos + 1))
    else
      match p(input, pos)
      case Fail(e) => Run([], Fail(e))
      case Ok(r, q) => Before([r], ReadAll(p, input, q))
  }

  function Before<R>(records: seq<R>, rest: Run<R>): Run<R> {
    Run(records + rest.records, rest.end)
  }

  /** A printer whose records are read back and start unlike the end mark. */
  ghost predicate Separable<R(!new)>(p: Parser<R>, c: R -> Bytes, r: R) {
    Undoes(p, c, r) && c(r) != [] && c(r)[0] != END
  }

  lemma ReadOne<R(!new)>(p: Parser<R>, c: R -> Bytes, r: R, input: Bytes, pos: nat)
    requires Advances(p) && Separable(p, c, r) && At(input, pos, c(r))
    ensures ReadAll(p, input, pos) == Before([r], ReadAll(p, input, pos + |c(r)|))
  {
    FirstByte(input, pos, c(r));
    assert p(input, pos) == Ok(r, pos + |c(r)|);
  }

  /** Printed records are read back, all of them, and reading goes on right behind them. */
  lemma {:induction false} ReadAllBack<R(!new)>(p: Parser<R>, c: R -> Bytes, records: seq<R>, input: Bytes, pos: nat)
    requires Advances(p) && forall r :: r in records ==> Separable(p, c, r)
    requires At(input, pos, CodeMany(c, records))
    ensures ReadAll(p, input, pos) == Before(records, ReadAll(p, input, pos + |CodeMany(c, records)|))
    decreases |records|
  {
    var end := ReadAll(p, input, pos + |CodeMany(c, records)|);
    if records == [] {
      assert [] + end.records == end.records;
    } else {
      var q := pos + |c(records[0])|;
      CodeManyCons(c, records);
      AtBoth(input, pos, c(records[0]), CodeMany(c, records[1..]));
      ReadOne(p, c, records[0], input, pos);
      ReadAllBack(p, c, records[1..], input, q);
      BeforeTwice([records[0]], records[1..], end);
      assert records == [records[0]] + records[1..];
    }
  }

  /** Printed records and then the end of the input, or the end mark. */
  lemma ReadToEnd<R(!new)>(p: Parser<R>, c: R -> Bytes, records: seq<R>, input: Bytes, pos: nat)
    requires Advances(p) && forall r :: r in records ==> Separable(p, c, r)
    requires At(input, pos, CodeMany(c, records))
    ensures var end := pos + |CodeMany(c, records)|;
            && (end == |input| ==> ReadAll(p, input, pos) == Run(records, Fail(UnexpectedEof)))
            && (end < |input| && input[end] == END ==> ReadAll(p, input, pos) == Run(records, Ok((), end + 1)))
  {
    ReadAllBack(p, c, records, input, pos);
    assert records + [] == records;
  }

  lemma BeforeTwice<R>(s: seq<R>, t: seq<R>, rest: Run<R>)
    ensures Before(s, Before(t, rest)) == Before(s + t, rest)
  {
    assert s + (t + rest.records) == s + t + rest.records;
  }

  /** How many of the items lie wholly within n bytes. */
  function Whole<R>(c: R -> Bytes, items: seq<R>, n: nat): (k: nat)
    ensures k <= |items|
    decreases |items|
  {
    if items == [] || |c(items[0])| > n then 0 else 1 + Whole(c, items[1..], n - |c(items[0])|)
  }

  /** Printed records cut short: those before the cut are read, and then the input ends too early. */
  lemma {:induction false} ReadCut<R(!new)>(p: Parser<R>, c: R -> Bytes, records: seq<R>, input: Bytes, pos: nat,
                                            n: nat)
    requires Advances(p) && NeedsAll(p) && forall r :: r in records ==> Separable(p, c, r)
    requires At(input, pos, CodeMany(c, records)) && pos <= n <= pos + |CodeMany(c, records)|
    ensures ReadAll(p, input[..n], pos) == Run(records[..Whole(c, records, n - pos)], Fail(UnexpectedEof))
    decreases |records|
  {
    if records != [] {
      var r, rest := records[0], records[1..];
      var q := pos + |c(r)|;
      CodeManyCons(c, records);
      AtBoth(input, pos, c(r), CodeMany(c, rest));
      ReadOneCut(p, c, r, input, pos, n);
      if q <= n {
        ReadCut(p, c, rest, input, q, n);
        FrontOf(records, Whole(c, rest, n - q));
      }
    }
  }

  lemma FrontOf<T>(s: seq<T>, k: nat)
    requires s != [] && k <= |s| - 1
    ensures [s[0]] + s[1..][..k] == s[..k + 1]
  {
  }

  lemma ReadOneCut<R(!new)>(p: Parser<R>, c: R -> Bytes, r: R, input: Bytes, pos: nat, n: nat)
    requires Advances(p) && NeedsAll(p) && Separable(p, c, r) && At(input, pos, c(r)) && pos <= n <= |input|
    ensures ReadAll(p, input[..n], pos)
         == if pos + |c(r)| <= n then Before([r], ReadAll(p, input[..n], pos + |c(r)|))
            else Run([], Fail(UnexpectedEof))
  {
    FirstByte(input, pos, c(r));
    assert p(input, pos) == Ok(r, pos + |c(r)|);
    assert CutAt(p, input, pos, n);
  }

  // ---------------------------------------------------------------------------------------------
  // Deadlines
  // ---------------------------------------------------------------------------------------------

  /** What save writes for a deadline: time already run out counts as zero. */
  function StampOf(deadline: Option<nat>, now: u64): Stamp {
    match deadline
    case None => NoStamp
    case Some(t) => Millis(Max(now, t) % TWO_64)
  }

  /** What load makes of a stamp: one that is not ahead any more is dropped. */
  function DeadlineOf(stamp: Stamp, now: u64): Option<nat> {
    match stamp
    case NoStamp => None
    case Millis(at) => if at > now then Some(at) else None
    case Seconds(sec) => if sec > now / 1000 then Some(now + (sec - now / 1000) * 1000) else None
  }

  /** A deadline survives exactly when it is still ahead at load, had not passed at save and fits 64 bits. One that
      had passed by the load of a later time is lost, and the key comes back without any. */
  lemma DeadlineSurvives(deadline: Option<nat>, saved: u64, loaded: u64)
    ensures DeadlineOf(StampOf(deadline, saved), loaded) == deadline
       <==> deadline.None? || (deadline.value > loaded && deadline.value >= saved && deadline.value < TWO_64)
    ensures deadline.Some? && deadline.value <= loaded && saved <= loaded ==>
              DeadlineOf(StampOf(deadline, saved), loaded) == None
  {
  }

  /** What load makes of each stamp. None gives no deadline; one in milliseconds gives itself while it is ahead; one in
      seconds, while its second is ahead of that of the load, gives the moment in that second that is as far into it as
      the load is into its own. */
  lemma StampMeans(stamp: Stamp, now: u64)
    ensures stamp.NoStamp? ==> DeadlineOf(stamp, now) == None
    ensures stamp.Millis? ==> DeadlineOf(stamp, now) == if stamp.at > now then Some(stamp.at) else None
    ensures stamp.Seconds? ==>
              var t := DeadlineOf(stamp, now);
              && (t.Some? <==> stamp.sec > now / 1000)
              && (t.Some? ==> t.value / 1000 == stamp.sec && t.value % 1000 == now % 1000)
  {
  }

  function EntryOf(r: Record, now: u64): Entry {
    Entry(Meaning(r.image), DeadlineOf(r.stamp, now))
  }

  /** An entry after a save at one time and a load at another. */
  function Restored(e: Entry, saved: u64, loaded: u64): Entry {
    Entry(Normalise(e.value), DeadlineOf(StampOf(e.deadline, saved), loaded))
  }

  /** It is the same entry exactly when its value had no compact encoding and no consumer groups, and its deadline,
      if any, is still ahead, had not passed at save and fits 64 bits. */
  lemma RestoredExactly(e: Entry, saved: u64, loaded: u64)
    ensures Restored(e, saved, loaded) == e <==>
              && !e.value.ListPack? && !e.value.IntSet? && (e.value.Stream? ==> e.value.groups == {})
              && (e.deadline.None? ||
                  (e.deadline.value > loaded && e.deadline.value >= saved && e.deadline.value < TWO_64))
  {
    DeadlineSurvives(e.deadline, saved, loaded);
  }

  // ---------------------------------------------------------------------------------------------
  // Loading
  // ---------------------------------------------------------------------------------------------

  /** The keyspace after loading, and how it ended. */
  datatype Loading = Loading(keyspace: Keyspace, end: Parsed<()>)

  /** The checksum stands in the last eight bytes and covers everything before them. */
  predicate ChecksumHolds(file: Bytes, crc: Bytes -> u64)
    requires |file| >= 8
  {
    FromLittleEndian(file[|file| - 8..]) == crc(file[..|file| - 8])
  }

  /** load: the records go into the keyspace as they are read, before the checksum is looked at. */
  function Loaded(keyspace: Keyspace, file: Bytes, now: u64, crc: Bytes -> u64): Loading {
    if |file| < 9 || file[..9] != MAGIC then Loading(keyspace, Fail(InvalidMagic))
    else
      RecordAdvances();
      var run := ReadAll(ParseRecord, file, 9);
      Loading(Inserted(keyspace, run.records, now),
              if run.end.Ok? && !ChecksumHolds(file, crc) then Fail(CrcMismatch) else run.end)
  }

  /** The keyspace with the entries of the records put in one after the other. */
  function Inserted(keyspace: Keyspace, records: seq<Record>, now: u64): Keyspace
    decreases |records|
  {
    if records == [] then keyspace
    else Inserted(keyspace[records[0].key := EntryOf(records[0], now)], records[1..], now)
  }

  lemma RecordSeparable(r: Record)
    requires ShortRecord(r)
    ensures Separable(ParseRecord, RecordCode, r)
  {
    RecordBack(r);
    RecordStart(r);
  }

  lemma AllSeparable(records: seq<Record>)
    requires forall r :: r in records ==> ShortRecord(r)
    ensures forall r :: r in records ==> Separable(ParseRecord, RecordCode, r)
  {
    forall r | r in records ensures Separable(ParseRecord, RecordCode, r) {
      RecordSeparable(r);
    }
  }

  function BodyCode(records: seq<Record>): Bytes {
    MAGIC + (CodeMany(RecordCode, records) + [END])
  }

  /** Loading well-formed records followed by any bytes, however many. What follows decides only whether an error is
      reported: the records are in the keyspace either way. */
  lemma LoadOfBody(keyspace: Keyspace, records: seq<Record>, tail: Bytes, now: u64, crc: Bytes -> u64)
    requires forall r :: r in records ==> ShortRecord(r)
    ensures var body := BodyCode(records);
            var l := Loaded(keyspace, body + tail, now, crc);
            && l.keyspace == Inserted(keyspace, records, now)
            && |body + tail| >= 8
            && l.end == (if ChecksumHolds(body + tail, crc) then Ok((), |body|) else Fail(CrcMismatch))
            && (|tail| == 8 ==> (ChecksumHolds(body + tail, crc) <==> FromLittleEndian(tail) == crc(body)))
  {
    var file := BodyCode(records) + tail;
    RecordAdvances();
    Layout(CodeMany(RecordCode, records), tail);
    AllSeparable(records);
    ReadBody(ParseRecord, RecordCode, records, file);
    LoadOfRun(keyspace, file, now, crc, records, Ok((), |BodyCode(records)|));
  }

  lemma LoadOfRun(keyspace: Keyspace, file: Bytes, now: u64, crc: Bytes -> u64, records: seq<Record>, end: Parsed<()>)
    requires |file| >= 9 && file[..9] == MAGIC && Advances(ParseRecord)
    requires ReadAll(ParseRecord, file, 9) == Run(records, end)
    ensures Loaded(keyspace, file, now, crc).keyspace == Inserted(keyspace, records, now)
    ensures Loaded(keyspace, file, now, crc).end ==
              if end.Ok? && !ChecksumHolds(file, crc) then Fail(CrcMismatch) else end
  {
  }

  lemma ReadBody<R(!new)>(p: Parser<R>, c: R -> Bytes, records: seq<R>, file: Bytes)
    requires Advances(p) && forall r :: r in records ==> Separable(p, c, r)
    requires At(file, 9, CodeMany(c, records)) && 9 + |CodeMany(c, records)| < |file|
    requires file[9 + |CodeMany(c, records)|] == END
    ensures ReadAll(p, file, 9) == Run(records, Ok((), 9 + |CodeMany(c, records)| + 1))
  {
    ReadToEnd(p, c, records, file, 9);
  }

  /** Where the parts of a file stand. */
  lemma Layout(codes: Bytes, tail: Bytes)
    ensures var body := MAGIC + (codes + [END]);
            var file := body + tail;
            && |file| >= 10 && file[..9] == MAGIC && At(file, 9, codes) && file[9 + |codes|] == END
            && (|tail| == 8 ==> file[|file| - 8..] == tail && file[..|file| - 8] == body)
  {
    var file := MAGIC + (codes + [END]) + tail;
    assert file[9..9 + |codes|] == codes;
  }

  /** A file cut short anywhere before its end mark is refused as ended too early, with exactly the records that
      lie wholly before the cut in the keyspace; one cut inside the magic changes nothing. */
  lemma LoadOfCutFile(keyspace: Keyspace, records: seq<Record>, n: nat, now: u64, crc: Bytes -> u64)
    requires (forall r :: r in records ==> ShortRecord(r)) && n < |BodyCode(records)|
    ensures n < 9 ==> Loaded(keyspace, BodyCode(records)[..n], now, crc) == Loading(keyspace, Fail(InvalidMagic))
    ensures n >= 9 ==>
              var whole := records[..Whole(RecordCode, records, n - 9)];
              Loaded(keyspace, BodyCode(records)[..n], now, crc) ==
                Loading(Inserted(keyspace, whole, now), Fail(UnexpectedEof))
  {
    if n >= 9 {
      RecordAdvances();
      RecordNeedsAll();
      AllSeparable(records);
      CutRun(ParseRecord, RecordCode, records, n);
      LoadOfRun(keyspace, BodyCode(records)[..n], now, crc, records[..Whole(RecordCode, records, n - 9)],
                Fail(UnexpectedEof));
    }
  }

  lemma CutRun<R(!new)>(p: Parser<R>, c: R -> Bytes, records: seq<R>, n: nat)
    requires Advances(p) && NeedsAll(p) && 9 <= n <= 9 + |CodeMany(c, records)|
    requires forall r :: r in records ==> Separable(p, c, r)
    ensures var file := (MAGIC + (CodeMany(c, records) + [END]))[..n];
            && file[..9] == MAGIC
            && ReadAll(p, file, 9) == Run(records[..Whole(c, records, n - 9)], Fail(UnexpectedEof))
  {
    CutLayout(CodeMany(c, records), n);
    ReadCut(p, c, records, MAGIC + (CodeMany(c, records) + [END]), 9, n);
  }

  lemma CutLayout(codes: Bytes, n: nat)
    requires 9 <= n <= 9 + |codes|
    ensures var body := MAGIC + (codes + [END]); body[..n][..9] == MAGIC && At(body, 9, codes)
  {
    var body := MAGIC + (codes + [END]);
    assert body[9..9 + |codes|] == codes;
    assert body[..n][..9] == body[..9];
  }

  /** Loading leaves every keyspace as it was if and only if the magic is wrong or no first record is read. */
  lemma LoadLeavesAlone(file: Bytes, now: u64, crc: Bytes -> u64)
    ensures (forall keyspace :: Loaded(keyspace, file, now, crc).keyspace == keyspace)
       <==> |file| < 9 || file[..9] != MAGIC || |file| == 9 || file[9] == END || ParseRecord(file, 9).Fail?
  {
    if |file| >= 9 && file[..9] == MAGIC {
      RecordAdvances();
      var run := ReadAll(ParseRecord, file, 9);
      FirstTurn(ParseRecord, file, 9);
      if run.records == [] {
        forall keyspace ensures Loaded(keyspace, file, now, crc).keyspace == keyspace {
          LoadOfRun(keyspace, file, now, crc, run.records, run.end);
        }
      } else {
        LoadOfRun(map[], file, now, crc, run.records, run.end);
        assert run.records[0].key in KeysOf(run.records);
        InsertedLookup(map[], run.records, now, run.records[0].key);
        assert Loaded(map[], file, now, crc).keyspace != map[];
      }
    }
  }

  lemma FirstTurn<R(!new)>(p: Parser<R>, input: Bytes, pos: nat)
    requires Advances(p) && pos <= |input|
    ensures ReadAll(p, input, pos).records == [] <==> pos == |input| || input[pos] == END || p(input, pos).Fail?
  {
  }

  // ---------------------------------------------------------------------------------------------
  // Saving
  // ---------------------------------------------------------------------------------------------

  /** The record writes the entry the keyspace has under its key. */
  ghost predicate Writes(r: Record, keyspace: Keyspace, now: u64) {
    && r.key in keyspace
    && r.stamp == StampOf(keyspace[r.key].deadline, now)
    && WrittenAs(keyspace[r.key].value, r.image)
  }

  function KeysOf(records: seq<Record>): set<Bytes> {
    set r | r in records :: r.key
  }

  ghost predicate DistinctRecords(records: seq<Record>) {
    forall i, j :: 0 <= i < j < |records| ==> records[i].key != records[j].key
  }

  /** The records write the entries under the given keys, each once, in any order. */
  ghost predicate SnapshotOf(records: seq<Record>, keyspace: Keyspace, keys: set<Bytes>, now: u64) {
    && DistinctRecords(records)
    && KeysOf(records) == keys
    && forall r :: r in records ==> Writes(r, keyspace, now)
  }

  /** A body followed by its checksum. */
  function Sealed(body: Bytes, crc: Bytes -> u64): Bytes {
    body + U64Code(crc(body))
  }

  function FileCode(records: seq<Record>, crc: Bytes -> u64): Bytes {
    Sealed(BodyCode(records), crc)
  }

  /** The file holds records that write every entry once, in some order. */
  ghost predicate IsSnapshot(file: Bytes, keyspace: Keyspace, now: u64, crc: Bytes -> u64) {
    exists records :: SnapshotOf(records, keyspace, keyspace.Keys, now) && file == FileCode(records, crc)
  }

  /** The keyspace with every entry as it comes back. */
  function RestoredAll(keyspace: Keyspace, saved: u64, loaded: u64): Keyspace {
    map k | k in keyspace :: Restored(keyspace[k], saved, loaded)
  }

  lemma {:induction false} InsertedLookup(keyspace: Keyspace, records: seq<Record>, now: u64, k: Bytes)
    ensures k in Inserted(keyspace, records, now) <==> k in keyspace || k in KeysOf(records)
    ensures k in keyspace && k !in KeysOf(records) ==> Inserted(keyspace, records, now)[k] == keyspace[k]
    decreases |records|
  {
    if records != [] {
      assert records == [records[0]] + records[1..];
      assert KeysOf(records) == {records[0].key} + KeysOf(records[1..]);
      InsertedLookup(keyspace[records[0].key := EntryOf(records[0], now)], records[1..], now, k);
    }
  }

  /** Of several records for a key the last one counts. */
  lemma {:induction false} InsertedLast(keyspace: Keyspace, records: seq<Record>, now: u64, i: nat)
    requires i < |records| && forall j :: i < j < |records| ==> records[j].key != records[i].key
    ensures records[i].key in Inserted(keyspace, records, now)
    ensures Inserted(keyspace, records, now)[records[i].key] == EntryOf(records[i], now)
    decreases |records|
  {
    var next, rest := keyspace[records[0].key := EntryOf(records[0], now)], records[1..];
    if i == 0 {
      assert records[0].key !in KeysOf(rest);
      InsertedLookup(next, rest, now, records[0].key);
    } else {
      InsertedLast(next, rest, now, i - 1);
    }
  }

  /** Putting the records of a snapshot into a keyspace overlays the saved one, restored. */
  lemma InsertedSnapshot(before: Keyspace, records: seq<Record>, keyspace: Keyspace, saved: u64, loaded: u64)
    requires SnapshotOf(records, keyspace, keyspace.Keys, saved)
    requires forall k :: k in keyspace ==> Sound(keyspace[k].value)
    ensures Inserted(before, records, loaded) == before + RestoredAll(keyspace, saved, loaded)
  {
    var after, expected := Inserted(before, records, loaded), before + RestoredAll(keyspace, saved, loaded);
    forall k ensures k in after <==> k in expected {
      InsertedLookup(before, records, loaded, k);
    }
    forall k | k in after ensures after[k] == expected[k] {
      InsertedLookup(before, records, loaded, k);
      if k in KeysOf(records) {
        EntryRestored(before, records, keyspace, saved, loaded, k);
      }
    }
  }

  lemma EntryRestored(before: Keyspace, records: seq<Record>, keyspace: Keyspace, saved: u64, loaded: u64, k: Bytes)
    requires SnapshotOf(records, keyspace, keyspace.Keys, saved) && k in keyspace && Sound(keyspace[k].value)
    ensures k in Inserted(before, records, loaded)
    ensures Inserted(before, records, loaded)[k] == Restored(keyspace[k], saved, loaded)
  {
    assert k in KeysOf(records);
    var r :| r in records && r.key == k;
    var i :| 0 <= i < |records| && records[i] == r;
    InsertedLast(before, records, loaded, i);
    MeaningOfWritten(keyspace[k].value, r.image);
  }

  /** Every length in the keyspace is below 2^32 and every sorted set sound. */
  ghost predicate Storable(keyspace: Keyspace) {
    forall k :: k in keyspace ==> |k| < TWO_32 && ShortValue(keyspace[k].value) && Sound(keyspace[k].value)
  }

  lemma ShortSnapshot(records: seq<Record>, keyspace: Keyspace, now: u64)
    requires SnapshotOf(records, keyspace, keyspace.Keys, now) && Storable(keyspace)
    ensures forall r :: r in records ==> ShortRecord(r)
  {
    forall r | r in records ensures ShortRecord(r) {
      assert Writes(r, keyspace, now);
      ShortWritten(keyspace[r.key].value, r.image);
    }
  }

  /** Loading what was saved, whatever order the collections were walked in: no error, every saved key holds its
      value, normalised, with its deadline if that is still ahead, and every other key is as it was. */
  lemma LoadOfSave(before: Keyspace, records: seq<Record>, keyspace: Keyspace, saved: u64, loaded: u64,
                   crc: Bytes -> u64)
    requires SnapshotOf(records, keyspace, keyspace.Keys, saved) && Storable(keyspace)
    ensures var l := Loaded(before, FileCode(records, crc), loaded, crc);
            l.keyspace == before + RestoredAll(keyspace, saved, loaded) && l.end.Ok?
  {
    var body := BodyCode(records);
    ShortSnapshot(records, keyspace, saved);
    Capacities();
    LittleEndianBack(crc(body), 8);
    LoadOfBody(before, records, U64Code(crc(body)), loaded, crc);
    InsertedSnapshot(before, records, keyspace, saved, loaded);
  }

  /** Loading the file, at any time and into any keyspace, reports no error and overlays the saved keyspace. */
  ghost predicate BringsBack(file: Bytes, keyspace: Keyspace, saved: u64, crc: Bytes -> u64) {
    forall before: Keyspace, loaded: u64 ::
      var l := Loaded(before, file, loaded, crc);
      l.keyspace == before + RestoredAll(keyspace, saved, loaded) && l.end.Ok?
  }

  lemma SnapshotBringsBack(file: Bytes, keyspace: Keyspace, saved: u64, crc: Bytes -> u64)
    requires IsSnapshot(file, keyspace, saved, crc)
    ensures Storable(keyspace) ==> BringsBack(file, keyspace, saved, crc)
  {
    var records :| SnapshotOf(records, keyspace, keyspace.Keys, saved) && file == FileCode(records, crc);
    if Storable(keyspace) {
      forall before: Keyspace, loaded: u64
        ensures var l := Loaded(before, file, loaded, crc);
                l.keyspace == before + RestoredAll(keyspace, saved, loaded) && l.end.Ok?
      {
        LoadOfSave(before, records, keyspace, saved, loaded, crc);
      }
    }
  }

  // ---------------------------------------------------------------------------------------------
  // The loops of save and load
  // ---------------------------------------------------------------------------------------------

  /** Walk a hash map: any order. */
  method Entries<K(!new, ==), V(!new)>(m: map<K, V>) returns (ps: seq<(K, V)>)
    ensures ListsMap(ps, m)
  {
    ps := [];
    var rest := m.Keys;
    while rest != {}
      invariant rest <= m.Keys && |ps| + |rest| == |m|
      invariant DistinctKeys(ps)
      invariant forall i :: 0 <= i < |ps| ==> ps[i].0 in m && ps[i].0 !in rest && m[ps[i].0] == ps[i].1
      invariant forall k :: k in m && k !in rest ==> (k, m[k]) in ps
      decreases rest
    {
      var k :| k in rest;
      ps := ps + [(k, m[k])];
      rest := rest - {k};
    }
  }

  /** Walk a hash set: any order. */
  method Elements<T(!new, ==)>(s: set<T>) returns (xs: seq<T>)
    ensures ListsSet(xs, s)
  {
    xs := [];
    var rest := s;
    while rest != {}
      invariant rest <= s && |xs| + |rest| == |s|
      invariant forall x :: x in xs <==> x in s && x !in rest
      decreases rest
    {
      var x :| x in rest;
      xs := xs + [x];
      rest := rest - {x};
    }
  }

  /** Append the elements of a collection to the buffer one after the other. */
  method EncodeMany<T>(buf: Bytes, c: T -> Bytes, items: seq<T>) returns (out: Bytes)
    ensures out == buf + CodeMany(c, items)
  {
    out := buf;
    assert items[..0] == [] && buf + [] == buf;
    for i := 0 to |items|
      invariant out == buf + CodeMany(c, items[..i])
    {
      CodeManyNext(c, items, i);
      out := out + c(items[i]);
    }
    assert items[..|items|] == items;
  }

  lemma CodeManyNext<T>(c: T -> Bytes, items: seq<T>, i: nat)
    requires i < |items|
    ensures CodeMany(c, items[..i + 1]) == CodeMany(c, items[..i]) + c(items[i])
  {
    assert items[..i + 1][..i] == items[..i];
  }

  method EncodeCounted<T>(buf: Bytes, c: T -> Bytes, items: seq<T>) returns (out: Bytes)
    ensures out == buf + CountedCode(c, items)
  {
    out := EncodeMany(buf + LengthCode(|items|), c, items);
  }

  /** The value part of a record: the code of some way to write the value. */
  method EncodeValue(buf: Bytes, v: Value) returns (out: Bytes)
    ensures exists im :: WrittenAs(v, im) && out == buf + ValueCode(im)
  {
    ghost var im;
    match v {
      case Str(s) =>
        im := StrImage(s);
        out := buf + StringCode(s);
      case List(items) =>
        im := ListImage(items);
        out := EncodeCounted(buf, StringCode, items);
      case ListPack(packed) =>
        im := ListImage(Texts(packed));
        out := EncodeCounted(buf, StringCode, Texts(packed));
      case Set(members) =>
        var xs := Elements(members);
        im := SetImage(xs);
        out := EncodeCounted(buf, StringCode, xs);
      case IntSet(ints) =>
        var xs := Numerals(ints);
        im := SetImage(xs);
        out := EncodeCounted(buf, StringCode, xs);
      case ZSet(scoreOf, _) =>
        var ps := Entries(scoreOf);
        im := ZSetImage(ps);
        out := EncodeCounted(buf, ScoredCode, ps);
      case Hash(fields) =>
        var ps := Entries(fields);
        im := HashImage(ps);
        out := EncodeCounted(buf, PairCode, ps);
      case Stream(entries, lastId, _) =>
        var ps := Entries(entries);
        im := StreamImage(ps, lastId);
        out := EncodeStream(buf, ps, lastId);
    }
    assert WrittenAs(v, im) && out == buf + ValueCode(im);
  }

  method Numerals(ints: set<i64>) returns (xs: seq<Bytes>)
    ensures |xs| == |ints| && forall x :: x in xs <==> x in Decimals(ints)
  {
    var ns := Elements(ints);
    xs := [];
    for i := 0 to |ns|
      invariant |xs| == i && forall j :: 0 <= j < i ==> xs[j] == Decimal(ns[j])
    {
      xs := xs + [Decimal(ns[i])];
    }
    forall x ensures x in xs <==> x in Decimals(ints) {
      if x in xs {
        var j :| 0 <= j < |xs| && xs[j] == x;
        assert ns[j] in ints;
      }
      if x in Decimals(ints) {
        var n :| n in ints && Decimal(n) == x;
        var j :| 0 <= j < |ns| && ns[j] == n;
        assert xs[j] == x;
      }
    }
  }

  method TotalOf(ps: seq<StreamItem>) returns (total: nat)
    ensures total == TotalFields(ps)
  {
    total := 0;
    for i := 0 to |ps|
      invariant total == TotalFields(ps[..i])
    {
      assert ps[..i + 1][..i] == ps[..i];
      total := total + |ps[i].1|;
    }
    assert ps[..|ps|] == ps;
  }

  lemma Regroup(buf: Bytes, a: Bytes, b: Bytes, c: Bytes, d: Bytes)
    ensures buf + a + b + c + d == buf + ((a + b) + (c + d))
  {
  }

  method EncodeStream(buf: Bytes, ps: seq<StreamItem>, lastId: StreamId) returns (out: Bytes)
    ensures out == buf + StreamCode(ps, lastId)
  {
    var total := TotalOf(ps);
    out := EncodeMany(buf + LengthCode(|ps|) + LengthCode(total), ItemCode, ps);
    out := out + IdCode(lastId);
    Regroup(buf, LengthCode(|ps|), LengthCode(total), CodeMany(ItemCode, ps), IdCode(lastId));
  }

  method EncodeStamp(buf: Bytes, deadline: Option<nat>, now: u64) returns (out: Bytes)
    ensures out == buf + StampCode(StampOf(deadline, now))
  {
    out := buf;
    if deadline.Some? {
      out := out + [EXPIRE_MS];
      out := out + U64Code(Max(now, deadline.value) % TWO_64);
    }
  }

  /** One key: its deadline if it has one, the type byte, the key and the value. */
  method SaveEntry(buf: Bytes, keyspace: Keyspace, key: Bytes, now: u64) returns (out: Bytes)
    requires key in keyspace
    ensures exists r: Record :: r.key == key && Writes(r, keyspace, now) && out == buf + RecordCode(r)
  {
    var e := keyspace[key];
    var head := EncodeStamp(buf, e.deadline, now);
    head := head + [KindOf(e.value)] + StringCode(key);
    out := EncodeValue(head, e.value);
    ghost var im :| WrittenAs(e.value, im) && out == head + ValueCode(im);
    ghost var r := Record(StampOf(e.deadline, now), key, im);
    KindWritten(e.value, im);
    Regroup(buf, StampCode(r.stamp), [KindOf(e.value)], StringCode(key), ValueCode(im));
    assert Writes(r, keyspace, now) && out == buf + RecordCode(r);
  }

  lemma KindWritten(v: Value, im: Image)
    requires WrittenAs(v, im)
    ensures TypeByte(im) == KindOf(v)
  {
  }

  /** The type byte of a value: compact encodings share that of the plain one. */
  function KindOf(v: Value): byte {
    match v
    case Str(_) => 0
    case List(_) => 1
    case ListPack(_) => 1
    case Set(_) => 2
    case IntSet(_) => 2
    case ZSet(_, _) => 3
    case Hash(_) => 4
    case Stream(_, _, _) => 19
  }

  lemma CloseBody(records: seq<Record>)
    ensures MAGIC + CodeMany(RecordCode, records) + [END] == BodyCode(records)
  {
  }

  lemma AppendCode<T>(c: T -> Bytes, prefix: Bytes, items: seq<T>, x: T)
    ensures prefix + CodeMany(c, items) + c(x) == prefix + CodeMany(c, items + [x])
  {
    assert (items + [x])[..|items|] == items;
  }

  lemma SnapshotGrows(records: seq<Record>, r: Record, keyspace: Keyspace, keys: set<Bytes>, now: u64)
    requires SnapshotOf(records, keyspace, keys, now) && Writes(r, keyspace, now) && r.key !in keys
    ensures SnapshotOf(records + [r], keyspace, keys + {r.key}, now)
  {
    var more := records + [r];
    assert KeysOf(more) == KeysOf(records) + {r.key};
    forall i, j | 0 <= i < j < |more| ensures more[i].key != more[j].key {
      if j == |records| {
        assert records[i].key in KeysOf(records);
      }
    }
  }

  lemma {:induction false} InsertedNext(keyspace: Keyspace, records: seq<Record>, r: Record, now: u64)
    ensures Inserted(keyspace, records + [r], now) == Inserted(keyspace, records, now)[r.key := EntryOf(r, now)]
    decreases |records|
  {
    if records == [] {
      assert [r][1..] == [];
      assert Inserted(keyspace, [] + [r], now) == Inserted(keyspace[r.key := EntryOf(r, now)], [], now);
    } else {
      assert (records + [r])[1..] == records[1..] + [r];
      InsertedNext(keyspace[records[0].key := EntryOf(records[0], now)], records[1..], r, now);
    }
  }

  /** One turn of load: a record read and made an entry. */
  method LoadRecord(input: Bytes, pos: nat, now: u64) returns (r: Parsed<(Bytes, Entry)>)
    ensures r == With(ParseRecord(input, pos), (x: Record) => (x.key, EntryOf(x, now)))
  {
    match ParseHead(input, pos) {
      case Fail(e) => return Fail(e);
      case Ok((stamp, kind), q) =>
        match ParseString(input, q) {
          case Fail(e) => return Fail(e);
          case Ok(key, t) =>
            var value := DecodeValue(input, t, kind);
            match value {
              case Fail(e) => return Fail(e);
              case Ok(v, u) => return Ok((key, Entry(v, DeadlineOf(stamp, now))), u);
            }
        }
    }
  }

  /** The loop of load: each record goes into the keyspace as soon as it is read. */
  method LoadRecords(before: Keyspace, input: Bytes, start: nat, now: u64) returns (keyspace: Keyspace, end: Parsed<()>)
    requires Advances(ParseRecord)
    ensures var run := ReadAll(ParseRecord, input, start);
            keyspace == Inserted(before, run.records, now) && end == run.end
  {
    keyspace := before;
    var pos := start;
    ghost var records: seq<Record> := [];
    assert Before([], ReadAll(ParseRecord, input, start)) == ReadAll(ParseRecord, input, start);
    while true
      invariant ReadAll(ParseRecord, input, start) == Before(records, ReadAll(ParseRecord, input, pos))
      invariant keyspace == Inserted(before, records, now)
      decreases |input| - pos
    {
      assert records + [] == records;
      if pos >= |input| {
        return keyspace, Fail(UnexpectedEof);
      }
      if input[pos] == END {
        return keyspace, Ok((), pos + 1);
      }
      var next := LoadRecord(input, pos, now);
      match next {
        case Fail(e) => return keyspace, Fail(e);
        case Ok((key, entry), q) =>
          ghost var r := ParseRecord(input, pos).value;
          BeforeTwice(records, [r], ReadAll(ParseRecord, input, q));
          InsertedNext(before, records, r, now);
          keyspace, records, pos := keyspace[key := entry], records + [r], q;
      }
    }
  }

  /** The loop of save over the keys, in any order. */
  method SaveRecords(keyspace: Keyspace, now: u64) returns (buf: Bytes)
    ensures exists records :: SnapshotOf(records, keyspace, keyspace.Keys, now) &&
              buf == MAGIC + CodeMany(RecordCode, records)
  {
    ghost var records := [];
    buf := MAGIC;
    var rest := keyspace.Keys;
    while rest != {}
      invariant rest <= keyspace.Keys
      invariant SnapshotOf(records, keyspace, keyspace.Keys - rest, now)
      invariant buf == MAGIC + CodeMany(RecordCode, records)
      decreases rest
    {
      var k :| k in rest;
      ghost var before := buf;
      buf := SaveEntry(buf, keyspace, k, now);
      ghost var r: Record :| r.key == k && Writes(r, keyspace, now) && buf == before + RecordCode(r);
      SnapshotGrows(records, r, keyspace, keyspace.Keys - rest, now);
      AppendCode(RecordCode, MAGIC, records, r);
      assert keyspace.Keys - rest + {k} == keyspace.Keys - (rest - {k});
      records := records + [r];
      rest := rest - {k};
    }
  }

  lemma ClosedSnapshot(file: Bytes, keyspace: Keyspace, now: u64, crc: Bytes -> u64)
    requires exists records :: && SnapshotOf(records, keyspace, keyspace.Keys, now)
                               && file == Sealed(MAGIC + CodeMany(RecordCode, records) + [END], crc)
    ensures IsSnapshot(file, keyspace, now, crc)
  {
    var records :| SnapshotOf(records, keyspace, keyspace.Keys, now)
                   && file == Sealed(MAGIC + CodeMany(RecordCode, records) + [END], crc);
    CloseBody(records);
    assert file == FileCode(records, crc);
  }

  class Store {
    var keyspace: Keyspace

    /** The bytes of a snapshot at time `now`, for some order of the keys and of every collection. Whatever that
        order was, loading them brings the keyspace back. */
    method Save(now: u64, crc: Bytes -> u64) returns (file: Bytes)
      ensures IsSnapshot(file, keyspace, now, crc)
      ensures Storable(keyspace) ==> BringsBack(file, keyspace, now, crc)
    {
      file := SaveRecords(keyspace, now);
      file := file + [END];
      file := file + U64Code(crc(file));
      ClosedSnapshot(file, keyspace, now, crc);
      SnapshotBringsBack(file, keyspace, now, crc);
    }

    /** Read any bytes into the keyspace. */
    method Load(file: Bytes, now: u64, crc: Bytes -> u64) returns (error: Option<Error>)
      modifies this
      ensures var l := Loaded(old(keyspace), file, now, crc);
              keyspace == l.keyspace && error == if l.end.Ok? then None else Some(l.end.error)
    {
      if |file| < 9 || file[..9] != MAGIC {
        return Some(InvalidMagic);
      }
      RecordAdvances();
      var end;
      keyspace, end := LoadRecords(keyspace, file, 9, now);
      if end.Fail? {
        return Some(end.error);
      }
      if FromLittleEndian(file[|file| - 8..]) != crc(file[..|file| - 8]) {
        return Some(CrcMismatch);
      }
      return None;
    }
  }
}
