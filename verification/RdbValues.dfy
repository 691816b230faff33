/** The values of a keyspace, the ways they can be written to a snapshot, and what reading makes of them. */
module RdbValues {
  import opened Data
  import opened Indexes
  import opened RdbCodec
  import Streams

  type i64 = n: int | -0x8000_0000_0000_0000 <= n < 0x8000_0000_0000_0000

  // ---------------------------------------------------------------------------------------------
  // Values in memory
  // ---------------------------------------------------------------------------------------------

  /** A score is the pattern of a 64-bit float. The score index is keyed by float equality, under which every NaN equals
      every other and 0.0 equals -0.0: each score is filed under one pattern of its class. */
  predicate IsNaN(bits: u64) {
    WithoutSign(bits) > 0x7FF0_0000_0000_0000
  }

  predicate IsZero(bits: u64) {
    WithoutSign(bits) == 0
  }

  function WithoutSign(bits: u64): u64 {
    if bits >= 0x8000_0000_0000_0000 then bits - 0x8000_0000_0000_0000 else bits
  }

  predicate SameScore(a: u64, b: u64) {
    a == b || (IsNaN(a) && IsNaN(b)) || (IsZero(a) && IsZero(b))
  }

  function ScoreKey(bits: u64): u64 {
    if IsNaN(bits) then 0x7FF8_0000_0000_0000 else if IsZero(bits) then 0 else bits
  }

  lemma ScoreKeyExactly(a: u64, b: u64)
    ensures ScoreKey(a) == ScoreKey(b) <==> SameScore(a, b)
  {
  }

  datatype PackEntry = PackInt(n: i64) | PackText(s: Bytes)

  datatype Value =
    | Str(s: Bytes)
    | List(items: seq<Bytes>)
    | ListPack(packed: seq<PackEntry>)
    | Set(members: set<Bytes>)
    | IntSet(ints: set<i64>)
    | ZSet(scoreOf: map<Bytes, u64>, scores: map<u64, set<Bytes>>)
    | Hash(fields: map<Bytes, Bytes>)
    | Stream(entries: map<StreamId, seq<Pair>>, lastId: StreamId, groups: set<string>)

  /** A deadline is a wall-clock time in milliseconds. */
  datatype Entry = Entry(value: Value, deadline: Option<nat>)

  type Keyspace = map<Bytes, Entry>

  function Digits(n: nat): Bytes {
    if n < 10 then [48 + n] else Digits(n / 10) + [48 + n % 10]
  }

  /** to_string of an integer. */
  function Decimal(n: i64): Bytes {
    var k: int := n;
    if k < 0 then [45] + Digits(-k) else Digits(k)
  }

  /** The number a row of digits stands for in base ten. */
  function FromDigits(s: Bytes): int {
    if s == [] then 0
    else
      var last: int := s[|s| - 1];
      10 * FromDigits(s[..|s| - 1]) + last - 48
  }

  ghost predicate AreDigits(s: Bytes) {
    forall i :: 0 <= i < |s| ==> 48 <= s[i] <= 57
  }

  lemma {:induction false} DigitsBack(n: nat)
    ensures FromDigits(Digits(n)) == n && Digits(n) != [] && AreDigits(Digits(n))
    ensures Digits(n)[0] == 48 ==> n == 0
  {
    if n >= 10 {
      DigitsBack(n / 10);
      assert Digits(n)[..|Digits(n)| - 1] == Digits(n / 10);
    }
  }

  /** What is written for an integer is its decimal notation: a minus sign if it is negative, and digits that stand
      for it in base ten, with no zero in front but that of zero itself. */
  lemma DecimalBack(n: i64)
    ensures var k: int := n;
            var s := Decimal(n);
            var digits := if k < 0 then s[1..] else s;
            && (k < 0 ==> s[0] == 45)
            && AreDigits(digits) && digits != []
            && FromDigits(digits) == (if k < 0 then -k else k)
            && (digits[0] == 48 ==> k == 0)
  {
    var k: int := n;
    DigitsBack(if k < 0 then -k else k);
  }

  function Text(e: PackEntry): Bytes {
    match e
    case PackInt(n) => Decimal(n)
    case PackText(s) => s
  }

  function Texts(s: seq<PackEntry>): (r: seq<Bytes>)
    ensures |r| == |s| && forall i :: 0 <= i < |s| ==> r[i] == Text(s[i])
  {
    if s == [] then [] else Texts(s[..|s| - 1]) + [Text(s[|s| - 1])]
  }

  function Decimals(ints: set<i64>): set<Bytes> {
    set n | n in ints :: Decimal(n)
  }

  function Pow10(k: nat): nat {
    if k == 0 then 1 else 10 * Pow10(k - 1)
  }

  lemma {:induction false} DigitsLength(n: nat, k: nat)
    requires k > 0 && n < Pow10(k)
    ensures |Digits(n)| <= k
    decreases k
  {
    if n >= 10 {
      assert k > 1;
      DigitsLength(n / 10, k - 1);
    }
  }

  lemma DecimalLength(n: i64)
    ensures |Decimal(n)| <= 20
  {
    assert Pow10(19) == 10_000_000_000_000_000_000 by {
      assert Pow10(5) == 100_000;
      assert Pow10(10) == 10_000_000_000;
      assert Pow10(15) == 1_000_000_000_000_000;
    }
    var k: int := n;
    DigitsLength(if k < 0 then -k else k, 19);
  }

  // ---------------------------------------------------------------------------------------------
  // Listings of collections, and the collections made of listings
  // ---------------------------------------------------------------------------------------------

  /** ps lists the entries of m, each once, in any order. */
  ghost predicate ListsMap<K(!new), V(!new)>(ps: seq<(K, V)>, m: map<K, V>) {
    && |ps| == |m|
    && DistinctKeys(ps)
    && (forall i :: 0 <= i < |ps| ==> ps[i].0 in m && m[ps[i].0] == ps[i].1)
    && (forall k :: k in m ==> (k, m[k]) in ps)
  }

  ghost predicate ListsSet<T(!new)>(xs: seq<T>, s: set<T>) {
    |xs| == |s| && forall x :: x in xs <==> x in s
  }

  /** Insert the listed entries one after the other. */
  function FromPairs<K, V>(ps: seq<(K, V)>): map<K, V> {
    if ps == [] then map[] else FromPairs(ps[..|ps| - 1])[ps[|ps| - 1].0 := ps[|ps| - 1].1]
  }

  /** The elements of a sorted set with the keys of their scores for the scores. */
  function Keyed(ps: seq<Scored>): (r: seq<Scored>)
    ensures |r| == |ps| && forall i :: 0 <= i < |ps| ==> r[i] == (ps[i].0, ScoreKey(ps[i].1))
  {
    seq(|ps|, i requires 0 <= i < |ps| => (ps[i].0, ScoreKey(ps[i].1)))
  }

  function KeyedMap(m: map<Bytes, u64>): map<Bytes, u64> {
    map x | x in m :: ScoreKey(m[x])
  }

  /** The score index built next to the member map. */
  function ScoreIndex(ps: seq<Scored>): map<u64, set<Bytes>> {
    if ps == [] then map[]
    else
      var index, p := ScoreIndex(ps[..|ps| - 1]), ps[|ps| - 1];
      AddToBucket(index, ScoreKey(p.1), p.0)
  }

  function IndexOf(ps: seq<Scored>): map<u64, set<Bytes>> {
    if ps == [] then map[]
    else
      var index, p := IndexOf(ps[..|ps| - 1]), ps[|ps| - 1];
      AddToBucket(index, p.1, p.0)
  }

  lemma {:induction false} FromPairsKeys<K(!new), V>(ps: seq<(K, V)>, k: K)
    ensures k in FromPairs(ps) <==> exists i :: 0 <= i < |ps| && ps[i].0 == k
  {
    if ps != [] {
      var front := ps[..|ps| - 1];
      FromPairsKeys(front, k);
      assert forall i :: 0 <= i < |front| ==> front[i] == ps[i];
      if k == ps[|ps| - 1].0 {
        assert exists i :: 0 <= i < |ps| && ps[i].0 == k;
      } else if k in FromPairs(front) {
        var i :| 0 <= i < |front| && front[i].0 == k;
        assert ps[i].0 == k;
      }
    }
  }

  ghost predicate DistinctKeys<K, V>(ps: seq<(K, V)>) {
    forall i, j :: 0 <= i < j < |ps| ==> ps[i].0 != ps[j].0
  }

  /** No key is listed with two different values. */
  ghost predicate OneValueEach<K, V>(ps: seq<(K, V)>) {
    forall i, j :: 0 <= i < |ps| && 0 <= j < |ps| && ps[i].0 == ps[j].0 ==> ps[i].1 == ps[j].1
  }

  lemma {:induction false} FromPairsValue<K(!new), V>(ps: seq<(K, V)>, i: nat)
    requires OneValueEach(ps) && i < |ps|
    ensures ps[i].0 in FromPairs(ps) && FromPairs(ps)[ps[i].0] == ps[i].1
  {
    var front := ps[..|ps| - 1];
    if i < |front| {
      FromPairsValue(front, i);
      assert front[i] == ps[i];
    }
  }

  /** Of equal keys the last one listed counts. */
  lemma {:induction false} FromPairsLast<K(!new), V>(ps: seq<(K, V)>, i: nat)
    requires i < |ps| && forall j :: i < j < |ps| ==> ps[j].0 != ps[i].0
    ensures ps[i].0 in FromPairs(ps) && FromPairs(ps)[ps[i].0] == ps[i].1
  {
    if i < |ps| - 1 {
      FromPairsLast(ps[..|ps| - 1], i);
    }
  }

  /** Inserting any listing of a map rebuilds the map. */
  lemma MapRebuilt<K(!new), V(!new)>(ps: seq<(K, V)>, m: map<K, V>)
    requires ListsMap(ps, m)
    ensures FromPairs(ps) == m
  {
    forall k ensures k in FromPairs(ps) <==> k in m {
      FromPairsKeys(ps, k);
      if k in m {
        var i :| 0 <= i < |ps| && ps[i] == (k, m[k]);
        assert ps[i].0 == k;
      }
    }
    forall k | k in m ensures FromPairs(ps)[k] == m[k] {
      var i :| 0 <= i < |ps| && ps[i] == (k, m[k]);
      FromPairsValue(ps, i);
    }
  }

  lemma {:induction false} IndexLists(ps: seq<Scored>, s: u64, m: Bytes)
    ensures m in BucketOf(IndexOf(ps), s) <==> exists i :: 0 <= i < |ps| && ps[i] == (m, s)
  {
    if ps != [] {
      var front := ps[..|ps| - 1];
      IndexLists(front, s, m);
      assert forall i :: 0 <= i < |front| ==> front[i] == ps[i];
      if ps[|ps| - 1] == (m, s) {
        assert exists i :: 0 <= i < |ps| && ps[i] == (m, s);
      } else if m in BucketOf(IndexOf(front), s) {
        var i :| 0 <= i < |front| && front[i] == (m, s);
        assert ps[i] == (m, s);
      }
    }
  }

  lemma {:induction false} NoEmptyBucket(ps: seq<Scored>, s: u64)
    requires s in IndexOf(ps)
    ensures IndexOf(ps)[s] != {}
  {
    var front := ps[..|ps| - 1];
    if s != ps[|ps| - 1].1 {
      NoEmptyBucket(front, s);
    } else {
      assert ps[|ps| - 1].0 in IndexOf(ps)[s];
    }
  }

  lemma {:induction false} KeyedPairs(ps: seq<Scored>)
    ensures FromPairs(Keyed(ps)) == KeyedMap(FromPairs(ps))
  {
    if ps != [] {
      var front, p := ps[..|ps| - 1], ps[|ps| - 1];
      KeyedPairs(front);
      assert Keyed(ps)[..|ps| - 1] == Keyed(front);
      KeyedInsert(FromPairs(front), p.0, p.1);
    }
  }

  lemma KeyedInsert(m: map<Bytes, u64>, x: Bytes, bits: u64)
    ensures KeyedMap(m[x := bits]) == KeyedMap(m)[x := ScoreKey(bits)]
  {
  }

  lemma {:induction false} KeyedIndex(ps: seq<Scored>)
    ensures IndexOf(Keyed(ps)) == ScoreIndex(ps)
  {
    if ps != [] {
      KeyedIndex(ps[..|ps| - 1]);
      assert Keyed(ps)[..|ps| - 1] == Keyed(ps[..|ps| - 1]);
    }
  }

  /** No member is listed with two scores that differ as floats. */
  ghost predicate OneScoreEach(ps: seq<Scored>) {
    forall i, j :: 0 <= i < |ps| && 0 <= j < |ps| && ps[i].0 == ps[j].0 ==> SameScore(ps[i].1, ps[j].1)
  }

  /** The two indexes of a sorted set, filled side by side from the elements read, agree if and only if no member is
      listed with two scores that differ as floats. */
  lemma IndexesAgreeExactly(ps: seq<Scored>)
    ensures Agree(KeyedMap(FromPairs(ps)), ScoreIndex(ps)) <==> OneScoreEach(ps)
  {
    var keyed := Keyed(ps);
    KeyedPairs(ps);
    KeyedIndex(ps);
    KeysAgreeExactly(keyed);
    forall i, j | 0 <= i < |ps| && 0 <= j < |ps| ensures keyed[i].1 == keyed[j].1 <==> SameScore(ps[i].1, ps[j].1) {
      ScoreKeyExactly(ps[i].1, ps[j].1);
    }
  }

  lemma KeysAgreeExactly(ps: seq<Scored>)
    ensures Agree(FromPairs(ps), IndexOf(ps)) <==> OneValueEach(ps)
  {
    if OneValueEach(ps) {
      IndexesAgree(ps);
    }
    if Agree(FromPairs(ps), IndexOf(ps)) {
      forall i, j | 0 <= i < |ps| && 0 <= j < |ps| && ps[i].0 == ps[j].0 ensures ps[i].1 == ps[j].1 {
        Listed(ps, i);
        Listed(ps, j);
        OneBucketEach(FromPairs(ps), IndexOf(ps), ps[i].0, ps[i].1, ps[j].1);
      }
    }
  }

  lemma Listed(ps: seq<Scored>, i: nat)
    requires i < |ps|
    ensures ps[i].0 in BucketOf(IndexOf(ps), ps[i].1)
  {
    IndexLists(ps, ps[i].1, ps[i].0);
    assert ps[i] == (ps[i].0, ps[i].1);
  }

  lemma IndexesAgree(ps: seq<Scored>)
    requires OneValueEach(ps)
    ensures Agree(FromPairs(ps), IndexOf(ps))
  {
    var members, index := FromPairs(ps), IndexOf(ps);
    forall s | s in index ensures index[s] != {} {
      NoEmptyBucket(ps, s);
    }
    forall s, m | s in index && m in index[s] ensures m in members && members[m] == s {
      IndexLists(ps, s, m);
      var i :| 0 <= i < |ps| && ps[i] == (m, s);
      FromPairsValue(ps, i);
    }
    forall m | m in members ensures members[m] in index && m in index[members[m]] {
      FromPairsKeys(ps, m);
      var i :| 0 <= i < |ps| && ps[i].0 == m;
      FromPairsValue(ps, i);
      assert ps[i] == (m, members[m]);
      IndexLists(ps, members[m], m);
    }
  }

  // ---------------------------------------------------------------------------------------------
  // What is written for a value, and what it is read as
  // ---------------------------------------------------------------------------------------------

  /** The image is a way to write the value: its collections listed in some order. */
  ghost predicate WrittenAs(v: Value, im: Image) {
    match v
    case Str(s) => im == StrImage(s)
    case List(items) => im == ListImage(items)
    case ListPack(packed) => im == ListImage(Texts(packed))
    case Set(members) => im.SetImage? && ListsSet(im.members, members)
    case IntSet(ints) => im.SetImage? && |im.members| == |ints| && forall x :: x in im.members <==> x in Decimals(ints)
    case ZSet(scoreOf, _) => im.ZSetImage? && ListsMap(im.scored, scoreOf)
    case Hash(fields) => im.HashImage? && ListsMap(im.pairs, fields)
    case Stream(entries, lastId, _) => im.StreamImage? && im.lastId == lastId && ListsMap(im.entries, entries)
  }

  function ZSetOf(scored: seq<Scored>): Value {
    ZSet(FromPairs(scored), ScoreIndex(scored))
  }

  /** The collections decode_value builds from the elements it reads. */
  function Meaning(im: Image): Value {
    match im
    case StrImage(s) => Str(s)
    case ListImage(items) => List(items)
    case SetImage(members) => Set(set x | x in members)
    case ZSetImage(scored) => ZSetOf(scored)
    case HashImage(pairs) => Hash(FromPairs(pairs))
    case StreamImage(entries, lastId) => Stream(FromPairs(entries), lastId, {})
  }

  /** Compact encodings become plain ones; consumer groups are not written. */
  function Normalise(v: Value): Value {
    match v
    case ListPack(packed) => List(Texts(packed))
    case IntSet(ints) => Set(Decimals(ints))
    case Stream(entries, lastId, _) => Stream(entries, lastId, {})
    case _ => v
  }

  /** Sorted sets keep their two indexes in step. */
  ghost predicate Sound(v: Value) {
    v.ZSet? ==> Agree(KeyedMap(v.scoreOf), v.scores)
  }

  lemma ZSetRebuilt(scored: seq<Scored>, scoreOf: map<Bytes, u64>, scores: map<u64, set<Bytes>>)
    requires ListsMap(scored, scoreOf) && Agree(KeyedMap(scoreOf), scores)
    ensures FromPairs(scored) == scoreOf && ScoreIndex(scored) == scores
  {
    MapRebuilt(scored, scoreOf);
    IndexesAgreeExactly(scored);
    AgreeDetermines(KeyedMap(scoreOf), scores, ScoreIndex(scored));
  }

  /** However a value was written, it means the same value, normalised. */
  lemma MeaningOfWritten(v: Value, im: Image)
    requires Sound(v) && WrittenAs(v, im)
    ensures Meaning(im) == Normalise(v)
  {
    match v
    case ZSet(scoreOf, scores) =>
      ZSetRebuilt(im.scored, scoreOf, scores);
    case Hash(fields) => MapRebuilt(im.pairs, fields);
    case Stream(entries, _, _) => MapRebuilt(im.entries, entries);
    case _ =>
  }

  /** Every count and every string of the value is below 2^32. */
  predicate ShortValue(v: Value) {
    match v
    case Str(s) => |s| < TWO_32
    case List(items) => ShortStrings(items)
    case ListPack(packed) => ShortStrings(Texts(packed))
    case Set(members) => |members| < TWO_32 && forall x :: x in members ==> |x| < TWO_32
    case IntSet(ints) => |ints| < TWO_32
    case ZSet(scoreOf, _) => |scoreOf| < TWO_32 && forall x :: x in scoreOf ==> |x| < TWO_32
    case Hash(fields) => |fields| < TWO_32 && forall x :: x in fields ==> |x| < TWO_32 && |fields[x]| < TWO_32
    case Stream(entries, _, _) => |entries| < TWO_32 && forall x :: x in entries ==> ShortPairs(entries[x])
  }

  lemma ShortWritten(v: Value, im: Image)
    requires ShortValue(v) && WrittenAs(v, im)
    ensures Short(im)
  {
    match v
    case IntSet(ints) =>
      forall x | x in im.members ensures |x| < TWO_32 {
        var n :| n in ints && Decimal(n) == x;
        DecimalLength(n);
      }
    case _ =>
  }

  // ---------------------------------------------------------------------------------------------
  // Reading a value: the loops of decode_value
  // ---------------------------------------------------------------------------------------------

  /** The result with something else in place of what was read. */
  function With<S, T>(r: Parsed<S>, f: S -> T): Parsed<T> {
    match r
    case Fail(e) => Fail(e)
    case Ok(x, q) => Ok(f(x), q)
  }

  lemma ResumeNothing<T>(r: Parsed<seq<T>>)
    ensures Resume([], r) == r
  {
    if r.Ok? {
      assert [] + r.value == r.value;
    }
  }

  /** A list is extended at its end. */
  method DecodeMany<T>(p: Parser<T>, input: Bytes, pos: nat, n: nat) returns (r: Parsed<seq<T>>)
    ensures r == ParseMany(p, input, pos, n)
  {
    var items, at := [], pos;
    ResumeNothing(ParseMany(p, input, pos, n));
    for i := 0 to n
      invariant ParseMany(p, input, pos, n) == Resume(items, ParseMany(p, input, at, n - i))
    {
      match p(input, at) {
        case Fail(e) => return Fail(e);
        case Ok(x, q) =>
          ResumeTwice(items, [x], ParseMany(p, input, q, n - i - 1));
          items, at := items + [x], q;
      }
    }
    r := Ok(items, at);
    assert items + [] == items;
  }

  method DecodeSet(input: Bytes, pos: nat, n: nat) returns (r: Parsed<set<Bytes>>)
    ensures r == With(ParseMany(ParseString, input, pos, n), (xs: seq<Bytes>) => set x | x in xs)
  {
    var members, at := {}, pos;
    ghost var items := [];
    ResumeNothing(ParseMany(ParseString, input, pos, n));
    for i := 0 to n
      invariant ParseMany(ParseString, input, pos, n) == Resume(items, ParseMany(ParseString, input, at, n - i))
      invariant members == set x | x in items
    {
      match ParseString(input, at) {
        case Fail(e) => return Fail(e);
        case Ok(x, q) =>
          ResumeTwice(items, [x], ParseMany(ParseString, input, q, n - i - 1));
          members, items, at := members + {x}, items + [x], q;
      }
    }
    r := Ok(members, at);
    assert items + [] == items;
  }

  lemma FromPairsStep<K, V>(ps: seq<(K, V)>, p: (K, V))
    ensures FromPairs(ps + [p]) == FromPairs(ps)[p.0 := p.1]
  {
    assert (ps + [p])[..|ps|] == ps;
  }

  lemma ZSetStep(ps: seq<Scored>, p: Scored, scoreOf: map<Bytes, u64>, scores: map<u64, set<Bytes>>)
    requires ZSet(scoreOf, scores) == ZSetOf(ps)
    ensures ZSet(scoreOf[p.0 := p.1], AddToBucket(scores, ScoreKey(p.1), p.0)) == ZSetOf(ps + [p])
  {
    FromPairsStep(ps, p);
    assert (ps + [p])[..|ps|] == ps;
  }

  method DecodeMap<K, V>(p: Parser<(K, V)>, input: Bytes, pos: nat, n: nat) returns (r: Parsed<map<K, V>>)
    ensures r == With(ParseMany(p, input, pos, n), FromPairs)
  {
    var m: map<K, V>, at := map[], pos;
    ghost var items := [];
    ResumeNothing(ParseMany(p, input, pos, n));
    for i := 0 to n
      invariant ParseMany(p, input, pos, n) == Resume(items, ParseMany(p, input, at, n - i))
      invariant m == FromPairs(items)
    {
      match p(input, at) {
        case Fail(e) => return Fail(e);
        case Ok(x, q) =>
          ResumeTwice(items, [x], ParseMany(p, input, q, n - i - 1));
          FromPairsStep(items, x);
          m, items, at := m[x.0 := x.1], items + [x], q;
      }
    }
    r := Ok(m, at);
    assert items + [] == items;
  }

  /** Both indexes of a sorted set are filled side by side. */
  method DecodeZSet(p: Parser<Scored>, input: Bytes, pos: nat, n: nat) returns (r: Parsed<Value>)
    ensures r == With(ParseMany(p, input, pos, n), ZSetOf)
  {
    var scoreOf: map<Bytes, u64>, scores: map<u64, set<Bytes>>, at := map[], map[], pos;
    ghost var items := [];
    ResumeNothing(ParseMany(p, input, pos, n));
    for i := 0 to n
      invariant ParseMany(p, input, pos, n) == Resume(items, ParseMany(p, input, at, n - i))
      invariant ZSet(scoreOf, scores) == ZSetOf(items)
    {
      match p(input, at) {
        case Fail(e) => return Fail(e);
        case Ok(x, q) =>
          ResumeTwice(items, [x], ParseMany(p, input, q, n - i - 1));
          ZSetStep(items, x, scoreOf, scores);
          scoreOf, scores := scoreOf[x.0 := x.1], AddToBucket(scores, ScoreKey(x.1), x.0);
          items, at := items + [x], q;
      }
    }
    r := Ok(ZSet(scoreOf, scores), at);
    assert items + [] == items;
  }

  method DecodeStream(input: Bytes, pos: nat) returns (r: Parsed<Value>)
    ensures r == With(ParseStream(input, pos), Meaning)
  {
    match ParseCounts(input, pos) {
      case Fail(e) => return Fail(e);
      case Ok((n, _), q) =>
        var entries := DecodeMap(ParseItem, input, q, n);
        match entries {
          case Fail(e) => return Fail(e);
          case Ok(m, t) =>
            match ParseId(input, t) {
              case Fail(e) => return Fail(e);
              case Ok(lastId, u) => return Ok(Stream(m, lastId, {}), u);
            }
        }
    }
  }

  /** decode_value on arbitrary bytes: it succeeds where and as far as the format says, and then holds what the
      elements it read amount to. */
  method DecodeValue(input: Bytes, pos: nat, kind: byte) returns (r: Parsed<Value>)
    ensures r == With(ParseValue(input, pos, kind), Meaning)
  {
    if kind == 0 {
      return With(ParseString(input, pos), (s: Bytes) => Str(s));
    }
    if kind == 19 {
      r := DecodeStream(input, pos);
      return;
    }
    if !(1 <= kind <= 4) {
      return Fail(UnknownType(kind));
    }
    match ParseLength(input, pos) {
      case Fail(e) => return Fail(e);
      case Ok(n, q) => r := DecodeCollection(input, pos, kind, n, q);
    }
  }

  method DecodeCollection(input: Bytes, pos: nat, kind: byte, n: nat, q: nat) returns (r: Parsed<Value>)
    requires 1 <= kind <= 4 && ParseLength(input, pos) == Ok(n, q)
    ensures r == With(ParseValue(input, pos, kind), Meaning)
  {
    if kind == 1 {
      var items := DecodeMany(ParseString, input, q, n);
      r := With(items, (xs: seq<Bytes>) => List(xs));
    } else if kind == 2 {
      var members := DecodeSet(input, q, n);
      r := With(members, (xs: set<Bytes>) => Set(xs));
    } else if kind == 3 {
      r := DecodeZSet(ParseScored, input, q, n);
    } else {
      var fields := DecodeMap(ParsePair, input, q, n);
      r := With(fields, (m: map<Bytes, Bytes>) => Hash(m));
    }
  }
}
