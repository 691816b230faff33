/** Printed values and what is read back: a value is, if and only if it holds no length of 2^32 or more. */
module RdbLimits {
  import opened Data
  import opened RdbCodec

  /** The result is x, right behind its code, if all is well, and otherwise anything but x. */
  ghost predicate JudgedAs<T(!new)>(r: Parsed<T>, x: T, end: nat, good: bool) {
    if good then r == Ok(x, end) else r.Ok? ==> r.value != x
  }

  /** Wherever the code stands, x is read from it if it is good; if it is not, x is read from it nowhere. */
  ghost predicate Judged<T(!new)>(p: Parser<T>, code: Bytes, x: T, good: bool) {
    forall input: Bytes, pos: nat {:trigger At(input, pos, code)} ::
      At(input, pos, code) ==> JudgedAs(p(input, pos), x, pos + |code|, good)
  }

  lemma JudgedHere<T(!new)>(p: Parser<T>, code: Bytes, x: T, good: bool, input: Bytes, pos: nat)
    requires Judged(p, code, x, good) && At(input, pos, code)
    ensures JudgedAs(p(input, pos), x, pos + |code|, good)
  {
  }

  lemma ReadsIsGood<T(!new)>(p: Parser<T>, code: Bytes, x: T, good: bool)
    requires Judged(p, code, x, good)
    ensures Reads(p, code, x) <==> good
  {
    assert At(code, 0, code) by { assert code[0..|code|] == code; }
    if !good {
      assert JudgedAs(p(code, 0), x, |code|, good);
    }
  }

  // ---------------------------------------------------------------------------------------------
  // Putting parsers together
  // ---------------------------------------------------------------------------------------------

  lemma ThenJudged<S(!new), T(!new)>(p: Parser<S>, q: Parser<T>, a: Bytes, b: Bytes, x: S, y: T, u: bool, v: bool)
    requires Judged(p, a, x, u) && Judged(q, b, y, v)
    ensures forall input: Bytes, pos: nat :: At(input, pos, a + b) ==>
              JudgedAs(Then(p, q, input, pos), (x, y), pos + |a + b|, u && v)
  {
    forall input: Bytes, pos: nat | At(input, pos, a + b)
      ensures JudgedAs(Then(p, q, input, pos), (x, y), pos + |a + b|, u && v)
    {
      AtBoth(input, pos, a, b);
      assert JudgedAs(p(input, pos), x, pos + |a|, u);
      assert JudgedAs(q(input, pos + |a|), y, pos + |a| + |b|, v);
    }
  }

  lemma BindJudged<S(!new), T(!new)>(p: Parser<S>, f: S -> Parser<T>, a: Bytes, b: Bytes, x: S, y: T, good: bool,
                                     input: Bytes, pos: nat)
    requires Reads(p, a, x) && At(input, pos, a)
    requires JudgedAs(f(x)(input, pos + |a|), y, pos + |a| + |b|, good)
    ensures BoundAs(Bind(p, f, input, pos), x, y, pos + |a + b|, good)
  {
    assert p(input, pos) == Ok(x, pos + |a|);
  }

  /** The first part is read in any case; the second decides. */
  ghost predicate BoundAs<S(!new), T(!new)>(r: Parsed<(S, T)>, x: S, y: T, end: nat, good: bool) {
    if good then r == Ok((x, y), end) else r.Ok? ==> r.value.0 == x && r.value.1 != y
  }

  ghost predicate AllGood<T(!new)>(items: seq<T>, good: T -> bool) {
    forall x :: x in items ==> good(x)
  }

  ghost predicate AllJudged<T(!new)>(p: Parser<T>, c: T -> Bytes, items: seq<T>, good: T -> bool) {
    forall x :: x in items ==> Judged(p, c(x), x, good(x))
  }

  lemma AllGoodCons<T(!new)>(items: seq<T>, good: T -> bool)
    requires items != []
    ensures AllGood(items, good) <==> good(items[0]) && AllGood(items[1..], good)
  {
    assert items == [items[0]] + items[1..];
  }

  lemma HeadJudged<T(!new)>(p: Parser<T>, c: T -> Bytes, items: seq<T>, good: T -> bool, input: Bytes, pos: nat)
    requires items != [] && AllJudged(p, c, items, good) && At(input, pos, CodeMany(c, items))
    ensures AllJudged(p, c, items[1..], good)
    ensures At(input, pos + |c(items[0])|, CodeMany(c, items[1..]))
    ensures pos + |c(items[0])| + |CodeMany(c, items[1..])| == pos + |CodeMany(c, items)|
    ensures JudgedAs(p(input, pos), items[0], pos + |c(items[0])|, good(items[0]))
  {
    CodeManyCons(c, items);
    AtBoth(input, pos, c(items[0]), CodeMany(c, items[1..]));
    assert Judged(p, c(items[0]), items[0], good(items[0]));
  }

  /** A list is read back exactly when each of its items is: the first that is not is read as something else. */
  lemma {:induction false} ManyJudged<T(!new)>(p: Parser<T>, c: T -> Bytes, items: seq<T>, good: T -> bool,
                                               input: Bytes, pos: nat)
    requires AllJudged(p, c, items, good) && At(input, pos, CodeMany(c, items))
    ensures JudgedAs(ParseMany(p, input, pos, |items|), items, pos + |CodeMany(c, items)|, AllGood(items, good))
    decreases |items|
  {
    if items != [] {
      var head, tail := items[0], items[1..];
      var end := pos + |CodeMany(c, items)|;
      HeadJudged(p, c, items, good, input, pos);
      AllGoodCons(items, good);
      assert items == [head] + tail;
      if good(head) {
        var q := pos + |c(head)|;
        ManyJudged(p, c, tail, good, input, q);
        PrependJudged(head, tail, ParseMany(p, input, q, |tail|), end, AllGood(tail, good));
      } else if p(input, pos).Ok? {
        PrependOther(p(input, pos).value, head, tail, ParseMany(p, input, p(input, pos).pos, |tail|));
      }
    }
  }

  lemma ManyJudgedAnywhere<T(!new)>(p: Parser<T>, c: T -> Bytes, items: seq<T>, good: T -> bool)
    requires AllJudged(p, c, items, good)
    ensures forall input: Bytes, pos: nat :: At(input, pos, CodeMany(c, items)) ==>
              JudgedAs(ParseMany(p, input, pos, |items|), items, pos + |CodeMany(c, items)|, AllGood(items, good))
  {
    forall input: Bytes, pos: nat | At(input, pos, CodeMany(c, items))
      ensures JudgedAs(ParseMany(p, input, pos, |items|), items, pos + |CodeMany(c, items)|, AllGood(items, good))
    {
      ManyJudged(p, c, items, good, input, pos);
    }
  }

  lemma PrependJudged<T(!new)>(head: T, tail: seq<T>, rest: Parsed<seq<T>>, end: nat, good: bool)
    requires JudgedAs(rest, tail, end, good)
    ensures JudgedAs(Resume([head], rest), [head] + tail, end, good)
  {
    if rest.Ok? {
      assert ([head] + rest.value)[1..] == rest.value && ([head] + tail)[1..] == tail;
    }
  }

  lemma PrependOther<T(!new)>(other: T, head: T, tail: seq<T>, rest: Parsed<seq<T>>)
    requires other != head
    ensures var r := Resume([other], rest); r.Ok? ==> r.value != [head] + tail
  {
    if rest.Ok? {
      assert ([other] + rest.value)[0] == other && ([head] + tail)[0] == head;
    }
  }

  lemma {:induction false} ManySize<T>(p: Parser<T>, input: Bytes, pos: nat, n: nat)
    ensures var r := ParseMany(p, input, pos, n); r.Ok? ==> |r.value| == n
    decreases n
  {
    if n > 0 && p(input, pos).Ok? {
      ManySize(p, input, p(input, pos).pos, n - 1);
    }
  }

  /** A count of 2^32 or more loses its high bits, and another number of items is read. */
  lemma CountedAt<T(!new)>(p: Parser<T>, c: T -> Bytes, items: seq<T>, good: T -> bool, input: Bytes, pos: nat)
    requires AllJudged(p, c, items, good) && At(input, pos, CountedCode(c, items))
    ensures JudgedAs(ParseCounted(p, input, pos), items, pos + |CountedCode(c, items)|,
                     |items| < TWO_32 && AllGood(items, good))
  {
    LengthReads(|items|);
    CountedOf(p, c, items, good, LengthCode(|items|), input, pos);
  }

  lemma CountedOf<T(!new)>(p: Parser<T>, c: T -> Bytes, items: seq<T>, good: T -> bool, head: Bytes, input: Bytes,
                           pos: nat)
    requires AllJudged(p, c, items, good)
    requires Reads(ParseLength, head, Kept(|items|)) && At(input, pos, head + CodeMany(c, items))
    ensures JudgedAs(ParseCounted(p, input, pos), items, pos + |head + CodeMany(c, items)|,
                     |items| < TWO_32 && AllGood(items, good))
  {
    var body := CodeMany(c, items);
    AtBoth(input, pos, head, body);
    NumberJudged(p, c, items, good, input, pos + |head|);
    CountedOfParts(p, items, head, body, Kept(|items|), |items| < TWO_32 && AllGood(items, good), input, pos);
  }

  lemma NumberJudged<T(!new)>(p: Parser<T>, c: T -> Bytes, items: seq<T>, good: T -> bool, input: Bytes, pos: nat)
    requires AllJudged(p, c, items, good) && At(input, pos, CodeMany(c, items))
    ensures JudgedAs(ParseMany(p, input, pos, Kept(|items|)), items, pos + |CodeMany(c, items)|,
                     |items| < TWO_32 && AllGood(items, good))
  {
    KeptLess(|items|);
    if |items| < TWO_32 {
      ManyJudged(p, c, items, good, input, pos);
    } else {
      ManySize(p, input, pos, Kept(|items|));
    }
  }

  lemma CountedOfParts<T(!new)>(p: Parser<T>, items: seq<T>, head: Bytes, body: Bytes, n: nat, good: bool, input: Bytes,
                                pos: nat)
    requires Reads(ParseLength, head, n) && At(input, pos, head)
    requires JudgedAs(ParseMany(p, input, pos + |head|, n), items, pos + |head| + |body|, good)
    ensures JudgedAs(ParseCounted(p, input, pos), items, pos + |head + body|, good)
  {
    assert ParseLength(input, pos) == Ok(n, pos + |head|);
  }

  lemma KeptLess(n: nat)
    ensures Kept(n) == n <==> n < TWO_32
  {
  }

  // ---------------------------------------------------------------------------------------------
  // The elements
  // ---------------------------------------------------------------------------------------------

  lemma StringJudged(s: Bytes)
    ensures Judged(ParseString, StringCode(s), s, |s| < TWO_32)
  {
    forall input: Bytes, pos: nat | At(input, pos, StringCode(s))
      ensures JudgedAs(ParseString(input, pos), s, pos + |StringCode(s)|, |s| < TWO_32)
    {
      StringAt(input, pos, s);
      if |s| < TWO_32 {
        assert s[..|s|] == s;
      } else {
        assert |s[..Kept(|s|)]| < |s|;
      }
    }
  }

  /** A printed string is read back if and only if it is shorter than 2^32 bytes. */
  lemma StringBack(s: Bytes)
    ensures Undoes(ParseString, StringCode, s) <==> |s| < TWO_32
  {
    StringJudged(s);
    ReadsIsGood(ParseString, StringCode(s), s, |s| < TWO_32);
  }

  predicate ShortPair(x: Pair) {
    |x.0| < TWO_32 && |x.1| < TWO_32
  }

  lemma PairJudged(x: Pair)
    ensures Judged(ParsePair, PairCode(x), x, ShortPair(x))
  {
    StringJudged(x.0);
    StringJudged(x.1);
    ThenJudged(ParseString, ParseString, StringCode(x.0), StringCode(x.1), x.0, x.1, |x.0| < TWO_32, |x.1| < TWO_32);
  }

  lemma PairsJudged(pairs: seq<Pair>)
    ensures Judged(ParsePairs, CountedCode(PairCode, pairs), pairs, ShortPairs(pairs))
  {
    forall x | x in pairs ensures Judged(ParsePair, PairCode(x), x, ShortPair(x)) {
      PairJudged(x);
    }
    assert AllJudged(ParsePair, PairCode, pairs, ShortPair);
    assert ShortPairs(pairs) <==> |pairs| < TWO_32 && AllGood(pairs, ShortPair);
    forall input: Bytes, pos: nat | At(input, pos, CountedCode(PairCode, pairs))
      ensures JudgedAs(ParsePairs(input, pos), pairs, pos + |CountedCode(PairCode, pairs)|, ShortPairs(pairs))
    {
      CountedAt(ParsePair, PairCode, pairs, ShortPair, input, pos);
    }
  }

  predicate ShortScored(x: Scored) {
    |x.0| < TWO_32
  }

  lemma ScoredJudged(x: Scored)
    ensures Judged(ParseScored, ScoredCode(x), x, ShortScored(x))
  {
    StringJudged(x.0);
    U64Back(x.1);
    ThenJudged(ParseString, ParseU64, StringCode(x.0), U64Code(x.1), x.0, x.1, |x.0| < TWO_32, true);
  }

  lemma ScoresJudged(scored: seq<Scored>, input: Bytes, pos: nat)
    requires At(input, pos, CountedCode(ScoredCode, scored))
    ensures JudgedAs(ParseCounted(ParseScored, input, pos), scored, pos + |CountedCode(ScoredCode, scored)|,
                     Short(ZSetImage(scored)))
  {
    forall x | x in scored ensures Judged(ParseScored, ScoredCode(x), x, ShortScored(x)) {
      ScoredJudged(x);
    }
    assert Short(ZSetImage(scored)) <==> |scored| < TWO_32 && AllGood(scored, ShortScored);
    CountedAt(ParseScored, ScoredCode, scored, ShortScored, input, pos);
  }

  predicate ShortItem(x: StreamItem) {
    ShortPairs(x.1)
  }

  lemma ItemJudged(x: StreamItem)
    ensures Judged(ParseItem, ItemCode(x), x, ShortItem(x))
  {
    IdBack(x.0);
    PairsJudged(x.1);
    ThenJudged(ParseId, ParsePairs, IdCode(x.0), CountedCode(PairCode, x.1), x.0, x.1, true, ShortPairs(x.1));
  }

  predicate ShortString(s: Bytes) {
    |s| < TWO_32
  }

  lemma StringsJudged(items: seq<Bytes>, input: Bytes, pos: nat)
    requires At(input, pos, CountedCode(StringCode, items))
    ensures JudgedAs(ParseCounted(ParseString, input, pos), items, pos + |CountedCode(StringCode, items)|,
                     ShortStrings(items))
  {
    forall x | x in items ensures Judged(ParseString, StringCode(x), x, ShortString(x)) {
      StringJudged(x);
    }
    assert ShortStrings(items) <==> |items| < TWO_32 && AllGood(items, ShortString);
    CountedAt(ParseString, StringCode, items, ShortString, input, pos);
  }

  // ---------------------------------------------------------------------------------------------
  // Streams
  // ---------------------------------------------------------------------------------------------

  lemma CountsRead(n: nat, total: nat)
    ensures Reads(ParseCounts, LengthCode(n) + LengthCode(total), (Kept(n), Kept(total)))
  {
    LengthReads(n);
    LengthReads(total);
    ThenReads(ParseLength, ParseLength, LengthCode(n), LengthCode(total), Kept(n), Kept(total));
  }

  lemma ItemsJudged(items: seq<StreamItem>)
    ensures Judged(ParseItems(|items|), CodeMany(ItemCode, items), items, AllGood(items, ShortItem))
  {
    AllItemsJudged(items);
    ManyJudgedAnywhere(ParseItem, ItemCode, items, ShortItem);
  }

  lemma AllItemsJudged(items: seq<StreamItem>)
    ensures AllJudged(ParseItem, ItemCode, items, ShortItem)
  {
    forall x | x in items ensures Judged(ParseItem, ItemCode(x), x, ShortItem(x)) {
      ItemJudged(x);
    }
  }

  /** With its number kept, the body of a stream is judged by its entries. */
  lemma BodyJudged(items: seq<StreamItem>, lastId: StreamId, counts: (nat, nat))
    requires counts.0 == |items|
    ensures Judged(BodyParser(counts), StreamBody(items, lastId), (items, lastId), AllGood(items, ShortItem))
  {
    ItemsJudged(items);
    IdBack(lastId);
    ThenJudged(ParseItems(|items|), ParseId, CodeMany(ItemCode, items), IdCode(lastId), items, lastId,
               AllGood(items, ShortItem), true);
  }

  /** With another number, other entries are read. */
  lemma BodyLost(items: seq<StreamItem>, lastId: StreamId, counts: (nat, nat), input: Bytes, pos: nat)
    requires counts.0 != |items|
    ensures JudgedAs(BodyParser(counts)(input, pos), (items, lastId), 0, false)
  {
    ManySize(ParseItem, input, pos, counts.0);
  }

  lemma StreamJudged(entries: seq<StreamItem>, lastId: StreamId, input: Bytes, pos: nat)
    requires At(input, pos, StreamCode(entries, lastId))
    ensures JudgedAs(ParseStream(input, pos), StreamImage(entries, lastId), pos + |StreamCode(entries, lastId)|,
                     |entries| < TWO_32 && AllGood(entries, ShortItem))
  {
    var counts := (Kept(|entries|), Kept(TotalFields(entries)));
    var head, body := StreamHead(entries), StreamBody(entries, lastId);
    AtBoth(input, pos, head, body);
    CountsRead(|entries|, TotalFields(entries));
    BodyJudgedAt(entries, lastId, counts, input, pos + |head|);
    StreamOfJudged(head, body, counts, entries, lastId, |entries| < TWO_32 && AllGood(entries, ShortItem), input, pos);
  }

  lemma BodyJudgedAt(entries: seq<StreamItem>, lastId: StreamId, counts: (nat, nat), input: Bytes, pos: nat)
    requires counts.0 == Kept(|entries|) && At(input, pos, StreamBody(entries, lastId))
    ensures JudgedAs(BodyParser(counts)(input, pos), (entries, lastId), pos + |StreamBody(entries, lastId)|,
                     |entries| < TWO_32 && AllGood(entries, ShortItem))
  {
    KeptLess(|entries|);
    if |entries| < TWO_32 {
      BodyJudged(entries, lastId, counts);
    } else {
      BodyLost(entries, lastId, counts, input, pos);
    }
  }

  lemma StreamOfJudged(head: Bytes, body: Bytes, counts: (nat, nat), entries: seq<StreamItem>, lastId: StreamId,
                       good: bool, input: Bytes, pos: nat)
    requires Reads(ParseCounts, head, counts) && At(input, pos, head)
    requires JudgedAs(BodyParser(counts)(input, pos + |head|), (entries, lastId), pos + |head| + |body|, good)
    ensures JudgedAs(ParseStream(input, pos), StreamImage(entries, lastId), pos + |head + body|, good)
  {
    BindJudged(ParseCounts, BodyParser, head, body, counts, (entries, lastId), good, input, pos);
    StreamOfBound(counts, entries, lastId, pos + |head + body|, good, input, pos);
  }

  lemma StreamOfBound(counts: (nat, nat), entries: seq<StreamItem>, lastId: StreamId, end: nat, good: bool,
                      input: Bytes, pos: nat)
    requires BoundAs(Bind(ParseCounts, BodyParser, input, pos), counts, (entries, lastId), end, good)
    ensures JudgedAs(ParseStream(input, pos), StreamImage(entries, lastId), end, good)
  {
  }

  // ---------------------------------------------------------------------------------------------
  // Values
  // ---------------------------------------------------------------------------------------------

  lemma ShortStream(entries: seq<StreamItem>, lastId: StreamId)
    ensures Short(StreamImage(entries, lastId)) <==> |entries| < TWO_32 && AllGood(entries, ShortItem)
  {
  }

  lemma StrJudged(s: Bytes, input: Bytes, pos: nat)
    requires At(input, pos, StringCode(s))
    ensures JudgedAs(ParseValue(input, pos, 0), StrImage(s), pos + |StringCode(s)|, |s| < TWO_32)
  {
    StringJudged(s);
    JudgedHere(ParseString, StringCode(s), s, |s| < TWO_32, input, pos);
  }

  lemma ListJudged(items: seq<Bytes>, input: Bytes, pos: nat)
    requires At(input, pos, CountedCode(StringCode, items))
    ensures JudgedAs(ParseValue(input, pos, 1), ListImage(items), pos + |CountedCode(StringCode, items)|,
                     ShortStrings(items))
  {
    StringsJudged(items, input, pos);
  }

  lemma SetJudged(items: seq<Bytes>, input: Bytes, pos: nat)
    requires At(input, pos, CountedCode(StringCode, items))
    ensures JudgedAs(ParseValue(input, pos, 2), SetImage(items), pos + |CountedCode(StringCode, items)|,
                     ShortStrings(items))
  {
    StringsJudged(items, input, pos);
  }

  lemma ZSetJudged(scored: seq<Scored>, input: Bytes, pos: nat)
    requires At(input, pos, CountedCode(ScoredCode, scored))
    ensures JudgedAs(ParseValue(input, pos, 3), ZSetImage(scored), pos + |CountedCode(ScoredCode, scored)|,
                     Short(ZSetImage(scored)))
  {
    ScoresJudged(scored, input, pos);
  }

  lemma HashJudged(pairs: seq<Pair>, input: Bytes, pos: nat)
    requires At(input, pos, CountedCode(PairCode, pairs))
    ensures JudgedAs(ParseValue(input, pos, 4), HashImage(pairs), pos + |CountedCode(PairCode, pairs)|,
                     ShortPairs(pairs))
  {
    PairsJudged(pairs);
    JudgedHere(ParsePairs, CountedCode(PairCode, pairs), pairs, ShortPairs(pairs), input, pos);
  }

  lemma StreamValueJudged(entries: seq<StreamItem>, lastId: StreamId, input: Bytes, pos: nat)
    requires At(input, pos, StreamCode(entries, lastId))
    ensures JudgedAs(ParseValue(input, pos, 19), StreamImage(entries, lastId), pos + |StreamCode(entries, lastId)|,
                     Short(StreamImage(entries, lastId)))
  {
    StreamJudged(entries, lastId, input, pos);
    ShortStream(entries, lastId);
  }

  lemma ValueJudgedAt(v: Image, input: Bytes, pos: nat)
    requires At(input, pos, ValueCode(v))
    ensures JudgedAs(ParseValue(input, pos, TypeByte(v)), v, pos + |ValueCode(v)|, Short(v))
  {
    match v
    case StrImage(s) => StrJudged(s, input, pos);
    case ListImage(items) => ListJudged(items, input, pos);
    case SetImage(members) => SetJudged(members, input, pos);
    case ZSetImage(scored) => ZSetJudged(scored, input, pos);
    case HashImage(pairs) => HashJudged(pairs, input, pos);
    case StreamImage(entries, lastId) => StreamValueJudged(entries, lastId, input, pos);
  }

  lemma ValueJudged(v: Image)
    ensures Judged(ValueParser(TypeByte(v)), ValueCode(v), v, Short(v))
  {
    forall input: Bytes, pos: nat | At(input, pos, ValueCode(v))
      ensures JudgedAs(ValueParser(TypeByte(v))(input, pos), v, pos + |ValueCode(v)|, Short(v))
    {
      ValueJudgedAt(v, input, pos);
    }
  }

  /** A printed value is read back, whatever surrounds it, if and only if every count and every string in it is below
      2^32; one that is not is read back nowhere. */
  lemma ValueBack(v: Image)
    ensures Reads(ValueParser(TypeByte(v)), ValueCode(v), v) <==> Short(v)
    ensures forall input: Bytes, pos: nat :: At(input, pos, ValueCode(v)) && !Short(v) ==>
              var r := ParseValue(input, pos, TypeByte(v)); r.Ok? ==> r.value != v
  {
    ValueJudged(v);
    ReadsIsGood(ValueParser(TypeByte(v)), ValueCode(v), v, Short(v));
    forall input: Bytes, pos: nat | At(input, pos, ValueCode(v)) && !Short(v)
      ensures var r := ParseValue(input, pos, TypeByte(v)); r.Ok? ==> r.value != v
    {
      ValueJudgedAt(v, input, pos);
    }
  }
}
