/** Sorted sets: a member map and a score-ordered bucket index that must agree with it. */
module ZSet {
  import opened Data
  import opened Indexes
  import opened Order

  /** A score: a finite number or an infinity. */
  datatype Score = NegInf | Fin(value: real) | PosInf

  type Entry = (Bytes, Score)

  // ---------------------------------------------------------------------------------------------
  // Orders
  // ---------------------------------------------------------------------------------------------

  predicate ScoreLess(x: Score, y: Score) {
    match (x, y)
    case (Fin(a), Fin(b)) => a < b
    case (NegInf, _) => y != NegInf
    case (_, PosInf) => x != PosInf
    case _ => false
  }

  /** Byte strings compare lexicographically. */
  predicate BytesLess(x: Bytes, y: Bytes) {
    if y == [] then false
    else if x == [] then true
    else x[0] < y[0] || (x[0] == y[0] && BytesLess(x[1..], y[1..]))
  }

  /** The first byte in which they differ decides, and a string comes before those it begins. */
  lemma {:induction false} BytesLessExactly(x: Bytes, y: Bytes)
    ensures BytesLess(x, y) <==> exists n: nat :: DiffersAt(x, y, n)
  {
    if x != [] && y != [] && x[0] == y[0] {
      BytesLessExactly(x[1..], y[1..]);
      if n: nat :| DiffersAt(x, y, n) {
        DiffersSooner(x, y, n);
      }
      if n: nat :| DiffersAt(x[1..], y[1..], n) {
        DiffersLater(x, y, n);
      }
    } else {
      DiffersAtOnce(x, y);
    }
  }

  /** The strings agree up to position n, where x ends before y or has the smaller byte. */
  predicate DiffersAt(x: Bytes, y: Bytes, n: nat) {
    n <= |x| && n < |y| && x[..n] == y[..n] && (n == |x| || x[n] < y[n])
  }

  lemma DiffersAtOnce(x: Bytes, y: Bytes)
    requires x == [] || y == [] || x[0] != y[0]
    ensures BytesLess(x, y) <==> DiffersAt(x, y, 0)
    ensures forall n: nat :: DiffersAt(x, y, n) ==> n == 0
  {
    forall n: nat | n > 0 && |x| >= n && |y| >= n && x[0] != y[0] ensures x[..n] != y[..n] {
      assert x[..n][0] != y[..n][0];
    }
  }

  lemma DiffersSooner(x: Bytes, y: Bytes, n: nat)
    requires x != [] && y != [] && x[0] == y[0] && DiffersAt(x, y, n)
    ensures n > 0 && DiffersAt(x[1..], y[1..], n - 1)
  {
    assert n > 0;
    assert x[1..][..n - 1] == x[..n][1..] && y[1..][..n - 1] == y[..n][1..];
  }

  lemma DiffersLater(x: Bytes, y: Bytes, n: nat)
    requires x != [] && y != [] && x[0] == y[0] && DiffersAt(x[1..], y[1..], n)
    ensures DiffersAt(x, y, n + 1)
  {
    assert x[..n + 1] == [x[0]] + x[1..][..n] && y[..n + 1] == [y[0]] + y[1..][..n];
  }

  /** By score, then by member. */
  predicate EntryLess(x: Entry, y: Entry) {
    ScoreLess(x.1, y.1) || (x.1 == y.1 && BytesLess(x.0, y.0))
  }

  lemma ScoreOrder()
    ensures StrictTotal(ScoreLess)
  {
  }

  lemma {:induction false} BytesIrreflexive(x: Bytes)
    ensures !BytesLess(x, x)
  {
    if x != [] {
      BytesIrreflexive(x[1..]);
    }
  }

  lemma {:induction false} BytesTransitive(x: Bytes, y: Bytes, z: Bytes)
    requires BytesLess(x, y) && BytesLess(y, z)
    ensures BytesLess(x, z)
  {
    if x != [] && x[0] == y[0] == z[0] {
      BytesTransitive(x[1..], y[1..], z[1..]);
    }
  }

  lemma {:induction false} BytesTotal(x: Bytes, y: Bytes)
    ensures x == y || BytesLess(x, y) || BytesLess(y, x)
  {
    if x != [] && y != [] && x[0] == y[0] {
      BytesTotal(x[1..], y[1..]);
      assert x == [x[0]] + x[1..] && y == [y[0]] + y[1..];
    }
  }

  lemma BytesOrder()
    ensures StrictTotal(BytesLess)
  {
    forall x ensures !BytesLess(x, x) {
      BytesIrreflexive(x);
    }
    forall x, y, z | BytesLess(x, y) && BytesLess(y, z) ensures BytesLess(x, z) {
      BytesTransitive(x, y, z);
    }
    forall x, y ensures x == y || BytesLess(x, y) || BytesLess(y, x) {
      BytesTotal(x, y);
    }
  }

  lemma EntryOrder()
    ensures StrictTotal(EntryLess)
  {
    forall x: Entry ensures !EntryLess(x, x) {
      BytesIrreflexive(x.0);
    }
    forall x: Entry, y: Entry, z: Entry | EntryLess(x, y) && EntryLess(y, z) ensures EntryLess(x, z) {
      if x.1 == y.1 == z.1 {
        BytesTransitive(x.0, y.0, z.0);
      }
    }
    forall x: Entry, y: Entry ensures x == y || EntryLess(x, y) || EntryLess(y, x) {
      BytesTotal(x.0, y.0);
    }
  }

  /** The scores of the index, the members of a bucket, and the entries of a set, in order. */
  function Scores(s: set<Score>): seq<Score> {
    ScoreOrder();
    Sorted(s, ScoreLess)
  }

  function Members(s: set<Bytes>): (r: seq<Bytes>)
    ensures |r| == |s|
  {
    BytesOrder();
    Sorted(s, BytesLess)
  }

  function Entries(m: map<Bytes, Score>): (r: seq<Entry>)
    ensures |r| == |m|
  {
    EntryOrder();
    assert |m.Items| == |m|;
    Sorted(m.Items, EntryLess)
  }

  lemma ScoresEnumerate(s: set<Score>)
    ensures Enumerates(Scores(s), s, ScoreLess)
  {
    ScoreOrder();
    SortedEnumerates(s, ScoreLess);
  }

  lemma MembersEnumerate(s: set<Bytes>)
    ensures Enumerates(Members(s), s, BytesLess)
  {
    BytesOrder();
    SortedEnumerates(s, BytesLess);
  }

  /** The list of entries is strictly sorted by score and member, and lists exactly the map. */
  lemma EntriesEnumerate(m: map<Bytes, Score>)
    ensures Enumerates(Entries(m), m.Items, EntryLess)
  {
    EntryOrder();
    SortedEnumerates(m.Items, EntryLess);
  }

  /** The one score is not the greater number, an infinity being beyond all others. */
  predicate NotAbove(x: Score, y: Score) {
    x == NegInf || y == PosInf || (x.Fin? && y.Fin? && x.value <= y.value)
  }

  /** So from one entry to any later one the score does not fall, and within one score the members rise. */
  lemma EntriesAscend(m: map<Bytes, Score>, i: nat, j: nat)
    requires i < j < |Entries(m)|
    ensures var x, y := Entries(m)[i], Entries(m)[j];
            NotAbove(x.1, y.1) && (x.1 == y.1 ==> exists n: nat :: DiffersAt(x.0, y.0, n))
  {
    EntriesEnumerate(m);
    var x, y := Entries(m)[i], Entries(m)[j];
    assert EntryLess(x, y);
    BytesLessExactly(x.0, y.0);
  }

  lemma EntriesUnique(e: seq<Entry>, m: map<Bytes, Score>)
    requires Enumerates(e, m.Items, EntryLess)
    ensures e == Entries(m)
  {
    EntryOrder();
    SortedIsTheEnumeration(e, m.Items, EntryLess);
  }

  lemma EntryListed(m: map<Bytes, Score>, e: Entry)
    ensures e in Entries(m) <==> e.0 in m && m[e.0] == e.1
  {
    EntriesEnumerate(m);
    assert e == (e.0, e.1);
    assert e in m.Items <==> e.0 in m && m[e.0] == e.1;
  }

  // ---------------------------------------------------------------------------------------------
  // The buckets of the score index
  // ---------------------------------------------------------------------------------------------

  type Index = map<Score, set<Bytes>>

  /** The entries of one bucket, in member order. */
  function BucketEntries(s: Score, bucket: set<Bytes>): (r: seq<Entry>)
    ensures |r| == |bucket|
  {
    var ms := Members(bucket);
    seq(|ms|, i requires 0 <= i < |ms| => (ms[i], s))
  }

  /** The entries of the buckets of the given scores, one after another. */
  function Flatten(index: Index, ks: seq<Score>): seq<Entry> {
    if ks == [] then []
    else Flatten(index, ks[..|ks| - 1]) + BucketEntries(ks[|ks| - 1], BucketOf(index, ks[|ks| - 1]))
  }

  lemma BucketMembers(s: Score, bucket: set<Bytes>, e: Entry)
    ensures e in BucketEntries(s, bucket) <==> e.1 == s && e.0 in bucket
  {
    var ms := Members(bucket);
    var es := BucketEntries(s, bucket);
    MembersEnumerate(bucket);
    if e.1 == s && e.0 in bucket {
      assert e.0 in ms;
      var i :| 0 <= i < |ms| && ms[i] == e.0;
      assert es[i] == e;
    }
    if e in es {
      var i :| 0 <= i < |es| && es[i] == e;
      assert ms[i] in ms;
    }
  }

  lemma BucketIncreasing(s: Score, bucket: set<Bytes>)
    ensures Increasing(BucketEntries(s, bucket), EntryLess)
  {
    MembersEnumerate(bucket);
  }

  lemma {:induction false} FlattenMembers(index: Index, ks: seq<Score>, e: Entry)
    ensures e in Flatten(index, ks) <==> e.1 in ks && e.0 in BucketOf(index, e.1)
  {
    if ks != [] {
      var init, last := ks[..|ks| - 1], ks[|ks| - 1];
      FlattenMembers(index, init, e);
      assert e.1 in ks <==> e.1 in init || e.1 == last;
      BucketMembers(last, BucketOf(index, last), e);
    }
  }

  lemma {:induction false} FlattenIncreasing(index: Index, ks: seq<Score>)
    requires Increasing(ks, ScoreLess)
    ensures Increasing(Flatten(index, ks), EntryLess)
  {
    if ks != [] {
      var init, last := ks[..|ks| - 1], ks[|ks| - 1];
      var a, b := Flatten(index, init), BucketEntries(last, BucketOf(index, last));
      FlattenIncreasing(index, init);
      BucketIncreasing(last, BucketOf(index, last));
      forall i, j | 0 <= i < |a| && 0 <= j < |b| ensures EntryLess(a[i], b[j]) {
        assert a[i] in a;
        FlattenMembers(index, init, a[i]);
        var k :| 0 <= k < |init| && init[k] == a[i].1;
        assert ScoreLess(ks[k], ks[|ks| - 1]);
      }
      IncreasingAppend(a, b);
    }
  }

  lemma IncreasingAppend(a: seq<Entry>, b: seq<Entry>)
    requires Increasing(a, EntryLess) && Increasing(b, EntryLess)
    requires forall i, j :: 0 <= i < |a| && 0 <= j < |b| ==> EntryLess(a[i], b[j])
    ensures Increasing(a + b, EntryLess)
  {
  }

  lemma FlattenLists(members: map<Bytes, Score>, index: Index, ks: seq<Score>, e: Entry)
    requires Agree(members, index) && (forall k :: k in ks <==> k in index.Keys)
    ensures e in Flatten(index, ks) <==> e in members.Items
  {
    FlattenMembers(index, ks, e);
    InBucket(members, index, e.1, e.0);
    assert e == (e.0, e.1);
  }

  lemma FlattenEntries(members: map<Bytes, Score>, index: Index, ks: seq<Score>)
    requires Agree(members, index) && Enumerates(ks, index.Keys, ScoreLess)
    ensures Flatten(index, ks) == Entries(members)
  {
    FlattenIncreasing(index, ks);
    forall e: Entry ensures e in Flatten(index, ks) <==> e in members.Items {
      FlattenLists(members, index, ks, e);
    }
    EntriesUnique(Flatten(index, ks), members);
  }

  /** When the index agrees, walking its buckets in order lists the map's entries in order. */
  lemma FlattenIsEntries(members: map<Bytes, Score>, index: Index)
    requires Agree(members, index)
    ensures Flatten(index, Scores(index.Keys)) == Entries(members)
  {
    ScoresEnumerate(index.Keys);
    FlattenEntries(members, index, Scores(index.Keys));
  }

  /** Every member is found in the bucket of its score. */
  lemma BucketOfMember(members: map<Bytes, Score>, index: Index, member: Bytes)
    requires Agree(members, index) && member in members
    ensures members[member] in Scores(index.Keys) && member in BucketOf(index, members[member])
  {
    ScoresEnumerate(index.Keys);
  }

  lemma {:induction false} FlattenPrefix(index: Index, ks: seq<Score>, k: nat)
    requires k <= |ks|
    ensures Flatten(index, ks[..k]) <= Flatten(index, ks)
    decreases |ks|
  {
    if k == |ks| {
      assert ks[..k] == ks;
    } else {
      var init := ks[..|ks| - 1];
      assert init[..k] == ks[..k];
      FlattenPrefix(index, init, k);
    }
  }

  lemma FlattenNext(index: Index, ks: seq<Score>, k: nat)
    requires k < |ks|
    ensures Flatten(index, ks[..k + 1]) == Flatten(index, ks[..k]) + BucketEntries(ks[k], BucketOf(index, ks[k]))
  {
    assert ks[..k + 1][..k] == ks[..k];
  }

  /** Where the j-th member of the k-th bucket stands. */
  lemma FlattenAt(index: Index, ks: seq<Score>, k: nat, j: nat, bucket: set<Bytes>, all: seq<Entry>, before: nat)
    requires k < |ks| && bucket == BucketOf(index, ks[k]) && j < |bucket|
    requires all == Flatten(index, ks) && before == |Flatten(index, ks[..k])|
    ensures before + j < |all| && all[before + j] == (Members(bucket)[j], ks[k])
  {
    FlattenPrefix(index, ks, k + 1);
    FlattenNext(index, ks, k);
    InsideMiddle(Flatten(index, ks[..k]), BucketEntries(ks[k], bucket), all, j);
  }

  lemma InsideMiddle(front: seq<Entry>, middle: seq<Entry>, all: seq<Entry>, j: nat)
    requires front + middle <= all && j < |middle|
    ensures |front| + j < |all| && all[|front| + j] == middle[j]
  {
    assert (front + middle)[|front| + j] == middle[j];
  }

  // ---------------------------------------------------------------------------------------------
  // Removing entries
  // ---------------------------------------------------------------------------------------------

  function Drop(m: map<Bytes, Score>, es: seq<Entry>): map<Bytes, Score> {
    map k | k in m && (k, m[k]) !in es :: m[k]
  }

  /** Dropping some of the entries leaves the list of the others. */
  lemma EntriesOfDrop(m: map<Bytes, Score>, es: seq<Entry>, rest: seq<Entry>)
    requires Increasing(rest, EntryLess)
    requires forall e :: e in Entries(m) <==> e in es || e in rest
    requires forall e :: e in es ==> e !in rest
    ensures Entries(Drop(m, es)) == rest
  {
    forall e: Entry ensures e in rest <==> e in Drop(m, es).Items {
      EntryListed(m, e);
      assert e == (e.0, e.1);
    }
    EntriesUnique(rest, Drop(m, es));
  }

  lemma FrontAndBack(all: seq<Entry>, n: nat)
    requires Increasing(all, EntryLess) && n <= |all|
    ensures Increasing(all[..n], EntryLess) && Increasing(all[n..], EntryLess)
    ensures forall e :: e in all <==> e in all[..n] || e in all[n..]
    ensures forall e :: e in all[..n] ==> e !in all[n..]
  {
    var a, b := all[..n], all[n..];
    assert all == a + b;
    EntryOrder();
    forall i, j | 0 <= i < |a| && 0 <= j < |b| ensures a[i] != b[j] {
      assert EntryLess(all[i], all[n + j]);
    }
  }

  /** Dropping the front of the list leaves the back, and the other way round. */
  lemma EntriesSplit(m: map<Bytes, Score>, all: seq<Entry>, front: seq<Entry>, back: seq<Entry>)
    requires all == Entries(m) && all == front + back
    ensures Entries(Drop(m, front)) == back
    ensures Entries(Drop(m, back)) == front
  {
    EntriesEnumerate(m);
    FrontAndBack(all, |front|);
    assert all[..|front|] == front && all[|front|..] == back;
    EntriesOfDrop(m, front, back);
    EntriesOfDrop(m, back, front);
  }

  lemma Listed(m: map<Bytes, Score>, all: seq<Entry>, part: seq<Entry>)
    requires all == Entries(m) && forall e :: e in part ==> e in all
    ensures forall e :: e in part ==> e in m.Items
  {
    EntriesEnumerate(m);
  }

  // ---------------------------------------------------------------------------------------------
  // Bounds and indices
  // ---------------------------------------------------------------------------------------------

  datatype ScoreBound = Inclusive(v: Score) | Exclusive(v: Score) | Lowest | Highest {
    predicate ContainsUpper(s: Score) {
      match this
      case Inclusive(v) => !ScoreLess(v, s)
      case Exclusive(v) => ScoreLess(s, v)
      case Lowest => false
      case Highest => true
    }

    predicate ContainsLower(s: Score) {
      match this
      case Inclusive(v) => !ScoreLess(s, v)
      case Exclusive(v) => ScoreLess(v, s)
      case Lowest => true
      case Highest => false
    }

    function Value(): Score {
      match this
      case Inclusive(v) => v
      case Exclusive(v) => v
      case Lowest => NegInf
      case Highest => PosInf
    }
  }

  /** The entries whose scores satisfy both bounds, in order: the plain filter. */
  function Between(es: seq<Entry>, min: ScoreBound, max: ScoreBound): seq<Entry> {
    if es == [] then []
    else
      var last := es[|es| - 1];
      Between(es[..|es| - 1], min, max)
      + if min.ContainsLower(last.1) && max.ContainsUpper(last.1) then [last] else []
  }

  /** What a bound asks of a score, as a lower and as an upper one. */
  predicate AtLeast(s: Score, b: ScoreBound) {
    b == Lowest || (b.Inclusive? && NotAbove(b.v, s)) || (b.Exclusive? && NotAbove(b.v, s) && s != b.v)
  }

  predicate AtMost(s: Score, b: ScoreBound) {
    b == Highest || (b.Inclusive? && NotAbove(s, b.v)) || (b.Exclusive? && NotAbove(s, b.v) && s != b.v)
  }

  /** It lists, in the order they had, exactly the entries whose scores meet both bounds. */
  lemma {:induction false} BetweenExactly(es: seq<Entry>, min: ScoreBound, max: ScoreBound)
    requires Increasing(es, EntryLess)
    ensures Increasing(Between(es, min, max), EntryLess)
    ensures forall e :: e in Between(es, min, max) <==> e in es && AtLeast(e.1, min) && AtMost(e.1, max)
  {
    if es != [] {
      var init, last := es[..|es| - 1], es[|es| - 1];
      BetweenExactly(init, min, max);
      assert es == init + [last];
      BoundsMean(last.1, min, max);
      var kept := Between(init, min, max);
      forall e | e in kept ensures EntryLess(e, last) {
        LastIsGreatest(es, e);
      }
      IncreasingWith(kept, last);
    }
  }

  lemma BoundsMean(s: Score, min: ScoreBound, max: ScoreBound)
    ensures min.ContainsLower(s) <==> AtLeast(s, min)
    ensures max.ContainsUpper(s) <==> AtMost(s, max)
  {
  }

  lemma LastIsGreatest(es: seq<Entry>, e: Entry)
    requires es != [] && Increasing(es, EntryLess) && e in es[..|es| - 1]
    ensures EntryLess(e, es[|es| - 1])
  {
    var i :| 0 <= i < |es| - 1 && es[..|es| - 1][i] == e;
    assert EntryLess(es[i], es[|es| - 1]);
  }

  lemma IncreasingWith(es: seq<Entry>, last: Entry)
    requires Increasing(es, EntryLess) && forall e :: e in es ==> EntryLess(e, last)
    ensures Increasing(es + [last], EntryLess)
  {
  }

  lemma {:induction false} BetweenAppend(a: seq<Entry>, b: seq<Entry>, min: ScoreBound, max: ScoreBound)
    ensures Between(a + b, min, max) == Between(a, min, max) + Between(b, min, max)
    decreases |b|
  {
    if b == [] {
      assert a + b == a;
    } else {
      var init, last := b[..|b| - 1], b[|b| - 1];
      BetweenAppend(a, init, min, max);
      var kept := if min.ContainsLower(last.1) && max.ContainsUpper(last.1) then [last] else [];
      assert b == init + [last];
      Associate(a, init, [last]);
      BetweenSnoc(a + init, last, min, max);
      BetweenSnoc(init, last, min, max);
      Associate(Between(a, min, max), Between(init, min, max), kept);
    }
  }

  lemma Associate<T>(x: seq<T>, y: seq<T>, z: seq<T>)
    ensures (x + y) + z == x + (y + z)
  {
  }

  lemma BetweenSnoc(es: seq<Entry>, last: Entry, min: ScoreBound, max: ScoreBound)
    ensures Between(es + [last], min, max)
         == Between(es, min, max) + if min.ContainsLower(last.1) && max.ContainsUpper(last.1) then [last] else []
  {
    assert (es + [last])[..|es|] == es;
  }

  lemma {:induction false} BetweenUniform(es: seq<Entry>, min: ScoreBound, max: ScoreBound, keep: bool)
    requires forall i :: 0 <= i < |es| ==> (keep <==> min.ContainsLower(es[i].1) && max.ContainsUpper(es[i].1))
    ensures Between(es, min, max) == if keep then es else []
  {
    if es != [] {
      BetweenUniform(es[..|es| - 1], min, max, keep);
    }
  }

  /** norm_idx: negative indices count from the end and stop at the front. */
  function NormIdx(idx: int, len: nat): nat {
    if idx < 0 then Max(len + idx, 0) else idx
  }

  /** The slice both range helpers cut from their list. */
  function RangeOf<T>(all: seq<T>, start: int, stop: int): seq<T> {
    if all == [] then []
    else
      var s, e := NormIdx(start, |all|), NormIdx(stop, |all|);
      if s > e || s >= |all| then []
      else all[s..Max(Min(e, |all| - 1), s) + 1]
  }

  /** The elements at positions lo <= i <= hi: the plain filter. */
  function Select<T>(all: seq<T>, lo: int, hi: int): seq<T> {
    if all == [] then []
    else
      var n := |all| - 1;
      Select(all[..n], lo, hi) + if lo <= n <= hi then [all[n]] else []
  }

  /** all[s..=e], empty when that is not a slice. */
  function Slice<T>(all: seq<T>, s: int, e: int): seq<T> {
    if 0 <= s <= e < |all| then all[s..e + 1] else []
  }

  lemma {:induction false} SelectIsSlice<T>(all: seq<T>, lo: int, hi: int)
    ensures Select(all, lo, hi) == Slice(all, Max(lo, 0), Min(hi, |all| - 1))
  {
    if all != [] {
      var n := |all| - 1;
      SelectIsSlice(all[..n], lo, hi);
      SliceGrows(all, n, lo, hi);
    }
  }

  lemma SliceGrows<T>(all: seq<T>, n: nat, lo: int, hi: int)
    requires n == |all| - 1
    ensures Slice(all, Max(lo, 0), Min(hi, n))
         == Slice(all[..n], Max(lo, 0), Min(hi, n - 1)) + if lo <= n <= hi then [all[n]] else []
  {
  }

  /** What the clamping amounts to. */
  lemma RangeIsSlice<T>(all: seq<T>, start: int, stop: int)
    ensures RangeOf(all, start, stop)
            == Slice(all, Max(Resolve(start, |all|), 0), Min(Max(Resolve(stop, |all|), 0), |all| - 1))
  {
  }

  lemma SlicesDiffer<T>(all: seq<T>, s: nat, hi: int)
    ensures Slice(all, s, Min(Max(hi, 0), |all| - 1)) == Slice(all, s, Min(hi, |all| - 1))
            <==> !(all != [] && hi < 0 && s == 0)
  {
    if all != [] && hi < 0 && s == 0 {
      assert |Slice(all, 0, 0)| == 1;
    }
  }

  /** The range is exactly the elements between the two indices, except when the second index points
      before the front and the first at the front: then the first element is returned where nothing
      should be. */
  lemma RangeExactly<T>(all: seq<T>, start: int, stop: int)
    ensures RangeOf(all, start, stop) == Select(all, Resolve(start, |all|), Resolve(stop, |all|))
            <==> !(all != [] && stop < 0 - |all| && (start == 0 || start <= 0 - |all|))
  {
    var lo, hi := Resolve(start, |all|), Resolve(stop, |all|);
    RangeIsSlice(all, start, stop);
    SelectIsSlice(all, lo, hi);
    SlicesDiffer(all, Max(lo, 0), hi);
  }

  // ---------------------------------------------------------------------------------------------
  // Walking the buckets
  // ---------------------------------------------------------------------------------------------

  /** The inner loop: the members of one bucket, each with its score. */
  method AppendBucket(sofar: seq<Entry>, s: Score, bucket: set<Bytes>) returns (result: seq<Entry>)
    ensures result == sofar + BucketEntries(s, bucket)
  {
    result := sofar;
    var ms := Members(bucket);
    ghost var es := BucketEntries(s, bucket);
    for j := 0 to |ms|
      invariant result == sofar + es[..j]
    {
      result := result + [(ms[j], s)];
    }
    assert es[..|ms|] == es;
  }

  method WalkBuckets(index: Index, ks: seq<Score>) returns (result: seq<Entry>)
    ensures result == Flatten(index, ks)
  {
    result := [];
    assert ks[..0] == [];
    for k := 0 to |ks|
      invariant result == Flatten(index, ks[..k])
    {
      FlattenNext(index, ks, k);
      result := AppendBucket(result, ks[k], BucketOf(index, ks[k]));
    }
    assert ks[..|ks|] == ks;
  }

  /** Position of a member in its bucket. */
  method PositionInBucket(bucket: set<Bytes>, member: Bytes) returns (j: nat)
    requires member in bucket
    ensures j < |bucket| && Members(bucket)[j] == member
  {
    var ms := Members(bucket);
    MembersEnumerate(bucket);
    assert member in ms;
    j := 0;
    while ms[j] != member
      invariant j < |ms| && member in ms[j..]
      decreases |ms| - j
    {
      j := j + 1;
    }
  }

  /** Count past the buckets before the target score. */
  method CountBefore(index: Index, ks: seq<Score>, target: Score) returns (k: nat, rank: nat)
    requires target in ks
    ensures k < |ks| && ks[k] == target && rank == |Flatten(index, ks[..k])|
  {
    rank, k := 0, 0;
    ghost var at :| 0 <= at < |ks| && ks[at] == target;
    assert ks[..0] == [];
    while ks[k] != target
      invariant k <= at && rank == |Flatten(index, ks[..k])|
      decreases at - k
    {
      var bucket := BucketOf(index, ks[k]);
      LengthNext(index, ks, k, bucket);
      rank := rank + |bucket|;
      k := k + 1;
    }
  }

  /** Count past the buckets after the target score. */
  method CountAfter(index: Index, ks: seq<Score>, target: Score) returns (k: nat, rank: nat)
    requires target in ks
    ensures k < |ks| && ks[k] == target && rank + |Flatten(index, ks[..k + 1])| == |Flatten(index, ks)|
  {
    rank, k := 0, |ks| - 1;
    assert ks[..|ks|] == ks;
    while ks[k] != target
      invariant k < |ks| && target in ks[..k + 1]
      invariant rank + |Flatten(index, ks[..k + 1])| == |Flatten(index, ks)|
      decreases k
    {
      FlattenNext(index, ks, k);
      rank := rank + |BucketOf(index, ks[k])|;
      k := k - 1;
    }
  }

  method RankIn(index: Index, ks: seq<Score>, target: Score, member: Bytes, ghost all: seq<Entry>) returns (rank: nat)
    requires target in ks && member in BucketOf(index, target) && all == Flatten(index, ks)
    ensures rank < |all| && all[rank] == (member, target)
  {
    var k, before := CountBefore(index, ks, target);
    var bucket := BucketOf(index, target);
    var j := PositionInBucket(bucket, member);
    FlattenAt(index, ks, k, j, bucket, all, before);
    rank := before + j;
  }

  method RevRankIn(index: Index, ks: seq<Score>, target: Score, member: Bytes, ghost all: seq<Entry>)
    returns (rank: nat)
    requires target in ks && member in BucketOf(index, target) && all == Flatten(index, ks)
    ensures rank < |all| && all[|all| - 1 - rank] == (member, target)
  {
    var k, after := CountAfter(index, ks, target);
    var bucket := BucketOf(index, target);
    var j := PositionInBucket(bucket, member);
    rank := after + (|bucket| - 1 - j);
    ghost var at := FromTheEnd(index, ks, k, j, bucket, all, after);
    assert at == |all| - 1 - rank;
  }

  lemma FromTheEnd(index: Index, ks: seq<Score>, k: nat, j: nat, bucket: set<Bytes>, all: seq<Entry>, after: nat)
    returns (at: nat)
    requires k < |ks| && bucket == BucketOf(index, ks[k]) && j < |bucket|
    requires all == Flatten(index, ks) && after + |Flatten(index, ks[..k + 1])| == |all|
    ensures at < |all| && all[at] == (Members(bucket)[j], ks[k])
    ensures at + after + |bucket| - j == |all|
  {
    var before := |Flatten(index, ks[..k])|;
    LengthNext(index, ks, k, bucket);
    FlattenAt(index, ks, k, j, bucket, all, before);
    at := before + j;
  }

  lemma LengthNext(index: Index, ks: seq<Score>, k: nat, bucket: set<Bytes>)
    requires k < |ks| && bucket == BucketOf(index, ks[k])
    ensures |Flatten(index, ks[..k + 1])| == |Flatten(index, ks[..k])| + |bucket|
  {
    FlattenNext(index, ks, k);
  }

  /** The buckets within the bounds, stopping at the first one above the upper value. */
  method BucketsBetween(index: Index, ks: seq<Score>, min: ScoreBound, max: ScoreBound) returns (result: seq<Entry>)
    requires Increasing(ks, ScoreLess)
    ensures result == Between(Flatten(index, ks), min, max)
  {
    result := [];
    assert ks[..0] == [];
    for k := 0 to |ks|
      invariant result == Between(Flatten(index, ks[..k]), min, max)
    {
      var s := ks[k];
      BucketBetween(index, ks, k, min, max);
      if !min.ContainsLower(s) {
        continue;
      }
      if ScoreLess(max.Value(), s) {
        NothingAbove(index, ks, k, min, max);
        return;
      }
      if !max.ContainsUpper(s) {
        continue;
      }
      result := AppendBucket(result, s, BucketOf(index, s));
    }
    assert ks[..|ks|] == ks;
  }

  // ---------------------------------------------------------------------------------------------
  // The sorted set
  // ---------------------------------------------------------------------------------------------

  class ZSetData {
    var members: map<Bytes, Score>
    var scores: Index

    ghost predicate Valid()
      reads this
    {
      Agree(members, scores)
    }

    constructor ()
      ensures Valid() && members == map[]
    {
      members, scores := map[], map[];
    }

    /** Take the member out of its old bucket, then put it in the new one. */
    method Add(member: Bytes, score: Score)
      requires Valid()
      modifies this
      ensures Valid() && members == old(members)[member := score]
    {
      ghost var others := map m | m in members && m != member :: members[m];
      if member in members {
        var oldScore := members[member];
        var bucket := scores[oldScore] - {member};
        if bucket == {} {
          scores := map s | s in scores && s != oldScore :: scores[s];
        } else {
          scores := scores[oldScore := bucket];
        }
        AgreeRemove(members, old(scores), member);
        assert scores == RemoveFromBucket(old(scores), oldScore, member);
      } else {
        assert others == members;
      }
      assert Agree(others, scores);
      AgreeAdd(others, scores, member, score);
      assert others[member := score] == members[member := score];
      members := members[member := score];
      scores := AddToBucket(scores, score, member);
    }

    /** Walk the buckets in score order. */
    method ZsetEntries() returns (result: seq<Entry>)
      requires Valid()
      ensures result == Entries(members)
    {
      FlattenIsEntries(members, scores);
      result := WalkBuckets(scores, Scores(scores.Keys));
    }

    /** The position of a member in the sorted list. */
    method ZsetRank(member: Bytes) returns (r: Option<nat>)
      requires Valid()
      ensures r.None? <==> member !in members
      ensures r.Some? ==> r.value < |members| && Entries(members)[r.value] == (member, members[member])
    {
      if member !in members {
        return None;
      }
      FlattenIsEntries(members, scores);
      BucketOfMember(members, scores, member);
      var rank := RankIn(scores, Scores(scores.Keys), members[member], member, Entries(members));
      r := Some(rank);
    }

    /** The position of a member from the end of the sorted list. */
    method ZsetRevRank(member: Bytes) returns (r: Option<nat>)
      requires Valid()
      ensures r.None? <==> member !in members
      ensures r.Some? ==>
                r.value < |members| && Entries(members)[|members| - 1 - r.value] == (member, members[member])
    {
      if member !in members {
        return None;
      }
      FlattenIsEntries(members, scores);
      BucketOfMember(members, scores, member);
      var rank := RevRankIn(scores, Scores(scores.Keys), members[member], member, Entries(members));
      r := Some(rank);
    }

    method ZsetRange(start: int, stop: int) returns (r: seq<Entry>)
      requires Valid()
      ensures r == RangeOf(Entries(members), start, stop)
    {
      var all := ZsetEntries();
      if |all| == 0 {
        return [];
      }
      var s, e := NormIdx(start, |all|), NormIdx(stop, |all|);
      if s > e || s >= |all| {
        return [];
      }
      e := Max(Min(e, |all| - 1), s);
      r := all[s..e + 1];
    }

    method ZsetRevRange(start: int, stop: int) returns (r: seq<Entry>)
      requires Valid()
      ensures r == RangeOf(Reversed(Entries(members)), start, stop)
    {
      var all := ZsetEntries();
      all := Reversed(all);
      if |all| == 0 {
        return [];
      }
      var s, e := NormIdx(start, |all|), NormIdx(stop, |all|);
      if s > e || s >= |all| {
        return [];
      }
      e := Max(Min(e, |all| - 1), s);
      r := all[s..e + 1];
    }

    method ZsetRangeByScore(min: ScoreBound, max: ScoreBound) returns (result: seq<Entry>)
      requires Valid()
      ensures result == Between(Entries(members), min, max)
    {
      FlattenIsEntries(members, scores);
      ScoresEnumerate(scores.Keys);
      result := BucketsBetween(scores, Scores(scores.Keys), min, max);
    }

    /** Rebuild the index from the member map, in whatever order the map is walked. */
    method RebuildScores()
      modifies this
      ensures Valid() && members == old(members)
    {
      var ns: Index := map[];
      var rest := members.Keys;
      while rest != {}
        invariant rest <= members.Keys && members == old(members)
        invariant Agree(map m | m in members && m !in rest :: members[m], ns)
        decreases |rest|
      {
        var m :| m in rest;
        ghost var done := map x | x in members && x !in rest :: members[x];
        AgreeAdd(done, ns, m, members[m]);
        ns := AddToBucket(ns, members[m], m);
        rest := rest - {m};
        assert (map x | x in members && x !in rest :: members[x]) == done[m := members[m]];
      }
      assert (map m | m in members && m !in rest :: members[m]) == members;
      scores := ns;
    }

    /** Remove listed entries from the member map, then rebuild the index. */
    method RemoveListed(es: seq<Entry>)
      requires forall e :: e in es ==> e in members.Items
      modifies this
      ensures Valid() && members == Drop(old(members), es)
    {
      ghost var start := members;
      assert start == Drop(start, es[..0]);
      for i := 0 to |es|
        invariant members == Drop(start, es[..i])
      {
        assert es[i] in start.Items;
        members := map k | k in members && k != es[i].0 :: members[k];
        assert es[..i + 1] == es[..i] + [es[i]];
      }
      assert es[..|es|] == es;
      RebuildScores();
    }

    /** Pop up to count entries from the front; they all precede every entry that stays. */
    method Zpopmin(count: nat) returns (popped: seq<Entry>)
      requires Valid()
      modifies this
      ensures Valid()
      ensures |popped| == Min(count, |old(members)|)
      ensures popped + Entries(members) == Entries(old(members))
      ensures members == Drop(old(members), popped)
    {
      var e := ZsetEntries();
      var n := Min(count, |e|);
      popped := e[..n];
      ghost var stay := e[n..];
      assert e == popped + stay;
      Listed(members, e, popped);
      EntriesSplit(members, e, popped, stay);
      RemoveListed(popped);
    }

    /** Pop up to count entries from the back, last first; they all follow every entry that stays. */
    method Zpopmax(count: nat) returns (popped: seq<Entry>)
      requires Valid()
      modifies this
      ensures Valid()
      ensures |popped| == Min(count, |old(members)|)
      ensures Entries(members) + Reversed(popped) == Entries(old(members))
      ensures members == Drop(old(members), popped)
    {
      var e := ZsetEntries();
      var r := Reversed(e);
      var n := Min(count, |e|);
      popped := r[..n];
      ghost var stay, back := e[..|e| - n], e[|e| - n..];
      BackReversed(members, e, n, popped, back);
      Listed(members, e, popped);
      EntriesSplit(members, e, stay, back);
      RemoveListed(popped);
    }

    /** Remove members by name; the reply is how many were there. */
    method Zrem(names: seq<Bytes>) returns (count: nat)
      requires Valid()
      modifies this
      ensures Valid()
      ensures members == Less(old(members), names)
      ensures count == |old(members)| - |members|
    {
      count := 0;
      ghost var start := members;
      assert members == Less(start, names[..0]);
      for i := 0 to |names|
        invariant members == Less(start, names[..i])
        invariant count == |start| - |members|
      {
        LessOne(start, names, i);
        OneFewer(members, names[i]);
        if names[i] in members {
          members := members - {names[i]};
          count := count + 1;
        } else {
          assert members - {names[i]} == members;
        }
      }
      assert names[..|names|] == names;
      RebuildScores();
    }
  }

  /** The map without the named members. */
  function Less(m: map<Bytes, Score>, names: seq<Bytes>): map<Bytes, Score> {
    map k | k in m && k !in names :: m[k]
  }

  lemma LessOne(m: map<Bytes, Score>, names: seq<Bytes>, i: nat)
    requires i < |names|
    ensures Less(m, names[..i + 1]) == Less(m, names[..i]) - {names[i]}
  {
    assert names[..i + 1] == names[..i] + [names[i]];
  }

  lemma OneFewer(m: map<Bytes, Score>, k: Bytes)
    ensures |m - {k}| == |m| - (if k in m then 1 else 0)
  {
    var n := m - {k};
    if k in m {
      assert m.Keys == n.Keys + {k};
    } else {
      assert n == m;
    }
  }

  lemma BackReversed(m: map<Bytes, Score>, all: seq<Entry>, n: nat, popped: seq<Entry>, back: seq<Entry>)
    requires n <= |all| && popped == Reversed(all)[..n] && back == all[|all| - n..]
    ensures Reversed(popped) == back && all[..|all| - n] + back == all
    ensures forall e :: e in popped ==> e in all
    ensures Drop(m, popped) == Drop(m, back)
  {
    assert Reversed(popped) == back;
    assert forall e :: e in back ==> e in all;
    ReversedMembers(popped);
    DropSame(m, popped, back);
  }

  lemma DropSame(m: map<Bytes, Score>, a: seq<Entry>, b: seq<Entry>)
    requires forall e :: e in a <==> e in b
    ensures Drop(m, a) == Drop(m, b)
  {
  }

  function Reversed(s: seq<Entry>): (r: seq<Entry>)
    ensures |r| == |s| && forall i :: 0 <= i < |s| ==> r[i] == s[|s| - 1 - i]
  {
    seq(|s|, i requires 0 <= i < |s| => s[|s| - 1 - i])
  }

  lemma ReversedMembers(s: seq<Entry>)
    ensures forall x :: x in s <==> x in Reversed(s)
  {
    var r := Reversed(s);
    forall x | x in s ensures x in r {
      var i :| 0 <= i < |s| && s[i] == x;
      assert r[|s| - 1 - i] == x;
    }
    forall x | x in r ensures x in s {
      var i :| 0 <= i < |r| && r[i] == x;
    }
  }

  /** One bucket is kept or dropped as a whole. */
  lemma BucketBetween(index: Index, ks: seq<Score>, k: nat, min: ScoreBound, max: ScoreBound)
    requires k < |ks|
    ensures Between(Flatten(index, ks[..k + 1]), min, max)
            == Between(Flatten(index, ks[..k]), min, max)
               + if min.ContainsLower(ks[k]) && max.ContainsUpper(ks[k])
                 then BucketEntries(ks[k], BucketOf(index, ks[k]))
                 else []
  {
    FlattenNext(index, ks, k);
    var bucket := BucketEntries(ks[k], BucketOf(index, ks[k]));
    BetweenAppend(Flatten(index, ks[..k]), bucket, min, max);
    BetweenUniform(bucket, min, max, min.ContainsLower(ks[k]) && max.ContainsUpper(ks[k]));
  }

  /** Above the upper value nothing is within the bounds, so the walk may stop. */
  lemma {:induction false} NothingAbove(index: Index, ks: seq<Score>, k: nat, min: ScoreBound, max: ScoreBound)
    requires k < |ks| && Increasing(ks, ScoreLess)
    requires ScoreLess(max.Value(), ks[k])
    ensures Between(Flatten(index, ks), min, max) == Between(Flatten(index, ks[..k]), min, max)
    decreases |ks|
  {
    var n := |ks| - 1;
    var init := ks[..n];
    assert ks[..n + 1] == ks;
    BucketBetween(index, ks, n, min, max);
    assert k < n ==> ScoreLess(ks[k], ks[n]);
    assert !max.ContainsUpper(ks[n]);
    if k < n {
      assert init[..k] == ks[..k];
      NothingAbove(index, init, k, min, max);
    }
  }

  // ---------------------------------------------------------------------------------------------
  // Consequences
  // ---------------------------------------------------------------------------------------------

  lemma EntriesDistinct(m: map<Bytes, Score>)
    ensures Distinct(Entries(m))
  {
    EntryOrder();
    EntriesEnumerate(m);
  }

  /** No two positions hold the same member, so a rank is determined, and rank and reverse rank of a
      member add up to one less than the size. */
  lemma RanksAddUp(m: map<Bytes, Score>, member: Bytes, rank: nat, rev: nat)
    requires member in m && rank < |m| && rev < |m|
    requires Entries(m)[rank] == (member, m[member]) && Entries(m)[|m| - 1 - rev] == (member, m[member])
    ensures rank + rev == |m| - 1
  {
    EntriesDistinct(m);
  }

  /** Repeated ZPOPMIN: what the calls pop, and what is left. */
  function PopAll(m: map<Bytes, Score>, counts: seq<nat>): (seq<Entry>, map<Bytes, Score>) {
    if counts == [] then ([], m)
    else
      var (popped, left) := PopAll(m, counts[..|counts| - 1]);
      var now := Entries(left)[..Min(counts[|counts| - 1], |left|)];
      (popped + now, Drop(left, now))
  }

  /** Whatever the counts, repeated ZPOPMIN lists the set from the front in order, nothing lost and
      nothing twice; when nothing is left, what was popped is the whole sorted set. */
  lemma PopAllInOrder(m: map<Bytes, Score>, counts: seq<nat>)
    ensures var (popped, left) := PopAll(m, counts);
            popped + Entries(left) == Entries(m)
    ensures PopAll(m, counts).1 == map[] ==> PopAll(m, counts).0 == Entries(m)
  {
    PopsAndRest(m, counts, PopAll(m, counts).0, PopAll(m, counts).1);
  }

  lemma {:induction false} PopsAndRest(m: map<Bytes, Score>, counts: seq<nat>, popped: seq<Entry>,
                                       left: map<Bytes, Score>)
    requires PopAll(m, counts) == (popped, left)
    ensures popped + Entries(left) == Entries(m)
  {
    if counts != [] {
      var init := counts[..|counts| - 1];
      var (before, then') := PopAll(m, init);
      PopsAndRest(m, init, before, then');
      var all, n := Entries(then'), Min(counts[|counts| - 1], |then'|);
      var front, back := all[..n], all[n..];
      SplitAt(all, n);
      PopNext(then', before, all, front, back);
    }
  }

  lemma SplitAt<T>(s: seq<T>, n: nat)
    requires n <= |s|
    ensures s == s[..n] + s[n..]
  {
  }

  lemma PopNext(left: map<Bytes, Score>, popped: seq<Entry>, all: seq<Entry>, front: seq<Entry>, back: seq<Entry>)
    requires all == Entries(left) && all == front + back
    ensures (popped + front) + Entries(Drop(left, front)) == popped + all
  {
    EntriesSplit(left, all, front, back);
    Associate(popped, front, back);
  }

  /** Every popped entry precedes every entry that stays. */
  lemma PoppedPrecede(popped: seq<Entry>, left: seq<Entry>, all: seq<Entry>, i: nat, j: nat)
    requires Increasing(all, EntryLess) && popped + left == all && i < |popped| && j < |left|
    ensures EntryLess(popped[i], left[j])
  {
    assert all[i] == popped[i] && all[|popped| + j] == left[j];
  }
}
