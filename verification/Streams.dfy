/** A stream and one consumer group of it: entries, pending entries and the last-delivered id. */
module Streams {
  import opened Data
  import opened Order

  const U64_MAX: u64 := 0xFFFF_FFFF_FFFF_FFFF

  datatype StreamId = StreamId(ms: u64, num: u64)

  const ZERO_ID := StreamId(0, 0)

  type Fields = seq<(string, string)>

  /** A delivered entry nobody has acknowledged yet. Times are readings of one clock. */
  datatype Pending = Pending(consumer: string, deliveredAt: int, count: nat)

  datatype Stream = Stream(
    entries: map<StreamId, Fields>,
    lastId: StreamId,
    pending: map<StreamId, Pending>,
    lastDelivered: StreamId,
    consumers: set<string>)

  // ---------------------------------------------------------------------------------------------
  // Ids in order
  // ---------------------------------------------------------------------------------------------

  predicate IdLess(x: StreamId, y: StreamId) {
    x.ms < y.ms || (x.ms == y.ms && x.num < y.num)
  }

  lemma IdOrder()
    ensures StrictTotal(IdLess)
  {
  }

  function Ids(s: set<StreamId>): (r: seq<StreamId>)
    ensures |r| == |s|
  {
    IdOrder();
    Sorted(s, IdLess)
  }

  lemma IdsEnumerate(s: set<StreamId>)
    ensures Enumerates(Ids(s), s, IdLess)
  {
    IdOrder();
    SortedEnumerates(s, IdLess);
  }

  function IdsAfter(s: set<StreamId>, a: StreamId): set<StreamId> {
    set x | x in s && IdLess(a, x)
  }

  function IdsFrom(s: set<StreamId>, a: StreamId): set<StreamId> {
    set x | x in s && !IdLess(x, a)
  }

  /** The id after x, its sequence number wrapping at 64 bits. */
  function Next(x: StreamId): StreamId {
    StreamId(x.ms, if x.num == U64_MAX then 0 else x.num + 1)
  }

  /** How many of n entries a COUNT lets through when it is checked after each one. */
  function Limit(n: nat, count: Option<nat>): nat {
    if count.None? then n else Min(n, Max(count.value, 1))
  }

  function Elements(s: seq<StreamId>): set<StreamId> {
    set x | x in s
  }

  // ---------------------------------------------------------------------------------------------
  // The commands as functions of the state
  // ---------------------------------------------------------------------------------------------

  datatype TrimRule = MaxLen(n: nat) | MinId(id: StreamId)

  /** XTRIM: drop the lowest ids beyond a length, or every id below a bound. */
  function Kept(entries: map<StreamId, Fields>, rule: TrimRule): map<StreamId, Fields> {
    match rule
    case MaxLen(n) =>
      if |entries| <= n then entries else entries - Elements(Ids(entries.Keys)[..|entries| - n])
    case MinId(id) => entries - (set x | x in entries && IdLess(x, id))
  }

  /** generate_id; None is a refusal. */
  function GenerateId(lastId: StreamId, requested: Option<StreamId>, nowMs: u64): Option<StreamId> {
    match requested
    case Some(id) => if id == ZERO_ID || !IdLess(lastId, id) then None else Some(id)
    case None => Some(StreamId(nowMs, if nowMs == lastId.ms then lastId.num else 0))
  }

  /** StreamData::add */
  function AddEntry(st: Stream, id: StreamId, f: Fields): Stream {
    st.(lastId := if IdLess(id, st.lastId) then st.lastId else Next(id), entries := st.entries[id := f])
  }

  /** The entries a `>` read delivers. */
  function NewIds(st: Stream, count: Option<nat>): seq<StreamId> {
    var ids := Ids(IdsAfter(st.entries.Keys, st.lastDelivered));
    ids[..Limit(|ids|, count)]
  }

  /** Pending entries with the given ids recorded as just delivered. */
  function Track(pending: map<StreamId, Pending>, ids: seq<StreamId>, consumer: string,
                 now: int): map<StreamId, Pending> {
    pending + map x | x in ids :: Pending(consumer, now, 1)
  }

  /** XREADGROUP with `>` */
  function ReadNew(st: Stream, consumer: string, count: Option<nat>, noack: bool, now: int): Stream {
    var ids := NewIds(st, count);
    st.(pending := if noack then st.pending else Track(st.pending, ids, consumer, now),
        lastDelivered := if ids == [] then st.lastDelivered else ids[|ids| - 1],
        consumers := st.consumers + {consumer})
  }

  /** XREADGROUP of the history: the first n pending ids were looked at, in order. */
  datatype Reread = Reread(pending: map<StreamId, Pending>, out: seq<StreamId>, done: bool)

  function RereadOne(entries: map<StreamId, Fields>, r: Reread, id: StreamId, count: Option<nat>, now: int): Reread {
    if r.done then r
    else
      var found := id in entries;
      var out := if found then r.out + [id] else r.out;
      var pending := if found && id in r.pending
                     then r.pending[id := r.pending[id].(count := r.pending[id].count + 1, deliveredAt := now)]
                     else r.pending;
      Reread(pending, out, count.Some? && |out| >= count.value)
  }

  function RereadAll(st: Stream, ids: seq<StreamId>, count: Option<nat>, now: int): Reread {
    if ids == [] then Reread(st.pending, [], false)
    else RereadOne(st.entries, RereadAll(st, ids[..|ids| - 1], count, now), ids[|ids| - 1], count, now)
  }

  /** XACK */
  function Acked(st: Stream, ids: seq<StreamId>): Stream {
    st.(pending := st.pending - Elements(ids))
  }

  /** Milliseconds since, never negative. */
  function Elapsed(now: int, at: int): nat {
    Max(now - at, 0)
  }

  /** XCLAIM of one id. */
  function ClaimOne(st: Stream, id: StreamId, consumer: string, minIdle: nat, newIdle: Option<nat>, now: int): Stream {
    if id !in st.entries then st
    else if id in st.pending then
      var pe := st.pending[id];
      if Elapsed(now, pe.deliveredAt) < minIdle then st
      else
        var at := if newIdle.Some? then now - newIdle.value else now;
        st.(pending := st.pending[id := Pending(consumer, at, pe.count + 1)])
    else st.(pending := st.pending[id := Pending(consumer, now, 1)])
  }

  function Claimed(st: Stream, ids: seq<StreamId>, consumer: string, minIdle: nat, newIdle: Option<nat>,
                   now: int): Stream {
    if ids == [] then st
    else
      var st' := Claimed(st, ids[..|ids| - 1], consumer, minIdle, newIdle, now);
      ClaimOne(st', ids[|ids| - 1], consumer, minIdle, newIdle, now)
  }

  /** Where an XAUTOCLAIM stands: `visited` are the ids looked at so far. */
  datatype Sweep = Sweep(pending: map<StreamId, Pending>, cursor: StreamId, claimed: seq<StreamId>,
                         visited: seq<StreamId>)

  datatype AutoArgs = AutoArgs(consumer: string, minIdle: nat, count: nat, justId: bool)

  /** One turn of the XAUTOCLAIM loop, a no-op once enough is claimed. */
  function SweepOne(entries: map<StreamId, Fields>, s: Sweep, id: StreamId, a: AutoArgs, now: int): Sweep {
    if |s.claimed| >= a.count then s
    else if id in s.pending && Elapsed(now, s.pending[id].deliveredAt) < a.minIdle then s.(visited := s.visited + [id])
    else
      Sweep(if id in s.pending then s.pending[id := Pending(a.consumer, now, s.pending[id].count + 1)] else s.pending,
            Next(id),
            if a.justId || id in entries then s.claimed + [id] else s.claimed,
            s.visited + [id])
  }

  function SweepAll(st: Stream, start: StreamId, ids: seq<StreamId>, a: AutoArgs, now: int): Sweep {
    if ids == [] then Sweep(st.pending, start, [], [])
    else SweepOne(st.entries, SweepAll(st, start, ids[..|ids| - 1], a, now), ids[|ids| - 1], a, now)
  }

  /** The whole XAUTOCLAIM: every pending id from `start` on, in order. */
  function AutoClaim(st: Stream, start: StreamId, a: AutoArgs, now: int): Sweep {
    SweepAll(st, start, Ids(IdsFrom(st.pending.Keys, start)), a, now)
  }

  function ReplyCursor(s: Sweep, a: AutoArgs): StreamId {
    if |s.claimed| >= a.count then s.cursor else ZERO_ID
  }

  // ---------------------------------------------------------------------------------------------
  // Runs: any sequence of commands on one stream and one of its groups
  // ---------------------------------------------------------------------------------------------

  datatype Command =
    | Add(requested: Option<StreamId>, nowMs: u64, fields: Fields, trim: Option<TrimRule>)
    | Del(ids: seq<StreamId>)
    | Trim(rule: TrimRule)
    | ReadGroup(consumer: string, count: Option<nat>, noack: bool, now: int)
    | ReadHistory(consumer: string, count: Option<nat>, now: int)
    | Ack(ids: seq<StreamId>)
    | Claim(consumer: string, minIdle: nat, ids: seq<StreamId>, newIdle: Option<nat>, now: int)
    | SweepFrom(start: StreamId, args: AutoArgs, now: int)
    | AddConsumer(consumer: string)
    | DropConsumer(consumer: string)

  /** XADD; a refused id changes nothing. */
  function Added(st: Stream, requested: Option<StreamId>, nowMs: u64, f: Fields, trim: Option<TrimRule>): Stream {
    match GenerateId(st.lastId, requested, nowMs)
    case None => st
    case Some(id) =>
      var st' := AddEntry(st, id, f);
      if trim.None? then st' else st'.(entries := Kept(st'.entries, trim.value))
  }

  function Apply(st: Stream, c: Command): Stream {
    match c
    case Add(requested, nowMs, f, trim) => Added(st, requested, nowMs, f, trim)
    case Del(ids) => st.(entries := st.entries - Elements(ids))
    case Trim(rule) => st.(entries := Kept(st.entries, rule))
    case ReadGroup(consumer, count, noack, now) => ReadNew(st, consumer, count, noack, now)
    case ReadHistory(consumer, count, now) =>
      st.(consumers := st.consumers + {consumer}, pending := RereadAll(st, Ids(st.pending.Keys), count, now).pending)
    case Ack(ids) => Acked(st, ids)
    case Claim(consumer, minIdle, ids, newIdle, now) => Claimed(st, ids, consumer, minIdle, newIdle, now)
    case SweepFrom(start, args, now) => st.(pending := AutoClaim(st, start, args, now).pending)
    case AddConsumer(consumer) => st.(consumers := st.consumers + {consumer})
    case DropConsumer(consumer) => st.(consumers := st.consumers - {consumer})
  }

  /** What the clients of a group have seen: the ids `>` reads delivered, in order, those of them delivered
      without NOACK, the ids acknowledged, and the sum of the integers XACK replied. */
  datatype History = History(delivered: seq<StreamId>, tracked: seq<StreamId>, acked: set<StreamId>, replies: nat)

  const NOTHING_YET := History([], [], {}, 0)

  function AckedBy(st: Stream, ids: seq<StreamId>): set<StreamId> {
    Elements(ids) * st.pending.Keys
  }

  function Record(st: Stream, h: History, c: Command): History {
    match c
    case ReadGroup(_, count, noack, _) =>
      var ids := NewIds(st, count);
      h.(delivered := h.delivered + ids, tracked := if noack then h.tracked else h.tracked + ids)
    case Ack(ids) => h.(acked := h.acked + AckedBy(st, ids), replies := h.replies + |AckedBy(st, ids)|)
    case _ => h
  }

  datatype World = World(st: Stream, h: History)

  function Run(w: World, cs: seq<Command>): World
    decreases |cs|
  {
    if cs == [] then w else Run(World(Apply(w.st, cs[0]), Record(w.st, w.h, cs[0])), cs[1..])
  }

  // ---------------------------------------------------------------------------------------------
  // Every entry is delivered to the group at most once, in order, and without gaps
  // ---------------------------------------------------------------------------------------------

  /** A `>` read delivers, in order, exactly the entries between the old and the new last-delivered id. */
  /** The entries a `>` read may deliver, and how many a COUNT lets through: at least one. */
  ghost predicate DeliversFirst(st: Stream, count: Option<nat>, out: seq<StreamId>) {
    && Increasing(out, IdLess)
    && (forall x :: x in out ==> x in st.entries && IdLess(st.lastDelivered, x))
    && (forall x, y :: x in out && y in st.entries && IdLess(st.lastDelivered, y) && y !in out ==> IdLess(x, y))
    && (count.Some? ==> |out| <= Max(count.value, 1))
    && (count.None? || |out| < Max(count.value, 1) ==>
         forall y :: y in st.entries && IdLess(st.lastDelivered, y) ==> y in out)
  }

  /** What a `>` read does: it delivers the first new entries, as many as COUNT lets through; the last of them becomes
      the last-delivered id; without NOACK each is pending with the consumer, delivered now and once; and the consumer
      is known. Nothing else changes. */
  ghost predicate ReadsNew(st: Stream, st': Stream, out: seq<StreamId>, consumer: string, count: Option<nat>,
                           noack: bool, now: int) {
    && DeliversFirst(st, count, out)
    && st'.entries == st.entries && st'.lastId == st.lastId
    && st'.lastDelivered == (if out == [] then st.lastDelivered else out[|out| - 1])
    && st'.consumers == st.consumers + {consumer}
    && (noack ==> st'.pending == st.pending)
    && (!noack ==>
         && (forall x :: x in st'.pending <==> x in st.pending || x in out)
         && (forall x :: x in out ==> st'.pending[x] == Pending(consumer, now, 1))
         && (forall x :: x in st.pending && x !in out ==> st'.pending[x] == st.pending[x]))
  }

  lemma NewIdsAreFirst(st: Stream, count: Option<nat>)
    ensures DeliversFirst(st, count, NewIds(st, count))
  {
    var all := IdsAfter(st.entries.Keys, st.lastDelivered);
    var ids, out := Ids(all), NewIds(st, count);
    IdsEnumerate(all);
    forall x | x in out ensures x in all {
      assert x in ids;
    }
    forall x, y | x in out && y in all && y !in out ensures IdLess(x, y) {
      PrefixBelow(ids, |out|, x, y);
    }
    assert count.None? || |out| < Max(count.value, 1) ==> out == ids;
  }

  lemma PrefixBelow(ids: seq<StreamId>, n: nat, x: StreamId, y: StreamId)
    requires Increasing(ids, IdLess) && n <= |ids| && x in ids[..n] && y in ids && y !in ids[..n]
    ensures IdLess(x, y)
  {
    var i :| 0 <= i < n && ids[..n][i] == x;
    var j :| 0 <= j < |ids| && ids[j] == y;
    assert IdLess(ids[i], ids[j]);
  }

  lemma ReadNewExactly(st: Stream, consumer: string, count: Option<nat>, noack: bool, now: int)
    ensures ReadsNew(st, ReadNew(st, consumer, count, noack, now), NewIds(st, count), consumer, count, noack, now)
  {
    NewIdsAreFirst(st, count);
  }

  lemma NewIdsExactly(st: Stream, consumer: string, count: Option<nat>, noack: bool, now: int)
    ensures Increasing(NewIds(st, count), IdLess)
    ensures var last := ReadNew(st, consumer, count, noack, now).lastDelivered;
            && !IdLess(last, st.lastDelivered)
            && forall x :: x in NewIds(st, count) <==>
                             x in st.entries && IdLess(st.lastDelivered, x) && !IdLess(last, x)
  {
    var all := IdsAfter(st.entries.Keys, st.lastDelivered);
    var ids := Ids(all);
    IdsEnumerate(all);
    var n := Limit(|ids|, count);
    var last := ReadNew(st, consumer, count, noack, now).lastDelivered;
    assert ids != [] ==> last == ids[n - 1] && last in ids && last in all;
    forall x ensures x in ids[..n] <==> x in st.entries && IdLess(st.lastDelivered, x) && !IdLess(last, x) {
      if x in all {
        PrefixByBound(ids, n, x);
      }
      if x in ids[..n] {
        assert x in ids;
        assert x in all;
      }
    }
  }

  /** In an increasing list, the first n elements are those not above the n-th. */
  lemma PrefixByBound(ids: seq<StreamId>, n: nat, x: StreamId)
    requires n <= |ids| && Increasing(ids, IdLess) && x in ids
    requires ids != [] ==> n > 0
    ensures x in ids[..n] <==> !IdLess(ids[n - 1], x)
  {
    var k :| 0 <= k < |ids| && ids[k] == x;
    if k < n {
      assert ids[..n][k] == x;
    } else {
      assert IdLess(ids[n - 1], ids[k]);
      assert forall j :: 0 <= j < n ==> ids[..n][j] == ids[j] && IdLess(ids[j], ids[k]);
    }
  }

  /** The `>` deliveries since the group stood at `from`. */
  ghost predicate DeliveredSince(from: StreamId, w: World) {
    && Increasing(w.h.delivered, IdLess)
    && (forall x :: x in w.h.delivered ==> IdLess(from, x) && !IdLess(w.st.lastDelivered, x))
    && !IdLess(w.st.lastDelivered, from)
  }

  lemma DeliveredStep(from: StreamId, w: World, c: Command)
    requires DeliveredSince(from, w)
    ensures DeliveredSince(from, World(Apply(w.st, c), Record(w.st, w.h, c)))
  {
    if c.ReadGroup? {
      NewIdsExactly(w.st, c.consumer, c.count, c.noack, c.now);
      JoinedLog(w.h.delivered, NewIds(w.st, c.count), w.st.lastDelivered);
    } else if c.Claim? {
      ClaimedKeys(w.st, c.ids, c.consumer, c.minIdle, c.newIdle, c.now);
    }
  }

  lemma JoinedLog(s: seq<StreamId>, t: seq<StreamId>, bound: StreamId)
    requires Increasing(s, IdLess) && Increasing(t, IdLess)
    requires forall x :: x in s ==> !IdLess(bound, x)
    requires forall x :: x in t ==> IdLess(bound, x)
    ensures Increasing(s + t, IdLess)
  {
    var st := s + t;
    forall i, j | 0 <= i < j < |st| ensures IdLess(st[i], st[j]) {
      if i < |s| <= j {
        assert s[i] in s && t[j - |s|] in t;
      }
    }
  }

  /** Over every run, whatever the other commands do, the ids handed out by `>` reads strictly increase: no
      entry is handed out twice, and the last-delivered id never moves back. */
  lemma {:induction false} DeliveredAtMostOnce(from: StreamId, w: World, cs: seq<Command>)
    requires DeliveredSince(from, w)
    ensures DeliveredSince(from, Run(w, cs))
    decreases |cs|
  {
    if cs != [] {
      DeliveredStep(from, w, cs[0]);
      DeliveredAtMostOnce(from, World(Apply(w.st, cs[0]), Record(w.st, w.h, cs[0])), cs[1..]);
    }
  }

  // ---------------------------------------------------------------------------------------------
  // The ledger: delivered = pending + acknowledged
  // ---------------------------------------------------------------------------------------------

  /** Every id delivered without NOACK is either pending or acknowledged, never both, and nothing else is. */
  ghost predicate Balanced(w: World) {
    Splits(Elements(w.h.tracked), w.st.pending.Keys, w.h.acked) && w.h.replies == |w.h.acked|
  }

  /** A set is the disjoint union of two others. */
  ghost predicate Splits(whole: set<StreamId>, s: set<StreamId>, t: set<StreamId>) {
    whole == s + t && s !! t
  }

  /** What XCLAIM makes pending besides what was pending: the existing entries it names. */
  lemma {:induction false} ClaimedKeys(st: Stream, ids: seq<StreamId>, consumer: string, minIdle: nat,
                                       newIdle: Option<nat>, now: int)
    ensures var c := Claimed(st, ids, consumer, minIdle, newIdle, now);
            c.pending.Keys == st.pending.Keys + Elements(ids) * st.entries.Keys && c == st.(pending := c.pending)
  {
    if ids != [] {
      ClaimedKeys(st, ids[..|ids| - 1], consumer, minIdle, newIdle, now);
      assert Elements(ids) == Elements(ids[..|ids| - 1]) + {ids[|ids| - 1]} by {
        assert ids == ids[..|ids| - 1] + [ids[|ids| - 1]];
      }
    }
  }

  /** XCLAIM keeps the books exactly when every existing entry it names is pending already. */
  lemma ClaimBalanced(w: World, consumer: string, minIdle: nat, ids: seq<StreamId>, newIdle: Option<nat>, now: int)
    requires Balanced(w)
    ensures Balanced(w.(st := Claimed(w.st, ids, consumer, minIdle, newIdle, now)))
       <==> Elements(ids) * w.st.entries.Keys <= w.st.pending.Keys
  {
    ClaimedKeys(w.st, ids, consumer, minIdle, newIdle, now);
    var extra := Elements(ids) * w.st.entries.Keys;
    var w' := w.(st := Claimed(w.st, ids, consumer, minIdle, newIdle, now));
    assert w'.st.pending.Keys == w.st.pending.Keys + extra;
    if Balanced(w') {
      forall x | x in extra ensures x in w.st.pending.Keys {
        assert x in w'.st.pending.Keys;
        assert x in Elements(w.h.tracked);
        assert x !in w.h.acked;
      }
    }
    if extra <= w.st.pending.Keys {
      assert w'.st.pending.Keys == w.st.pending.Keys;
    }
  }

  lemma {:induction false} RereadKeys(st: Stream, ids: seq<StreamId>, count: Option<nat>, now: int)
    ensures RereadAll(st, ids, count, now).pending.Keys == st.pending.Keys
  {
    if ids != [] {
      RereadKeys(st, ids[..|ids| - 1], count, now);
    }
  }

  lemma {:induction false} SweepKeys(st: Stream, start: StreamId, ids: seq<StreamId>, a: AutoArgs, now: int)
    ensures SweepAll(st, start, ids, a, now).pending.Keys == st.pending.Keys
  {
    if ids != [] {
      SweepKeys(st, start, ids[..|ids| - 1], a, now);
    }
  }

  lemma MoveAcross(whole: set<StreamId>, s: set<StreamId>, t: set<StreamId>, moved: set<StreamId>)
    requires Splits(whole, s, t) && moved <= s
    ensures Splits(whole, s - moved, t + moved) && |t + moved| == |t| + |moved|
  {
  }

  lemma GrowSplit(whole: set<StreamId>, s: set<StreamId>, t: set<StreamId>, more: set<StreamId>)
    requires Splits(whole, s, t) && more !! whole
    ensures Splits(whole + more, s + more, t)
  {
  }

  lemma AckStep(w: World, ids: seq<StreamId>)
    requires Balanced(w)
    ensures Balanced(World(Acked(w.st, ids), Record(w.st, w.h, Ack(ids))))
  {
    MoveAcross(Elements(w.h.tracked), w.st.pending.Keys, w.h.acked, AckedBy(w.st, ids));
    RemainingKeys(w.st, ids);
    AckRecord(w.st, w.h, ids);
  }

  lemma AckRecord(st: Stream, h: History, ids: seq<StreamId>)
    ensures var h' := Record(st, h, Ack(ids));
            && h'.tracked == h.tracked
            && h'.acked == h.acked + AckedBy(st, ids)
            && h'.replies == h.replies + |AckedBy(st, ids)|
  {
  }

  lemma RemainingKeys(st: Stream, ids: seq<StreamId>)
    ensures Acked(st, ids).pending.Keys == st.pending.Keys - AckedBy(st, ids)
  {
  }

  lemma ReadStep(w: World, c: Command)
    requires Balanced(w) && TrackedSince(w) && c.ReadGroup?
    ensures Balanced(World(Apply(w.st, c), Record(w.st, w.h, c)))
    ensures TrackedSince(World(Apply(w.st, c), Record(w.st, w.h, c)))
  {
    NewIdsExactly(w.st, c.consumer, c.count, c.noack, c.now);
    if !c.noack {
      var ids := NewIds(w.st, c.count);
      JoinedLog(w.h.tracked, ids, w.st.lastDelivered);
      TrackNew(w, ids, c.consumer, c.now);
    }
  }

  lemma TrackNew(w: World, ids: seq<StreamId>, consumer: string, now: int)
    requires Balanced(w) && TrackedSince(w)
    requires forall x :: x in ids ==> IdLess(w.st.lastDelivered, x)
    ensures Splits(Elements(w.h.tracked + ids), Track(w.st.pending, ids, consumer, now).Keys, w.h.acked)
  {
    GrowSplit(Elements(w.h.tracked), w.st.pending.Keys, w.h.acked, Elements(ids));
    TrackedKeys(w.st.pending, ids, consumer, now);
    JoinedElements(w.h.tracked, ids);
  }

  lemma TrackedKeys(pending: map<StreamId, Pending>, ids: seq<StreamId>, consumer: string, now: int)
    ensures Track(pending, ids, consumer, now).Keys == pending.Keys + Elements(ids)
  {
  }

  lemma JoinedElements(s: seq<StreamId>, t: seq<StreamId>)
    ensures Elements(s + t) == Elements(s) + Elements(t)
  {
  }

  /** The tracked ids are increasing and none is beyond the last-delivered id. */
  ghost predicate TrackedSince(w: World) {
    && Increasing(w.h.tracked, IdLess)
    && forall x :: x in w.h.tracked ==> !IdLess(w.st.lastDelivered, x)
  }

  /** No XCLAIM of the run names an existing entry that is not pending when it comes. */
  predicate ClaimsArePending(w: World, cs: seq<Command>)
    decreases |cs|
  {
    cs == [] ||
    (&& (cs[0].Claim? ==> Elements(cs[0].ids) * w.st.entries.Keys <= w.st.pending.Keys)
     && ClaimsArePending(World(Apply(w.st, cs[0]), Record(w.st, w.h, cs[0])), cs[1..]))
  }

  lemma ClaimKeepsKeys(st: Stream, c: Command)
    requires c.Claim? && Elements(c.ids) * st.entries.Keys <= st.pending.Keys
    ensures Apply(st, c).pending.Keys == st.pending.Keys && Apply(st, c).lastDelivered == st.lastDelivered
  {
    ClaimedKeys(st, c.ids, c.consumer, c.minIdle, c.newIdle, c.now);
    var extra := Elements(c.ids) * st.entries.Keys;
    assert st.pending.Keys + extra == st.pending.Keys;
  }

  /** A command that neither delivers nor acknowledges keeps the set of pending ids and the last-delivered id. */
  lemma OthersKeepKeys(st: Stream, c: Command)
    requires !c.ReadGroup? && !c.Ack? && !c.Claim?
    ensures Apply(st, c).pending.Keys == st.pending.Keys && Apply(st, c).lastDelivered == st.lastDelivered
  {
    match c {
      case ReadHistory(_, count, now) => RereadKeys(st, Ids(st.pending.Keys), count, now);
      case SweepFrom(start, args, now) => SweepKeys(st, start, Ids(IdsFrom(st.pending.Keys, start)), args, now);
      case _ =>
    }
  }

  lemma LedgerStep(w: World, c: Command)
    requires Balanced(w) && TrackedSince(w)
    requires c.Claim? ==> Elements(c.ids) * w.st.entries.Keys <= w.st.pending.Keys
    ensures Balanced(World(Apply(w.st, c), Record(w.st, w.h, c)))
    ensures TrackedSince(World(Apply(w.st, c), Record(w.st, w.h, c)))
  {
    if c.ReadGroup? {
      ReadStep(w, c);
    } else if c.Ack? {
      AckStep(w, c.ids);
    } else if c.Claim? {
      ClaimKeepsKeys(w.st, c);
    } else {
      OthersKeepKeys(w.st, c);
    }
  }

  /** Over every run whose XCLAIMs name only pending or absent ids: the ids delivered without NOACK are the pending
      ones and the acknowledged ones, each exactly once, and their number is the number of pending entries plus
      the sum of the XACK replies. */
  lemma {:induction false} LedgerOverRun(w: World, cs: seq<Command>)
    requires Balanced(w) && TrackedSince(w) && ClaimsArePending(w, cs)
    ensures Balanced(Run(w, cs)) && TrackedSince(Run(w, cs))
    ensures |Run(w, cs).h.tracked| == |Run(w, cs).st.pending| + Run(w, cs).h.replies
    decreases |cs|
  {
    if cs == [] {
      CountTracked(w);
    } else {
      LedgerStep(w, cs[0]);
      LedgerOverRun(World(Apply(w.st, cs[0]), Record(w.st, w.h, cs[0])), cs[1..]);
    }
  }

  lemma CountTracked(w: World)
    requires Balanced(w) && TrackedSince(w)
    ensures |w.h.tracked| == |w.st.pending| + w.h.replies
  {
    DistinctSize(w.h.tracked, Elements(w.h.tracked));
    assert |w.st.pending.Keys + w.h.acked| == |w.st.pending.Keys| + |w.h.acked|;
  }

  // ---------------------------------------------------------------------------------------------
  // Reading the pending entries again
  // ---------------------------------------------------------------------------------------------

  /** The reply is picked from the list: in its order, each place at most once. */
  ghost predicate Picked(out: seq<StreamId>, ids: seq<StreamId>) {
    exists at: seq<nat> :: PickedAt(out, ids, at)
  }

  ghost predicate PickedAt(out: seq<StreamId>, ids: seq<StreamId>, at: seq<nat>) {
    && |at| == |out|
    && (forall i :: 0 <= i < |at| ==> at[i] < |ids| && ids[at[i]] == out[i])
    && (forall i, j :: 0 <= i < j < |at| ==> at[i] < at[j])
  }

  lemma PickedNone(ids: seq<StreamId>)
    ensures Picked([], ids)
  {
    assert PickedAt([], ids, []);
  }

  lemma PickedNext(out: seq<StreamId>, ids: seq<StreamId>, id: StreamId)
    requires Picked(out, ids)
    ensures Picked(out, ids + [id]) && Picked(out + [id], ids + [id])
  {
    var at: seq<nat> :| PickedAt(out, ids, at);
    assert PickedAt(out, ids + [id], at);
    assert PickedAt(out + [id], ids + [id], at + [|ids|]);
  }

  /** Each entry read again is one that still exists; it gains one delivery and a new delivery time. Nothing else
      changes, and an existing entry is left out only once COUNT is reached. */
  ghost predicate RereadsExactly(r: Reread, st: Stream, ids: seq<StreamId>, count: Option<nat>, now: int) {
    && r.pending.Keys == st.pending.Keys
    && (forall x :: x in st.pending ==>
          r.pending[x] ==
            if x in r.out then Pending(st.pending[x].consumer, now, st.pending[x].count + 1) else st.pending[x])
    && (forall x :: x in r.out ==> x in ids && x in st.entries)
    && (!r.done ==> forall x :: x in ids && x in st.entries ==> x in r.out)
    && (count.Some? ==> |r.out| <= Max(count.value, 1))
    && (r.done ==> count.Some? && |r.out| >= count.value)
    && (!r.done && count.Some? ==> |r.out| < Max(count.value, 1))
  }

  lemma {:induction false} RereadAllExactly(st: Stream, ids: seq<StreamId>, count: Option<nat>, now: int)
    requires Distinct(ids) && forall x :: x in ids ==> x in st.pending
    ensures RereadsExactly(RereadAll(st, ids, count, now), st, ids, count, now)
  {
    if ids != [] {
      var front, id := ids[..|ids| - 1], ids[|ids| - 1];
      assert ids == front + [id];
      assert id !in front by { assert forall i :: 0 <= i < |front| ==> front[i] == ids[i]; }
      RereadAllExactly(st, front, count, now);
      RereadStep(RereadAll(st, front, count, now), st, front, id, count, now);
    }
  }

  /** They are read in order, each once. */
  lemma {:induction false} RereadInOrder(st: Stream, ids: seq<StreamId>, count: Option<nat>, now: int)
    ensures Picked(RereadAll(st, ids, count, now).out, ids)
  {
    if ids == [] {
      PickedNone(ids);
    } else {
      var front, id := ids[..|ids| - 1], ids[|ids| - 1];
      RereadInOrder(st, front, count, now);
      assert ids == front + [id];
      PickedNext(RereadAll(st, front, count, now).out, front, id);
    }
  }

  lemma RereadStep(r: Reread, st: Stream, front: seq<StreamId>, id: StreamId, count: Option<nat>, now: int)
    requires RereadsExactly(r, st, front, count, now) && id !in front && id in st.pending
    ensures RereadsExactly(RereadOne(st.entries, r, id, count, now), st, front + [id], count, now)
  {
  }

  // ---------------------------------------------------------------------------------------------
  // XAUTOCLAIM: following the cursor
  // ---------------------------------------------------------------------------------------------

  predicate OldEnough(pe: Pending, a: AutoArgs, now: int) {
    a.minIdle == 0 || now - pe.deliveredAt >= a.minIdle
  }

  /** A pending entry after a sweep looked at it. */
  function Taken(pe: Pending, a: AutoArgs, now: int): Pending {
    if OldEnough(pe, a, now) then Pending(a.consumer, now, pe.count + 1) else pe
  }

  /** The sweep looked at a prefix of the ids, all of them unless it filled its reply. */
  ghost predicate VisitedPrefix(s: Sweep, ids: seq<StreamId>, a: AutoArgs) {
    && s.visited <= ids
    && (|s.claimed| < a.count ==> s.visited == ids)
    && (0 < a.count <= |s.claimed| ==> s.visited != [] && s.cursor == Next(s.visited[|s.visited| - 1]))
  }

  /** Exactly the visited entries that were old enough changed, once each. */
  ghost predicate TookVisited(s: Sweep, was: map<StreamId, Pending>, a: AutoArgs, now: int) {
    && s.pending.Keys == was.Keys
    && forall x :: x in was ==> s.pending[x] == if x in s.visited then Taken(was[x], a, now) else was[x]
  }

  lemma {:induction false} SweepVisits(st: Stream, start: StreamId, ids: seq<StreamId>, a: AutoArgs, now: int)
    ensures VisitedPrefix(SweepAll(st, start, ids, a, now), ids, a)
  {
    if ids != [] {
      var front := ids[..|ids| - 1];
      SweepVisits(st, start, front, a, now);
      assert ids == front + [ids[|ids| - 1]];
    }
  }

  /** An entry a call will list in its reply if it gets to it. */
  predicate Fits(st: Stream, a: AutoArgs, now: int, x: StreamId) {
    x in st.pending && OldEnough(st.pending[x], a, now) && (a.justId || x in st.entries)
  }

  function Fitting(st: Stream, a: AutoArgs, now: int, ids: seq<StreamId>): (r: seq<StreamId>)
    ensures |r| <= |ids|
  {
    if ids == [] then []
    else
      Fitting(st, a, now, ids[..|ids| - 1]) + Listed(st, a, now, ids[|ids| - 1])
  }

  function Listed(st: Stream, a: AutoArgs, now: int, x: StreamId): (r: seq<StreamId>)
    ensures |r| <= 1
  {
    if Fits(st, a, now, x) then [x] else []
  }

  /** It is the plain filter. */
  lemma {:induction false} FittingExactly(st: Stream, a: AutoArgs, now: int, ids: seq<StreamId>)
    ensures forall x :: x in Fitting(st, a, now, ids) <==> x in ids && Fits(st, a, now, x)
  {
    if ids != [] {
      FittingExactly(st, a, now, ids[..|ids| - 1]);
    }
  }

  lemma FittingSnoc(st: Stream, a: AutoArgs, now: int, ids: seq<StreamId>, x: StreamId)
    ensures Fitting(st, a, now, ids + [x]) == Fitting(st, a, now, ids) + Listed(st, a, now, x)
  {
    assert (ids + [x])[..|ids|] == ids;
  }

  lemma Regroup(x: seq<StreamId>, y: seq<StreamId>, z: seq<StreamId>)
    ensures (x + y) + z == x + (y + z)
  {
  }

  lemma {:induction false} FittingAppend(st: Stream, a: AutoArgs, now: int, x: seq<StreamId>, y: seq<StreamId>)
    ensures Fitting(st, a, now, x + y) == Fitting(st, a, now, x) + Fitting(st, a, now, y)
    decreases |y|
  {
    if y == [] {
      assert x + y == x;
    } else {
      var init, last := y[..|y| - 1], y[|y| - 1];
      var listed := Listed(st, a, now, last);
      assert x + y == (x + init) + [last];
      calc {
        Fitting(st, a, now, x + y);
        { FittingSnoc(st, a, now, x + init, last); }
        Fitting(st, a, now, x + init) + listed;
        { FittingAppend(st, a, now, x, init); }
        (Fitting(st, a, now, x) + Fitting(st, a, now, init)) + listed;
        { Regroup(Fitting(st, a, now, x), Fitting(st, a, now, init), listed); }
        Fitting(st, a, now, x) + (Fitting(st, a, now, init) + listed);
      }
    }
  }

  /** The reply lists, in order, the visited entries that fit; a reply that is full ends on the last one visited. */
  ghost predicate ListsFitting(s: Sweep, st: Stream, a: AutoArgs, now: int) {
    && s.claimed == Fitting(st, a, now, s.visited)
    && |s.claimed| <= a.count
    && (0 < a.count <= |s.claimed| ==> s.visited != [] && Fits(st, a, now, s.visited[|s.visited| - 1]))
  }

  /** Every visited entry that is idle long enough was handed over and no other changed, and the reply lists, in order
      and once each, the visited entries that fit. */
  lemma {:induction false} SweepTakes(st: Stream, start: StreamId, ids: seq<StreamId>, a: AutoArgs, now: int)
    requires Distinct(ids) && forall x :: x in ids ==> x in st.pending
    ensures TookVisited(SweepAll(st, start, ids, a, now), st.pending, a, now)
    ensures ListsFitting(SweepAll(st, start, ids, a, now), st, a, now)
  {
    if ids != [] {
      var front, id := ids[..|ids| - 1], ids[|ids| - 1];
      assert ids == front + [id];
      SweepTakes(st, start, front, a, now);
      SweepVisits(st, start, front, a, now);
      var s := SweepAll(st, start, front, a, now);
      assert id !in s.visited by { assert forall i :: 0 <= i < |s.visited| ==> s.visited[i] == front[i]; }
      TakeOne(st, s, id, a, now);
      ListOne(st, s, id, a, now);
    }
  }

  lemma TakeOne(st: Stream, s: Sweep, id: StreamId, a: AutoArgs, now: int)
    requires TookVisited(s, st.pending, a, now) && |s.claimed| <= a.count
    requires id in st.pending && id !in s.visited
    ensures TookVisited(SweepOne(st.entries, s, id, a, now), st.pending, a, now)
  {
  }

  lemma ListOne(st: Stream, s: Sweep, id: StreamId, a: AutoArgs, now: int)
    requires ListsFitting(s, st, a, now)
    requires id in st.pending && id in s.pending && s.pending[id] == st.pending[id]
    ensures ListsFitting(SweepOne(st.entries, s, id, a, now), st, a, now)
  {
    FittingSnoc(st, a, now, s.visited, id);
  }

  /** What a call lists is known before it: the first COUNT of the entries from `start` on that fit. A full reply was
      filled by the last one visited. */
  lemma ReplyKnownBefore(st: Stream, start: StreamId, a: AutoArgs, now: int)
    ensures var ids, s := Ids(IdsFrom(st.pending.Keys, start)), AutoClaim(st, start, a, now);
            var fit := Fitting(st, a, now, ids);
            && s.claimed == fit[..Min(a.count, |fit|)]
            && (0 < a.count <= |fit| ==> s.visited != [] && s.visited[|s.visited| - 1] == fit[a.count - 1])
  {
    var from := IdsFrom(st.pending.Keys, start);
    var ids, s := Ids(from), AutoClaim(st, start, a, now);
    IdsEnumerate(from);
    IncreasingDistinct(ids);
    assert forall x :: x in ids ==> x in from;
    SweepVisits(st, start, ids, a, now);
    SweepTakes(st, start, ids, a, now);
    PrefixFits(st, a, now, ids, s);
  }

  lemma PrefixFits(st: Stream, a: AutoArgs, now: int, ids: seq<StreamId>, s: Sweep)
    requires VisitedPrefix(s, ids, a) && ListsFitting(s, st, a, now)
    ensures var fit := Fitting(st, a, now, ids);
            && s.claimed == fit[..Min(a.count, |fit|)]
            && (0 < a.count <= |fit| ==> s.visited != [] && s.visited[|s.visited| - 1] == fit[a.count - 1])
  {
    var rest := ids[|s.visited|..];
    assert ids == s.visited + rest;
    FittingAppend(st, a, now, s.visited, rest);
    FirstOf(s.claimed, Fitting(st, a, now, rest), a.count);
    if 0 < a.count <= |s.claimed| {
      FittingLast(st, a, now, s.visited);
    }
  }

  lemma FirstOf(claimed: seq<StreamId>, more: seq<StreamId>, count: nat)
    requires |claimed| <= count && (|claimed| < count ==> more == [])
    ensures claimed == (claimed + more)[..Min(count, |claimed + more|)]
  {
  }

  lemma FittingLast(st: Stream, a: AutoArgs, now: int, ids: seq<StreamId>)
    requires ids != [] && Fits(st, a, now, ids[|ids| - 1])
    ensures var fit := Fitting(st, a, now, ids); fit != [] && fit[|fit| - 1] == ids[|ids| - 1]
  {
  }

  /** Of an increasing list, the elements from n on are those not below the successor of the one before. */
  lemma RestByBound(ids: seq<StreamId>, n: nat, x: StreamId)
    requires 0 < n <= |ids| && Increasing(ids, IdLess) && x in ids && ids[n - 1].num < U64_MAX
    ensures x in ids[n..] <==> !IdLess(x, Next(ids[n - 1]))
  {
    var k :| 0 <= k < |ids| && ids[k] == x;
    if k < n {
      assert k == n - 1 || IdLess(ids[k], ids[n - 1]);
      assert forall j :: n <= j < |ids| ==> IdLess(ids[k], ids[j]);
    } else {
      assert IdLess(ids[n - 1], ids[k]);
      assert ids[n..][k - n] == x;
    }
  }

  /** What is left after the first n ids of an enumeration is what lies from the id after the n-th on. */
  lemma RestFromNext(keys: set<StreamId>, start: StreamId, n: nat, ids: seq<StreamId>)
    requires ids == Ids(IdsFrom(keys, start)) && 0 < n <= |ids| && ids[n - 1].num < U64_MAX
    ensures Ids(IdsFrom(keys, Next(ids[n - 1]))) == ids[n..]
  {
    var rest := ids[n..];
    var cursor := Next(ids[n - 1]);
    IdsEnumerate(IdsFrom(keys, start));
    assert ids[n - 1] in ids;
    forall x ensures x in rest <==> x in IdsFrom(keys, cursor) {
      if x in ids {
        RestByBound(ids, n, x);
      }
    }
    IdOrder();
    SortedIsTheEnumeration(rest, IdsFrom(keys, cursor), IdLess);
  }

  /** One XAUTOCLAIM with COUNT at least 1. The reply cursor is 0-0 only when nothing is left; otherwise what lies
      from it on is exactly what has not been looked at. This needs the last id looked at to have a successor: it
      lies below its cursor if and only if its sequence number is not the largest. */
  lemma AutoClaimCursor(st: Stream, start: StreamId, a: AutoArgs, now: int)
    requires a.count > 0
    ensures var ids, s := Ids(IdsFrom(st.pending.Keys, start)), AutoClaim(st, start, a, now);
            && s.visited <= ids
            && (|s.claimed| < a.count ==> s.visited == ids && ReplyCursor(s, a) == ZERO_ID)
            && (|s.claimed| >= a.count ==>
                 && s.visited != []
                 && var last := s.visited[|s.visited| - 1];
                    && (IdLess(last, ReplyCursor(s, a)) <==> last.num < U64_MAX)
                    && (last.num < U64_MAX ==>
                         && ReplyCursor(s, a) != ZERO_ID
                         && Ids(IdsFrom(st.pending.Keys, ReplyCursor(s, a))) == ids[|s.visited|..]))
  {
    var ids := Ids(IdsFrom(st.pending.Keys, start));
    var s := AutoClaim(st, start, a, now);
    SweepVisits(st, start, ids, a, now);
    if |s.claimed| >= a.count && s.visited[|s.visited| - 1].num < U64_MAX {
      assert s.visited[|s.visited| - 1] == ids[|s.visited| - 1];
      RestFromNext(st.pending.Keys, start, |s.visited|, ids);
    }
  }

  /** With COUNT 0 the cursor handed back is the one handed in, and nothing is claimed. */
  lemma {:induction false} CountZeroStandsStill(st: Stream, start: StreamId, ids: seq<StreamId>, a: AutoArgs, now: int)
    requires a.count == 0
    ensures SweepAll(st, start, ids, a, now) == Sweep(st.pending, start, [], [])
    ensures ReplyCursor(SweepAll(st, start, ids, a, now), a) == start
  {
    if ids != [] {
      CountZeroStandsStill(st, start, ids[..|ids| - 1], a, now);
    }
  }

  /** A call whose reply is filled by an id with the largest sequence number hands back a cursor at or before that
      id: the next call looks at it again. */
  lemma CursorBeforeLargest(st: Stream, start: StreamId, a: AutoArgs, now: int)
    requires a.count > 0 && |AutoClaim(st, start, a, now).claimed| >= a.count
    ensures var s := AutoClaim(st, start, a, now);
            && s.visited != []
            && var last := s.visited[|s.visited| - 1];
               last.num == U64_MAX ==>
                 ReplyCursor(s, a) == StreamId(last.ms, 0) && last in IdsFrom(st.pending.Keys, ReplyCursor(s, a))
  {
    SweepVisits(st, start, Ids(IdsFrom(st.pending.Keys, start)), a, now);
    VisitedArePending(st, start, a, now);
    var s := AutoClaim(st, start, a, now);
    assert s.visited[|s.visited| - 1] in s.visited;
  }

  /** The reply tells the truth about what is left: 0-0 when all ids from the start on were looked at, and otherwise,
      after some were, a cursor from which on exactly the others lie. */
  ghost predicate TellsWhatIsLeft(keys: set<StreamId>, start: StreamId, s: Sweep, cursor: StreamId) {
    var ids := Ids(IdsFrom(keys, start));
    if cursor == ZERO_ID then s.visited == ids
    else s.visited != [] && ids == s.visited + Ids(IdsFrom(keys, cursor))
  }

  /** A full reply can end on the id: it has a successor, or it is the very last one and in millisecond 0. */
  predicate EndsWell(x: StreamId, ids: seq<StreamId>) {
    x.num < U64_MAX || (x.ms == 0 && ids != [] && x == ids[|ids| - 1])
  }

  /** It does if and only if: with COUNT 0, there is nothing from 0-0 on; and otherwise, fewer than COUNT entries from
      the start on fit, or a full reply can end on the last of the first COUNT that do. */
  lemma CursorTruthful(st: Stream, start: StreamId, a: AutoArgs, now: int)
    ensures var ids, s := Ids(IdsFrom(st.pending.Keys, start)), AutoClaim(st, start, a, now);
            var fit := Fitting(st, a, now, ids);
            TellsWhatIsLeft(st.pending.Keys, start, s, ReplyCursor(s, a)) <==>
              if a.count == 0 then start == ZERO_ID && ids == []
              else |fit| < a.count || EndsWell(fit[a.count - 1], ids)
  {
    var ids, s := Ids(IdsFrom(st.pending.Keys, start)), AutoClaim(st, start, a, now);
    ReplyKnownBefore(st, start, a, now);
    if a.count == 0 {
      CountZeroStandsStill(st, start, ids, a, now);
    } else {
      AutoClaimCursor(st, start, a, now);
      if |s.claimed| >= a.count {
        FilledTruthful(st, start, a, now);
        WholeByLast(IdsFrom(st.pending.Keys, start), s.visited);
      }
    }
  }

  /** A non-empty prefix of an enumeration is all of it exactly when it ends on the last id. */
  lemma WholeByLast(from: set<StreamId>, visited: seq<StreamId>)
    requires visited != [] && visited <= Ids(from)
    ensures visited == Ids(from) <==> visited[|visited| - 1] == Ids(from)[|Ids(from)| - 1]
  {
    var ids := Ids(from);
    IdsEnumerate(from);
    assert visited[|visited| - 1] == ids[|visited| - 1];
    if |visited| < |ids| {
      assert IdLess(ids[|visited| - 1], ids[|ids| - 1]);
    }
  }

  lemma FilledTruthful(st: Stream, start: StreamId, a: AutoArgs, now: int)
    requires a.count > 0 && |AutoClaim(st, start, a, now).claimed| >= a.count
    requires AutoClaim(st, start, a, now).visited != []
    ensures var ids, s := Ids(IdsFrom(st.pending.Keys, start)), AutoClaim(st, start, a, now);
            var last := s.visited[|s.visited| - 1];
            TellsWhatIsLeft(st.pending.Keys, start, s, ReplyCursor(s, a)) <==>
              last.num < U64_MAX || (last.ms == 0 && s.visited == ids)
  {
    var keys := st.pending.Keys;
    var ids, s := Ids(IdsFrom(keys, start)), AutoClaim(st, start, a, now);
    var last := s.visited[|s.visited| - 1];
    AutoClaimCursor(st, start, a, now);
    if last.num < U64_MAX {
      assert ids == s.visited + ids[|s.visited|..];
    } else {
      CursorBeforeLargest(st, start, a, now);
      if last.ms > 0 {
        IdsEnumerate(IdsFrom(keys, start));
        IdsEnumerate(IdsFrom(keys, ReplyCursor(s, a)));
        NotTwice(ids, s.visited, Ids(IdsFrom(keys, ReplyCursor(s, a))), last);
      }
    }
  }

  lemma NotTwice(ids: seq<StreamId>, front: seq<StreamId>, rest: seq<StreamId>, x: StreamId)
    requires Increasing(ids, IdLess) && x in front && x in rest
    ensures ids != front + rest
  {
    var i :| 0 <= i < |front| && front[i] == x;
    var j :| 0 <= j < |rest| && rest[j] == x;
    var all := front + rest;
    assert !IdLess(all[i], all[|front| + j]);
    assert !Increasing(all, IdLess);
  }

  /** Without a minimum idle time a sweep's reply depends on which ids are pending, not on their entries. */
  lemma {:induction false} SameSweep(st: Stream, st': Stream, start: StreamId, ids: seq<StreamId>, a: AutoArgs,
                                     now: int, now': int)
    requires a.minIdle == 0 && st'.entries == st.entries && st'.pending.Keys == st.pending.Keys
    ensures var s, s' := SweepAll(st, start, ids, a, now), SweepAll(st', start, ids, a, now');
            s'.cursor == s.cursor && s'.claimed == s.claimed && s'.visited == s.visited
  {
    if ids != [] {
      SameSweep(st, st', start, ids[..|ids| - 1], a, now, now');
    }
  }

  /** The state after n calls with the same cursor. */
  function CalledAgain(st: Stream, start: StreamId, a: AutoArgs, clock: nat -> int, n: nat): Stream
    decreases n
  {
    if n == 0 then st
    else
      var before := CalledAgain(st, start, a, clock, n - 1);
      before.(pending := AutoClaim(before, start, a, clock(n - 1)).pending)
  }

  /** Each of the calls takes an entry the first looks at, which keeps the sweep as it is. */
  lemma {:induction false} TakenEachTime(st: Stream, start: StreamId, a: AutoArgs, clock: nat -> int, n: nat,
                                         x: StreamId)
    requires a.minIdle == 0 && x in AutoClaim(st, start, a, clock(0)).visited && x in st.pending
    ensures var after := CalledAgain(st, start, a, clock, n);
            && after.entries == st.entries && after.pending.Keys == st.pending.Keys
            && after.pending[x].count == st.pending[x].count + n
    decreases n
  {
    if n > 0 {
      TakenEachTime(st, start, a, clock, n - 1, x);
      CalledOnceMore(st, CalledAgain(st, start, a, clock, n - 1), start, a, clock(0), clock(n - 1), x);
    }
  }

  /** A sweep without a minimum idle time that is handed back the cursor it came with never ends: however often it
      calls, it is handed the same cursor, and every entry it looks at has one more delivery each time. */
  lemma SameCursorForever(st: Stream, start: StreamId, a: AutoArgs, clock: nat -> int, n: nat, x: StreamId)
    requires a.minIdle == 0 && ReplyCursor(AutoClaim(st, start, a, clock(0)), a) == start
    requires x in AutoClaim(st, start, a, clock(0)).visited && x in st.pending
    ensures var after := CalledAgain(st, start, a, clock, n);
            && after.entries == st.entries && after.pending.Keys == st.pending.Keys
            && ReplyCursor(AutoClaim(after, start, a, clock(n)), a) == start
            && after.pending[x].count == st.pending[x].count + n
  {
    TakenEachTime(st, start, a, clock, n, x);
    SameReply(st, CalledAgain(st, start, a, clock, n), start, a, clock(0), clock(n));
  }

  lemma CalledOnceMore(st: Stream, before: Stream, start: StreamId, a: AutoArgs, now: int, now': int, x: StreamId)
    requires a.minIdle == 0 && before.entries == st.entries && before.pending.Keys == st.pending.Keys
    requires x in AutoClaim(st, start, a, now).visited && x in st.pending
    ensures var pending := AutoClaim(before, start, a, now').pending;
            pending.Keys == st.pending.Keys && pending[x].count == before.pending[x].count + 1
  {
    SameReply(st, before, start, a, now, now');
    VisitedTaken(before, start, a, now', x);
  }

  lemma SameReply(st: Stream, st': Stream, start: StreamId, a: AutoArgs, now: int, now': int)
    requires a.minIdle == 0 && st'.entries == st.entries && st'.pending.Keys == st.pending.Keys
    ensures var s, s' := AutoClaim(st, start, a, now), AutoClaim(st', start, a, now');
            ReplyCursor(s', a) == ReplyCursor(s, a) && s'.visited == s.visited
  {
    SameSweep(st, st', start, Ids(IdsFrom(st.pending.Keys, start)), a, now, now');
  }

  lemma VisitedTaken(st: Stream, start: StreamId, a: AutoArgs, now: int, x: StreamId)
    requires a.minIdle == 0 && x in AutoClaim(st, start, a, now).visited && x in st.pending
    ensures var after := AutoClaim(st, start, a, now).pending;
            after.Keys == st.pending.Keys && after[x] == Pending(a.consumer, now, st.pending[x].count + 1)
  {
    var from := IdsFrom(st.pending.Keys, start);
    IdsEnumerate(from);
    IncreasingDistinct(Ids(from));
    assert forall y :: y in Ids(from) ==> y in from;
    SweepTakes(st, start, Ids(from), a, now);
  }

  /** So a sweep that has come to (ms, 0) and whose reply is filled by the largest id of that millisecond never
      gets past it. */
  lemma LargestSequenceLoops(st: Stream, a: AutoArgs, clock: nat -> int, n: nat, x: StreamId)
    requires a.count > 0 && a.minIdle == 0 && x.num == U64_MAX
    requires var s := AutoClaim(st, StreamId(x.ms, 0), a, clock(0));
             |s.claimed| >= a.count && s.visited != [] && s.visited[|s.visited| - 1] == x
    ensures var start := StreamId(x.ms, 0);
            var after := CalledAgain(st, start, a, clock, n);
            && ReplyCursor(AutoClaim(after, start, a, clock(n)), a) == start
            && x in st.pending && x in after.pending && after.pending[x].count == st.pending[x].count + n
  {
    var start := StreamId(x.ms, 0);
    var s := AutoClaim(st, start, a, clock(0));
    assert x in s.visited;
    VisitedArePending(st, start, a, clock(0));
    CursorBeforeLargest(st, start, a, clock(0));
    SameCursorForever(st, start, a, clock, n, x);
  }

  /** It does come to that: the only pending entry being such an id, the first call leads there. */
  lemma LargestSequenceReached(st: Stream, x: StreamId, pe: Pending, a: AutoArgs, now: int)
    requires st.pending == map[x := pe] && x.num == U64_MAX
    requires a.count == 1 && a.minIdle == 0 && a.justId
    ensures ReplyCursor(AutoClaim(st, ZERO_ID, a, now), a) == StreamId(x.ms, 0)
    ensures var s := AutoClaim(st, StreamId(x.ms, 0), a, now);
            |s.claimed| >= a.count && s.visited == [x]
  {
    OnlyOne(st, x, ZERO_ID, a, now);
    OnlyOne(st, x, StreamId(x.ms, 0), a, now);
  }

  lemma OnlyOne(st: Stream, x: StreamId, start: StreamId, a: AutoArgs, now: int)
    requires st.pending.Keys == {x} && !IdLess(x, start)
    requires a.count == 1 && a.minIdle == 0 && a.justId
    ensures var s := AutoClaim(st, start, a, now);
            ReplyCursor(s, a) == Next(x) && |s.claimed| == 1 && s.visited == [x]
  {
    assert IdsFrom(st.pending.Keys, start) == {x};
    IdOrder();
    SortedIsTheEnumeration([x], {x}, IdLess);
    assert Ids({x}) == [x];
    assert [x][..0] == [];
    assert SweepAll(st, start, [], a, now) == Sweep(st.pending, start, [], []);
    assert SweepAll(st, start, [x], a, now) == SweepOne(st.entries, Sweep(st.pending, start, [], []), x, a, now);
  }

  lemma VisitedArePending(st: Stream, start: StreamId, a: AutoArgs, now: int)
    ensures forall x :: x in AutoClaim(st, start, a, now).visited ==> x in st.pending
  {
    var ids := Ids(IdsFrom(st.pending.Keys, start));
    IdsEnumerate(IdsFrom(st.pending.Keys, start));
    SweepVisits(st, start, ids, a, now);
    forall x | x in AutoClaim(st, start, a, now).visited ensures x in st.pending {
      assert x in ids;
    }
  }

  lemma IncreasingDistinct(ids: seq<StreamId>)
    requires Increasing(ids, IdLess)
    ensures Distinct(ids)
  {
  }

  lemma IdsElements(s: set<StreamId>)
    ensures Elements(Ids(s)) == s
  {
    IdsEnumerate(s);
  }

  // ---------------------------------------------------------------------------------------------
  // XADD: which ids are assigned, and which entries a group can still be given
  // ---------------------------------------------------------------------------------------------

  /** Every entry lies below the stream's last id, which is one past the greatest id added. */
  predicate WellKept(st: Stream) {
    forall x :: x in st.entries ==> IdLess(x, st.lastId)
  }

  /** An assigned id is at or above the last id, hence above every entry, exactly when it was asked for by number
      or the clock is not behind the last id. */
  lemma AssignedAboveAll(st: Stream, requested: Option<StreamId>, nowMs: u64)
    requires WellKept(st) && GenerateId(st.lastId, requested, nowMs).Some?
    ensures var id := GenerateId(st.lastId, requested, nowMs).value;
            && (!IdLess(id, st.lastId) <==> requested.Some? || nowMs >= st.lastId.ms)
            && (!IdLess(id, st.lastId) ==> forall x :: x in st.entries ==> IdLess(x, id))
  {
  }

  /** The bookkeeping survives an added entry unless its sequence number has no successor. */
  lemma AddKeepsWell(st: Stream, id: StreamId, f: Fields)
    requires WellKept(st)
    ensures WellKept(AddEntry(st, id, f)) <==> IdLess(id, st.lastId) || id.num < U64_MAX
  {
    var st' := AddEntry(st, id, f);
    assert id in st'.entries;
    if !IdLess(id, st.lastId) && id.num < U64_MAX {
      forall x | x in st'.entries ensures IdLess(x, st'.lastId) {
        assert x == id || IdLess(x, st.lastId);
      }
    }
  }

  /** With the clock behind the last id, the entry added now has the id of the next one added in the same
      millisecond, which therefore replaces it. */
  lemma BehindClockOverwrites(st: Stream, nowMs: u64, f: Fields, g: Fields)
    requires nowMs < st.lastId.ms
    ensures var one := Added(st, None, nowMs, f, None);
            var two := Added(one, None, nowMs, g, None);
            StreamId(nowMs, 0) in one.entries && two == one.(entries := one.entries[StreamId(nowMs, 0) := g])
  {
  }

  /** The id an XADD would use is one the stream holds: asked for by number, above the last id; chosen by the clock, the
      last id itself in its millisecond and number 0 in any other. */
  predicate Occupied(st: Stream, requested: Option<StreamId>, nowMs: u64) {
    match requested
    case Some(id) => IdLess(st.lastId, id) && id in st.entries
    case None => if nowMs == st.lastId.ms then st.lastId in st.entries else StreamId(nowMs, 0) in st.entries
  }

  /** On any stream, an XADD is accepted and adds no entry, replacing one, if and only if its id is occupied. */
  lemma AddReplacesExactly(st: Stream, requested: Option<StreamId>, nowMs: u64, f: Fields)
    ensures var accepted := GenerateId(st.lastId, requested, nowMs).Some?;
            accepted && |Added(st, requested, nowMs, f, None).entries| == |st.entries| <==>
              Occupied(st, requested, nowMs)
  {
    var r := GenerateId(st.lastId, requested, nowMs);
    if r.Some? {
      assert st.entries[r.value := f].Keys == st.entries.Keys + {r.value};
    }
  }

  /** Where every entry lies below the last id, that is: the clock chose the id, is behind the last id, and the stream
      holds an entry with number 0 in that millisecond. */
  lemma KeptReplacesExactly(st: Stream, requested: Option<StreamId>, nowMs: u64)
    requires WellKept(st)
    ensures Occupied(st, requested, nowMs) <==>
              requested.None? && nowMs < st.lastId.ms && StreamId(nowMs, 0) in st.entries
  {
  }

  /** An entry with the largest sequence number sends the last id back to the start of its millisecond, so that the same
      XADD is accepted again and replaces it. */
  lemma LargestReplacesItself(st: Stream, ms: u64, nowMs: u64, f: Fields, g: Fields)
    requires IdLess(st.lastId, StreamId(ms, U64_MAX))
    ensures var x := StreamId(ms, U64_MAX);
            var one := Added(st, Some(x), nowMs, f, None);
            && one.lastId == StreamId(ms, 0) && x in one.entries
            && GenerateId(one.lastId, Some(x), nowMs) == Some(x)
            && Added(one, Some(x), nowMs, g, None) == one.(entries := one.entries[x := g])
  {
  }

  /** The state after a run. */
  function Final(st: Stream, cs: seq<Command>): Stream
    decreases |cs|
  {
    if cs == [] then st else Final(Apply(st, cs[0]), cs[1..])
  }

  lemma {:induction false} RunIsFinal(w: World, cs: seq<Command>)
    ensures Run(w, cs).st == Final(w.st, cs)
    decreases |cs|
  {
    if cs != [] {
      RunIsFinal(World(Apply(w.st, cs[0]), Record(w.st, w.h, cs[0])), cs[1..]);
    }
  }

  predicate Accepts(st: Stream, c: Command) {
    c.Add? && GenerateId(st.lastId, c.requested, c.nowMs).Some?
  }

  predicate Replaces(st: Stream, c: Command) {
    Accepts(st, c) && GenerateId(st.lastId, c.requested, c.nowMs).value in st.entries
  }

  /** How many entries a trim rule asks to go: those beyond a length, or those below a bound. */
  function Surplus(entries: map<StreamId, Fields>, rule: TrimRule): nat {
    match rule
    case MaxLen(n) => Max(|entries| - n, 0)
    case MinId(id) => |set x | x in entries && IdLess(x, id)|
  }

  /** The entries XDEL names and the stream holds, and the surplus for XTRIM and the trimming of XADD. */
  function Drops(st: Stream, c: Command): nat {
    match c
    case Del(ids) => |Elements(ids) * st.entries.Keys|
    case Trim(rule) => Surplus(st.entries, rule)
    case Add(requested, nowMs, f, trim) =>
      if Accepts(st, c) && trim.Some? then
        Surplus(AddEntry(st, GenerateId(st.lastId, requested, nowMs).value, f).entries, trim.value)
      else 0
    case _ => 0
  }

  lemma LessKeys<V>(m: map<StreamId, V>, gone: set<StreamId>)
    ensures |m - gone| == |m| - |gone * m.Keys|
  {
    assert (m - gone).Keys == m.Keys - gone * m.Keys;
    assert m.Keys == (m - gone).Keys + gone * m.Keys;
  }

  lemma FirstIds(s: set<StreamId>, n: nat)
    requires n <= |s|
    ensures |Elements(Ids(s)[..n]) * s| == n
  {
    var first := Ids(s)[..n];
    IdsEnumerate(s);
    IncreasingDistinct(first);
    DistinctSize(first, Elements(first));
    assert Elements(first) * s == Elements(first);
  }

  /** What trimming leaves. By length: the greatest ids, as many as the length allows. By bound: exactly the ids not
      below it. What stays keeps its fields. */
  ghost predicate Trimmed(entries: map<StreamId, Fields>, left: map<StreamId, Fields>, rule: TrimRule) {
    && (forall x :: x in left ==> x in entries && left[x] == entries[x])
    && match rule
       case MaxLen(n) =>
         && |left| == Min(n, |entries|)
         && (forall x, y :: x in left && y in entries && y !in left ==> IdLess(y, x))
       case MinId(id) => forall x :: x in entries ==> (x in left <==> !IdLess(x, id))
  }

  lemma KeptExactly(entries: map<StreamId, Fields>, rule: TrimRule)
    ensures Trimmed(entries, Kept(entries, rule), rule)
  {
    KeptSize(entries, rule);
    if rule.MaxLen? && |entries| > rule.n {
      FirstBelowRest(entries.Keys, |entries| - rule.n);
    }
  }

  lemma FirstBelowRest(s: set<StreamId>, n: nat)
    requires n <= |s|
    ensures var first := Elements(Ids(s)[..n]); forall x, y :: x in s && x !in first && y in first ==> IdLess(y, x)
  {
    IdsEnumerate(s);
    var ids := Ids(s);
    forall x, y | x in s && x !in ids[..n] && y in ids[..n] ensures IdLess(y, x) {
      PrefixBelow(ids, n, y, x);
    }
  }

  /** Trimming takes away exactly the surplus. */
  lemma KeptSize(entries: map<StreamId, Fields>, rule: TrimRule)
    ensures |Kept(entries, rule)| == |entries| - Surplus(entries, rule)
  {
    match rule
    case MaxLen(n) =>
      if |entries| > n {
        FirstIds(entries.Keys, |entries| - n);
        LessKeys(entries, Elements(Ids(entries.Keys)[..|entries| - n]));
      }
    case MinId(id) =>
      var below := set x | x in entries && IdLess(x, id);
      assert below * entries.Keys == below;
      LessKeys(entries, below);
  }

  datatype Tally = Tally(accepted: nat, replaced: nat, dropped: nat)

  function Count(b: bool): nat {
    if b then 1 else 0
  }

  /** How many XADDs of a run were accepted, how many of them replaced an entry, and how many entries were dropped. */
  function Tallied(st: Stream, cs: seq<Command>): Tally
    decreases |cs|
  {
    if cs == [] then Tally(0, 0, 0)
    else
      var rest := Tallied(Apply(st, cs[0]), cs[1..]);
      Tally(rest.accepted + Count(Accepts(st, cs[0])),
            rest.replaced + Count(Replaces(st, cs[0])),
            rest.dropped + Drops(st, cs[0]))
  }

  lemma AddStep(st: Stream, id: StreamId, f: Fields, trim: Option<TrimRule>)
    ensures var entries := AddEntry(st, id, f).entries;
            && |entries| == |st.entries| + 1 - Count(id in st.entries)
            && (trim.Some? ==> |Kept(entries, trim.value)| == |entries| - Surplus(entries, trim.value))
  {
    assert st.entries[id := f].Keys == st.entries.Keys + {id};
    if trim.Some? {
      KeptSize(AddEntry(st, id, f).entries, trim.value);
    }
  }

  lemma EntriesStep(st: Stream, c: Command)
    ensures |Apply(st, c).entries| == |st.entries| + Count(Accepts(st, c)) - Count(Replaces(st, c)) - Drops(st, c)
  {
    match c
    case Add(requested, nowMs, f, trim) =>
      if Accepts(st, c) {
        AddStep(st, GenerateId(st.lastId, requested, nowMs).value, f, trim);
      }
    case Del(ids) => LessKeys(st.entries, Elements(ids));
    case Trim(rule) => KeptSize(st.entries, rule);
    case _ => GroupStep(st, c);
  }

  /** What happens in the group leaves the entries alone. */
  lemma GroupStep(st: Stream, c: Command)
    requires !c.Add? && !c.Del? && !c.Trim?
    ensures Apply(st, c).entries == st.entries
  {
    if c.Claim? {
      ClaimedKeys(st, c.ids, c.consumer, c.minIdle, c.newIdle, c.now);
    }
  }

  /** Over every run the entries add up: those there were and those added, less those replaced and those dropped. */
  lemma {:induction false} EntriesAddUp(st: Stream, cs: seq<Command>)
    ensures var t := Tallied(st, cs); |Final(st, cs).entries| == |st.entries| + t.accepted - t.replaced - t.dropped
    decreases |cs|
  {
    if cs != [] {
      EntriesStep(st, cs[0]);
      EntriesAddUp(Apply(st, cs[0]), cs[1..]);
    }
  }

  /** The command is not an XADD with an occupied id. */
  predicate ClearOfEntries(st: Stream, c: Command) {
    c.Add? ==> !Occupied(st, c.requested, c.nowMs)
  }

  predicate AllClear(st: Stream, cs: seq<Command>)
    decreases |cs|
  {
    cs == [] || (ClearOfEntries(st, cs[0]) && AllClear(Apply(st, cs[0]), cs[1..]))
  }

  /** The command is not an XADD whose clock is behind the last id on a millisecond with an entry number 0. */
  predicate ClearOfClock(st: Stream, c: Command) {
    c.Add? && c.requested.None? && c.nowMs < st.lastId.ms ==> StreamId(c.nowMs, 0) !in st.entries
  }

  predicate ClockClear(st: Stream, cs: seq<Command>)
    decreases |cs|
  {
    cs == [] || (ClearOfClock(st, cs[0]) && ClockClear(Apply(st, cs[0]), cs[1..]))
  }

  /** An id the command adds at or above the last id has a successor. */
  predicate HasSuccessor(st: Stream, c: Command) {
    Accepts(st, c) ==>
      var id := GenerateId(st.lastId, c.requested, c.nowMs).value;
      IdLess(id, st.lastId) || id.num < U64_MAX
  }

  predicate AllHaveSuccessors(st: Stream, cs: seq<Command>)
    decreases |cs|
  {
    cs == [] || (HasSuccessor(st, cs[0]) && AllHaveSuccessors(Apply(st, cs[0]), cs[1..]))
  }

  lemma ApplyKeepsWell(st: Stream, c: Command)
    requires WellKept(st) && HasSuccessor(st, c)
    ensures WellKept(Apply(st, c))
  {
    if Accepts(st, c) {
      AddKeepsWell(st, GenerateId(st.lastId, c.requested, c.nowMs).value, c.fields);
    } else if c.Claim? {
      ClaimedKeys(st, c.ids, c.consumer, c.minIdle, c.newIdle, c.now);
    }
  }

  lemma {:induction false} ReplacedExactly(st: Stream, cs: seq<Command>)
    ensures Tallied(st, cs).replaced == 0 <==> AllClear(st, cs)
    decreases |cs|
  {
    if cs != [] {
      ReplacedExactly(Apply(st, cs[0]), cs[1..]);
    }
  }

  /** Over every run on any stream, every accepted XADD adds an entry of its own, that is, the entries at the end are
      those at the start and one for each accepted XADD less the dropped ones, if and only if no XADD of the run finds
      its id occupied. */
  lemma NoneReplacedExactly(st: Stream, cs: seq<Command>)
    ensures var t := Tallied(st, cs);
            |Final(st, cs).entries| == |st.entries| + t.accepted - t.dropped <==> AllClear(st, cs)
  {
    EntriesAddUp(st, cs);
    ReplacedExactly(st, cs);
  }

  /** Over every run that does not use up the sequence numbers, that is: no XADD finds its clock behind the last id on a
      millisecond whose entry number 0 is still there. */
  lemma {:induction false} KeptRunReplacesExactly(st: Stream, cs: seq<Command>)
    requires WellKept(st) && AllHaveSuccessors(st, cs)
    ensures AllClear(st, cs) <==> ClockClear(st, cs)
    decreases |cs|
  {
    if cs != [] {
      ApplyKeepsWell(st, cs[0]);
      KeptRunReplacesExactly(Apply(st, cs[0]), cs[1..]);
      if cs[0].Add? {
        KeptReplacesExactly(st, cs[0].requested, cs[0].nowMs);
      }
    }
  }

  /** The ids a run's XADDs assign. */
  function Assigned(w: World, cs: seq<Command>): seq<StreamId>
    decreases |cs|
  {
    if cs == [] then []
    else
      var rest := Assigned(World(Apply(w.st, cs[0]), Record(w.st, w.h, cs[0])), cs[1..]);
      if !cs[0].Add? then rest
      else
        match GenerateId(w.st.lastId, cs[0].requested, cs[0].nowMs)
        case None => rest
        case Some(id) => [id] + rest
  }

  /** No XADD of the run finds the clock behind the last id or uses up the sequence numbers. */
  predicate ClockKeepsUp(w: World, cs: seq<Command>)
    decreases |cs|
  {
    cs == [] ||
    (&& (cs[0].Add? ==> KeepsUp(w.st.lastId, cs[0].requested, cs[0].nowMs))
     && ClockKeepsUp(World(Apply(w.st, cs[0]), Record(w.st, w.h, cs[0])), cs[1..]))
  }

  predicate KeepsUp(lastId: StreamId, requested: Option<StreamId>, nowMs: u64) {
    var id := GenerateId(lastId, requested, nowMs);
    (requested.None? ==> nowMs >= lastId.ms) && (id.Some? ==> id.value.num < U64_MAX)
  }

  lemma LastIdAfter(w: World, c: Command)
    ensures !c.Add? ==> Apply(w.st, c).lastId == w.st.lastId
    ensures c.Add? && KeepsUp(w.st.lastId, c.requested, c.nowMs) ==>
              match GenerateId(w.st.lastId, c.requested, c.nowMs)
              case None => Apply(w.st, c).lastId == w.st.lastId
              case Some(id) => !IdLess(id, w.st.lastId) && Apply(w.st, c).lastId == Next(id) && IdLess(id, Next(id))
  {
    if c.Claim? {
      ClaimedKeys(w.st, c.ids, c.consumer, c.minIdle, c.newIdle, c.now);
    }
  }

  /** Over every such run the assigned ids strictly increase and start at or above the last id. */
  lemma {:induction false} AssignedIncrease(w: World, cs: seq<Command>)
    requires ClockKeepsUp(w, cs)
    ensures Increasing(Assigned(w, cs), IdLess)
    ensures forall x :: x in Assigned(w, cs) ==> !IdLess(x, w.st.lastId)
    decreases |cs|
  {
    if cs != [] {
      var next := World(Apply(w.st, cs[0]), Record(w.st, w.h, cs[0]));
      LastIdAfter(w, cs[0]);
      AssignedIncrease(next, cs[1..]);
      if cs[0].Add? && GenerateId(w.st.lastId, cs[0].requested, cs[0].nowMs).Some? {
        var id := GenerateId(w.st.lastId, cs[0].requested, cs[0].nowMs).value;
        var rest := Assigned(next, cs[1..]);
        JoinedLog([id], rest, id);
        assert Assigned(w, cs) == [id] + rest;
      } else {
        assert Assigned(w, cs) == Assigned(next, cs[1..]);
      }
    }
  }

  /** An added entry can be read by the group exactly when its id lies above the last-delivered one. Added with `*`
      in the millisecond of the last id, that asks for the group to stand before the last id; in any other, for it
      to stand before the start of that millisecond. */
  lemma AddedIsDeliverable(st: Stream, requested: Option<StreamId>, nowMs: u64, f: Fields)
    requires GenerateId(st.lastId, requested, nowMs).Some?
    ensures var id := GenerateId(st.lastId, requested, nowMs).value;
            && (id in NewIds(Added(st, requested, nowMs, f, None), None) <==> IdLess(st.lastDelivered, id))
            && (requested.None? ==> id == if nowMs == st.lastId.ms then st.lastId else StreamId(nowMs, 0))
  {
    var st' := Added(st, requested, nowMs, f, None);
    IdsEnumerate(IdsAfter(st'.entries.Keys, st'.lastDelivered));
    var ids := Ids(IdsAfter(st'.entries.Keys, st'.lastDelivered));
    assert NewIds(st', None) == ids;
  }

  /** An entry at or below the last-delivered id is never delivered again, whatever follows. */
  lemma NotDeliveredLater(st: Stream, x: StreamId, cs: seq<Command>)
    requires !IdLess(st.lastDelivered, x)
    ensures x !in Run(World(st, NOTHING_YET), cs).h.delivered
  {
    DeliveredAtMostOnce(st.lastDelivered, World(st, NOTHING_YET), cs);
  }

  /** A group created at `$` stands at the last id, which is one past the newest entry: an entry added with `*` in
      the millisecond of the last id gets just that id, and the group is never given it. */
  lemma DollarGroupMisses(st: Stream, f: Fields, cs: seq<Command>)
    requires st.lastDelivered == st.lastId
    ensures var st' := Added(st, None, st.lastId.ms, f, None);
            st.lastId in st'.entries && st.lastId !in Run(World(st', NOTHING_YET), cs).h.delivered
  {
    NotDeliveredLater(Added(st, None, st.lastId.ms, f, None), st.lastId, cs);
  }

  // ---------------------------------------------------------------------------------------------
  // The commands as the server runs them
  // ---------------------------------------------------------------------------------------------

  lemma {:induction false} RereadDone(st: Stream, ids: seq<StreamId>, n: nat, count: Option<nat>, now: int)
    requires n <= |ids| && RereadAll(st, ids[..n], count, now).done
    ensures RereadAll(st, ids, count, now) == RereadAll(st, ids[..n], count, now)
    decreases |ids|
  {
    if n == |ids| {
      assert ids[..n] == ids;
    } else {
      assert ids[..|ids| - 1][..n] == ids[..n];
      RereadDone(st, ids[..|ids| - 1], n, count, now);
    }
  }

  lemma {:induction false} SweepFull(st: Stream, start: StreamId, ids: seq<StreamId>, n: nat, a: AutoArgs, now: int)
    requires n <= |ids| && |SweepAll(st, start, ids[..n], a, now).claimed| >= a.count
    ensures SweepAll(st, start, ids, a, now) == SweepAll(st, start, ids[..n], a, now)
    decreases |ids|
  {
    if n == |ids| {
      assert ids[..n] == ids;
    } else {
      assert ids[..|ids| - 1][..n] == ids[..n];
      SweepFull(st, start, ids[..|ids| - 1], n, a, now);
    }
  }

  /** A loop over a list has handled one element more. */
  lemma PrefixStep<T>(s: seq<T>, i: nat)
    requires i < |s|
    ensures s[..i + 1][..i] == s[..i] && s[..i + 1][i] == s[i]
    ensures s[..i + 1] == s[..i] + [s[i]]
  {
  }

  /** Removing one listed key more. */
  lemma DropStep<V>(m: map<StreamId, V>, left: map<StreamId, V>, ids: seq<StreamId>, i: nat)
    requires i < |ids| && left == m - Elements(ids[..i])
    ensures left - {ids[i]} == m - Elements(ids[..i + 1])
    ensures |left - {ids[i]}| == if ids[i] in left then |left| - 1 else |left|
  {
    PrefixStep(ids, i);
    assert Elements(ids[..i + 1]) == Elements(ids[..i]) + {ids[i]};
    assert (left - {ids[i]}).Keys == left.Keys - {ids[i]};
  }

  lemma TrackStep(pending: map<StreamId, Pending>, ids: seq<StreamId>, i: nat, consumer: string, now: int)
    requires i < |ids|
    ensures Track(pending, ids[..i + 1], consumer, now) ==
              Track(pending, ids[..i], consumer, now)[ids[i] := Pending(consumer, now, 1)]
  {
    PrefixStep(ids, i);
  }

  /** What is left without the listed ids, the rest as it was. */
  ghost predicate Without<V(!new)>(m: map<StreamId, V>, left: map<StreamId, V>, ids: seq<StreamId>) {
    && (forall x :: x in left <==> x in m && x !in ids)
    && (forall x :: x in left ==> left[x] == m[x])
  }

  /** Remove listed keys one by one, counting those that were there: the loop of XDEL, XTRIM and XACK. */
  method RemoveListed<V(!new)>(m: map<StreamId, V>, ids: seq<StreamId>) returns (left: map<StreamId, V>, n: nat)
    ensures left == m - Elements(ids) && n == |m| - |left|
    ensures Without(m, left, ids)
  {
    left, n := m, 0;
    for i := 0 to |ids|
      invariant left == m - Elements(ids[..i]) && n == |m| - |left|
    {
      DropStep(m, left, ids, i);
      if ids[i] in left {
        n := n + 1;
      }
      left := left - {ids[i]};
    }
    assert ids[..|ids|] == ids;
  }

  /** The loop of a `>` read over the entries beyond the last-delivered id. */
  method DeliverNew(ids: seq<StreamId>, before: map<StreamId, Pending>, from: StreamId, consumer: string,
                    count: Option<nat>, noack: bool, now: int)
    returns (out: seq<StreamId>, pending: map<StreamId, Pending>, last: StreamId)
    ensures out == ids[..Limit(|ids|, count)]
    ensures pending == if noack then before else Track(before, out, consumer, now)
    ensures last == if out == [] then from else out[|out| - 1]
  {
    out, pending, last := [], before, from;
    assert Track(before, [], consumer, now) == before;
    var i := 0;
    while i < |ids|
      invariant 0 <= i <= |ids| && out == ids[..i]
      invariant count.Some? ==> i < Max(count.value, 1)
      invariant pending == if noack then before else Track(before, out, consumer, now)
      invariant last == if out == [] then from else out[|out| - 1]
    {
      PrefixStep(ids, i);
      TrackStep(before, ids, i, consumer, now);
      out := out + [ids[i]];
      if !noack {
        pending := pending[ids[i] := Pending(consumer, now, 1)];
      }
      last := ids[i];
      i := i + 1;
      if count.Some? && |out| >= count.value {
        break;
      }
    }
    assert i == Limit(|ids|, count);
  }

  /** A `>` read of a stream. */
  method DeliverFirst(st: Stream, consumer: string, count: Option<nat>, noack: bool, now: int)
    returns (out: seq<StreamId>, pending: map<StreamId, Pending>, last: StreamId)
    ensures out == NewIds(st, count)
    ensures st.(pending := pending, lastDelivered := last, consumers := st.consumers + {consumer})
         == ReadNew(st, consumer, count, noack, now)
  {
    var ids := Ids(IdsAfter(st.entries.Keys, st.lastDelivered));
    out, pending, last := DeliverNew(ids, st.pending, st.lastDelivered, consumer, count, noack, now);
  }

  /** The loop of a read of the pending entries. */
  method DeliverAgain(st: Stream, pids: seq<StreamId>, count: Option<nat>, now: int)
    returns (out: seq<StreamId>, pending: map<StreamId, Pending>)
    ensures var r := RereadAll(st, pids, count, now); out == r.out && pending == r.pending
  {
    out, pending := [], st.pending;
    var i := 0;
    while i < |pids|
      invariant 0 <= i <= |pids|
      invariant Reread(pending, out, false) == RereadAll(st, pids[..i], count, now)
    {
      var sid := pids[i];
      PrefixStep(pids, i);
      if sid in st.entries {
        out := out + [sid];
        if sid in pending {
          var pe := pending[sid];
          pending := pending[sid := pe.(count := pe.count + 1, deliveredAt := now)];
        }
      }
      i := i + 1;
      if count.Some? && |out| >= count.value {
        RereadDone(st, pids, i, count, now);
        return;
      }
    }
    assert pids[..i] == pids;
  }

  /** XCLAIM takes an existing entry that is not pending, or that has been pending long enough. */
  predicate Claimable(st: Stream, x: StreamId, minIdle: nat, now: int) {
    x in st.entries && (x in st.pending ==> minIdle == 0 || now - st.pending[x].deliveredAt >= minIdle)
  }

  /** The reply so far names exactly the ids gone through that could be claimed when the command came; they are
      with the claiming consumer, and every other pending entry is untouched. */
  ghost predicate HandedTo(st: Stream, gone: seq<StreamId>, out: seq<StreamId>, pending: map<StreamId, Pending>,
                           consumer: string, minIdle: nat, now: int) {
    && (forall x :: x in out <==> x in gone && Claimable(st, x, minIdle, now))
    && (forall x :: x in out ==> x in pending && pending[x].consumer == consumer)
    && (forall x :: x !in out ==> (x in pending <==> x in st.pending))
    && (forall x :: x !in out && x in pending ==> pending[x] == st.pending[x])
  }

  function GivenIdle(newIdle: Option<nat>): nat {
    if newIdle.Some? then newIdle.value else 0
  }

  /** What becomes of an id that XCLAIM names n times. One that cannot be claimed is left alone. A pending one goes to
      the consumer with the idle time given and one delivery more, or one for each time it is named if the idle time
      given is enough to claim it again. One that is not pending starts with one delivery now, and goes on like that
      only without a minimum idle time. */
  ghost predicate ClaimedTimes(st: Stream, x: StreamId, n: nat, after: map<StreamId, Pending>, consumer: string,
                               minIdle: nat, newIdle: Option<nat>, now: int) {
    if n == 0 || !Claimable(st, x, minIdle, now) then
      (x in after <==> x in st.pending) && (x in after ==> after[x] == st.pending[x])
    else if x in st.pending then
      var times := if GivenIdle(newIdle) >= minIdle then n else 1;
      x in after && after[x] == Pending(consumer, now - GivenIdle(newIdle), st.pending[x].count + times)
    else
      var again := minIdle == 0 && n > 1;
      x in after &&
      after[x] == if again then Pending(consumer, now - GivenIdle(newIdle), n) else Pending(consumer, now, 1)
  }

  /** So it is for every id and every list. */
  lemma {:induction false} ClaimedRecord(st: Stream, ids: seq<StreamId>, consumer: string, minIdle: nat,
                                         newIdle: Option<nat>, now: int, x: StreamId)
    ensures ClaimedTimes(st, x, multiset(ids)[x], Claimed(st, ids, consumer, minIdle, newIdle, now).pending, consumer,
                         minIdle, newIdle, now)
  {
    if ids != [] {
      var front, id := ids[..|ids| - 1], ids[|ids| - 1];
      assert ids == front + [id];
      ClaimedRecord(st, front, consumer, minIdle, newIdle, now, x);
      ClaimedKeys(st, front, consumer, minIdle, newIdle, now);
      var before := Claimed(st, front, consumer, minIdle, newIdle, now);
      ClaimOneRecord(st, before, id, multiset(front)[x], consumer, minIdle, newIdle, now, x);
    }
  }

  lemma ClaimOneRecord(st: Stream, before: Stream, id: StreamId, n: nat, consumer: string, minIdle: nat,
                       newIdle: Option<nat>, now: int, x: StreamId)
    requires before.entries == st.entries
    requires ClaimedTimes(st, x, n, before.pending, consumer, minIdle, newIdle, now)
    ensures ClaimedTimes(st, x, if x == id then n + 1 else n,
                         ClaimOne(before, id, consumer, minIdle, newIdle, now).pending, consumer, minIdle, newIdle, now)
  {
  }

  lemma HandedStep(st: Stream, gone: seq<StreamId>, out: seq<StreamId>, pending: map<StreamId, Pending>, id: StreamId,
                   consumer: string, minIdle: nat, newIdle: Option<nat>, now: int)
    requires HandedTo(st, gone, out, pending, consumer, minIdle, now)
    ensures var cur := st.(pending := pending);
            var out' := if Claimable(cur, id, minIdle, now) then out + [id] else out;
            HandedTo(st, gone + [id], out', ClaimOne(cur, id, consumer, minIdle, newIdle, now).pending,
                     consumer, minIdle, now)
  {
  }

  /** The reply of XCLAIM: each id that can be claimed when its turn comes. */
  function ClaimReply(st: Stream, ids: seq<StreamId>, consumer: string, minIdle: nat, newIdle: Option<nat>,
                      now: int): seq<StreamId> {
    if ids == [] then []
    else
      var front, id := ids[..|ids| - 1], ids[|ids| - 1];
      ClaimReply(st, front, consumer, minIdle, newIdle, now)
      + if Claimable(Claimed(st, front, consumer, minIdle, newIdle, now), id, minIdle, now) then [id] else []
  }

  /** It names, in their order, exactly the ids that could be claimed when the command came. */
  lemma {:induction false} ClaimReplyExactly(st: Stream, ids: seq<StreamId>, consumer: string, minIdle: nat,
                                             newIdle: Option<nat>, now: int)
    ensures var out := ClaimReply(st, ids, consumer, minIdle, newIdle, now);
            && Picked(out, ids)
            && HandedTo(st, ids, out, Claimed(st, ids, consumer, minIdle, newIdle, now).pending, consumer, minIdle, now)
  {
    if ids == [] {
      PickedNone(ids);
    } else {
      var front, id := ids[..|ids| - 1], ids[|ids| - 1];
      ClaimReplyExactly(st, front, consumer, minIdle, newIdle, now);
      ClaimedKeys(st, front, consumer, minIdle, newIdle, now);
      var out := ClaimReply(st, front, consumer, minIdle, newIdle, now);
      var before := Claimed(st, front, consumer, minIdle, newIdle, now);
      assert ids == front + [id] && before == st.(pending := before.pending);
      assert out + [] == out;
      PickedNext(out, front, id);
      HandedStep(st, front, out, before.pending, id, consumer, minIdle, newIdle, now);
    }
  }

  /** The loop of XCLAIM. */
  method ClaimListed(st: Stream, ids: seq<StreamId>, consumer: string, minIdle: nat, newIdle: Option<nat>, now: int)
    returns (out: seq<StreamId>, pending: map<StreamId, Pending>)
    ensures pending == Claimed(st, ids, consumer, minIdle, newIdle, now).pending
    ensures HandedTo(st, ids, out, pending, consumer, minIdle, now) && Picked(out, ids)
  {
    out, pending := [], st.pending;
    var i := 0;
    while i < |ids|
      invariant 0 <= i <= |ids|
      invariant st.(pending := pending) == Claimed(st, ids[..i], consumer, minIdle, newIdle, now)
      invariant out == ClaimReply(st, ids[..i], consumer, minIdle, newIdle, now)
    {
      PrefixStep(ids, i);
      var taken;
      taken, pending := ClaimId(st, pending, ids[i], consumer, minIdle, newIdle, now);
      if taken {
        out := out + [ids[i]];
      }
      i := i + 1;
    }
    assert ids[..i] == ids;
    ClaimReplyExactly(st, ids, consumer, minIdle, newIdle, now);
  }

  /** One turn of the loop of XCLAIM. */
  method ClaimId(st: Stream, before: map<StreamId, Pending>, id: StreamId, consumer: string, minIdle: nat,
                 newIdle: Option<nat>, now: int)
    returns (taken: bool, pending: map<StreamId, Pending>)
    ensures var cur := st.(pending := before);
            && (taken <==> Claimable(cur, id, minIdle, now))
            && st.(pending := pending) == ClaimOne(cur, id, consumer, minIdle, newIdle, now)
  {
    pending := before;
    if id !in st.entries {
      return false, pending;
    }
    if id in pending {
      if Elapsed(now, pending[id].deliveredAt) < minIdle {
        return false, pending;
      }
      var at := if newIdle.Some? then now - newIdle.value else now;
      pending := pending[id := Pending(consumer, at, pending[id].count + 1)];
    } else {
      pending := pending[id := Pending(consumer, now, 1)];
    }
    taken := true;
  }

  /** The loop of XAUTOCLAIM. */
  method ClaimInOrder(st: Stream, start: StreamId, pids: seq<StreamId>, a: AutoArgs, now: int)
    returns (pending: map<StreamId, Pending>, cursor: StreamId, claimed: seq<StreamId>)
    ensures var s := SweepAll(st, start, pids, a, now);
            pending == s.pending && cursor == s.cursor && claimed == s.claimed
  {
    pending, cursor, claimed := st.pending, start, [];
    var i := 0;
    ghost var visited := [];
    while i < |pids|
      invariant 0 <= i <= |pids|
      invariant Sweep(pending, cursor, claimed, visited) == SweepAll(st, start, pids[..i], a, now)
    {
      if |claimed| >= a.count {
        SweepFull(st, start, pids, i, a, now);
        return;
      }
      var id := pids[i];
      PrefixStep(pids, i);
      i, visited := i + 1, visited + [id];
      if id in pending && Elapsed(now, pending[id].deliveredAt) < a.minIdle {
        continue;
      }
      if id in pending {
        pending := pending[id := Pending(a.consumer, now, pending[id].count + 1)];
      }
      cursor := Next(id);
      if a.justId || id in st.entries {
        claimed := claimed + [id];
      }
    }
    assert pids[..i] == pids;
  }

  /** XTRIM, and the trimming of XADD. */
  method TrimEntries(entries: map<StreamId, Fields>, rule: TrimRule) returns (left: map<StreamId, Fields>, removed: nat)
    ensures left == Kept(entries, rule) && removed == |entries| - |left|
  {
    match rule {
      case MaxLen(n) =>
        if |entries| <= n {
          return entries, 0;
        }
        var ids := Ids(entries.Keys)[..|entries| - n];
        left, removed := RemoveListed(entries, ids);
      case MinId(id) =>
        var low := set x | x in entries && IdLess(x, id);
        IdsElements(low);
        left, removed := RemoveListed(entries, Ids(low));
    }
  }

  class GroupedStream {
    var entries: map<StreamId, Fields>
    var lastId: StreamId
    var pending: map<StreamId, Pending>
    var lastDelivered: StreamId
    var consumers: set<string>

    function View(): Stream
      reads this
    {
      Stream(entries, lastId, pending, lastDelivered, consumers)
    }

    /** XGROUP CREATE on a fresh stream object: `$` stands for the stream's last id. */
    constructor (entries: map<StreamId, Fields>, lastId: StreamId, from: Option<StreamId>)
      ensures View() == Stream(entries, lastId, map[], if from.None? then lastId else from.value, {})
      ensures Balanced(World(View(), NOTHING_YET)) && TrackedSince(World(View(), NOTHING_YET))
      ensures DeliveredSince(View().lastDelivered, World(View(), NOTHING_YET))
    {
      this.entries, this.lastId, pending, consumers := entries, lastId, map[], {};
      lastDelivered := if from.None? then lastId else from.value;
    }

    method Xadd(requested: Option<StreamId>, nowMs: u64, f: Fields, trim: Option<TrimRule>)
      returns (id: Option<StreamId>)
      modifies this
      ensures id == old(GenerateId(lastId, requested, nowMs))
      ensures View() == Apply(old(View()), Add(requested, nowMs, f, trim))
      ensures id.None? ==> View() == old(View())
      ensures id.Some? && trim.None? ==> entries == old(entries)[id.value := f]
      ensures id.Some? && trim.Some? ==> entries == Kept(old(entries)[id.value := f], trim.value)
    {
      id := GenerateId(lastId, requested, nowMs);
      if id.None? {
        return;
      }
      if lastId.ms < id.value.ms || (id.value.ms == lastId.ms && id.value.num >= lastId.num) {
        lastId := Next(id.value);
      }
      entries := entries[id.value := f];
      if trim.Some? {
        var removed := Xtrim(trim.value);
      }
    }

    method Xdel(ids: seq<StreamId>) returns (n: nat)
      modifies this
      ensures View() == Apply(old(View()), Del(ids))
      ensures n == |old(entries)| - |entries|
      ensures Without(old(entries), entries, ids)
    {
      entries, n := RemoveListed(entries, ids);
    }

    method Xtrim(rule: TrimRule) returns (removed: nat)
      modifies this
      ensures View() == Apply(old(View()), Trim(rule))
      ensures removed == |old(entries)| - |entries|
      ensures Trimmed(old(entries), entries, rule)
    {
      KeptExactly(entries, rule);
      entries, removed := TrimEntries(entries, rule);
    }

    method XreadgroupNew(consumer: string, count: Option<nat>, noack: bool, now: int) returns (out: seq<StreamId>)
      modifies this
      ensures out == old(NewIds(View(), count))
      ensures View() == Apply(old(View()), ReadGroup(consumer, count, noack, now))
    {
      out, pending, lastDelivered := DeliverFirst(View(), consumer, count, noack, now);
      consumers := consumers + {consumer};
    }

    method XreadgroupHistory(consumer: string, count: Option<nat>, now: int) returns (out: seq<StreamId>)
      modifies this
      ensures out == old(RereadAll(View(), Ids(pending.Keys), count, now).out)
      ensures View() == Apply(old(View()), ReadHistory(consumer, count, now))
    {
      out, pending := DeliverAgain(View(), Ids(pending.Keys), count, now);
      consumers := consumers + {consumer};
    }

    method Xack(ids: seq<StreamId>) returns (n: nat)
      modifies this
      ensures View() == Apply(old(View()), Ack(ids))
      ensures n == |old(AckedBy(View(), ids))|
      ensures Without(old(pending), pending, ids)
    {
      pending, n := RemoveListed(pending, ids);
      RemainingKeys(old(View()), ids);
    }

    method Xclaim(consumer: string, minIdle: nat, ids: seq<StreamId>, newIdle: Option<nat>, now: int)
      returns (out: seq<StreamId>)
      modifies this
      ensures View() == Apply(old(View()), Claim(consumer, minIdle, ids, newIdle, now))
      ensures HandedTo(old(View()), ids, out, pending, consumer, minIdle, now) && Picked(out, ids)
      ensures forall x :: ClaimedTimes(old(View()), x, multiset(ids)[x], pending, consumer, minIdle, newIdle, now)
    {
      forall x
        ensures ClaimedTimes(View(), x, multiset(ids)[x], Claimed(View(), ids, consumer, minIdle, newIdle, now).pending,
                             consumer, minIdle, newIdle, now)
      {
        ClaimedRecord(View(), ids, consumer, minIdle, newIdle, now, x);
      }
      ClaimedKeys(View(), ids, consumer, minIdle, newIdle, now);
      out, pending := ClaimListed(View(), ids, consumer, minIdle, newIdle, now);
    }

    method Xautoclaim(start: StreamId, a: AutoArgs, now: int) returns (cursor: StreamId, claimed: seq<StreamId>)
      modifies this
      ensures claimed == old(AutoClaim(View(), start, a, now).claimed)
      ensures cursor == old(ReplyCursor(AutoClaim(View(), start, a, now), a))
      ensures View() == Apply(old(View()), SweepFrom(start, a, now))
    {
      var pids := Ids(IdsFrom(pending.Keys, start));
      pending, cursor, claimed := ClaimInOrder(View(), start, pids, a, now);
      if |claimed| < a.count {
        cursor := ZERO_ID;
      }
    }
  }
}
