/** Whole sweeps with XAUTOCLAIM: a client that calls over and over, each time with the cursor it was handed. */
module Sweeps {
  import opened Data
  import opened Order
  import opened Streams

  // ---------------------------------------------------------------------------------------------
  // The client and its pages
  // ---------------------------------------------------------------------------------------------

  /** Where a sweep left the stream, and the ids it looked at, in order. */
  datatype Rounds = Rounds(st: Stream, visited: seq<StreamId>)

  /** The stream after one call, and the cursor handed back. */
  function After(st: Stream, start: StreamId, a: AutoArgs, now: int): Stream {
    st.(pending := AutoClaim(st, start, a, now).pending)
  }

  function CursorOf(st: Stream, start: StreamId, a: AutoArgs, now: int): StreamId {
    ReplyCursor(AutoClaim(st, start, a, now), a)
  }

  /** The sweep from call k on, clock(k) being the time of that call, until the cursor is 0-0; None if that takes more
      than `calls` calls. */
  function Follow(st: Stream, start: StreamId, a: AutoArgs, clock: nat -> int, k: nat, calls: nat): Option<Rounds>
    decreases calls
  {
    if calls == 0 then None
    else
      var visited := AutoClaim(st, start, a, clock(k)).visited;
      var next, cursor := After(st, start, a, clock(k)), CursorOf(st, start, a, clock(k));
      if cursor == ZERO_ID then Some(Rounds(next, visited))
      else
        match Follow(next, cursor, a, clock, k + 1, calls - 1)
        case None => None
        case Some(rest) => Some(Rounds(rest.st, visited + rest.visited))
  }

  /** The sweep ends, having looked at every pending id from the start on exactly once, in order. */
  ghost predicate SweepsAll(st: Stream, start: StreamId, a: AutoArgs, clock: nat -> int, k: nat) {
    exists calls :: IsWhole(st, start, a, clock, k, calls)
  }

  ghost predicate IsWhole(st: Stream, start: StreamId, a: AutoArgs, clock: nat -> int, k: nat, calls: nat) {
    var r := Follow(st, start, a, clock, k, calls);
    r.Some? && r.value.visited == Ids(IdsFrom(st.pending.Keys, start))
  }

  /** What comes behind an id in a list. */
  function Behind(ids: seq<StreamId>, x: StreamId): (r: seq<StreamId>)
    ensures ids != [] ==> |r| < |ids|
  {
    if ids == [] then [] else if ids[0] == x then ids[1..] else Behind(ids[1..], x)
  }

  lemma {:induction false} BehindFront(front: seq<StreamId>, rest: seq<StreamId>)
    requires Distinct(front + rest) && front != []
    ensures Behind(front + rest, front[|front| - 1]) == rest
    decreases |front|
  {
    var ids, last := front + rest, front[|front| - 1];
    if |front| == 1 {
      assert ids[1..] == rest;
    } else {
      assert ids[0] != ids[|front| - 1];
      assert ids[1..] == front[1..] + rest;
      BehindFront(front[1..], rest);
    }
  }

  /** Page by page, as the entries stand before the sweep: every full page ends on an id a full reply can end on. */
  predicate PagesEndWell(st: Stream, ids: seq<StreamId>, a: AutoArgs, clock: nat -> int, k: nat)
    requires a.count > 0
    decreases |ids|
  {
    var fit := Fitting(st, a, clock(k), ids);
    |fit| < a.count ||
    (EndsWell(fit[a.count - 1], ids) && PagesEndWell(st, Behind(ids, fit[a.count - 1]), a, clock, k + 1))
  }

  /** From one page to the next. */
  lemma PagesByNext(st: Stream, ids: seq<StreamId>, a: AutoArgs, clock: nat -> int, k: nat, rest: seq<StreamId>)
    requires a.count > 0
    requires var fit := Fitting(st, a, clock(k), ids);
             |fit| >= a.count && EndsWell(fit[a.count - 1], ids) && Behind(ids, fit[a.count - 1]) == rest
    ensures PagesEndWell(st, rest, a, clock, k + 1) <==> PagesEndWell(st, ids, a, clock, k)
  {
  }

  /** Two states that hold the same about the listed ids. */
  ghost predicate SameAt(st: Stream, st': Stream, ids: seq<StreamId>) {
    && st'.entries == st.entries
    && forall x :: x in ids ==> x in st.pending && x in st'.pending && st'.pending[x] == st.pending[x]
  }

  lemma {:induction false} FittingSame(st: Stream, st': Stream, a: AutoArgs, now: int, ids: seq<StreamId>)
    requires SameAt(st, st', ids)
    ensures Fitting(st', a, now, ids) == Fitting(st, a, now, ids)
  {
    if ids != [] {
      assert ids[|ids| - 1] in ids;
      FittingSame(st, st', a, now, ids[..|ids| - 1]);
    }
  }

  lemma {:induction false} BehindSubset(ids: seq<StreamId>, x: StreamId)
    ensures forall y :: y in Behind(ids, x) ==> y in ids
  {
    if ids != [] && ids[0] != x {
      BehindSubset(ids[1..], x);
    }
  }

  lemma {:induction false} PagesSame(st: Stream, st': Stream, ids: seq<StreamId>, a: AutoArgs, clock: nat -> int,
                                     k: nat)
    requires a.count > 0 && SameAt(st, st', ids)
    ensures PagesEndWell(st', ids, a, clock, k) <==> PagesEndWell(st, ids, a, clock, k)
    decreases |ids|
  {
    FittingSame(st, st', a, clock(k), ids);
    var fit := Fitting(st, a, clock(k), ids);
    if |fit| >= a.count {
      BehindSubset(ids, fit[a.count - 1]);
      PagesSame(st, st', Behind(ids, fit[a.count - 1]), a, clock, k + 1);
    }
  }

  // ---------------------------------------------------------------------------------------------
  // One call of a sweep
  // ---------------------------------------------------------------------------------------------

  /** A call leaves the ids it did not look at as they were. */
  lemma UnvisitedSame(st: Stream, start: StreamId, a: AutoArgs, now: int, rest: seq<StreamId>)
    requires Ids(IdsFrom(st.pending.Keys, start)) == AutoClaim(st, start, a, now).visited + rest
    ensures SameAt(st, After(st, start, a, now), rest)
  {
    var from := IdsFrom(st.pending.Keys, start);
    var ids, s := Ids(from), AutoClaim(st, start, a, now);
    IdsEnumerate(from);
    IncreasingDistinct(ids);
    assert forall x :: x in ids ==> x in from;
    SweepTakes(st, start, ids, a, now);
    forall x | x in rest ensures x in st.pending && x !in s.visited {
      assert x in ids;
      ApartInDistinct(s.visited, rest, x);
    }
  }

  lemma ApartInDistinct(front: seq<StreamId>, rest: seq<StreamId>, x: StreamId)
    requires Distinct(front + rest) && x in rest
    ensures x !in front
  {
    var all := front + rest;
    var j :| 0 <= j < |rest| && rest[j] == x;
    forall i | 0 <= i < |front| ensures front[i] != x {
      assert all[i] != all[|front| + j];
    }
  }

  lemma BehindVisited(from: set<StreamId>, visited: seq<StreamId>, rest: seq<StreamId>)
    requires Ids(from) == visited + rest && visited != []
    ensures Behind(Ids(from), visited[|visited| - 1]) == rest
  {
    IdsEnumerate(from);
    IncreasingDistinct(Ids(from));
    BehindFront(visited, rest);
  }

  /** The page is not full, or ends well. */
  predicate GoodPage(st: Stream, start: StreamId, a: AutoArgs, now: int)
    requires a.count > 0
  {
    var ids := Ids(IdsFrom(st.pending.Keys, start));
    var fit := Fitting(st, a, now, ids);
    |fit| < a.count || EndsWell(fit[a.count - 1], ids)
  }

  /** After a good page the cursor tells what is left, which is what comes behind the id a full page ended on. */
  lemma GoodPageTells(st: Stream, start: StreamId, a: AutoArgs, now: int)
    requires a.count > 0 && GoodPage(st, start, a, now)
    ensures var ids, visited := Ids(IdsFrom(st.pending.Keys, start)), AutoClaim(st, start, a, now).visited;
            var fit, cursor := Fitting(st, a, now, ids), CursorOf(st, start, a, now);
            var rest := if cursor == ZERO_ID then [] else Ids(IdsFrom(st.pending.Keys, cursor));
            && ids == visited + rest
            && (cursor != ZERO_ID ==> visited != [] && |fit| >= a.count)
            && (|fit| >= a.count ==> Behind(ids, fit[a.count - 1]) == rest)
  {
    var from := IdsFrom(st.pending.Keys, start);
    var visited, cursor := AutoClaim(st, start, a, now).visited, CursorOf(st, start, a, now);
    var rest := if cursor == ZERO_ID then [] else Ids(IdsFrom(st.pending.Keys, cursor));
    CursorTruthful(st, start, a, now);
    ReplyKnownBefore(st, start, a, now);
    assert Ids(from) == visited + rest;
    if visited != [] {
      BehindVisited(from, visited, rest);
    }
  }

  /** A call whose full page ends badly is handed 0-0 too early, or a cursor that leads back to an id it looked at. */
  lemma BadPageMisleads(st: Stream, start: StreamId, a: AutoArgs, now: int)
    requires a.count > 0 && !GoodPage(st, start, a, now)
    ensures var ids, visited := Ids(IdsFrom(st.pending.Keys, start)), AutoClaim(st, start, a, now).visited;
            if CursorOf(st, start, a, now) == ZERO_ID then visited != ids
            else visited != [] && visited[|visited| - 1] in IdsFrom(st.pending.Keys, CursorOf(st, start, a, now))
  {
    CursorTruthful(st, start, a, now);
    ReplyKnownBefore(st, start, a, now);
    CursorBeforeLargest(st, start, a, now);
  }

  /** What is left after a good page is less than there was, and as it was. */
  lemma RestSame(st: Stream, start: StreamId, a: AutoArgs, now: int)
    requires a.count > 0 && GoodPage(st, start, a, now) && CursorOf(st, start, a, now) != ZERO_ID
    ensures var rest := Ids(IdsFrom(st.pending.Keys, CursorOf(st, start, a, now)));
            && After(st, start, a, now).pending.Keys == st.pending.Keys
            && |rest| < |Ids(IdsFrom(st.pending.Keys, start))|
            && SameAt(st, After(st, start, a, now), rest)
  {
    SweepKeys(st, start, Ids(IdsFrom(st.pending.Keys, start)), a, now);
    GoodPageTells(st, start, a, now);
    UnvisitedSame(st, start, a, now, Ids(IdsFrom(st.pending.Keys, CursorOf(st, start, a, now))));
  }

  lemma PagesFromCursor(st: Stream, start: StreamId, a: AutoArgs, clock: nat -> int, k: nat)
    requires a.count > 0 && GoodPage(st, start, a, clock(k)) && CursorOf(st, start, a, clock(k)) != ZERO_ID
    ensures var ids := Ids(IdsFrom(st.pending.Keys, start));
            var rest := Ids(IdsFrom(st.pending.Keys, CursorOf(st, start, a, clock(k))));
            PagesEndWell(st, rest, a, clock, k + 1) <==> PagesEndWell(st, ids, a, clock, k)
  {
    GoodPageTells(st, start, a, clock(k));
    PagesByNext(st, Ids(IdsFrom(st.pending.Keys, start)), a, clock, k,
                Ids(IdsFrom(st.pending.Keys, CursorOf(st, start, a, clock(k)))));
  }

  /** After a good page, the pages ahead of the next call are the ones that were ahead all along. */
  lemma NextPages(st: Stream, start: StreamId, a: AutoArgs, clock: nat -> int, k: nat)
    requires a.count > 0 && GoodPage(st, start, a, clock(k)) && CursorOf(st, start, a, clock(k)) != ZERO_ID
    ensures var ids := Ids(IdsFrom(st.pending.Keys, start));
            var next := After(st, start, a, clock(k));
            var rest := Ids(IdsFrom(next.pending.Keys, CursorOf(st, start, a, clock(k))));
            && |rest| < |ids|
            && (PagesEndWell(next, rest, a, clock, k + 1) <==> PagesEndWell(st, ids, a, clock, k))
  {
    var next, cursor := After(st, start, a, clock(k)), CursorOf(st, start, a, clock(k));
    RestSame(st, start, a, clock(k));
    PagesFromCursor(st, start, a, clock, k);
    PagesSame(st, next, Ids(IdsFrom(st.pending.Keys, cursor)), a, clock, k + 1);
  }

  // ---------------------------------------------------------------------------------------------
  // When a sweep is whole
  // ---------------------------------------------------------------------------------------------

  lemma SameFront(front: seq<StreamId>, x: seq<StreamId>, y: seq<StreamId>)
    ensures front + x == front + y <==> x == y
  {
    assert x == (front + x)[|front|..] && y == (front + y)[|front|..];
  }

  /** After a good page, a sweep is whole exactly when the rest of it is. */
  lemma WholeByRest(st: Stream, start: StreamId, a: AutoArgs, clock: nat -> int, k: nat, calls: nat)
    requires a.count > 0 && GoodPage(st, start, a, clock(k)) && CursorOf(st, start, a, clock(k)) != ZERO_ID
    ensures var next, cursor := After(st, start, a, clock(k)), CursorOf(st, start, a, clock(k));
            IsWhole(st, start, a, clock, k, calls + 1) <==> IsWhole(next, cursor, a, clock, k + 1, calls)
  {
    var next, cursor := After(st, start, a, clock(k)), CursorOf(st, start, a, clock(k));
    RestSame(st, start, a, clock(k));
    GoodPageTells(st, start, a, clock(k));
    var r := Follow(next, cursor, a, clock, k + 1, calls);
    if r.Some? {
      SameFront(AutoClaim(st, start, a, clock(k)).visited, r.value.visited, Ids(IdsFrom(st.pending.Keys, cursor)));
    }
  }

  lemma {:induction false} GoodPagesSweep(st: Stream, start: StreamId, a: AutoArgs, clock: nat -> int, k: nat)
    returns (calls: nat)
    requires a.count > 0 && PagesEndWell(st, Ids(IdsFrom(st.pending.Keys, start)), a, clock, k)
    ensures IsWhole(st, start, a, clock, k, calls)
    decreases |Ids(IdsFrom(st.pending.Keys, start))|
  {
    assert GoodPage(st, start, a, clock(k));
    if CursorOf(st, start, a, clock(k)) == ZERO_ID {
      GoodPageTells(st, start, a, clock(k));
      calls := 1;
    } else {
      NextPages(st, start, a, clock, k);
      var rest := GoodPagesSweep(After(st, start, a, clock(k)), CursorOf(st, start, a, clock(k)), a, clock, k + 1);
      WholeByRest(st, start, a, clock, k, rest);
      calls := rest + 1;
    }
  }

  /** A sweep that has something to look at looks at the first of it first. */
  lemma FirstVisited(st: Stream, start: StreamId, a: AutoArgs, clock: nat -> int, k: nat, calls: nat)
    requires a.count > 0 && IdsFrom(st.pending.Keys, start) != {}
    ensures var r := Follow(st, start, a, clock, k, calls);
            r.Some? ==> r.value.visited != [] && r.value.visited[0] == Ids(IdsFrom(st.pending.Keys, start))[0]
  {
    AutoClaimCursor(st, start, a, clock(k));
  }

  lemma {:induction false} SweepHasGoodPages(st: Stream, start: StreamId, a: AutoArgs, clock: nat -> int, k: nat,
                                             calls: nat)
    requires a.count > 0 && IsWhole(st, start, a, clock, k, calls)
    ensures PagesEndWell(st, Ids(IdsFrom(st.pending.Keys, start)), a, clock, k)
    decreases calls
  {
    NoBadPage(st, start, a, clock, k, calls);
    if CursorOf(st, start, a, clock(k)) == ZERO_ID {
      GoodPageTells(st, start, a, clock(k));
      assert PagesEndWell(st, [], a, clock, k + 1);
    } else {
      WholeByRest(st, start, a, clock, k, calls - 1);
      SweepHasGoodPages(After(st, start, a, clock(k)), CursorOf(st, start, a, clock(k)), a, clock, k + 1, calls - 1);
      NextPages(st, start, a, clock, k);
    }
  }

  /** A whole sweep has no page that ends badly: after one it would look back. */
  lemma NoBadPage(st: Stream, start: StreamId, a: AutoArgs, clock: nat -> int, k: nat, calls: nat)
    requires a.count > 0 && IsWhole(st, start, a, clock, k, calls)
    ensures GoodPage(st, start, a, clock(k))
  {
    if !GoodPage(st, start, a, clock(k)) {
      BadPageMisleads(st, start, a, clock(k));
      if CursorOf(st, start, a, clock(k)) != ZERO_ID {
        var from := IdsFrom(st.pending.Keys, start);
        SweepKeys(st, start, Ids(from), a, clock(k));
        LooksBack(After(st, start, a, clock(k)), CursorOf(st, start, a, clock(k)), a, clock, k + 1, calls - 1,
                  from, AutoClaim(st, start, a, clock(k)).visited);
      }
      assert false;
    }
  }

  lemma LooksBack(st: Stream, cursor: StreamId, a: AutoArgs, clock: nat -> int, k: nat, calls: nat,
                  from: set<StreamId>, front: seq<StreamId>)
    requires a.count > 0 && front != [] && front[|front| - 1] in IdsFrom(st.pending.Keys, cursor)
    requires Follow(st, cursor, a, clock, k, calls).Some?
    ensures front + Follow(st, cursor, a, clock, k, calls).value.visited != Ids(from)
  {
    var seen, x := Follow(st, cursor, a, clock, k, calls).value.visited, front[|front| - 1];
    var later := IdsFrom(st.pending.Keys, cursor);
    FirstVisited(st, cursor, a, clock, k, calls);
    FirstIsLeast(later, x);
    IdsEnumerate(from);
    var all := front + seen;
    assert !IdLess(all[|front| - 1], all[|front|]);
    assert !Increasing(all, IdLess);
  }

  lemma FirstIsLeast(s: set<StreamId>, x: StreamId)
    requires x in s
    ensures |Ids(s)| > 0 && !IdLess(x, Ids(s)[0])
  {
    IdsEnumerate(s);
    var i :| 0 <= i < |Ids(s)| && Ids(s)[i] == x;
    assert i > 0 ==> IdLess(Ids(s)[0], Ids(s)[i]);
  }

  /** Following the cursors ends, having looked at every pending id from the start on exactly once and in order, if and
      only if every full page ends on an id a full reply can end on; with COUNT 0, if and only if there is nothing from
      0-0 on. This is known before the first call. */
  lemma SweepExactly(st: Stream, start: StreamId, a: AutoArgs, clock: nat -> int, k: nat)
    ensures a.count > 0 ==>
              (SweepsAll(st, start, a, clock, k) <==>
                PagesEndWell(st, Ids(IdsFrom(st.pending.Keys, start)), a, clock, k))
    ensures a.count == 0 ==>
              (SweepsAll(st, start, a, clock, k) <==> start == ZERO_ID && Ids(IdsFrom(st.pending.Keys, start)) == [])
  {
    if a.count > 0 {
      if PagesEndWell(st, Ids(IdsFrom(st.pending.Keys, start)), a, clock, k) {
        var calls := GoodPagesSweep(st, start, a, clock, k);
      }
      if calls :| IsWhole(st, start, a, clock, k, calls) {
        SweepHasGoodPages(st, start, a, clock, k, calls);
      }
    } else {
      CountZeroSweep(st, start, a, clock, k);
    }
  }

  lemma CountZeroSweep(st: Stream, start: StreamId, a: AutoArgs, clock: nat -> int, k: nat)
    requires a.count == 0
    ensures SweepsAll(st, start, a, clock, k) <==> start == ZERO_ID && Ids(IdsFrom(st.pending.Keys, start)) == []
  {
    CountZeroStandsStill(st, start, Ids(IdsFrom(st.pending.Keys, start)), a, clock(k));
    if start == ZERO_ID {
      assert forall calls: nat :: calls > 0 ==> Follow(st, start, a, clock, k, calls) == Some(Rounds(st, []));
      assert IsWhole(st, start, a, clock, k, 1) <==> Ids(IdsFrom(st.pending.Keys, start)) == [];
    } else {
      forall calls ensures Follow(st, start, a, clock, k, calls).None? {
        NeverEnds(st, start, a, clock, k, calls);
      }
    }
  }

  lemma {:induction false} NeverEnds(st: Stream, start: StreamId, a: AutoArgs, clock: nat -> int, k: nat, calls: nat)
    requires a.count == 0 && start != ZERO_ID
    ensures Follow(st, start, a, clock, k, calls).None?
    decreases calls
  {
    CountZeroStandsStill(st, start, Ids(IdsFrom(st.pending.Keys, start)), a, clock(k));
    if calls > 0 {
      NeverEnds(st, start, a, clock, k + 1, calls - 1);
    }
  }

  predicate HaveSuccessors(ids: seq<StreamId>) {
    forall x :: x in ids ==> x.num < U64_MAX
  }

  /** Enough for it: no pending id has the largest sequence number. */
  lemma {:induction false} SuccessorsSuffice(st: Stream, ids: seq<StreamId>, a: AutoArgs, clock: nat -> int, k: nat)
    requires a.count > 0 && HaveSuccessors(ids)
    ensures PagesEndWell(st, ids, a, clock, k)
    decreases |ids|
  {
    var fit := Fitting(st, a, clock(k), ids);
    if |fit| >= a.count {
      var x := fit[a.count - 1];
      FittingExactly(st, a, clock(k), ids);
      assert x in fit;
      BehindSubset(ids, x);
      SuccessorsSuffice(st, Behind(ids, x), a, clock, k + 1);
    }
  }

  // ---------------------------------------------------------------------------------------------
  // What a whole sweep does
  // ---------------------------------------------------------------------------------------------

  /** One hand-over to the claiming consumer. */
  predicate HandedOver(was: Pending, after: Pending, a: AutoArgs) {
    after.consumer == a.consumer && after.count == was.count + 1
  }

  /** Each entry from there on was handed over once, or, with a minimum idle time, not at all; no other changed. */
  ghost predicate TakenAtMostOnce(was: map<StreamId, Pending>, after: map<StreamId, Pending>, from: set<StreamId>,
                                  a: AutoArgs) {
    && after.Keys == was.Keys
    && (forall x :: x in was && x !in from ==> after[x] == was[x])
    && (forall x :: x in was && x in from ==> HandedOver(was[x], after[x], a) || (a.minIdle > 0 && after[x] == was[x]))
  }

  /** One call does so to the ids it looked at. */
  lemma OneCallTakes(st: Stream, start: StreamId, a: AutoArgs, now: int)
    ensures var s := AutoClaim(st, start, a, now); TakenAtMostOnce(st.pending, s.pending, Elements(s.visited), a)
  {
    var from := IdsFrom(st.pending.Keys, start);
    IdsEnumerate(from);
    IncreasingDistinct(Ids(from));
    assert forall x :: x in Ids(from) ==> x in from;
    SweepTakes(st, start, Ids(from), a, now);
  }

  lemma TakenInParts(was: map<StreamId, Pending>, mid: map<StreamId, Pending>, after: map<StreamId, Pending>,
                     s: set<StreamId>, t: set<StreamId>, a: AutoArgs)
    requires TakenAtMostOnce(was, mid, s, a) && TakenAtMostOnce(mid, after, t, a) && s !! t
    ensures TakenAtMostOnce(was, after, s + t, a)
  {
  }

  lemma SplitByCursor(all: set<StreamId>, front: seq<StreamId>, rest: set<StreamId>)
    requires Ids(all) == front + Ids(rest)
    ensures Elements(front) + rest == all && Elements(front) !! rest
  {
    IdsElements(all);
    IdsElements(rest);
    JoinedElements(front, Ids(rest));
    IdsEnumerate(all);
    IncreasingDistinct(Ids(all));
    forall x | x in rest ensures x !in front {
      assert x in Ids(rest);
      ApartInDistinct(front, Ids(rest), x);
    }
  }

  /** What a good page takes and what is then taken from its cursor on is together what is taken from the start on. */
  lemma TakenAlong(st: Stream, start: StreamId, a: AutoArgs, now: int, after: map<StreamId, Pending>)
    requires a.count > 0 && GoodPage(st, start, a, now) && CursorOf(st, start, a, now) != ZERO_ID
    requires var next := After(st, start, a, now);
             TakenAtMostOnce(next.pending, after, IdsFrom(next.pending.Keys, CursorOf(st, start, a, now)), a)
    ensures TakenAtMostOnce(st.pending, after, IdsFrom(st.pending.Keys, start), a)
  {
    var from := IdsFrom(st.pending.Keys, start);
    var visited, rest := AutoClaim(st, start, a, now).visited, IdsFrom(st.pending.Keys, CursorOf(st, start, a, now));
    OneCallTakes(st, start, a, now);
    GoodPageTells(st, start, a, now);
    SplitByCursor(from, visited, rest);
    TakenInParts(st.pending, After(st, start, a, now).pending, after, Elements(visited), rest, a);
  }

  lemma {:induction false} PagesTakeOnce(st: Stream, start: StreamId, a: AutoArgs, clock: nat -> int, k: nat,
                                         calls: nat)
    requires a.count > 0 && IsWhole(st, start, a, clock, k, calls)
    ensures var after := Follow(st, start, a, clock, k, calls).value.st;
            TakenAtMostOnce(st.pending, after.pending, IdsFrom(st.pending.Keys, start), a)
    decreases calls
  {
    NoBadPage(st, start, a, clock, k, calls);
    if CursorOf(st, start, a, clock(k)) == ZERO_ID {
      LastPageTakes(st, start, a, clock, k, calls);
    } else {
      var next, cursor := After(st, start, a, clock(k)), CursorOf(st, start, a, clock(k));
      WholeByRest(st, start, a, clock, k, calls - 1);
      PagesTakeOnce(next, cursor, a, clock, k + 1, calls - 1);
      var after := Follow(next, cursor, a, clock, k + 1, calls - 1).value.st;
      TakenAlong(st, start, a, clock(k), after.pending);
      assert Follow(st, start, a, clock, k, calls).value.st == after;
    }
  }

  lemma LastPageTakes(st: Stream, start: StreamId, a: AutoArgs, clock: nat -> int, k: nat, calls: nat)
    requires IsWhole(st, start, a, clock, k, calls) && CursorOf(st, start, a, clock(k)) == ZERO_ID
    ensures var after := Follow(st, start, a, clock, k, calls).value.st;
            TakenAtMostOnce(st.pending, after.pending, IdsFrom(st.pending.Keys, start), a)
  {
    OneCallTakes(st, start, a, clock(k));
    IdsElements(IdsFrom(st.pending.Keys, start));
  }

  /** A whole sweep hands every pending entry from its start on over to the consumer at most once, and exactly once when
      the minimum idle time is 0; entries before it are untouched. */
  lemma FollowTakesOnce(st: Stream, start: StreamId, a: AutoArgs, clock: nat -> int, k: nat, calls: nat)
    requires IsWhole(st, start, a, clock, k, calls)
    ensures var after := Follow(st, start, a, clock, k, calls).value.st;
            TakenAtMostOnce(st.pending, after.pending, IdsFrom(st.pending.Keys, start), a)
  {
    if a.count > 0 {
      PagesTakeOnce(st, start, a, clock, k, calls);
    } else {
      CountZeroSweep(st, start, a, clock, k);
      CountZeroStandsStill(st, start, Ids(IdsFrom(st.pending.Keys, start)), a, clock(k));
    }
  }

  lemma FromZeroIsAll(keys: set<StreamId>)
    ensures IdsFrom(keys, ZERO_ID) == keys
  {
  }

  /** A sweep from 0-0 until the cursor is 0-0 again. If every full page ends well it ends, looks at every pending entry
      exactly once, and with minimum idle time 0 leaves every one of them with the claiming consumer and one more
      delivery. */
  lemma WholeSweep(st: Stream, a: AutoArgs, clock: nat -> int) returns (calls: nat)
    requires a.count > 0 && PagesEndWell(st, Ids(st.pending.Keys), a, clock, 0)
    ensures var r := Follow(st, ZERO_ID, a, clock, 0, calls);
            && r.Some?
            && r.value.visited == Ids(st.pending.Keys)
            && r.value.st.pending.Keys == st.pending.Keys
            && (a.minIdle == 0 ==> forall x :: x in st.pending ==> HandedOver(st.pending[x], r.value.st.pending[x], a))
  {
    FromZeroIsAll(st.pending.Keys);
    calls := GoodPagesSweep(st, ZERO_ID, a, clock, 0);
    FollowTakesOnce(st, ZERO_ID, a, clock, 0, calls);
  }
}
