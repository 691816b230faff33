/** WATCH down to the keys: a watcher waits on each watched key until the store announces a change of it, once, and
    nothing else takes it away. */
module Watchers {
  import opened Data
  import opened Transactions

  /** What happens to a client and its keys: it sends a command, the store announces a change of a key to the watchers
      waiting on it, or a flush drops all watchers. */
  datatype Happening = Sent(c: Command) | Announced(key: string) | Flushed

  /** A client and the keys its watchers wait on. */
  datatype Watched<W> = Watched(s: State<W>, waiting: set<string>)

  /** The keys an accepted WATCH starts waiting on. */
  function Registers<W>(s: State<W>, c: Command): set<string> {
    if IsCalled(c, "WATCH") && !s.client.multi then set k | k in c.args else {}
  }

  function Occur<W>(x: Watched<W>, h: Happening, srv: Server<W>): (y: Watched<W>)
    requires Inv(x.s)
    ensures Inv(y.s)
  {
    match h
    case Sent(c) => Watched(Dispatch(x.s, c, srv).0, x.waiting + Registers(x.s, c))
    case Announced(k) =>
      if k in x.waiting then Watched(x.s.(client := x.s.client.(dirty := true)), x.waiting - {k}) else x
    case Flushed => x.(waiting := {})
  }

  function Course<W>(x: Watched<W>, hs: seq<Happening>, srv: Server<W>): (y: Watched<W>)
    requires Inv(x.s)
    ensures Inv(y.s)
  {
    if hs == [] then x else Occur(Course(x, hs[..|hs| - 1], srv), hs[|hs| - 1], srv)
  }

  lemma {:induction false} CourseAppend<W>(x: Watched<W>, a: seq<Happening>, b: seq<Happening>, srv: Server<W>)
    requires Inv(x.s)
    ensures Course(x, a + b, srv) == Course(Course(x, a, srv), b, srv)
    decreases |b|
  {
    if b == [] {
      assert a + b == a;
    } else {
      CourseAppend(x, a, b[..|b| - 1], srv);
      assert (a + b)[..|a + b| - 1] == a + b[..|b| - 1];
    }
  }

  // ---------------------------------------------------------------------------------------------
  // Which keys are waited on
  // ---------------------------------------------------------------------------------------------

  /** An announcement of k or a flush is among the happenings from i on. */
  predicate Gone(hs: seq<Happening>, i: nat, k: string) {
    exists j :: i <= j < |hs| && (hs[j] == Announced(k) || hs[j] == Flushed)
  }

  /** Happening i is a WATCH of k that was accepted. */
  ghost predicate WatchedAt<W>(x: Watched<W>, hs: seq<Happening>, srv: Server<W>, i: nat, k: string)
    requires Inv(x.s) && i < |hs|
  {
    hs[i].Sent? && IsCalled(hs[i].c, "WATCH") && k in hs[i].c.args && !Course(x, hs[..i], srv).s.client.multi
  }

  /** k was waited on at the start, or an accepted WATCH named it, and since then neither was a change of it announced
      nor everything flushed. */
  ghost predicate StillWaits<W>(x: Watched<W>, hs: seq<Happening>, srv: Server<W>, k: string)
    requires Inv(x.s)
  {
    (k in x.waiting && !Gone(hs, 0, k)) || exists i :: 0 <= i < |hs| && WatchedAt(x, hs, srv, i, k) && !Gone(hs, i, k)
  }

  /** Over every course that is exactly when a key is waited on. UNWATCH, DISCARD and EXEC make no difference. */
  lemma {:induction false} WaitingExactly<W>(x: Watched<W>, hs: seq<Happening>, srv: Server<W>, k: string)
    requires Inv(x.s)
    ensures k in Course(x, hs, srv).waiting <==> StillWaits(x, hs, srv, k)
  {
    if hs != [] {
      WaitingExactly(x, hs[..|hs| - 1], srv, k);
      WaitStep(x, hs, srv, k);
    }
  }

  lemma WaitStep<W>(x: Watched<W>, hs: seq<Happening>, srv: Server<W>, k: string)
    requires Inv(x.s) && hs != []
    ensures var init, last := hs[..|hs| - 1], hs[|hs| - 1];
            StillWaits(x, hs, srv, k) <==>
              || WatchedAt(x, hs, srv, |hs| - 1, k)
              || (StillWaits(x, init, srv, k) && last != Announced(k) && last != Flushed)
  {
    var init, last := hs[..|hs| - 1], hs[|hs| - 1];
    GoneStep(hs, 0, k);
    GoneStep(hs, |hs| - 1, k);
    forall i | 0 <= i < |init|
      ensures WatchedAt(x, hs, srv, i, k) <==> WatchedAt(x, init, srv, i, k)
      ensures Gone(hs, i, k) <==> Gone(init, i, k) || last == Announced(k) || last == Flushed
    {
      assert init[..i] == hs[..i];
      GoneStep(hs, i, k);
    }
    if i :| 0 <= i < |hs| && WatchedAt(x, hs, srv, i, k) && !Gone(hs, i, k) {
      assert i < |init| ==> WatchedAt(x, init, srv, i, k) && !Gone(init, i, k);
    }
    if i :| 0 <= i < |init| && WatchedAt(x, init, srv, i, k) && !Gone(init, i, k) {
      assert WatchedAt(x, hs, srv, i, k);
    }
  }

  lemma GoneStep(hs: seq<Happening>, i: nat, k: string)
    requires i < |hs|
    ensures var init, last := hs[..|hs| - 1], hs[|hs| - 1];
            Gone(hs, i, k) <==> Gone(init, i, k) || last == Announced(k) || last == Flushed
  {
    var init, last := hs[..|hs| - 1], hs[|hs| - 1];
    if j :| i <= j < |hs| && (hs[j] == Announced(k) || hs[j] == Flushed) {
      assert j < |init| ==> init[j] == hs[j];
    }
    if j :| i <= j < |init| && (init[j] == Announced(k) || init[j] == Flushed) {
      assert hs[j] == init[j];
    }
    assert hs[|hs| - 1] == last;
  }

  // ---------------------------------------------------------------------------------------------
  // When EXEC aborts
  // ---------------------------------------------------------------------------------------------

  /** Events that leave an open transaction open. */
  predicate StaysOpenFor(h: Happening) {
    h.Sent? ==> StaysOpen(Send(h.c))
  }

  /** Happening i is the first announcement, since the start, of a key waited on then, and no flush came before it. */
  predicate FirstNotice(waiting: set<string>, hs: seq<Happening>, i: nat)
    requires i < |hs|
  {
    hs[i].Announced? && hs[i].key in waiting && !Gone(hs[..i], 0, hs[i].key)
  }

  /** Such a notice came and no UNWATCH after it. */
  ghost predicate NoticeStands(waiting: set<string>, hs: seq<Happening>) {
    exists i :: 0 <= i < |hs| && FirstNotice(waiting, hs, i) && !UnwatchFrom(hs, i)
  }

  predicate UnwatchFrom(hs: seq<Happening>, i: nat) {
    exists j :: i <= j < |hs| && hs[j].Sent? && IsCalled(hs[j].c, "UNWATCH")
  }

  lemma NoticeStep(waiting: set<string>, hs: seq<Happening>)
    requires hs != []
    ensures var init, last := hs[..|hs| - 1], hs[|hs| - 1];
            NoticeStands(waiting, hs) <==>
              || FirstNotice(waiting, hs, |hs| - 1)
              || (NoticeStands(waiting, init) && !(last.Sent? && IsCalled(last.c, "UNWATCH")))
  {
    var init, last := hs[..|hs| - 1], hs[|hs| - 1];
    forall i | 0 <= i < |init|
      ensures FirstNotice(waiting, hs, i) <==> FirstNotice(waiting, init, i)
      ensures UnwatchFrom(hs, i) <==> UnwatchFrom(init, i) || (last.Sent? && IsCalled(last.c, "UNWATCH"))
    {
      assert hs[..i] == init[..i];
      UnwatchStep(hs, i);
    }
    if i :| 0 <= i < |hs| && FirstNotice(waiting, hs, i) && !UnwatchFrom(hs, i) {
      assert i < |init| ==> FirstNotice(waiting, init, i) && !UnwatchFrom(init, i);
    }
    if i :| 0 <= i < |init| && FirstNotice(waiting, init, i) && !UnwatchFrom(init, i) {
      assert FirstNotice(waiting, hs, i);
    }
    if FirstNotice(waiting, hs, |hs| - 1) {
      assert !UnwatchFrom(hs, |hs| - 1);
    }
  }

  lemma UnwatchStep(hs: seq<Happening>, i: nat)
    requires i < |hs| - 1
    ensures var init, last := hs[..|hs| - 1], hs[|hs| - 1];
            UnwatchFrom(hs, i) <==> UnwatchFrom(init, i) || (last.Sent? && IsCalled(last.c, "UNWATCH"))
  {
    var init, last := hs[..|hs| - 1], hs[|hs| - 1];
    if j :| i <= j < |hs| && hs[j].Sent? && IsCalled(hs[j].c, "UNWATCH") {
      assert j < |init| ==> init[j] == hs[j];
    }
    if j :| i <= j < |init| && init[j].Sent? && IsCalled(init[j].c, "UNWATCH") {
      assert hs[j] == init[j];
    }
    assert hs[|hs| - 1] == last;
  }

  /** While a transaction is open nothing new is waited on, and the mark is the standing notice. */
  lemma {:induction false} OpenCourse<W>(x: Watched<W>, hs: seq<Happening>, srv: Server<W>)
    requires Inv(x.s) && x.s.client.multi && !x.s.client.dirty
    requires forall i :: 0 <= i < |hs| ==> StaysOpenFor(hs[i])
    ensures var y := Course(x, hs, srv);
            && y.s.client.multi && y.s.world == x.s.world
            && (forall k :: k in y.waiting <==> k in x.waiting && !Gone(hs, 0, k))
            && (y.s.client.dirty <==> NoticeStands(x.waiting, hs))
  {
    if hs == [] {
      assert !NoticeStands(x.waiting, hs);
    } else {
      var init, last := hs[..|hs| - 1], hs[|hs| - 1];
      OpenCourse(x, init, srv);
      NoticeStep(x.waiting, hs);
      forall k ensures Gone(hs, 0, k) <==> Gone(init, 0, k) || last == Announced(k) || last == Flushed {
        GoneStep(hs, 0, k);
      }
      OpenOccur(Course(x, init, srv), last, srv);
    }
  }

  lemma OpenOccur<W>(y: Watched<W>, h: Happening, srv: Server<W>)
    requires Inv(y.s) && y.s.client.multi && StaysOpenFor(h)
    ensures var z := Occur(y, h, srv);
            && z.s.client.multi && z.s.world == y.s.world
            && (forall k :: k in z.waiting <==> k in y.waiting && h != Announced(k) && h != Flushed)
            && (z.s.client.dirty <==> (h.Announced? && h.key in y.waiting)
                                      || (y.s.client.dirty && !(h.Sent? && IsCalled(h.c, "UNWATCH"))))
  {
  }

  /** EXEC aborts if and only if, since MULTI, a change of a key waited on at MULTI was announced for the first time and
      no UNWATCH came after it. The mark a client has at MULTI makes no difference. */
  lemma ExecAbortsExactly<W>(x: Watched<W>, hs: seq<Happening>, end: Command, srv: Server<W>)
    requires Inv(x.s) && !x.s.client.multi && IsCalled(end, "EXEC")
    requires forall i :: 0 <= i < |hs| ==> StaysOpenFor(hs[i])
    ensures var y := Course(x, [Sent(Named("MULTI", []))] + hs, srv);
            && (Dispatch(y.s, end, srv).1 == NullArray <==> NoticeStands(x.waiting, hs))
            && y.s.world == x.s.world
  {
    var open := [Sent(Named("MULTI", []))];
    UpperIsUpper();
    assert open[..0] == [];
    CourseAppend(x, open, hs, srv);
    assert Course(x, open, srv) == Occur(x, open[0], srv);
    OpenCourse(Course(x, open, srv), hs, srv);
  }

  // ---------------------------------------------------------------------------------------------
  // Optimistic locking
  // ---------------------------------------------------------------------------------------------

  /** Happenings that leave a client outside MULTI there. */
  predicate StaysShutFor(h: Happening) {
    h.Sent? ==> StaysShut(Send(h.c))
  }

  lemma {:induction false} OutsideCourse<W>(x: Watched<W>, hs: seq<Happening>, srv: Server<W>)
    requires Inv(x.s) && !x.s.client.multi && forall i :: 0 <= i < |hs| ==> StaysShutFor(hs[i])
    ensures !Course(x, hs, srv).s.client.multi
  {
    if hs != [] {
      OutsideCourse(x, hs[..|hs| - 1], srv);
    }
  }

  /** Since MULTI, k is announced changed with no earlier announcement of it nor a flush before, nor UNWATCH after. */
  ghost predicate Heard(hs: seq<Happening>, k: string) {
    exists i :: 0 <= i < |hs| && hs[i] == Announced(k) && !Gone(hs[..i], 0, k) && !UnwatchFrom(hs, i)
  }

  /** A key waited on at MULTI is heard of after it. */
  ghost predicate Late<W>(x: Watched<W>, early: seq<Happening>, hs: seq<Happening>, srv: Server<W>)
    requires Inv(x.s)
  {
    exists k :: StillWaits(x, early, srv, k) && Heard(hs, k)
  }

  /** Happening i is an accepted WATCH of k, and the client did not forget after it. */
  ghost predicate Standing<W>(x: Watched<W>, hs: seq<Happening>, srv: Server<W>, i: nat, k: string)
    requires Inv(x.s)
  {
    i < |hs| && WatchedAt(x, hs, srv, i, k) && forall j :: i < j < |hs| ==> !ForgetsAt(x, hs, srv, j)
  }

  ghost predicate ForgetsAt<W>(x: Watched<W>, hs: seq<Happening>, srv: Server<W>, j: nat)
    requires Inv(x.s) && j < |hs|
  {
    hs[j].Sent? && Forgets(Course(x, hs[..j], srv).s, hs[j].c, srv)
  }

  /** Some WATCH stands at MULTI. */
  ghost predicate Watches<W>(x: Watched<W>, early: seq<Happening>, srv: Server<W>)
    requires Inv(x.s)
  {
    exists i, k :: Standing(x, early, srv, i, k)
  }

  /** A key changed before MULTI, by itself or with everything in a flush, since a WATCH of it that stands. */
  ghost predicate ChangedBefore<W>(x: Watched<W>, early: seq<Happening>, srv: Server<W>)
    requires Inv(x.s)
  {
    exists i, k :: Standing(x, early, srv, i, k) && Gone(early, i, k)
  }

  /** A key changed after MULTI of which a WATCH stands. */
  ghost predicate ChangedAfter<W>(x: Watched<W>, early: seq<Happening>, hs: seq<Happening>, srv: Server<W>)
    requires Inv(x.s)
  {
    exists i, k :: Standing(x, early, srv, i, k) && Gone(hs, 0, k)
  }

  lemma NoticeIsHeard<W>(x: Watched<W>, early: seq<Happening>, hs: seq<Happening>, srv: Server<W>)
    requires Inv(x.s)
    ensures NoticeStands(Course(x, early, srv).waiting, hs) <==> Late(x, early, hs, srv)
  {
    var waiting := Course(x, early, srv).waiting;
    forall k ensures k in waiting <==> StillWaits(x, early, srv, k) {
      WaitingExactly(x, early, srv, k);
    }
    if i :| 0 <= i < |hs| && FirstNotice(waiting, hs, i) && !UnwatchFrom(hs, i) {
      assert StillWaits(x, early, srv, hs[i].key) && Heard(hs, hs[i].key);
    }
    if k :| StillWaits(x, early, srv, k) && Heard(hs, k) {
      var i :| 0 <= i < |hs| && hs[i] == Announced(k) && !Gone(hs[..i], 0, k) && !UnwatchFrom(hs, i);
      assert FirstNotice(waiting, hs, i);
    }
  }

  /** The first change of a key is heard, unless a flush is there or the client forgets. */
  lemma ChangeIsHeard(hs: seq<Happening>, k: string)
    requires Gone(hs, 0, k) && Flushed !in hs && !UnwatchFrom(hs, 0)
    ensures Heard(hs, k)
  {
    var i := FirstGone(hs, k);
    assert hs[i] in hs;
    assert !UnwatchFrom(hs, i);
  }

  lemma {:induction false} FirstGone(hs: seq<Happening>, k: string) returns (i: nat)
    requires Gone(hs, 0, k)
    ensures i < |hs| && (hs[i] == Announced(k) || hs[i] == Flushed) && !Gone(hs[..i], 0, k)
  {
    var init := hs[..|hs| - 1];
    GoneStep(hs, 0, k);
    if Gone(init, 0, k) {
      i := FirstGone(init, k);
      assert init[..i] == hs[..i];
    } else {
      i := |hs| - 1;
    }
  }

  /** What is missed: of a standing WATCH, a change that is not heard was there before MULTI already or is a flush. */
  lemma MissedChange<W>(x: Watched<W>, early: seq<Happening>, hs: seq<Happening>, srv: Server<W>)
    requires Inv(x.s) && !Late(x, early, hs, srv) && !UnwatchFrom(hs, 0)
    ensures ChangedBefore(x, early, srv) || ChangedAfter(x, early, hs, srv) <==>
              ChangedBefore(x, early, srv) || (Watches(x, early, srv) && Flushed in hs)
  {
    if i, k :| Standing(x, early, srv, i, k) && Gone(hs, 0, k) {
      if !Gone(early, i, k) && Flushed !in hs {
        assert StillWaits(x, early, srv, k);
        ChangeIsHeard(hs, k);
      }
    }
    if Watches(x, early, srv) && Flushed in hs {
      var i, k :| Standing(x, early, srv, i, k);
      var j :| 0 <= j < |hs| && hs[j] == Flushed;
      assert Gone(hs, 0, k);
    }
  }

  /** Anything before MULTI, MULTI, anything while it is open, EXEC. EXEC aborts if and only if a key waited on at MULTI
      is heard of after it: a watcher speaks once, a flush silences it, and MULTI forgets what was said before. What
      optimistic locking promises is to abort if and only if a key changed, by itself or in a flush, since a WATCH of it
      that the client has not forgotten. It fails in two cases only. EXEC aborts astray: over a key of which no WATCH
      stands, when no key changed of which one does, or UNWATCH came after MULTI. Or it misses a change: nothing is
      heard after MULTI, and a key had changed before it, or everything is flushed after it. */
  lemma WatchHonoured<W>(x: Watched<W>, early: seq<Happening>, hs: seq<Happening>, end: Command, srv: Server<W>)
    requires Inv(x.s) && !x.s.client.multi && IsCalled(end, "EXEC")
    requires forall i :: 0 <= i < |early| ==> StaysShutFor(early[i])
    requires forall i :: 0 <= i < |hs| ==> StaysOpenFor(hs[i])
    ensures var y := Course(Course(x, early, srv), [Sent(Named("MULTI", []))] + hs, srv);
            var aborted := Dispatch(y.s, end, srv).1 == NullArray;
            var late, unwatched := Late(x, early, hs, srv), UnwatchFrom(hs, 0);
            var changed := ChangedBefore(x, early, srv) || ChangedAfter(x, early, hs, srv);
            var astray := late && (unwatched || !changed);
            var missed := !late && !unwatched &&
                          (ChangedBefore(x, early, srv) || (Watches(x, early, srv) && Flushed in hs));
            && (aborted <==> late)
            && ((aborted <==> changed && !unwatched) <==> !astray && !missed)
  {
    OutsideCourse(x, early, srv);
    ExecAbortsExactly(Course(x, early, srv), hs, end, srv);
    NoticeIsHeard(x, early, hs, srv);
    if !Late(x, early, hs, srv) && !UnwatchFrom(hs, 0) {
      MissedChange(x, early, hs, srv);
    }
  }

  /** A flush silences every watcher: a transaction opened right after it does not abort, whatever was watched and
      whatever becomes of the keys. */
  lemma FlushSilences<W>(x: Watched<W>, early: seq<Happening>, hs: seq<Happening>, end: Command, srv: Server<W>)
    requires Inv(x.s) && !x.s.client.multi && IsCalled(end, "EXEC")
    requires forall i :: 0 <= i < |early| ==> StaysShutFor(early[i])
    requires forall i :: 0 <= i < |hs| ==> StaysOpenFor(hs[i])
    ensures var y := Course(Course(x, early + [Flushed], srv), [Sent(Named("MULTI", []))] + hs, srv);
            Dispatch(y.s, end, srv).1 != NullArray
  {
    var all := early + [Flushed];
    assert all[..|all| - 1] == early;
    OutsideCourse(x, all, srv);
    ExecAbortsExactly(Course(x, all, srv), hs, end, srv);
  }

  /** UNWATCH does not take watchers away: a key watched once and forgotten still makes a later transaction abort,
      though the client then watches nothing. */
  lemma ForgottenWatchAborts<W>(x: Watched<W>, k: string, end: Command, srv: Server<W>)
    requires Inv(x.s) && !x.s.client.multi && IsCalled(end, "EXEC")
    ensures var y := Course(x, [Sent(Named("WATCH", [k])), Sent(Named("UNWATCH", []))], srv);
            var z := Course(y, [Sent(Named("MULTI", []))] + [Announced(k)], srv);
            y.s.client.watched == [] && Dispatch(z.s, end, srv).1 == NullArray
  {
    var watch, unwatch := Sent(Named("WATCH", [k])), Sent(Named("UNWATCH", []));
    UpperIsUpper();
    assert Upper("UNWATCH") == "UNWATCH";
    assert [watch, unwatch][..1] == [watch] && [watch][..0] == [];
    assert Course(x, [watch], srv) == Occur(x, watch, srv);
    var y := Course(x, [watch, unwatch], srv);
    assert y == Occur(Occur(x, watch, srv), unwatch, srv);
    assert k in y.waiting;
    ExecAbortsExactly(y, [Announced(k)], end, srv);
    assert FirstNotice(y.waiting, [Announced(k)], 0) && !UnwatchFrom([Announced(k)], 0);
  }
}
