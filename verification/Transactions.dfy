/** One client's transaction state: queueing in dispatch, and MULTI, EXEC, DISCARD, WATCH, UNWATCH. */
module Transactions {
  import opened Data

  /** A command as received: nothing, an unreadable name, or a name with arguments. */
  datatype Command = Empty | NotUtf8 | Named(word: string, args: seq<string>)

  datatype Reply =
    | Ok
    | Queued
    | EmptyCommand
    | InvalidName
    | NestedMulti
    | DiscardWithoutMulti
    | ExecWithoutMulti
    | WatchInsideMulti
    | WatchArity
    | Denied(reason: string)
    | NullArray
    | Array(elems: seq<Reply>)
    | Answer(text: string)

  /** The transaction fields of a client's context. */
  datatype Client = Client(multi: bool, queue: seq<Command>, watched: seq<string>, dirty: bool)

  const FRESH := Client(false, [], [], false)

  /** A client together with everything commands act on: the store and the rest of its context. */
  datatype State<W> = State(client: Client, world: W)

  /** What ordinary commands do, and whom access control turns away. */
  datatype Server<!W> = Server(step: (W, Command) -> (W, Reply), denies: (W, Command) -> Option<string>)

  // ---------------------------------------------------------------------------------------------
  // Names
  // ---------------------------------------------------------------------------------------------

  function UpperChar(c: char): char {
    if 'a' <= c <= 'z' then c - 32 as char else c
  }

  function Upper(s: string): string {
    seq(|s|, i requires 0 <= i < |s| => UpperChar(s[i]))
  }

  predicate IsCalled(c: Command, name: string) {
    c.Named? && Upper(c.word) == name
  }

  /** Command names are told apart by their letters, upper or lower case. */
  lemma NamesIgnoreCase(word: string, args: seq<string>, name: string)
    requires forall i :: 0 <= i < |name| ==> 'A' <= name[i] <= 'Z'
    ensures IsCalled(Named(word, args), name) <==>
              && |word| == |name|
              && forall i :: 0 <= i < |word| ==> word[i] == name[i] || word[i] as int == name[i] as int + 32
  {
    if |word| == |name| {
      forall i | 0 <= i < |word|
        ensures Upper(word)[i] == name[i] <==> word[i] == name[i] || word[i] as int == name[i] as int + 32
      {
        LetterCase(word[i], name[i]);
      }
      assert Upper(word) == name <==> forall i :: 0 <= i < |word| ==> Upper(word)[i] == name[i];
    }
  }

  lemma LetterCase(c: char, letter: char)
    requires 'A' <= letter <= 'Z'
    ensures UpperChar(c) == letter <==> c == letter || c as int == letter as int + 32
  {
  }

  predicate IsTransaction(c: Command) {
    || IsCalled(c, "MULTI") || IsCalled(c, "EXEC") || IsCalled(c, "DISCARD")
    || IsCalled(c, "WATCH") || IsCalled(c, "UNWATCH")
  }

  /** What a client in MULTI puts in its queue. */
  predicate IsQueueable(c: Command) {
    c.Named? && !IsTransaction(c)
  }

  // ---------------------------------------------------------------------------------------------
  // Dispatch as a function of the state
  // ---------------------------------------------------------------------------------------------

  /** A queue is only ever held inside MULTI, and holds no transaction command. */
  ghost predicate Inv<W>(s: State<W>) {
    && (s.client.queue != [] ==> s.client.multi)
    && (forall i :: 0 <= i < |s.client.queue| ==> IsQueueable(s.client.queue[i]))
  }

  /** An ordinary command outside MULTI: access control, then the command itself. RESET also clears
      the transaction fields. */
  function Perform<W>(s: State<W>, c: Command, srv: Server<W>): (State<W>, Reply) {
    var denied := srv.denies(s.world, c);
    if !IsCalled(c, "ACL") && !IsCalled(c, "AUTH") && denied.Some? then (s, Denied(denied.value))
    else
      var (w, r) := srv.step(s.world, c);
      (State(if IsCalled(c, "RESET") then FRESH else s.client, w), r)
  }

  function Dispatch<W>(s: State<W>, c: Command, srv: Server<W>): (r: (State<W>, Reply))
    requires Inv(s)
    ensures Inv(r.0)
    decreases if IsCalled(c, "EXEC") then 1 else 0, 0
  {
    var cl := s.client;
    if c.Empty? then (s, EmptyCommand)
    else if c.NotUtf8? then (s, InvalidName)
    else if IsCalled(c, "MULTI") then
      if cl.multi then (s, NestedMulti)
      else (s.(client := cl.(multi := true, queue := [], dirty := false)), Ok)
    else if IsCalled(c, "DISCARD") then
      if !cl.multi then (s, DiscardWithoutMulti) else (s.(client := FRESH), Ok)
    else if IsCalled(c, "EXEC") then
      if !cl.multi then (s, ExecWithoutMulti)
      else if cl.dirty then (s.(client := FRESH), NullArray)
      else
        var (s', replies) := DispatchAll(s.(client := FRESH), cl.queue, srv);
        (s', Array(replies))
    else if IsCalled(c, "WATCH") then
      if c.args == [] then (s, WatchArity)
      else if cl.multi then (s, WatchInsideMulti)
      else (s.(client := cl.(watched := c.args, dirty := false)), Ok)
    else if IsCalled(c, "UNWATCH") then
      (s.(client := cl.(watched := [], dirty := false)), Ok)
    else if cl.multi then
      (s.(client := cl.(queue := cl.queue + [c])), Queued)
    else Perform(s, c, srv)
  }

  /** What becomes of an ordinary command. Inside MULTI it is queued and nothing else happens. Outside, a permitted one
      is carried out, and RESET leaves a fresh client; a denied one changes nothing. */
  lemma OrdinaryCommand<W>(s: State<W>, c: Command, srv: Server<W>)
    requires Inv(s) && IsQueueable(c)
    ensures var t, reply := Dispatch(s, c, srv).0, Dispatch(s, c, srv).1;
            var denied := srv.denies(s.world, c);
            if s.client.multi then t == s.(client := s.client.(queue := s.client.queue + [c])) && reply == Queued
            else if denied.None? || IsCalled(c, "ACL") || IsCalled(c, "AUTH") then
              && (t.world, reply) == srv.step(s.world, c)
              && t.client == if IsCalled(c, "RESET") then FRESH else s.client
            else t == s && reply == Denied(denied.value)
  {
  }

  /** Commands dispatched one after another. */
  function DispatchAll<W>(s: State<W>, cs: seq<Command>, srv: Server<W>): (r: (State<W>, seq<Reply>))
    requires Inv(s) && forall i :: 0 <= i < |cs| ==> IsQueueable(cs[i])
    ensures Inv(r.0) && |r.1| == |cs|
    decreases 0, |cs|
  {
    if cs == [] then (s, [])
    else
      assert IsQueueable(cs[|cs| - 1]);
      var (s', replies) := DispatchAll(s, cs[..|cs| - 1], srv);
      var (s'', reply) := Dispatch(s', cs[|cs| - 1], srv);
      (s'', replies + [reply])
  }

  // ---------------------------------------------------------------------------------------------
  // The connection
  // ---------------------------------------------------------------------------------------------

  class Connection<W> {
    var multi: bool
    var queue: seq<Command>
    var watched: seq<string>
    var dirty: bool
    var world: W

    ghost function View(): State<W>
      reads this
    {
      State(Client(multi, queue, watched, dirty), world)
    }

    constructor (w: W)
      ensures View() == State(FRESH, w)
    {
      multi, queue, watched, dirty, world := false, [], [], false, w;
    }

    method CmdMulti() returns (r: Reply)
      requires Inv(View())
      modifies this
      ensures old(multi) ==> r == NestedMulti && View() == old(View())
      ensures !old(multi) ==> r == Ok && View() == old(View()).(client := Client(true, [], old(watched), false))
    {
      if multi {
        return NestedMulti;
      }
      multi, queue, dirty := true, [], false;
      r := Ok;
    }

    method CmdDiscard() returns (r: Reply)
      modifies this
      ensures !old(multi) ==> r == DiscardWithoutMulti && View() == old(View())
      ensures old(multi) ==> r == Ok && View() == State(FRESH, old(world))
    {
      if !multi {
        return DiscardWithoutMulti;
      }
      multi, queue, watched, dirty := false, [], [], false;
      r := Ok;
    }

    /** Take the queue, leave MULTI, then dispatch the queue in order unless the client is dirty. */
    method CmdExec(srv: Server<W>) returns (r: Reply)
      requires Inv(View())
      modifies this
      ensures Inv(View())
      ensures !old(multi) ==> r == ExecWithoutMulti && View() == old(View())
      ensures old(multi) && old(dirty) ==> r == NullArray && View() == State(FRESH, old(world))
      ensures old(multi) && !old(dirty) ==>
                var (s, replies) := DispatchAll(State(FRESH, old(world)), old(queue), srv);
                View() == s && r == Array(replies)
      ensures old(multi) && !old(dirty) ==>
                var sent := Run(State(FRESH, old(world)), Sends(old(queue)), srv);
                View() == sent.0 && r.Array? && Gives(r.elems, sent.1)
      decreases 1, 0
    {
      if !multi {
        return ExecWithoutMulti;
      }
      var q, d := queue, dirty;
      multi, queue, watched, dirty := false, [], [], false;
      if d {
        return NullArray;
      }
      var results: seq<Reply> := [];
      ghost var start := View();
      assert q[..0] == [];
      for i := 0 to |q|
        invariant Inv(View())
        invariant (View(), results) == DispatchAll(start, q[..i], srv)
      {
        var response := DispatchCtx(q[i], srv);
        assert q[..i + 1][..i] == q[..i];
        results := results + [response];
      }
      assert q[..|q|] == q;
      OneByOne(start, q, srv);
      r := Array(results);
    }

    method CmdWatch(args: seq<string>) returns (r: Reply)
      modifies this
      ensures args == [] ==> r == WatchArity && View() == old(View())
      ensures args != [] && old(multi) ==> r == WatchInsideMulti && View() == old(View())
      ensures args != [] && !old(multi) ==>
                r == Ok && View() == old(View()).(client := Client(false, old(queue), args, false))
    {
      if args == [] {
        return WatchArity;
      }
      if multi {
        return WatchInsideMulti;
      }
      watched, dirty := args, false;
      r := Ok;
    }

    method CmdUnwatch() returns (r: Reply)
      modifies this
      ensures r == Ok && View() == old(View()).(client := Client(old(multi), old(queue), [], false))
    {
      watched, dirty := [], false;
      r := Ok;
    }

    /** Queue the command, route it to a transaction handler, or perform it. Calls itself only through
        EXEC, on queued commands, which never reach EXEC again. */
    method DispatchCtx(cmd: Command, srv: Server<W>) returns (r: Reply)
      requires Inv(View())
      modifies this
      ensures Inv(View())
      ensures (View(), r) == Dispatch(old(View()), cmd, srv)
      decreases if IsCalled(cmd, "EXEC") then 2 else 0, 0
    {
      if cmd.Empty? {
        return EmptyCommand;
      }
      if cmd.NotUtf8? {
        return InvalidName;
      }
      var name := Upper(cmd.word);
      if !IsTransaction(cmd) {
        if multi {
          queue := queue + [cmd];
          return Queued;
        }
        r := PerformCommand(cmd, srv);
      } else if name == "MULTI" {
        r := CmdMulti();
      } else if name == "EXEC" {
        r := CmdExec(srv);
      } else if name == "DISCARD" {
        r := CmdDiscard();
      } else if name == "WATCH" {
        r := CmdWatch(cmd.args);
      } else {
        r := CmdUnwatch();
      }
    }

    method PerformCommand(cmd: Command, srv: Server<W>) returns (r: Reply)
      requires Inv(View()) && !multi
      modifies this
      ensures Inv(View()) && (View(), r) == Perform(old(View()), cmd, srv)
    {
      var denied := srv.denies(world, cmd);
      if !IsCalled(cmd, "ACL") && !IsCalled(cmd, "AUTH") && denied.Some? {
        return Denied(denied.value);
      }
      var (w, reply) := srv.step(world, cmd);
      world := w;
      if IsCalled(cmd, "RESET") {
        multi, queue, watched, dirty := false, [], [], false;
      }
      r := reply;
    }
  }

  // ---------------------------------------------------------------------------------------------
  // Runs
  // ---------------------------------------------------------------------------------------------

  /** What can happen to a client: it sends a command, or a watcher thread marks it dirty. */
  datatype Event = Send(c: Command) | WatchFired

  function Happen<W>(s: State<W>, e: Event, srv: Server<W>): (r: (State<W>, Option<Reply>))
    requires Inv(s)
    ensures Inv(r.0)
  {
    match e
    case Send(c) => var (s', reply) := Dispatch(s, c, srv); (s', Some(reply))
    case WatchFired => (s.(client := s.client.(dirty := true)), None)
  }

  function Run<W>(s: State<W>, es: seq<Event>, srv: Server<W>): (r: (State<W>, seq<Option<Reply>>))
    requires Inv(s)
    ensures Inv(r.0) && |r.1| == |es|
  {
    if es == [] then (s, [])
    else
      var (s', replies) := Run(s, es[..|es| - 1], srv);
      var (s'', reply) := Happen(s', es[|es| - 1], srv);
      (s'', replies + [reply])
  }

  /** In every run of one client a non-empty queue implies MULTI, and nothing queued is a transaction
      command. */
  lemma QueueOnlyInMulti<W>(w: W, es: seq<Event>, srv: Server<W>)
    ensures var s := Run(State(FRESH, w), es, srv).0;
            && (s.client.queue != [] ==> s.client.multi)
            && (forall c :: c in s.client.queue ==> !IsTransaction(c))
  {
    assert Inv(State(FRESH, w));
    assert Inv(Run(State(FRESH, w), es, srv).0);
  }

  /** Events that leave an open transaction open. */
  predicate StaysOpen(e: Event) {
    e.Send? ==> !IsCalled(e.c, "EXEC") && !IsCalled(e.c, "DISCARD")
  }

  /** The commands among the events that MULTI will have queued, in order. */
  function Queueable(es: seq<Event>): (q: seq<Command>)
    ensures forall i :: 0 <= i < |q| ==> IsQueueable(q[i])
  {
    if es == [] then []
    else
      var last := es[|es| - 1];
      Queueable(es[..|es| - 1]) + if last.Send? && IsQueueable(last.c) then [last.c] else []
  }

  /** A watcher fired and no UNWATCH came after it. */
  predicate FiredStanding(es: seq<Event>) {
    es != [] &&
    var last := es[|es| - 1];
    last.WatchFired? || (FiredStanding(es[..|es| - 1]) && !(last.Send? && IsCalled(last.c, "UNWATCH")))
  }

  /** Inside an open transaction nothing touches the world; the queue grows by exactly the ordinary
      commands sent; the client is dirty exactly when a watcher fired since, or was dirty before, and
      no UNWATCH followed. */
  lemma {:induction false} OpenTransaction<W>(s: State<W>, es: seq<Event>, srv: Server<W>)
    requires Inv(s) && s.client.multi
    requires forall i :: 0 <= i < |es| ==> StaysOpen(es[i])
    ensures var t := Run(s, es, srv).0;
            && t.world == s.world
            && t.client.multi
            && t.client.queue == s.client.queue + Queueable(es)
            && (!s.client.dirty ==> (t.client.dirty <==> FiredStanding(es)))
  {
    if es == [] {
      assert s.client.queue + [] == s.client.queue;
    } else {
      var init := es[..|es| - 1];
      OpenTransaction(s, init, srv);
      OpenStep(Run(s, init, srv).0, es[|es| - 1], srv);
    }
  }

  lemma OpenStep<W>(s: State<W>, e: Event, srv: Server<W>)
    requires Inv(s) && s.client.multi && StaysOpen(e)
    ensures var t := Happen(s, e, srv).0;
            && t.world == s.world
            && t.client.multi
            && t.client.queue == s.client.queue + (if e.Send? && IsQueueable(e.c) then [e.c] else [])
            && t.client.dirty == (e.WatchFired? || (s.client.dirty && !(e.Send? && IsCalled(e.c, "UNWATCH"))))
  {
  }

  /** Commands sent one after the other. */
  function Sends(cs: seq<Command>): (es: seq<Event>)
    ensures |es| == |cs| && forall i :: 0 <= i < |cs| ==> es[i] == Send(cs[i])
  {
    seq(|cs|, i requires 0 <= i < |cs| => Send(cs[i]))
  }

  /** The replies are those that were given, in order. */
  ghost predicate Gives(replies: seq<Reply>, given: seq<Option<Reply>>) {
    |given| == |replies| && forall i :: 0 <= i < |replies| ==> given[i] == Some(replies[i])
  }

  /** What EXEC does with its queue is what sending the commands one after the other does. */
  lemma {:induction false} OneByOne<W>(s: State<W>, cs: seq<Command>, srv: Server<W>)
    requires Inv(s) && forall i :: 0 <= i < |cs| ==> IsQueueable(cs[i])
    ensures Run(s, Sends(cs), srv).0 == DispatchAll(s, cs, srv).0
    ensures Gives(DispatchAll(s, cs, srv).1, Run(s, Sends(cs), srv).1)
  {
    if cs != [] {
      var init := cs[..|cs| - 1];
      OneByOne(s, init, srv);
      assert Sends(cs)[..|cs| - 1] == Sends(init);
    }
  }

  /** A transaction: MULTI, whatever is sent while it is open, and the command that ends it. */
  function Block(es: seq<Event>, end: Command): seq<Event> {
    [Send(Named("MULTI", []))] + es + [Send(end)]
  }

  lemma {:induction false} RunAppend<W>(s: State<W>, a: seq<Event>, b: seq<Event>, srv: Server<W>)
    requires Inv(s)
    ensures Run(s, a + b, srv).0 == Run(Run(s, a, srv).0, b, srv).0
    ensures Run(s, a + b, srv).1 == Run(s, a, srv).1 + Run(Run(s, a, srv).0, b, srv).1
    decreases |b|
  {
    if b == [] {
      assert a + b == a;
    } else {
      var init := b[..|b| - 1];
      RunAppend(s, a, init, srv);
      assert (a + b)[..|a + b| - 1] == a + init;
    }
  }

  /** The state just before the command that ends a transaction. */
  lemma BeforeEnd<W>(s: State<W>, es: seq<Event>, end: Command, srv: Server<W>) returns (t: State<W>)
    requires Inv(s) && !s.client.multi
    requires forall i :: 0 <= i < |es| ==> StaysOpen(es[i])
    ensures Inv(t)
    ensures t.world == s.world && t.client.multi && t.client.queue == Queueable(es)
    ensures t.client.dirty <==> FiredStanding(es)
    ensures Run(s, Block(es, end), srv).0 == Dispatch(t, end, srv).0
    ensures Run(s, Block(es, end), srv).1[|es| + 1] == Some(Dispatch(t, end, srv).1)
  {
    var open := [Send(Named("MULTI", []))];
    UpperIsUpper();
    var s1 := Dispatch(s, Named("MULTI", []), srv).0;
    assert Run(s, open, srv).0 == s1 by {
      assert open[..0] == [];
    }
    RunAppend(s, open, es, srv);
    OpenTransaction(s1, es, srv);
    assert [] + Queueable(es) == Queueable(es);
    t := Run(s1, es, srv).0;
    var all := Block(es, end);
    assert all[..|all| - 1] == open + es;
  }

  lemma UpperIsUpper()
    ensures Upper("MULTI") == "MULTI" && Upper("EXEC") == "EXEC" && Upper("DISCARD") == "DISCARD"
    ensures Upper("WATCH") == "WATCH"
  {
  }

  /** A transaction that is not dirty at EXEC does what a fresh client does that sends its ordinary commands, one by
      one in the order they came, outside MULTI; and the world and the replies are those the client itself would have
      got. */
  lemma CleanExecIsSequential<W>(s: State<W>, es: seq<Event>, end: Command, srv: Server<W>)
    requires Inv(s) && !s.client.multi && IsCalled(end, "EXEC")
    requires forall i :: 0 <= i < |es| ==> StaysOpen(es[i])
    requires !FiredStanding(es)
    ensures var direct := Run(s, Sends(Queueable(es)), srv);
            && Run(s, Block(es, end), srv).0 == Run(State(FRESH, s.world), Sends(Queueable(es)), srv).0
            && Run(s, Block(es, end), srv).0.world == direct.0.world
            && var reply := Run(s, Block(es, end), srv).1[|es| + 1];
               reply.Some? && reply.value.Array? && Gives(reply.value.elems, direct.1)
  {
    var t := BeforeEnd(s, es, end, srv);
    var q := Queueable(es);
    WorldDecides(State(FRESH, s.world), s, q, srv);
    OneByOne(s, q, srv);
    OneByOne(State(FRESH, s.world), q, srv);
  }

  /** Outside MULTI, what ordinary commands do depends on the world only. */
  lemma {:induction false} WorldDecides<W>(s: State<W>, t: State<W>, cs: seq<Command>, srv: Server<W>)
    requires Inv(s) && Inv(t) && !s.client.multi && !t.client.multi && s.world == t.world
    requires forall i :: 0 <= i < |cs| ==> IsQueueable(cs[i])
    ensures DispatchAll(s, cs, srv).0.world == DispatchAll(t, cs, srv).0.world
    ensures DispatchAll(s, cs, srv).1 == DispatchAll(t, cs, srv).1
    ensures !DispatchAll(s, cs, srv).0.client.multi && !DispatchAll(t, cs, srv).0.client.multi
  {
    if cs != [] {
      WorldDecides(s, t, cs[..|cs| - 1], srv);
    }
  }

  /** DISCARD leaves the world as it was at MULTI. */
  lemma DiscardUndoes<W>(s: State<W>, es: seq<Event>, end: Command, srv: Server<W>)
    requires Inv(s) && !s.client.multi && IsCalled(end, "DISCARD")
    requires forall i :: 0 <= i < |es| ==> StaysOpen(es[i])
    ensures Run(s, Block(es, end), srv).0 == State(FRESH, s.world)
  {
    var t := BeforeEnd(s, es, end, srv);
  }

  /** EXEC aborts, leaving the world as it was at MULTI, exactly when a watcher fired after MULTI and no
      UNWATCH followed. */
  lemma DirtyExecAborts<W>(s: State<W>, es: seq<Event>, end: Command, srv: Server<W>)
    requires Inv(s) && !s.client.multi && IsCalled(end, "EXEC")
    requires forall i :: 0 <= i < |es| ==> StaysOpen(es[i])
    ensures Run(s, Block(es, end), srv).1[|es| + 1] == Some(NullArray) <==> FiredStanding(es)
    ensures FiredStanding(es) ==> Run(s, Block(es, end), srv).0 == State(FRESH, s.world)
  {
    var t := BeforeEnd(s, es, end, srv);
  }

  /** Events that leave a client outside MULTI there. */
  predicate StaysShut(e: Event) {
    e.Send? ==> !IsCalled(e.c, "MULTI")
  }

  predicate Unwatches(es: seq<Event>) {
    exists i :: 0 <= i < |es| && es[i].Send? && IsCalled(es[i].c, "UNWATCH")
  }

  /** The command makes the client forget what it watches: UNWATCH anywhere, and RESET outside MULTI unless access
      control turns it away. */
  predicate Forgets<W>(s: State<W>, c: Command, srv: Server<W>) {
    || IsCalled(c, "UNWATCH")
    || (IsCalled(c, "RESET") && !s.client.multi && srv.denies(s.world, c).None?)
  }

  /** In the run from s a watcher fired and the client did not forget after it. */
  ghost predicate MarkStands<W>(s: State<W>, es: seq<Event>, srv: Server<W>)
    requires Inv(s)
  {
    es != [] &&
    var init, last := es[..|es| - 1], es[|es| - 1];
    last.WatchFired? || (MarkStands(s, init, srv) && !Forgets(Run(s, init, srv).0, last.c, srv))
  }

  /** What optimistic locking asks for: the transaction aborts exactly when a watcher fired before EXEC, be it before or
      after MULTI, and the client did not forget after it. MULTI itself forgets what fired before it, so this fails
      exactly when a mark stood at MULTI, no UNWATCH came after it, and no firing stands after MULTI. */
  lemma WatchHonoured<W>(s: State<W>, early: seq<Event>, es: seq<Event>, end: Command, srv: Server<W>)
    requires Inv(s) && !s.client.multi && IsCalled(end, "EXEC")
    requires forall i :: 0 <= i < |early| ==> StaysShut(early[i])
    requires forall i :: 0 <= i < |es| ==> StaysOpen(es[i])
    ensures var run := early + Block(es, end);
            var aborted := Run(s, run, srv).1[|run| - 1] == Some(NullArray);
            (aborted <==> MarkStands(s, run[..|run| - 1], srv)) <==>
              !(MarkStands(s, early, srv) && !Unwatches(es) && !FiredStanding(es))
  {
    AbortsAfter(s, early, es, end, srv);
    var run, open := early + Block(es, end), [Send(Named("MULTI", []))];
    assert run[..|run| - 1] == (early + open) + es;
    MarkOverMulti(s, early, srv);
    MarkInParts(s, early + open, es, srv);
  }

  lemma AbortsAfter<W>(s: State<W>, early: seq<Event>, es: seq<Event>, end: Command, srv: Server<W>)
    requires Inv(s) && !s.client.multi && IsCalled(end, "EXEC")
    requires forall i :: 0 <= i < |early| ==> StaysShut(early[i])
    requires forall i :: 0 <= i < |es| ==> StaysOpen(es[i])
    ensures var run := early + Block(es, end);
            Run(s, run, srv).1[|run| - 1] == Some(NullArray) <==> FiredStanding(es)
  {
    RunAppend(s, early, Block(es, end), srv);
    StaysOutside(s, early, srv);
    DirtyExecAborts(Run(s, early, srv).0, es, end, srv);
  }

  /** MULTI is no reason to forget. */
  lemma MarkOverMulti<W>(s: State<W>, early: seq<Event>, srv: Server<W>)
    requires Inv(s) && !s.client.multi && forall i :: 0 <= i < |early| ==> StaysShut(early[i])
    ensures var open := early + [Send(Named("MULTI", []))];
            && Run(s, open, srv).0.client.multi
            && (MarkStands(s, open, srv) <==> MarkStands(s, early, srv))
  {
    var open := early + [Send(Named("MULTI", []))];
    assert open[..|open| - 1] == early;
    StaysOutside(s, early, srv);
    UpperIsUpper();
  }

  lemma {:induction false} StaysOutside<W>(s: State<W>, es: seq<Event>, srv: Server<W>)
    requires Inv(s) && !s.client.multi
    requires forall i :: 0 <= i < |es| ==> StaysShut(es[i])
    ensures !Run(s, es, srv).0.client.multi
  {
    if es != [] {
      StaysOutside(s, es[..|es| - 1], srv);
    }
  }

  /** What stands after a stretch inside MULTI. */
  lemma {:induction false} MarkInParts<W>(s: State<W>, early: seq<Event>, es: seq<Event>, srv: Server<W>)
    requires Inv(s) && Run(s, early, srv).0.client.multi && forall i :: 0 <= i < |es| ==> StaysOpen(es[i])
    ensures MarkStands(s, early + es, srv) <==> FiredStanding(es) || (MarkStands(s, early, srv) && !Unwatches(es))
    decreases |es|
  {
    if es == [] {
      assert early + es == early;
    } else {
      var init, last := es[..|es| - 1], es[|es| - 1];
      MarkInParts(s, early, init, srv);
      StaysInside(s, early, init, srv);
      assert early + es == (early + init) + [last];
      MarkStep(s, early + init, last, srv);
      UnwatchesStep(es);
    }
  }

  lemma StaysInside<W>(s: State<W>, early: seq<Event>, es: seq<Event>, srv: Server<W>)
    requires Inv(s) && Run(s, early, srv).0.client.multi && forall i :: 0 <= i < |es| ==> StaysOpen(es[i])
    ensures Run(s, early + es, srv).0.client.multi
  {
    RunAppend(s, early, es, srv);
    OpenTransaction(Run(s, early, srv).0, es, srv);
  }

  lemma MarkStep<W>(s: State<W>, es: seq<Event>, last: Event, srv: Server<W>)
    requires Inv(s) && Run(s, es, srv).0.client.multi
    ensures MarkStands(s, es + [last], srv) <==>
              last.WatchFired? || (MarkStands(s, es, srv) && !IsCalled(last.c, "UNWATCH"))
  {
    assert (es + [last])[..|es|] == es;
  }

  lemma UnwatchesStep(es: seq<Event>)
    requires es != []
    ensures var init, last := es[..|es| - 1], es[|es| - 1];
            Unwatches(es) <==> Unwatches(init) || (last.Send? && IsCalled(last.c, "UNWATCH"))
  {
    assert es == es[..|es| - 1] + [es[|es| - 1]];
  }
}
