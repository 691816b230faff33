/** The cluster node table and the merging of gossip messages into it. */
module Gossip {
  import opened Data

  type NodeId = string

  datatype Role = Master | Slave

  datatype Flags = Flags(myself: bool, master: bool, slave: bool, pfail: bool, fail: bool,
                         noaddr: bool, handshake: bool, noflags: bool)

  const NO_FLAGS := Flags(false, false, false, false, false, false, false, false)

  datatype SlotRange = SlotRange(start: nat, end: nat)

  datatype NodeInfo = NodeInfo(id: NodeId, addr: string, role: Role, epoch: nat, flags: Flags, slots: seq<SlotRange>)

  /** One node as a gossip message describes it. */
  datatype Entry = Entry(id: NodeId, addr: string, flags: Flags, pingSent: nat, pongRecv: nat, epoch: nat)

  datatype Message = Message(senderId: NodeId, senderAddr: string, nodes: seq<Entry>, currentEpoch: nat)

  type Table = map<NodeId, NodeInfo>

  // ---------------------------------------------------------------------------------------------
  // What a message offers, and what merging an offer does
  // ---------------------------------------------------------------------------------------------

  function EntryOffer(e: Entry): NodeInfo {
    NodeInfo(e.id, e.addr, if e.flags.slave then Slave else Master, e.epoch, e.flags, [])
  }

  function SenderOffer(m: Message): NodeInfo {
    NodeInfo(m.senderId, m.senderAddr, Master, m.currentEpoch, NO_FLAGS, [])
  }

  /** The offers of the entries, leaving out those about the node itself. */
  function EntryOffers(entries: seq<Entry>, me: NodeId): seq<NodeInfo> {
    if entries == [] then []
    else EntryOffers(entries[..|entries| - 1], me)
         + (var e := entries[|entries| - 1]; if e.id == me then [] else [EntryOffer(e)])
  }

  function Offers(m: Message, me: NodeId): seq<NodeInfo> {
    EntryOffers(m.nodes, me) + if m.senderId == me then [] else [SenderOffer(m)]
  }

  function Merged(t: Table, info: NodeInfo): Table {
    if info.id in t && info.epoch < t[info.id].epoch then t else t[info.id := info]
  }

  function MergeAll(t: Table, offers: seq<NodeInfo>): Table {
    if offers == [] then t else Merged(MergeAll(t, offers[..|offers| - 1]), offers[|offers| - 1])
  }

  function AllOffers(ms: seq<Message>, me: NodeId): seq<NodeInfo> {
    if ms == [] then [] else AllOffers(ms[..|ms| - 1], me) + Offers(ms[|ms| - 1], me)
  }

  /** The table after a run of messages. */
  function Received(t: Table, ms: seq<Message>, me: NodeId): Table {
    if ms == [] then t else MergeAll(Received(t, ms[..|ms| - 1], me), Offers(ms[|ms| - 1], me))
  }

  // ---------------------------------------------------------------------------------------------
  // The node state
  // ---------------------------------------------------------------------------------------------

  class ClusterState {
    var myself: NodeInfo
    var nodes: Table

    ghost predicate Valid()
      reads this
    {
      myself.id in nodes && forall id :: id in nodes ==> nodes[id].id == id
    }

    constructor (me: NodeInfo)
      ensures Valid() && myself == me && nodes == map[me.id := me]
    {
      myself := me;
      nodes := map[me.id := me];
    }

    /** A record gives way only to one whose epoch is at least its own. */
    method MergeNode(info: NodeInfo)
      requires Valid()
      modifies this`nodes
      ensures Valid() && nodes == Merged(old(nodes), info)
    {
      if info.id in nodes {
        var existing := nodes[info.id];
        if info.epoch < existing.epoch {
          return;
        }
      }
      nodes := nodes[info.id := info];
    }

    /** Merge every entry of a message, then its sender. */
    method HandleGossip(msg: Message)
      requires Valid()
      modifies this`nodes
      ensures Valid() && nodes == MergeAll(old(nodes), Offers(msg, myself.id))
      ensures nodes[myself.id] == old(nodes[myself.id])
    {
      ghost var before := nodes;
      for i := 0 to |msg.nodes|
        invariant Valid()
        invariant nodes == MergeAll(before, EntryOffers(msg.nodes[..i], myself.id))
      {
        var entry := msg.nodes[i];
        ghost var sofar := EntryOffers(msg.nodes[..i], myself.id);
        assert msg.nodes[..i + 1][..i] == msg.nodes[..i];
        if entry.id == myself.id {
          assert EntryOffers(msg.nodes[..i + 1], myself.id) == sofar;
          continue;
        }
        MergeOneMore(before, sofar, EntryOffer(entry));
        MergeNode(EntryOffer(entry));
      }
      assert msg.nodes[..|msg.nodes|] == msg.nodes;
      ghost var entryOffers := EntryOffers(msg.nodes, myself.id);
      assert entryOffers + [] == entryOffers;
      if msg.senderId != myself.id {
        MergeOneMore(before, entryOffers, SenderOffer(msg));
        MergeNode(SenderOffer(msg));
      }
      OffersAreAboutOthers(msg, myself.id);
      OthersLeaveRecord(before, Offers(msg, myself.id), myself.id);
    }
  }

  lemma MergeOneMore(t: Table, offers: seq<NodeInfo>, info: NodeInfo)
    ensures MergeAll(t, offers + [info]) == Merged(MergeAll(t, offers), info)
  {
    assert (offers + [info])[..|offers|] == offers;
  }

  lemma {:induction false} EntryOffersMembers(entries: seq<Entry>, me: NodeId, info: NodeInfo)
    ensures info in EntryOffers(entries, me) <==> exists e :: e in entries && e.id != me && info == EntryOffer(e)
  {
    if entries != [] {
      var init, last := entries[..|entries| - 1], entries[|entries| - 1];
      EntryOffersMembers(init, me, info);
      assert forall e :: e in entries <==> e in init || e == last;
    }
  }

  /** A record says what an entry of the message says about its node, or what the message says about its sender. */
  ghost predicate SaysEntry(info: NodeInfo, e: Entry) {
    && info.id == e.id && info.addr == e.addr && info.epoch == e.epoch && info.flags == e.flags && info.slots == []
    && (info.role == Slave <==> e.flags.slave)
  }

  ghost predicate SaysSender(info: NodeInfo, m: Message) {
    && info.id == m.senderId && info.addr == m.senderAddr && info.epoch == m.currentEpoch
    && info.role == Master && info.flags == NO_FLAGS && info.slots == []
  }

  /** What a message offers is exactly that, about every node but the receiver; the sender comes last. */
  lemma OffersSay(m: Message, me: NodeId, info: NodeInfo)
    ensures info in Offers(m, me) <==>
              && info.id != me
              && (SaysSender(info, m) || exists e :: e in m.nodes && SaysEntry(info, e))
    ensures m.senderId != me ==>
              var offers := Offers(m, me); offers != [] && SaysSender(offers[|offers| - 1], m)
  {
    EntryOffersMembers(m.nodes, me, info);
    if e :| e in m.nodes && SaysEntry(info, e) {
      assert info == EntryOffer(e);
    }
    if info in EntryOffers(m.nodes, me) {
      var e :| e in m.nodes && e.id != me && info == EntryOffer(e);
      assert SaysEntry(info, e);
    }
    assert SaysSender(info, m) <==> info == SenderOffer(m);
  }

  lemma OffersAreAboutOthers(m: Message, me: NodeId)
    ensures forall info :: info in Offers(m, me) ==> info.id != me
  {
    forall info | info in Offers(m, me) ensures info.id != me {
      EntryOffersMembers(m.nodes, me, info);
    }
  }

  // ---------------------------------------------------------------------------------------------
  // Every stored epoch is a maximum
  // ---------------------------------------------------------------------------------------------

  /** e is the greatest of the epoch already stored for id, if any, and those offered for it. */
  ghost predicate GreatestEpoch(e: nat, id: NodeId, t: Table, offers: seq<NodeInfo>) {
    && (id in t ==> t[id].epoch <= e)
    && (forall o :: o in offers && o.id == id ==> o.epoch <= e)
    && ((id in t && t[id].epoch == e) || exists o :: o in offers && o.id == id && o.epoch == e)
  }

  ghost predicate Offered(id: NodeId, offers: seq<NodeInfo>) {
    exists o :: o in offers && o.id == id
  }

  lemma {:induction false} MergeAllKeepsGreatest(t: Table, offers: seq<NodeInfo>, id: NodeId)
    ensures id in MergeAll(t, offers) <==> id in t || Offered(id, offers)
    ensures id in MergeAll(t, offers) ==> GreatestEpoch(MergeAll(t, offers)[id].epoch, id, t, offers)
  {
    if offers != [] {
      var init, last := offers[..|offers| - 1], offers[|offers| - 1];
      MergeAllKeepsGreatest(t, init, id);
      assert forall o :: o in offers <==> o in init || o == last;
    }
  }

  lemma GreatestEpochUnique(d: nat, e: nat, id: NodeId, t: Table, a: seq<NodeInfo>, b: seq<NodeInfo>)
    requires forall o :: o in a <==> o in b
    requires GreatestEpoch(d, id, t, a) && GreatestEpoch(e, id, t, b)
    ensures d == e
  {
  }

  lemma {:induction false} MergeAllAppend(t: Table, a: seq<NodeInfo>, b: seq<NodeInfo>)
    ensures MergeAll(t, a + b) == MergeAll(MergeAll(t, a), b)
    decreases |b|
  {
    if b == [] {
      assert a + b == a;
    } else {
      var init, last := b[..|b| - 1], b[|b| - 1];
      MergeAllAppend(t, a, init);
      assert a + b == (a + init) + [last];
      MergeOneMore(t, a + init, last);
    }
  }

  /** A run of messages is the run of all their offers. */
  lemma {:induction false} ReceivedIsMergeAll(t: Table, ms: seq<Message>, me: NodeId)
    ensures Received(t, ms, me) == MergeAll(t, AllOffers(ms, me))
  {
    if ms != [] {
      var init := ms[..|ms| - 1];
      ReceivedIsMergeAll(t, init, me);
      MergeAllAppend(t, AllOffers(init, me), Offers(ms[|ms| - 1], me));
    }
  }

  lemma {:induction false} AllOffersMembers(ms: seq<Message>, me: NodeId, o: NodeInfo)
    ensures o in AllOffers(ms, me) <==> exists m :: m in ms && o in Offers(m, me)
  {
    if ms != [] {
      var init, last := ms[..|ms| - 1], ms[|ms| - 1];
      AllOffersMembers(init, me, o);
      assert forall m :: m in ms <==> m in init || m == last;
    }
  }

  /** The message speaks of the node with this epoch, in an entry or as its sender. */
  ghost predicate Carries(m: Message, id: NodeId, epoch: nat) {
    || (m.senderId == id && m.currentEpoch == epoch)
    || (exists e :: e in m.nodes && e.id == id && e.epoch == epoch)
  }

  lemma CarriesIsOffered(m: Message, me: NodeId, id: NodeId, epoch: nat)
    requires id != me
    ensures Carries(m, id, epoch) <==> exists o :: o in Offers(m, me) && o.id == id && o.epoch == epoch
  {
    var offers := Offers(m, me);
    if m.senderId == id && m.currentEpoch == epoch {
      assert offers[|offers| - 1] == SenderOffer(m);
    } else if exists e :: e in m.nodes && e.id == id && e.epoch == epoch {
      var e :| e in m.nodes && e.id == id && e.epoch == epoch;
      EntryOffersMembers(m.nodes, me, EntryOffer(e));
      assert EntryOffer(e) in offers;
    }
    if o :| o in offers && o.id == id && o.epoch == epoch {
      EntryOffersMembers(m.nodes, me, o);
    }
  }

  /** After any run of messages, another node is known exactly when it was known before or some
      message spoke of it, and its stored epoch is the greatest of its epoch before and every epoch
      carried for it. */
  lemma EpochAfterRun(t: Table, ms: seq<Message>, me: NodeId, id: NodeId)
    requires id != me
    ensures id in Received(t, ms, me) <==> id in t || exists m, e: nat :: m in ms && Carries(m, id, e)
    ensures id in Received(t, ms, me) ==>
              var e := Received(t, ms, me)[id].epoch;
              && (id in t ==> t[id].epoch <= e)
              && (forall m, c: nat :: m in ms && Carries(m, id, c) ==> c <= e)
              && ((id in t && t[id].epoch == e) || exists m :: m in ms && Carries(m, id, e))
  {
    var offers := AllOffers(ms, me);
    ReceivedIsMergeAll(t, ms, me);
    MergeAllKeepsGreatest(t, offers, id);
    forall m, c: nat | m in ms && Carries(m, id, c) ensures exists o :: o in offers && o.id == id && o.epoch == c {
      CarriesIsOffered(m, me, id, c);
      var o :| o in Offers(m, me) && o.id == id && o.epoch == c;
      AllOffersMembers(ms, me, o);
    }
    forall o | o in offers && o.id == id ensures exists m :: m in ms && Carries(m, id, o.epoch) {
      AllOffersMembers(ms, me, o);
      var m :| m in ms && o in Offers(m, me);
      CarriesIsOffered(m, me, id, o.epoch);
    }
  }

  /** The known nodes and their epochs depend only on which messages arrived, not on their order
      or on how often each arrived. */
  lemma OrderAndRepetitionDoNotMatter(t: Table, a: seq<Message>, b: seq<Message>, me: NodeId)
    requires forall m :: m in a <==> m in b
    ensures Received(t, a, me).Keys == Received(t, b, me).Keys
    ensures forall id :: id in Received(t, a, me) ==> Received(t, a, me)[id].epoch == Received(t, b, me)[id].epoch
  {
    var x, y := AllOffers(a, me), AllOffers(b, me);
    ReceivedIsMergeAll(t, a, me);
    ReceivedIsMergeAll(t, b, me);
    forall o ensures o in x <==> o in y {
      AllOffersMembers(a, me, o);
      AllOffersMembers(b, me, o);
    }
    forall id ensures id in MergeAll(t, x) <==> id in MergeAll(t, y)
      ensures id in MergeAll(t, x) ==> MergeAll(t, x)[id].epoch == MergeAll(t, y)[id].epoch
    {
      MergeAllKeepsGreatest(t, x, id);
      MergeAllKeepsGreatest(t, y, id);
      if id in MergeAll(t, x) {
        GreatestEpochUnique(MergeAll(t, x)[id].epoch, MergeAll(t, y)[id].epoch, id, t, x, y);
      }
    }
  }

  lemma {:induction false} OthersLeaveRecord(t: Table, offers: seq<NodeInfo>, me: NodeId)
    requires me in t && forall o :: o in offers ==> o.id != me
    ensures me in MergeAll(t, offers) && MergeAll(t, offers)[me] == t[me]
  {
    if offers != [] {
      var init := offers[..|offers| - 1];
      assert offers[|offers| - 1] in offers;
      OthersLeaveRecord(t, init, me);
    }
  }

  /** No run of messages changes the record of the node itself. */
  lemma OwnRecordKept(t: Table, ms: seq<Message>, me: NodeId)
    requires me in t
    ensures me in Received(t, ms, me) && Received(t, ms, me)[me] == t[me]
  {
    ReceivedIsMergeAll(t, ms, me);
    forall o | o in AllOffers(ms, me) ensures o.id != me {
      AllOffersMembers(ms, me, o);
      var m :| m in ms && o in Offers(m, me);
      OffersAreAboutOthers(m, me);
    }
    OthersLeaveRecord(t, AllOffers(ms, me), me);
  }

  // ---------------------------------------------------------------------------------------------
  // Whole records: when does order matter?
  // ---------------------------------------------------------------------------------------------

  /** An offer for id that no other offer and no stored record outdoes. */
  ghost predicate TopOffer(o: NodeInfo, id: NodeId, t: Table, offers: seq<NodeInfo>) {
    o in offers && o.id == id && GreatestEpoch(o.epoch, id, t, offers)
  }

  /** If some offer reaches the greatest epoch, the stored record is such an offer; otherwise it is
      the record there was. */
  lemma {:induction false} StoredRecord(t: Table, offers: seq<NodeInfo>, id: NodeId)
    requires id in MergeAll(t, offers)
    ensures var r := MergeAll(t, offers)[id];
            || TopOffer(r, id, t, offers)
            || (id in t && r == t[id] && forall o :: o in offers && o.id == id ==> o.epoch < r.epoch)
  {
    if offers != [] {
      var init, last := offers[..|offers| - 1], offers[|offers| - 1];
      assert forall o :: o in offers <==> o in init || o == last;
      MergeAllKeepsGreatest(t, init, id);
      MergeAllKeepsGreatest(t, offers, id);
      if id in MergeAll(t, init) {
        StoredRecord(t, init, id);
      }
    }
  }

  /** An unsurpassed offer that comes last is the one stored. */
  lemma LastTopOfferStored(t: Table, offers: seq<NodeInfo>, o: NodeInfo)
    requires GreatestEpoch(o.epoch, o.id, t, offers + [o])
    ensures MergeAll(t, offers + [o])[o.id] == o
  {
    MergeOneMore(t, offers, o);
    MergeAllKeepsGreatest(t, offers, o.id);
    assert forall p :: p in offers ==> p in offers + [o];
  }

  /** If single offers could come in any order, the stored record would be the same for all orders
      exactly when no two different offers tie at the greatest epoch. */
  lemma RecordIndependentOfOrder(t: Table, offers: seq<NodeInfo>, id: NodeId)
    requires id in MergeAll(t, offers)
    ensures (forall p :: multiset(p) == multiset(offers) ==>
                           id in MergeAll(t, p) && MergeAll(t, p)[id] == MergeAll(t, offers)[id])
            <==> (forall o, q :: TopOffer(o, id, t, offers) && TopOffer(q, id, t, offers) ==> o == q)
  {
    if forall o, q :: TopOffer(o, id, t, offers) && TopOffer(q, id, t, offers) ==> o == q {
      forall p | multiset(p) == multiset(offers)
        ensures id in MergeAll(t, p) && MergeAll(t, p)[id] == MergeAll(t, offers)[id]
      {
        SameRecord(t, offers, p, id);
      }
    } else {
      var o, q :| TopOffer(o, id, t, offers) && TopOffer(q, id, t, offers) && o != q;
      var p := MovedLast(offers, o);
      var r := MovedLast(offers, q);
      StoredWhenMovedLast(t, offers, p, o);
      StoredWhenMovedLast(t, offers, r, q);
    }
  }

  lemma SameElements<T>(a: seq<T>, b: seq<T>)
    requires multiset(a) == multiset(b)
    ensures forall o :: o in a <==> o in b
  {
    forall o ensures o in a <==> o in b {
      assert o in a <==> o in multiset(a);
      assert o in b <==> o in multiset(b);
    }
  }

  lemma SameRecord(t: Table, offers: seq<NodeInfo>, p: seq<NodeInfo>, id: NodeId)
    requires id in MergeAll(t, offers) && multiset(p) == multiset(offers)
    requires forall o, q :: TopOffer(o, id, t, offers) && TopOffer(q, id, t, offers) ==> o == q
    ensures id in MergeAll(t, p) && MergeAll(t, p)[id] == MergeAll(t, offers)[id]
  {
    SameElements(p, offers);
    MergeAllKeepsGreatest(t, p, id);
    MergeAllKeepsGreatest(t, offers, id);
    StoredRecord(t, p, id);
    StoredRecord(t, offers, id);
    var r, s := MergeAll(t, p)[id], MergeAll(t, offers)[id];
    GreatestEpochUnique(r.epoch, s.epoch, id, t, p, offers);
    assert TopOffer(r, id, t, p) ==> TopOffer(r, id, t, offers);
  }

  lemma MovedLast<T>(s: seq<T>, x: T) returns (p: seq<T>)
    requires x in s
    ensures |p| > 0 && p[|p| - 1] == x && multiset(p) == multiset(s)
  {
    var k :| 0 <= k < |s| && s[k] == x;
    assert s == s[..k] + [x] + s[k + 1..];
    p := s[..k] + s[k + 1..] + [x];
  }

  lemma StoredWhenMovedLast(t: Table, offers: seq<NodeInfo>, p: seq<NodeInfo>, o: NodeInfo)
    requires TopOffer(o, o.id, t, offers)
    requires |p| > 0 && p[|p| - 1] == o && multiset(p) == multiset(offers)
    ensures o.id in MergeAll(t, p) && MergeAll(t, p)[o.id] == o
  {
    SameElements(p, offers);
    assert p == p[..|p| - 1] + [o];
    LastTopOfferStored(t, p[..|p| - 1], o);
    MergeAllKeepsGreatest(t, p, o.id);
  }

  // ---------------------------------------------------------------------------------------------
  // Whole records and the order of messages
  // ---------------------------------------------------------------------------------------------

  /** The last offer for id with epoch e. */
  function LastAt(offers: seq<NodeInfo>, id: NodeId, e: nat): Option<NodeInfo> {
    if offers == [] then None
    else
      var last := offers[|offers| - 1];
      if last.id == id && last.epoch == e then Some(last) else LastAt(offers[..|offers| - 1], id, e)
  }

  /** The record stored with epoch e is the last one offered with it, or the one there was. */
  lemma {:induction false} StoredIsLast(t: Table, offers: seq<NodeInfo>, id: NodeId, e: nat)
    requires id in MergeAll(t, offers) && MergeAll(t, offers)[id].epoch == e
    ensures match LastAt(offers, id, e)
            case Some(o) => MergeAll(t, offers)[id] == o
            case None => id in t && MergeAll(t, offers)[id] == t[id]
  {
    if offers != [] {
      var init, last := offers[..|offers| - 1], offers[|offers| - 1];
      if last.id != id || last.epoch != e {
        StoredIsLast(t, init, id, e);
      }
    }
  }

  lemma {:induction false} LastAtAppend(a: seq<NodeInfo>, b: seq<NodeInfo>, id: NodeId, e: nat)
    ensures LastAt(a + b, id, e) == if LastAt(b, id, e).Some? then LastAt(b, id, e) else LastAt(a, id, e)
    decreases |b|
  {
    if b == [] {
      assert a + b == a;
    } else {
      var init := b[..|b| - 1];
      assert (a + b)[..|a + b| - 1] == a + init;
      LastAtAppend(a, init, id, e);
    }
  }

  lemma {:induction false} LastAtSome(offers: seq<NodeInfo>, id: NodeId, e: nat)
    ensures LastAt(offers, id, e).Some? <==> exists o :: o in offers && o.id == id && o.epoch == e
  {
    if offers != [] {
      var init, last := offers[..|offers| - 1], offers[|offers| - 1];
      LastAtSome(init, id, e);
      assert forall o :: o in offers <==> o in init || o == last;
    }
  }

  /** What a message has to say last about id with epoch e: its sender comes after its entries. */
  function LastWord(m: Message, me: NodeId, id: NodeId, e: nat): Option<NodeInfo> {
    LastAt(Offers(m, me), id, e)
  }

  lemma LastWordOfCarrier(m: Message, me: NodeId, id: NodeId, e: nat)
    requires id != me
    ensures LastWord(m, me, id, e).Some? <==> Carries(m, id, e)
  {
    LastAtSome(Offers(m, me), id, e);
    CarriesIsOffered(m, me, id, e);
  }

  /** After a run the last offer with epoch e is the last word of one of the messages that carry it. */
  lemma {:induction false} LastOfRun(ms: seq<Message>, me: NodeId, id: NodeId, e: nat)
    requires id != me
    ensures match LastAt(AllOffers(ms, me), id, e)
            case Some(o) => exists m :: m in ms && Carries(m, id, e) && LastWord(m, me, id, e) == Some(o)
            case None => forall m :: m in ms ==> !Carries(m, id, e)
  {
    if ms != [] {
      var init, last := ms[..|ms| - 1], ms[|ms| - 1];
      assert forall m :: m in ms <==> m in init || m == last;
      LastOfRun(init, me, id, e);
      LastWordOfCarrier(last, me, id, e);
      LastAtAppend(AllOffers(init, me), Offers(last, me), id, e);
    }
  }

  /** e is the greatest of the epoch stored for id, if any, and those the messages carry for it. */
  ghost predicate GreatestCarried(e: nat, id: NodeId, t: Table, ms: seq<Message>) {
    && (id in t ==> t[id].epoch <= e)
    && (forall m, c: nat :: m in ms && Carries(m, id, c) ==> c <= e)
    && ((id in t && t[id].epoch == e) || exists m :: m in ms && Carries(m, id, e))
  }

  lemma StoredAtGreatest(t: Table, ms: seq<Message>, me: NodeId, id: NodeId, e: nat)
    requires id != me && GreatestCarried(e, id, t, ms)
    ensures id in Received(t, ms, me) && Received(t, ms, me)[id].epoch == e
  {
    EpochAfterRun(t, ms, me, id);
  }

  /** The messages that carry the greatest epoch for id all end on the same word about it. */
  ghost predicate OneLastWord(ms: seq<Message>, me: NodeId, id: NodeId, e: nat) {
    forall m, n :: m in ms && n in ms && Carries(m, id, e) && Carries(n, id, e) ==>
                     LastWord(m, me, id, e) == LastWord(n, me, id, e)
  }

  lemma SameRecordForMessages(t: Table, ms: seq<Message>, p: seq<Message>, me: NodeId, id: NodeId, e: nat)
    requires id != me && GreatestCarried(e, id, t, ms) && multiset(p) == multiset(ms) && OneLastWord(ms, me, id, e)
    ensures id in Received(t, p, me) && id in Received(t, ms, me) && Received(t, p, me)[id] == Received(t, ms, me)[id]
  {
    SameElements(p, ms);
    StoredAtGreatest(t, ms, me, id, e);
    StoredAtGreatest(t, p, me, id, e);
    ReceivedIsMergeAll(t, ms, me);
    ReceivedIsMergeAll(t, p, me);
    StoredIsLast(t, AllOffers(ms, me), id, e);
    StoredIsLast(t, AllOffers(p, me), id, e);
    LastOfRun(ms, me, id, e);
    LastOfRun(p, me, id, e);
  }

  lemma StoredWhenMessageLast(t: Table, ms: seq<Message>, p: seq<Message>, m: Message, me: NodeId, id: NodeId, e: nat)
    requires id != me && GreatestCarried(e, id, t, ms) && Carries(m, id, e)
    requires |p| > 0 && p[|p| - 1] == m && multiset(p) == multiset(ms)
    ensures id in Received(t, p, me) && LastWord(m, me, id, e) == Some(Received(t, p, me)[id])
  {
    SameElements(p, ms);
    StoredAtGreatest(t, p, me, id, e);
    ReceivedIsMergeAll(t, p, me);
    StoredIsLast(t, AllOffers(p, me), id, e);
    LastWordOfCarrier(m, me, id, e);
    LastAtAppend(AllOffers(p[..|p| - 1], me), Offers(m, me), id, e);
  }

  /** The record stored for another node is the same for every order of the messages if and only if the
      messages carrying its greatest epoch all end on the same word about it. */
  lemma RecordIndependentOfMessageOrder(t: Table, ms: seq<Message>, me: NodeId, id: NodeId, e: nat)
    requires id != me && GreatestCarried(e, id, t, ms)
    ensures id in Received(t, ms, me)
    ensures (forall p :: multiset(p) == multiset(ms) ==>
                           id in Received(t, p, me) && Received(t, p, me)[id] == Received(t, ms, me)[id])
            <==> OneLastWord(ms, me, id, e)
  {
    StoredAtGreatest(t, ms, me, id, e);
    if OneLastWord(ms, me, id, e) {
      forall p | multiset(p) == multiset(ms)
        ensures id in Received(t, p, me) && Received(t, p, me)[id] == Received(t, ms, me)[id]
      {
        SameRecordForMessages(t, ms, p, me, id, e);
      }
    } else {
      var m, n :| m in ms && n in ms && Carries(m, id, e) && Carries(n, id, e)
                  && LastWord(m, me, id, e) != LastWord(n, me, id, e);
      var p := MovedLast(ms, m);
      var q := MovedLast(ms, n);
      StoredWhenMessageLast(t, ms, p, m, me, id, e);
      StoredWhenMessageLast(t, ms, q, n, me, id, e);
    }
  }

  /** Two messages of one node that differ in its address only: whichever comes last is believed. */
  lemma TwoMessagesDisagree(t: Table, me: NodeId, id: NodeId, e: nat, a: string, b: string)
    requires id != me && a != b && (id in t ==> t[id].epoch <= e)
    ensures var m, n := Message(id, a, [], e), Message(id, b, [], e);
            && id in Received(t, [m, n], me) && Received(t, [m, n], me)[id].addr == b
            && id in Received(t, [n, m], me) && Received(t, [n, m], me)[id].addr == a
  {
    BelievesLast(t, me, id, e, a, b);
    BelievesLast(t, me, id, e, b, a);
  }

  lemma BelievesLast(t: Table, me: NodeId, id: NodeId, e: nat, a: string, b: string)
    requires id != me && (id in t ==> t[id].epoch <= e)
    ensures var ms := [Message(id, a, [], e), Message(id, b, [], e)];
            id in Received(t, ms, me) && Received(t, ms, me)[id].addr == b
  {
    var m, n := Message(id, a, [], e), Message(id, b, [], e);
    assert m in [m, n] && n in [m, n];
    StoredWhenMessageLast(t, [m, n], [m, n], n, me, id, e);
    assert Offers(n, me) == [SenderOffer(n)];
  }

  /** A tie inside one message: its sender is stored, not the entry about it, and with one message there is
      only one order. */
  lemma TieInsideMessage(t: Table, me: NodeId, id: NodeId, e: nat, entry: Entry)
    requires id != me && (id in t ==> t[id].epoch <= e)
    requires entry.id == id && entry.epoch == e && entry.flags.slave
    ensures var m := Message(id, "", [entry], e);
            && EntryOffer(entry) in Offers(m, me) && SenderOffer(m) in Offers(m, me)
            && EntryOffer(entry) != SenderOffer(m)
            && LastWord(m, me, id, e) == Some(SenderOffer(m))
            && OneLastWord([m], me, id, e)
  {
    var m := Message(id, "", [entry], e);
    assert [entry][..0] == [];
    assert EntryOffers([entry], me) == EntryOffers([], me) + [EntryOffer(entry)];
    assert Offers(m, me) == [EntryOffer(entry), SenderOffer(m)];
  }
}
