/**
 * Reliable reassembly: a send queue, a network that loses, repeats and reorders, and a receive
 * queue that learns which numbers were renumbered (packet_queue.h, and the range messages of
 * control.h). If nothing of a range is missing, the receiver has the sender's buffer.
 */
module PacketDelivery {
  import opened Bytes
  import opened Wrappers
  import opened SeqMapping
  import opened PacketQueue

  datatype Action =
    | SendPacket(data: Payload)                    // push_packet of the sender
    | SendBuffer(data: Payload, mtu: nat)          // push_buffer
    | Renumber(s: u16)                             // move_packet_up
    | Transmit(s: u16)                             // a packet of the send queue goes on the wire
    | Deliver(s: u16, data: Payload)               // a packet on the wire reaches push_packet
    | Learn(old_: u16, new_: u16)                  // the receiver enters a renumbering
    | Forget(start: u16, end: u16)                 // clear_range of the receiver
    | Discard(start: u16, end: u16)                // clear_range of the sender

  /** `content`, `moved`, `edges` and `used` only record what has happened: what each number was
      created with, which numbers were moved from, which pairs moves created, how many numbers
      have been taken since the start. The wire keeps everything: delivery never uses it up. */
  datatype System = System(
    sender: SendState, content: Packets, moved: set<u16>, edges: Mapping, used: nat,
    wire: set<(u16, Payload)>, received: Packets, mapping: Mapping)

  function Start(endSeq: u16): System {
    System(SendState(endSeq, map[]), map[], {}, map[], 0, {}, map[], map[])
  }

  function AfterPush(y: System, data: Payload): System {
    var n := Plus(y.sender.endSeq, 1);
    y.(sender := Push(y.sender, data), content := y.content[n := data], used := y.used + 1)
  }

  function AfterPushAll(y: System, chunks: seq<Payload>): System
    decreases |chunks|
  {
    if chunks == [] then y else AfterPushAll(AfterPush(y, chunks[0]), chunks[1..])
  }

  function AfterRenumber(y: System, s: u16): System {
    var n := Plus(y.sender.endSeq, 1);
    var q := MoveUp(y.sender, s);
    if s in y.sender.packets
    then y.(sender := q, content := y.content[n := y.sender.packets[s]], moved := y.moved + {s},
            edges := y.edges[s := n], used := y.used + 1)
    else y.(sender := q, used := y.used + 1)
  }

  function Step(y: System, a: Action): Option<System> {
    match a
    case SendPacket(data) => Some(AfterPush(y, data))
    case SendBuffer(data, mtu) => if mtu > 0 then Some(AfterPushAll(y, Chunks(data, mtu))) else None
    case Renumber(s) => Some(AfterRenumber(y, s))
    case Transmit(s) =>
      if s in y.sender.packets then Some(y.(wire := y.wire + {(s, y.sender.packets[s])})) else None
    case Deliver(s, data) =>
      if (s, data) !in y.wire then None
      else Some(y.(received := if s in y.received then y.received else y.received[s := data]))
    case Learn(o, n) => if o in y.edges && y.edges[o] == n then Some(y.(mapping := y.mapping[o := n])) else None
    case Forget(start, end) =>
      var gone := Range(start, Dist(start, end));
      Some(y.(received := y.received - gone, mapping := y.mapping - gone))
    case Discard(start, end) =>
      Some(y.(sender := SendState(y.sender.endSeq, y.sender.packets - Range(start, Dist(start, end)))))
  }

  /** The sender can always push and renumber, and send what it has queued; the network can always deliver
      what is on the wire. What each does to the queues is what the queues' own operations do. */
  lemma ActionsAreOpen(y: System, data: Payload, mtu: nat, s: u16)
    requires mtu > 0
    ensures Step(y, SendPacket(data)).Some? && Step(y, SendPacket(data)).value.sender == Push(y.sender, data)
    ensures Step(y, SendBuffer(data, mtu)).Some?
            && Step(y, SendBuffer(data, mtu)).value.sender == PushAll(y.sender, Chunks(data, mtu))
    ensures Step(y, Renumber(s)).Some? && Step(y, Renumber(s)).value.sender == MoveUp(y.sender, s)
    ensures Step(y, Transmit(s)).Some? <==> s in y.sender.packets
    ensures s in y.sender.packets ==> (s, y.sender.packets[s]) in Step(y, Transmit(s)).value.wire
    ensures Step(y, Deliver(s, data)).Some? <==> (s, data) in y.wire
    ensures (s, data) in y.wire ==>
              var got := Step(y, Deliver(s, data)).value.received;
              s in got && got[s] == if s in y.received then y.received[s] else data
  {
    SenderPushesAll(y, Chunks(data, mtu));
  }

  lemma {:induction false} SenderPushesAll(y: System, chunks: seq<Payload>)
    ensures AfterPushAll(y, chunks).sender == PushAll(y.sender, chunks)
    decreases |chunks|
  {
    if chunks != [] {
      SenderPushesAll(AfterPush(y, chunks[0]), chunks[1..]);
    }
  }

  /** Under this number the send queue holds the empty packet that a renumbering left behind. */
  predicate Spent(y: System, s: u16) {
    s in y.moved && s in y.sender.packets
  }

  /** The sender neither renumbers nor sends what a renumbering left behind. */
  predicate Careful(y: System, a: Action) {
    a.Renumber? || a.Transmit? ==> !Spent(y, a.s)
  }

  ghost predicate CarefulRun(y: System, actions: seq<Action>)
    decreases |actions|
  {
    actions == [] ||
    (Careful(y, actions[0]) && match Step(y, actions[0])
                               case None => false
                               case Some(y1) => CarefulRun(y1, actions[1..]))
  }

  function Outcome(y: System, actions: seq<Action>): System
    decreases |actions|
  {
    if actions == [] then y
    else match Step(y, actions[0])
      case None => y
      case Some(y1) => Outcome(y1, actions[1..])
  }

  // ---------------------------------------------------------------- the invariant

  /** At most one round of numbers has been taken from `base` on, so none has been taken twice. */
  ghost predicate Window(y: System, base: u16) {
    y.used <= 0x1_0000 && Plus(y.sender.endSeq, 1) == Plus(base, y.used)
  }

  ghost predicate Recorded(y: System, base: u16) {
    && (forall s :: s in y.content ==> Dist(base, s) < y.used)
    && (forall s :: s in y.sender.packets ==>
          s in y.content && y.sender.packets[s] == if s in y.moved then [] else y.content[s])
    && (forall s :: s in y.moved ==> s in y.edges)
    && (forall o :: o in y.edges ==> o in y.moved && o in y.content && y.edges[o] in y.content
                                     && y.content[y.edges[o]] == y.content[o]
                                     && Dist(base, o) < Dist(base, y.edges[o]))
  }

  ghost predicate Truthful(y: System) {
    && (forall s, p :: (s, p) in y.wire ==> s in y.content && p == y.content[s])
    && (forall s :: s in y.received ==> s in y.content && y.received[s] == y.content[s])
    && (forall o :: o in y.mapping ==> o in y.edges && y.mapping[o] == y.edges[o])
  }

  ghost predicate Inv(y: System, base: u16) {
    Window(y, base) && Recorded(y, base) && Truthful(y)
  }

  /** What a step adds to the record never changes what was there. */
  ghost predicate Extends(y: System, z: System) {
    && y.used <= z.used
    && (forall s :: s in y.content ==> s in z.content && z.content[s] == y.content[s])
  }

  lemma FreshNumber(y: System, base: u16)
    requires Inv(y, base) && y.used < 0x1_0000
    ensures var n := Plus(y.sender.endSeq, 1);
            n == Plus(base, y.used) && Dist(base, n) == y.used && Plus(n, 1) == Plus(base, y.used + 1)
            && n !in y.content && n !in y.sender.packets && n !in y.moved && n !in y.edges
  {
    DistPlus(base, y.used);
    PlusPlus(base, y.used, 1);
  }

  lemma PushKeeps(y: System, base: u16, data: Payload)
    requires Inv(y, base) && y.used < 0x1_0000
    ensures var z := AfterPush(y, data);
            var n := Plus(base, y.used);
            Inv(z, base) && Extends(y, z) && n in z.content && z.content[n] == data
  {
    hide Plus, Dist;
    FreshNumber(y, base);
  }

  lemma {:induction false} PushAllKeeps(y: System, base: u16, chunks: seq<Payload>)
    requires Inv(y, base) && y.used + |chunks| <= 0x1_0000
    ensures var z := AfterPushAll(y, chunks);
            && Inv(z, base) && Extends(y, z) && z.used == y.used + |chunks|
            && (forall j: nat :: y.used <= j < y.used + |chunks| ==>
                  Plus(base, j) in z.content && z.content[Plus(base, j)] == chunks[j - y.used])
            && z.sender == PushAll(y.sender, chunks)
    decreases |chunks|
  {
    hide Plus, Dist, Recorded, Truthful, Push;
    if chunks != [] {
      PushKeeps(y, base, chunks[0]);
      var y1 := AfterPush(y, chunks[0]);
      PushAllKeeps(y1, base, chunks[1..]);
      var z := AfterPushAll(y, chunks);
      assert z == AfterPushAll(y1, chunks[1..]);
    }
  }

  lemma RenumberRecorded(y: System, base: u16, s: u16)
    requires Inv(y, base) && y.used < 0x1_0000 && s in y.sender.packets && s !in y.moved
    ensures Recorded(AfterRenumber(y, s), base)
  {
    hide Plus, Dist;
    FreshNumber(y, base);
    var n := Plus(y.sender.endSeq, 1);
    var z := AfterRenumber(y, s);
    assert z.sender.packets == y.sender.packets[n := y.sender.packets[s]][s := []];
    assert z.content == y.content[n := y.content[s]];
    assert s != n;
  }

  lemma RenumberKeeps(y: System, base: u16, s: u16)
    requires Inv(y, base) && y.used < 0x1_0000 && !Spent(y, s)
    ensures Inv(AfterRenumber(y, s), base) && Extends(y, AfterRenumber(y, s))
  {
    hide Dist, Recorded;
    FreshNumber(y, base);
    if s in y.sender.packets {
      NotMovedNoEdge(y, base, s);
      RenumberRecorded(y, base, s);
      assert AfterRenumber(y, s).content == y.content[Plus(y.sender.endSeq, 1) := y.sender.packets[s]];
    } else {
      RenumberNothing(y, base, s);
    }
  }

  lemma NotMovedNoEdge(y: System, base: u16, s: u16)
    requires Recorded(y, base) && s !in y.moved
    ensures s !in y.edges
  {
    hide Dist;
  }

  lemma RenumberNothing(y: System, base: u16, s: u16)
    requires Recorded(y, base) && s !in y.sender.packets
    ensures Recorded(AfterRenumber(y, s), base)
  {
    hide Dist, Plus;
  }

  lemma UsedGrows(y: System, a: Action)
    requires Step(y, a).Some?
    ensures y.used <= Step(y, a).value.used
    ensures a.SendPacket? || a.Renumber? ==> Step(y, a).value.used == y.used + 1
    ensures a.SendBuffer? ==> Step(y, a).value.used == y.used + |Chunks(a.data, a.mtu)|
  {
    if a.SendBuffer? {
      UsedByAll(y, Chunks(a.data, a.mtu));
    }
  }

  lemma {:induction false} UsedByAll(y: System, chunks: seq<Payload>)
    ensures AfterPushAll(y, chunks).used == y.used + |chunks|
    decreases |chunks|
  {
    if chunks != [] {
      UsedByAll(AfterPush(y, chunks[0]), chunks[1..]);
    }
  }

  lemma InvUsed(y: System, base: u16)
    requires Inv(y, base)
    ensures y.used <= 0x1_0000
  {
  }

  lemma StepKeeps(y: System, base: u16, a: Action, z: System)
    requires Inv(y, base) && Careful(y, a) && Step(y, a) == Some(z) && z.used <= 0x1_0000
    ensures Inv(z, base) && Extends(y, z)
  {
    hide Inv, Extends, Dist, Plus, Range;
    InvUsed(y, base);
    UsedGrows(y, a);
    match a
    case SendPacket(data) => PushKeeps(y, base, data);
    case SendBuffer(data, mtu) => PushAllKeeps(y, base, Chunks(data, mtu));
    case Renumber(s) => RenumberKeeps(y, base, s);
    case _ => NetworkKeeps(y, base, a, z);
  }

  lemma NetworkKeeps(y: System, base: u16, a: Action, z: System)
    requires Inv(y, base) && Careful(y, a) && Step(y, a) == Some(z)
    requires a.Transmit? || a.Deliver? || a.Learn? || a.Forget? || a.Discard?
    ensures Inv(z, base) && Extends(y, z)
  {
    hide Dist, Plus, Range;
  }

  lemma {:induction false} UsedByRun(y: System, actions: seq<Action>)
    requires CarefulRun(y, actions)
    ensures y.used <= Outcome(y, actions).used
    decreases |actions|
  {
    if actions != [] {
      UsedGrows(y, actions[0]);
      UsedByRun(Step(y, actions[0]).value, actions[1..]);
    }
  }

  lemma {:induction false} RunKeeps(y: System, base: u16, actions: seq<Action>)
    requires Inv(y, base) && CarefulRun(y, actions) && Outcome(y, actions).used <= 0x1_0000
    ensures Inv(Outcome(y, actions), base) && Extends(y, Outcome(y, actions))
    decreases |actions|
  {
    if actions != [] {
      var y1 := Step(y, actions[0]).value;
      UsedByRun(y1, actions[1..]);
      StepKeeps(y, base, actions[0], y1);
      RunKeeps(y1, base, actions[1..]);
    }
  }

  // ---------------------------------------------------------------- the receiver

  /** Every entry leads from a number to one taken later. */
  ghost predicate LeadsLater(m: Mapping, base: u16) {
    forall o :: o in m ==> Dist(base, o) < Dist(base, m[o])
  }

  lemma {:induction false} WalkGetsLater(m: Mapping, base: u16, s: u16, n: nat)
    requires LeadsLater(m, base) && Walks(m, s, n)
    ensures n > 0 ==> Dist(base, s) < Dist(base, Walk(m, s, n))
    decreases n
  {
    if n > 1 {
      WalkGetsLater(m, base, m[s], n - 1);
    }
  }

  lemma LaterIsAcyclic(m: Mapping, base: u16)
    requires LeadsLater(m, base)
    ensures Acyclic(m)
  {
    forall s: u16, n: nat | n > 0 && Walks(m, s, n)
      ensures Walk(m, s, n) != s
    {
      WalkGetsLater(m, base, s, n);
    }
  }

  /** The learned mapping only leads to later numbers, so it has no cycle. */
  lemma MappingAcyclic(y: System, base: u16)
    requires Inv(y, base)
    ensures LeadsLater(y.mapping, base) && Acyclic(y.mapping)
  {
    LaterIsAcyclic(y.mapping, base);
  }

  lemma {:induction false} FollowKeepsContent(y: System, base: u16, s: u16, k: nat)
    requires Inv(y, base) && s in y.content && Ends(y.mapping, s, k)
    ensures var r := Follow(y.mapping, s, k); r in y.content && y.content[r] == y.content[s]
    decreases k
  {
    if s in y.mapping {
      FollowKeepsContent(y, base, y.mapping[s], k - 1);
    }
  }

  /** Whatever a number resolves to, the packet found there has the number's own content. */
  lemma ResolvedContent(y: System, base: u16, s: u16)
    requires Inv(y, base) && s in y.content && Acyclic(y.mapping)
    ensures Present(y.received, y.mapping, s) ==> y.received[Resolve(y.mapping, s)] == y.content[s]
  {
    Escapes(y.mapping, [], s);
    FollowKeepsContent(y, base, s, |y.mapping|);
    ResolveIs(y.mapping, s, |y.mapping|);
  }

  lemma GatherNext(packets: Packets, m: Mapping, first: u16, n: nat)
    requires Acyclic(m)
    ensures n == 0 ==> Gather(packets, m, first, n) == []
    ensures n > 0 && Present(packets, m, first) ==>
              Resolve(m, first) in packets
              && Gather(packets, m, first, n)
                 == Kept(packets[Resolve(m, first)]) + Gather(packets, m, Plus(first, 1), n - 1)
  {
  }

  lemma {:induction false} GatherContent(y: System, base: u16, first: u16, chunks: seq<Payload>)
    requires Inv(y, base) && Acyclic(y.mapping)
    requires forall k: nat :: k < |chunks| ==> Plus(first, k) in y.content && y.content[Plus(first, k)] == chunks[k]
    requires forall k: nat :: k < |chunks| ==> Present(y.received, y.mapping, Plus(first, k))
    ensures Gather(y.received, y.mapping, first, |chunks|) == DataOf(chunks)
    decreases |chunks|
  {
    hide Plus, Dist, Recorded, Truthful, Present, Window;
    PlusStep(first, 0);
    GatherNext(y.received, y.mapping, first, |chunks|);
    if chunks != [] {
      assert Present(y.received, y.mapping, Plus(first, 0));
      ResolvedContent(y, base, first);
      forall k: nat | k < |chunks| - 1
        ensures Plus(Plus(first, 1), k) in y.content && y.content[Plus(Plus(first, 1), k)] == chunks[1..][k]
        ensures Present(y.received, y.mapping, Plus(Plus(first, 1), k))
      {
        PlusStep(first, k);
        assert Present(y.received, y.mapping, Plus(first, k + 1));
      }
      GatherContent(y, base, Plus(first, 1), chunks[1..]);
    }
  }

  /** The sender splits a buffer at some point of a careful run; after any continuation that keeps
      the window, with any loss, repetition, reordering and renumbering: if nothing of the
      original range is missing, what the receiver copies out is the data of the pieces, and
      that is the buffer exactly when size and mtu split it evenly. */
  lemma ReliableReassembly(endSeq: u16, before: seq<Action>, data: Payload, mtu: nat, after: seq<Action>)
    requires mtu > 0
    requires CarefulRun(Start(endSeq), before)
    requires var y := Outcome(Start(endSeq), before); CarefulRun(AfterPushAll(y, Chunks(data, mtu)), after)
    requires var y := Outcome(Start(endSeq), before);
             Outcome(AfterPushAll(y, Chunks(data, mtu)), after).used <= 0x1_0000
    ensures var y := Outcome(Start(endSeq), before);
            var z := Outcome(AfterPushAll(y, Chunks(data, mtu)), after);
            var first, n := Plus(y.sender.endSeq, 1), |Chunks(data, mtu)|;
            && Acyclic(z.mapping)
            && (n < 0x1_0000 ==> Dist(first, Plus(first, n)) == n)
            && (Missing(z.received, z.mapping, first, n) == [] ==>
                  && Gather(z.received, z.mapping, first, n) == DataOf(Chunks(data, mtu))
                  && (Gather(z.received, z.mapping, first, n) == data <==> SplitsEvenly(|data|, mtu)))
  {
    hide *;
    var chunks := Chunks(data, mtu);
    var s, base := Start(endSeq), Plus(endSeq, 1);
    StartInv(endSeq);
    var y := Outcome(s, before);
    var sent := AfterPushAll(y, chunks);
    UsedByRun(sent, after);
    UsedByAll(y, chunks);
    RunKeeps(s, base, before);
    PushAllKeeps(y, base, chunks);
    RunKeeps(sent, base, after);
    Reassembles(y, sent, Outcome(sent, after), base, chunks);
    DataOfChunks(data, mtu);
    if |chunks| < 0x1_0000 {
      DistPlus(Plus(y.sender.endSeq, 1), |chunks|);
    }
  }

  /** `y` is the system before the pieces were pushed, `sent` after, and `z` any later one. */
  lemma Reassembles(y: System, sent: System, z: System, base: u16, chunks: seq<Payload>)
    requires Inv(y, base) && Inv(z, base) && Extends(sent, z)
    requires forall j: nat :: y.used <= j < y.used + |chunks| ==>
               Plus(base, j) in sent.content && sent.content[Plus(base, j)] == chunks[j - y.used]
    ensures Acyclic(z.mapping)
    ensures var first := Plus(y.sender.endSeq, 1);
            Missing(z.received, z.mapping, first, |chunks|) == []
            ==> Gather(z.received, z.mapping, first, |chunks|) == DataOf(chunks)
  {
    hide Gather, Missing, DataOf, Recorded, Truthful, Plus, Dist;
    MappingAcyclic(z, base);
    var first := Plus(y.sender.endSeq, 1);
    if Missing(z.received, z.mapping, first, |chunks|) == [] {
      MissingAt(z.received, z.mapping, first, |chunks|);
      forall k: nat | k < |chunks|
        ensures Plus(first, k) in z.content && z.content[Plus(first, k)] == chunks[k]
      {
        PlusPlus(base, y.used, k);
        var j := y.used + k;
        assert Plus(first, k) == Plus(base, j) && sent.content[Plus(base, j)] == chunks[k];
      }
      GatherContent(z, base, first, chunks);
    }
  }

  lemma StartInv(endSeq: u16)
    ensures Inv(Start(endSeq), Plus(endSeq, 1))
  {
    PlusStep(Plus(endSeq, 1), 0);
  }

  // ---------------------------------------------------------------- when data is lost

  /** The receiver misses nothing at `s` and takes out something else than the data of `p`. */
  ghost predicate Deceived(z: System, s: u16, p: Payload) {
    Acyclic(z.mapping) && Missing(z.received, z.mapping, s, 1) == [] && Gather(z.received, z.mapping, s, 1) != Kept(p)
  }

  /** Some careful continuation within the window deceives the receiver about number `s`. */
  ghost predicate CanDeceive(y: System, s: u16, p: Payload) {
    exists rest :: CarefulRun(y, rest) && Outcome(y, rest).used <= 0x1_0000 && Deceived(Outcome(y, rest), s, p)
  }

  lemma CarefulNeverDeceives(y: System, base: u16, rest: seq<Action>, s: u16)
    requires Inv(y, base) && s in y.content
    requires CarefulRun(y, rest) && Outcome(y, rest).used <= 0x1_0000
    ensures !Deceived(Outcome(y, rest), s, y.content[s])
  {
    hide Recorded, Truthful, CarefulRun, Missing, Gather;
    RunKeeps(y, base, rest);
    var z := Outcome(y, rest);
    MappingAcyclic(z, base);
    OneNumber(z, s);
    ResolvedContent(z, base, s);
  }

  /** What the scans make of a single number. */
  lemma OneNumber(z: System, s: u16)
    requires Acyclic(z.mapping)
    ensures Missing(z.received, z.mapping, s, 1) == [] <==> Present(z.received, z.mapping, s)
    ensures Present(z.received, z.mapping, s) ==>
              Gather(z.received, z.mapping, s, 1) == Kept(z.received[Resolve(z.mapping, s)])
  {
    hide Acyclic, Resolve;
    assert Gather(z.received, z.mapping, Plus(s, 1), 0) == [];
  }

  /** The receiver has let go of number `s`; a packet with other data on the wire is what it gets. */
  lemma WrongPacketDeceives(y: System, s: u16, p: Payload, wrong: Payload)
    requires Acyclic(y.mapping) && (s, wrong) in y.wire && Kept(wrong) != Kept(p)
    ensures exists rest :: CarefulRun(y, rest) && Outcome(y, rest).used == y.used && Deceived(Outcome(y, rest), s, p)
  {
    var forget, deliver := Forget(s, Plus(s, 1)), Deliver(s, wrong);
    var y1 := Step(y, forget).value;
    RangeOfOne(s);
    DroppingKeepsAcyclic(y.mapping, {s});
    var z := Step(y1, deliver).value;
    assert Ends(z.mapping, s, 0);
    ResolveIs(z.mapping, s, 0);
    OneNumber(z, s);
    TwoSteps(y, forget, y1, deliver, z);
  }

  lemma RangeOfOne(s: u16)
    ensures Range(s, Dist(s, Plus(s, 1))) == {s}
  {
    DistPlus(s, 1);
    assert Range(Plus(s, 1), 0) == {};
  }

  lemma CarefulCons(y: System, a: Action, y1: System, rest: seq<Action>)
    requires Careful(y, a) && Step(y, a) == Some(y1) && CarefulRun(y1, rest)
    ensures CarefulRun(y, [a] + rest) && Outcome(y, [a] + rest) == Outcome(y1, rest)
  {
    hide Step, Careful;
    assert ([a] + rest)[1..] == rest;
  }

  lemma TwoSteps(y: System, a: Action, y1: System, b: Action, z: System)
    requires Careful(y, a) && Step(y, a) == Some(y1) && Careful(y1, b) && Step(y1, b) == Some(z)
    ensures CarefulRun(y, [a, b]) && Outcome(y, [a, b]) == z
  {
    hide Step, Careful;
    CarefulCons(y1, b, z, []);
    CarefulCons(y, a, y1, [b]);
    assert [b] + [] == [b] && [a] + [b] == [a, b];
  }

  /** Renumbering a spent number makes an empty packet that the receiver is told stands for it. */
  lemma SpentRenumberDeceives(y: System, base: u16, s: u16)
    requires Inv(y, base) && Spent(y, s) && y.used < 0x1_0000 && Kept(y.content[s]) != []
    ensures CanDeceive(AfterRenumber(y, s), s, y.content[s])
  {
    hide Truthful, CarefulRun, Outcome, Missing, Gather, Acyclic, Plus;
    var n := Plus(y.sender.endSeq, 1);
    FreshNumber(y, base);
    var y1 := AfterRenumber(y, s);
    var sent := y1.(wire := y1.wire + {(n, [])});
    var got := sent.(received := sent.received[n := []]);
    var z := got.(mapping := y.mapping[s := n]);
    ReceivedIsOld(y, base, n);
    assert Step(y1, Transmit(n)) == Some(sent) && Careful(y1, Transmit(n));
    assert Step(sent, Deliver(n, [])) == Some(got) && Step(got, Learn(s, n)) == Some(z);
    TwoSteps(sent, Deliver(n, []), got, Learn(s, n), z);
    CarefulCons(y1, Transmit(n), sent, [Deliver(n, []), Learn(s, n)]);
    Misled(y, base, s, n, z);
  }

  lemma ReceivedIsOld(y: System, base: u16, n: u16)
    requires Inv(y, base) && n !in y.content
    ensures n !in y.received && n !in y.mapping
  {
  }

  lemma Misled(y: System, base: u16, s: u16, n: u16, z: System)
    requires Inv(y, base) && s in y.content && n !in y.content && Dist(base, n) == y.used && Kept(y.content[s]) != []
    requires z.mapping == y.mapping[s := n] && n in z.received && z.received[n] == []
    ensures Deceived(z, s, y.content[s])
  {
    MappingAcyclic(y, base);
    LaterIsAcyclic(z.mapping, base);
    ReceivedIsOld(y, base, n);
    assert s != n && Ends(z.mapping, n, 0) && Ends(z.mapping, s, 1);
    ResolveIs(z.mapping, s, 1);
    OneNumber(z, s);
  }

  /** Sending what is under a spent number lets the empty packet pass for the data. */
  lemma SpentTransmitDeceives(y: System, base: u16, s: u16)
    requires Inv(y, base) && Spent(y, s) && Kept(y.content[s]) != []
    ensures CanDeceive(Step(y, Transmit(s)).value, s, y.content[s])
  {
    MappingAcyclic(y, base);
    WrongPacketDeceives(Step(y, Transmit(s)).value, s, y.content[s], []);
  }

  /** Renumbering or sending under a number that was created with data can be continued to a receiver
      that misses nothing and has other data exactly when it is not careful. */
  lemma DeceivesExactlyWhenCareless(y: System, base: u16, a: Action, y1: System)
    requires Inv(y, base) && (a.Renumber? || a.Transmit?) && Step(y, a) == Some(y1) && y1.used <= 0x1_0000
    requires a.s in y.content && Kept(y.content[a.s]) != []
    ensures CanDeceive(y1, a.s, y.content[a.s]) <==> !Careful(y, a)
  {
    if Careful(y, a) {
      StepKeeps(y, base, a, y1);
      forall rest | CarefulRun(y1, rest) && Outcome(y1, rest).used <= 0x1_0000
        ensures !Deceived(Outcome(y1, rest), a.s, y.content[a.s])
      {
        CarefulNeverDeceives(y1, base, rest, a.s);
      }
    } else if a.Transmit? {
      SpentTransmitDeceives(y, base, a.s);
    } else {
      SpentRenumberDeceives(y, base, a.s);
    }
  }

  /** A packet pushed onto a number that is still taken is dropped; the one that has the number can
      be delivered in its place. */
  lemma TakenNumberDeceives(y: System, data: Payload)
    requires Acyclic(y.mapping)
    requires var n := Plus(y.sender.endSeq, 1);
             n in y.sender.packets && n !in y.moved && Kept(y.sender.packets[n]) != Kept(data)
    ensures var n, y1 := Plus(y.sender.endSeq, 1), AfterPush(y, data);
            && y1.sender.packets == y.sender.packets
            && exists rest :: CarefulRun(y1, rest) && Deceived(Outcome(y1, rest), n, data)
  {
    var n, y1 := Plus(y.sender.endSeq, 1), AfterPush(y, data);
    var old_ := y.sender.packets[n];
    var sent := y1.(wire := y1.wire + {(n, old_)});
    assert Step(y1, Transmit(n)) == Some(sent) && Careful(y1, Transmit(n));
    WrongPacketDeceives(sent, n, data, old_);
    var rest :| CarefulRun(sent, rest) && Outcome(sent, rest).used == sent.used
                && Deceived(Outcome(sent, rest), n, data);
    CarefulCons(y1, Transmit(n), sent, rest);
  }

  /** After a whole round of pieces the next number is taken, so one round is as far as it goes for a
      sender that discards nothing. */
  lemma RoundTakesNextNumber(q: SendState, chunks: seq<Payload>)
    requires |chunks| == 0x1_0000
    ensures var z := PushAll(q, chunks); z.endSeq == q.endSeq && Plus(z.endSeq, 1) in z.packets
  {
    PieceStored(q, chunks, 0);
    PushAllEnd(q, chunks);
  }

  lemma {:induction false} PushAllEnd(q: SendState, chunks: seq<Payload>)
    ensures PushAll(q, chunks).endSeq == Plus(q.endSeq, |chunks|)
    decreases |chunks|
  {
    if chunks != [] {
      PushAllEnd(Push(q, chunks[0]), chunks[1..]);
      PlusPlus(q.endSeq, 1, |chunks| - 1);
    }
  }

  /** One packet is pushed, moved up, moved up again under its old number, and the packet that
      this creates is delivered and its renumbering learned. */
  const CARELESS_RUN: seq<Action> :=
    [SendBuffer([7, 7], 2), Renumber(1), Renumber(1), Transmit(3), Deliver(3, []), Learn(1, 3)]

  const PUSHED := System(SendState(1, map[1 := [7, 7]]), map[1 := [7, 7]], {}, map[], 1, {}, map[], map[])
  const MOVED := System(SendState(2, map[1 := [], 2 := [7, 7]]), map[1 := [7, 7], 2 := [7, 7]], {1}, map[1 := 2], 2,
                        {}, map[], map[])
  const MOVED_AGAIN := System(SendState(3, map[1 := [], 2 := [7, 7], 3 := []]), map[1 := [7, 7], 2 := [7, 7], 3 := []],
                              {1}, map[1 := 3], 3, {}, map[], map[])

  lemma CarelessPushes()
    ensures Step(Start(0), CARELESS_RUN[0]) == Some(PUSHED)
  {
    assert Chunks([7, 7], 2) == [[7, 7]];
    assert AfterPush(Start(0), [7, 7]) == PUSHED;
    assert AfterPushAll(PUSHED, []) == PUSHED;
  }

  lemma CarelessMoves()
    ensures Step(PUSHED, Renumber(1)) == Some(MOVED) && Step(MOVED, Renumber(1)) == Some(MOVED_AGAIN)
  {
    assert MoveUp(PUSHED.sender, 1) == MOVED.sender && MoveUp(MOVED.sender, 1) == MOVED_AGAIN.sender;
    assert PUSHED.content[2 := [7, 7]] == MOVED.content && MOVED.content[3 := []] == MOVED_AGAIN.content;
    assert PUSHED.edges[1 := 2] == MOVED.edges && MOVED.edges[1 := 3] == MOVED_AGAIN.edges;
    assert PUSHED.moved + {1} == {1} && MOVED.moved + {1} == {1};
  }

  /** Renumbering a packet a second time under its old number moves the empty packet that the
      first move left behind: the receiver then misses nothing and has lost the data. */
  lemma CarelessRenumberingLosesData()
    ensures var y := Outcome(Start(0), CARELESS_RUN);
            && y.used == 3 && Acyclic(y.mapping)
            && Missing(y.received, y.mapping, 1, 1) == []
            && Gather(y.received, y.mapping, 1, 1) == []
  {
    CarelessPushes();
    CarelessMoves();
    var heard := MOVED_AGAIN.(wire := MOVED_AGAIN.wire + {(3, [])});
    var got := heard.(received := heard.received[3 := []]);
    var y := got.(mapping := got.mapping[1 := 3]);
    assert 3 in MOVED_AGAIN.sender.packets && MOVED_AGAIN.sender.packets[3] == [];
    assert Step(MOVED_AGAIN, Transmit(3)) == Some(heard);
    assert Step(heard, Deliver(3, [])) == Some(got) && Step(got, Learn(1, 3)) == Some(y);
    OutcomeOfSteps(Start(0), CARELESS_RUN, [PUSHED, MOVED, MOVED_AGAIN, heard, got, y]);
    OneEdge(1, 3);
    assert y.mapping == map[1 := 3];
    OneNumber(y, 1);
  }

  /** One packet is pushed and moved up; then number 1, now empty, is sent and delivered. */
  const SPENT_RUN: seq<Action> := [SendBuffer([7, 7], 2), Renumber(1), Transmit(1), Deliver(1, [])]

  /** Sending what is left under a renumbered number loses the data as well: nothing is missing. */
  lemma SendingSpentNumberLosesData()
    ensures var y := Outcome(Start(0), SPENT_RUN);
            && y.used == 2 && Acyclic(y.mapping)
            && Missing(y.received, y.mapping, 1, 1) == []
            && Gather(y.received, y.mapping, 1, 1) == []
  {
    CarelessPushes();
    CarelessMoves();
    var heard := MOVED.(wire := MOVED.wire + {(1, [])});
    var y := heard.(received := heard.received[1 := []]);
    assert 1 in MOVED.sender.packets && MOVED.sender.packets[1] == [];
    assert Step(MOVED, Transmit(1)) == Some(heard) && Step(heard, Deliver(1, [])) == Some(y);
    OutcomeOfSteps(Start(0), SPENT_RUN, [PUSHED, MOVED, heard, y]);
    assert Ends(y.mapping, 1, 0);
    ResolveIs(y.mapping, 1, 0);
    OneNumber(y, 1);
  }

  lemma {:induction false} OutcomeOfSteps(y: System, actions: seq<Action>, states: seq<System>)
    requires |actions| == |states| && states != []
    requires Step(y, actions[0]) == Some(states[0])
    requires forall i :: 0 < i < |actions| ==> Step(states[i - 1], actions[i]) == Some(states[i])
    ensures Outcome(y, actions) == states[|states| - 1]
    decreases |actions|
  {
    hide Step;
    if |actions| > 1 {
      assert actions[1..][0] == actions[1] && states[1..][0] == states[1];
      forall i | 0 < i < |actions| - 1
        ensures Step(states[1..][i - 1], actions[1..][i]) == Some(states[1..][i])
      {
        assert Step(states[(i + 1) - 1], actions[i + 1]) == Some(states[i + 1]);
      }
      OutcomeOfSteps(states[0], actions[1..], states[1..]);
    }
  }

  lemma OneEdge(o: u16, n: u16)
    requires o != n
    ensures var m: Mapping := map[o := n]; Acyclic(m) && Resolve(m, o) == n
  {
    var m: Mapping := map[o := n];
    forall s: u16, k: nat | k > 0 && Walks(m, s, k)
      ensures Walk(m, s, k) != s
    {
      assert s == o && Walks(m, n, k - 1) && n !in m;
    }
    ResolveIs(m, o, 1);
  }
}
