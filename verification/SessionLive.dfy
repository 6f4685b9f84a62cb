/**
 That a session can always succeed: from any conversation with nothing unacknowledged, some turns make the
 next send return success, with the message delivered at the peer.
*/
module SessionLive {
  import opened Words
  import opened Wrappers
  import opened Ordered
  import opened Frame
  import opened Window
  import opened ArqModel
  import opened Ledger
  import opened Reassembly
  import opened Link
  import opened Network
  import opened Delivery
  import opened Progress
  import opened Recovery
  import opened SessionModel
  import opened SessionExact
  import opened SessionNetwork

  /* ---- steps that take effect ---- */

  ghost predicate AllEnabled(n: Net, more: seq<Step>)
    decreases |more|
  {
    more != [] ==>
      var (who, action) := more[0];
      Enabled(At(n, who), At(n, Other(who)), action) && AllEnabled(Next(n, more[0]), more[1..])
  }

  lemma {:induction false} EnabledAppend(n: Net, a: seq<Step>, b: seq<Step>)
    requires AllEnabled(n, a) && AllEnabled(Follow(n, a), b)
    ensures AllEnabled(n, a + b)
    decreases |a|
  {
    hide Next, Enabled;
    if a == [] {
      assert a + b == b;
    } else {
      assert (a + b)[1..] == a[1..] + b;
      EnabledAppend(Next(n, a[0]), a[1..], b);
    }
  }

  lemma EnabledOne(n: Net, s: Step)
    requires Enabled(At(n, s.0), At(n, Other(s.0)), s.1)
    ensures AllEnabled(n, [s])
  {
    hide Next, Enabled;
    assert AllEnabled(Next(n, s), []);
  }

  lemma AdmissibleNext(schedule: seq<Step>, step: Step)
    requires Admissible(schedule) && Enabled(At(Exec(schedule), step.0), At(Exec(schedule), Other(step.0)), step.1)
    ensures Admissible(schedule + [step])
  {
    hide Replay, Clock, Sees, Enabled, Exec, Allowed;
    var (who, action) := step;
    assert (schedule + [step])[..|schedule|] == schedule;
    Composes(schedule, A);
    Composes(schedule, B);
    LocalView(schedule, A);
    LocalView(schedule, B);
    assert Other(who) == A || Other(who) == B;
    AllowedIsEnabled(Own(schedule, who), Own(schedule, Other(who)), At(Exec(schedule), who), At(Exec(schedule), Other(who)), action);
  }

  lemma {:induction false} AdmissibleMore(schedule: seq<Step>, more: seq<Step>)
    requires Admissible(schedule) && AllEnabled(Exec(schedule), more)
    ensures Admissible(schedule + more)
    decreases |more|
  {
    hide Exec, Next, Enabled, Admissible;
    if more == [] {
      assert schedule + more == schedule;
    } else {
      AdmissibleNext(schedule, more[0]);
      ExecNext(schedule, more[0]);
      AdmissibleMore(schedule + [more[0]], more[1..]);
      assert schedule + more == schedule + [more[0]] + more[1..];
    }
  }

  lemma {:induction false} OwnAppend(a: seq<Step>, b: seq<Step>, side: Side)
    ensures Own(a + b, side) == Own(a, side) + Own(b, side)
    decreases |b|
  {
    if b == [] {
      assert a + b == a;
    } else {
      var init := b[..|b| - 1];
      OwnAppend(a, init, side);
      assert (a + b)[..|a + b| - 1] == a + init;
    }
  }

  // Deliveries to the other side are none of this side's operations.
  lemma {:induction false} OwnOfOther(b: seq<Step>, side: Side)
    requires forall i :: 0 <= i < |b| ==> b[i].0 == Other(side)
    ensures Own(b, side) == []
  {
    if b != [] { OwnOfOther(b[..|b| - 1], side); }
  }

  /* ---- one turn clears everything in flight ---- */

  // A number all of whose predecessors have been accepted is accepted when its frame arrives.
  lemma AcceptedInOrder(p: TxSide, q: RxSide, s: nat)
    requires LinkInv(p, q) && s < Total(p.msgs) && WasSent(p.tx, s)
    requires forall x: nat :: x < s ==> x in q.G()
    ensures s in DoData(q, p.msgs, s).G() && q.G() <= DoData(q, p.msgs, s).G()
  {
    assert CrossInv(p, q) && QueueInv(p) && WindowOf(q.G(), q.rx.base);
    hide LinkInv, DoData, Accepts, Got, CrossInv, QueueInv;
    DataWindow(p, q, s);
  }

  // The frame of a number in flight arrives.
  lemma ArriveStep(n: Net, side: Side, s: u32)
    requires NetInv(n) && s in Tx(n, side).tx.unacked && WasSent(Tx(n, side).tx, s)
    ensures Fits(Tx(n, side).msgs) && s < Total(Tx(n, side).msgs)
    ensures var step: Step := (Other(side), Action.Ingest(Wire(Tx(n, side).msgs, s)));
            && Enabled(At(n, step.0), At(n, Other(step.0)), step.1)
            && NetInv(Next(n, step)) && Tx(Next(n, step), side) == Tx(n, side)
            && Rx(Next(n, step), side) == DoData(Rx(n, side), Tx(n, side).msgs, s)
  {
    hide Next, DoIngest, DoData, WasSent, LinkInv, Wire, Fits, Total, DecodeInner, Act;
    var p, q, them := Tx(n, side), Rx(n, side), At(n, Other(side));
    NetLinkAt(n, side);
    OnWire(p, q, s);
    IngestData(them, p, Wire(p.msgs, s));
    NextIngest(n, Other(side), Wire(p.msgs, s));
    hide NetInv;
    NextKeeps(n, (Other(side), Action.Ingest(Wire(p.msgs, s))));
  }

  lemma DeliverOne(n: Net, side: Side, s: u32) returns (step: Step)
    requires NetInv(n) && s in Tx(n, side).tx.unacked && WasSent(Tx(n, side).tx, s)
    requires forall x: nat :: x < s ==> x in Rx(n, side).G()
    ensures step.0 == Other(side) && step.1.Ingest? && Enabled(At(n, step.0), At(n, Other(step.0)), step.1)
    ensures var n' := Next(n, step);
            && NetInv(n') && Tx(n', side) == Tx(n, side)
            && s in Rx(n', side).G() && Rx(n, side).G() <= Rx(n', side).G()
            && Rx(n', side).acks == Rx(n, side).acks + [(Rx(n', side).rx.base, Rx(n', side).rx.bits)]
  {
    hide NetInv, LinkInv, Next, Enabled, DoData, Got, Wire, Fits, Total, Tx, Rx, At;
    ArriveStep(n, side, s);
    NetLinkAt(n, side);
    step := (Other(side), Action.Ingest(Wire(Tx(n, side).msgs, s)));
    AcceptedInOrder(Tx(n, side), Rx(n, side), s);
    hide WasSent;
    DataBase(Rx(n, side), Tx(n, side).msgs, s);
  }

  // The frame of any number in flight is on the wire.
  lemma OnWire(p: TxSide, q: RxSide, s: u32)
    requires LinkInv(p, q) && s in p.tx.unacked && WasSent(p.tx, s)
    ensures Fits(p.msgs) && s < Total(p.msgs) && Wire(p.msgs, s) in p.frames
    ensures DecodeInner(Wire(p.msgs, s)).Ok? && DecodeInner(Wire(p.msgs, s)).value.Data?
            && DecodeInner(Wire(p.msgs, s)).value.seqno == s
  {
    assert p.tx.unacked[s].plaintext == Wire(p.msgs, s);
    WireDecodes(p.msgs, s);
    hide CrossInv, RecvInv, WindowInv, RetryInv, AheadInv, HonestInv, BudgetInv, Wire, Total, Fids, Owner, Chunk;
  }

  // ks are the numbers in flight, in ascending order.
  ghost predicate InFlightKeys(tx: Sender, ks: seq<int>) {
    Ascending(ks) && forall k :: k in ks <==> k in tx.unacked && tx.unacked[k].lastSent.Some?
  }

  // The first i of the numbers in flight have been accepted.
  ghost predicate Accepted(q: RxSide, ks: seq<int>, i: nat) {
    i <= |ks| && forall j :: 0 <= j < i ==> ks[j] in q.G()
  }

  lemma SentBelow(p: TxSide, q: RxSide, x: u32, s: u32)
    requires LinkInv(p, q) && x in p.tx.unacked && s in p.tx.unacked && x < s && p.tx.unacked[s].lastSent.Some?
    ensures p.tx.unacked[x].lastSent.Some?
  {
    assert WindowInv(p.tx);
    hide LinkInv, InFlight;
    assert WasSent(p.tx, s);
    assert WasSent(p.tx, x);
  }

  lemma GoneIsAccepted(p: TxSide, q: RxSide, x: nat, s: u32)
    requires LinkInv(p, q) && s in p.tx.unacked && x < s && x !in p.tx.unacked
    ensures x in q.G()
  {
    assert CrossInv(p, q) && QueueInv(p);
    hide LinkInv, Got, Wire, Fits, Total, Fids;
  }

  // Below the i-th number in flight, everything is accepted once the first i have been.
  lemma BelowNext(p: TxSide, q: RxSide, ks: seq<int>, i: nat)
    requires LinkInv(p, q) && InFlightKeys(p.tx, ks) && i < |ks| && Accepted(q, ks, i)
    ensures ks[i] in p.tx.unacked && p.tx.unacked[ks[i] as u32].lastSent.Some?
    ensures forall x: nat :: x < ks[i] ==> x in q.G()
  {
    hide LinkInv, Got;
    assert ks[i] in ks;
    var s: u32 := ks[i];
    forall x: nat | x < s ensures x in q.G() {
      if x in p.tx.unacked {
        SentBelow(p, q, x, s);
        assert x in ks;
        var j :| 0 <= j < |ks| && ks[j] == x;
      } else {
        GoneIsAccepted(p, q, x, s);
      }
    }
  }

  lemma AcceptedNext(q: RxSide, q': RxSide, ks: seq<int>, i: nat)
    requires Accepted(q, ks, i) && i < |ks| && q.G() <= q'.G() && ks[i] in q'.G()
    ensures Accepted(q', ks, i + 1)
  {
    hide Got;
  }

  // The peer's last ACK says what it has accepted.
  ghost predicate LastAckCurrent(q: RxSide) {
    q.acks != [] && q.acks[|q.acks| - 1] == (q.rx.base, q.rx.bits)
  }

  ghost predicate OnlyTo(mid: seq<Step>, side: Side) {
    forall i :: 0 <= i < |mid| ==> mid[i].0 == side && mid[i].1.Ingest?
  }

  lemma {:induction false} DeliverFirst(n: Net, side: Side, ks: seq<int>, i: nat) returns (mid: seq<Step>)
    requires NetInv(n) && InFlightKeys(Tx(n, side).tx, ks) && i <= |ks|
    ensures OnlyTo(mid, Other(side)) && AllEnabled(n, mid)
    ensures var n' := Follow(n, mid);
            && NetInv(n') && Tx(n', side) == Tx(n, side) && Accepted(Rx(n', side), ks, i)
            && (i > 0 ==> LastAckCurrent(Rx(n', side)))
  {
    hide NetInv, LinkInv, Next, Got, Enabled, Tx, Rx, InFlightKeys;
    if i == 0 {
      mid := [];
    } else {
      var init := DeliverFirst(n, side, ks, i - 1);
      hide Follow, AllEnabled, Accepted;
      var n1 := Follow(n, init);
      NetLinkAt(n1, side);
      BelowNext(Tx(n1, side), Rx(n1, side), ks, i - 1);
      var step := DeliverOne(n1, side, ks[i - 1]);
      mid := init + [step];
      AcceptedNext(Rx(n1, side), Rx(Next(n1, step), side), ks, i - 1);
      FollowAppend(n, init, [step]);
      FollowOne(n1, step);
      EnabledOne(n1, step);
      EnabledAppend(n, init, [step]);
    }
  }

  lemma NetLinkAt(n: Net, side: Side)
    requires NetInv(n)
    ensures LinkInv(Tx(n, side), Rx(n, side))
  {
    hide LinkInv;
  }

  ghost predicate AllUnsentYet(tx: Sender) {
    forall k :: k in tx.unacked ==> tx.unacked[k].lastSent.None?
  }

  // A flush of a queue of which nothing was sent yet sends something and does not give up.
  lemma FlushSends(p: TxSide, now: nat)
    requires WindowInv(p.tx) && RetryInv(p) && AheadInv(p.tx) && now >= p.clock && AllUnsentYet(p.tx) && p.tx.unacked != map[]
    ensures TakeRetransmits(DoNewSends(p, now).tx, now).1.Ok?
    ensures var p2 := DoRetransmits(DoNewSends(p, now), now);
            && p2.msgs == p.msgs && p2.clock == now && p2.tx.unacked.Keys == p.tx.unacked.Keys
            && exists k :: k in p2.tx.unacked && p2.tx.unacked[k].lastSent.Some?
  {
    hide InFlight, DoNewSends, DoRetransmits, Plaintexts;
    var m := HasLowest(p.tx);
    NewSendsReachLowest(p, now, m);
    var p1 := DoNewSends(p, now);
    OneAttempt(p, now);
    NoneStuck(p1.tx, now);
    FlushKeepsQueue(p, now, m);
    RetransmitsState(p1, now);
    var p2 := DoRetransmits(p1, now);
    assert p1.tx.maxAttempts == 5;
    assert forall k :: k in p2.tx.unacked.Keys <==> k in p1.tx.unacked.Keys;
    SentUnchanged(p1.tx, p2.tx, ResentKeys(p1.tx, now), now);
    hide Resent, ResentKeys, LowestUnacked;
    assert WasSent(p2.tx, m) && m in p2.tx.unacked;
  }

  lemma OneAttempt(p: TxSide, now: nat)
    requires WindowInv(p.tx) && RetryInv(p) && AllUnsentYet(p.tx)
    ensures var p1 := DoNewSends(p, now);
            p1.tx.maxAttempts == 5 && forall k :: k in p1.tx.unacked ==> p1.tx.unacked[k].attempts <= 1
  {
    NewSendsMeaning(p, now);
    hide DoNewSends, NewSendKeys, Plaintexts, InFlight, TimeInv;
    forall k | k in p.tx.unacked ensures p.tx.unacked[k].attempts == 0 {
      assert AttemptInv(p.tx.unacked[k], p.tx.maxAttempts);
    }
  }

  lemma NoneStuck(tx: Sender, now: nat)
    requires tx.maxAttempts == 5 && forall k :: k in tx.unacked ==> tx.unacked[k].attempts <= 1
    ensures StuckKeys(tx, now) == {} && TakeRetransmits(tx, now).1.Ok?
  {
    hide Plaintexts, Select, Sorted, Due;
  }

  // Once everything in flight is accepted, the peer's ACK leaves only frames never sent.
  lemma AckClears(p: TxSide, q: RxSide, ks: seq<int>)
    requires LinkInv(p, q) && InFlightKeys(p.tx, ks) && ks != [] && Accepted(q, ks, |ks|)
    ensures var p' := DoAck(p, q.rx.base, q.rx.bits);
            && p'.msgs == p.msgs && p'.clock == p.clock
            && AllUnsentYet(p'.tx) && |p'.tx.unacked| < |p.tx.unacked|
  {
    hide LinkInv, Got;
    AckMeaning(p, q, q.rx.base, q.rx.bits);
    var p' := DoAck(p, q.rx.base, q.rx.bits);
    AckLeaves(p, q.rx.base, q.rx.bits);
    hide DoAck;
    assert ks[0] in ks;
    Shrinks(p.tx, p'.tx, q.G(), ks[0]);
    AllIn(q, ks);
  }

  lemma AllIn(q: RxSide, ks: seq<int>)
    requires Accepted(q, ks, |ks|)
    ensures forall k: nat :: k in ks ==> k in q.G()
  {
    hide Got;
    forall k: nat | k in ks ensures k in q.G() {
      var j :| 0 <= j < |ks| && ks[j] == k;
    }
  }

  lemma HasInFlightKeys(tx: Sender) returns (ks: seq<int>)
    ensures InFlightKeys(tx, ks)
  {
    ks := Sorted(SentKeys(tx.unacked));
  }

  /**
   One turn of a wait: the session flushes, the peer takes in everything in flight, and its last ACK comes
   back. Nothing in flight remains, and the queue is shorter.
  */
  lemma TurnClears(n: Net, side: Side, now: nat) returns (mid: seq<Step>, base: u32, bits: u64)
    requires NetInv(n) && now >= Tx(n, side).clock && AllUnsentYet(Tx(n, side).tx) && Tx(n, side).tx.unacked != map[]
    ensures TakeRetransmits(DoNewSends(Tx(n, side), now).tx, now).1.Ok?
    ensures OnlyTo(mid, Other(side))
    ensures var flush: seq<Step> := [(side, NewSends(now)), (side, Retransmits(now))];
            var last: Step := (side, Action.Ingest(EncodeAck(base, bits)));
            var n1 := Follow(n, flush);
            var n3 := Follow(n, flush + mid + [last]);
            && AllEnabled(n, flush + mid + [last])
            && Tx(n1, side) == DoRetransmits(DoNewSends(Tx(n, side), now), now)
            && NetInv(n3) && AllUnsentYet(Tx(n3, side).tx) && |Tx(n3, side).tx.unacked| < |Tx(n, side).tx.unacked|
            && Tx(n3, side).clock == now && Tx(n3, side).msgs == Tx(n, side).msgs
  {
    hide NetInv, LinkInv, Next, Got, Enabled, InFlightKeys, AllUnsentYet, DoNewSends, DoRetransmits, DoAck, EncodeAck;
    var flush: seq<Step> := [(side, NewSends(now)), (side, Retransmits(now))];
    FlushTaken(n, side, now);
    var n1 := Follow(n, flush);
    var ks := HasInFlightKeys(Tx(n1, side).tx);
    hide Tx, Rx, Follow, AllEnabled;
    SomeInFlight(Tx(n1, side).tx, ks);
    mid := DeliverFirst(n1, side, ks, |ks|);
    var n2 := Follow(n1, mid);
    NetLinkAt(n2, side);
    AckClears(Tx(n2, side), Rx(n2, side), ks);
    base, bits := Rx(n2, side).rx.base, Rx(n2, side).rx.bits;
    var last: Step := (side, Action.Ingest(EncodeAck(base, bits)));
    AckTaken(n2, side, base, bits);
    FollowAppend(n, flush, mid);
    FollowAppend(n, flush + mid, [last]);
    FollowOne(n2, last);
    EnabledAppend(n, flush, mid);
    EnabledOne(n2, last);
    EnabledAppend(n, flush + mid, [last]);
    SameSize(Tx(n, side).tx.unacked, Tx(n1, side).tx.unacked);
  }

  lemma SameSize(u: map<u32, Outgoing>, u': map<u32, Outgoing>)
    requires u.Keys == u'.Keys
    ensures |u| == |u'|
  {
    assert |u| == |u.Keys| && |u'| == |u'.Keys|;
  }

  lemma SomeInFlight(tx: Sender, ks: seq<int>)
    requires InFlightKeys(tx, ks) && exists k :: k in tx.unacked && tx.unacked[k].lastSent.Some?
    ensures ks != []
  {
    var k :| k in tx.unacked && tx.unacked[k].lastSent.Some?;
    assert k in ks;
  }

  // The flush of such a turn.
  lemma FlushTaken(n: Net, side: Side, now: nat)
    requires NetInv(n) && now >= Tx(n, side).clock && AllUnsentYet(Tx(n, side).tx) && Tx(n, side).tx.unacked != map[]
    ensures TakeRetransmits(DoNewSends(Tx(n, side), now).tx, now).1.Ok?
    ensures var flush: seq<Step> := [(side, NewSends(now)), (side, Retransmits(now))];
            var n1 := Follow(n, flush);
            && AllEnabled(n, flush) && NetInv(n1)
            && Tx(n1, side) == DoRetransmits(DoNewSends(Tx(n, side), now), now)
            && Tx(n1, side).msgs == Tx(n, side).msgs && Tx(n1, side).clock == now
            && Tx(n1, side).tx.unacked.Keys == Tx(n, side).tx.unacked.Keys
            && exists k :: k in Tx(n1, side).tx.unacked && Tx(n1, side).tx.unacked[k].lastSent.Some?
  {
    hide NetInv, Next, DoNewSends, DoRetransmits, AllUnsentYet;
    SendPart(n, side);
    FlushSends(Tx(n, side), now);
    BothSteps(n, side, now);
  }

  lemma SendPart(n: Net, side: Side)
    requires NetInv(n)
    ensures WindowInv(Tx(n, side).tx) && RetryInv(Tx(n, side)) && AheadInv(Tx(n, side).tx)
  {
    hide CrossInv, RecvInv, QueueInv, WindowInv, RetryInv, AheadInv, HonestInv, BudgetInv, OutInv;
  }

  // A session's flush, on a network.
  lemma BothSteps(n: Net, side: Side, now: nat)
    requires NetInv(n) && now >= Tx(n, side).clock
    ensures var flush: seq<Step> := [(side, NewSends(now)), (side, Retransmits(now))];
            AllEnabled(n, flush) && NetInv(Follow(n, flush))
            && Tx(Follow(n, flush), side) == DoRetransmits(DoNewSends(Tx(n, side), now), now)
  {
    hide NetInv, Next, DoNewSends, DoRetransmits, Follow, AllEnabled;
    var s1: Step, s2: Step := (side, NewSends(now)), (side, Retransmits(now));
    var n1 := Next(n, s1);
    NextNewSends(n, side, now);
    ClockMoves(Tx(n, side), now);
    ScanStep(n1, side, now);
    NextKeeps(n, s1);
    NextKeeps(n1, s2);
    hide Tx;
    assert [s1] + [s2] == [s1, s2];
    FollowOne(n, s1);
    FollowOne(n1, s2);
    FollowAppend(n, [s1], [s2]);
    EnabledFlush(n, side, now, s1);
    EnabledFlush(n1, side, now, s2);
    EnabledAppend(n, [s1], [s2]);
  }

  lemma EnabledFlush(n: Net, side: Side, now: nat, s: Step)
    requires now >= Tx(n, side).clock && (s == (side, NewSends(now)) || s == (side, Retransmits(now)))
    ensures AllEnabled(n, [s])
  {
    hide AllEnabled, Emitted;
    EnabledOne(n, s);
  }

  lemma ClockMoves(p: TxSide, now: nat)
    ensures DoNewSends(p, now).clock == now
  {}

  lemma AckTaken(n: Net, side: Side, base: u32, bits: u64)
    requires NetInv(n) && LastAckCurrent(Rx(n, side)) && (base, bits) == (Rx(n, side).rx.base, Rx(n, side).rx.bits)
    ensures var last: Step := (side, Action.Ingest(EncodeAck(base, bits)));
            && Enabled(At(n, side), At(n, Other(side)), last.1)
            && NetInv(Next(n, last)) && Tx(Next(n, last), side) == DoAck(Tx(n, side), base, bits)
  {
    hide NetInv, Next, DoAck, EncodeAck, Enabled, Tx;
    var k := |Rx(n, side).acks| - 1;
    assert Rx(n, side).acks[k] == (base, bits);
    AckStep(n, side, k);
    AckEmitted(n, side, k);
    hide Rx;
    NextKeeps(n, (side, Action.Ingest(EncodeAck(base, bits))));
  }

  lemma AckEmitted(n: Net, side: Side, k: nat)
    requires k < |Rx(n, side).acks|
    ensures Enabled(At(n, side), At(n, Other(side)), Action.Ingest(EncodeAck(Rx(n, side).acks[k].0, Rx(n, side).acks[k].1)))
  {
    hide EncodeAck;
  }

  /* ---- a wait that succeeds ---- */

  // What the endpoints of an admissible schedule and the network say of each other.
  lemma SameState(schedule: seq<Step>, side: Side)
    requires Admissible(schedule)
    ensures var n, s := Exec(schedule), Replay(Own(schedule, side));
            && NetInv(n) && s.tx == Tx(n, side).tx && s.sent == Tx(n, side).msgs && Clock(Own(schedule, side)) == Tx(n, side).clock
    ensures var there := Replay(Own(schedule, Other(side)));
            there.received + there.rx.delivered == Rx(Exec(schedule), side).History()
  {
    hide Exec, Replay, Clock, Own, Project, Admissible, Emitted, NetInv;
    Always(schedule);
    Composes(schedule, side);
    Composes(schedule, Other(side));
    LocalView(schedule, side);
    LocalView(schedule, Other(side));
  }

  lemma FlushedTx(s: Local, p: TxSide, now: nat)
    requires s.tx == p.tx
    ensures Flushed(s, now).state.tx == DoRetransmits(DoNewSends(p, now), now).tx
    ensures Flushed(s, now).result.Ok? <==> TakeRetransmits(DoNewSends(p, now).tx, now).1.Ok?
  {
    hide TakeNewSends, TakeRetransmits, NewSendKeys;
  }

  // A wait whose first turn goes on.
  lemma WaitCons(s: Local, turn: Turn, rest: seq<Turn>)
    requires Reaches(rest, 1) && turn.checkAt == 0
    requires Flushed(s, turn.flushAt).result.Ok? && Flushed(s, turn.flushAt).state.tx.unacked != map[]
    requires Arrived(Flushed(s, turn.flushAt).state, turn.frame).result.Ok?
    ensures Reaches([turn] + rest, 1)
    ensures var f := Flushed(s, turn.flushAt);
            var a := Arrived(f.state, turn.frame);
            Wait(s, [turn] + rest, 1) == After(f.acts + a.acts, Wait(a.state, rest, 1))
  {
    hide Flushed, Arrived;
    var i :| 0 <= i < |rest| && rest[i].checkAt >= 1;
    assert ([turn] + rest)[i + 1] == rest[i];
    assert ([turn] + rest)[1..] == rest && ([turn] + rest)[0] == turn;
    var f := Flushed(s, turn.flushAt);
    assert |f.state.tx.unacked| != 0;
  }

  lemma WaitNothing(s: Local, now: nat)
    requires s.tx.unacked == map[]
    ensures Reaches([Turn(now, 1, None)], 1)
    ensures Wait(s, [Turn(now, 1, None)], 1).result == Ok(())
    ensures Wait(s, [Turn(now, 1, None)], 1).acts == [NewSends(now), Retransmits(now)]
  {
    var turns := [Turn(now, 1, None)];
    assert turns[0].checkAt >= 1;
    FlushedIdle(s, now);
    assert Flushed(s, now).acts == [NewSends(now), Retransmits(now)];
    hide Flushed, Arrived;
  }

  lemma OwnFlush(side: Side, now: nat)
    ensures Own([(side, NewSends(now)), (side, Retransmits(now))], side) == [NewSends(now), Retransmits(now)]
    ensures Own([(side, NewSends(now)), (side, Retransmits(now))], Other(side)) == []
  {
    var flush: seq<Step> := [(side, NewSends(now)), (side, Retransmits(now))];
    assert flush[..1] == [(side, NewSends(now))] && flush[..1][..0] == [];
    assert Own(flush[..1], side) == [NewSends(now)] && Own(flush[..1], Other(side)) == [];
  }

  lemma OwnOne(s: Step, side: Side)
    ensures Own([s], side) == if s.0 == side then [s.1] else []
  {
    assert [s][..0] == [];
    assert Own([], side) == [];
  }

  // What such a turn is on this side.
  lemma OwnTurn(side: Side, now: nat, mid: seq<Step>, f: bytes)
    requires OnlyTo(mid, Other(side))
    ensures Own([(side, NewSends(now)), (side, Retransmits(now))] + mid + [(side, Action.Ingest(f))], side)
         == [NewSends(now), Retransmits(now)] + [Action.Ingest(f)]
  {
    var flush: seq<Step> := [(side, NewSends(now)), (side, Retransmits(now))];
    OwnFlush(side, now);
    OwnOfOther(mid, side);
    OwnOne((side, Action.Ingest(f)), side);
    OwnAppend(flush, mid, side);
    OwnAppend(flush + mid, [(side, Action.Ingest(f))], side);
    hide Own;
    assert [NewSends(now), Retransmits(now)] + [] == [NewSends(now), Retransmits(now)];
  }

  // The turn, in the session's terms.
  lemma TurnTaken(schedule: seq<Step>, side: Side) returns (turn: Turn, more: seq<Step>)
    requires Admissible(schedule) && AllUnsentYet(Replay(Own(schedule, side)).tx) && Replay(Own(schedule, side)).tx.unacked != map[]
    ensures Admissible(schedule + more) && turn.checkAt == 0
    ensures var s, s' := Replay(Own(schedule, side)), Replay(Own(schedule + more, side));
            var f := Flushed(s, turn.flushAt);
            var a := Arrived(f.state, turn.frame);
            && f.result.Ok? && f.state.tx.unacked != map[] && a.result.Ok? && a.state == s'
            && Own(schedule + more, side) == Own(schedule, side) + (f.acts + a.acts)
            && AllUnsentYet(s'.tx) && |s'.tx.unacked| < |s.tx.unacked|
  {
    hide Exec, Replay, Own, Admissible, NetInv, AllUnsentYet, AllEnabled, Follow, DoNewSends, DoRetransmits, EncodeAck, Flushed, Arrived, OnlyTo;
    SameState(schedule, side);
    var n, trace := Exec(schedule), Own(schedule, side);
    var now := Clock(trace);
    hide Clock, Tx, Rx;
    var mid, base, bits := TurnClears(n, side, now);
    var ack := EncodeAck(base, bits);
    more := [(side, NewSends(now)), (side, Retransmits(now))] + mid + [(side, Action.Ingest(ack))];
    turn := Turn(now, 0, Some(ack));
    AdmissibleMore(schedule, more);
    ExecFollow(schedule, more);
    SameState(schedule + more, side);
    OwnAppend(schedule, more, side);
    OwnTurn(side, now, mid, ack);
    var s := Replay(trace);
    FlushedTx(s, Tx(n, side), now);
    DecodeEncodeAck(base, bits);
    TurnState(trace, now, ack);
    FlushedKeeps(s, now);
    StillQueued(s.tx.unacked, Flushed(s, now).state.tx.unacked);
  }

  lemma StillQueued(u: map<u32, Outgoing>, u': map<u32, Outgoing>)
    requires u.Keys == u'.Keys && u != map[]
    ensures u' != map[]
  {
    SameKeysEmpty(u, u');
  }

  lemma TurnState(trace: seq<Action>, now: nat, ack: bytes)
    requires DecodeInner(ack).Ok?
    ensures var f := Flushed(Replay(trace), now);
            var a := Arrived(f.state, Some(ack));
            && a.result.Ok?
            && f.acts + a.acts == [NewSends(now), Retransmits(now)] + [Action.Ingest(ack)]
            && Replay(trace + (f.acts + a.acts)) == a.state
  {
    hide Replay, DecodeInner;
    var f := Flushed(Replay(trace), now);
    var a := Arrived(f.state, Some(ack));
    assert f.acts == [NewSends(now), Retransmits(now)] && a.acts == [Action.Ingest(ack)];
    ArrivedOk(f.state, ack);
    FlushedLeads(trace, now);
    LeadsTo(trace, f.acts, f.state);
    ArrivedLeads(trace + f.acts, Some(ack));
    LeadsTo(trace + f.acts, a.acts, a.state);
    assert trace + (f.acts + a.acts) == trace + f.acts + a.acts;
  }

  lemma {:induction false} WaitSucceeds(schedule: seq<Step>, side: Side) returns (turns: seq<Turn>, more: seq<Step>)
    requires Admissible(schedule) && AllUnsentYet(Replay(Own(schedule, side)).tx)
    ensures Reaches(turns, 1) && Admissible(schedule + more)
    ensures var w := Wait(Replay(Own(schedule, side)), turns, 1);
            w.result == Ok(()) && Own(schedule + more, side) == Own(schedule, side) + w.acts
    decreases |Replay(Own(schedule, side)).tx.unacked|
  {
    hide Exec, Replay, Own, Admissible, AllUnsentYet, Wait, Flushed, Arrived, Reaches;
    var trace := Own(schedule, side);
    var s := Replay(trace);
    if s.tx.unacked == map[] {
      turns, more := LastTurn(schedule, side);
    } else {
      var turn, first := TurnTaken(schedule, side);
      var rest, later := WaitSucceeds(schedule + first, side);
      WaitCons(s, turn, rest);
      turns, more := [turn] + rest, first + later;
      assert schedule + more == schedule + first + later;
      var f := Flushed(s, turn.flushAt);
      var a := Arrived(f.state, turn.frame);
      var w := Wait(a.state, rest, 1);
      assert trace + (f.acts + a.acts) + w.acts == trace + (f.acts + a.acts + w.acts);
    }
  }

  lemma LastTurn(schedule: seq<Step>, side: Side) returns (turns: seq<Turn>, more: seq<Step>)
    requires Admissible(schedule) && Replay(Own(schedule, side)).tx.unacked == map[]
    ensures Reaches(turns, 1) && Admissible(schedule + more)
    ensures var w := Wait(Replay(Own(schedule, side)), turns, 1);
            w.result == Ok(()) && Own(schedule + more, side) == Own(schedule, side) + w.acts
  {
    hide Exec, Replay, Own, Admissible, Wait, Reaches, AllEnabled, Follow, NetInv;
    SameState(schedule, side);
    var now := Clock(Own(schedule, side));
    WaitNothing(Replay(Own(schedule, side)), now);
    turns := [Turn(now, 1, None)];
    more := [(side, NewSends(now)), (side, Retransmits(now))];
    BothSteps(Exec(schedule), side, now);
    AdmissibleMore(schedule, more);
    OwnAppend(schedule, more, side);
    OwnFlush(side, now);
  }

  /* ---- a send that succeeds ---- */

  lemma EnqueueUnsent(s: Local, m: bytes)
    requires s.tx.unacked == map[] && NumFrames(m) <= MAX_FRAGMENTS
    ensures ArqModel.Enqueue(s.tx, m).1.Ok?
    ensures AllUnsentYet(Do(s, Action.Enqueue(m)).tx) && Do(s, Action.Enqueue(m)).sent == s.sent + [m]
  {
    AddsUnsent(s.tx.nextSeq, 0, m, NumFrames(m));
    AddsUnsent(s.tx.nextSeq, s.tx.nextFragId, m, NumFrames(m));
    hide AddFrames;
  }

  lemma {:induction false} AddsUnsent(start: u32, fid: u16, m: bytes, n: nat)
    requires n <= NumFrames(m) <= MAX_FRAGMENTS
    ensures forall k :: k in AddFrames(map[], start, fid, m, n) ==> AddFrames(map[], start, fid, m, n)[k].lastSent.None?
  {
    hide NumFrames, EncodeData, Chunk;
    if n > 0 { AddsUnsent(start, fid, m, n - 1); }
  }

  // The message is enqueued.
  lemma EnqueueTaken(schedule: seq<Step>, side: Side, m: bytes)
    requires Admissible(schedule) && Replay(Own(schedule, side)).tx.unacked == map[]
    requires NumFrames(m) <= MAX_FRAGMENTS && Total(Replay(Own(schedule, side)).sent) + NumFrames(m) <= SEQ_LIMIT
    ensures var longer: seq<Step>, s, e := schedule + [(side, Action.Enqueue(m))], Replay(Own(schedule, side)), Action.Enqueue(m);
            && Admissible(longer) && Own(longer, side) == Own(schedule, side) + [e]
            && Replay(Own(longer, side)) == Do(s, e)
            && AllUnsentYet(Do(s, e).tx) && Do(s, e).sent == s.sent + [m]
            && (Polite(Own(schedule, side)) ==> Polite(Own(longer, side)))
  {
    hide Exec, Replay, Own, Admissible, Polite, AllUnsentYet, Do, Enabled, Total, NumFrames;
    EnqueueEnabled(schedule, side, m);
    AdmissibleNext(schedule, (side, Action.Enqueue(m)));
    OwnAppend(schedule, [(side, Action.Enqueue(m))], side);
    OwnOne((side, Action.Enqueue(m)), side);
    ReplayNext(Own(schedule, side), Action.Enqueue(m));
    EnqueueUnsent(Replay(Own(schedule, side)), m);
  }

  lemma SendUnfolds(s: Local, m: bytes, turns: seq<Turn>)
    requires Reaches(turns, 1) && NumFrames(m) <= MAX_FRAGMENTS
    ensures Send(s, m, turns, 1) == After([Action.Enqueue(m)], Wait(Do(s, Action.Enqueue(m)), turns, 1))
  {
    hide Wait, Do, AddFrames;
  }

  // Where such a wait leaves things.
  lemma WaitLeaves(trace: seq<Action>, turns: seq<Turn>)
    requires Reaches(turns, 1) && Wait(Replay(trace), turns, 1).result == Ok(())
    ensures var late := trace + Wait(Replay(trace), turns, 1).acts;
            && Replay(late).tx.unacked == map[] && Replay(late).sent == Replay(trace).sent
            && (Polite(trace) ==> Polite(late))
  {
    hide Wait, Replay, Polite;
    WaitLeads(trace, turns, 1);
    WaitOutcome(Replay(trace), turns, 1);
  }

  /**
   Liveness: from any two endpoints talking over a network, with nothing of one side's unacknowledged, any
   message that fits can be sent with success: there are turns for which the send returns Ok, and what the
   peer does meanwhile, such that then the peer holds everything sent; in order, if sends were polite before.
  */
  lemma SendSucceeds(schedule: seq<Step>, side: Side, m: bytes) returns (turns: seq<Turn>, more: seq<Step>)
    requires Admissible(schedule) && Replay(Own(schedule, side)).tx.unacked == map[]
    requires |m| <= 261120 && Total(Replay(Own(schedule, side)).sent) + NumFrames(m) <= SEQ_LIMIT
    ensures Reaches(turns, 1) && Admissible(schedule + more)
    ensures var o := Send(Replay(Own(schedule, side)), m, turns, 1);
            o.result == Ok(()) && Own(schedule + more, side) == Own(schedule, side) + o.acts
    ensures var here, there := Replay(Own(schedule + more, side)), Replay(Own(schedule + more, Other(side)));
            && here.sent == Replay(Own(schedule, side)).sent + [m]
            && multiset(there.received + there.rx.delivered) == multiset(here.sent)
            && (Polite(Own(schedule, side)) ==> there.received + there.rx.delivered == here.sent)
  {
    hide Exec, Replay, Own, Admissible, Wait, Reaches, Polite, AllUnsentYet, Do, Send, Total;
    assert NumFrames(m) <= MAX_FRAGMENTS;
    hide NumFrames;
    var trace, e := Own(schedule, side), Action.Enqueue(m);
    var s: Local, longer: seq<Step> := Replay(trace), schedule + [(side, e)];
    EnqueueTaken(schedule, side, m);
    var later;
    turns, later := WaitSucceeds(longer, side);
    more := [(side, e)] + later;
    assert schedule + more == longer + later;
    SendUnfolds(s, m, turns);
    var w := Wait(Do(s, e), turns, 1);
    assert trace + [e] + w.acts == trace + ([e] + w.acts);
    WaitLeaves(trace + [e], turns);
    SentDelivered(schedule + more, side);
  }

  lemma EnqueueEnabled(schedule: seq<Step>, side: Side, m: bytes)
    requires Admissible(schedule) && Total(Replay(Own(schedule, side)).sent) + NumFrames(m) <= SEQ_LIMIT
    ensures Enabled(At(Exec(schedule), side), At(Exec(schedule), Other(side)), Action.Enqueue(m))
  {
    hide Exec, Replay, Own, Admissible, NetInv, Total, NumFrames;
    SameState(schedule, side);
  }

  // With nothing unacknowledged, what was sent has been delivered.
  lemma SentDelivered(schedule: seq<Step>, side: Side)
    requires Admissible(schedule) && Replay(Own(schedule, side)).tx.unacked == map[]
    ensures var here, there := Replay(Own(schedule, side)), Replay(Own(schedule, Other(side)));
            && multiset(there.received + there.rx.delivered) == multiset(here.sent)
            && (Polite(Own(schedule, side)) ==> there.received + there.rx.delivered == here.sent)
  {
    hide Exec, Replay, Own, Admissible, Polite, NetInv, Project;
    SameState(schedule, side);
    assert Reachable(Exec(schedule));
    SuccessMeansDelivered(Exec(schedule), side);
    if Polite(Own(schedule, side)) {
      Composes(schedule, side);
      Composes(schedule, Other(side));
      var here, there := Replay(Own(schedule, side)), Replay(Own(schedule, Other(side)));
      assert ReachedPolitely(here, there, side);
      EndToEnd(here, there, side);
    }
  }
}
