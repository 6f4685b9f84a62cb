/** From every reachable state the sender can be drained: nothing is ever stuck for good. */
module Progress {
  import opened Ordered
  import opened Frame
  import opened Window
  import opened ArqModel
  import opened Ledger
  import opened Reassembly
  import opened Link
  import opened Network
  import opened Delivery

  // A flush sends the lowest unacknowledged frame if it was never sent.
  lemma NewSendsReachLowest(p: TxSide, now: nat, m: nat)
    requires WindowInv(p.tx) && LowestUnacked(p.tx, m)
    ensures m in DoNewSends(p, now).tx.unacked && WasSent(DoNewSends(p, now).tx, m)
  {
    hide Ascending;
    var u, q := p.tx.unacked, NewSendKeys(p.tx.unacked);
    if u[m].lastSent.None? {
      forall k | k in u ensures u[k].lastSent.None? {
        if k != m { assert !WasSent(p.tx, m) ==> !WasSent(p.tx, k); }
      }
      assert SentKeys(u) == {};
      assert m in UnsentKeys(u);
      NewSendKeysMeaning(u);
      if |q| > 0 { assert q[0] in q; }
      assert m in q;
    }
    NewSendsMeaning(p, now);
    hide DoNewSends, NewSendKeys, InFlight, Plaintexts;
  }

  /**
   One exchange always helps: when the lowest unacknowledged frame m arrives, whether it is new to
   the peer or a duplicate, the ACK it provokes removes m from the sender's queue.
  */
  lemma Exchange(p: TxSide, q: RxSide, m: nat)
    requires LinkInv(p, q) && LowestUnacked(p.tx, m) && WasSent(p.tx, m)
    ensures var q' := DoData(q, p.msgs, m);
            && m in q'.G()
            && Removed(p.tx, DoAck(p, q'.rx.base, q'.rx.bits).tx, q'.G())
  {
    BaseSpan(p, q, m);
    var q' := DoData(q, p.msgs, m);
    DataKeeps(p, q, m);
    DataWindow(p, q, m);
    AckMeaning(p, q', q'.rx.base, q'.rx.bits);
    assert WindowOf(q.G(), q.rx.base);
    hide LinkInv, DoData, DoAck, Got, Accepts;
  }

  lemma ExecNext(run: seq<Step>, s: Step)
    ensures Exec(run + [s]) == Next(Exec(run), s)
  {
    assert (run + [s])[..|run|] == run;
  }

  lemma TxWindow(n: Net, side: Side)
    requires NetInv(n)
    ensures LinkInv(Tx(n, side), Rx(n, side)) && WindowInv(Tx(n, side).tx)
  {
    hide CrossInv, RecvInv, QueueInv, WindowInv, RetryInv, HonestInv, BudgetInv, OutInv;
  }

  lemma FlushStep(n: Net, side: Side, now: nat, m: nat)
    requires WindowInv(Tx(n, side).tx) && now >= Tx(n, side).clock && LowestUnacked(Tx(n, side).tx, m)
    ensures var n' := Next(n, (side, NewSends(now)));
            && Tx(n', side) == DoNewSends(Tx(n, side), now) && Rx(n', side) == Rx(n, side)
            && WasSent(Tx(n', side).tx, m)
  {
    hide WindowInv, DoNewSends, Next, WasSent, LowestUnacked;
    NewSendsReachLowest(Tx(n, side), now, m);
    NextNewSends(n, side, now);
  }

  // A flush changes no message, removes nothing and leaves the lowest number lowest.
  lemma FlushKeepsQueue(p: TxSide, now: nat, m: nat)
    requires WindowInv(p.tx) && LowestUnacked(p.tx, m)
    ensures var p' := DoNewSends(p, now);
            && p'.msgs == p.msgs && p'.clock == now
            && p'.tx.unacked.Keys == p.tx.unacked.Keys && LowestUnacked(p'.tx, m)
  {
    NewSendsMeaning(p, now);
    hide DoNewSends, NewSendKeys, InFlight, Plaintexts;
    var p' := DoNewSends(p, now);
    assert forall k :: k in p'.tx.unacked.Keys <==> k in p.tx.unacked.Keys;
  }

  // The frame of a number marked as sent is on the wire.
  lemma LowestOnWire(p: TxSide, q: RxSide, m: nat)
    requires LinkInv(p, q) && LowestUnacked(p.tx, m) && WasSent(p.tx, m)
    ensures Fits(p.msgs) && m < Total(p.msgs) && Wire(p.msgs, m) in p.frames && p.tx.unacked[m].plaintext == Wire(p.msgs, m)
    ensures DecodeInner(Wire(p.msgs, m)).Ok? && DecodeInner(Wire(p.msgs, m)).value.Data?
            && DecodeInner(Wire(p.msgs, m)).value.seqno == m
  {
    assert p.tx.unacked[m].plaintext == Wire(p.msgs, m);
    WireDecodes(p.msgs, m);
    hide CrossInv, RecvInv, WindowInv, RetryInv, HonestInv, BudgetInv, Wire, Total, Fids, Owner, Chunk;
  }

  lemma DataStep(n: Net, side: Side, m: nat)
    requires NetInv(n) && LowestUnacked(Tx(n, side).tx, m) && WasSent(Tx(n, side).tx, m)
    ensures Fits(Tx(n, side).msgs) && m < Total(Tx(n, side).msgs)
    ensures Tx(n, side).tx.unacked[m].plaintext == Wire(Tx(n, side).msgs, m)
    ensures var n' := Next(n, (Other(side), Action.Ingest(Wire(Tx(n, side).msgs, m))));
            && Tx(n', side) == Tx(n, side)
            && Rx(n', side) == DoData(Rx(n, side), Tx(n, side).msgs, m)
  {
    var p, q, them := Tx(n, side), Rx(n, side), At(n, Other(side));
    TxWindow(n, side);
    hide LinkInv, LowestUnacked, WasSent;
    LowestOnWire(p, q, m);
    IngestData(them, p, Wire(p.msgs, m));
    hide LinkInv, DoData, DoIngest, Wire, Fits, Total, DecodeInner, Next, LowestUnacked, WasSent;
    NextIngest(n, Other(side), Wire(p.msgs, m));
  }

  lemma AckStep(n: Net, side: Side, k: nat)
    requires k < |Rx(n, side).acks|
    ensures var (base, bits) := Rx(n, side).acks[k];
            var n' := Next(n, (side, Action.Ingest(EncodeAck(base, bits))));
            Tx(n', side) == DoAck(Tx(n, side), base, bits) && Rx(n', side) == Rx(n, side)
  {
    var (base, bits) := Rx(n, side).acks[k];
    IngestAck(At(n, side), Tx(n, Other(side)).msgs, base, bits);
    assert Emitted(At(n, Other(side)), EncodeAck(base, bits));
    hide Emitted, DoAck, DoIngest, EncodeAck, Next;
    NextIngest(n, side, EncodeAck(base, bits));
  }

  // Only flushes and deliveries.
  ghost predicate Quiet(run: seq<Step>) {
    forall i :: 0 <= i < |run| ==> run[i].1.NewSends? || run[i].1.Ingest?
  }

  // The peer's last ACK claims m and would remove exactly what it claims.
  ghost predicate Answered(p: TxSide, q: RxSide, m: nat) {
    && |q.acks| > 0 && q.acks[|q.acks| - 1] == (q.rx.base, q.rx.bits)
    && m in q.G()
    && Removed(p.tx, DoAck(p, q.rx.base, q.rx.bits).tx, q.G())
  }

  // Frame m is flushed if need be and reaches the peer.
  lemma SendLowest(n: Net, side: Side, now: nat, m: nat) returns (s1: Step, s2: Step)
    requires NetInv(n) && now >= Tx(n, side).clock && LowestUnacked(Tx(n, side).tx, m)
    ensures s1 == (side, NewSends(now))
    ensures m in Tx(Next(n, s1), side).tx.unacked && WasSent(Tx(Next(n, s1), side).tx, m)
    ensures s2 == (Other(side), Action.Ingest(Tx(Next(n, s1), side).tx.unacked[m].plaintext))
    ensures var n2 := Next(Next(n, s1), s2);
            var p, p2, q2 := Tx(n, side), Tx(n2, side), Rx(n2, side);
            p2.msgs == p.msgs && p2.clock == now && p2.tx.unacked.Keys == p.tx.unacked.Keys
            && p2 == DoNewSends(p, now) == Tx(Next(n, s1), side) && |q2.acks| == |Rx(n, side).acks| + 1
            && Answered(p2, q2, m)
  {
    s1 := (side, NewSends(now));
    var n1 := Next(n, s1);
    TxWindow(n, side);
    hide NetInv, LinkInv, Next, DoNewSends, WasSent, LowestUnacked, WindowInv, Tx, Rx, Answered;
    FlushStep(n, side, now, m);
    FlushKeepsQueue(Tx(n, side), now, m);
    NextKeeps(n, s1);
    s2 := DeliverLowest(n1, side, m);
  }

  lemma DeliverLowest(n1: Net, side: Side, m: nat) returns (s2: Step)
    requires NetInv(n1) && LowestUnacked(Tx(n1, side).tx, m) && WasSent(Tx(n1, side).tx, m)
    ensures s2 == (Other(side), Action.Ingest(Tx(n1, side).tx.unacked[m].plaintext))
    ensures var n2 := Next(n1, s2);
            Tx(n2, side) == Tx(n1, side) && Answered(Tx(n2, side), Rx(n2, side), m)
            && |Rx(n2, side).acks| == |Rx(n1, side).acks| + 1
  {
    hide NetInv, LinkInv, WindowInv, Next, DoData, OnAck, WasSent, Got, Wire, Fits, Total, Removed, LowestUnacked, Tx, Rx, Mark;
    TxWindow(n1, side);
    DataStep(n1, side, m);
    s2 := (Other(side), Action.Ingest(Wire(Tx(n1, side).msgs, m)));
    Exchange(Tx(n1, side), Rx(n1, side), m);
    DataBase(Rx(n1, side), Tx(n1, side).msgs, m);
  }

  lemma RoundShrinks(run: seq<Step>, side: Side, now: nat) returns (more: seq<Step>)
    requires now >= Tx(Exec(run), side).clock && Tx(Exec(run), side).tx.unacked != map[]
    ensures |more| == 3 && Quiet(more)
    ensures var p, p' := Tx(Exec(run), side), Tx(Exec(run + more), side);
            && p'.msgs == p.msgs && p'.clock == now
            && |p'.tx.unacked| < |p.tx.unacked|
  {
    hide NetInv, Next, Exec, OnAck, Got, EncodeAck, DoNewSends;
    Always(run);
    var n := Exec(run);
    var m := HasLowest(Tx(n, side).tx);
    assert m in Tx(n, side).tx.unacked.Keys;
    var s1, s2 := SendLowest(n, side, now, m);
    var n2 := Next(Next(n, s1), s2);
    hide LowestUnacked, WasSent;
    var k := |Rx(n2, side).acks| - 1;
    AckStep(n2, side, k);
    hide Tx, Rx;
    var s3: Step := (side, Action.Ingest(EncodeAck(Rx(n2, side).acks[k].0, Rx(n2, side).acks[k].1)));
    ThreeSteps(run, s1, s2, s3);
    more := [s1, s2, s3];
    Shrinks(Tx(n2, side).tx, Tx(Next(n2, s3), side).tx, Rx(n2, side).G(), m);
  }

  lemma ThreeSteps(run: seq<Step>, s1: Step, s2: Step, s3: Step)
    ensures Exec(run + [s1, s2, s3]) == Next(Next(Next(Exec(run), s1), s2), s3)
  {
    hide Next;
    ExecNext(run, s1);
    ExecNext(run + [s1], s2);
    ExecNext(run + [s1] + [s2], s3);
    assert run + [s1, s2, s3] == run + [s1] + [s2] + [s3];
  }

  lemma Shrinks(tx: Sender, tx': Sender, gone: set<nat>, m: nat)
    requires Removed(tx, tx', gone) && m in tx.unacked && m in gone
    ensures |tx'.unacked| < |tx.unacked|
  {
    assert m !in tx'.unacked;
    SubsetSize(tx'.unacked.Keys + {m}, tx.unacked.Keys);
  }

  /**
   Progress: from every reachable state, with no more than one exchange per unacknowledged frame and
   nothing but flushes and deliveries, the sender's queue empties; and then everything enqueued has
   been delivered.
  */
  lemma {:induction false} Drain(run: seq<Step>, side: Side, now: nat) returns (more: seq<Step>)
    requires now >= Tx(Exec(run), side).clock
    ensures |more| <= 3 * |Tx(Exec(run), side).tx.unacked| && Quiet(more)
    ensures var p, p', q' := Tx(Exec(run), side), Tx(Exec(run + more), side), Rx(Exec(run + more), side);
            && p'.msgs == p.msgs
            && p'.tx.unacked == map[]
            && multiset(q'.History()) == multiset(p.msgs)
    decreases |Tx(Exec(run), side).tx.unacked|
  {
    if Tx(Exec(run), side).tx.unacked == map[] {
      more := [];
      assert run + more == run;
    } else {
      var first := RoundShrinks(run, side, now);
      var rest := Drain(run + first, side, now);
      more := first + rest;
      assert run + more == (run + first) + rest;
    }
    SuccessMeansDelivered(Exec(run + more), side);
  }
}
