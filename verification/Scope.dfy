/** Why the theorems about runs stop where they do: what happens to the next sequence number. */
module Scope {
  import opened Words
  import opened Ordered
  import opened Frame
  import opened Window
  import opened ArqModel
  import opened Ledger
  import opened Reassembly
  import opened Link
  import opened Network
  import opened Delivery
  import opened Progress

  // The ACK a fresh receiver emits when the second frame overtakes the first.
  const OVERTAKEN: (u32, u64) := (0, 2)

  const ONE: Messages := [[]]
  const TWO: Messages := [[], []]

  lemma TwoFrames()
    ensures Total(ONE) == 1 && Total(TWO) == 2
  {
    assert TWO[..1] == ONE && ONE[..0] == [];
    assert Total(ONE) == 1;
  }

  lemma StepAcks(n: Net, step: Step, side: Side)
    ensures Rx(n, side).acks <= Rx(Next(n, step), side).acks
  {
    hide ArqModel.Enqueue, TakeNewSends, TakeRetransmits, ArqModel.Ingest, OnAck, NewSendKeys, Enabled, Plaintexts;
  }

  // ACKs once emitted stay emitted.
  lemma {:induction false} AcksGrow(run: seq<Step>, more: seq<Step>, side: Side)
    ensures Rx(Exec(run), side).acks <= Rx(Exec(run + more), side).acks
    decreases |more|
  {
    hide Next, Rx;
    if more == [] {
      assert run + more == run;
    } else {
      var init, last := more[..|more| - 1], more[|more| - 1];
      AcksGrow(run, init, side);
      assert run + more == (run + init) + [last];
      ExecNext(run + init, last);
      StepAcks(Exec(run + init), last, side);
    }
  }

  // Taking one step of side A.
  lemma EnqueueStep(run: seq<Step>) returns (longer: seq<Step>)
    requires CanEnqueue(Exec(run).a.out, [])
    ensures Exec(longer).a.out == DoEnqueue(Exec(run).a.out, []) && Exec(longer).b == Exec(run).b
  {
    var step: Step := (A, Action.Enqueue([]));
    longer := run + [step];
    ExecNext(run, step);
    hide Exec, Next, DoEnqueue;
    NextAct(Exec(run), A, Action.Enqueue([]));
  }

  lemma SendStep(run: seq<Step>) returns (longer: seq<Step>)
    requires Exec(run).a.out.clock == 0
    ensures Exec(longer).a.out == DoNewSends(Exec(run).a.out, 0) && Exec(longer).b == Exec(run).b
  {
    var step: Step := (A, NewSends(0));
    longer := run + [step];
    ExecNext(run, step);
    hide Exec, Next, DoNewSends;
    NextNewSends(Exec(run), A, 0);
  }

  // Two empty messages, both sent.
  lemma TwoSent() returns (run: seq<Step>)
    ensures var p := Exec(run).a.out;
            && p.msgs == TWO && p.clock == 0 && Exec(run).b.inn == NEW_RX
            && 1 in p.tx.unacked && WasSent(p.tx, 1)
  {
    ExecEmpty();
    TwoFrames();
    assert CanEnqueue(NEW_TX, []);
    hide Exec, DoEnqueue, DoNewSends, Total, WasSent;
    EnqueueEmpty(NEW_TX);
    var r1 := EnqueueStep([]);
    var p1 := Exec(r1).a.out;
    assert p1.msgs == ONE;
    EnqueueEmpty(p1);
    var r2 := EnqueueStep(r1);
    var p2 := Exec(r2).a.out;
    assert p2.msgs == TWO;
    assert p2.tx.unacked.Keys == {0, 1};
    run := SendStep(r2);
    SendBoth(p2);
  }

  lemma ExecEmpty()
    ensures Exec([]) == Net(NEW_PEER, NEW_PEER)
  {}

  lemma EnqueueEmpty(p: TxSide)
    requires p.tx.nextSeq < U32_MOD - 1
    ensures var s, p' := p.tx.nextSeq, DoEnqueue(p, []);
            && p'.msgs == p.msgs + [[]] && p'.clock == p.clock
            && p'.tx.nextSeq == s + 1
            && p'.tx.unacked == p.tx.unacked[s := FrameOf(s, 0, [], 0)]
  {
    hide FrameOf;
    assert AddFrames(p.tx.unacked, p.tx.nextSeq, 0, [], 0) == p.tx.unacked;
  }

  // A flush sends two unsent frames.
  lemma SendBoth(p: TxSide)
    requires p.tx.unacked.Keys == {0, 1} && p.tx.unacked[0].lastSent.None? && p.tx.unacked[1].lastSent.None?
    ensures var p' := DoNewSends(p, 0);
            p'.msgs == p.msgs && p'.clock == 0 && 1 in p'.tx.unacked && WasSent(p'.tx, 1)
  {
    var u, q := p.tx.unacked, NewSendKeys(p.tx.unacked);
    assert SentKeys(u) == {};
    assert UnsentKeys(u) == {0, 1};
    NewSendKeysMeaning(u);
    AscendingSetSize(q);
    SubsetSize(set k | k in q, {0, 1});
    assert 1 in q;
    NewSendsMeaning(p, 0);
    hide DoNewSends, NewSendKeys, InFlight;
  }

  // The second frame arrives first.
  lemma Overtake() returns (run: seq<Step>)
    ensures var p, q := Tx(Exec(run), A), Rx(Exec(run), A);
            p.msgs == TWO && p.clock == 0 && q.acks == [OVERTAKEN]
  {
    hide Exec, NetInv, LinkInv, WasSent, Wire, Fits, Total, DecodeInner, Next;
    var sent := TwoSent();
    var n := Exec(sent);
    Always(sent);
    NetLink(n);
    SentOnWire(n.a.out, n.b.inn, 1);
    var step: Step := (B, Action.Ingest(Wire(n.a.out.msgs, 1)));
    run := sent + [step];
    ExecNext(sent, step);
    SecondArrives(n);
  }

  lemma SecondArrives(n: Net)
    requires LinkInv(n.a.out, n.b.inn) && n.b.inn == NEW_RX
    requires Fits(n.a.out.msgs) && 1 < Total(n.a.out.msgs) && Wire(n.a.out.msgs, 1) in n.a.out.frames
    requires DecodeInner(Wire(n.a.out.msgs, 1)).Ok? && DecodeInner(Wire(n.a.out.msgs, 1)).value.Data?
             && DecodeInner(Wire(n.a.out.msgs, 1)).value.seqno == 1
    ensures var n' := Next(n, (B, Action.Ingest(Wire(n.a.out.msgs, 1))));
            n'.a == n.a && n'.b.inn.acks == [OVERTAKEN]
  {
    var p := n.a.out;
    hide LinkInv, Next, DoIngest, DoData, Wire, Fits, Total, DecodeInner, Mark;
    IngestData(n.b, p, Wire(p.msgs, 1));
    NextIngest(n, B, Wire(p.msgs, 1));
    DataBase(NEW_RX, p.msgs, 1);
    MarkSecond();
  }

  lemma NetLink(n: Net)
    requires NetInv(n)
    ensures LinkInv(n.a.out, n.b.inn)
  {}

  lemma MarkSecond()
    ensures Mark(0, 0, 1) == OVERTAKEN
  {
    assert MarkBit(0, 1) == 2;
  }

  lemma SentOnWire(p: TxSide, q: RxSide, s: u32)
    requires LinkInv(p, q) && s in p.tx.unacked && WasSent(p.tx, s)
    ensures Fits(p.msgs) && s < Total(p.msgs) && Wire(p.msgs, s) in p.frames
    ensures DecodeInner(Wire(p.msgs, s)).Ok? && DecodeInner(Wire(p.msgs, s)).value.Data?
            && DecodeInner(Wire(p.msgs, s)).value.seqno == s
  {
    assert p.tx.unacked[s].plaintext == Wire(p.msgs, s);
    WireDecodes(p.msgs, s);
    hide CrossInv, RecvInv, WindowInv, RetryInv, AheadInv, HonestInv, BudgetInv, Wire, Total, Fids, Owner, Chunk;
  }

  // n numbers used, all acknowledged, and that first ACK still about.
  ghost predicate UsedUp(run: seq<Step>, n: nat) {
    var p, q := Tx(Exec(run), A), Rx(Exec(run), A);
    Total(p.msgs) == n && p.tx.unacked == map[] && [OVERTAKEN] <= q.acks
  }

  lemma DrainUsesUp(run: seq<Step>, n: nat) returns (all: seq<Step>)
    requires Total(Tx(Exec(run), A).msgs) == n && [OVERTAKEN] <= Rx(Exec(run), A).acks
    ensures UsedUp(all, n)
  {
    hide Exec, Total;
    var more := Drain(run, A, Tx(Exec(run), A).clock);
    all := run + more;
    AcksGrow(run, more, A);
  }

  lemma OneMoreMessage(run: seq<Step>, n: nat) returns (longer: seq<Step>)
    requires UsedUp(run, n) && n < SEQ_LIMIT
    ensures Total(Tx(Exec(longer), A).msgs) == n + 1 && [OVERTAKEN] <= Rx(Exec(longer), A).acks
  {
    var state := Exec(run);
    Always(run);
    NetQueue(state);
    hide Exec, DoEnqueue, NetInv, Total;
    longer := EnqueueStep(run);
    EnqueueEmpty(state.a.out);
    Append(state.a.out.msgs, []);
  }

  lemma NetQueue(n: Net)
    requires NetInv(n)
    ensures Fits(n.a.out.msgs) && n.a.out.tx.nextSeq == Total(n.a.out.msgs) && n.b.inn.rx.base <= Total(n.a.out.msgs)
    ensures forall s :: s in Rx(n, A).G() ==> s < Total(n.a.out.msgs)
  {
    hide Wire, Total, Fids, WindowInv, RetryInv, AheadInv, HonestInv, BudgetInv, OutInv, AckInv, BufInv, HistoryInv, Got;
    BaseInScope(n.a.out, n.b.inn);
  }

  lemma {:induction false} LongRun(n: nat) returns (run: seq<Step>)
    requires 2 <= n <= SEQ_LIMIT
    ensures UsedUp(run, n)
  {
    var shorter: seq<Step>;
    if n == 2 {
      shorter := Overtake();
      assert Total(TWO) == 2 by { TwoFrames(); }
    } else {
      var before := LongRun(n - 1);
      shorter := OneMoreMessage(before, n - 1);
    }
    hide UsedUp, Exec, Total;
    run := DrainUsesUp(shorter, n);
  }

  /**
   The limit on allocated numbers is exact: some run uses up every number in scope, and one more enqueue
   followed by an old ACK of the peer leaves the sender with nothing unacknowledged, although the new
   number has neither been sent nor accepted.
  */
  lemma ScopeIsExact() returns (run: seq<Step>)
    ensures var p, q := Tx(Exec(run), A), Rx(Exec(run), A);
            var (tx', r) := ArqModel.Enqueue(p.tx, []);
            && Total(p.msgs) == SEQ_LIMIT && p.tx.unacked == map[] && OVERTAKEN in q.acks
            && r.Ok? && tx'.unacked.Keys == {SEQ_LIMIT} && tx'.unacked[SEQ_LIMIT].lastSent.None?
            && OnAck(tx', OVERTAKEN.0, OVERTAKEN.1).unacked == map[]
            && SEQ_LIMIT !in q.G()
  {
    run := LongRun(SEQ_LIMIT);
    Always(run);
    var n := Exec(run);
    NetQueue(n);
    hide Exec, NetInv, Total, Got;
    assert Rx(n, A).acks[0] == OVERTAKEN;
    StaleAckRemoves(n.a.out);
    assert SEQ_LIMIT !in Rx(n, A).G();
  }

  lemma StaleAckRemoves(p: TxSide)
    requires p.tx.nextSeq == SEQ_LIMIT && p.tx.unacked == map[]
    ensures var (tx', r) := ArqModel.Enqueue(p.tx, []);
            && r.Ok? && tx'.unacked.Keys == {SEQ_LIMIT} && tx'.unacked[SEQ_LIMIT].lastSent.None?
            && OnAck(tx', OVERTAKEN.0, OVERTAKEN.1).unacked == map[]
  {
    EnqueueEmpty(p);
    AckedExactly(0, 2, SEQ_LIMIT);
    hide Acked;
  }
}
