/**
 Two endpoints talking to each other: every run is a list of endpoint operations, and a frame can be
 ingested whenever, and as often as, it has ever been emitted by the other side. Losing, duplicating,
 reordering and delaying frames are all runs of this kind.
*/
module Network {
  import opened Words
  import opened Frame
  import opened Window
  import opened ArqModel
  import opened Ledger
  import opened Reassembly
  import opened Link

  datatype Peer = Peer(out: TxSide, inn: RxSide)
  datatype Net = Net(a: Peer, b: Peer)
  datatype Side = A | B

  datatype Action =
    | Enqueue(m: bytes)
    | NewSends(now: nat)
    | Retransmits(now: nat)
    | SetRetx(d: nat)
    | Ingest(f: bytes)
    | Pop

  type Step = (Side, Action)

  const NEW_PEER := Peer(NEW_TX, NEW_RX)

  function At(n: Net, side: Side): Peer {
    if side.A? then n.a else n.b
  }

  function Other(side: Side): Side {
    if side.A? then B else A
  }

  // f has been put on the wire by `from`.
  ghost predicate Emitted(from: Peer, f: bytes) {
    f in from.out.frames || exists k :: 0 <= k < |from.inn.acks| && f == EncodeAck(from.inn.acks[k].0, from.inn.acks[k].1)
  }

  // An operation takes place only if its frame exists, time does not run backwards, and the
  // sequence numbers stay in scope.
  ghost predicate Enabled(me: Peer, other: Peer, action: Action) {
    match action
    case Enqueue(m) => CanEnqueue(me.out, m)
    case NewSends(now) => now >= me.out.clock
    case Retransmits(now) => now >= me.out.clock
    case SetRetx(_) => true
    case Ingest(f) => Emitted(other, f)
    case Pop => true
  }

  // `ingest` on the frame's bytes, with the history kept along.
  function DoIngest(me: Peer, msgs: Messages, f: bytes): Peer {
    var (tx', rx', r) := ArqModel.Ingest(me.out.tx, me.inn.rx, f);
    var acks := if r.Ok? && r.value.Some? then me.inn.acks + [(rx'.base, rx'.bits)] else me.inn.acks;
    var order :=
      if |rx'.delivered| > |me.inn.rx.delivered| && DecodeInner(f).Ok? && DecodeInner(f).value.Data?
         && DecodeInner(f).value.seqno < Total(msgs)
      then me.inn.order + [Owner(msgs, DecodeInner(f).value.seqno)] else me.inn.order;
    Peer(me.out.(tx := tx'), me.inn.(rx := rx', acks := acks, order := order))
  }

  function Act(me: Peer, msgs: Messages, action: Action): Peer {
    match action
    case Enqueue(m) => me.(out := DoEnqueue(me.out, m))
    case NewSends(now) => me.(out := DoNewSends(me.out, now))
    case Retransmits(now) => me.(out := DoRetransmits(me.out, now))
    case SetRetx(d) => me.(out := DoSetRetx(me.out, d))
    case Ingest(f) => DoIngest(me, msgs, f)
    case Pop => me.(inn := DoPop(me.inn))
  }

  // A step that is not enabled changes nothing.
  ghost function Next(n: Net, step: Step): Net {
    var (side, action) := step;
    var me, other := At(n, side), At(n, Other(side));
    if !Enabled(me, other, action) then n
    else if side.A? then n.(a := Act(me, other.out.msgs, action))
    else n.(b := Act(me, other.out.msgs, action))
  }

  ghost function Exec(run: seq<Step>): Net {
    if run == [] then Net(NEW_PEER, NEW_PEER) else Next(Exec(run[..|run| - 1]), run[|run| - 1])
  }

  // Some run ends in n.
  ghost predicate Reachable(n: Net) {
    exists run :: n == Exec(run)
  }

  ghost predicate NetInv(n: Net) {
    LinkInv(n.a.out, n.b.inn) && LinkInv(n.b.out, n.a.inn)
  }

  // Ingesting an honest DATA frame is the link step for its number.
  lemma IngestData(me: Peer, p: TxSide, f: bytes)
    requires LinkInv(p, me.inn) && f in p.frames
    ensures var s := DecodeInner(f).value.seqno;
            && DecodeInner(f).Ok? && DecodeInner(f).value.Data? && s < Total(p.msgs) && WasSent(p.tx, s)
            && DoIngest(me, p.msgs, f) == me.(inn := DoData(me.inn, p.msgs, s))
  {
    hide OnData, Total, Fids, Owner, Chunk, WindowInv, RetryInv, BudgetInv, RecvInv, CrossInv, Start, Size, Fid, Wire;
    assert Honest(p, f);
    var s := DecodeInner(f).value.seqno;
    WireDecodes(p.msgs, s);
  }

  // Ingesting an ACK is the link step for its base and bitmap.
  lemma IngestAck(me: Peer, msgs: Messages, base: u32, bitmap: u64)
    ensures DoIngest(me, msgs, EncodeAck(base, bitmap)) == me.(out := DoAck(me.out, base, bitmap))
  {
    DecodeEncodeAck(base, bitmap);
    hide OnAck, OnData, EncodeAck;
  }

  // One operation of one side keeps both links.
  lemma ActKeeps(me: Peer, other: Peer, action: Action)
    requires LinkInv(me.out, other.inn) && LinkInv(other.out, me.inn) && Enabled(me, other, action)
    ensures var me' := Act(me, other.out.msgs, action);
            LinkInv(me'.out, other.inn) && LinkInv(other.out, me'.inn)
  {
    hide LinkInv, DoEnqueue, DoNewSends, DoRetransmits, DoSetRetx, DoIngest, DoPop, DoData, DoAck;
    match action
    case Enqueue(m) => EnqueueKeeps(me.out, other.inn, m);
    case NewSends(now) => NewSendsKeeps(me.out, other.inn, now);
    case Retransmits(now) => RetransmitsKeeps(me.out, other.inn, now);
    case SetRetx(d) => SetRetxKeeps(me.out, other.inn, d);
    case Ingest(f) => IngestKeeps(me, other, f);
    case Pop => PopKeeps(other.out, me.inn);
  }

  lemma IngestKeeps(me: Peer, other: Peer, f: bytes)
    requires LinkInv(me.out, other.inn) && LinkInv(other.out, me.inn) && Emitted(other, f)
    ensures var me' := DoIngest(me, other.out.msgs, f);
            LinkInv(me'.out, other.inn) && LinkInv(other.out, me'.inn)
  {
    if f in other.out.frames {
      IngestData(me, other.out, f);
      DataKeeps(other.out, me.inn, DecodeInner(f).value.seqno);
    } else {
      var k :| 0 <= k < |other.inn.acks| && f == EncodeAck(other.inn.acks[k].0, other.inn.acks[k].1);
      IngestAck(me, other.out.msgs, other.inn.acks[k].0, other.inn.acks[k].1);
      EmittedAck(me.out, other.inn, k);
      AckKeeps(me.out, other.inn, other.inn.acks[k].0, other.inn.acks[k].1);
    }
    hide LinkInv, DoIngest, DoData, DoAck, DecodeInner, EncodeAck;
  }

  lemma EmittedAck(p: TxSide, q: RxSide, k: nat)
    requires LinkInv(p, q) && k < |q.acks|
    ensures Got(q.acks[k].0, q.acks[k].1) <= q.G()
  {
    hide SendInv, CrossInv, BufInv, HistoryInv, WindowOf, Got;
  }

  // A step changes only the side that takes it.
  lemma NextAct(n: Net, side: Side, action: Action)
    requires Enabled(At(n, side), At(n, Other(side)), action)
    ensures At(Next(n, (side, action)), side) == Act(At(n, side), At(n, Other(side)).out.msgs, action)
    ensures At(Next(n, (side, action)), Other(side)) == At(n, Other(side))
  {
    hide Act, Enabled;
  }

  lemma NextNewSends(n: Net, side: Side, now: nat)
    requires now >= At(n, side).out.clock
    ensures At(Next(n, (side, NewSends(now))), side) == At(n, side).(out := DoNewSends(At(n, side).out, now))
    ensures At(Next(n, (side, NewSends(now))), Other(side)) == At(n, Other(side))
  {
    hide DoNewSends, Next;
    NextAct(n, side, NewSends(now));
  }

  lemma NextIngest(n: Net, side: Side, f: bytes)
    requires Emitted(At(n, Other(side)), f)
    ensures At(Next(n, (side, Action.Ingest(f))), side) == DoIngest(At(n, side), At(n, Other(side)).out.msgs, f)
    ensures At(Next(n, (side, Action.Ingest(f))), Other(side)) == At(n, Other(side))
  {
    hide DoIngest, Next, Emitted;
    NextAct(n, side, Action.Ingest(f));
  }

  lemma NextKeeps(n: Net, step: Step)
    requires NetInv(n)
    ensures NetInv(Next(n, step))
  {
    hide LinkInv, Act, Enabled;
    var (side, action) := step;
    if Enabled(At(n, side), At(n, Other(side)), action) {
      ActKeeps(At(n, side), At(n, Other(side)), action);
    }
  }

  /** The invariant of both directions holds after every run. */
  lemma {:induction false} Always(run: seq<Step>)
    ensures NetInv(Exec(run))
  {
    if run == [] {
      InitInv();
    } else {
      Always(run[..|run| - 1]);
      NextKeeps(Exec(run[..|run| - 1]), run[|run| - 1]);
    }
  }
}
