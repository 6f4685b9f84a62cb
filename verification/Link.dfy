/**
 One direction of a session: the sending half of one endpoint, the receiving half of the other, and
 a channel between them that may lose, duplicate, reorder and delay frames at will. The steps are the
 endpoint operations of ArqModel; the rest of each record is history the program does not keep.
*/
module Link {
  import opened Words
  import opened Wrappers
  import opened Ordered
  import opened Frame
  import opened Window
  import opened ArqModel
  import opened Ledger
  import opened Reassembly

  // The time of a number's first hand-out, and the shortest retransmit timeout in force since then.
  datatype First = First(at: nat, floor: nat)

  // msgs: enqueued messages; frames: DATA frames handed out so far; clock: latest time seen.
  datatype TxSide = TxSide(tx: Sender, msgs: Messages, frames: seq<bytes>, first: map<int, First>, clock: nat)

  // acks: ACKs emitted so far; order: the messages in the order they were completed;
  // popped: messages already taken by the application.
  datatype RxSide = RxSide(rx: Receiver, acks: seq<(u32, u64)>, order: seq<nat>, popped: seq<bytes>) {
    function History(): seq<bytes> {
      popped + rx.delivered
    }

    ghost function G(): set<nat> {
      Got(rx.base, rx.bits)
    }
  }

  const NEW_TX := TxSide(NEW_SENDER, [], [], map[], 0)
  const NEW_RX := RxSide(NEW_RECEIVER, [], [], [])

  /* ---- steps ---- */

  function DoEnqueue(p: TxSide, m: bytes): TxSide {
    var (tx', r) := Enqueue(p.tx, m);
    if r.Ok? then p.(tx := tx', msgs := p.msgs + [m]) else p.(tx := tx')
  }

  function DoNewSends(p: TxSide, now: nat): TxSide {
    var (tx', out) := TakeNewSends(p.tx, now);
    var q := NewSendKeys(p.tx.unacked);
    p.(tx := tx', frames := p.frames + out, clock := now,
       first := map k | k in p.first.Keys + (set k | k in q) :: if k in q then First(now, p.tx.retx) else p.first[k])
  }

  function DoRetransmits(p: TxSide, now: nat): TxSide {
    var (tx', r) := TakeRetransmits(p.tx, now);
    p.(tx := tx', frames := if r.Ok? then p.frames + r.value else p.frames, clock := now)
  }

  function Shortened(f: First, d: nat): First {
    if d < f.floor then f.(floor := d) else f
  }

  function DoSetRetx(p: TxSide, d: nat): TxSide {
    p.(tx := p.tx.(retx := d), first := map k | k in p.first :: Shortened(p.first[k], d))
  }

  function DoAck(p: TxSide, base: u32, bitmap: u64): TxSide {
    p.(tx := OnAck(p.tx, base, bitmap))
  }

  // The frame numbered s of the peer's messages arrives; its ACK goes out.
  function DoData(q: RxSide, msgs: Messages, s: nat): RxSide
    requires Fits(msgs) && s < Total(msgs)
  {
    var i := Owner(msgs, s);
    var j := s - Start(msgs, i);
    var rx' := OnData(q.rx, s, Fid(msgs, i), j, Size(msgs, i), Chunk(msgs[i], j));
    q.(rx := rx', acks := q.acks + [(rx'.base, rx'.bits)],
       order := if |rx'.delivered| > |q.rx.delivered| then q.order + [i] else q.order)
  }

  function DoPop(q: RxSide): RxSide {
    if q.rx.delivered == [] then q
    else q.(popped := q.popped + [q.rx.delivered[0]], rx := q.rx.(delivered := q.rx.delivered[1..]))
  }

  /* ---- the invariant ---- */

  // s has been handed out at least once.
  ghost predicate WasSent(tx: Sender, s: nat) {
    s in tx.unacked ==> tx.unacked[s].lastSent.Some?
  }

  // Queue contents are what the messages determine.
  ghost predicate QueueInv(p: TxSide) {
    && Fits(p.msgs)
    && p.tx.nextSeq == Total(p.msgs)
    && p.tx.nextFragId == 1 + Fids(p.msgs) % FRAG_IDS
    && (forall k :: k in p.tx.unacked ==> k < Total(p.msgs) && p.tx.unacked[k].plaintext == Wire(p.msgs, k))
  }

  // At most 32 frames in flight, the sent ones first; an acknowledged number is never more than
  // 63 above an unacknowledged one.
  ghost predicate WindowInv(tx: Sender) {
    && InFlight(tx.unacked) <= WINDOW_SIZE
    && (forall s, t :: s in tx.unacked && t in tx.unacked && s < t && WasSent(tx, t) ==> WasSent(tx, s))
    && (forall s, t: nat :: s in tx.unacked && t < tx.nextSeq && t !in tx.unacked ==> t < s + WINDOW_BITS)
  }

  ghost predicate AttemptInv(o: Outgoing, max: nat) {
    o.attempts <= max && (o.lastSent.None? <==> o.attempts == 0)
  }

  ghost predicate TimeInv(p: TxSide, k: int, o: Outgoing) {
    o.lastSent.Some? ==>
      && k in p.first
      && o.attempts >= 1
      && p.first[k].floor <= p.tx.retx
      && p.first[k].at + (o.attempts - 1) * p.first[k].floor <= o.lastSent.value <= p.clock
  }

  ghost predicate RetryInv(p: TxSide) {
    && p.tx.maxAttempts == DEFAULT_MAX_ATTEMPTS
    && (forall k :: k in p.tx.unacked ==> AttemptInv(p.tx.unacked[k], p.tx.maxAttempts))
    && (forall k :: k in p.tx.unacked ==> TimeInv(p, k, p.tx.unacked[k]))
  }

  ghost predicate Honest(p: TxSide, f: bytes)
    requires Fits(p.msgs)
  {
    && DecodeInner(f).Ok? && DecodeInner(f).value.Data?
    && var s := DecodeInner(f).value.seqno;
       s < Total(p.msgs) && WasSent(p.tx, s) && f == Wire(p.msgs, s)
  }

  // o has used more attempts than o', or as many and the last of them no later.
  ghost predicate Ahead(o: Outgoing, o': Outgoing) {
    o.lastSent.Some? && o'.lastSent.Some? ==>
      || o.attempts > o'.attempts
      || (o.attempts == o'.attempts && o.lastSent.value <= o'.lastSent.value)
  }

  // Lower numbers are ahead in their retries.
  ghost predicate AheadInv(tx: Sender) {
    forall k, l :: k in tx.unacked && l in tx.unacked && k < l ==> Ahead(tx.unacked[k], tx.unacked[l])
  }

  ghost predicate HonestInv(p: TxSide)
    requires Fits(p.msgs)
  {
    forall f :: f in p.frames ==> Honest(p, f)
  }

  // Each attempt of a queued number was a hand-out of its frame.
  ghost predicate WithinBudget(p: TxSide, s: nat)
    requires Fits(p.msgs) && s < Total(p.msgs)
  {
    var times := multiset(p.frames)[Wire(p.msgs, s)];
    if s in p.tx.unacked then times == p.tx.unacked[s].attempts else times <= p.tx.maxAttempts
  }

  ghost predicate BudgetInv(p: TxSide)
    requires Fits(p.msgs)
  {
    forall s: nat :: s < Total(p.msgs) ==> WithinBudget(p, s)
  }

  // A frame marked as sent has been handed out.
  ghost predicate OutInv(p: TxSide) {
    forall k :: k in p.tx.unacked && p.tx.unacked[k].lastSent.Some? ==> p.tx.unacked[k].plaintext in p.frames
  }

  ghost predicate SendInv(p: TxSide) {
    QueueInv(p) && WindowInv(p.tx) && RetryInv(p) && AheadInv(p.tx) && HonestInv(p) && BudgetInv(p) && OutInv(p)
  }

  // What the sender believes acknowledged has been accepted; what was accepted has been sent.
  ghost predicate CrossInv(p: TxSide, q: RxSide) {
    && (forall s: nat :: s < p.tx.nextSeq && s !in p.tx.unacked ==> s in q.G())
    && (forall s :: s in q.G() ==> s < p.tx.nextSeq && WasSent(p.tx, s))
  }

  // Every ACK ever emitted claims no more than what is accepted now, and no less than earlier ACKs.
  ghost predicate AckInv(q: RxSide) {
    && (forall k :: 0 <= k < |q.acks| ==> Got(q.acks[k].0, q.acks[k].1) <= q.G())
    && (forall k, l :: 0 <= k <= l < |q.acks| ==> Got(q.acks[k].0, q.acks[k].1) <= Got(q.acks[l].0, q.acks[l].1))
  }

  ghost predicate RecvInv(msgs: Messages, q: RxSide) {
    && Fits(msgs)
    && WindowOf(q.G(), q.rx.base)
    && AckInv(q)
    && BufInv(msgs, q.G(), q.rx.fragments)
    && HistoryInv(msgs, q.G(), q.order, q.History())
  }

  ghost predicate LinkInv(p: TxSide, q: RxSide) {
    SendInv(p) && CrossInv(p, q) && RecvInv(p.msgs, q)
  }

  lemma InitInv()
    ensures LinkInv(NEW_TX, NEW_RX)
  {
    forall i: nat ensures !Bit(0, i) { ZeroBits(i); }
    assert NEW_RX.G() == {};
  }

  /* ---- enqueue ---- */

  lemma {:induction false} AddFramesMeaning(unacked: map<u32, Outgoing>, start: u32, fid: u16, m: bytes, n: nat)
    requires n <= NumFrames(m) <= MAX_FRAGMENTS && start + n <= SEQ_LIMIT
    requires forall k :: k in unacked ==> k < start
    ensures var a := AddFrames(unacked, start, fid, m, n);
            && (forall k :: k in a <==> k in unacked || start <= k < start + n)
            && (forall k :: k in unacked ==> a[k] == unacked[k])
            && (forall k :: start <= k < start + n ==> a[k] == FrameOf(k, fid, m, k - start))
  {
    hide FrameOf, NumFrames;
    if n > 0 {
      AddFramesMeaning(unacked, start, fid, m, n - 1);
      assert WrappingAdd(start, n - 1) == start + n - 1;
    }
  }

  // In scope and small enough to be fragmented.
  predicate CanEnqueue(p: TxSide, m: bytes) {
    NumFrames(m) > MAX_FRAGMENTS || Total(p.msgs) + NumFrames(m) <= SEQ_LIMIT
  }

  // What enqueue does to the queue, in unwrapped numbers.
  lemma EnqueueMeaning(p: TxSide, m: bytes)
    requires QueueInv(p) && CanEnqueue(p, m) && NumFrames(m) <= MAX_FRAGMENTS
    ensures var p' := DoEnqueue(p, m);
            var tx, tx' := p.tx, p'.tx;
            && p' == p.(tx := tx', msgs := p.msgs + [m])
            && tx' == tx.(nextSeq := tx'.nextSeq, nextFragId := tx'.nextFragId, unacked := tx'.unacked)
            && tx'.nextSeq == tx.nextSeq + NumFrames(m)
            && tx'.nextFragId == (if m == [] then tx.nextFragId else NextFragId(tx.nextFragId))
            && (forall k :: k in tx'.unacked <==> k in tx.unacked || tx.nextSeq <= k < tx'.nextSeq)
            && (forall k :: k in tx.unacked ==> tx'.unacked[k] == tx.unacked[k])
            && (forall k :: tx.nextSeq <= k < tx'.nextSeq ==>
                  tx'.unacked[k] == FrameOf(k, if m == [] then 0 else tx.nextFragId, m, k - tx.nextSeq))
  {
    hide FrameOf, AddFrames, Fits, Wire, Total, Fids;
    var fid := if m == [] then 0 else p.tx.nextFragId;
    AddFramesMeaning(p.tx.unacked, p.tx.nextSeq, fid, m, NumFrames(m));
  }

  lemma EnqueueQueue(p: TxSide, m: bytes)
    requires QueueInv(p) && CanEnqueue(p, m) && NumFrames(m) <= MAX_FRAGMENTS
    ensures QueueInv(DoEnqueue(p, m))
    ensures forall s: nat :: s < Total(p.msgs) ==> Wire(p.msgs + [m], s) == Wire(p.msgs, s)
  {
    hide FrameOf, AddFrames, Fits, Wire, Total, Fids, DoEnqueue, NumFrames;
    var p' := DoEnqueue(p, m);
    EnqueueMeaning(p, m);
    Append(p.msgs, m);
    AppendFits(p.msgs, m);
    NextFid(Fids(p.msgs));
    forall s: nat | s < Total(p.msgs) ensures Wire(p.msgs + [m], s) == Wire(p.msgs, s) {
      AppendWire(p.msgs, m, s);
    }
    forall k | k in p'.tx.unacked
      ensures k < Total(p'.msgs) && p'.tx.unacked[k].plaintext == Wire(p'.msgs, k)
    {
      if k >= p.tx.nextSeq {
        AppendNew(p.msgs, m, k - p.tx.nextSeq);
      }
    }
  }

  lemma EnqueueKeeps(p: TxSide, q: RxSide, m: bytes)
    requires LinkInv(p, q) && CanEnqueue(p, m)
    ensures LinkInv(DoEnqueue(p, m), q)
  {
    if NumFrames(m) <= MAX_FRAGMENTS {
      EnqueueQueue(p, m);
      EnqueueWindow(p, m);
      EnqueueEmit(p, m);
      EnqueueRetry(p, m);
      EnqueueCross(p, q, m);
      EnqueueOut(p, m);
      EnqueueAhead(p, m);
      hide OutInv, AheadInv, DoEnqueue, Fits, Total, Wire, NumFrames, QueueInv, WindowInv, RetryInv, HonestInv, BudgetInv, WindowOf, AckInv, BufInv, HistoryInv;
      EnqueueUnnoticed(p.msgs, m, q.G(), q.rx.fragments, q.order, q.History());
    }
  }

  lemma EnqueueRetry(p: TxSide, m: bytes)
    requires QueueInv(p) && CanEnqueue(p, m) && NumFrames(m) <= MAX_FRAGMENTS && RetryInv(p)
    ensures RetryInv(DoEnqueue(p, m))
  {
    hide DoEnqueue, Fits, Total, Wire, NumFrames, Fids, FrameOf, AttemptInv, TimeInv;
    var p' := DoEnqueue(p, m);
    assert p' == p.(tx := p'.tx, msgs := p'.msgs) && p'.tx.retx == p.tx.retx && p'.tx.maxAttempts == p.tx.maxAttempts by {
      EnqueueMeaning(p, m);
    }
    forall k | k in p'.tx.unacked
      ensures AttemptInv(p'.tx.unacked[k], p'.tx.maxAttempts) && TimeInv(p', k, p'.tx.unacked[k])
    {
      EnqueueRetryAt(p, m, k);
    }
  }

  lemma EnqueueRetryAt(p: TxSide, m: bytes, k: u32)
    requires QueueInv(p) && CanEnqueue(p, m) && NumFrames(m) <= MAX_FRAGMENTS && RetryInv(p)
    requires k in DoEnqueue(p, m).tx.unacked
    ensures var p' := DoEnqueue(p, m);
            AttemptInv(p'.tx.unacked[k], p'.tx.maxAttempts) && TimeInv(p', k, p'.tx.unacked[k])
  {
    hide DoEnqueue, Fits, Total, Wire, NumFrames, Fids;
    var p' := DoEnqueue(p, m);
    assert p' == p.(tx := p'.tx, msgs := p'.msgs) && p'.tx.maxAttempts == p.tx.maxAttempts && p'.tx.retx == p.tx.retx
           && (if k in p.tx.unacked then p'.tx.unacked[k] == p.tx.unacked[k]
               else p'.tx.unacked[k].lastSent.None? && p'.tx.unacked[k].attempts == 0) by {
      EnqueueMeaning(p, m);
    }
    if k in p.tx.unacked {
      assert AttemptInv(p.tx.unacked[k], p.tx.maxAttempts) && TimeInv(p, k, p.tx.unacked[k]);
    }
  }

  lemma EnqueueAhead(p: TxSide, m: bytes)
    requires QueueInv(p) && CanEnqueue(p, m) && NumFrames(m) <= MAX_FRAGMENTS && AheadInv(p.tx)
    ensures AheadInv(DoEnqueue(p, m).tx)
  {
    hide DoEnqueue, Fits, Total, Wire, NumFrames, Fids, EncodeData, Chunk;
    EnqueueMeaning(p, m);
  }

  lemma EnqueueOut(p: TxSide, m: bytes)
    requires QueueInv(p) && CanEnqueue(p, m) && NumFrames(m) <= MAX_FRAGMENTS && OutInv(p)
    ensures OutInv(DoEnqueue(p, m))
  {
    hide DoEnqueue, Fits, Total, Wire, NumFrames, Fids, EncodeData, Chunk;
    EnqueueMeaning(p, m);
  }

  lemma EnqueueCross(p: TxSide, q: RxSide, m: bytes)
    requires QueueInv(p) && CanEnqueue(p, m) && NumFrames(m) <= MAX_FRAGMENTS && CrossInv(p, q)
    ensures CrossInv(DoEnqueue(p, m), q)
    ensures DoEnqueue(p, m).msgs == p.msgs + [m] && forall x :: x in q.G() ==> x < Total(p.msgs)
  {
    hide DoEnqueue, Fits, Total, Wire, NumFrames, Fids, FrameOf, Got;
    EnqueueMeaning(p, m);
  }

  // tx' is tx with unsent numbers added behind all those allocated before.
  ghost predicate Extended(tx: Sender, tx': Sender) {
    && tx.nextSeq <= tx'.nextSeq
    && (forall k :: k in tx'.unacked <==> k in tx.unacked || tx.nextSeq <= k < tx'.nextSeq)
    && (forall k :: k in tx.unacked ==> k < tx.nextSeq && tx'.unacked[k] == tx.unacked[k])
    && (forall k :: k in tx'.unacked && tx.nextSeq <= k ==> tx'.unacked[k].lastSent.None?)
  }

  lemma EnqueueExtends(p: TxSide, m: bytes)
    requires QueueInv(p) && CanEnqueue(p, m) && NumFrames(m) <= MAX_FRAGMENTS
    ensures Extended(p.tx, DoEnqueue(p, m).tx)
  {
    hide DoEnqueue, Fits, Total, Wire, NumFrames, Fids, EncodeData, Chunk;
    EnqueueMeaning(p, m);
  }

  lemma ExtendedInFlight(tx: Sender, tx': Sender)
    requires Extended(tx, tx')
    ensures InFlight(tx'.unacked) == InFlight(tx.unacked)
  {
    assert SentKeys(tx'.unacked) == SentKeys(tx.unacked);
  }

  lemma ExtendedWindow(tx: Sender, tx': Sender)
    requires Extended(tx, tx') && WindowInv(tx)
    ensures WindowInv(tx')
  {
    ExtendedInFlight(tx, tx');
    hide InFlight;
    forall s, t | s in tx'.unacked && t in tx'.unacked && s < t && WasSent(tx', t) ensures WasSent(tx', s) {
      assert t in tx.unacked && WasSent(tx, t);
    }
  }

  lemma EnqueueWindow(p: TxSide, m: bytes)
    requires QueueInv(p) && CanEnqueue(p, m) && NumFrames(m) <= MAX_FRAGMENTS && WindowInv(p.tx)
    ensures WindowInv(DoEnqueue(p, m).tx)
  {
    EnqueueExtends(p, m);
    hide Extended, WindowInv, DoEnqueue, Fits, Total, Wire, NumFrames, Fids;
    ExtendedWindow(p.tx, DoEnqueue(p, m).tx);
  }

  lemma EnqueueEmit(p: TxSide, m: bytes)
    requires QueueInv(p) && CanEnqueue(p, m) && NumFrames(m) <= MAX_FRAGMENTS && HonestInv(p) && BudgetInv(p)
    ensures QueueInv(DoEnqueue(p, m)) && HonestInv(DoEnqueue(p, m)) && BudgetInv(DoEnqueue(p, m))
  {
    var p' := DoEnqueue(p, m);
    EnqueueMeaning(p, m);
    EnqueueQueue(p, m);
    hide DoEnqueue, Fits, Total, Wire, NumFrames, Fids, FrameOf, DecodeInner, Owner, WithinBudget;
    Append(p.msgs, m);
    forall f | f in p'.frames ensures Honest(p', f) {
      assert Honest(p, f);
    }
    forall s: nat | s < Total(p'.msgs) ensures WithinBudget(p', s) {
      EnqueueBudget(p, m, s);
    }
  }

  lemma EnqueueBudget(p: TxSide, m: bytes, s: nat)
    requires QueueInv(p) && CanEnqueue(p, m) && NumFrames(m) <= MAX_FRAGMENTS && HonestInv(p) && BudgetInv(p)
    requires QueueInv(DoEnqueue(p, m)) && s < Total(DoEnqueue(p, m).msgs)
    ensures WithinBudget(DoEnqueue(p, m), s)
  {
    hide DoEnqueue, Fits, Total, Wire, NumFrames, Fids, EncodeData, Chunk, HonestInv;
    var p' := DoEnqueue(p, m);
    EnqueueQueue(p, m);
    assert p'.msgs == p.msgs + [m] && p'.frames == p.frames && p'.tx.maxAttempts == p.tx.maxAttempts
           && p.tx.nextSeq == Total(p.msgs)
           && (if s < Total(p.msgs)
               then (s in p'.tx.unacked <==> s in p.tx.unacked) && (s in p.tx.unacked ==> p'.tx.unacked[s] == p.tx.unacked[s])
               else s in p'.tx.unacked && p'.tx.unacked[s].attempts == 0) by {
      EnqueueMeaning(p, m);
      Append(p.msgs, m);
    }
    if s >= Total(p.msgs) { NotYetEmitted(p, p', s); } else { assert WithinBudget(p, s); }
  }

  // A number no frame was handed out for occurs in no emitted frame.
  lemma NotYetEmitted(p: TxSide, p': TxSide, s: nat)
    requires Fits(p.msgs) && Fits(p'.msgs) && Total(p.msgs) <= s < Total(p'.msgs)
    requires HonestInv(p)
    requires forall t: nat :: t < Total(p.msgs) ==> Wire(p'.msgs, t) == Wire(p.msgs, t)
    ensures multiset(p.frames)[Wire(p'.msgs, s)] == 0
  {
    hide DecodeInner, Wire, Fits, Total;
    var f := Wire(p'.msgs, s);
    if f in p.frames {
      WireInjective(p'.msgs, s, DecodeInner(f).value.seqno);
    }
  }

  /* ---- new sends ---- */

  // NewSendKeys takes the lowest unsent numbers, at most as many as the window has room for.
  lemma NewSendKeysMeaning(unacked: map<u32, Outgoing>)
    requires InFlight(unacked) <= WINDOW_SIZE
    ensures var q := NewSendKeys(unacked);
            && Ascending(q)
            && InFlight(unacked) + |q| <= WINDOW_SIZE
            && (forall k :: k in q ==> k in UnsentKeys(unacked))
            && (forall k, l :: k in UnsentKeys(unacked) && l in q && k < l ==> k in q)
            && (InFlight(unacked) + |q| < WINDOW_SIZE ==> forall k :: k in UnsentKeys(unacked) ==> k in q)
  {
    hide Sorted, Select, SentKeys, InFlight, UnsentKeys;
    var all := Select(Sorted(unacked.Keys), UnsentKeys(unacked));
    SelectAscending(Sorted(unacked.Keys), UnsentKeys(unacked));
    UnsentAreKeys(unacked);
    var q := NewSendKeys(unacked);
    assert q == all[..|q|];
    forall k, l | k in all && l in q && k < l ensures k in q {
      var i :| 0 <= i < |all| && all[i] == k;
      var j :| 0 <= j < |q| && q[j] == l;
      assert all[j] == l;
      if i < |q| { assert q[i] == k; }
    }
  }

  lemma UnsentAreKeys(unacked: map<u32, Outgoing>)
    ensures forall k :: k in UnsentKeys(unacked) ==> k in unacked.Keys
  {}

  // Each number taken is handed out once, in the frame of that number.
  lemma {:induction false} PlaintextCount(p: TxSide, q: seq<int>, s: nat)
    requires QueueInv(p) && Ascending(q) && s < Total(p.msgs)
    requires forall k :: k in q ==> k in p.tx.unacked
    ensures multiset(Plaintexts(p.tx.unacked, q))[Wire(p.msgs, s)] == if s in q then 1 else 0
  {
    hide Wire, Fits, Total;
    if q != [] {
      var init, last := q[..|q| - 1], q[|q| - 1];
      assert q == init + [last];
      assert last in q && forall k :: k in init ==> k in q;
      PlaintextCount(p, init, s);
      assert last !in init;
      if p.tx.unacked[last].plaintext == Wire(p.msgs, s) {
        WireInjective(p.msgs, last, s);
      }
    }
  }

  lemma {:induction false} PlaintextsFrom(unacked: map<u32, Outgoing>, q: seq<int>, f: bytes) returns (k: u32)
    requires forall k :: k in q ==> k in unacked
    requires f in Plaintexts(unacked, q)
    ensures k in q && unacked[k].plaintext == f
  {
    var init, last := q[..|q| - 1], q[|q| - 1];
    assert q == init + [last];
    assert last in q && forall k :: k in init ==> k in q;
    if unacked[last].plaintext == f { k := last; } else { k := PlaintextsFrom(unacked, init, f); }
  }

  // The step, number by number.
  lemma NewSendsMeaning(p: TxSide, now: nat)
    requires InFlight(p.tx.unacked) <= WINDOW_SIZE
    ensures var p' := DoNewSends(p, now);
            var q := NewSendKeys(p.tx.unacked);
            var u, u' := p.tx.unacked, p'.tx.unacked;
            && (forall k :: k in q ==> k in u && u[k].lastSent.None?)
            && p'.msgs == p.msgs && p'.frames == p.frames + Plaintexts(u, q)
            && p'.clock == now && p'.tx == p.tx.(unacked := u')
            && (forall k :: k in u' <==> k in u)
            && (forall k :: k in u ==> u'[k] == if k in q then u[k].(lastSent := Some(now), attempts := 1) else u[k])
            && (forall k :: k in q ==> k in p'.first && p'.first[k] == First(now, p.tx.retx))
            && (forall k :: k in p.first && k !in q ==> k in p'.first && p'.first[k] == p.first[k])
  {
    NewSendKeysMeaning(p.tx.unacked);
    hide NewSendKeys, Plaintexts, InFlight;
    var q := NewSendKeys(p.tx.unacked);
    assert forall k :: k in q ==> k in UnsentKeys(p.tx.unacked);
  }

  // u' is u with the numbers in q, all unsent before, marked as sent.
  ghost predicate Marked(u: map<u32, Outgoing>, u': map<u32, Outgoing>, q: seq<int>) {
    && (forall k :: k in u' <==> k in u)
    && (forall k :: k in q ==> k in u && u[k].lastSent.None? && u'[k].lastSent.Some?)
    && (forall k :: k in u && k !in q ==> u'[k] == u[k])
  }

  lemma MarkedInFlight(u: map<u32, Outgoing>, u': map<u32, Outgoing>, q: seq<int>)
    requires Marked(u, u', q) && Ascending(q)
    ensures InFlight(u') == InFlight(u) + |q|
  {
    AscendingSetSize(q);
    var a: set<int>, b: set<int> := SentKeys(u), set k | k in q;
    assert forall k :: k in SentKeys(u') <==> k in a || k in b;
    assert SentKeys(u') == a + b;
    assert a * b == {};
    assert |a + b| == |a| + |b|;
  }

  lemma MarkedPrefix(tx: Sender, tx': Sender, q: seq<int>, s: u32, t: u32)
    requires WindowInv(tx) && Marked(tx.unacked, tx'.unacked, q)
    requires forall k, l :: k in UnsentKeys(tx.unacked) && l in q && k < l ==> k in q
    requires s in tx'.unacked && t in tx'.unacked && s < t && WasSent(tx', t)
    ensures WasSent(tx', s)
  {
    hide InFlight;
    var u := tx.unacked;
    if s !in q {
      if t in q {
        assert s !in UnsentKeys(u);
      } else {
        assert WasSent(tx, t);
      }
    }
  }

  lemma MarkedWindow(tx: Sender, tx': Sender, q: seq<int>)
    requires WindowInv(tx) && Marked(tx.unacked, tx'.unacked, q) && tx'.nextSeq == tx.nextSeq
    requires Ascending(q) && InFlight(tx.unacked) + |q| <= WINDOW_SIZE
    requires forall k, l :: k in UnsentKeys(tx.unacked) && l in q && k < l ==> k in q
    ensures WindowInv(tx')
  {
    MarkedInFlight(tx.unacked, tx'.unacked, q);
    hide InFlight, UnsentKeys, WasSent, Ascending;
    forall s, t | s in tx'.unacked && t in tx'.unacked && s < t && WasSent(tx', t) ensures WasSent(tx', s) {
      MarkedPrefix(tx, tx', q, s, t);
    }
  }

  lemma NewSendsMarks(p: TxSide, now: nat)
    requires InFlight(p.tx.unacked) <= WINDOW_SIZE
    ensures Marked(p.tx.unacked, DoNewSends(p, now).tx.unacked, NewSendKeys(p.tx.unacked))
    ensures DoNewSends(p, now).tx.nextSeq == p.tx.nextSeq
  {
    NewSendsMeaning(p, now);
  }

  lemma NewSendsWindow(p: TxSide, now: nat)
    requires WindowInv(p.tx)
    ensures WindowInv(DoNewSends(p, now).tx)
  {
    hide NewSendKeys, Plaintexts, DoNewSends, InFlight, Ascending, UnsentKeys, WasSent, Marked;
    var tx, tx', q := p.tx, DoNewSends(p, now).tx, NewSendKeys(p.tx.unacked);
    NewSendsMarks(p, now);
    NewSendKeysMeaning(tx.unacked);
    MarkedWindow(tx, tx', q);
  }

  lemma NewSendsRetry(p: TxSide, now: nat)
    requires RetryInv(p) && now >= p.clock && InFlight(p.tx.unacked) <= WINDOW_SIZE
    ensures RetryInv(DoNewSends(p, now))
  {
    hide NewSendKeys, Plaintexts, InFlight, DoNewSends, AttemptInv, TimeInv;
    var p' := DoNewSends(p, now);
    assert p'.tx == p.tx.(unacked := p'.tx.unacked)
           && forall k :: k in p'.tx.unacked <==> k in p.tx.unacked by {
      NewSendsMeaning(p, now);
    }
    forall k | k in p'.tx.unacked
      ensures AttemptInv(p'.tx.unacked[k], p'.tx.maxAttempts) && TimeInv(p', k, p'.tx.unacked[k])
    {
      NewSendsRetryAt(p, now, k);
    }
  }

  lemma NewSendsRetryAt(p: TxSide, now: nat, k: u32)
    requires RetryInv(p) && now >= p.clock && InFlight(p.tx.unacked) <= WINDOW_SIZE && k in p.tx.unacked
    ensures var p' := DoNewSends(p, now);
            k in p'.tx.unacked && AttemptInv(p'.tx.unacked[k], p.tx.maxAttempts) && TimeInv(p', k, p'.tx.unacked[k])
  {
    hide NewSendKeys, Plaintexts, InFlight, DoNewSends;
    var p', q, o := DoNewSends(p, now), NewSendKeys(p.tx.unacked), p.tx.unacked[k];
    assert k in p'.tx.unacked && p'.clock == now && p'.tx.retx == p.tx.retx
           && (if k in q then k in p'.first && p'.first[k] == First(now, p.tx.retx)
                  && p'.tx.unacked[k] == o.(lastSent := Some(now), attempts := 1)
               else p'.tx.unacked[k] == o && (k in p.first ==> k in p'.first && p'.first[k] == p.first[k])) by {
      NewSendsMeaning(p, now);
    }
    assert AttemptInv(o, p.tx.maxAttempts) && TimeInv(p, k, o);
  }

  // The step for one number.
  lemma NewSendsAt(p: TxSide, now: nat, k: u32)
    requires InFlight(p.tx.unacked) <= WINDOW_SIZE
    ensures var q, u, u' := NewSendKeys(p.tx.unacked), p.tx.unacked, DoNewSends(p, now).tx.unacked;
            && (k in u' <==> k in u)
            && (k in q ==> k in u && u[k].lastSent.None?)
            && (k in u ==> u'[k] == if k in q then u[k].(lastSent := Some(now), attempts := 1) else u[k])
  {
    NewSendsMeaning(p, now);
    hide NewSendKeys, Plaintexts, InFlight, DoNewSends;
  }

  lemma NewSendsRest(p: TxSide, now: nat)
    requires InFlight(p.tx.unacked) <= WINDOW_SIZE
    ensures var p' := DoNewSends(p, now);
            p'.msgs == p.msgs && p'.tx == p.tx.(unacked := p'.tx.unacked)
  {
    NewSendsMeaning(p, now);
    hide NewSendKeys, Plaintexts, InFlight, DoNewSends;
  }

  lemma NewSendsQueueAt(p: TxSide, now: nat, k: u32)
    requires QueueInv(p) && InFlight(p.tx.unacked) <= WINDOW_SIZE && k in DoNewSends(p, now).tx.unacked
    ensures k < Total(p.msgs) && DoNewSends(p, now).tx.unacked[k].plaintext == Wire(p.msgs, k)
  {
    hide NewSendKeys, InFlight, Wire, Fits, Total, Fids, DoNewSends;
    NewSendsAt(p, now, k);
    assert k in p.tx.unacked;
  }

  lemma NewSendsQueue(p: TxSide, now: nat)
    requires QueueInv(p) && InFlight(p.tx.unacked) <= WINDOW_SIZE
    ensures QueueInv(DoNewSends(p, now))
  {
    hide InFlight, Wire, Fits, Total, Fids, DoNewSends;
    NewSendsRest(p, now);
    var p' := DoNewSends(p, now);
    forall k | k in p'.tx.unacked ensures k < Total(p.msgs) && p'.tx.unacked[k].plaintext == Wire(p.msgs, k) {
      NewSendsQueueAt(p, now, k);
    }
  }

  lemma NewSendsAhead(p: TxSide, now: nat)
    requires WindowInv(p.tx) && RetryInv(p) && AheadInv(p.tx) && now >= p.clock
    ensures AheadInv(DoNewSends(p, now).tx)
  {
    hide NewSendKeys, Plaintexts, InFlight, DoNewSends, Ahead, AttemptInv, TimeInv, WasSent;
    var p' := DoNewSends(p, now);
    assert forall k :: k in p'.tx.unacked <==> k in p.tx.unacked by { NewSendsMeaning(p, now); }
    forall k, l | k in p'.tx.unacked && l in p'.tx.unacked && k < l
      ensures Ahead(p'.tx.unacked[k], p'.tx.unacked[l])
    {
      NewSendsAheadAt(p, now, k, l);
    }
  }

  lemma NewSendsAheadAt(p: TxSide, now: nat, k: u32, l: u32)
    requires WindowInv(p.tx) && RetryInv(p) && AheadInv(p.tx) && now >= p.clock
    requires k in p.tx.unacked && l in p.tx.unacked && k < l
    ensures var u' := DoNewSends(p, now).tx.unacked; k in u' && l in u' && Ahead(u'[k], u'[l])
  {
    hide NewSendKeys, Plaintexts, InFlight, DoNewSends;
    var u, u', q := p.tx.unacked, DoNewSends(p, now).tx.unacked, NewSendKeys(p.tx.unacked);
    assert k in u' && l in u'
           && (k in q ==> u[k].lastSent.None?) && (l in q ==> u[l].lastSent.None?)
           && u'[k] == (if k in q then u[k].(lastSent := Some(now), attempts := 1) else u[k])
           && u'[l] == (if l in q then u[l].(lastSent := Some(now), attempts := 1) else u[l]) by {
      NewSendsMeaning(p, now);
    }
    assert AttemptInv(u[k], p.tx.maxAttempts) && TimeInv(p, k, u[k]) && Ahead(u[k], u[l]);
    assert WasSent(p.tx, l) ==> WasSent(p.tx, k);
  }

  // Nothing once sent is forgotten as sent.
  ghost predicate SentKept(tx: Sender, tx': Sender) {
    forall s: nat :: WasSent(tx, s) ==> WasSent(tx', s)
  }

  lemma HonestStays(p: TxSide, p': TxSide, f: bytes)
    requires Fits(p.msgs) && p'.msgs == p.msgs && SentKept(p.tx, p'.tx) && Honest(p, f)
    ensures Honest(p', f)
  {
    hide Wire, DecodeInner, WasSent, Fits, Total;
  }

  lemma HonestNew(p: TxSide, p': TxSide, k: u32)
    requires QueueInv(p) && p'.msgs == p.msgs && k in p.tx.unacked && WasSent(p'.tx, k)
    ensures Honest(p', p.tx.unacked[k].plaintext)
  {
    hide WasSent, Fits, Total;
    WireDecodes(p.msgs, k);
  }

  // A step that hands out the frames numbered in q keeps every handed-out frame honest.
  lemma HandOutHonest(p: TxSide, p': TxSide, q: seq<int>)
    requires QueueInv(p) && HonestInv(p) && p'.msgs == p.msgs && SentKept(p.tx, p'.tx)
    requires forall k :: k in q ==> k in p.tx.unacked
    requires forall k: nat :: k in q ==> WasSent(p'.tx, k)
    requires p'.frames == p.frames + Plaintexts(p.tx.unacked, q)
    ensures HonestInv(p')
  {
    hide Wire, DecodeInner, WasSent, Fits, Total, Honest, Plaintexts, SentKept;
    forall f | f in p'.frames ensures Honest(p', f) {
      if f in p.frames {
        HonestStays(p, p', f);
      } else {
        var k := PlaintextsFrom(p.tx.unacked, q, f);
        HonestNew(p, p', k);
      }
    }
  }

  lemma {:induction false} PlaintextIn(unacked: map<u32, Outgoing>, q: seq<int>, k: u32)
    requires forall k :: k in q ==> k in unacked
    requires k in q
    ensures unacked[k].plaintext in Plaintexts(unacked, q)
  {
    var init, last := q[..|q| - 1], q[|q| - 1];
    assert q == init + [last];
    assert last in q && forall k :: k in init ==> k in q;
    if k != last { PlaintextIn(unacked, init, k); }
  }

  lemma NewSendsOut(p: TxSide, now: nat)
    requires OutInv(p) && InFlight(p.tx.unacked) <= WINDOW_SIZE
    ensures OutInv(DoNewSends(p, now))
  {
    hide NewSendKeys, Plaintexts, InFlight, DoNewSends;
    var p', q := DoNewSends(p, now), NewSendKeys(p.tx.unacked);
    forall k | k in p'.tx.unacked && p'.tx.unacked[k].lastSent.Some?
      ensures p'.tx.unacked[k].plaintext in p'.frames
    {
      assert k in p.tx.unacked && p'.tx.unacked[k].plaintext == p.tx.unacked[k].plaintext
             && (k !in q ==> p.tx.unacked[k].lastSent.Some?)
             && p'.frames == p.frames + Plaintexts(p.tx.unacked, q) by {
        NewSendsMeaning(p, now);
      }
      if k in q { PlaintextIn(p.tx.unacked, q, k); }
    }
  }

  lemma NewSendsHonest(p: TxSide, now: nat)
    requires QueueInv(p) && HonestInv(p) && InFlight(p.tx.unacked) <= WINDOW_SIZE
    ensures HonestInv(DoNewSends(p, now))
  {
    NewSendsMeaning(p, now);
    hide NewSendKeys, Plaintexts, InFlight, Fits, DoNewSends, HonestInv, QueueInv;
    HandOutHonest(p, DoNewSends(p, now), NewSendKeys(p.tx.unacked));
  }

  lemma NewSendsBudget(p: TxSide, now: nat, s: nat)
    requires QueueInv(p) && RetryInv(p) && BudgetInv(p) && InFlight(p.tx.unacked) <= WINDOW_SIZE
    requires s < Total(p.msgs)
    ensures DoNewSends(p, now).msgs == p.msgs && WithinBudget(DoNewSends(p, now), s)
  {
    hide NewSendKeys, UnsentKeys, Plaintexts, InFlight, Wire, Fits, Total, Fids, DoNewSends;
    NewSendsRest(p, now);
    NewSendsAt(p, now, s);
    NewSendsCount(p, now, s);
    assert WithinBudget(p, s);
    if s in p.tx.unacked { assert AttemptInv(p.tx.unacked[s], p.tx.maxAttempts); }
  }

  // A flush hands out each number it takes once.
  lemma NewSendsCount(p: TxSide, now: nat, s: nat)
    requires QueueInv(p) && InFlight(p.tx.unacked) <= WINDOW_SIZE && s < Total(p.msgs)
    ensures multiset(DoNewSends(p, now).frames)[Wire(p.msgs, s)]
         == multiset(p.frames)[Wire(p.msgs, s)] + if s in NewSendKeys(p.tx.unacked) then 1 else 0
  {
    var q := NewSendKeys(p.tx.unacked);
    NewSendKeysMeaning(p.tx.unacked);
    assert forall k :: k in q ==> k in p.tx.unacked;
    assert DoNewSends(p, now).frames == p.frames + Plaintexts(p.tx.unacked, q);
    hide NewSendKeys, UnsentKeys, Plaintexts, InFlight, Wire, Fits, Total, Fids, DoNewSends;
    PlaintextCount(p, q, s);
    CountSplit(p.frames, Plaintexts(p.tx.unacked, q), Wire(p.msgs, s));
  }

  lemma CountSplit(a: seq<bytes>, b: seq<bytes>, f: bytes)
    ensures multiset(a + b)[f] == multiset(a)[f] + multiset(b)[f]
  {}

  lemma NewSendsCross(p: TxSide, q: RxSide, now: nat)
    requires CrossInv(p, q) && QueueInv(p) && InFlight(p.tx.unacked) <= WINDOW_SIZE
    ensures CrossInv(DoNewSends(p, now), q)
  {
    NewSendsRest(p, now);
    hide NewSendKeys, Plaintexts, InFlight, DoNewSends, Got, CrossInv, QueueInv;
    var p' := DoNewSends(p, now);
    forall k: u32 ensures k in p'.tx.unacked <==> k in p.tx.unacked { NewSendsAt(p, now, k); }
    forall s: nat | WasSent(p.tx, s) ensures WasSent(p'.tx, s) {
      if s in p'.tx.unacked { NewSendsAt(p, now, s); }
    }
    CrossKept(p, p', q);
  }

  lemma NewSendsKeeps(p: TxSide, q: RxSide, now: nat)
    requires LinkInv(p, q) && now >= p.clock
    ensures LinkInv(DoNewSends(p, now), q)
  {
    NewSendsWindow(p, now);
    NewSendsRetry(p, now);
    NewSendsQueue(p, now);
    NewSendsHonest(p, now);
    NewSendsCross(p, q, now);
    NewSendsMsgs(p, now);
    NewSendsOut(p, now);
    NewSendsAhead(p, now);
    hide AheadInv, OutInv, QueueInv, RetryInv, WindowInv, WithinBudget, HonestInv, RecvInv, CrossInv, DoNewSends, InFlight;
    var p' := DoNewSends(p, now);
    forall s: nat | s < Total(p'.msgs) ensures WithinBudget(p', s) {
      NewSendsBudget(p, now, s);
    }
  }

  lemma NewSendsMsgs(p: TxSide, now: nat)
    ensures DoNewSends(p, now).msgs == p.msgs
  {}

  /* ---- retransmits ---- */

  // The numbers whose frames a scan marks as resent.
  ghost function ResentKeys(tx: Sender, now: nat): set<int> {
    if StuckKeys(tx, now) == {} then DueKeys(tx, now)
    else set k | k in DueKeys(tx, now) && k < Sorted(StuckKeys(tx, now))[0]
  }

  // u' is u with the due numbers in ks, each with an attempt left, marked as resent at `now`.
  ghost predicate Resent(tx: Sender, u': map<u32, Outgoing>, ks: set<int>, now: nat) {
    && (forall k :: k in u' <==> k in tx.unacked)
    && (forall k :: k in ks ==>
          && k in tx.unacked
          && Due(tx.unacked[k], now, tx.retx)
          && tx.unacked[k].attempts < tx.maxAttempts
          && u'[k] == tx.unacked[k].(lastSent := Some(now), attempts := tx.unacked[k].attempts + 1))
    && (forall k :: k in tx.unacked && k !in ks ==> u'[k] == tx.unacked[k])
  }

  // What a scan relies on.
  ghost predicate ScanInv(p: TxSide) {
    WindowInv(p.tx) && RetryInv(p) && AheadInv(p.tx)
  }

  // A frame below a stuck one is stuck as well.
  lemma StuckBelow(p: TxSide, now: nat, k: u32, l: u32)
    requires ScanInv(p) && k in p.tx.unacked && k < l && l in StuckKeys(p.tx, now)
    ensures k in StuckKeys(p.tx, now)
  {
    hide InFlight;
    var u := p.tx.unacked;
    assert AttemptInv(u[k], p.tx.maxAttempts) && AttemptInv(u[l], p.tx.maxAttempts) && Ahead(u[k], u[l]);
    assert WasSent(p.tx, l) ==> WasSent(p.tx, k);
  }

  /** A scan that gives up does so on the lowest number there is, before it has marked any frame. */
  lemma GivesUpAtOnce(p: TxSide, now: nat)
    requires ScanInv(p) && StuckKeys(p.tx, now) != {}
    ensures LowestUnacked(p.tx, Sorted(StuckKeys(p.tx, now))[0]) && ResentKeys(p.tx, now) == {}
  {
    var stuck: set<int> := StuckKeys(p.tx, now);
    var s := Sorted(stuck)[0];
    SortedFirst(stuck);
    hide ScanInv, Due, Sorted;
    forall k | k in p.tx.unacked ensures s <= k {
      if k < s { StuckBelow(p, now, k, s); }
    }
  }

  lemma RetransmitsMeaning(p: TxSide, now: nat) returns (q: seq<int>)
    requires ScanInv(p)
    ensures var p' := DoRetransmits(p, now);
            && p'.msgs == p.msgs && p'.clock == now && p'.first == p.first
            && p'.tx == p.tx.(unacked := p'.tx.unacked)
            && Resent(p.tx, p'.tx.unacked, ResentKeys(p.tx, now), now)
    ensures Ascending(q) && forall k :: k in q <==> k in p.tx.unacked && k in ResentKeys(p.tx, now)
    ensures DoRetransmits(p, now).frames == p.frames + Plaintexts(p.tx.unacked, q)
  {
    hide DoRetransmits, ResentKeys, Resent, ScanInv, Ascending, Plaintexts;
    RetransmitsState(p, now);
    q := RetransmitsFrames(p, now);
  }

  lemma RetransmitsState(p: TxSide, now: nat)
    ensures var p' := DoRetransmits(p, now);
            && p'.msgs == p.msgs && p'.clock == now && p'.first == p.first
            && p'.tx == p.tx.(unacked := p'.tx.unacked)
            && Resent(p.tx, p'.tx.unacked, ResentKeys(p.tx, now), now)
  {
    ResentMeaning(p.tx, now);
    hide Plaintexts, Sorted, Select, Resent;
    assert DoRetransmits(p, now).tx.unacked == MarkResent(p.tx.unacked, ResentKeys(p.tx, now), now);
  }

  lemma RetransmitsFrames(p: TxSide, now: nat) returns (q: seq<int>)
    requires ScanInv(p)
    ensures Ascending(q) && forall k :: k in q <==> k in p.tx.unacked && k in ResentKeys(p.tx, now)
    ensures DoRetransmits(p, now).frames == p.frames + Plaintexts(p.tx.unacked, q)
  {
    var due, stuck := DueKeys(p.tx, now), StuckKeys(p.tx, now);
    if stuck == {} {
      hide Plaintexts, Sorted, Select, ScanInv, Due;
      q := Select(Sorted(p.tx.unacked.Keys), due);
      SelectAscending(Sorted(p.tx.unacked.Keys), due);
    } else {
      GivesUpAtOnce(p, now);
      hide ResentKeys, ScanInv, Due;
      q := [];
      PlaintextsNone(p.tx.unacked);
    }
  }

  lemma ResentMeaning(tx: Sender, now: nat)
    ensures Resent(tx, MarkResent(tx.unacked, ResentKeys(tx, now), now), ResentKeys(tx, now), now)
  {
    hide Sorted, Due;
    var due: set<int>, stuck: set<int> := DueKeys(tx, now), StuckKeys(tx, now);
    forall k | k in ResentKeys(tx, now) ensures k in due && k !in stuck {
      assert k in stuck ==> k in Sorted(stuck);
    }
  }

  lemma PlaintextsNone(unacked: map<u32, Outgoing>)
    ensures Plaintexts(unacked, []) == []
  {}

  lemma RetransmitsWindow(p: TxSide, now: nat)
    requires ScanInv(p)
    ensures WindowInv(DoRetransmits(p, now).tx)
    ensures SentKept(p.tx, DoRetransmits(p, now).tx)
  {
    var q := RetransmitsMeaning(p, now);
    hide DoRetransmits, ResentKeys, Plaintexts, Ascending;
    var tx, tx' := p.tx, DoRetransmits(p, now).tx;
    SentUnchanged(tx, tx', ResentKeys(tx, now), now);
    hide Resent, InFlight;
  }

  lemma SentUnchanged(tx: Sender, tx': Sender, ks: set<int>, now: nat)
    requires Resent(tx, tx'.unacked, ks, now)
    ensures InFlight(tx'.unacked) == InFlight(tx.unacked)
    ensures forall k :: k in tx'.unacked <==> k in tx.unacked
    ensures forall k: nat :: WasSent(tx', k) <==> WasSent(tx, k)
  {
    forall k | k in tx.unacked ensures tx'.unacked[k].lastSent.Some? <==> tx.unacked[k].lastSent.Some? {
      if k in ks { assert Due(tx.unacked[k], now, tx.retx); }
    }
    assert SentKeys(tx'.unacked) == SentKeys(tx.unacked);
  }

  lemma ResentRetryAt(p: TxSide, p': TxSide, ks: set<int>, now: nat, k: u32)
    requires RetryInv(p) && now >= p.clock && k in p.tx.unacked
    requires Resent(p.tx, p'.tx.unacked, ks, now)
    requires p'.first == p.first && p'.clock == now
    requires p'.tx.maxAttempts == p.tx.maxAttempts && p'.tx.retx == p.tx.retx
    ensures AttemptInv(p'.tx.unacked[k], p'.tx.maxAttempts) && TimeInv(p', k, p'.tx.unacked[k])
  {
    var o := p.tx.unacked[k];
    assert AttemptInv(o, p.tx.maxAttempts) && TimeInv(p, k, o);
    if k in ks {
      var floor := p.first[k].floor;
      assert (o.attempts - 1) * floor + floor == o.attempts * floor;
    }
  }

  lemma RetransmitsRetry(p: TxSide, now: nat)
    requires ScanInv(p) && now >= p.clock
    ensures RetryInv(DoRetransmits(p, now))
  {
    var q := RetransmitsMeaning(p, now);
    hide DoRetransmits, ResentKeys, Plaintexts, Ascending, AttemptInv, TimeInv;
    var p' := DoRetransmits(p, now);
    assert forall k :: k in p'.tx.unacked <==> k in p.tx.unacked;
    hide Resent;
    forall k | k in p'.tx.unacked
      ensures AttemptInv(p'.tx.unacked[k], p'.tx.maxAttempts) && TimeInv(p', k, p'.tx.unacked[k])
    {
      ResentRetryAt(p, p', ResentKeys(p.tx, now), now, k);
    }
  }

  lemma RetransmitsQueue(p: TxSide, now: nat)
    requires QueueInv(p) && ScanInv(p)
    ensures QueueInv(DoRetransmits(p, now))
  {
    var q := RetransmitsMeaning(p, now);
    hide ScanInv;
    hide DoRetransmits, ResentKeys, Plaintexts, Ascending, Wire, Fits, Total, Fids;
  }

  lemma RetransmitsHonest(p: TxSide, now: nat)
    requires QueueInv(p) && HonestInv(p) && ScanInv(p)
    ensures DoRetransmits(p, now).msgs == p.msgs && HonestInv(DoRetransmits(p, now))
  {
    var q := RetransmitsMeaning(p, now);
    RetransmitsWindow(p, now);
    hide DoRetransmits, ResentKeys, Plaintexts, Ascending, HonestInv, QueueInv, ScanInv, SentKept, Due;
    HandOutHonest(p, DoRetransmits(p, now), q);
  }

  lemma RetransmitsOut(p: TxSide, now: nat)
    requires OutInv(p) && ScanInv(p)
    ensures OutInv(DoRetransmits(p, now))
  {
    hide ScanInv, DoRetransmits, ResentKeys, Plaintexts, Ascending;
    var p' := DoRetransmits(p, now);
    var q := RetransmitsMeaning(p, now);
    forall k | k in p'.tx.unacked && p'.tx.unacked[k].lastSent.Some?
      ensures p.tx.unacked[k].lastSent.Some? && p'.tx.unacked[k].plaintext == p.tx.unacked[k].plaintext
    {
      if k in ResentKeys(p.tx, now) { assert Due(p.tx.unacked[k], now, p.tx.retx); }
    }
    hide Resent;
  }

  lemma RetransmitsBudget(p: TxSide, now: nat, s: nat)
    requires QueueInv(p) && BudgetInv(p) && ScanInv(p) && s < Total(p.msgs)
    ensures DoRetransmits(p, now).msgs == p.msgs && WithinBudget(DoRetransmits(p, now), s)
  {
    var q := RetransmitsMeaning(p, now);
    hide ScanInv, DoRetransmits, ResentKeys, Plaintexts, Wire, Fits, Total, Fids, Due;
    PlaintextCount(p, q, s);
    CountSplit(p.frames, Plaintexts(p.tx.unacked, q), Wire(p.msgs, s));
    assert WithinBudget(p, s);
  }

  lemma RetransmitsAhead(p: TxSide, now: nat)
    requires ScanInv(p) && now >= p.clock
    ensures AheadInv(DoRetransmits(p, now).tx)
  {
    var q := RetransmitsMeaning(p, now);
    hide DoRetransmits, Plaintexts, Ascending, Ahead, ScanInv, Resent, ResentKeys;
    var p' := DoRetransmits(p, now);
    ResentSame(p.tx, p'.tx.unacked, ResentKeys(p.tx, now), now);
    forall k, l | k in p'.tx.unacked && l in p'.tx.unacked && k < l
      ensures Ahead(p'.tx.unacked[k], p'.tx.unacked[l])
    {
      RetransmitsAheadAt(p, p', now, k, l);
    }
  }

  lemma ResentSame(tx: Sender, u': map<u32, Outgoing>, ks: set<int>, now: nat)
    requires Resent(tx, u', ks, now)
    ensures forall k :: k in u' <==> k in tx.unacked
  {}

  lemma RetransmitsAheadAt(p: TxSide, p': TxSide, now: nat, k: u32, l: u32)
    requires ScanInv(p) && now >= p.clock && Resent(p.tx, p'.tx.unacked, ResentKeys(p.tx, now), now)
    requires k in p.tx.unacked && l in p.tx.unacked && k < l
    ensures k in p'.tx.unacked && l in p'.tx.unacked && Ahead(p'.tx.unacked[k], p'.tx.unacked[l])
  {
    if StuckKeys(p.tx, now) != {} { GivesUpAtOnce(p, now); }
    hide InFlight, Sorted;
    var u := p.tx.unacked;
    assert TimeInv(p, k, u[k]) && TimeInv(p, l, u[l]) && Ahead(u[k], u[l]);
  }

  lemma CrossKept(p: TxSide, p': TxSide, q: RxSide)
    requires CrossInv(p, q) && SentKept(p.tx, p'.tx) && p'.tx.nextSeq == p.tx.nextSeq
    requires forall k: nat :: k in p'.tx.unacked <==> k in p.tx.unacked
    ensures CrossInv(p', q)
  {
    hide Got, WasSent;
  }

  lemma RetransmitsKeeps(p: TxSide, q: RxSide, now: nat)
    requires LinkInv(p, q) && now >= p.clock
    ensures LinkInv(DoRetransmits(p, now), q)
  {
    RetransmitsWindow(p, now);
    RetransmitsRetry(p, now);
    RetransmitsQueue(p, now);
    RetransmitsHonest(p, now);
    RetransmitsOut(p, now);
    RetransmitsAhead(p, now);
    hide ScanInv, AheadInv, OutInv, QueueInv, RetryInv, WindowInv, WithinBudget, HonestInv, RecvInv, CrossInv, DoRetransmits, SentKept, Plaintexts, ResentKeys;
    var z := RetransmitsMeaning(p, now);
    var p' := DoRetransmits(p, now);
    CrossKept(p, p', q);
    forall s: nat | s < Total(p'.msgs) ensures WithinBudget(p', s) {
      RetransmitsBudget(p, now, s);
    }
  }

  lemma SetRetxKeeps(p: TxSide, q: RxSide, d: nat)
    requires LinkInv(p, q)
    ensures LinkInv(DoSetRetx(p, d), q)
  {
    SetRetxRetry(p, d);
    SetRetxQueue(p, d);
    CrossKept(p, DoSetRetx(p, d), q);
    SetRetxHonest(p, d);
    assert AheadInv(DoSetRetx(p, d).tx) by { hide Ahead; }
    hide AheadInv, RetryInv, RecvInv, CrossInv, QueueInv, WindowInv, HonestInv, BudgetInv, DoSetRetx;
    assert OutInv(DoSetRetx(p, d)) by { SetRetxOut(p, d); }
  }

  lemma SetRetxQueue(p: TxSide, d: nat)
    requires QueueInv(p) && WindowInv(p.tx)
    ensures QueueInv(DoSetRetx(p, d)) && WindowInv(DoSetRetx(p, d).tx)
  {
    hide Wire, Fits, Total, Fids, InFlight;
    assert forall s: nat :: WasSent(DoSetRetx(p, d).tx, s) == WasSent(p.tx, s);
  }

  lemma SetRetxOut(p: TxSide, d: nat)
    requires OutInv(p)
    ensures OutInv(DoSetRetx(p, d))
  {}

  lemma SetRetxHonest(p: TxSide, d: nat)
    requires Fits(p.msgs) && HonestInv(p) && BudgetInv(p)
    ensures HonestInv(DoSetRetx(p, d)) && BudgetInv(DoSetRetx(p, d))
  {
    hide Wire, Fits, Total, Honest;
    var p' := DoSetRetx(p, d);
    forall s: nat | s < Total(p'.msgs) ensures WithinBudget(p', s) {
      assert WithinBudget(p, s);
    }
    forall f | f in p'.frames ensures Honest(p', f) {
      HonestStays(p, p', f);
    }
  }

  lemma SetRetxRetry(p: TxSide, d: nat)
    requires RetryInv(p)
    ensures RetryInv(DoSetRetx(p, d))
  {
    var p' := DoSetRetx(p, d);
    hide TimeInv, AttemptInv;
    forall k | k in p.tx.unacked ensures TimeInv(p', k, p.tx.unacked[k]) {
      TimeRelaxed(p, d, k);
    }
  }

  lemma TimeRelaxed(p: TxSide, d: nat, k: u32)
    requires k in p.tx.unacked && TimeInv(p, k, p.tx.unacked[k]) && AttemptInv(p.tx.unacked[k], p.tx.maxAttempts)
    ensures TimeInv(DoSetRetx(p, d), k, p.tx.unacked[k])
  {
    var o := p.tx.unacked[k];
    if o.lastSent.Some? { MulMonotone(o.attempts - 1, Shortened(p.first[k], d).floor, p.first[k].floor); }
  }

  lemma MulMonotone(a: nat, b: nat, c: nat)
    requires b <= c
    ensures a * b <= a * c
  {}

  /* ---- the window span, and acknowledgements ---- */

  ghost predicate LowestUnacked(tx: Sender, m: nat) {
    m in tx.unacked && forall k :: k in tx.unacked ==> m <= k
  }

  // The furthest a frame can have been sent ahead of an unacknowledged one: the 32-frame count and
  // the 63-number span of acknowledged frames add up.
  lemma SentSpan(tx: Sender, m: nat, t: nat)
    requires WindowInv(tx) && m in tx.unacked && t < tx.nextSeq && WasSent(tx, t)
    ensures t <= m + 94
  {
    if t > m + 94 {
      var run := Run(m + WINDOW_BITS, t + 1);
      forall x | x in run ensures x in SentKeys(tx.unacked) {
        assert x in tx.unacked && t in tx.unacked;
        assert x == t || WasSent(tx, x);
      }
      assert WasSent(tx, m);
      assert m in SentKeys(tx.unacked) && m !in run;
      SubsetSize(run + {m}, SentKeys(tx.unacked));
    }
  }

  // The numbers from a up to b.
  ghost function Run(a: int, b: int): (r: set<int>)
    requires a <= b
    ensures forall x :: x in r <==> a <= x < b
    ensures |r| == b - a
    decreases b - a
  {
    if a == b then {} else Run(a, b - 1) + {b - 1}
  }

  // The receive base lies between the lowest unacknowledged number m and m + 95.
  lemma BaseSpan(p: TxSide, q: RxSide, m: nat)
    requires LinkInv(p, q) && LowestUnacked(p.tx, m)
    ensures m <= q.rx.base <= m + 95
  {
    hide Wire, Fits, Total, Fids, RetryInv, HonestInv, BudgetInv, AckInv, BufInv, HistoryInv, Got;
    if q.rx.base > 0 {
      assert q.rx.base - 1 in q.G();
      SentSpan(p.tx, m, q.rx.base - 1);
    }
    assert q.rx.base < m ==> q.rx.base in q.G();
  }

  lemma HasLowest(tx: Sender) returns (m: nat)
    requires tx.unacked != map[]
    ensures LowestUnacked(tx, m)
  {
    assert tx.unacked.Keys != {};
    m := HasLeast(tx.unacked.Keys);
  }

  // An ACK that claims no more than the receiver has is at most as far as its base.
  lemma StaleBase(G: set<nat>, base: nat, b: nat, w: nat)
    requires WindowOf(G, base) && Got(b, w) <= G
    ensures b <= base
  {
    assert base < b ==> base in Got(b, w);
  }

  /** On a reachable link the modular test reads every ACK, however stale, as the set it stands for. */
  lemma AckRead(p: TxSide, q: RxSide, b: u32, w: u64, s: nat)
    requires LinkInv(p, q) && Got(b, w) <= q.G() && s in p.tx.unacked
    ensures Acked(b, w, s) <==> s in Got(b, w)
  {
    hide Wire, Total, Fids, WindowInv, RetryInv, HonestInv, BudgetInv, AckInv, BufInv, HistoryInv, Got, Acked, CrossInv;
    var m := HasLowest(p.tx);
    BaseSpan(p, q, m);
    StaleBase(q.G(), q.rx.base, b, w);
    AckedExactly(b, w, s);
  }

  // tx' is tx with the numbers in `gone` removed.
  ghost predicate Removed(tx: Sender, tx': Sender, gone: set<nat>) {
    && tx' == tx.(unacked := tx'.unacked)
    && (forall k: nat :: k in tx'.unacked <==> k in tx.unacked && k !in gone)
    && (forall k :: k in tx'.unacked ==> tx'.unacked[k] == tx.unacked[k])
  }

  /** An ACK removes exactly the numbers of the set it stands for. */
  lemma AckMeaning(p: TxSide, q: RxSide, b: u32, w: u64)
    requires LinkInv(p, q) && Got(b, w) <= q.G()
    ensures Removed(p.tx, DoAck(p, b, w).tx, Got(b, w))
  {
    hide LinkInv, Got, Acked;
    forall k | k in p.tx.unacked ensures Acked(b, w, k) <==> k in Got(b, w) {
      AckRead(p, q, b, w, k);
    }
  }

  lemma RemovedWindow(tx: Sender, tx': Sender, b: nat, w: nat)
    requires WindowInv(tx) && Removed(tx, tx', Got(b, w))
    ensures WindowInv(tx') && SentKept(tx, tx')
  {
    SubsetSize(SentKeys(tx'.unacked), SentKeys(tx.unacked));
    hide InFlight, Bit;
    assert InFlight(tx'.unacked) <= InFlight(tx.unacked);
    forall s, t: nat | s in tx'.unacked && t < tx.nextSeq && t !in tx'.unacked ensures t < s + WINDOW_BITS {
      assert s !in Got(b, w);
    }
  }

  lemma RemovedBudget(p: TxSide, p': TxSide, gone: set<nat>, s: nat)
    requires Fits(p.msgs) && RetryInv(p) && Removed(p.tx, p'.tx, gone) && p' == p.(tx := p'.tx)
    requires s < Total(p.msgs) && WithinBudget(p, s)
    ensures WithinBudget(p', s)
  {
    hide Wire, Fits, Total;
    if s in p.tx.unacked { assert AttemptInv(p.tx.unacked[s], p.tx.maxAttempts); }
  }

  lemma RemovedRest(p: TxSide, p': TxSide, gone: set<nat>)
    requires QueueInv(p) && RetryInv(p) && HonestInv(p) && BudgetInv(p) && OutInv(p)
    requires Removed(p.tx, p'.tx, gone) && p' == p.(tx := p'.tx) && SentKept(p.tx, p'.tx)
    ensures QueueInv(p') && RetryInv(p') && HonestInv(p') && BudgetInv(p') && OutInv(p')
  {
    hide Wire, Fits, Total, Fids, SentKept, Honest, WithinBudget;
    forall f | f in p'.frames ensures Honest(p', f) {
      HonestStays(p, p', f);
    }
    forall s: nat | s < Total(p'.msgs) ensures WithinBudget(p', s) {
      RemovedBudget(p, p', gone, s);
    }
    assert forall k :: k in p'.tx.unacked ==> k in p.tx.unacked;
  }

  lemma RemovedAhead(tx: Sender, tx': Sender, gone: set<nat>)
    requires AheadInv(tx) && Removed(tx, tx', gone)
    ensures AheadInv(tx')
  {
    hide Ahead;
  }

  lemma RemovedCross(p: TxSide, p': TxSide, q: RxSide, gone: set<nat>)
    requires CrossInv(p, q) && Removed(p.tx, p'.tx, gone) && SentKept(p.tx, p'.tx) && gone <= q.G()
    ensures CrossInv(p', q)
  {
    hide Got, WasSent;
  }

  lemma AckKeeps(p: TxSide, q: RxSide, b: u32, w: u64)
    requires LinkInv(p, q) && Got(b, w) <= q.G()
    ensures LinkInv(DoAck(p, b, w), q)
  {
    AckMeaning(p, q, b, w);
    hide AheadInv, OutInv, QueueInv, WindowInv, RetryInv, HonestInv, BudgetInv, RecvInv, Got, OnAck, Removed, CrossInv, SentKept;
    var p' := DoAck(p, b, w);
    RemovedWindow(p.tx, p'.tx, b, w);
    RemovedRest(p, p', Got(b, w));
    RemovedCross(p, p', q, Got(b, w));
    RemovedAhead(p.tx, p'.tx, Got(b, w));
  }

  /* ---- receiving ---- */

  // Everything below the base is a number in use, so the base never wraps.
  lemma BaseInScope(p: TxSide, q: RxSide)
    requires CrossInv(p, q) && QueueInv(p) && WindowOf(q.G(), q.rx.base)
    ensures q.rx.base <= Total(p.msgs) <= SEQ_LIMIT
  {
    hide Wire, Total, Fids, Got;
    if q.rx.base > 0 { assert q.rx.base - 1 in q.G(); }
  }

  // `mark_received` while no number in use has wrapped.
  lemma MarkInScope(base: u32, bits: u64, s: nat, total: nat)
    requires WindowOf(Got(base, bits), base) && base <= total <= SEQ_LIMIT && s < total
    requires forall x :: x in Got(base, bits) ==> x < total
    ensures Accepts(base, bits, s) <==> base <= s < base + WINDOW_BITS && s !in Got(base, bits)
    ensures var m := Mark(base, bits, s);
            Got(m.0, m.1) == (if Accepts(base, bits, s) then Got(base, bits) + {s} else Got(base, bits))
            && WindowOf(Got(m.0, m.1), m.0)
  {
    hide Got, Accepts, Mark;
    var base' := MarkUnwrapped(base, bits, s);
    if Accepts(base, bits, s) {
      var w := Mark(base, bits, s).1;
      GotWindow(base', w);
      assert base' > 0 ==> base' - 1 in Got(base', w);
    }
  }

  lemma GotWindow(base: nat, bits: nat)
    requires base !in Got(base, bits)
    ensures WindowOf(Got(base, bits), base)
  {}

  lemma DataBase(q: RxSide, msgs: Messages, s: nat)
    requires Fits(msgs) && s < Total(msgs)
    ensures (DoData(q, msgs, s).rx.base, DoData(q, msgs, s).rx.bits) == Mark(q.rx.base, q.rx.bits, s)
    ensures DoData(q, msgs, s).acks == q.acks + [(DoData(q, msgs, s).rx.base, DoData(q, msgs, s).rx.bits)]
  {
    hide Wire, Total, Fids, Owner, Chunk, Slide, MarkBit, Accepts, Join;
  }

  // Arrival of frame s: it is accepted exactly when it is new and within the window, and then
  // exactly s is added.
  lemma DataWindow(p: TxSide, q: RxSide, s: nat)
    requires CrossInv(p, q) && QueueInv(p) && WindowOf(q.G(), q.rx.base) && s < Total(p.msgs)
    ensures var q' := DoData(q, p.msgs, s);
            && q'.G() == (if Accepts(q.rx.base, q.rx.bits, s) then q.G() + {s} else q.G())
            && WindowOf(q'.G(), q'.rx.base)
    ensures Accepts(q.rx.base, q.rx.bits, s) <==> q.rx.base <= s < q.rx.base + WINDOW_BITS && s !in q.G()
  {
    BaseInScope(p, q);
    DataBase(q, p.msgs, s);
    hide Wire, Total, Fids, Owner, Chunk, Mark, Accepts, Got, WindowOf, DoData;
    MarkInScope(q.rx.base, q.rx.bits, s, Total(p.msgs));
  }

  lemma AcceptedShape(q: RxSide, msgs: Messages, s: nat)
    requires Fits(msgs) && s < Total(msgs)
    ensures var q' := DoData(q, msgs, s);
            var i := Owner(msgs, s);
            var j := s - Start(msgs, i);
            var m := Mark(q.rx.base, q.rx.bits, s);
            q'.popped == q.popped
            && if Accepts(q.rx.base, q.rx.bits, s)
            then q'.rx == Reassemble(q.rx.(base := m.0, bits := m.1), Fid(msgs, i), j, Size(msgs, i), Chunk(msgs[i], j))
                 && q'.order == if |q'.rx.delivered| > |q.rx.delivered| then q.order + [i] else q.order
            else q'.rx == q.rx && q'.order == q.order
  {
    hide Wire, Total, Fids, Owner, Chunk, Slide, MarkBit, Accepts, Reassemble, Start, Fid;
  }

  lemma AcceptedReassembly(q: RxSide, msgs: Messages, s: nat)
    requires RecvInv(msgs, q) && s < Total(msgs) && Accepts(q.rx.base, q.rx.bits, s)
    requires q.rx.base <= s < q.rx.base + WINDOW_BITS && s !in q.G()
    ensures var q' := DoData(q, msgs, s);
            BufInv(msgs, q.G() + {s}, q'.rx.fragments) && HistoryInv(msgs, q.G() + {s}, q'.order, q'.History())
  {
    AcceptedShape(q, msgs, s);
    var m := Mark(q.rx.base, q.rx.bits, s);
    AcceptKeeps(msgs, q.G(), q.rx.base, s, q.rx.(base := m.0, bits := m.1), q.order, q.popped);
    hide Wire, Total, Fids, Owner, Chunk, Mark, Accepts, BufInv, HistoryInv, Got, Whole, Reassemble, DoData, Fid, Start, Size;
  }

  lemma DataReassembly(p: TxSide, q: RxSide, s: nat)
    requires CrossInv(p, q) && QueueInv(p) && RecvInv(p.msgs, q) && s < Total(p.msgs)
    ensures var q' := DoData(q, p.msgs, s);
            BufInv(p.msgs, q'.G(), q'.rx.fragments) && HistoryInv(p.msgs, q'.G(), q'.order, q'.History())
  {
    DataWindow(p, q, s);
    if Accepts(q.rx.base, q.rx.bits, s) {
      AcceptedReassembly(q, p.msgs, s);
    } else {
      AcceptedShape(q, p.msgs, s);
    }
    hide Wire, Total, Fids, Owner, Chunk, Mark, Accepts, BufInv, HistoryInv, AckInv, QueueInv, CrossInv, Got, WindowOf, DoData, Fid, Start, Size, Reassemble;
  }

  lemma DataAcks(q: RxSide, q': RxSide)
    requires AckInv(q) && q.G() <= q'.G() && q'.acks == q.acks + [(q'.rx.base, q'.rx.bits)]
    ensures AckInv(q')
  {
    hide Has;
  }

  lemma DataCross(p: TxSide, q: RxSide, q': RxSide, s: nat)
    requires CrossInv(p, q) && s < p.tx.nextSeq && WasSent(p.tx, s)
    requires q'.G() == q.G() + {s} || q'.G() == q.G()
    ensures CrossInv(p, q')
  {
    hide Got, WasSent;
  }

  lemma DataKeeps(p: TxSide, q: RxSide, s: nat)
    requires LinkInv(p, q) && s < Total(p.msgs) && WasSent(p.tx, s)
    ensures LinkInv(p, DoData(q, p.msgs, s))
  {
    DataWindow(p, q, s);
    DataReassembly(p, q, s);
    DataBase(q, p.msgs, s);
    hide Wire, Total, Fids, Accepts, Mark, RetryInv, HonestInv, BudgetInv, BufInv, HistoryInv, AckInv, WindowInv, Got, WindowOf, DoData, CrossInv, Fits, WasSent;
    var q' := DoData(q, p.msgs, s);
    DataCross(p, q, q', s);
    DataAcks(q, q');
  }

  lemma PopKeeps(p: TxSide, q: RxSide)
    requires LinkInv(p, q)
    ensures LinkInv(p, DoPop(q))
  {
    hide SendInv, Got, BufInv, HistoryInv, WindowOf, Fits;
    PopHides(q);
    hide DoPop;
  }

  // Taking a message changes neither the history nor what has been accepted.
  lemma PopHides(q: RxSide)
    ensures var q' := DoPop(q);
            && q'.History() == q.History() && q'.G() == q.G() && q'.acks == q.acks && q'.order == q.order
            && q'.rx.base == q.rx.base && q'.rx.fragments == q.rx.fragments
  {
    hide Got;
  }
}
