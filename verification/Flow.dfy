/** How far the two windows can drift apart, and what follows for buffers, ACKs and retries. */
module Flow {
  import opened Words
  import opened Ordered
  import opened Frame
  import opened Window
  import opened ArqModel
  import opened Ledger
  import opened Reassembly
  import opened Link
  import opened Network
  import opened Delivery

  /**
   Window span: with m the lowest unacknowledged number, the sent frames come first among the
   unacknowledged ones and are at most 32; nothing above m + 63 is acknowledged; nothing above m + 94
   has ever been sent; and the receive base lies between m and m + 95.
  */
  lemma WindowSpan(n: Net, side: Side, m: nat)
    requires Reachable(n)
    requires LowestUnacked(Tx(n, side).tx, m)
    ensures var tx, rx := Tx(n, side).tx, Rx(n, side).rx;
            && InFlight(tx.unacked) <= WINDOW_SIZE
            && (forall s, t :: s in tx.unacked && t in tx.unacked && s < t && WasSent(tx, t) ==> WasSent(tx, s))
            && (forall t: nat :: t < tx.nextSeq && t !in tx.unacked ==> t <= m + 63)
            && (forall t: nat :: t < tx.nextSeq && WasSent(tx, t) ==> t <= m + 94)
            && m <= rx.base <= m + 95
  {
    LinkAt(n, side);
    var p, q := Tx(n, side), Rx(n, side);
    BaseSpan(p, q, m);
    hide RecvInv, CrossInv, QueueInv, RetryInv, HonestInv, BudgetInv, WasSent, Tx, Rx, InFlight;
    forall t: nat | t < p.tx.nextSeq && WasSent(p.tx, t) ensures t <= m + 94 {
      SentSpan(p.tx, m, t);
    }
  }

  /* ---- acknowledgements ---- */

  // What the k-th ACK the peer ever emitted stands for.
  ghost function Claims(q: RxSide, k: nat): set<nat>
    requires k < |q.acks|
  {
    Got(q.acks[k].0, q.acks[k].1)
  }

  /**
   Ack safety: whatever ACK the peer has ever emitted arrives now, it removes exactly the numbers it
   stands for, and every number it removes has been accepted by the peer.
  */
  lemma AckSafety(n: Net, side: Side, k: nat)
    requires Reachable(n)
    requires k < |Rx(n, side).acks|
    ensures var p, q := Tx(n, side), Rx(n, side);
            var tx' := OnAck(p.tx, q.acks[k].0, q.acks[k].1);
            && Claims(q, k) <= q.G()
            && (forall s: nat :: s in tx'.unacked <==> s in p.tx.unacked && s !in Claims(q, k))
            && (forall s: nat :: s in p.tx.unacked && s !in tx'.unacked ==> s in q.G())
  {
    LinkAt(n, side);
    var p, q := Tx(n, side), Rx(n, side);
    EmittedAck(p, q, k);
    AckMeaning(p, q, q.acks[k].0, q.acks[k].1);
    hide LinkInv, OnAck, Got, Tx, Rx;
  }

  // The sender after the ACKs at the given positions have arrived one after the other.
  ghost function AfterAcks(p: TxSide, q: RxSide, ks: seq<nat>): TxSide
    requires forall i :: 0 <= i < |ks| ==> ks[i] < |q.acks|
  {
    if ks == [] then p
    else
      var k := ks[|ks| - 1];
      DoAck(AfterAcks(p, q, ks[..|ks| - 1]), q.acks[k].0, q.acks[k].1)
  }

  ghost function ClaimsOf(q: RxSide, ks: seq<nat>): set<nat>
    requires forall i :: 0 <= i < |ks| ==> ks[i] < |q.acks|
  {
    if ks == [] then {} else ClaimsOf(q, ks[..|ks| - 1]) + Claims(q, ks[|ks| - 1])
  }

  lemma RemovedTwice(tx: Sender, tx1: Sender, tx2: Sender, gone1: set<nat>, gone2: set<nat>)
    requires Removed(tx, tx1, gone1) && Removed(tx1, tx2, gone2)
    ensures Removed(tx, tx2, gone1 + gone2)
  {}

  lemma RemovedUnique(tx: Sender, tx1: Sender, tx2: Sender, gone: set<nat>)
    requires Removed(tx, tx1, gone) && Removed(tx, tx2, gone)
    ensures tx1.unacked == tx2.unacked
  {
    assert forall s: nat :: s in tx1.unacked <==> s in tx2.unacked;
    assert tx1.unacked.Keys == tx2.unacked.Keys;
  }

  lemma {:induction false} AcksRemove(p: TxSide, q: RxSide, ks: seq<nat>)
    requires LinkInv(p, q)
    requires forall i :: 0 <= i < |ks| ==> ks[i] < |q.acks|
    ensures Removed(p.tx, AfterAcks(p, q, ks).tx, ClaimsOf(q, ks)) && LinkInv(AfterAcks(p, q, ks), q)
  {
    if ks != [] {
      hide LinkInv, DoAck, Got, Removed;
      var init, k := ks[..|ks| - 1], ks[|ks| - 1];
      AcksRemove(p, q, init);
      EmittedAck(p, q, k);
      AckMeaning(AfterAcks(p, q, init), q, q.acks[k].0, q.acks[k].1);
      AckKeeps(AfterAcks(p, q, init), q, q.acks[k].0, q.acks[k].1);
      RemovedTwice(p.tx, AfterAcks(p, q, init).tx, AfterAcks(p, q, ks).tx, ClaimsOf(q, init), Claims(q, k));
    }
  }

  lemma {:induction false} LastClaimsAll(q: RxSide, ks: seq<nat>, last: nat)
    requires AckInv(q) && last < |q.acks|
    requires forall i :: 0 <= i < |ks| ==> ks[i] <= last
    ensures ClaimsOf(q, ks) <= Claims(q, last)
    ensures last in ks ==> ClaimsOf(q, ks) == Claims(q, last)
  {
    hide Got;
    if ks != [] {
      LastClaimsAll(q, ks[..|ks| - 1], last);
    }
  }

  /**
   Later ACKs subsume earlier ones: however many of the peer's ACKs arrive, in whatever order and
   with whatever repetitions, the sender ends up as if only the latest of them had arrived.
  */
  lemma LatestAckSuffices(n: Net, side: Side, ks: seq<nat>, last: nat)
    requires Reachable(n)
    requires last in ks && forall i :: 0 <= i < |ks| ==> ks[i] <= last
    requires last < |Rx(n, side).acks|
    ensures var p, q := Tx(n, side), Rx(n, side);
            AfterAcks(p, q, ks).tx.unacked == OnAck(p.tx, q.acks[last].0, q.acks[last].1).unacked
  {
    LinkAt(n, side);
    var p, q := Tx(n, side), Rx(n, side);
    AcksRemove(p, q, ks);
    LastClaimsAll(q, ks, last);
    EmittedAck(p, q, last);
    AckMeaning(p, q, q.acks[last].0, q.acks[last].1);
    hide LinkInv, OnAck, Got, AfterAcks, ClaimsOf, Tx, Rx, Removed;
    RemovedUnique(p.tx, AfterAcks(p, q, ks).tx, OnAck(p.tx, q.acks[last].0, q.acks[last].1), Claims(q, last));
  }

  /* ---- fragment ids and buffers ---- */

  // The 33 places open messages can have relative to the receive base.
  ghost function Place(msgs: Messages, base: nat, i: nat): nat
    requires i < |msgs|
  {
    if Start(msgs, i) <= base then 0 else 1 + (Start(msgs, i) - base - 1) / 2
  }

  lemma PlacesDiffer(msgs: Messages, G: set<nat>, base: nat, i: nat, k: nat)
    requires i < k < |msgs| && WindowOf(G, base) && Open(msgs, G, i) && Open(msgs, G, k)
    ensures Place(msgs, base, i) < Place(msgs, base, k) <= 32
  {
    OpenMeetsWindow(msgs, G, base, i);
    OpenMeetsWindow(msgs, G, base, k);
    StartStep(msgs, i);
    StartGap(msgs, i + 1, k);
  }

  // The open message a buffer belongs to.
  ghost function OwnerOf(msgs: Messages, G: set<nat>, buffers: map<u16, FragBuf>, f: u16): (i: nat)
    requires Fits(msgs) && BufInv(msgs, G, buffers) && f in buffers
    ensures i < |msgs| && Open(msgs, G, i) && Fid(msgs, i) == f
  {
    var i :| 0 <= i < |msgs| && Open(msgs, G, i) && Fid(msgs, i) == f;
    i
  }

  lemma {:induction false} Pigeonhole(place: map<int, nat>, n: nat)
    requires forall f :: f in place ==> place[f] < n
    requires forall f, g :: f in place && g in place && f != g ==> place[f] != place[g]
    ensures |place| <= n
  {
    if n == 0 {
      assert forall f :: f !in place;
      assert place.Keys == {};
    } else if f :| f in place && place[f] == n - 1 {
      Pigeonhole(place - {f}, n - 1);
      assert place.Keys == (place - {f}).Keys + {f};
    } else {
      Pigeonhole(place, n - 1);
    }
  }

  /**
   Fragment-id reuse never mixes messages: however many messages a run carries, each reassembly
   buffer belongs to one incomplete message and holds exactly its accepted parts, two messages in
   reassembly never share a fragment id, and there are at most 33 buffers.
  */
  lemma BuffersNeverMix(n: Net, side: Side)
    requires Reachable(n)
    ensures var msgs, q := Tx(n, side).msgs, Rx(n, side);
            && Fits(msgs) && BufInv(msgs, q.G(), q.rx.fragments)
            && (forall i, k :: 0 <= i < |msgs| && 0 <= k < |msgs| && i != k && Open(msgs, q.G(), i) && Open(msgs, q.G(), k)
                  ==> Fid(msgs, i) != Fid(msgs, k))
            && |q.rx.fragments| <= 33
  {
    LinkAt(n, side);
    var msgs, q := Tx(n, side).msgs, Rx(n, side);
    assert RecvInv(msgs, q);
    hide LinkInv, Tx, Rx, Fits, Got, AckInv, HistoryInv;
    var base, G := q.rx.base, q.G();
    hide Open, Fid, BufInv, WindowOf;
    forall i, k | 0 <= i < |msgs| && 0 <= k < |msgs| && i != k && Open(msgs, G, i) && Open(msgs, G, k)
      ensures Fid(msgs, i) != Fid(msgs, k)
    {
      OpenMeetsWindow(msgs, G, base, k);
      OpenDistinct(msgs, G, base, i, k);
    }
    BufferCount(msgs, G, base, q.rx.fragments);
  }

  lemma BufferCount(msgs: Messages, G: set<nat>, base: nat, buffers: map<u16, FragBuf>)
    requires Fits(msgs) && WindowOf(G, base) && BufInv(msgs, G, buffers)
    ensures |buffers| <= 33
  {
    hide Open, Fid, BufInv, WindowOf, Place;
    var place := map f: int | f in buffers :: Place(msgs, base, OwnerOf(msgs, G, buffers, f));
    forall f | f in place ensures place[f] < 33 {
      PlaceBound(msgs, G, base, OwnerOf(msgs, G, buffers, f));
    }
    forall f, g | f in place && g in place && f != g ensures place[f] != place[g] {
      var i, k := OwnerOf(msgs, G, buffers, f), OwnerOf(msgs, G, buffers, g);
      if i < k { PlacesDiffer(msgs, G, base, i, k); } else { PlacesDiffer(msgs, G, base, k, i); }
    }
    Pigeonhole(place, 33);
    assert place.Keys == buffers.Keys;
  }

  lemma PlaceBound(msgs: Messages, G: set<nat>, base: nat, i: nat)
    requires i < |msgs| && WindowOf(G, base) && Open(msgs, G, i)
    ensures Place(msgs, base, i) <= 32
  {
    OpenMeetsWindow(msgs, G, base, i);
  }

  /**
   Whenever a frame the peer has sent is newly accepted, a buffer already waiting under its fragment
   id agrees with it on the number of parts: the mismatch test of `on_data` never fires.
  */
  lemma NoMismatch(n: Net, side: Side, f: bytes)
    requires Reachable(n)
    requires f in Tx(n, side).frames
    requires DecodeInner(f).Ok? && DecodeInner(f).value.Data?
    requires Accepts(Rx(n, side).rx.base, Rx(n, side).rx.bits, DecodeInner(f).value.seqno)
    ensures var d, rx := DecodeInner(f).value, Rx(n, side).rx;
            && d.index < d.total <= MAX_FRAGMENTS
            && (d.total > 1 && d.fragId in rx.fragments
                ==> rx.fragments[d.fragId].total == d.total && d.index < |rx.fragments[d.fragId].parts| == d.total)
  {
    LinkAt(n, side);
    var p, q := Tx(n, side), Rx(n, side);
    assert Honest(p, f);
    var s := DecodeInner(f).value.seqno;
    WireDecodes(p.msgs, s);
    DataWindow(p, q, s);
    assert RecvInv(p.msgs, q);
    hide LinkInv, Tx, Rx, Got, AckInv, HistoryInv, WindowOf, BufInv, DoData, Total, Fids, Chunk, Owner, Wire, Accepts;
    if Size(p.msgs, Owner(p.msgs, s)) >= 2 {
      BufferFound(p.msgs, q.G(), q.rx.base, s, q.rx.fragments);
    }
  }

  /* ---- retries ---- */

  lemma FrameBudget(p: TxSide, f: bytes)
    requires SendInv(p)
    ensures multiset(p.frames)[f] <= 5
  {
    if f in p.frames {
      assert Honest(p, f);
      var s := DecodeInner(f).value.seqno;
      assert WithinBudget(p, s);
      hide Wire, Fits, Total;
      if s in p.tx.unacked { assert AttemptInv(p.tx.unacked[s], p.tx.maxAttempts); }
    }
  }

  lemma SameNumberSameFrame(p: TxSide, f: bytes, g: bytes)
    requires SendInv(p) && f in p.frames && g in p.frames
    ensures DecodeInner(f).Ok? && DecodeInner(f).value.Data? && DecodeInner(g).Ok? && DecodeInner(g).value.Data?
    ensures DecodeInner(f).value.seqno == DecodeInner(g).value.seqno ==> f == g
  {
    hide Wire, Fits, Total, WindowInv, RetryInv, BudgetInv, OutInv, DecodeInner;
    assert Honest(p, f) && Honest(p, g);
  }

  /**
   No frame is handed out more than five times, at most 32 are in flight, and a number is only ever
   handed out in one and the same frame.
  */
  lemma RetryBound(n: Net, side: Side, f: bytes, g: bytes)
    requires Reachable(n)
    ensures var p := Tx(n, side);
            && multiset(p.frames)[f] <= 5
            && InFlight(p.tx.unacked) <= 32
            && (f in p.frames && g in p.frames ==>
                  && DecodeInner(f).Ok? && DecodeInner(f).value.Data? && DecodeInner(g).Ok? && DecodeInner(g).value.Data?
                  && (DecodeInner(f).value.seqno == DecodeInner(g).value.seqno ==> f == g))
  {
    LinkAt(n, side);
    var p := Tx(n, side);
    FrameBudget(p, f);
    hide QueueInv, RetryInv, HonestInv, BudgetInv, OutInv, CrossInv, RecvInv, DecodeInner, Reachable;
    if f in p.frames && g in p.frames { SameNumberSameFrame(p, f, g); }
  }

  lemma GiveUpTime(p: TxSide, s: u32, now: nat)
    requires RetryInv(p) && now >= p.clock && s in StuckKeys(p.tx, now)
    ensures p.tx.unacked[s].attempts == 5 && s in p.first && now >= p.first[s].at + 5 * p.first[s].floor
  {
    assert AttemptInv(p.tx.unacked[s], p.tx.maxAttempts) && TimeInv(p, s, p.tx.unacked[s]);
  }

  lemma GiveUpMeaning(tx: Sender, now: nat)
    requires TakeRetransmits(tx, now).1.Err?
    ensures StuckKeys(tx, now) != {} && Sorted(StuckKeys(tx, now))[0] in StuckKeys(tx, now)
    ensures var s := Sorted(StuckKeys(tx, now))[0];
            s in tx.unacked && TakeRetransmits(tx, now).1.error == GiveUp(s, tx.unacked[s].attempts)
    ensures ResentKeys(tx, now) == {} ==> TakeRetransmits(tx, now).0 == tx
  {
    hide Plaintexts, Due;
    var stuck := StuckKeys(tx, now);
    assert Sorted(stuck)[0] in Sorted(stuck);
    assert ResentKeys(tx, now) == {} ==> MarkResent(tx.unacked, ResentKeys(tx, now), now) == tx.unacked;
  }

  /**
   A give-up names the lowest unacknowledged number, whose frame has by then been handed out exactly five
   times, and changes nothing in the queue: no scan marks a frame and then gives up. It comes at least five
   times the shortest retransmit timeout in force since then after that frame was first handed out.
  */
  lemma GiveUpTiming(n: Net, side: Side, now: nat)
    requires Reachable(n)
    requires now >= Tx(n, side).clock
    requires TakeRetransmits(Tx(n, side).tx, now).1.Err?
    ensures var p := Tx(n, side);
            var (tx', r) := TakeRetransmits(p.tx, now);
            var s := r.error.seqno;
            && tx' == p.tx && r.error.attempts == 5
            && LowestUnacked(p.tx, s)
            && s in p.tx.unacked && multiset(p.frames)[p.tx.unacked[s].plaintext] == 5
            && s in p.first && now >= p.first[s].at + 5 * p.first[s].floor
  {
    LinkAt(n, side);
    var p := Tx(n, side);
    GiveUpMeaning(p.tx, now);
    var s: u32 := Sorted(StuckKeys(p.tx, now))[0];
    GivesUpAtOnce(p, now);
    GiveUpTime(p, s, now);
    assert WithinBudget(p, s);
    hide TakeRetransmits, ResentKeys, RetryInv, WindowInv, AheadInv, HonestInv, CrossInv, RecvInv, Wire;
  }

  // Ever since s was first handed out, `side`'s retransmit timeout has been at least d.
  ghost predicate AtLeastSince(run: seq<Step>, side: Side, s: int, d: nat) {
    && (s in Tx(Exec(run), side).first ==> Tx(Exec(run), side).tx.retx >= d)
    && (run != [] ==> AtLeastSince(run[..|run| - 1], side, s, d))
  }

  lemma FloorStep(n: Net, step: Step, side: Side, s: int, d: nat)
    requires s in Tx(n, side).first ==> Tx(n, side).first[s].floor >= d && Tx(n, side).tx.retx >= d
    requires s in Tx(Next(n, step), side).first ==> Tx(Next(n, step), side).tx.retx >= d
    ensures s in Tx(Next(n, step), side).first ==> Tx(Next(n, step), side).first[s].floor >= d
  {
    hide ArqModel.Enqueue, TakeRetransmits, OnAck, OnData, ArqModel.Ingest, NewSendKeys, Enabled, Plaintexts, MarkSent;
  }

  lemma {:induction false} FloorMeaning(run: seq<Step>, side: Side, s: int, d: nat)
    requires AtLeastSince(run, side, s, d)
    ensures s in Tx(Exec(run), side).first ==> Tx(Exec(run), side).first[s].floor >= d
  {
    hide Next, Tx;
    if run == [] {
      NothingSent(side);
    } else {
      var before := run[..|run| - 1];
      FloorMeaning(before, side, s, d);
      FloorStep(Exec(before), run[|run| - 1], side, s, d);
    }
  }

  lemma NothingSent(side: Side)
    ensures Tx(Exec([]), side).first == map[]
  {}

  /**
   With a constant retransmit timeout, or one never below d since the number named was first handed
   out, a give-up comes no earlier than 5 * d after that.
  */
  lemma GiveUpConstant(run: seq<Step>, side: Side, now: nat, d: nat)
    requires now >= Tx(Exec(run), side).clock
    requires TakeRetransmits(Tx(Exec(run), side).tx, now).1.Err?
    requires AtLeastSince(run, side, TakeRetransmits(Tx(Exec(run), side).tx, now).1.error.seqno, d)
    ensures var p := Tx(Exec(run), side);
            var s := TakeRetransmits(p.tx, now).1.error.seqno;
            s in p.first && now >= p.first[s].at + 5 * d
  {
    hide TakeRetransmits;
    var n := Exec(run);
    assert Reachable(n);
    GiveUpTiming(n, side, now);
    FloorMeaning(run, side, TakeRetransmits(Tx(n, side).tx, now).1.error.seqno, d);
    hide Exec, Tx;
  }
}
