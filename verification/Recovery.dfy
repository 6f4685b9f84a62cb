/**
 Retransmission in every reachable state: when a frame is handed out again, and that the sender recovers
 from the loss of everything emitted so far.
*/
module Recovery {
  import opened Words
  import opened Wrappers
  import opened Ordered
  import opened Frame
  import opened Window
  import opened ArqModel
  import opened ArqExact
  import opened Link
  import opened Network
  import opened Delivery
  import opened Flow
  import opened Progress

  /* ---- when a frame is handed out again ---- */

  // On a link, having timed out is a matter of the last hand-out alone.
  lemma TimedOutOnLink(p: TxSide, now: nat)
    requires RetryInv(p) && now >= p.clock
    ensures forall k :: k in p.tx.unacked ==>
              (TimedOut(p.tx.unacked[k], now, p.tx.retx)
               <==> p.tx.unacked[k].lastSent.Some? && now >= p.tx.unacked[k].lastSent.value + p.tx.retx)
    ensures forall k :: k in p.tx.unacked ==> (p.tx.unacked[k].attempts >= p.tx.maxAttempts <==> p.tx.unacked[k].attempts == 5)
  {
    forall k | k in p.tx.unacked
      ensures p.tx.unacked[k].lastSent.Some? ==> p.tx.unacked[k].lastSent.value <= now
      ensures p.tx.unacked[k].attempts <= 5
    {
      assert TimeInv(p, k, p.tx.unacked[k]) && AttemptInv(p.tx.unacked[k], p.tx.maxAttempts);
    }
  }

  /**
   Retransmitting in a run, exactly: at `now`, the scan gives up if and only if some frame was last sent at
   least the timeout ago and has had five attempts, and then changes nothing. Otherwise every frame last sent
   at least the timeout ago is handed out exactly once, in ascending order, marked as sent now, once more; and
   nothing else changes.
  */
  lemma ResendsExactly(n: Net, side: Side, now: nat) returns (ks: seq<int>)
    requires Reachable(n) && now >= Tx(n, side).clock
    ensures var tx := Tx(n, side).tx;
            var (tx', r) := TakeRetransmits(tx, now);
            && (r.Err? <==> exists k :: k in tx.unacked && tx.unacked[k].lastSent.Some?
                              && now >= tx.unacked[k].lastSent.value + tx.retx && tx.unacked[k].attempts == 5)
            && (r.Err? ==> tx' == tx)
            && (forall k :: k in ks <==>
                  (k in tx.unacked && tx.unacked[k].lastSent.Some? && now >= tx.unacked[k].lastSent.value + tx.retx))
            && (r.Ok? ==> HandsOut(tx.unacked, ks, r.value))
            && tx' == tx.(unacked := tx'.unacked) && (forall k :: k in tx'.unacked <==> k in tx.unacked)
            && (r.Ok? ==> forall k :: k in tx.unacked ==>
                  tx'.unacked[k] == if k in ks then Outgoing(tx.unacked[k].plaintext, Some(now), tx.unacked[k].attempts + 1)
                                    else tx.unacked[k])
  {
    LinkAt(n, side);
    var p := Tx(n, side);
    hide QueueInv, WindowInv, AheadInv, HonestInv, BudgetInv, OutInv, CrossInv, RecvInv, Tx, Reachable;
    TimedOutOnLink(p, now);
    hide RetryInv, TimedOut, HandsOut, TakeRetransmits;
    ks := RetransmitsExactly(p.tx, now);
    if TakeRetransmits(p.tx, now).1.Err? { GiveUpTiming(n, side, now); }
  }

  // A frame that is lost is handed out again once the timeout has passed.
  lemma LostFrameReturns(n: Net, side: Side, now: nat, m: nat)
    requires Reachable(n) && now >= Tx(n, side).clock && LowestUnacked(Tx(n, side).tx, m)
    requires var o := Tx(n, side).tx.unacked[m];
             o.lastSent.Some? && now >= o.lastSent.value + Tx(n, side).tx.retx && o.attempts < 5
    ensures var o, r := Tx(n, side).tx.unacked[m], TakeRetransmits(Tx(n, side).tx, now).1;
            r.Ok? && o.plaintext in r.value
  {
    var ks := ResendsExactly(n, side, now);
    var tx := Tx(n, side).tx;
    var r := TakeRetransmits(tx, now).1;
    if r.Err? { GiveUpTiming(n, side, now); }
    hide TakeRetransmits, Tx, Reachable;
    var i :| 0 <= i < |ks| && ks[i] == m;
    assert r.Ok? ==> r.value[i] == tx.unacked[m].plaintext;
  }

  /* ---- following steps from a state ---- */

  ghost function Follow(n: Net, more: seq<Step>): Net
    decreases |more|
  {
    if more == [] then n else Follow(Next(n, more[0]), more[1..])
  }

  lemma {:induction false} FollowAppend(n: Net, a: seq<Step>, b: seq<Step>)
    ensures Follow(n, a + b) == Follow(Follow(n, a), b)
    decreases |a|
  {
    hide Next;
    if a == [] {
      assert a + b == b;
    } else {
      assert (a + b)[1..] == a[1..] + b;
      FollowAppend(Next(n, a[0]), a[1..], b);
    }
  }

  lemma {:induction false} ExecFollow(run: seq<Step>, more: seq<Step>)
    ensures Exec(run + more) == Follow(Exec(run), more)
    decreases |more|
  {
    hide Next;
    if more == [] {
      assert run + more == run;
    } else {
      ExecNext(run, more[0]);
      ExecFollow(run + [more[0]], more[1..]);
      assert run + more == run + [more[0]] + more[1..];
    }
  }

  lemma FollowReachable(n: Net, more: seq<Step>)
    requires Reachable(n)
    ensures Reachable(Follow(n, more))
  {
    hide Follow;
    var run :| n == Exec(run);
    ExecFollow(run, more);
  }

  lemma FollowThree(n: Net, s1: Step, s2: Step, s3: Step)
    ensures Follow(n, [s1, s2, s3]) == Next(Next(Next(n, s1), s2), s3)
  {
    hide Next;
    assert [s1, s2, s3][1..] == [s2, s3] && [s2, s3][1..] == [s3];
    assert Follow(Next(Next(n, s1), s2), [s3]) == Follow(Next(Next(Next(n, s1), s2), s3), []);
  }

  lemma FollowOne(n: Net, s: Step)
    ensures Follow(n, [s]) == Next(n, s)
  {
    hide Next;
    assert Follow(n, [s]) == Follow(Next(n, s), []);
  }

  /* ---- recovery ---- */

  // `from` has emitted f since it was `from0`.
  ghost predicate EmittedSince(from0: Peer, from: Peer, f: bytes) {
    || (|from0.out.frames| <= |from.out.frames| && f in from.out.frames[|from0.out.frames|..])
    || exists k :: |from0.inn.acks| <= k < |from.inn.acks| && f == EncodeAck(from.inn.acks[k].0, from.inn.acks[k].1)
  }

  // The steps from n on ingest only frames emitted since n0.
  ghost predicate Fresh(n0: Net, n: Net, more: seq<Step>)
    decreases |more|
  {
    more != [] ==>
      var (who, action) := more[0];
      && (action.Ingest? ==> EmittedSince(At(n0, Other(who)), At(n, Other(who)), action.f))
      && Fresh(n0, Next(n, more[0]), more[1..])
  }

  lemma {:induction false} FreshAppend(n0: Net, n: Net, a: seq<Step>, b: seq<Step>)
    requires Fresh(n0, n, a) && Fresh(n0, Follow(n, a), b)
    ensures Fresh(n0, n, a + b)
    decreases |a|
  {
    hide Next, EmittedSince;
    if a == [] {
      assert a + b == b;
    } else {
      assert (a + b)[1..] == a[1..] + b;
      FreshAppend(n0, Next(n, a[0]), a[1..], b);
    }
  }

  lemma FreshThree(n0: Net, n: Net, s1: Step, s2: Step, s3: Step)
    requires s1.1.NewSends? && s2.1.Ingest? && s3.1.Ingest?
    requires EmittedSince(At(n0, Other(s2.0)), At(Next(n, s1), Other(s2.0)), s2.1.f)
    requires EmittedSince(At(n0, Other(s3.0)), At(Next(Next(n, s1), s2), Other(s3.0)), s3.1.f)
    ensures Fresh(n0, n, [s1, s2, s3])
  {
    hide Next, EmittedSince;
    assert [s1, s2, s3][1..] == [s2, s3] && [s2, s3][1..] == [s3] && [s3][1..] == [];
    assert Fresh(n0, Next(Next(Next(n, s1), s2), s3), []);
    assert Fresh(n0, Next(Next(n, s1), s2), [s3]);
    assert Fresh(n0, Next(n, s1), [s2, s3]);
  }

  // Every frame in flight has been handed out again since `since` frames had been.
  ghost predicate OutSince(since: nat, p: TxSide) {
    && since <= |p.frames|
    && forall k :: k in p.tx.unacked && p.tx.unacked[k].lastSent.Some? ==> p.tx.unacked[k].plaintext in p.frames[since..]
  }

  lemma NewSendsSince(since: nat, p: TxSide, now: nat)
    requires OutSince(since, p) && InFlight(p.tx.unacked) <= WINDOW_SIZE
    ensures OutSince(since, DoNewSends(p, now))
  {
    var p', q := DoNewSends(p, now), NewSendKeys(p.tx.unacked);
    NewSendsMeaning(p, now);
    hide DoNewSends, NewSendKeys, Plaintexts, InFlight, OutSince;
    var out := Plaintexts(p.tx.unacked, q);
    assert p'.frames == p.frames + out;
    forall k | k in p'.tx.unacked && p'.tx.unacked[k].lastSent.Some?
      ensures p'.tx.unacked[k].plaintext in p'.frames[since..]
    {
      if k in q { PlaintextIn(p.tx.unacked, q, k); }
      SinceAt(since, p, out, k, p'.tx.unacked[k].plaintext);
    }
    SinceAll(since, p, p');
  }

  // A frame in flight before, or handed out now, has been handed out since.
  lemma SinceAt(since: nat, p: TxSide, out: seq<bytes>, k: u32, f: bytes)
    requires OutSince(since, p)
    requires f in out || (k in p.tx.unacked && p.tx.unacked[k].lastSent.Some? && p.tx.unacked[k].plaintext == f)
    ensures since <= |p.frames + out| && f in (p.frames + out)[since..]
  {
    assert (p.frames + out)[since..] == p.frames[since..] + out;
  }

  lemma SinceAll(since: nat, p: TxSide, p': TxSide)
    requires OutSince(since, p) && |p.frames| <= |p'.frames|
    requires forall k :: k in p'.tx.unacked && p'.tx.unacked[k].lastSent.Some? ==> p'.tx.unacked[k].plaintext in p'.frames[since..]
    ensures OutSince(since, p')
  {}

  lemma AckSince(since: nat, p: TxSide, base: u32, bits: u64)
    requires OutSince(since, p)
    ensures OutSince(since, DoAck(p, base, bits))
  {
    hide Acked;
  }

  // After a scan in which every frame in flight has timed out, all of them have been handed out again.
  lemma ScanSince(n: Net, side: Side, now: nat)
    requires Reachable(n) && now >= Tx(n, side).clock && NothingSpent(Tx(n, side).tx, now)
    ensures OutSince(|Tx(n, side).frames|, DoRetransmits(Tx(n, side), now))
    ensures var p' := DoRetransmits(Tx(n, side), now);
            p'.msgs == Tx(n, side).msgs && p'.clock == now && p'.tx.unacked.Keys == Tx(n, side).tx.unacked.Keys
  {
    hide DoRetransmits, TakeRetransmits, Tx, Reachable, NothingSpent;
    var p := Tx(n, side);
    var out := ScanHandsOut(n, side, now);
    Retransmitted(p, now);
    var p' := DoRetransmits(p, now);
    assert p'.frames[|p.frames|..] == out;
  }

  lemma Retransmitted(p: TxSide, now: nat)
    ensures var (p', (tx', r)) := (DoRetransmits(p, now), TakeRetransmits(p.tx, now));
            && p'.tx == tx' && p'.msgs == p.msgs && p'.clock == now
            && p'.frames == if r.Ok? then p.frames + r.value else p.frames
  {
    hide TakeRetransmits;
  }

  lemma ScanHandsOut(n: Net, side: Side, now: nat) returns (out: seq<bytes>)
    requires Reachable(n) && now >= Tx(n, side).clock && NothingSpent(Tx(n, side).tx, now)
    ensures var (tx', r) := TakeRetransmits(Tx(n, side).tx, now);
            && r.Ok? && r.value == out && tx'.unacked.Keys == Tx(n, side).tx.unacked.Keys
            && (forall k :: k in tx'.unacked && tx'.unacked[k].lastSent.Some? ==> tx'.unacked[k].plaintext in out)
  {
    hide TakeRetransmits, HandsOut;
    var ks := ResendsExactly(n, side, now);
    var tx := Tx(n, side).tx;
    var (tx', r) := TakeRetransmits(tx, now);
    if r.Err? {
      GiveUpTiming(n, side, now);
      GiveUpMeaning(tx, now);
    }
    hide Tx, Reachable;
    assert r.Ok?;
    out := r.value;
    AllResent(tx, tx', ks, out, now);
    hide NothingSpent, LowestUnacked;
    assert forall k :: k in tx'.unacked.Keys <==> k in tx.unacked.Keys;
  }

  lemma AllResent(tx: Sender, tx': Sender, ks: seq<int>, out: seq<bytes>, now: nat)
    requires NothingSpent(tx, now) && HandsOut(tx.unacked, ks, out)
    requires forall k :: k in ks <==>
               (k in tx.unacked && tx.unacked[k].lastSent.Some? && now >= tx.unacked[k].lastSent.value + tx.retx)
    requires forall k :: k in tx'.unacked <==> k in tx.unacked
    requires forall k :: k in tx.unacked ==>
               tx'.unacked[k] == if k in ks then Outgoing(tx.unacked[k].plaintext, Some(now), tx.unacked[k].attempts + 1)
                                 else tx.unacked[k]
    ensures forall k :: k in tx'.unacked && tx'.unacked[k].lastSent.Some? ==> tx'.unacked[k].plaintext in out
  {
    hide LowestUnacked, Ascending;
    forall k | k in tx'.unacked && tx'.unacked[k].lastSent.Some? ensures tx'.unacked[k].plaintext in out {
      var i :| 0 <= i < |ks| && ks[i] == k;
      assert out[i] == tx.unacked[k].plaintext;
    }
  }

  // Every frame in flight was last sent at least the timeout ago, and the lowest has an attempt left.
  ghost predicate NothingSpent(tx: Sender, now: nat) {
    && (forall k :: k in tx.unacked && tx.unacked[k].lastSent.Some? ==> now >= tx.unacked[k].lastSent.value + tx.retx)
    && (forall m :: LowestUnacked(tx, m) ==> tx.unacked[m].attempts < 5)
  }

  // What a round keeps.
  ghost predicate Recovering(n0: Net, n: Net, side: Side) {
    && NetInv(n) && OutSince(|Tx(n0, side).frames|, Tx(n, side)) && |Rx(n0, side).acks| <= |Rx(n, side).acks|
  }

  // A frame in flight that was handed out again is fresh.
  lemma FrameFresh(n0: Net, n1: Net, side: Side, m: nat)
    requires OutSince(|Tx(n0, side).frames|, Tx(n1, side)) && m in Tx(n1, side).tx.unacked && WasSent(Tx(n1, side).tx, m)
    ensures EmittedSince(At(n0, side), At(n1, side), Tx(n1, side).tx.unacked[m].plaintext)
  {}

  // The last of more ACKs than before is fresh.
  lemma AckFresh(n0: Net, n2: Net, side: Side, k: nat)
    requires |Rx(n0, side).acks| <= k < |Rx(n2, side).acks|
    ensures EmittedSince(At(n0, Other(side)), At(n2, Other(side)), EncodeAck(Rx(n2, side).acks[k].0, Rx(n2, side).acks[k].1))
  {
    hide EncodeAck;
  }

  lemma OtherTwice(side: Side)
    ensures Other(Other(side)) == side
  {}

  lemma RecoverRound(n0: Net, n: Net, side: Side, now: nat) returns (more: seq<Step>)
    requires Recovering(n0, n, side) && now >= Tx(n, side).clock && Tx(n, side).tx.unacked != map[]
    ensures |more| == 3 && Quiet(more) && Fresh(n0, n, more) && Recovering(n0, Follow(n, more), side)
    ensures var p, p' := Tx(n, side), Tx(Follow(n, more), side);
            p'.msgs == p.msgs && p'.clock == now && |p'.tx.unacked| < |p.tx.unacked|
  {
    hide NetInv, LinkInv, Next, DoAck, Got, EncodeAck, DoNewSends, InFlight, OutSince, Fresh, Follow, EmittedSince, WasSent;
    var m := HasLowest(Tx(n, side).tx);
    assert m in Tx(n, side).tx.unacked.Keys;
    TxWindow(n, side);
    assert InFlight(Tx(n, side).tx.unacked) <= WINDOW_SIZE;
    OtherTwice(side);
    var s1, s2 := SendLowest(n, side, now, m);
    hide LowestUnacked, WindowInv, Tx, Rx, At;
    var n1 := Next(n, s1);
    var n2 := Next(n1, s2);
    var k := |Rx(n2, side).acks| - 1;
    var base, bits := Rx(n2, side).acks[k].0, Rx(n2, side).acks[k].1;
    var s3: Step := (side, Action.Ingest(EncodeAck(base, bits)));
    more := [s1, s2, s3];
    FollowThree(n, s1, s2, s3);
    AckStep(n2, side, k);
    RoundSince(n0, n, n1, n2, Next(n2, s3), side, now, base, bits);
    FrameFresh(n0, n1, side, m);
    AckFresh(n0, n2, side, k);
    FreshThree(n0, n, s1, s2, s3);
    NextKeeps(n, s1);
    NextKeeps(n1, s2);
    NextKeeps(n2, s3);
    RoundLess(n2, Next(n2, s3), side, m, base, bits);
    AckLeaves(Tx(n2, side), base, bits);
  }

  lemma RoundLess(n2: Net, n3: Net, side: Side, m: nat, base: u32, bits: u64)
    requires Answered(Tx(n2, side), Rx(n2, side), m) && m in Tx(n2, side).tx.unacked
    requires (base, bits) == (Rx(n2, side).rx.base, Rx(n2, side).rx.bits) && Tx(n3, side) == DoAck(Tx(n2, side), base, bits)
    ensures |Tx(n3, side).tx.unacked| < |Tx(n2, side).tx.unacked|
  {
    hide DoAck, Got, Tx, Rx, Removed;
    Shrinks(Tx(n2, side).tx, Tx(n3, side).tx, Rx(n2, side).G(), m);
  }

  lemma AckLeaves(p: TxSide, base: u32, bits: u64)
    ensures DoAck(p, base, bits).msgs == p.msgs && DoAck(p, base, bits).clock == p.clock
  {
    hide OnAck;
  }

  lemma RoundSince(n0: Net, n: Net, n1: Net, n2: Net, n3: Net, side: Side, now: nat, base: u32, bits: u64)
    requires OutSince(|Tx(n0, side).frames|, Tx(n, side)) && InFlight(Tx(n, side).tx.unacked) <= WINDOW_SIZE
    requires Tx(n1, side) == Tx(n2, side) == DoNewSends(Tx(n, side), now) && Tx(n3, side) == DoAck(Tx(n2, side), base, bits)
    ensures OutSince(|Tx(n0, side).frames|, Tx(n1, side)) && OutSince(|Tx(n0, side).frames|, Tx(n3, side))
  {
    hide OutSince, Tx, DoNewSends, DoAck, InFlight;
    NewSendsSince(|Tx(n0, side).frames|, Tx(n, side), now);
    AckSince(|Tx(n0, side).frames|, Tx(n2, side), base, bits);
  }

  lemma {:induction false} RecoverAll(n0: Net, n: Net, side: Side, now: nat) returns (more: seq<Step>)
    requires Recovering(n0, n, side) && now >= Tx(n, side).clock
    ensures |more| <= 3 * |Tx(n, side).tx.unacked| && Quiet(more) && Fresh(n0, n, more)
    ensures var p, p' := Tx(n, side), Tx(Follow(n, more), side); p'.msgs == p.msgs && p'.tx.unacked == map[]
    decreases |Tx(n, side).tx.unacked|
  {
    hide Recovering;
    if Tx(n, side).tx.unacked == map[] {
      more := [];
    } else {
      var first := RecoverRound(n0, n, side, now);
      var rest := RecoverAll(n0, Follow(n, first), side, now);
      more := first + rest;
      hide Follow, Fresh;
      FollowAppend(n, first, rest);
      FreshAppend(n0, n, first, rest);
    }
  }

  /**
   Recovery: let everything emitted so far be lost. If every frame in flight was last sent at least the
   timeout ago and the lowest of them has an attempt left, then one retransmit scan, and after it flushes and
   deliveries of nothing but frames emitted since, empty the queue; and then everything enqueued has been
   delivered.
  */
  lemma Recover(n: Net, side: Side, now: nat) returns (more: seq<Step>)
    requires Reachable(n) && now >= Tx(n, side).clock && NothingSpent(Tx(n, side).tx, now)
    ensures |more| <= 3 * |Tx(n, side).tx.unacked| + 1
    ensures more != [] && more[0] == (side, Retransmits(now)) && Quiet(more[1..]) && Fresh(n, n, more)
    ensures var p, p', q' := Tx(n, side), Tx(Follow(n, more), side), Rx(Follow(n, more), side);
            p'.msgs == p.msgs && p'.tx.unacked == map[] && multiset(q'.History()) == multiset(p.msgs)
  {
    hide Recovering, NetInv, Next, Reachable, NothingSpent, Tx, Rx, Follow, Fresh, Quiet;
    var scan: Step := (side, Retransmits(now));
    AfterScan(n, side, now);
    var n1 := Next(n, scan);
    var rest := RecoverAll(n, n1, side, now);
    more := [scan] + rest;
    assert more[1..] == rest;
    ScanFirst(n, scan, rest);
    FollowReachable(n, more);
    SuccessMeansDelivered(Follow(n, more), side);
  }

  lemma ScanFirst(n: Net, scan: Step, rest: seq<Step>)
    requires scan.1.Retransmits? && Fresh(n, Next(n, scan), rest)
    ensures Follow(n, [scan] + rest) == Follow(Next(n, scan), rest) && Fresh(n, n, [scan] + rest)
  {
    hide Next, EmittedSince;
    assert ([scan] + rest)[1..] == rest;
  }

  lemma AfterScan(n: Net, side: Side, now: nat)
    requires Reachable(n) && now >= Tx(n, side).clock && NothingSpent(Tx(n, side).tx, now)
    ensures var n1 := Next(n, (side, Retransmits(now)));
            && Recovering(n, n1, side) && Tx(n1, side).clock == now && Tx(n1, side).msgs == Tx(n, side).msgs
            && |Tx(n1, side).tx.unacked| == |Tx(n, side).tx.unacked|
  {
    hide Next, DoRetransmits, NetInv, OutSince, NothingSpent, Reachable, Tx, Rx;
    ScanSince(n, side, now);
    ScanStep(n, side, now);
    NetReachable(n);
    NextKeeps(n, (side, Retransmits(now)));
    var n1 := Next(n, (side, Retransmits(now)));
    assert |Tx(n1, side).tx.unacked| == |Tx(n1, side).tx.unacked.Keys|;
  }

  lemma ScanStep(n: Net, side: Side, now: nat)
    requires now >= Tx(n, side).clock
    ensures var n' := Next(n, (side, Retransmits(now)));
            Tx(n', side) == DoRetransmits(Tx(n, side), now) && Rx(n', side) == Rx(n, side)
  {
    hide DoRetransmits, Next;
    NextAct(n, side, Retransmits(now));
  }

  lemma NetReachable(n: Net)
    requires Reachable(n)
    ensures NetInv(n)
  {
    var run :| n == Exec(run);
    Always(run);
  }
}
