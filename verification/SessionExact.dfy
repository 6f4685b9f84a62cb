/**
 What the session's steps and waiting loops do, turn by turn: a flush on the queue's fields, an arrival
 by the kind of frame, and which turn ends a loop and how.
*/
module SessionExact {
  import opened Words
  import opened Wrappers
  import opened Ordered
  import opened Frame
  import opened Window
  import opened ArqModel
  import opened ArqExact
  import opened Network
  import opened SessionModel

  /* ---- one flush ---- */

  // Nothing ever changes the number of attempts.
  lemma {:induction false} FiveAttempts(trace: seq<Action>)
    ensures Replay(trace).tx.maxAttempts == 5
  {
    if trace != [] {
      FiveAttempts(trace[..|trace| - 1]);
      AttemptsKept(Replay(trace[..|trace| - 1]), trace[|trace| - 1]);
      hide Do;
    }
  }

  lemma AttemptsKept(s: Local, action: Action)
    ensures Do(s, action).tx.maxAttempts == s.tx.maxAttempts
  {
    hide AddFrames, NewSendKeys, Plaintexts, Sorted, Select, OnData, DecodeInner, NumFrames;
  }

  // A frame that has timed out with its attempts used up.
  ghost predicate Spent(u: map<u32, Outgoing>, k: int, now: nat, retx: nat, max: nat) {
    k in u && TimedOut(u[k], now, retx) && u[k].attempts >= max
  }

  // u' is u with the numbers in `news`, not sent before, sent at `now`.
  ghost predicate JustSent(u: map<u32, Outgoing>, u': map<u32, Outgoing>, news: seq<int>, now: nat) {
    && (forall k :: k in u' <==> k in u)
    && (forall k :: k in u ==>
          if k in news then u[k].lastSent == None && u'[k] == Outgoing(u[k].plaintext, Some(now), 1) else u'[k] == u[k])
  }

  lemma SpentAfter(u: map<u32, Outgoing>, u': map<u32, Outgoing>, news: seq<int>, now: nat, retx: nat, max: nat)
    requires JustSent(u, u', news, now) && max > 1
    ensures forall k :: Spent(u', k, now, retx, max) <==> Spent(u, k, now, retx, max)
    ensures forall k :: k in u ==> (TimedOut(u'[k], now, retx) <==> TimedOut(u[k], now, retx) || (k in news && retx == 0))
  {}

  lemma GivesUpIff(tx: Sender, now: nat)
    ensures var u, r := tx.unacked, TakeRetransmits(tx, now).1;
            && (r.Err? <==> exists k :: Spent(u, k, now, tx.retx, tx.maxAttempts))
            && (r.Err? ==> Spent(u, r.error.seqno, now, tx.retx, tx.maxAttempts)
                           && forall l :: l < r.error.seqno ==> !Spent(u, l, now, tx.retx, tx.maxAttempts))
  {
    StuckMeaning(tx, now);
    hide TakeRetransmits, TimedOut;
    var u, r := tx.unacked, TakeRetransmits(tx, now).1;
    if r.Err? { assert Spent(u, r.error.seqno, now, tx.retx, tx.maxAttempts); }
    if k :| Spent(u, k, now, tx.retx, tx.maxAttempts) {
      assert k in u && TimedOut(u[k], now, tx.retx);
    }
  }

  // What the second half of a flush does, said of the queue before the first half.
  lemma ScanAfterNews(tx: Sender, tx1: Sender, news: seq<int>, now: nat) returns (again: seq<int>)
    requires tx1 == tx.(unacked := tx1.unacked) && JustSent(tx.unacked, tx1.unacked, news, now) && tx.maxAttempts == 5
    ensures var u, r := tx.unacked, TakeRetransmits(tx1, now).1;
            && (r.Err? <==> exists k :: Spent(u, k, now, tx.retx, 5))
            && (r.Err? ==> Spent(u, r.error.seqno, now, tx.retx, 5)
                           && forall l :: l < r.error.seqno ==> !Spent(u, l, now, tx.retx, 5))
            && (r.Ok? ==> HandsOut(u, again, r.value))
            && (forall k :: k in again <==> k in u && (TimedOut(u[k], now, tx.retx) || (k in news && tx.retx == 0)))
  {
    hide TakeRetransmits, HandsOut, TimedOut, Spent;
    GivesUpIff(tx1, now);
    SpentAfter(tx.unacked, tx1.unacked, news, now, tx.retx, 5);
    again := RetransmitsHandsOut(tx1, now);
    var r := TakeRetransmits(tx1, now).1;
    if r.Ok? { SameHandOut(tx.unacked, tx1.unacked, again, r.value); }
  }

  /**
   A flush, exactly: it puts on the wire first the lowest frames not sent yet, filling the window, and then
   every frame that has timed out; it gives up instead of the latter if and only if one that has timed out
   has had five attempts, naming the lowest such number.
  */
  lemma FlushExactly(trace: seq<Action>, now: nat) returns (news: seq<int>, again: seq<int>, out: seq<bytes>, more: seq<bytes>)
    ensures var s := Replay(trace);
            var u, f := s.tx.unacked, Flushed(s, now);
            && (f.result.Err? <==> exists k :: Spent(u, k, now, s.tx.retx, 5))
            && (f.result.Err? ==> f.result.error.GaveUp? && Spent(u, f.result.error.giveUp.seqno, now, s.tx.retx, 5)
                                  && forall l :: l < f.result.error.giveUp.seqno ==> !Spent(u, l, now, s.tx.retx, 5))
            && f.state.wire == s.wire + out + more
            && HandsOut(u, news, out) && (forall k :: k in news ==> k in u && u[k].lastSent == None)
            && |news| == (if |Sent(u)| >= 32 then 0 else if |u| <= 32 then |u| - |Sent(u)| else 32 - |Sent(u)|)
            && (f.result.Err? ==> more == [])
            && (f.result.Ok? ==> HandsOut(u, again, more))
            && (forall k :: k in again <==> k in u && (TimedOut(u[k], now, s.tx.retx) || (k in news && s.tx.retx == 0)))
  {
    FiveAttempts(trace);
    hide TimedOut, HandsOut, TakeNewSends, TakeRetransmits, Replay, Sent, Spent;
    var s := Replay(trace);
    news, out := FlushNews(s.tx, now);
    var tx1 := TakeNewSends(s.tx, now).0;
    again := ScanAfterNews(s.tx, tx1, news, now);
    var r := TakeRetransmits(tx1, now).1;
    more := if r.Ok? then r.value else [];
    assert s.wire + out + [] == s.wire + out;
  }

  lemma FlushNews(tx: Sender, now: nat) returns (news: seq<int>, out: seq<bytes>)
    ensures out == TakeNewSends(tx, now).1 && HandsOut(tx.unacked, news, out)
    ensures var tx1 := TakeNewSends(tx, now).0;
            tx1 == tx.(unacked := tx1.unacked) && JustSent(tx.unacked, tx1.unacked, news, now)
    ensures var u := tx.unacked;
            && (forall k :: k in news ==> k in u && u[k].lastSent == None)
            && |news| == (if |Sent(u)| >= 32 then 0 else if |u| <= 32 then |u| - |Sent(u)| else 32 - |Sent(u)|)
  {
    news := NewSendsExactly(tx, now);
    out := TakeNewSends(tx, now).1;
    hide TakeNewSends;
    var tx1 := TakeNewSends(tx, now).0;
    SentAfter(tx.unacked, tx1.unacked, news);
    SentSize(tx.unacked);
    hide Sent;
    assert HandsOut(tx.unacked, news, out);
  }

  lemma SameHandOut(u: map<u32, Outgoing>, u': map<u32, Outgoing>, ks: seq<int>, out: seq<bytes>)
    requires HandsOut(u', ks, out)
    requires forall k :: k in u' <==> k in u
    requires forall k :: k in u ==> u'[k].plaintext == u[k].plaintext
    ensures HandsOut(u, ks, out)
  {}

  /* ---- one arrival ---- */

  // A frame that arrives is ingested, its answer goes on the wire, and only one that does not decode is an error.
  lemma ArrivalExactly(s: Local, frame: bytes)
    ensures var (tx, rx, r) := ArqModel.Ingest(s.tx, s.rx, frame);
            var a := Arrived(s, Some(frame));
            && a.state.tx == tx && a.state.rx == rx && a.state.sent == s.sent && a.state.received == s.received
            && a.state.wire == s.wire + (if r.Ok? && r.value.Some? then [r.value.value] else [])
            && (a.result.Ok? <==> DecodeInner(frame).Ok?)
            && (a.result.Err? ==> a.result.error == BadArq(BadFrame(DecodeInner(frame).error)))
    ensures Arrived(s, None).state == s && Arrived(s, None).result == Ok(())
  {
    IngestExactly(s.tx, s.rx, frame);
    hide DecodeInner, OnAck, OnData, Mark;
    assert s.wire + [] == s.wire;
  }

  /* ---- which turn ends a loop ---- */

  // The state after one whole turn.
  function TurnOf(s: Local, turn: Turn): Local {
    Arrived(Flushed(s, turn.flushAt).state, turn.frame).state
  }

  // The state once i turns have gone through.
  function Through(s: Local, turns: seq<Turn>, i: nat): Local
    requires i <= |turns|
    decreases i
  {
    if i == 0 then s else Through(TurnOf(s, turns[0]), turns[1..], i - 1)
  }

  lemma {:induction false} ThroughNext(s: Local, turns: seq<Turn>, i: nat)
    requires i < |turns|
    ensures Through(s, turns, i + 1) == TurnOf(Through(s, turns, i), turns[i])
    decreases i
  {
    hide TurnOf;
    if i == 0 {
      assert Through(s, turns, 1) == Through(TurnOf(s, turns[0]), turns[1..], 0);
    } else {
      ThroughNext(TurnOf(s, turns[0]), turns[1..], i - 1);
    }
  }

  ghost predicate WaitGoesOn(s: Local, turn: Turn, deadline: nat) {
    var f := Flushed(s, turn.flushAt);
    f.result.Ok? && f.state.tx.unacked != map[] && turn.checkAt < deadline && Arrived(f.state, turn.frame).result.Ok?
  }

  // How a turn that does not go on ends the wait.
  ghost predicate WaitEnds(t: Local, turn: Turn, deadline: nat, state: Local, result: Status) {
    var f := Flushed(t, turn.flushAt);
    if f.result.Err? then state == f.state && result == f.result
    else if f.state.tx.unacked == map[] then state == f.state && result == Ok(())
    else if turn.checkAt >= deadline then state == f.state && result == Err(Timeout)
    else state == Arrived(f.state, turn.frame).state && result == Arrived(f.state, turn.frame).result
  }

  lemma WaitHead(s: Local, turns: seq<Turn>, deadline: nat)
    requires Reaches(turns, deadline)
    ensures WaitGoesOn(s, turns[0], deadline) ==>
              && Reaches(turns[1..], deadline)
              && Wait(s, turns, deadline).state == Wait(TurnOf(s, turns[0]), turns[1..], deadline).state
              && Wait(s, turns, deadline).result == Wait(TurnOf(s, turns[0]), turns[1..], deadline).result
    ensures !WaitGoesOn(s, turns[0], deadline) ==>
              WaitEnds(s, turns[0], deadline, Wait(s, turns, deadline).state, Wait(s, turns, deadline).result)
  {
    hide Flushed, Arrived, Do, Replay;
    if turns[0].checkAt < deadline { ReachesNext(turns, deadline); }
    hide Reaches;
    var f := Flushed(s, turns[0].flushAt);
    assert |f.state.tx.unacked| == 0 <==> f.state.tx.unacked == map[];
    var a := Arrived(f.state, turns[0].frame);
    assert TurnOf(s, turns[0]) == a.state && After(f.acts, a).state == a.state && After(f.acts, a).result == a.result;
  }

  /**
   A wait ends with the first turn that does not go on: with its flush's give-up; else with success if
   nothing is unacknowledged; else with a timeout if the deadline has come; else with the error of what arrived.
  */
  lemma {:induction false} WaitExactly(s: Local, turns: seq<Turn>, deadline: nat) returns (i: nat)
    requires Reaches(turns, deadline)
    ensures i < |turns| && !WaitGoesOn(Through(s, turns, i), turns[i], deadline)
    ensures forall j: nat :: j < i ==> WaitGoesOn(Through(s, turns, j), turns[j], deadline)
    ensures var w := Wait(s, turns, deadline); WaitEnds(Through(s, turns, i), turns[i], deadline, w.state, w.result)
    decreases |turns|
  {
    hide TurnOf, WaitGoesOn, WaitEnds, Wait;
    WaitHead(s, turns, deadline);
    if !WaitGoesOn(s, turns[0], deadline) {
      i := 0;
    } else {
      var s1, rest := TurnOf(s, turns[0]), turns[1..];
      var i1 := WaitExactly(s1, rest, deadline);
      i := i1 + 1;
      forall j: nat | j < i ensures WaitGoesOn(Through(s, turns, j), turns[j], deadline) {
        if j > 0 { assert WaitGoesOn(Through(s1, rest, j - 1), rest[j - 1], deadline); }
      }
    }
  }

  ghost predicate ReceiveGoesOn(s: Local, turn: Turn, deadline: nat) {
    var f := Flushed(s, turn.flushAt);
    s.rx.delivered == [] && f.result.Ok? && turn.checkAt < deadline && Arrived(f.state, turn.frame).result.Ok?
  }

  // How a turn that does not go on ends the receive.
  ghost predicate ReceiveEnds(t: Local, turn: Turn, deadline: nat, state: Local, result: Result<bytes, SessionError>) {
    var f := Flushed(t, turn.flushAt);
    if t.rx.delivered != [] then
      && result == Ok(t.rx.delivered[0])
      && state == t.(received := t.received + [t.rx.delivered[0]], rx := t.rx.(delivered := t.rx.delivered[1..]))
    else if f.result.Err? then state == f.state && result == Err(f.result.error)
    else if turn.checkAt >= deadline then state == f.state && result == Err(Timeout)
    else var a := Arrived(f.state, turn.frame);
         a.result.Err? && state == a.state && result == Err(a.result.error)
  }

  lemma ReceiveHead(s: Local, turns: seq<Turn>, deadline: nat)
    requires Reaches(turns, deadline)
    ensures ReceiveGoesOn(s, turns[0], deadline) ==>
              && Reaches(turns[1..], deadline)
              && Receive(s, turns, deadline).state == Receive(TurnOf(s, turns[0]), turns[1..], deadline).state
              && Receive(s, turns, deadline).result == Receive(TurnOf(s, turns[0]), turns[1..], deadline).result
    ensures !ReceiveGoesOn(s, turns[0], deadline) ==>
              ReceiveEnds(s, turns[0], deadline, Receive(s, turns, deadline).state, Receive(s, turns, deadline).result)
  {
    if turns[0].checkAt < deadline { ReachesNext(turns, deadline); }
    hide Flushed, Arrived, Reaches, ArqModel.Enqueue, TakeNewSends, TakeRetransmits, ArqModel.Ingest;
  }

  /**
   A receive ends with the first turn that does not go on: with the oldest delivered message if there is one;
   else with its flush's give-up; else with a timeout if the deadline has come; else with the error of what
   arrived.
  */
  lemma {:induction false} ReceiveExactly(s: Local, turns: seq<Turn>, deadline: nat) returns (i: nat)
    requires Reaches(turns, deadline)
    ensures i < |turns| && !ReceiveGoesOn(Through(s, turns, i), turns[i], deadline)
    ensures forall j: nat :: j < i ==> ReceiveGoesOn(Through(s, turns, j), turns[j], deadline)
    ensures var w := Receive(s, turns, deadline); ReceiveEnds(Through(s, turns, i), turns[i], deadline, w.state, w.result)
    decreases |turns|
  {
    hide TurnOf, ReceiveGoesOn, ReceiveEnds, Receive;
    ReceiveHead(s, turns, deadline);
    if !ReceiveGoesOn(s, turns[0], deadline) {
      i := 0;
    } else {
      var s1, rest := TurnOf(s, turns[0]), turns[1..];
      var i1 := ReceiveExactly(s1, rest, deadline);
      i := i1 + 1;
      forall j: nat | j < i ensures ReceiveGoesOn(Through(s, turns, j), turns[j], deadline) {
        if j > 0 { assert ReceiveGoesOn(Through(s1, rest, j - 1), rest[j - 1], deadline); }
      }
    }
  }

  /* ---- an acknowledgement in time ---- */

  lemma {:induction false} ThroughShrinks(s: Local, turns: seq<Turn>, i: nat)
    requires i <= |turns|
    ensures Through(s, turns, i).tx.unacked.Keys <= s.tx.unacked.Keys
    decreases i
  {
    hide Flushed, Arrived;
    if i > 0 {
      FlushedKeeps(s, turns[0].flushAt);
      ArrivedShrinks(Flushed(s, turns[0].flushAt).state, turns[0].frame);
      ThroughShrinks(TurnOf(s, turns[0]), turns[1..], i - 1);
    }
  }

  lemma ArrivedShrinks(s: Local, frame: Option<bytes>)
    ensures Arrived(s, frame).state.tx.unacked.Keys <= s.tx.unacked.Keys
  {
    hide Acked, OnData, DecodeInner;
  }

  // An ACK that covers everything queued leaves nothing queued.
  lemma CoveringAck(s: Local, base: u32, bitmap: u64)
    requires forall k :: k in s.tx.unacked ==> Acked(base, bitmap, k)
    ensures Arrived(s, Some(EncodeAck(base, bitmap))).state.tx.unacked == map[]
    ensures Arrived(s, Some(EncodeAck(base, bitmap))).result == Ok(())
  {
    DecodeEncodeAck(base, bitmap);
    hide EncodeAck, DecodeInner, Acked;
    IngestExactly(s.tx, s.rx, EncodeAck(base, bitmap));
    assert OnAck(s.tx, base, bitmap).unacked == map[];
  }

  /**
   A wait that meets, before its deadline and before any give-up or undecodable frame, an ACK covering all
   that is unacknowledged, returns success.
  */
  lemma WaitAcknowledged(s: Local, turns: seq<Turn>, deadline: nat, i: nat, base: u32, bitmap: u64)
    requires Reaches(turns, deadline) && i < |turns|
    requires forall j :: 0 <= j <= i ==> turns[j].checkAt < deadline
    requires forall j :: 0 <= j <= i ==> Flushed(Through(s, turns, j), turns[j].flushAt).result.Ok?
    requires forall j :: 0 <= j < i && turns[j].frame.Some? ==> DecodeInner(turns[j].frame.value).Ok?
    requires turns[i].frame == Some(EncodeAck(base, bitmap))
    requires forall k :: k in s.tx.unacked ==> Acked(base, bitmap, k)
    ensures Wait(s, turns, deadline).result == Ok(())
  {
    hide Flushed, Arrived, Wait, Acked, EncodeAck, DecodeInner, Through;
    var e := WaitExactly(s, turns, deadline);
    EmptyAfterAck(s, turns, i, base, bitmap);
    if e < i {
      GoesOnUnlessEmpty(Through(s, turns, e), turns[e], deadline);
    } else if e == i {
      AckEnds(Through(s, turns, i), turns[i], base, bitmap);
      ThroughShrinks(s, turns, i);
      CoverFewer(s, Through(s, turns, i), turns[i].flushAt, base, bitmap);
    } else {
      EmptyFrom(s, turns, i + 1, e);
      FlushedIdle(Through(s, turns, e), turns[e].flushAt);
    }
  }

  lemma ArrivedOk(s: Local, frame: bytes)
    requires DecodeInner(frame).Ok?
    ensures Arrived(s, Some(frame)).result == Ok(())
  {
    hide DecodeInner, OnAck, OnData;
  }

  // A turn that neither gives up nor is late nor meets an undecodable frame goes on, or ends in success.
  lemma GoesOnUnlessEmpty(t: Local, turn: Turn, deadline: nat)
    requires turn.checkAt < deadline && Flushed(t, turn.flushAt).result.Ok?
    requires turn.frame.Some? ==> DecodeInner(turn.frame.value).Ok?
    ensures !WaitGoesOn(t, turn, deadline) ==> Flushed(t, turn.flushAt).state.tx.unacked == map[]
  {
    hide Flushed, Arrived, DecodeInner;
    var f := Flushed(t, turn.flushAt).state;
    ArrivalExactly(f, if turn.frame.Some? then turn.frame.value else []);
  }

  lemma CoverFewer(s: Local, t: Local, now: nat, base: u32, bitmap: u64)
    requires t.tx.unacked.Keys <= s.tx.unacked.Keys && forall k :: k in s.tx.unacked ==> Acked(base, bitmap, k)
    ensures forall k :: k in Flushed(t, now).state.tx.unacked ==> Acked(base, bitmap, k)
  {
    hide Acked, Flushed;
    FlushedKeeps(t, now);
    forall k | k in Flushed(t, now).state.tx.unacked ensures Acked(base, bitmap, k) {
      assert k in t.tx.unacked.Keys;
    }
  }

  lemma AckEnds(t: Local, turn: Turn, base: u32, bitmap: u64)
    requires turn.frame == Some(EncodeAck(base, bitmap))
    ensures Arrived(Flushed(t, turn.flushAt).state, turn.frame).result == Ok(())
  {
    hide Flushed, Arrived, EncodeAck, DecodeInner;
    DecodeEncodeAck(base, bitmap);
    assert DecodeInner(EncodeAck(base, bitmap)).Ok?;
    ArrivedOk(Flushed(t, turn.flushAt).state, EncodeAck(base, bitmap));
    ArrivalExactly(Flushed(t, turn.flushAt).state, EncodeAck(base, bitmap));
  }

  lemma EmptyAfterAck(s: Local, turns: seq<Turn>, i: nat, base: u32, bitmap: u64)
    requires i < |turns| && turns[i].frame == Some(EncodeAck(base, bitmap))
    requires forall k :: k in s.tx.unacked ==> Acked(base, bitmap, k)
    ensures Through(s, turns, i + 1).tx.unacked == map[]
  {
    hide Flushed, Arrived, Acked, EncodeAck, Through;
    ThroughNext(s, turns, i);
    var t := Through(s, turns, i);
    ThroughShrinks(s, turns, i);
    CoverFewer(s, t, turns[i].flushAt, base, bitmap);
    CoveringAck(Flushed(t, turns[i].flushAt).state, base, bitmap);
  }

  // Once nothing is queued, nothing is.
  lemma {:induction false} EmptyFrom(s: Local, turns: seq<Turn>, i: nat, e: nat)
    requires i <= e <= |turns| && Through(s, turns, i).tx.unacked == map[]
    ensures Through(s, turns, e).tx.unacked == map[]
    decreases e
  {
    hide Flushed, Arrived;
    if i < e {
      EmptyFrom(s, turns, i, e - 1);
      var t := Through(s, turns, e - 1);
      ThroughNext(s, turns, e - 1);
      hide Through;
      FlushedIdle(t, turns[e - 1].flushAt);
      ArrivedKeeps(t, turns[e - 1].frame);
    }
  }
}
