/**
 What each operation of the endpoint does, said of its fields and with the source's numbers, without
 the functions it is made of.
*/
module ArqExact {
  import opened Words
  import opened Wrappers
  import opened Ordered
  import opened Frame
  import opened Window
  import opened ArqModel

  /* ---- enqueue ---- */

  // How many pieces of at most 1024 bytes a message falls into.
  ghost predicate Pieces(m: bytes, n: nat) {
    if |m| == 0 then n == 1 else n >= 1 && (n - 1) * 1024 < |m| <= n * 1024
  }

  function Piece(m: bytes, i: nat): bytes
    requires i * 1024 <= |m|
  {
    if (i + 1) * 1024 <= |m| then m[i * 1024..(i + 1) * 1024] else m[i * 1024..]
  }

  function Nth(start: u32, i: nat): u32 {
    (start + i) % 0x1_0000_0000
  }

  lemma NthDiffer(start: u32, i: nat, j: nat)
    requires i < j <= i + 255
    ensures Nth(start, i) != Nth(start, j)
  {}

  lemma FramesCounted(m: bytes)
    ensures Pieces(m, NumFrames(m))
    ensures forall i :: 0 <= i < NumFrames(m) ==> i * 1024 <= |m| && Chunk(m, i) == Piece(m, i)
  {}

  lemma {:induction false} AddFramesAt(unacked: map<u32, Outgoing>, start: u32, fid: u16, m: bytes, n: nat)
    requires n <= NumFrames(m) <= 255
    ensures var a := AddFrames(unacked, start, fid, m, n);
            && (forall i :: 0 <= i < n ==> Nth(start, i) in a && a[Nth(start, i)] == FrameOf(Nth(start, i), fid, m, i))
            && (forall k :: k in unacked ==> k in a)
            && (forall k :: k in a && (forall i :: 0 <= i < n ==> k != Nth(start, i)) ==> k in unacked && a[k] == unacked[k])
  {
    hide FrameOf, NumFrames;
    if n > 0 {
      AddFramesAt(unacked, start, fid, m, n - 1);
      forall i | 0 <= i < n - 1 ensures Nth(start, i) != Nth(start, n - 1) {
        NthDiffer(start, i, n - 1);
      }
      assert WrappingAdd(start, n - 1) == Nth(start, n - 1);
    }
  }

  /**
   Enqueue, exactly: more than 255 * 1024 bytes are refused and change nothing. Any other message takes n
   consecutive numbers, where n pieces of 1024 bytes are just enough for it, or one for the empty message;
   the i-th carries the i-th piece in a frame not sent yet, under the next fragment id, which runs from 1 to
   65535 and around, or under 0 for the empty message; nothing else changes.
  */
  lemma EnqueueExactly(tx: Sender, m: bytes) returns (n: nat)
    ensures Enqueue(tx, m).1 == if |m| > 261120 then Err(TooLarge) else Ok(())
    ensures |m| > 261120 ==> Enqueue(tx, m).0 == tx
    ensures |m| <= 261120 ==>
              var tx' := Enqueue(tx, m).0;
              var fid := if |m| == 0 then 0 else tx.nextFragId;
              && Pieces(m, n) && n <= 255
              && tx'.nextSeq == Nth(tx.nextSeq, n)
              && tx'.nextFragId == (if |m| == 0 then tx.nextFragId else if tx.nextFragId == 65535 then 1 else tx.nextFragId + 1)
              && tx'.maxAttempts == tx.maxAttempts && tx'.retx == tx.retx
              && (forall i :: 0 <= i < n ==> Queued(tx'.unacked, Nth(tx.nextSeq, i), fid, i, n, m))
              && (forall k :: k in tx.unacked ==> k in tx'.unacked)
              && (forall k :: k in tx'.unacked && (forall i :: 0 <= i < n ==> k != Nth(tx.nextSeq, i))
                    ==> k in tx.unacked && tx'.unacked[k] == tx.unacked[k])
  {
    n := NumFrames(m);
    FramesCounted(m);
    assert |m| > 261120 <==> n > 255;
    if n <= 255 {
      var fid := if |m| == 0 then 0 else tx.nextFragId;
      AddFramesAt(tx.unacked, tx.nextSeq, fid, m, n);
      hide AddFrames, NumFrames, EncodeData, Chunk, Piece;
      forall i | 0 <= i < n ensures Queued(Enqueue(tx, m).0.unacked, Nth(tx.nextSeq, i), fid, i, n, m) {
        FrameQueued(Nth(tx.nextSeq, i), fid, m, i);
      }
    }
  }

  // Number k is queued, unsent, with piece i of n of the message.
  ghost predicate Queued(unacked: map<u32, Outgoing>, k: u32, fid: u16, i: nat, n: nat, m: bytes) {
    && k in unacked && unacked[k].lastSent == None && unacked[k].attempts == 0
    && i < n <= 255 && i * 1024 <= |m|
    && DecodeInner(unacked[k].plaintext) == Ok(Data(k, fid, i, n, Piece(m, i)))
  }

  lemma FrameQueued(k: u32, fid: u16, m: bytes, i: nat)
    requires i < NumFrames(m) <= 255
    ensures i * 1024 <= |m|
    ensures FrameOf(k, fid, m, i).lastSent == None && FrameOf(k, fid, m, i).attempts == 0
    ensures DecodeInner(FrameOf(k, fid, m, i).plaintext) == Ok(Data(k, fid, i, NumFrames(m), Piece(m, i)))
  {
    FramesCounted(m);
    DecodeEncodeData(k, fid, i, NumFrames(m), Chunk(m, i));
    hide DecodeInner, EncodeData, Chunk, Piece, NumFrames;
  }

  /* ---- handing out ---- */

  // The plaintexts of the numbers in ks, one each, in ascending order.
  ghost predicate HandsOut(unacked: map<u32, Outgoing>, ks: seq<int>, out: seq<bytes>) {
    && Ascending(ks) && |out| == |ks|
    && forall i :: 0 <= i < |ks| ==> var k := ks[i]; k in unacked && out[i] == unacked[k].plaintext
  }

  lemma {:induction false} PlaintextsAre(unacked: map<u32, Outgoing>, q: seq<int>)
    requires Ascending(q) && forall k :: k in q ==> k in unacked
    ensures HandsOut(unacked, q, Plaintexts(unacked, q))
  {
    if q != [] {
      var init, last := q[..|q| - 1], q[|q| - 1];
      assert last in q && forall k :: k in init ==> k in q;
      PlaintextsAre(unacked, init);
    }
  }

  ghost function Sent(unacked: map<u32, Outgoing>): set<u32> {
    set k | k in unacked && unacked[k].lastSent != None
  }

  /**
   Handing out new frames, exactly: the lowest numbers not sent yet, as many as bring those in flight to 32,
   or all of them; each is marked as sent now for the first time, and nothing else changes.
  */
  lemma NewSendsExactly(tx: Sender, now: nat) returns (ks: seq<int>)
    ensures var (tx', out) := TakeNewSends(tx, now);
            && tx' == tx.(unacked := tx'.unacked)
            && HandsOut(tx.unacked, ks, out)
            && (forall k :: k in tx'.unacked <==> k in tx.unacked)
            && (forall k :: k in tx.unacked ==>
                  if k in ks then tx.unacked[k].lastSent == None
                       && tx'.unacked[k] == Outgoing(tx.unacked[k].plaintext, Some(now), 1)
                  else tx'.unacked[k] == tx.unacked[k])
            && (forall k, l :: k in tx.unacked && tx.unacked[k].lastSent == None && l in ks && k < l ==> k in ks)
            && |Sent(tx'.unacked)| == (if |Sent(tx.unacked)| >= 32 then |Sent(tx.unacked)|
                                       else if |tx.unacked| <= 32 then |tx.unacked| else 32)
            && (|Sent(tx.unacked)| >= 32 ==> ks == [])
  {
    hide TakeNewSends, NewSendKeys, HandsOut, Sent, Ascending;
    ks := NewSendKeys(tx.unacked);
    NewSendKeysFacts(tx.unacked);
    NewSendsMarked(tx, now);
    SentSize(tx.unacked);
    SentAfter(tx.unacked, TakeNewSends(tx, now).0.unacked, ks);
  }

  lemma NewSendsMarked(tx: Sender, now: nat)
    ensures var (tx', out) := TakeNewSends(tx, now);
            var ks := NewSendKeys(tx.unacked);
            && tx' == tx.(unacked := tx'.unacked)
            && HandsOut(tx.unacked, ks, out)
            && (forall k :: k in tx'.unacked <==> k in tx.unacked)
            && (forall k :: k in tx.unacked ==>
                  tx'.unacked[k] == if k in ks then Outgoing(tx.unacked[k].plaintext, Some(now), 1) else tx.unacked[k])
  {
    var ks := NewSendKeys(tx.unacked);
    NewSendKeysFacts(tx.unacked);
    hide NewSendKeys;
    PlaintextsAre(tx.unacked, ks);
    hide HandsOut, Plaintexts, Sent, Ascending;
  }

  lemma SentAfter(u: map<u32, Outgoing>, u': map<u32, Outgoing>, ks: seq<int>)
    requires Ascending(ks) && forall k :: k in u' <==> k in u
    requires forall k :: k in ks ==> k in u && u[k].lastSent == None
    requires forall k :: k in u ==> if k in ks then u'[k].lastSent != None else u'[k] == u[k]
    ensures |Sent(u')| == |Sent(u)| + |ks|
  {
    AscendingSetSize(ks);
    var taken: set<int>, before: set<int> := (set k | k in ks), Sent(u);
    assert forall k :: k in Sent(u') <==> k in before || k in taken;
    assert Sent(u') == before + taken && before * taken == {};
    assert |before + taken| == |before| + |taken|;
  }

  lemma UnsentCount(u: map<u32, Outgoing>, all: seq<int>)
    requires Ascending(all) && forall k :: k in all <==> k in u && u[k].lastSent == None
    ensures |all| == |u| - |Sent(u)|
  {
    AscendingSetSize(all);
    var a: set<int>, b: set<int>, c: set<int> := (set k | k in all), Sent(u), u.Keys;
    assert c == a + b && a * b == {};
    assert |a + b| == |a| + |b|;
  }

  lemma NewSendKeysFacts(u: map<u32, Outgoing>)
    ensures var q := NewSendKeys(u);
            && Ascending(q)
            && (forall k :: k in q ==> k in u && u[k].lastSent == None)
            && (forall k, l :: k in u && u[k].lastSent == None && l in q && k < l ==> k in q)
            && |q| == (if |Sent(u)| >= 32 then 0 else if |u| <= 32 then |u| - |Sent(u)| else 32 - |Sent(u)|)
  {
    var all := Select(Sorted(u.Keys), UnsentKeys(u));
    AllUnsent(u);
    var q := NewSendKeys(u);
    assert q == all[..|q|];
    hide Sorted, Select, InFlight, UnsentKeys, Sent, NewSendKeys;
    UnsentCount(u, all);
    SentSize(u);
    Prefix(all, |q|);
    hide Ascending;
    forall k, l | k in u && u[k].lastSent == None && l in q && k < l ensures k in q {
      assert k in all;
    }
  }

  lemma SentSize(u: map<u32, Outgoing>)
    ensures |Sent(u)| <= |u|
  {
    SubsetSize(Sent(u), u.Keys);
  }

  lemma AllUnsent(u: map<u32, Outgoing>)
    ensures var all := Select(Sorted(u.Keys), UnsentKeys(u));
            Ascending(all) && forall k :: k in all <==> k in u && u[k].lastSent == None
    ensures InFlight(u) == |Sent(u)|
  {
    SelectAscending(Sorted(u.Keys), UnsentKeys(u));
    assert SentKeys(u) == Sent(u);
    assert forall k :: k in UnsentKeys(u) ==> k in u.Keys;
    hide Sorted, Select;
  }

  lemma Prefix(all: seq<int>, n: nat)
    requires Ascending(all) && n <= |all|
    ensures Ascending(all[..n]) && forall k :: k in all[..n] ==> k in all
    ensures forall k, l :: k in all && l in all[..n] && k < l ==> k in all[..n]
  {
    forall k, l | k in all && l in all[..n] && k < l ensures k in all[..n] {
      var i :| 0 <= i < |all| && all[i] == k;
      var j :| 0 <= j < n && all[j] == l;
      assert i < n && all[..n][i] == k;
    }
  }

  // Sent at t, and the timeout has passed since. (A clock set back counts as no time at all.)
  ghost predicate TimedOut(o: Outgoing, now: nat, retx: nat) {
    o.lastSent.Some? && (now >= o.lastSent.value + retx || retx == 0)
  }

  /**
   Retransmitting, exactly: it gives up if and only if some frame has timed out with its attempts used up,
   on the lowest such number. Otherwise every frame that has timed out is handed out exactly once, in
   ascending order, and marked as sent now, once more; nothing else changes. A scan that gives up has so
   marked the frames that timed out below the number it names.
  */
  lemma RetransmitsExactly(tx: Sender, now: nat) returns (ks: seq<int>)
    ensures var (tx', r) := TakeRetransmits(tx, now);
            && tx' == tx.(unacked := tx'.unacked)
            && (r.Err? <==> exists k :: k in tx.unacked && TimedOut(tx.unacked[k], now, tx.retx)
                              && tx.unacked[k].attempts >= tx.maxAttempts)
            && (forall k :: k in tx'.unacked <==> k in tx.unacked)
            && (forall k :: k in tx.unacked ==>
                  tx'.unacked[k] == if TimedOut(tx.unacked[k], now, tx.retx) && (r.Err? ==> k < r.error.seqno)
                                    then Outgoing(tx.unacked[k].plaintext, Some(now), tx.unacked[k].attempts + 1)
                                    else tx.unacked[k])
            && (r.Ok? ==> HandsOut(tx.unacked, ks, r.value))
            && (forall k :: k in ks <==> k in tx.unacked && TimedOut(tx.unacked[k], now, tx.retx))
            && (r.Err? ==> var GiveUp(s, attempts) := r.error;
                  && s in tx.unacked && TimedOut(tx.unacked[s], now, tx.retx)
                  && attempts == tx.unacked[s].attempts >= tx.maxAttempts
                  && forall k :: k in tx.unacked && k < s && TimedOut(tx.unacked[k], now, tx.retx)
                       ==> tx.unacked[k].attempts < tx.maxAttempts)
  {
    hide TimedOut, HandsOut, TakeRetransmits;
    StuckMeaning(tx, now);
    RetransmitsMarks(tx, now);
    ks := RetransmitsHandsOut(tx, now);
  }

  lemma DueMeaning(tx: Sender, now: nat)
    ensures forall k :: k in DueKeys(tx, now) <==> k in tx.unacked && TimedOut(tx.unacked[k], now, tx.retx)
    ensures forall k :: k in StuckKeys(tx, now) <==> k in DueKeys(tx, now) && tx.unacked[k].attempts >= tx.maxAttempts
  {}

  lemma StuckMeaning(tx: Sender, now: nat)
    ensures var r := TakeRetransmits(tx, now).1;
            && (r.Err? <==> exists k :: k in tx.unacked && TimedOut(tx.unacked[k], now, tx.retx)
                              && tx.unacked[k].attempts >= tx.maxAttempts)
            && (r.Err? ==> var GiveUp(s, attempts) := r.error;
                  && s in tx.unacked && TimedOut(tx.unacked[s], now, tx.retx)
                  && attempts == tx.unacked[s].attempts >= tx.maxAttempts
                  && forall k :: k in tx.unacked && k < s && TimedOut(tx.unacked[k], now, tx.retx)
                       ==> tx.unacked[k].attempts < tx.maxAttempts)
  {
    DueMeaning(tx, now);
    var stuck: set<int> := StuckKeys(tx, now);
    hide TimedOut, Plaintexts, Select, Due;
    if stuck != {} {
      SortedFirst(stuck);
      hide Sorted;
      assert Sorted(stuck)[0] in stuck;
    }
  }

  lemma RetransmitsMarks(tx: Sender, now: nat)
    ensures var (tx', r) := TakeRetransmits(tx, now);
            && tx' == tx.(unacked := tx'.unacked)
            && (forall k :: k in tx'.unacked <==> k in tx.unacked)
            && (forall k :: k in tx.unacked ==>
                  tx'.unacked[k] == if TimedOut(tx.unacked[k], now, tx.retx) && (r.Err? ==> k < r.error.seqno)
                                    then Outgoing(tx.unacked[k].plaintext, Some(now), tx.unacked[k].attempts + 1)
                                    else tx.unacked[k])
  {
    DueMeaning(tx, now);
    hide TimedOut, Plaintexts, Select, Due, Sorted;
  }

  lemma RetransmitsHandsOut(tx: Sender, now: nat) returns (ks: seq<int>)
    ensures forall k :: k in ks <==> k in tx.unacked && TimedOut(tx.unacked[k], now, tx.retx)
    ensures var r := TakeRetransmits(tx, now).1; r.Ok? ==> HandsOut(tx.unacked, ks, r.value)
  {
    DueMeaning(tx, now);
    hide TimedOut, Due, HandsOut;
    ks := Select(Sorted(tx.unacked.Keys), DueKeys(tx, now));
    SelectAscending(Sorted(tx.unacked.Keys), DueKeys(tx, now));
    PlaintextsAre(tx.unacked, ks);
  }

  /* ---- ingesting ---- */

  /**
   Ingest, by kind of frame: one that does not decode is refused and changes nothing; an ACK removes exactly
   the numbers it acknowledges and is not answered; DATA leaves the sending half alone and is answered, new
   or not, with the window as it then is.
  */
  lemma IngestExactly(tx: Sender, rx: Receiver, f: bytes)
    ensures var (tx', rx', r) := Ingest(tx, rx, f);
            match DecodeInner(f)
            case Err(e) => tx' == tx && rx' == rx && r == Err(BadFrame(e))
            case Ok(Ack(base, bitmap)) =>
              && rx' == rx && r == Ok(None)
              && tx' == tx.(unacked := tx'.unacked)
              && (forall k :: k in tx'.unacked <==> k in tx.unacked && !Acked(base, bitmap, k))
              && (forall k :: k in tx'.unacked ==> tx'.unacked[k] == tx.unacked[k])
            case Ok(Data(s, fid, index, total, payload)) =>
              && tx' == tx && r.Ok? && r.value.Some?
              && DecodeInner(r.value.value) == Ok(Ack(rx'.base, rx'.bits))
              && (rx'.base, rx'.bits) == Mark(rx.base, rx.bits, s)
              && (!Accepts(rx.base, rx.bits, s) ==> rx' == rx)
  {
    hide Accepts, Mark, Acked, EncodeAck, DecodeInner, Join;
    if DecodeInner(f).Ok? && DecodeInner(f).value.Data? {
      var d := DecodeInner(f).value;
      UnacceptedMark(rx.base, rx.bits, d.seqno);
      var rx' := OnData(rx, d.seqno, d.fragId, d.index, d.total, d.payload);
      DecodeEncodeAck(rx'.base, rx'.bits);
    }
  }

  lemma UnacceptedMark(base: u32, bits: u64, s: u32)
    ensures !Accepts(base, bits, s) ==> Mark(base, bits, s) == (base, bits)
  {}

  // A newly accepted fragment that does not fit the buffer waiting under its id is counted as received, and
  // otherwise ignored.
  lemma MismatchIgnored(rx: Receiver, s: u32, fid: u16, index: u8, total: u8, payload: bytes)
    requires Accepts(rx.base, rx.bits, s) && total != 1 && fid in rx.fragments
    requires rx.fragments[fid].total != total || index >= |rx.fragments[fid].parts|
    ensures var rx' := OnData(rx, s, fid, index, total, payload);
            rx'.fragments == rx.fragments && rx'.delivered == rx.delivered
            && (rx'.base, rx'.bits) == Mark(rx.base, rx.bits, s)
  {
    hide Accepts, Mark;
  }
}
