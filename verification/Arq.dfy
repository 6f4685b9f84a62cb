/** The endpoint object of src/reliability/arq.rs, proved against ArqModel. */
module ArqEndpoint {
  import opened Words
  import opened Wrappers
  import opened Ordered
  import opened Frame
  import opened Window
  import M = ArqModel

  class Arq {
    var nextSeq: u32
    var nextFragId: u16
    var unacked: map<u32, M.Outgoing>
    var recvBase: u32
    var recvBits: u64
    var fragments: map<u16, M.FragBuf>
    var delivered: seq<bytes>
    var pendingAck: bool
    var maxAttempts: u8
    var retx: nat

    ghost function Tx(): M.Sender
      reads this
    {
      M.Sender(nextSeq, nextFragId, unacked, maxAttempts, retx)
    }

    ghost function Rx(): M.Receiver
      reads this
    {
      M.Receiver(recvBase, recvBits, fragments, delivered)
    }

    constructor ()
      ensures Tx() == M.NEW_SENDER && Rx() == M.NEW_RECEIVER && !pendingAck
      ensures Tx() == M.Sender(0, 1, map[], 5, 200) && Rx() == M.Receiver(0, 0, map[], [])
    {
      nextSeq, nextFragId, unacked := 0, 1, map[];
      recvBase, recvBits, fragments, delivered := 0, 0, map[], [];
      pendingAck, maxAttempts, retx := false, M.DEFAULT_MAX_ATTEMPTS, M.DEFAULT_RETX;
    }

    method Enqueue(message: bytes) returns (r: Result<(), M.ArqError>)
      modifies `nextSeq, `nextFragId, `unacked
      ensures (Tx(), r) == M.Enqueue(old(Tx()), message)
    {
      hide EncodeData, M.Chunk;
      if |message| == 0 {
        r := EnqueueOne(message);
        return;
      }
      var chunks := M.NumChunks(message);
      if chunks > M.MAX_FRAGMENTS {
        return Err(M.TooLarge);
      }
      var fragId := nextFragId;
      nextFragId := (nextFragId + 1) % U16_MOD;
      if nextFragId == 0 {
        nextFragId := 1;
      }
      ghost var start, before := nextSeq, unacked;
      for i := 0 to chunks
        invariant nextSeq == WrappingAdd(start, i) && nextFragId == M.NextFragId(fragId)
        invariant unacked == M.AddFrames(before, start, fragId, message, i)
      {
        M.AddFramesNext(before, start, fragId, message, i);
        var s := nextSeq;
        nextSeq := WrappingAdd(nextSeq, 1);
        unacked := unacked[s := M.Outgoing(EncodeData(s, fragId, i, chunks, M.Chunk(message, i)), None, 0)];
      }
      return Ok(());
    }

    method EnqueueOne(message: bytes) returns (r: Result<(), M.ArqError>)
      requires |message| == 0
      modifies `nextSeq, `unacked
      ensures (Tx(), r) == M.Enqueue(old(Tx()), message)
    {
      var s := nextSeq;
      nextSeq := WrappingAdd(nextSeq, 1);
      unacked := unacked[s := M.Outgoing(EncodeData(s, 0, 0, 1, message), None, 0)];
      assert M.AddFrames(old(unacked), s, 0, message, 0) == old(unacked);
      return Ok(());
    }

    method TakeNewSends(now: nat) returns (out: seq<bytes>)
      modifies `unacked
      ensures (Tx(), out) == M.TakeNewSends(old(Tx()), now)
    {
      hide Sorted, Select, M.InFlight, M.MarkSent, M.Plaintexts, M.NewSendKeys;
      out := [];
      var sent := M.InFlight(unacked);
      var keys := Sorted(unacked.Keys);
      ghost var before, taken := unacked, [];
      M.ScanStart(before, keys, M.UnsentKeys(before), now);
      var i := 0;
      while i < |keys| && sent < M.WINDOW_SIZE
        invariant 0 <= i <= |keys|
        invariant taken == Select(keys[..i], M.UnsentKeys(before))
        invariant sent == M.InFlight(before) + |taken|
        invariant taken != [] ==> sent <= M.WINDOW_SIZE
        invariant unacked == M.MarkSent(before, taken, now)
        invariant out == M.Plaintexts(before, taken)
      {
        assert keys[i] in keys;
        var s: u32 := keys[i];
        SelectNext(keys, M.UnsentKeys(before), i);
        M.WalkedNext({}, keys, i);
        M.MarkSentNext(before, taken, s, now);
        M.PlaintextsNext(before, taken, s);
        if unacked[s].lastSent.None? {
          unacked := unacked[s := unacked[s].(lastSent := Some(now), attempts := 1)];
          out := out + [unacked[s].plaintext];
          sent := sent + 1;
          taken := taken + [s];
        }
        i := i + 1;
      }
      M.NewSendsDone(before, i);
    }

    method TakeRetransmits(now: nat) returns (r: Result<seq<bytes>, M.GiveUp>)
      modifies `unacked
      ensures (Tx(), r) == M.TakeRetransmits(old(Tx()), now)
    {
      hide Sorted, Select, M.MarkResent, M.Plaintexts, M.Walked;
      var out: seq<bytes> := [];
      var keys := Sorted(unacked.Keys);
      ghost var tx := Tx();
      ghost var due: set<int>, stuck: set<int> := M.DueKeys(tx, now), M.StuckKeys(tx, now);
      M.ScanStart(tx.unacked, keys, due, now);
      M.ScanStart(tx.unacked, keys, stuck, now);
      for i := 0 to |keys|
        invariant unacked == M.MarkResent(tx.unacked, M.Walked(due, keys, i), now)
        invariant out == M.Plaintexts(tx.unacked, Select(keys[..i], due))
        invariant M.Walked(stuck, keys, i) == {}
      {
        assert keys[i] in keys;
        var s: u32 := keys[i];
        SelectNext(keys, due, i);
        M.WalkedNext(due, keys, i);
        M.WalkedNext(stuck, keys, i);
        M.MarkResentNext(tx.unacked, M.Walked(due, keys, i), s, now);
        M.PlaintextsNext(tx.unacked, Select(keys[..i], due), s);
        var slot := unacked[s];
        if slot.lastSent.None? {
          continue;
        }
        if Elapsed(now, slot.lastSent.value) < retx {
          continue;
        }
        if slot.attempts >= maxAttempts {
          M.LowestStuck(keys, i, stuck, due);
          return Err(M.GiveUp(s, slot.attempts));
        }
        unacked := unacked[s := slot.(attempts := slot.attempts + 1, lastSent := Some(now))];
        out := out + [slot.plaintext];
      }
      M.WalkedAll(due, keys);
      M.WalkedAll(stuck, keys);
      assert keys[..|keys|] == keys;
      return Ok(out);
    }

    method Ingest(plaintext: bytes) returns (r: Result<Option<bytes>, M.ArqError>)
      modifies `unacked, `recvBase, `recvBits, `fragments, `delivered, `pendingAck
      ensures (Tx(), Rx(), r) == M.Ingest(old(Tx()), old(Rx()), plaintext)
      ensures pendingAck == (old(pendingAck) || (r.Ok? && r.value.Some?))
    {
      match DecodeInner(plaintext)
      case Err(e) =>
        return Err(M.BadFrame(e));
      case Ok(Ack(base, bitmap)) =>
        OnAck(base, bitmap);
        return Ok(None);
      case Ok(Data(seqno, fragId, index, total, payload)) =>
        OnData(seqno, fragId, index, total, payload);
        pendingAck := true;
        return Ok(Some(EncodeAck(recvBase, recvBits)));
    }

    method OnAck(base: u32, bitmap: u64)
      modifies `unacked
      ensures Tx() == M.OnAck(old(Tx()), base, bitmap)
    {
      var keys := Sorted(unacked.Keys);
      ghost var tx := Tx();
      hide Sorted, Acked, M.Pruned;
      M.PrunedAll(tx, keys, base, bitmap);
      for i := 0 to |keys|
        invariant unacked == M.Pruned(tx.unacked, keys[..i], base, bitmap)
      {
        assert keys[i] in keys;
        var s: u32 := keys[i];
        M.PrunedNext(tx.unacked, keys, i, base, bitmap);
        if Acked(base, bitmap, s) {
          unacked := unacked - {s};
        }
      }
    }

    method OnData(seqno: u32, fragId: u16, index: u8, total: u8, payload: bytes)
      modifies `recvBase, `recvBits, `fragments, `delivered
      ensures Rx() == M.OnData(old(Rx()), seqno, fragId, index, total, payload)
    {
      hide Accepts, Slide, MarkBit, M.Join, M.EmptyBuf;
      var isNew := MarkReceived(seqno);
      if !isNew {
        return;
      }
      if total == 1 {
        delivered := delivered + [payload];
        return;
      }
      if fragId !in fragments {
        fragments := fragments[fragId := M.EmptyBuf(total)];
      }
      var buf := fragments[fragId];
      if buf.total != total || index >= |buf.parts| {
        return;
      }
      var parts := buf.parts[index := Some(payload)];
      fragments := fragments[fragId := buf.(parts := parts)];
      if M.AllPresent(parts) {
        var full := JoinParts(parts);
        fragments := fragments - {fragId};
        assert fragments == old(fragments) - {fragId};
        delivered := delivered + [full];
      }
    }

    static method JoinParts(parts: seq<Option<bytes>>) returns (full: bytes)
      ensures full == M.Join(parts)
    {
      full := [];
      for i := 0 to |parts|
        invariant full == M.Join(parts[..i])
      {
        assert parts[..i + 1][..i] == parts[..i];
        if parts[i].Some? {
          full := full + parts[i].value;
        }
      }
      assert parts[..|parts|] == parts;
    }

    method MarkReceived(seqno: u32) returns (isNew: bool)
      modifies `recvBase, `recvBits
      ensures isNew == Accepts(old(recvBase), old(recvBits), seqno)
      ensures (recvBase, recvBits) == Mark(old(recvBase), old(recvBits), seqno)
    {
      var ahead := WrappingSub(seqno, recvBase);
      if ahead >= WINDOW_BITS {
        return false;
      }
      if Bit(recvBits, ahead) {
        return false;
      }
      recvBits := MarkBit(recvBits, ahead);
      ghost var goal := Slide(recvBase, recvBits);
      while recvBits % 2 == 1
        invariant Slide(recvBase, recvBits) == goal
        decreases recvBits
      {
        recvBase := WrappingAdd(recvBase, 1);
        recvBits := recvBits / 2;
      }
      return true;
    }

    method PopDelivered() returns (m: Option<bytes>)
      modifies `delivered
      ensures if old(delivered) == [] then m == None && delivered == []
              else m == Some(old(delivered)[0]) && delivered == old(delivered)[1..]
    {
      if |delivered| == 0 {
        return None;
      }
      m := Some(delivered[0]);
      delivered := delivered[1..];
    }

    method TakeAck() returns (ack: Option<bytes>)
      modifies `pendingAck
      ensures !pendingAck
      ensures ack == if old(pendingAck) then Some(EncodeAck(recvBase, recvBits)) else None
    {
      if !pendingAck {
        return None;
      }
      pendingAck := false;
      return Some(EncodeAck(recvBase, recvBits));
    }

    function UnackedLen(): nat
      reads this
    {
      |unacked|
    }

    method SetRetx(d: nat)
      modifies `retx
      ensures Tx() == old(Tx()).(retx := d)
    {
      retx := d;
    }
  }
}
