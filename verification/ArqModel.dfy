/**
 The two halves of the ARQ endpoint of src/reliability/arq.rs as values, and what each operation
 does to them. No operation couples the halves: sending touches only `Sender`, receiving DATA
 touches only `Receiver`.
*/
module ArqModel {
  import opened Words
  import opened Wrappers
  import opened Ordered
  import opened Frame
  import opened Window

  const WINDOW_SIZE := 32
  const DEFAULT_RETX := 200
  const DEFAULT_MAX_ATTEMPTS := 5
  const MAX_FRAGMENTS := 255

  datatype ArqError = TooLarge | BadFrame(error: FrameError)
  datatype GiveUp = GiveUp(seqno: int, attempts: nat)

  // Instants and durations are natural numbers of one unit.
  datatype Outgoing = Outgoing(plaintext: bytes, lastSent: Option<nat>, attempts: nat)
  datatype FragBuf = FragBuf(total: u8, parts: seq<Option<bytes>>)

  datatype Sender = Sender(
    nextSeq: u32, nextFragId: u16, unacked: map<u32, Outgoing>, maxAttempts: u8, retx: nat)

  datatype Receiver = Receiver(
    base: u32, bits: u64, fragments: map<u16, FragBuf>, delivered: seq<bytes>)

  const NEW_SENDER := Sender(0, 1, map[], DEFAULT_MAX_ATTEMPTS, DEFAULT_RETX)
  const NEW_RECEIVER := Receiver(0, 0, map[], [])

  /* ---- fragmentation ---- */

  // message.chunks(MAX_PAYLOAD)
  function NumChunks(message: bytes): nat {
    (|message| + MAX_PAYLOAD - 1) / MAX_PAYLOAD
  }

  // The frames a message occupies: an empty message still takes one.
  function NumFrames(message: bytes): nat {
    if |message| == 0 then 1 else NumChunks(message)
  }

  function Chunk(message: bytes, i: nat): bytes
    requires i < NumFrames(message)
  {
    var lo, hi := i * MAX_PAYLOAD, (i + 1) * MAX_PAYLOAD;
    message[lo..if hi <= |message| then hi else |message|]
  }

  // wrapping_add(1), skipping the id 0 kept for empty messages
  function NextFragId(fragId: u16): u16 {
    var next := (fragId + 1) % U16_MOD;
    if next == 0 then 1 else next
  }

  // The i-th frame of a message, not yet sent.
  function FrameOf(s: u32, fragId: u16, message: bytes, i: nat): Outgoing
    requires i < NumFrames(message) <= MAX_FRAGMENTS
  {
    Outgoing(EncodeData(s, fragId, i, NumFrames(message), Chunk(message, i)), None, 0)
  }

  // `unacked` after inserting the first n frames of a message at `start`.
  function AddFrames(unacked: map<u32, Outgoing>, start: u32, fragId: u16, message: bytes, n: nat): map<u32, Outgoing>
    requires n <= NumFrames(message) <= MAX_FRAGMENTS
  {
    if n == 0 then unacked
    else
      var s := WrappingAdd(start, n - 1);
      AddFrames(unacked, start, fragId, message, n - 1)
        [s := FrameOf(s, fragId, message, n - 1)]
  }

  function Enqueue(tx: Sender, message: bytes): (Sender, Result<(), ArqError>) {
    var n := NumFrames(message);
    if n > MAX_FRAGMENTS then (tx, Err(TooLarge))
    else if |message| == 0 then
      (tx.(nextSeq := WrappingAdd(tx.nextSeq, 1),
           unacked := AddFrames(tx.unacked, tx.nextSeq, 0, message, 1)), Ok(()))
    else
      (tx.(nextSeq := WrappingAdd(tx.nextSeq, n),
           nextFragId := NextFragId(tx.nextFragId),
           unacked := AddFrames(tx.unacked, tx.nextSeq, tx.nextFragId, message, n)), Ok(()))
  }

  /* ---- sending and retransmitting ---- */

  function SentKeys(unacked: map<u32, Outgoing>): set<u32> {
    set k | k in unacked && unacked[k].lastSent.Some?
  }

  function UnsentKeys(unacked: map<u32, Outgoing>): set<u32> {
    set k | k in unacked && unacked[k].lastSent.None?
  }

  function InFlight(unacked: map<u32, Outgoing>): nat {
    |SentKeys(unacked)|
  }

  // The lowest never-sent numbers, as many as the window has room for.
  function NewSendKeys(unacked: map<u32, Outgoing>): (q: seq<int>)
    ensures forall k :: k in q ==> k in UnsentKeys(unacked)
  {
    var q := Select(Sorted(unacked.Keys), UnsentKeys(unacked));
    var room := if InFlight(unacked) < WINDOW_SIZE then WINDOW_SIZE - InFlight(unacked) else 0;
    if |q| <= room then q else q[..room]
  }

  function Plaintexts(unacked: map<u32, Outgoing>, q: seq<int>): seq<bytes>
    requires forall k :: k in q ==> k in unacked
  {
    if q == [] then []
    else
      var init, last := q[..|q| - 1], q[|q| - 1];
      assert last in q && forall k :: k in init ==> k in q;
      Plaintexts(unacked, init) + [unacked[last].plaintext]
  }

  function MarkSent(unacked: map<u32, Outgoing>, q: seq<int>, now: nat): map<u32, Outgoing> {
    map k | k in unacked :: if k in q then unacked[k].(lastSent := Some(now), attempts := 1) else unacked[k]
  }

  function TakeNewSends(tx: Sender, now: nat): (Sender, seq<bytes>) {
    var q := NewSendKeys(tx.unacked);
    (tx.(unacked := MarkSent(tx.unacked, q, now)), Plaintexts(tx.unacked, q))
  }

  predicate Due(o: Outgoing, now: nat, retx: nat) {
    o.lastSent.Some? && Elapsed(now, o.lastSent.value) >= retx
  }

  function DueKeys(tx: Sender, now: nat): set<u32> {
    set k | k in tx.unacked && Due(tx.unacked[k], now, tx.retx)
  }

  // Due again although every attempt has been used.
  function StuckKeys(tx: Sender, now: nat): set<u32> {
    set k | k in DueKeys(tx, now) && tx.unacked[k].attempts >= tx.maxAttempts
  }

  function MarkResent(unacked: map<u32, Outgoing>, ks: set<int>, now: nat): map<u32, Outgoing> {
    map k | k in unacked ::
      if k in ks then unacked[k].(lastSent := Some(now), attempts := unacked[k].attempts + 1) else unacked[k]
  }

  // Every due frame is handed out again, unless one is stuck: then the lowest stuck number is
  // reported, the due frames below it are already marked as resent, and nothing is handed out.
  function TakeRetransmits(tx: Sender, now: nat): (Sender, Result<seq<bytes>, GiveUp>) {
    var due, stuck := DueKeys(tx, now), StuckKeys(tx, now);
    if stuck == {} then
      (tx.(unacked := MarkResent(tx.unacked, due, now)),
       Ok(Plaintexts(tx.unacked, Select(Sorted(tx.unacked.Keys), due))))
    else
      var lowest := Sorted(stuck)[0];
      assert lowest in stuck;
      (tx.(unacked := MarkResent(tx.unacked, (set k | k in due && k < lowest), now)),
       Err(GiveUp(lowest, tx.unacked[lowest].attempts)))
  }

  function OnAck(tx: Sender, base: u32, bitmap: u64): Sender {
    tx.(unacked := map k | k in tx.unacked && !Acked(base, bitmap, k) :: tx.unacked[k])
  }

  /* ---- receiving ---- */

  predicate AllPresent(parts: seq<Option<bytes>>) {
    forall i :: 0 <= i < |parts| ==> parts[i].Some?
  }

  // The present parts, in order.
  function Join(parts: seq<Option<bytes>>): bytes {
    if parts == [] then []
    else
      var last := parts[|parts| - 1];
      Join(parts[..|parts| - 1]) + if last.Some? then last.value else []
  }

  function EmptyBuf(total: u8): FragBuf {
    FragBuf(total, seq(total, i => None))
  }

  // What happens to a newly accepted fragment.
  function Reassemble(rx: Receiver, fragId: u16, index: u8, total: u8, payload: bytes): Receiver {
    if total == 1 then rx.(delivered := rx.delivered + [payload])
    else
      var buf := if fragId in rx.fragments then rx.fragments[fragId] else EmptyBuf(total);
      if buf.total != total || index >= |buf.parts| then rx.(fragments := rx.fragments[fragId := buf])
      else
        var parts := buf.parts[index := Some(payload)];
        if AllPresent(parts) then
          rx.(fragments := rx.fragments - {fragId}, delivered := rx.delivered + [Join(parts)])
        else rx.(fragments := rx.fragments[fragId := FragBuf(total, parts)])
  }

  function OnData(rx: Receiver, seqno: u32, fragId: u16, index: u8, total: u8, payload: bytes): Receiver {
    if !Accepts(rx.base, rx.bits, seqno) then rx
    else
      var m := Mark(rx.base, rx.bits, seqno);
      Reassemble(rx.(base := m.0, bits := m.1), fragId, index, total, payload)
  }

  // `ingest`: both halves afterwards, and the ACK to send, if any.
  function Ingest(tx: Sender, rx: Receiver, plaintext: bytes): (Sender, Receiver, Result<Option<bytes>, ArqError>) {
    match DecodeInner(plaintext)
    case Err(e) => (tx, rx, Err(BadFrame(e)))
    case Ok(Ack(base, bitmap)) => (OnAck(tx, base, bitmap), rx, Ok(None))
    case Ok(Data(seqno, fragId, index, total, payload)) =>
      var rx' := OnData(rx, seqno, fragId, index, total, payload);
      (tx, rx', Ok(Some(EncodeAck(rx'.base, rx'.bits))))
  }

  /* ---- one loop iteration of each scan over the keys ---- */

  lemma AddFramesNext(unacked: map<u32, Outgoing>, start: u32, fragId: u16, message: bytes, i: nat)
    requires i < NumFrames(message) <= MAX_FRAGMENTS
    ensures WrappingAdd(start, i + 1) == WrappingAdd(WrappingAdd(start, i), 1)
    ensures AddFrames(unacked, start, fragId, message, i + 1)
         == AddFrames(unacked, start, fragId, message, i)
              [WrappingAdd(start, i) := FrameOf(WrappingAdd(start, i), fragId, message, i)]
  {
    hide FrameOf, NumFrames;
  }

  // `unacked` after the first i keys have been tested against an ACK.
  ghost function Pruned(unacked: map<u32, Outgoing>, keys: seq<int>, base: u32, bitmap: u64): map<u32, Outgoing> {
    map k | k in unacked && !(k in keys && Acked(base, bitmap, k)) :: unacked[k]
  }

  lemma PrunedNext(unacked: map<u32, Outgoing>, keys: seq<int>, i: nat, base: u32, bitmap: u64)
    requires i < |keys| && keys[i] in unacked
    ensures Pruned(unacked, keys[..0], base, bitmap) == unacked
    ensures Pruned(unacked, keys[..i + 1], base, bitmap)
         == if Acked(base, bitmap, keys[i]) then Pruned(unacked, keys[..i], base, bitmap) - {keys[i]}
            else Pruned(unacked, keys[..i], base, bitmap)
  {
    hide Acked;
    assert keys[..i + 1] == keys[..i] + [keys[i]];
  }

  lemma PrunedAll(tx: Sender, keys: seq<int>, base: u32, bitmap: u64)
    requires forall k :: k in tx.unacked <==> k in keys
    ensures Pruned(tx.unacked, keys[..0], base, bitmap) == tx.unacked
    ensures tx.(unacked := Pruned(tx.unacked, keys[..|keys|], base, bitmap)) == OnAck(tx, base, bitmap)
  {
    hide Acked;
    assert keys[..|keys|] == keys;
  }

  lemma ScanStart(unacked: map<u32, Outgoing>, keys: seq<int>, ks: set<int>, now: nat)
    ensures Select(keys[..0], ks) == [] && Walked(ks, keys, 0) == {}
    ensures MarkSent(unacked, [], now) == unacked && MarkResent(unacked, {}, now) == unacked
    ensures Plaintexts(unacked, []) == []
  {}

  lemma PlaintextsNext(unacked: map<u32, Outgoing>, q: seq<int>, s: u32)
    requires s in unacked && forall k :: k in q ==> k in unacked
    ensures Plaintexts(unacked, q + [s]) == Plaintexts(unacked, q) + [unacked[s].plaintext]
  {
    assert (q + [s])[..|q|] == q;
  }

  lemma MarkSentNext(unacked: map<u32, Outgoing>, q: seq<int>, s: u32, now: nat)
    requires s in unacked && s !in q
    ensures s in MarkSent(unacked, q, now) && MarkSent(unacked, q, now)[s] == unacked[s]
    ensures MarkSent(unacked, q + [s], now)
         == MarkSent(unacked, q, now)[s := unacked[s].(lastSent := Some(now), attempts := 1)]
  {}

  lemma MarkResentNext(unacked: map<u32, Outgoing>, ks: set<int>, s: u32, now: nat)
    requires s in unacked && s !in ks
    ensures s in MarkResent(unacked, ks, now) && MarkResent(unacked, ks, now)[s] == unacked[s]
    ensures MarkResent(unacked, ks + {s}, now)
         == MarkResent(unacked, ks, now)[s := unacked[s].(lastSent := Some(now), attempts := unacked[s].attempts + 1)]
  {}

  // The part of a key set already walked.
  ghost function Walked(ks: set<int>, keys: seq<int>, i: nat): set<int>
    requires i <= |keys|
  {
    set k | k in ks && k in keys[..i]
  }

  lemma WalkedNext(ks: set<int>, keys: seq<int>, i: nat)
    requires Ascending(keys) && i < |keys|
    ensures keys[i] !in keys[..i] && keys[i] !in Walked(ks, keys, i)
    ensures Walked(ks, keys, i + 1) == if keys[i] in ks then Walked(ks, keys, i) + {keys[i]} else Walked(ks, keys, i)
  {
    assert keys[..i + 1] == keys[..i] + [keys[i]];
  }

  lemma WalkedAll(ks: set<int>, keys: seq<int>)
    requires forall k :: k in ks ==> k in keys
    ensures Walked(ks, keys, |keys|) == ks
  {
    assert keys[..|keys|] == keys;
    assert forall k :: k in Walked(ks, keys, |keys|) <==> k in ks;
  }

  // The first stuck key met on an ascending walk is the lowest one.
  lemma LowestStuck(keys: seq<int>, i: nat, stuck: set<int>, due: set<int>)
    requires Ascending(keys) && i < |keys| && keys[i] in stuck
    requires forall k :: k in stuck || k in due ==> k in keys
    requires Walked(stuck, keys, i) == {}
    ensures Sorted(stuck)[0] == keys[i]
    ensures Walked(due, keys, i) == set k | k in due && k < keys[i]
  {
    BeforeInAscending(keys, i);
    SortedFirst(stuck);
    hide Sorted, Ascending;
    assert Sorted(stuck)[0] !in Walked(stuck, keys, i);
  }

  lemma BeforeInAscending(keys: seq<int>, i: nat)
    requires Ascending(keys) && i < |keys|
    ensures forall k :: k in keys ==> (k in keys[..i] <==> k < keys[i])
  {
    forall k | k in keys ensures k in keys[..i] <==> k < keys[i] {
      var j :| 0 <= j < |keys| && keys[j] == k;
      if j < i { assert keys[..i][j] == k; }
    }
  }

  // Where the scan for new sends stops, it has taken what NewSendKeys names.
  lemma NewSendsDone(unacked: map<u32, Outgoing>, i: nat)
    requires i <= |Sorted(unacked.Keys)|
    requires var taken := |Select(Sorted(unacked.Keys)[..i], UnsentKeys(unacked))|;
             taken > 0 ==> InFlight(unacked) + taken <= WINDOW_SIZE
    requires i < |Sorted(unacked.Keys)|
             ==> InFlight(unacked) + |Select(Sorted(unacked.Keys)[..i], UnsentKeys(unacked))| >= WINDOW_SIZE
    ensures NewSendKeys(unacked) == Select(Sorted(unacked.Keys)[..i], UnsentKeys(unacked))
  {
    hide Sorted, Select, InFlight, UnsentKeys;
    var keys, unsent := Sorted(unacked.Keys), UnsentKeys(unacked);
    SelectPrefix(keys, unsent, i);
    assert keys[..|keys|] == keys;
  }
}
