/**
 What a list of enqueued messages determines: which sequence numbers and fragment id each message
 gets, and the frame that carries each number. These are the reference definitions the protocol's
 state is compared with; nothing here is kept by the program.
*/
module Ledger {
  import opened Words
  import opened Wrappers
  import opened Frame
  import opened ArqModel

  // Fragment ids run through 1..65535 and start again at 1.
  const FRAG_IDS := 0xFFFF

  // The most sequence numbers a run may allocate before a stale ACK can be misread.
  const SEQ_LIMIT := U32_MOD - 999_999

  type Messages = seq<bytes>

  // Sequence numbers used.
  function Total(msgs: Messages): nat {
    if msgs == [] then 0 else Total(msgs[..|msgs| - 1]) + NumFrames(msgs[|msgs| - 1])
  }

  // Fragment ids used.
  function Fids(msgs: Messages): nat {
    if msgs == [] then 0 else Fids(msgs[..|msgs| - 1]) + if msgs[|msgs| - 1] == [] then 0 else 1
  }

  function Start(msgs: Messages, i: nat): nat
    requires i <= |msgs|
  {
    Total(msgs[..i])
  }

  function Size(msgs: Messages, i: nat): (n: nat)
    requires i < |msgs|
    ensures n >= 1
  {
    NumFrames(msgs[i])
  }

  // The number of message i's j-th frame.
  function Num(msgs: Messages, i: nat, j: nat): nat
    requires i < |msgs|
  {
    Start(msgs, i) + j
  }

  function Fid(msgs: Messages, i: nat): u16
    requires i < |msgs|
  {
    if msgs[i] == [] then 0 else 1 + Fids(msgs[..i]) % FRAG_IDS
  }

  ghost predicate Fits(msgs: Messages) {
    && Total(msgs) <= SEQ_LIMIT
    && forall i :: 0 <= i < |msgs| ==> NumFrames(msgs[i]) <= MAX_FRAGMENTS
  }

  // The message a sequence number belongs to.
  function Owner(msgs: Messages, s: nat): (i: nat)
    requires s < Total(msgs)
    ensures i < |msgs| && Start(msgs, i) <= s < Start(msgs, i) + Size(msgs, i)
  {
    var n := |msgs| - 1;
    if s >= Total(msgs[..n]) then n
    else
      var i := Owner(msgs[..n], s);
      assert msgs[..n][..i] == msgs[..i];
      i
  }

  // The frame that carries number s.
  function Wire(msgs: Messages, s: nat): bytes
    requires Fits(msgs) && s < Total(msgs)
  {
    var i := Owner(msgs, s);
    var j := s - Start(msgs, i);
    EncodeData(s, Fid(msgs, i), j, Size(msgs, i), Chunk(msgs[i], j))
  }

  lemma WireDecodes(msgs: Messages, s: nat)
    requires Fits(msgs) && s < Total(msgs)
    ensures var i := Owner(msgs, s);
            var j := s - Start(msgs, i);
            DecodeInner(Wire(msgs, s)) == Ok(Data(s, Fid(msgs, i), j, Size(msgs, i), Chunk(msgs[i], j)))
  {
    var i := Owner(msgs, s);
    var j := s - Start(msgs, i);
    DecodeEncodeData(s, Fid(msgs, i), j, Size(msgs, i), Chunk(msgs[i], j));
  }

  // Different numbers travel in different frames.
  lemma WireInjective(msgs: Messages, s: nat, t: nat)
    requires Fits(msgs) && s < Total(msgs) && t < Total(msgs)
    requires Wire(msgs, s) == Wire(msgs, t)
    ensures s == t
  {
    WireDecodes(msgs, s);
    WireDecodes(msgs, t);
  }

  lemma StartStep(msgs: Messages, i: nat)
    requires i < |msgs|
    ensures Start(msgs, i + 1) == Start(msgs, i) + Size(msgs, i)
    ensures Fids(msgs[..i + 1]) == Fids(msgs[..i]) + if msgs[i] == [] then 0 else 1
  {
    assert msgs[..i + 1][..i] == msgs[..i];
  }

  // Later messages start later, by at least one number a message, and messages between two
  // starts use at most one fragment id each.
  lemma {:induction false} StartGap(msgs: Messages, i: nat, k: nat)
    requires i <= k <= |msgs|
    ensures Start(msgs, k) - Start(msgs, i) >= k - i
    ensures 0 <= Fids(msgs[..k]) - Fids(msgs[..i]) <= k - i
    decreases k
  {
    if i < k {
      StartGap(msgs, i, k - 1);
      StartStep(msgs, k - 1);
    }
  }

  lemma OwnerUnique(msgs: Messages, i: nat, s: nat)
    requires i < |msgs| && Start(msgs, i) <= s < Start(msgs, i) + Size(msgs, i)
    ensures s < Total(msgs) && Owner(msgs, s) == i
  {
    StartStep(msgs, i);
    StartGap(msgs, i + 1, |msgs|);
    assert msgs[..|msgs|] == msgs;
    var k := Owner(msgs, s);
    StartStep(msgs, k);
    if k < i {
      StartGap(msgs, k + 1, i);
    } else if i < k {
      StartGap(msgs, i + 1, k);
    }
  }

  // Nothing about earlier messages changes when one more is enqueued.
  lemma Append(msgs: Messages, m: bytes)
    ensures Total(msgs + [m]) == Total(msgs) + NumFrames(m)
    ensures Fids(msgs + [m]) == Fids(msgs) + if m == [] then 0 else 1
    ensures Start(msgs + [m], |msgs|) == Total(msgs)
    ensures forall i :: 0 <= i < |msgs| ==>
              && Start(msgs + [m], i) == Start(msgs, i)
              && Fid(msgs + [m], i) == Fid(msgs, i)
              && Size(msgs + [m], i) == Size(msgs, i)
    ensures Fid(msgs + [m], |msgs|) == if m == [] then 0 else 1 + Fids(msgs) % FRAG_IDS
  {
    assert (msgs + [m])[..|msgs|] == msgs;
    forall i | 0 <= i < |msgs| ensures (msgs + [m])[..i] == msgs[..i] {}
  }

  lemma AppendWire(msgs: Messages, m: bytes, s: nat)
    requires Fits(msgs + [m]) && Fits(msgs) && s < Total(msgs)
    ensures Total(msgs) <= Total(msgs + [m])
    ensures Owner(msgs + [m], s) == Owner(msgs, s)
    ensures Wire(msgs + [m], s) == Wire(msgs, s)
  {
    hide Total, Fids, EncodeData, Chunk, NumFrames, Owner;
    Append(msgs, m);
    OwnerUnique(msgs + [m], Owner(msgs, s), s);
  }

  // A new message's j-th number carries the frame `enqueue` stores for it.
  lemma AppendNew(msgs: Messages, m: bytes, j: nat)
    requires Fits(msgs + [m]) && j < NumFrames(m) <= MAX_FRAGMENTS
    ensures Total(msgs) + j < Total(msgs + [m])
    ensures Wire(msgs + [m], Total(msgs) + j)
         == FrameOf(Total(msgs) + j, if m == [] then 0 else 1 + Fids(msgs) % FRAG_IDS, m, j).plaintext
  {
    hide Total, Fids, EncodeData, Chunk, NumFrames;
    Append(msgs, m);
    OwnerUnique(msgs + [m], |msgs|, Total(msgs) + j);
  }

  lemma AppendFits(msgs: Messages, m: bytes)
    requires Fits(msgs) && NumFrames(m) <= MAX_FRAGMENTS && Total(msgs) + NumFrames(m) <= SEQ_LIMIT
    ensures Fits(msgs + [m])
  {
    Append(msgs, m);
  }

  lemma NextFid(k: nat)
    ensures NextFragId(1 + k % FRAG_IDS) == 1 + (k + 1) % FRAG_IDS
  {}

  // Two messages whose numbers meet one 64-wide window never share a fragment id.
  lemma WindowDistinct(msgs: Messages, base: nat, i: nat, k: nat)
    requires i < k < |msgs| && msgs[i] != [] && msgs[k] != []
    requires base < Start(msgs, i) + Size(msgs, i)
    requires Start(msgs, k) < base + 64
    ensures k - i <= 64 && Fid(msgs, i) != Fid(msgs, k)
  {
    StartStep(msgs, i);
    StartGap(msgs, i + 1, k);
    var a, d := Fids(msgs[..i]), Fids(msgs[..k]) - Fids(msgs[..i]);
    assert 1 <= d <= 64;
    ModDistinct(a, d);
  }

  lemma ModDistinct(a: nat, d: nat)
    requires 1 <= d < FRAG_IDS
    ensures a % FRAG_IDS != (a + d) % FRAG_IDS
  {}

  // The chunks of a message, joined in order, are the message.
  function Chunks(m: bytes, k: nat): (parts: seq<Option<bytes>>)
    requires k <= NumFrames(m)
  {
    seq(k, j requires 0 <= j < k => Some(Chunk(m, j)))
  }

  lemma {:induction false} JoinChunks(m: bytes, k: nat)
    requires k <= NumFrames(m)
    ensures Join(Chunks(m, k)) == m[..if k * MAX_PAYLOAD <= |m| then k * MAX_PAYLOAD else |m|]
  {
    if k > 0 {
      assert Chunks(m, k)[..k - 1] == Chunks(m, k - 1);
      JoinChunks(m, k - 1);
    }
  }

  lemma JoinAll(m: bytes)
    ensures Join(Chunks(m, NumFrames(m))) == m
  {
    JoinChunks(m, NumFrames(m));
    assert m[..|m|] == m;
  }

  lemma OneChunk(m: bytes)
    requires NumFrames(m) == 1
    ensures Chunk(m, 0) == m
  {}
}
