/**
 What the receiver's reassembly buffers and delivered messages must be, given only the enqueued
 messages and the set G of accepted sequence numbers; and that accepting one more number keeps it so.
*/
module Reassembly {
  import opened Words
  import opened Wrappers
  import opened ArqModel
  import opened Ledger
  import opened Window

  // Every number of message i has been accepted.
  ghost predicate Whole(msgs: Messages, G: set<nat>, i: nat)
    requires i < |msgs|
  {
    forall j :: 0 <= j < Size(msgs, i) ==> Num(msgs, i, j) in G
  }

  // Message i is in several frames, some accepted and some not.
  ghost predicate Open(msgs: Messages, G: set<nat>, i: nat)
    requires i < |msgs|
  {
    && Size(msgs, i) >= 2
    && (exists j :: 0 <= j < Size(msgs, i) && Num(msgs, i, j) in G)
    && !Whole(msgs, G, i)
  }

  ghost function PartsOf(msgs: Messages, G: set<nat>, i: nat): seq<Option<bytes>>
    requires i < |msgs|
  {
    seq(Size(msgs, i), j requires 0 <= j < Size(msgs, i) =>
      if Num(msgs, i, j) in G then Some(Chunk(msgs[i], j)) else None)
  }

  // The buffers are exactly those of the open messages, each holding exactly the accepted parts.
  ghost predicate BufInv(msgs: Messages, G: set<nat>, buffers: map<u16, FragBuf>)
    requires Fits(msgs)
  {
    && (forall i :: 0 <= i < |msgs| && Open(msgs, G, i) ==>
          Fid(msgs, i) in buffers && buffers[Fid(msgs, i)] == FragBuf(Size(msgs, i), PartsOf(msgs, G, i)))
    && (forall f :: f in buffers ==> exists i :: 0 <= i < |msgs| && Open(msgs, G, i) && Fid(msgs, i) == f)
  }

  // `history` lists exactly the whole messages, each once; `order` says which is where.
  ghost predicate HistoryInv(msgs: Messages, G: set<nat>, order: seq<nat>, history: seq<bytes>) {
    && |order| == |history|
    && (forall k :: 0 <= k < |order| ==>
          order[k] < |msgs| && Whole(msgs, G, order[k]) && history[k] == msgs[order[k]])
    && (forall k, l :: 0 <= k < l < |order| ==> order[k] != order[l])
    && (forall i :: 0 <= i < |msgs| && Whole(msgs, G, i) ==> i in order)
  }

  // G is what a receive window at `base` can have accepted.
  ghost predicate WindowOf(G: set<nat>, base: nat) {
    && (forall x: nat :: x < base ==> x in G)
    && base !in G
    && (forall x :: x in G ==> x < base + WINDOW_BITS)
  }

  // An open message has a number inside the receive window.
  lemma OpenMeetsWindow(msgs: Messages, G: set<nat>, base: nat, i: nat)
    requires i < |msgs| && WindowOf(G, base) && Open(msgs, G, i)
    ensures msgs[i] != []
    ensures base < Start(msgs, i) + Size(msgs, i) && Start(msgs, i) < base + WINDOW_BITS
  {
    var j :| 0 <= j < Size(msgs, i) && Num(msgs, i, j) in G;
    var l :| 0 <= l < Size(msgs, i) && Num(msgs, i, l) !in G;
  }

  // Two different messages that meet the receive window use different fragment ids.
  lemma OpenDistinct(msgs: Messages, G: set<nat>, base: nat, i: nat, k: nat)
    requires i < |msgs| && k < |msgs| && i != k && WindowOf(G, base)
    requires Open(msgs, G, i)
    requires msgs[k] != []
    requires base < Start(msgs, k) + Size(msgs, k) && Start(msgs, k) < base + WINDOW_BITS
    ensures Fid(msgs, i) != Fid(msgs, k)
  {
    OpenMeetsWindow(msgs, G, base, i);
    if i < k { WindowDistinct(msgs, base, i, k); } else { WindowDistinct(msgs, base, k, i); }
  }

  // Accepting number s changes nothing about messages that do not own it.
  lemma OthersUnchanged(msgs: Messages, G: set<nat>, s: nat, i: nat)
    requires i < |msgs| && s < Total(msgs) && i != Owner(msgs, s)
    ensures Whole(msgs, G + {s}, i) <==> Whole(msgs, G, i)
    ensures Open(msgs, G + {s}, i) <==> Open(msgs, G, i)
    ensures PartsOf(msgs, G + {s}, i) == PartsOf(msgs, G, i)
  {
    forall j | 0 <= j < Size(msgs, i) ensures Num(msgs, i, j) in G + {s} <==> Num(msgs, i, j) in G {
      if Num(msgs, i, j) == s { OwnerUnique(msgs, i, s); }
    }
  }

  // What the buffer of the owner becomes when its j-th part arrives.
  lemma OwnerParts(msgs: Messages, G: set<nat>, s: nat)
    requires s < Total(msgs) && s !in G
    ensures var i := Owner(msgs, s);
            var j := s - Start(msgs, i);
            PartsOf(msgs, G, i)[j := Some(Chunk(msgs[i], j))] == PartsOf(msgs, G + {s}, i)
    ensures var i := Owner(msgs, s);
            AllPresent(PartsOf(msgs, G + {s}, i)) <==> Whole(msgs, G + {s}, i)
  {
    hide Total, Chunk, Owner, NumFrames, Start;
    var i := Owner(msgs, s);
    var parts := PartsOf(msgs, G + {s}, i);
    forall l | 0 <= l < |parts| ensures parts[l].Some? <==> Num(msgs, i, l) in G + {s} {}
  }

  lemma OwnerStatus(msgs: Messages, G: set<nat>, s: nat)
    requires s < Total(msgs) && s !in G
    ensures var i := Owner(msgs, s);
            && !Whole(msgs, G, i)
            && (Size(msgs, i) >= 2 ==> msgs[i] != [] && (Open(msgs, G + {s}, i) <==> !Whole(msgs, G + {s}, i)))
  {
    assert NumFrames([]) == 1;
    hide Total, Owner, NumFrames, Start;
    var i := Owner(msgs, s);
    assert Num(msgs, i, s - Start(msgs, i)) == s;
  }

  // The buffers stay right, up to the owner of s.
  lemma OtherBuffers(msgs: Messages, G: set<nat>, base: nat, s: nat, buffers: map<u16, FragBuf>, after: map<u16, FragBuf>)
    requires Fits(msgs) && WindowOf(G, base) && BufInv(msgs, G, buffers)
    requires base <= s < base + WINDOW_BITS && s < Total(msgs) && msgs[Owner(msgs, s)] != []
    requires var f := Fid(msgs, Owner(msgs, s));
             forall g :: g != f ==> (g in after <==> g in buffers) && (g in buffers ==> after[g] == buffers[g])
    requires var i := Owner(msgs, s);
             if Open(msgs, G + {s}, i)
             then Fid(msgs, i) in after && after[Fid(msgs, i)] == FragBuf(Size(msgs, i), PartsOf(msgs, G + {s}, i))
             else Fid(msgs, i) !in after
    ensures BufInv(msgs, G + {s}, after)
  {
    hide Total, Fids, Chunk, Owner, NumFrames, Fid, PartsOf, Open;
    var o := Owner(msgs, s);
    forall i | 0 <= i < |msgs| && Open(msgs, G + {s}, i)
      ensures Fid(msgs, i) in after && after[Fid(msgs, i)] == FragBuf(Size(msgs, i), PartsOf(msgs, G + {s}, i))
    {
      if i != o {
        OthersUnchanged(msgs, G, s, i);
        OpenDistinct(msgs, G, base, i, o);
      }
    }
    forall f | f in after ensures exists i :: 0 <= i < |msgs| && Open(msgs, G + {s}, i) && Fid(msgs, i) == f {
      if f != Fid(msgs, o) {
        assert f in buffers;
        var i :| 0 <= i < |msgs| && Open(msgs, G, i) && Fid(msgs, i) == f;
        OthersUnchanged(msgs, G, s, i);
      }
    }
  }

  // The buffer the next fragment of message i goes into, whether it exists yet or not.
  lemma BufferFound(msgs: Messages, G: set<nat>, base: nat, s: nat, buffers: map<u16, FragBuf>)
    requires Fits(msgs) && WindowOf(G, base) && BufInv(msgs, G, buffers)
    requires base <= s < base + WINDOW_BITS && s < Total(msgs) && s !in G
    requires Size(msgs, Owner(msgs, s)) >= 2
    ensures var i := Owner(msgs, s);
            (if Fid(msgs, i) in buffers then buffers[Fid(msgs, i)] else EmptyBuf(Size(msgs, i)))
            == FragBuf(Size(msgs, i), PartsOf(msgs, G, i))
  {
    var i := Owner(msgs, s);
    assert Num(msgs, i, s - Start(msgs, i)) == s;
    if !Open(msgs, G, i) {
      if Fid(msgs, i) in buffers {
        var k :| 0 <= k < |msgs| && Open(msgs, G, k) && Fid(msgs, k) == Fid(msgs, i);
        OpenDistinct(msgs, G, base, k, i);
      }
      assert PartsOf(msgs, G, i) == EmptyBuf(Size(msgs, i)).parts;
    }
  }

  lemma HistoryGrows(msgs: Messages, G: set<nat>, s: nat, order: seq<nat>, history: seq<bytes>)
    requires HistoryInv(msgs, G, order, history)
    requires s < Total(msgs) && s !in G
    ensures var i := Owner(msgs, s);
            if Whole(msgs, G + {s}, i)
            then HistoryInv(msgs, G + {s}, order + [i], history + [msgs[i]])
            else HistoryInv(msgs, G + {s}, order, history)
  {
    var o := Owner(msgs, s);
    assert Num(msgs, o, s - Start(msgs, o)) == s;
    assert !Whole(msgs, G, o);
    forall i | 0 <= i < |msgs| && i != o ensures Whole(msgs, G + {s}, i) <==> Whole(msgs, G, i) {
      OthersUnchanged(msgs, G, s, i);
    }
    assert forall k :: 0 <= k < |order| ==> order[k] != o;
    assert forall i :: i in order ==> i in order + [o];
    assert o in order + [o];
  }

  /** Accepting one more honest frame, in any order, keeps buffers and history exact. */
  lemma AcceptKeeps(msgs: Messages, G: set<nat>, base: nat, s: nat, rx: Receiver, order: seq<nat>, popped: seq<bytes>)
    requires Fits(msgs) && WindowOf(G, base) && BufInv(msgs, G, rx.fragments)
    requires HistoryInv(msgs, G, order, popped + rx.delivered)
    requires base <= s < base + WINDOW_BITS && s < Total(msgs) && s !in G
    ensures var i := Owner(msgs, s);
            var j := s - Start(msgs, i);
            var rx' := Reassemble(rx, Fid(msgs, i), j, Size(msgs, i), Chunk(msgs[i], j));
            && BufInv(msgs, G + {s}, rx'.fragments)
            && rx'.delivered == (if Whole(msgs, G + {s}, i) then rx.delivered + [msgs[i]] else rx.delivered)
            && HistoryInv(msgs, G + {s}, if Whole(msgs, G + {s}, i) then order + [i] else order, popped + rx'.delivered)
  {
    hide Total, Fids, Chunk, Owner, NumFrames, Fid, BufInv, HistoryInv, Open, Join;
    var i := Owner(msgs, s);
    var j := s - Start(msgs, i);
    var rx' := Reassemble(rx, Fid(msgs, i), j, Size(msgs, i), Chunk(msgs[i], j));
    HistoryGrows(msgs, G, s, order, popped + rx.delivered);
    assert popped + (rx.delivered + [msgs[i]]) == (popped + rx.delivered) + [msgs[i]];
    OwnerParts(msgs, G, s);
    OwnerStatus(msgs, G, s);
    if Size(msgs, i) == 1 {
      SingleFrame(msgs, G, s, rx.fragments);
    } else {
      BufferFound(msgs, G, base, s, rx.fragments);
      var parts := PartsOf(msgs, G + {s}, i);
      if Whole(msgs, G + {s}, i) {
        assert parts == Chunks(msgs[i], Size(msgs, i));
        JoinAll(msgs[i]);
        OtherBuffers(msgs, G, base, s, rx.fragments, rx.fragments - {Fid(msgs, i)});
      } else {
        OtherBuffers(msgs, G, base, s, rx.fragments, rx.fragments[Fid(msgs, i) := FragBuf(Size(msgs, i), parts)]);
      }
    }
  }

  lemma SingleFrame(msgs: Messages, G: set<nat>, s: nat, buffers: map<u16, FragBuf>)
    requires Fits(msgs) && BufInv(msgs, G, buffers) && s < Total(msgs)
    requires Size(msgs, Owner(msgs, s)) == 1
    ensures var i := Owner(msgs, s);
            s == Start(msgs, i) && Chunk(msgs[i], 0) == msgs[i] && Whole(msgs, G + {s}, i)
    ensures BufInv(msgs, G + {s}, buffers)
  {
    hide Total, Fids, Chunk, Owner, NumFrames, Fid, PartsOf;
    var o := Owner(msgs, s);
    OneChunk(msgs[o]);
    assert Num(msgs, o, 0) == s;
    forall i | 0 <= i < |msgs| && i != o
      ensures Open(msgs, G + {s}, i) <==> Open(msgs, G, i)
      ensures PartsOf(msgs, G + {s}, i) == PartsOf(msgs, G, i)
    {
      OthersUnchanged(msgs, G, s, i);
    }
  }

  // A freshly enqueued message changes nothing at the receiver.
  lemma EnqueueUnnoticed(msgs: Messages, m: bytes, G: set<nat>, buffers: map<u16, FragBuf>, order: seq<nat>, history: seq<bytes>)
    requires Fits(msgs) && Fits(msgs + [m])
    requires forall x :: x in G ==> x < Total(msgs)
    requires BufInv(msgs, G, buffers) && HistoryInv(msgs, G, order, history)
    ensures BufInv(msgs + [m], G, buffers) && HistoryInv(msgs + [m], G, order, history)
  {
    hide Total, Fids, Chunk, NumFrames, Fid, Start;
    var t, n := msgs + [m], |msgs|;
    Append(msgs, m);
    assert Num(t, n, 0) !in G;
    assert !Whole(t, G, n) && !Open(t, G, n) by {
      assert forall j :: 0 <= j < Size(t, n) ==> Num(t, n, j) !in G;
    }
    forall i | 0 <= i < n
      ensures Whole(t, G, i) == Whole(msgs, G, i) && Open(t, G, i) == Open(msgs, G, i)
      ensures PartsOf(t, G, i) == PartsOf(msgs, G, i)
    {
      forall j | 0 <= j < Size(msgs, i) ensures Num(t, i, j) == Num(msgs, i, j) {}
    }
    forall f | f in buffers ensures exists i :: 0 <= i < |t| && Open(t, G, i) && Fid(t, i) == f {
      var i :| 0 <= i < |msgs| && Open(msgs, G, i) && Fid(msgs, i) == f;
      assert Open(t, G, i) && Fid(t, i) == f;
    }
  }
}
