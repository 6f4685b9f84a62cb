/** What applications get out of a run: the protocol's delivery guarantees. */
module Delivery {
  import opened Words
  import opened Ordered
  import opened Window
  import opened ArqModel
  import opened Ledger
  import opened Reassembly
  import opened Link
  import opened Network

  // The sending side and the receiving side of the direction that starts at `side`.
  ghost function Tx(n: Net, side: Side): TxSide {
    At(n, side).out
  }

  ghost function Rx(n: Net, side: Side): RxSide {
    At(n, Other(side)).inn
  }

  lemma LinkOf(run: seq<Step>, side: Side)
    ensures LinkInv(Tx(Exec(run), side), Rx(Exec(run), side))
  {
    Always(run);
  }

  lemma LinkAt(n: Net, side: Side)
    requires Reachable(n)
    ensures LinkInv(Tx(n, side), Rx(n, side))
  {
    var run :| n == Exec(run);
    LinkOf(run, side);
  }

  /* ---- exactly once, intact ---- */

  // Positions of x in q.
  ghost function Places(q: seq<bytes>, x: bytes): set<int> {
    set i | 0 <= i < |q| && q[i] == x
  }

  lemma {:induction false} CountPlaces(q: seq<bytes>, x: bytes)
    ensures multiset(q)[x] == |Places(q, x)|
  {
    if q == [] {
      assert Places(q, x) == {};
    } else {
      var init, last := q[..|q| - 1], |q| - 1;
      CountPlaces(init, x);
      assert q == init + [q[last]];
      assert Places(q, x) == if q[last] == x then Places(init, x) + {last} else Places(init, x);
    }
  }

  // Where `order` sends a set of positions.
  lemma {:induction false} InjectiveImage(order: seq<nat>, ks: set<int>, image: set<int>)
    requires forall k :: k in ks ==> 0 <= k < |order| && order[k] in image
    requires forall i :: i in image ==> exists k :: k in ks && order[k] == i
    requires forall k, l :: 0 <= k < l < |order| ==> order[k] != order[l]
    ensures |image| == |ks|
    decreases |ks|
  {
    if ks == {} {
      assert image == {};
    } else {
      var k := HasLeast(ks);
      forall i | i in image - {order[k]} ensures exists l :: l in ks - {k} && order[l] == i {
        var l :| l in ks && order[l] == i;
        assert l in ks - {k};
      }
      InjectiveImage(order, ks - {k}, image - {order[k]});
    }
  }

  // The enqueued copies of x that have arrived whole.
  ghost function WholePlaces(msgs: Messages, G: set<nat>, x: bytes): set<int> {
    set i | 0 <= i < |msgs| && Whole(msgs, G, i) && msgs[i] == x
  }

  // Messages delivered are messages enqueued, none more often than it was enqueued.
  lemma HistoryCount(msgs: Messages, G: set<nat>, order: seq<nat>, history: seq<bytes>, x: bytes)
    requires HistoryInv(msgs, G, order, history)
    ensures multiset(history)[x] == |WholePlaces(msgs, G, x)|
  {
    CountPlaces(history, x);
    var image := WholePlaces(msgs, G, x);
    forall i | i in image ensures exists k :: k in Places(history, x) && order[k] == i {
      assert i in order;
      var k :| 0 <= k < |order| && order[k] == i;
      assert k in Places(history, x);
    }
    hide Whole;
    InjectiveImage(order, Places(history, x), image);
  }

  /**
   Exactly-once, intact delivery: in every run, the messages delivered so far correspond one to one to
   distinct enqueued messages, byte for byte; a message is among them exactly when every one of its
   frames has been accepted; and so no byte string is delivered more often than it was enqueued.
  */
  lemma ExactlyOnce(n: Net, side: Side)
    requires Reachable(n)
    ensures var p, q := Tx(n, side), Rx(n, side);
            && |q.order| == |q.History()|
            && (forall k :: 0 <= k < |q.order| ==> q.order[k] < |p.msgs| && q.History()[k] == p.msgs[q.order[k]])
            && (forall k, l :: 0 <= k < l < |q.order| ==> q.order[k] != q.order[l])
            && (forall i :: 0 <= i < |p.msgs| ==> (i in q.order <==> Whole(p.msgs, q.G(), i)))
    ensures multiset(Rx(n, side).History()) <= multiset(Tx(n, side).msgs)
  {
    LinkAt(n, side);
    var p, q := Tx(n, side), Rx(n, side);
    forall x ensures multiset(q.History())[x] <= multiset(p.msgs)[x] {
      HistoryCount(p.msgs, q.G(), q.order, q.History(), x);
      CountPlaces(p.msgs, x);
      SubsetSize(WholePlaces(p.msgs, q.G(), x), Places(p.msgs, x));
    }
  }

  // With nothing unacknowledged, every message is whole at the peer.
  lemma AllWhole(p: TxSide, q: RxSide)
    requires LinkInv(p, q) && p.tx.unacked == map[]
    ensures forall i :: 0 <= i < |p.msgs| ==> Whole(p.msgs, q.G(), i) && i in q.order
  {
    hide Total, Fids, Wire, WindowInv, RetryInv, HonestInv, BudgetInv, AckInv, BufInv, Got, Start;
    forall i | 0 <= i < |p.msgs| ensures Whole(p.msgs, q.G(), i) {
      forall j | 0 <= j < Size(p.msgs, i) ensures Num(p.msgs, i, j) in q.G() {
        OwnerUnique(p.msgs, i, Num(p.msgs, i, j));
      }
    }
  }

  /**
   Success means delivered: whenever the sender has nothing unacknowledged, which is when a send
   returns success, the peer's delivered messages are a permutation of all messages enqueued so far.
  */
  lemma SuccessMeansDelivered(n: Net, side: Side)
    requires Reachable(n)
    requires Tx(n, side).tx.unacked == map[]
    ensures multiset(Rx(n, side).History()) == multiset(Tx(n, side).msgs)
  {
    LinkAt(n, side);
    var p, q := Tx(n, side), Rx(n, side);
    AllWhole(p, q);
    forall x ensures multiset(q.History())[x] == multiset(p.msgs)[x] {
      HistoryCount(p.msgs, q.G(), q.order, q.History(), x);
      CountPlaces(p.msgs, x);
      assert WholePlaces(p.msgs, q.G(), x) == Places(p.msgs, x);
    }
  }

  /* ---- first in, first out, for a sender that waits ---- */

  // Each of `side`'s messages was enqueued when nothing of its own was unacknowledged, as by an
  // application that sends again only after a successful send.
  ghost predicate Patient(run: seq<Step>, side: Side) {
    run != [] ==>
      var before := run[..|run| - 1];
      && Patient(before, side)
      && (Tx(Exec(run), side).msgs != Tx(Exec(before), side).msgs ==> Tx(Exec(before), side).tx.unacked == map[])
  }

  ghost predicate InOrder(msgs: Messages, order: seq<nat>) {
    |msgs| <= |order| + 1 && forall k :: 0 <= k < |order| ==> order[k] == k
  }

  // How one step moves the message list and the order of completion.
  lemma StepOrder(n: Net, step: Step, side: Side)
    ensures var p, q := Tx(n, side), Rx(n, side);
            var p', q' := Tx(Next(n, step), side), Rx(Next(n, step), side);
            && (p'.msgs == p.msgs
                || (step.0 == side && step.1.Enqueue? && p'.msgs == p.msgs + [step.1.m]))
            && (q'.order == q.order || exists i :: q'.order == q.order + [i])
            && (p'.msgs == p.msgs || q'.order == q.order)
  {
    hide ArqModel.Enqueue, TakeNewSends, TakeRetransmits, OnAck, OnData, ArqModel.Ingest, NewSendKeys, Enabled;
  }

  lemma OneMore(msgs: Messages, G: set<nat>, order: seq<nat>, i: nat, history: seq<bytes>)
    requires InOrder(msgs, order) && HistoryInv(msgs, G, order + [i], history)
    ensures InOrder(msgs, order + [i])
  {
    hide Whole;
    var o := order + [i];
    assert o[|order|] == i && i < |msgs|;
    assert forall k :: 0 <= k < |order| ==> o[k] == order[k];
    forall k | 0 <= k < |order| ensures k in order {
      assert order[k] == k;
    }
    assert i !in order;
  }

  lemma {:induction false} AlwaysInOrder(run: seq<Step>, side: Side)
    requires Patient(run, side)
    ensures InOrder(Tx(Exec(run), side).msgs, Rx(Exec(run), side).order)
  {
    if run != [] {
      var before := run[..|run| - 1];
      AlwaysInOrder(before, side);
      LinkOf(before, side);
      LinkOf(run, side);
      StepOrder(Exec(before), run[|run| - 1], side);
      hide LinkInv, InOrder, Next, Tx, Rx;
      InOrderStep(Exec(before), Exec(run), side);
    }
  }

  lemma InOrderStep(n: Net, n': Net, side: Side)
    requires LinkInv(Tx(n, side), Rx(n, side)) && LinkInv(Tx(n', side), Rx(n', side))
    requires InOrder(Tx(n, side).msgs, Rx(n, side).order)
    requires var p, q, p', q' := Tx(n, side), Rx(n, side), Tx(n', side), Rx(n', side);
             && (p'.msgs == p.msgs || (p.tx.unacked == map[] && |p'.msgs| == |p.msgs| + 1))
             && (q'.order == q.order || exists i :: q'.order == q.order + [i])
             && (p'.msgs == p.msgs || q'.order == q.order)
    ensures InOrder(Tx(n', side).msgs, Rx(n', side).order)
  {
    var p, q, p', q' := Tx(n, side), Rx(n, side), Tx(n', side), Rx(n', side);
    if q'.order != q.order {
      var i :| q'.order == q.order + [i];
      OneMore(p'.msgs, q'.G(), q.order, i, q'.History());
    } else if p'.msgs != p.msgs {
      AllDone(p, q);
    }
    hide LinkInv, Tx, Rx;
  }

  // In order and nothing unacknowledged: every message has been delivered.
  lemma AllDone(p: TxSide, q: RxSide)
    requires LinkInv(p, q) && InOrder(p.msgs, q.order) && p.tx.unacked == map[]
    ensures |q.order| == |p.msgs|
  {
    AllWhole(p, q);
    DeliveredPrefix(p.msgs, q.G(), q.order, q.History());
    hide LinkInv, Whole;
    assert |q.order| !in q.order;
  }

  lemma DeliveredPrefix(msgs: Messages, G: set<nat>, order: seq<nat>, history: seq<bytes>)
    requires InOrder(msgs, order) && HistoryInv(msgs, G, order, history)
    ensures |order| == |history| <= |msgs| && history == msgs[..|history|]
  {
    hide Whole;
    if |order| > 0 { assert order[|order| - 1] < |msgs|; }
  }

  // Some run in which the side's sends are patient ends in n.
  ghost predicate ReachedPatiently(n: Net, side: Side) {
    exists run :: n == Exec(run) && Patient(run, side)
  }

  /**
   Session FIFO: for a sender that waits for each send to succeed, the delivered messages are at every
   moment the sent ones in order, short of at most the one still in flight.
  */
  lemma Fifo(n: Net, side: Side)
    requires ReachedPatiently(n, side)
    ensures var p, q := Tx(n, side), Rx(n, side);
            && |p.msgs| - 1 <= |q.History()| <= |p.msgs|
            && q.History() == p.msgs[..|q.History()|]
            && (p.tx.unacked == map[] ==> q.History() == p.msgs)
  {
    var run :| n == Exec(run) && Patient(run, side);
    LinkOf(run, side);
    AlwaysInOrder(run, side);
    var p, q := Tx(n, side), Rx(n, side);
    if p.tx.unacked == map[] { AllDone(p, q); }
    DeliveredPrefix(p.msgs, q.G(), q.order, q.History());
    hide LinkInv, Exec, Tx, Rx;
  }
}
