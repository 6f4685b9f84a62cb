/**
 Two sessions over the network: how what each endpoint does on its own composes into a run, and what
 one application's sends mean for the other's receives.
*/
module SessionNetwork {
  import opened Words
  import opened Frame
  import opened ArqModel
  import opened Ledger
  import opened Network
  import opened Delivery
  import opened SessionModel

  // The operations of one side that took effect in a network run.
  ghost function Project(run: seq<Step>, side: Side): seq<Action> {
    if run == [] then []
    else
      var before := run[..|run| - 1];
      var (who, action) := run[|run| - 1];
      var n := Exec(before);
      if who == side && Enabled(At(n, side), At(n, Other(side)), action)
      then Project(before, side) + [action] else Project(before, side)
  }

  // The latest clock reading of an endpoint's flushes.
  function Clock(trace: seq<Action>): nat {
    if trace == [] then 0
    else
      var last := trace[|trace| - 1];
      if last.NewSends? || last.Retransmits? then last.now else Clock(trace[..|trace| - 1])
  }

  // What the endpoint sees of itself; its wire is everything it has put on the network.
  ghost predicate Sees(s: Local, clock: nat, me: Peer) {
    && s.tx == me.out.tx && s.rx == me.inn.rx && s.sent == me.out.msgs && s.received == me.inn.popped
    && clock == me.out.clock
    && forall f :: f in s.wire <==> Emitted(me, f)
  }

  // Appending to what has been emitted.
  lemma EmittedMore(me: Peer, me': Peer, frames: seq<bytes>)
    requires me'.out.frames == me.out.frames + frames && me'.inn.acks == me.inn.acks
    ensures forall f :: Emitted(me', f) <==> Emitted(me, f) || f in frames
  {}

  lemma EmittedAck(me: Peer, me': Peer, base: u32, bits: u64)
    requires me'.out.frames == me.out.frames && me'.inn.acks == me.inn.acks + [(base, bits)]
    ensures forall f :: Emitted(me', f) <==> Emitted(me, f) || f == EncodeAck(base, bits)
  {
    hide EncodeAck;
    var n, acks := |me.inn.acks|, me'.inn.acks;
    assert acks[n] == (base, bits) && forall k :: 0 <= k < n ==> acks[k] == me.inn.acks[k];
    forall f | Emitted(me', f) ensures Emitted(me, f) || f == EncodeAck(base, bits) {
      if f !in me.out.frames {
        var k :| 0 <= k < |acks| && f == EncodeAck(acks[k].0, acks[k].1);
        assert k < n ==> Emitted(me, f);
      }
    }
    forall f | Emitted(me, f) || f == EncodeAck(base, bits) ensures Emitted(me', f) {
      if f !in me.out.frames && Emitted(me, f) {
        var k :| 0 <= k < n && f == EncodeAck(me.inn.acks[k].0, me.inn.acks[k].1);
        assert f == EncodeAck(acks[k].0, acks[k].1);
      }
    }
  }

  // What an operation puts on the wire, on both accounts.
  lemma ActEmits(s: Local, me: Peer, msgs: Messages, action: Action) returns (more: seq<bytes>)
    requires s.tx == me.out.tx && s.rx == me.inn.rx
    ensures Do(s, action).wire == s.wire + more
    ensures forall f :: Emitted(Act(me, msgs, action), f) <==> Emitted(me, f) || f in more
  {
    hide ArqModel.Enqueue, TakeNewSends, TakeRetransmits, OnAck, OnData, DecodeInner, EncodeAck, NewSendKeys, Total, Owner, Emitted;
    var s', me' := Do(s, action), Act(me, msgs, action);
    more := [];
    match action
    case NewSends(now) =>
      more := TakeNewSends(s.tx, now).1;
      EmittedMore(me, me', more);
    case Retransmits(now) =>
      var r := TakeRetransmits(s.tx, now).1;
      more := if r.Ok? then r.value else [];
      EmittedMore(me, me', more);
    case Ingest(f) =>
      var (tx', rx', r) := ArqModel.Ingest(s.tx, s.rx, f);
      if r.Ok? && r.value.Some? {
        more := [r.value.value];
        EmittedAck(me, me', rx'.base, rx'.bits);
      } else {
        EmittedMore(me, me', more);
      }
    case _ =>
      EmittedMore(me, me', more);
  }

  lemma ActLocally(s: Local, clock: nat, me: Peer, msgs: Messages, action: Action)
    requires Sees(s, clock, me)
    ensures Sees(Do(s, action), if action.NewSends? || action.Retransmits? then action.now else clock, Act(me, msgs, action))
  {
    hide ArqModel.Enqueue, TakeNewSends, TakeRetransmits, ArqModel.Ingest, NewSendKeys, Total, Owner, Emitted;
    var more := ActEmits(s, me, msgs, action);
  }

  lemma ClockNext(trace: seq<Action>, action: Action)
    ensures Clock(trace + [action]) == if action.NewSends? || action.Retransmits? then action.now else Clock(trace)
  {
    assert (trace + [action])[..|trace|] == trace;
  }

  /** In every network run each endpoint is in the state its own operations put it in. */
  lemma {:induction false} LocalView(run: seq<Step>, side: Side)
    ensures Sees(Replay(Project(run, side)), Clock(Project(run, side)), At(Exec(run), side))
  {
    hide Do, Act, Enabled, Emitted, Sees;
    if run == [] {
      NothingSeen(side);
    } else {
      var before := run[..|run| - 1];
      var (who, action) := run[|run| - 1];
      LocalView(before, side);
      var n, trace := Exec(before), Project(before, side);
      if who == side && Enabled(At(n, side), At(n, Other(side)), action) {
        ReplayNext(trace, action);
        ClockNext(trace, action);
        ActLocally(Replay(trace), Clock(trace), At(n, side), At(n, Other(side)).out.msgs, action);
      }
    }
  }

  lemma NothingSeen(side: Side)
    ensures Sees(Replay([]), 0, At(Exec([]), side)) && Clock([]) == 0
  {}

  /* ---- composing ---- */

  // The operations of one side in a schedule of both.
  function Own(schedule: seq<Step>, side: Side): seq<Action> {
    if schedule == [] then []
    else
      var before := Own(schedule[..|schedule| - 1], side);
      var (who, action) := schedule[|schedule| - 1];
      if who == side then before + [action] else before
  }

  // An operation one endpoint may perform next, by what it and its peer have done: it ingests only
  // what is on the peer's wire, its clock does not run backwards, its numbers stay in scope.
  predicate Allowed(own: seq<Action>, peer: seq<Action>, action: Action) {
    match action
    case Enqueue(m) => NumFrames(m) > MAX_FRAGMENTS || Total(Replay(own).sent) + NumFrames(m) <= SEQ_LIMIT
    case NewSends(now) => now >= Clock(own)
    case Retransmits(now) => now >= Clock(own)
    case SetRetx(_) => true
    case Ingest(f) => f in Replay(peer).wire
    case Pop => true
  }

  ghost predicate Admissible(schedule: seq<Step>) {
    schedule != [] ==>
      var before := schedule[..|schedule| - 1];
      var (who, action) := schedule[|schedule| - 1];
      Admissible(before) && Allowed(Own(before, who), Own(before, Other(who)), action)
  }

  lemma AllowedIsEnabled(own: seq<Action>, peer: seq<Action>, me: Peer, other: Peer, action: Action)
    requires Sees(Replay(own), Clock(own), me) && Sees(Replay(peer), Clock(peer), other)
    ensures Allowed(own, peer, action) <==> Enabled(me, other, action)
  {
    hide Replay, Clock, Emitted, Total;
  }

  /**
   Whatever two endpoints do on their own, each ingesting only what is on the other's wire, composes into
   a network run in which each of them does exactly that.
  */
  lemma {:induction false} Composes(schedule: seq<Step>, side: Side)
    requires Admissible(schedule)
    ensures Project(schedule, side) == Own(schedule, side)
  {
    hide Replay, Clock, Sees, Enabled, Exec, Allowed;
    if schedule != [] {
      var before := schedule[..|schedule| - 1];
      var (who, action) := schedule[|schedule| - 1];
      Composes(before, A);
      Composes(before, B);
      LocalView(before, A);
      LocalView(before, B);
      assert Other(who) == A || Other(who) == B;
      AllowedIsEnabled(Own(before, who), Own(before, Other(who)), At(Exec(before), who), At(Exec(before), Other(who)), action);
    }
  }

  /* ---- first in, first out ---- */

  lemma {:induction false} PoliteProject(run: seq<Step>, side: Side)
    requires run != [] && Polite(Project(run, side))
    ensures Polite(Project(run[..|run| - 1], side))
  {
    var before := Project(run[..|run| - 1], side);
    if Project(run, side) != before {
      var (who, action) := run[|run| - 1];
      assert (before + [action])[..|before|] == before;
    }
  }

  lemma PoliteStep(run: seq<Step>, side: Side)
    requires run != [] && Polite(Project(run, side))
    requires Replay(Project(run, side)).sent != Replay(Project(run[..|run| - 1], side)).sent
    ensures Replay(Project(run[..|run| - 1], side)).tx.unacked == map[]
  {
    var before := Project(run[..|run| - 1], side);
    var (who, action) := run[|run| - 1];
    assert (before + [action])[..|before|] == before;
    hide Do;
  }

  lemma {:induction false} PoliteIsPatient(run: seq<Step>, side: Side)
    requires Polite(Project(run, side))
    ensures Patient(run, side)
  {
    hide Emitted;
    if run != [] {
      var before := run[..|run| - 1];
      PoliteProject(run, side);
      PoliteIsPatient(before, side);
      LocalView(before, side);
      LocalView(run, side);
      hide Exec, Project, Replay, Polite, Clock;
      if Tx(Exec(run), side).msgs != Tx(Exec(before), side).msgs {
        PoliteStep(run, side);
      }
    }
  }

  lemma HeadOfHead(a: seq<bytes>, b: seq<bytes>, m: seq<bytes>)
    requires |a + b| <= |m| && a + b == m[..|a + b|]
    ensures a <= m
  {
    assert a == (a + b)[..|a|];
  }

  // Some network run, polite on `side`, puts its two endpoints into these states.
  ghost predicate ReachedPolitely(here: Local, there: Local, side: Side) {
    exists run :: Polite(Project(run, side)) && here == Replay(Project(run, side)) && there == Replay(Project(run, Other(side)))
  }

  /**
   End to end: in a run in which one side enqueues only when nothing of its own is unacknowledged, the
   messages the other application has received are, in order, the first messages sent; and when nothing
   is unacknowledged, what was received and what waits to be received are all of them.
  */
  lemma EndToEnd(here: Local, there: Local, side: Side)
    requires ReachedPolitely(here, there, side)
    ensures there.received <= here.sent
    ensures here.tx.unacked == map[] ==> there.received + there.rx.delivered == here.sent
  {
    hide Emitted;
    var run :| Polite(Project(run, side)) && here == Replay(Project(run, side)) && there == Replay(Project(run, Other(side)));
    PoliteIsPatient(run, side);
    Fifo(Exec(run), side);
    LocalView(run, side);
    LocalView(run, Other(side));
    hide Exec, Project, Replay, Polite, Patient, Clock;
    var q := Rx(Exec(run), side);
    HeadOfHead(q.popped, q.rx.delivered, Tx(Exec(run), side).msgs);
  }

  // Earlier in a trace: no more sent or received, and polite if the trace is.
  lemma {:induction false} Earlier(early: seq<Action>, late: seq<Action>)
    requires early <= late
    ensures Polite(late) ==> Polite(early)
    ensures Replay(early).sent <= Replay(late).sent && Replay(early).received <= Replay(late).received
    decreases |late|
  {
    if early != late {
      var init := late[..|late| - 1];
      assert early == late[..|early|] == init[..|early|];
      Earlier(early, init);
      OnlyGrows(Replay(init), late[|late| - 1]);
      hide Do;
    }
  }

  lemma OnlyGrows(s: Local, action: Action)
    ensures s.sent <= Do(s, action).sent && s.received <= Do(s, action).received
  {
    hide ArqModel.Enqueue, TakeNewSends, TakeRetransmits, ArqModel.Ingest;
  }

  // What two applications have done so far over one network: `calls` on `side`, of which the last may not
  // have returned yet, and `others`, which have returned, on the other side.
  ghost predicate Conversation(schedule: seq<Step>, side: Side, calls: seq<Call>, others: seq<Call>) {
    && Admissible(schedule)
    && AllTimely(calls) && Own(schedule, side) <= History(calls).acts
    && AllTimely(others) && History(others).acts <= Own(schedule, Other(side))
  }

  /**
   Session FIFO, in terms of calls and their results: if one application calls send again only after every
   earlier send has returned success or was refused as too large, then at every moment the messages the
   other's receives have returned are, in order, the first of those its sends took on; and once all its
   sends have settled, those returned and those waiting to be received are all of them.
  */
  lemma SessionFifo(schedule: seq<Step>, side: Side, calls: seq<Call>, others: seq<Call>)
    requires Conversation(schedule, side, calls, others) && Patiently(History(calls).result)
    ensures |History(calls).result| == |calls|
    ensures Taken(History(others).result) <= Given(calls, History(calls).result)
    ensures Own(schedule, side) == History(calls).acts && AllSettled(History(calls).result)
            && History(others).acts == Own(schedule, Other(side))
            ==> Taken(History(others).result) + History(others).state.rx.delivered == Given(calls, History(calls).result)
  {
    hide History, Replay, Polite, Admissible, Own, Project, Patiently, AllSettled, Given, Taken;
    var h, o := History(calls), History(others);
    var here, there := Replay(Own(schedule, side)), Replay(Own(schedule, Other(side)));
    PatientIsPolite(calls);
    PatientIsPolite(others);
    HistoryMessages(calls);
    HistoryMessages(others);
    Earlier(Own(schedule, side), h.acts);
    Earlier(o.acts, Own(schedule, Other(side)));
    Composes(schedule, side);
    Composes(schedule, Other(side));
    assert ReachedPolitely(here, there, side);
    EndToEnd(here, there, side);
  }
}
