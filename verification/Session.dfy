/**
 The session object of src/session.rs: it drives the ARQ endpoint. Sockets, encryption and clocks are
 abstracted: each turn of a waiting loop is given its clock readings and the inner frame, if any, that
 arrived from the next hop and decrypted.
*/
module SessionObject {
  import opened Words
  import opened Wrappers
  import opened ArqEndpoint
  import opened SessionModel
  import M = ArqModel
  import N = Network

  class UdpSession {
    const arq: Arq
    var wire: seq<bytes>
    // The endpoint operations performed so far, and what the application has sent and received.
    ghost var trace: seq<N.Action>
    ghost var sent: seq<bytes>
    ghost var received: seq<bytes>
    // The application's calls so far, and what they returned.
    ghost var calls: seq<Call>
    ghost var answers: seq<Answer>

    ghost function State(): Local
      reads this, arq
    {
      Local(arq.Tx(), arq.Rx(), sent, received, wire)
    }

    // The session is where its own operations have put it.
    ghost predicate Valid()
      reads this, arq
    {
      Replay(trace) == State()
    }

    // Between two calls it is also where the application's calls have put it.
    ghost predicate Idle()
      reads this, arq
    {
      Valid() && AllTimely(calls) && History(calls) == Outcome(State(), trace, answers)
    }

    constructor ()
      ensures Idle() && fresh(arq) && calls == [] && State() == NEW_LOCAL
    {
      arq := new Arq();
      wire := [];
      trace, sent, received, calls, answers := [], [], [], [], [];
    }

    method Flush(now: nat) returns (r: Status)
      requires Valid()
      modifies this`wire, this`trace, arq
      ensures Valid() && var f := Flushed(old(State()), now); State() == f.state && r == f.result && trace == old(trace) + f.acts
      ensures var (tx, news) := M.TakeNewSends(old(arq.Tx()), now);
              var (tx', again) := M.TakeRetransmits(tx, now);
              && arq.Tx() == tx' && arq.Rx() == old(arq.Rx())
              && wire == old(wire) + news + (if again.Ok? then again.value else [])
              && r == if again.Ok? then Ok(()) else Err(GaveUp(again.error))
    {
      hide M.TakeNewSends, M.TakeRetransmits, Replay, Polite;
      ReplayNext(trace, N.NewSends(now));
      ReplayNext(trace + [N.NewSends(now)], N.Retransmits(now));
      assert trace + [N.NewSends(now), N.Retransmits(now)] == trace + [N.NewSends(now)] + [N.Retransmits(now)];
      var news := arq.TakeNewSends(now);
      wire := wire + news;
      var resent := arq.TakeRetransmits(now);
      trace := trace + [N.NewSends(now), N.Retransmits(now)];
      if resent.Err? {
        return Err(GaveUp(resent.error));
      }
      wire := wire + resent.value;
      return Ok(());
    }

    method HandleIncoming(frame: bytes) returns (r: Status)
      requires Valid()
      modifies this`wire, this`trace, arq
      ensures Valid()
      ensures var a := Arrived(old(State()), Some(frame)); State() == a.state && r == a.result && trace == old(trace) + a.acts
      ensures var (tx, rx, ack) := M.Ingest(old(arq.Tx()), old(arq.Rx()), frame);
              && arq.Tx() == tx && arq.Rx() == rx
              && wire == old(wire) + (if ack.Ok? && ack.value.Some? then [ack.value.value] else [])
              && r == if ack.Ok? then Ok(()) else Err(BadArq(ack.error))
    {
      hide M.Ingest, Replay, Polite;
      ReplayNext(trace, N.Action.Ingest(frame));
      trace := trace + [N.Action.Ingest(frame)];
      var ack := arq.Ingest(frame);
      if ack.Err? {
        return Err(BadArq(ack.error));
      }
      if ack.value.Some? {
        wire := wire + [ack.value.value];
      }
      return Ok(());
    }

    // What the socket may yield within one turn.
    method HandleArrival(frame: Option<bytes>) returns (r: Status)
      requires Valid()
      modifies this`wire, this`trace, arq
      ensures Valid()
      ensures var a := Arrived(old(State()), frame); State() == a.state && r == a.result && trace == old(trace) + a.acts
    {
      hide Replay, Do, M.Ingest;
      if frame.None? {
        assert trace + [] == trace;
        return Ok(());
      }
      r := HandleIncoming(frame.value);
    }

    method WaitAcked(turns: seq<Turn>, deadline: nat) returns (r: Status)
      requires Valid() && Reaches(turns, deadline)
      modifies this`wire, this`trace, arq
      ensures Valid()
      ensures var w := Wait(old(State()), turns, deadline); State() == w.state && r == w.result && trace == old(trace) + w.acts
      ensures old(Polite(trace)) ==> Polite(trace)
    {
      hide Wait, Polite, Do, Flushed, Arrived, Continues, Replay, M.TakeNewSends, M.TakeRetransmits, M.Ingest;
      ghost var goal, t0 := Wait(State(), turns, deadline), trace;
      Leading(trace, turns, deadline);
      hide Valid, Reaches;
      Starting(goal, t0);
      var i := 0;
      assert turns[0..] == turns;
      while true
        invariant 0 <= i < |turns| && Reaches(turns[i..], deadline)
        invariant Valid() && Continues(goal, t0, Wait(State(), turns[i..], deadline), trace)
        decreases |turns| - i
      {
        WaitUnfolds(State(), turns, i, deadline);
        Finishing(goal, t0, Wait(State(), turns[i..], deadline), trace);
        ghost var t, f := trace, Flushed(State(), turns[i].flushAt);
        r := Flush(turns[i].flushAt);
        if r.Err? {
          return;
        }
        if arq.UnackedLen() == 0 {
          return Ok(());
        }
        if turns[i].checkAt >= deadline {
          return Err(Timeout);
        }
        ghost var a := Arrived(State(), turns[i].frame);
        r := HandleArrival(turns[i].frame);
        Concat(t, f.acts, a.acts);
        if r.Err? {
          return;
        }
        i := i + 1;
        Moved(goal, t0, f.acts + a.acts, Wait(State(), turns[i..], deadline), t);
      }
    }

    method SendTimeout(message: bytes, turns: seq<Turn>, deadline: nat) returns (r: Status)
      requires Idle() && Reaches(turns, deadline)
      modifies this, arq
      ensures Idle() && calls == old(calls) + [SendCall(message, turns, deadline)] && answers == old(answers) + [SendDone(r)]
      ensures State() == Send(old(State()), message, turns, deadline).state
      ensures r == Send(old(State()), message, turns, deadline).result
    {
      hide Wait, Replay, Polite, History, Perform, Do, Send, M.Enqueue;
      ghost var s0, t0, call := State(), trace, SendCall(message, turns, deadline);
      HistoryNext(calls, call);
      Sending(s0, message, turns, deadline);
      ReplayNext(trace, N.Action.Enqueue(message));
      var e := arq.Enqueue(message);
      if e.Err? {
        r := Err(BadArq(e.error));
      } else {
        trace := trace + [N.Action.Enqueue(message)];
        sent := sent + [message];
        r := WaitAcked(turns, deadline);
        Concat(t0, [N.Action.Enqueue(message)], Wait(Do(s0, N.Action.Enqueue(message)), turns, deadline).acts);
      }
      calls, answers := calls + [call], answers + [SendDone(r)];
    }

    method Recv(turns: seq<Turn>, deadline: nat) returns (r: Result<bytes, SessionError>)
      requires Idle() && Reaches(turns, deadline)
      modifies this, arq
      ensures Idle() && calls == old(calls) + [RecvCall(turns, deadline)] && answers == old(answers) + [RecvDone(r)]
      ensures State() == Receive(old(State()), turns, deadline).state
      ensures r == Receive(old(State()), turns, deadline).result
    {
      ghost var call := RecvCall(turns, deadline);
      hide History, Perform, Receive, Do, Replay;
      HistoryNext(calls, call);
      Receiving(State(), turns, deadline);
      r := RecvLoop(turns, deadline);
      calls, answers := calls + [call], answers + [RecvDone(r)];
    }

    method RecvLoop(turns: seq<Turn>, deadline: nat) returns (r: Result<bytes, SessionError>)
      requires Valid() && Reaches(turns, deadline)
      modifies this`wire, this`trace, this`received, arq
      ensures Valid()
      ensures var o := Receive(old(State()), turns, deadline); State() == o.state && r == o.result && trace == old(trace) + o.acts
    {
      hide Replay, Polite, Flushed, Arrived, Continues, M.TakeNewSends, M.TakeRetransmits, M.Ingest;
      ghost var goal, t0 := Receive(State(), turns, deadline), trace;
      var i := 0;
      Starting(goal, t0);
      assert turns[0..] == turns;
      hide Receive;
      while true
        invariant 0 <= i < |turns| && Reaches(turns[i..], deadline)
        invariant Valid() && Continues(goal, t0, Receive(State(), turns[i..], deadline), trace)
        decreases |turns| - i
      {
        ReplayNext(trace, N.Pop);
        ReceivePops(State(), turns[i..], deadline);
        Finishing(goal, t0, Receive(State(), turns[i..], deadline), trace);
        var m := arq.PopDelivered();
        if m.Some? {
          trace := trace + [N.Pop];
          received := received + [m.value];
          return Ok(m.value);
        }
        ReceiveUnfolds(State(), turns, i, deadline);
        ghost var t, f := trace, Flushed(State(), turns[i].flushAt);
        var flushed := Flush(turns[i].flushAt);
        if flushed.Err? {
          return Err(flushed.error);
        }
        if turns[i].checkAt >= deadline {
          return Err(Timeout);
        }
        ghost var a := Arrived(State(), turns[i].frame);
        var handled := HandleArrival(turns[i].frame);
        Concat(t, f.acts, a.acts);
        if handled.Err? {
          return Err(handled.error);
        }
        i := i + 1;
        Moved(goal, t0, f.acts + a.acts, Receive(State(), turns[i..], deadline), t);
      }
    }

    method SetRetxTimeout(d: nat)
      requires Idle()
      modifies this, arq
      ensures Idle() && calls == old(calls) + [SetRetxCall(d)] && answers == old(answers) + [RetxDone]
      ensures State() == Do(old(State()), N.SetRetx(d))
    {
      hide History, Perform, Do, Replay, Polite;
      HistoryNext(calls, SetRetxCall(d));
      SettingRetx(State(), d);
      ReplayNext(trace, N.SetRetx(d));
      arq.SetRetx(d);
      trace := trace + [N.SetRetx(d)];
      calls, answers := calls + [SetRetxCall(d)], answers + [RetxDone];
    }
  }

  // What is still to be done from here completes `goal`, as begun after t0.
  ghost predicate Continues<R(!new)>(goal: Outcome<R>, t0: seq<N.Action>, rest: Outcome<R>, trace: seq<N.Action>) {
    goal.state == rest.state && goal.result == rest.result && t0 + goal.acts == trace + rest.acts
  }

  // Waiting keeps a polite trace polite.
  lemma Leading(trace: seq<N.Action>, turns: seq<Turn>, deadline: nat)
    requires Reaches(turns, deadline)
    ensures Polite(trace) ==> Polite(trace + Wait(Replay(trace), turns, deadline).acts)
  {
    hide Wait;
    WaitLeads(trace, turns, deadline);
  }

  lemma SettingRetx(s: Local, d: nat)
    ensures Do(s, N.SetRetx(d)) == s.(tx := s.tx.(retx := d))
    ensures Perform(s, SetRetxCall(d)) == Outcome(Do(s, N.SetRetx(d)), [N.SetRetx(d)], RetxDone)
  {}

  lemma Receiving(s: Local, turns: seq<Turn>, deadline: nat)
    requires Reaches(turns, deadline)
    ensures var o := Receive(s, turns, deadline);
            Perform(s, RecvCall(turns, deadline)) == Outcome(o.state, o.acts, RecvDone(o.result))
  {
    hide Receive;
  }

  lemma Sending(s: Local, m: bytes, turns: seq<Turn>, deadline: nat)
    requires Reaches(turns, deadline)
    ensures var (tx', r) := M.Enqueue(s.tx, m);
            var o, e := Send(s, m, turns, deadline), N.Action.Enqueue(m);
            && Perform(s, SendCall(m, turns, deadline)) == Outcome(o.state, o.acts, SendDone(o.result))
            && if r.Err? then tx' == s.tx && o == Outcome(s, [], Err(BadArq(r.error)))
               else Do(s, e) == s.(tx := tx', sent := s.sent + [m]) && o == After([e], Wait(Do(s, e), turns, deadline))
  {
    hide Wait, M.AddFrames;
  }

  // One turn of the loop in `wait_acked`.
  lemma WaitUnfolds(s: Local, turns: seq<Turn>, i: nat, deadline: nat)
    requires i < |turns| && Reaches(turns[i..], deadline)
    ensures var w, f := Wait(s, turns[i..], deadline), Flushed(s, turns[i].flushAt);
            var a := Arrived(f.state, turns[i].frame);
            if f.result.Err? then w == f
            else if |f.state.tx.unacked| == 0 then w == f.(result := Ok(()))
            else if turns[i].checkAt >= deadline then w == f.(result := Err(Timeout))
            else if a.result.Err? then w == After(f.acts, a)
            else i + 1 < |turns| && Reaches(turns[i + 1..], deadline)
                 && w == After(f.acts + a.acts, Wait(a.state, turns[i + 1..], deadline))
  {
    hide Flushed, Arrived;
    if turns[i].checkAt < deadline { NextTurn(turns, i, deadline); }
  }

  // One turn of the loop in `recv`.
  lemma ReceiveUnfolds(s: Local, turns: seq<Turn>, i: nat, deadline: nat)
    requires i < |turns| && Reaches(turns[i..], deadline) && s.rx.delivered == []
    ensures var w, f := Receive(s, turns[i..], deadline), Flushed(s, turns[i].flushAt);
            var a := Arrived(f.state, turns[i].frame);
            if f.result.Err? then w == Outcome(f.state, f.acts, Err(f.result.error))
            else if turns[i].checkAt >= deadline then w == Outcome(f.state, f.acts, Err(Timeout))
            else if a.result.Err? then w == Outcome(a.state, f.acts + a.acts, Err(a.result.error))
            else i + 1 < |turns| && Reaches(turns[i + 1..], deadline)
                 && w == After(f.acts + a.acts, Receive(a.state, turns[i + 1..], deadline))
  {
    hide Flushed, Arrived, Do;
    if turns[i].checkAt < deadline { NextTurn(turns, i, deadline); }
  }

  lemma NextTurn(turns: seq<Turn>, i: nat, deadline: nat)
    requires i < |turns| && Reaches(turns[i..], deadline) && turns[i].checkAt < deadline
    ensures i + 1 < |turns| && turns[i..][1..] == turns[i + 1..] && Reaches(turns[i + 1..], deadline)
  {
    ReachesNext(turns[i..], deadline);
  }

  lemma ReceivePops(s: Local, turns: seq<Turn>, deadline: nat)
    requires Reaches(turns, deadline)
    ensures s.rx.delivered != [] ==> Receive(s, turns, deadline) == Outcome(
              s.(received := s.received + [s.rx.delivered[0]], rx := s.rx.(delivered := s.rx.delivered[1..])), [N.Pop],
              Ok(s.rx.delivered[0]))
    ensures s.rx.delivered != [] ==> Do(s, N.Pop) == Receive(s, turns, deadline).state
  {
    hide Flushed, Arrived;
  }

  lemma Starting<R(!new)>(goal: Outcome<R>, t0: seq<N.Action>)
    ensures Continues(goal, t0, goal, t0)
  {}

  lemma Finishing<R(!new)>(goal: Outcome<R>, t0: seq<N.Action>, rest: Outcome<R>, trace: seq<N.Action>)
    requires Continues(goal, t0, rest, trace)
    ensures goal.state == rest.state && goal.result == rest.result && t0 + goal.acts == trace + rest.acts
  {}

  // Operations done move from what is still to come to what has been.
  lemma Moved<R(!new)>(goal: Outcome<R>, t0: seq<N.Action>, a: seq<N.Action>, rest: Outcome<R>, trace: seq<N.Action>)
    requires Continues(goal, t0, After(a, rest), trace)
    ensures Continues(goal, t0, rest, trace + a)
  {
    assert trace + (a + rest.acts) == trace + a + rest.acts;
  }

  lemma Concat(t: seq<N.Action>, a: seq<N.Action>, b: seq<N.Action>)
    ensures t + a + b == t + (a + b)
  {}
}
