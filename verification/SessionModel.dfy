/**
 What one endpoint does on its own: its operations one by one, the session's calls made of them, and
 why an application that waits for each send enqueues only when nothing is unacknowledged.
*/
module SessionModel {
  import opened Words
  import opened Wrappers
  import opened Ordered
  import opened Window
  import opened ArqModel
  import opened Ledger
  import opened Network

  // sent: messages enqueued; received: messages taken by the application; wire: frames emitted.
  datatype Local = Local(tx: Sender, rx: Receiver, sent: Messages, received: seq<bytes>, wire: seq<bytes>)

  const NEW_LOCAL := Local(NEW_SENDER, NEW_RECEIVER, [], [], [])

  function Do(s: Local, action: Action): Local {
    match action
    case Enqueue(m) =>
      var (tx', r) := ArqModel.Enqueue(s.tx, m);
      s.(tx := tx', sent := if r.Ok? then s.sent + [m] else s.sent)
    case NewSends(now) =>
      var (tx', out) := TakeNewSends(s.tx, now);
      s.(tx := tx', wire := s.wire + out)
    case Retransmits(now) =>
      var (tx', r) := TakeRetransmits(s.tx, now);
      s.(tx := tx', wire := if r.Ok? then s.wire + r.value else s.wire)
    case SetRetx(d) => s.(tx := s.tx.(retx := d))
    case Ingest(f) =>
      var (tx', rx', r) := ArqModel.Ingest(s.tx, s.rx, f);
      s.(tx := tx', rx := rx', wire := if r.Ok? && r.value.Some? then s.wire + [r.value.value] else s.wire)
    case Pop =>
      if s.rx.delivered == [] then s
      else s.(received := s.received + [s.rx.delivered[0]], rx := s.rx.(delivered := s.rx.delivered[1..]))
  }

  function Replay(trace: seq<Action>): Local {
    if trace == [] then NEW_LOCAL else Do(Replay(trace[..|trace| - 1]), trace[|trace| - 1])
  }

  // Every message was enqueued when nothing was unacknowledged.
  ghost predicate Polite(trace: seq<Action>) {
    trace != [] ==>
      var before := trace[..|trace| - 1];
      && Polite(before)
      && (Replay(trace).sent != Replay(before).sent ==> Replay(before).tx.unacked == map[])
  }

  lemma ReplayNext(trace: seq<Action>, action: Action)
    ensures Replay(trace + [action]) == Do(Replay(trace), action)
    ensures Polite(trace) && (action.Enqueue? ==> Replay(trace).tx.unacked == map[]) ==> Polite(trace + [action])
  {
    assert (trace + [action])[..|trace|] == trace;
  }

  /* ---- the session's waiting loops, turn by turn ---- */

  datatype SessionError = Timeout | GaveUp(giveUp: GiveUp) | BadArq(error: ArqError)

  // What one turn of a waiting loop meets: its clock readings, and the frame that arrived, if any.
  datatype Turn = Turn(flushAt: nat, checkAt: nat, frame: Option<bytes>)

  // The state something leaves behind, the operations it took, and its result.
  datatype Outcome<R> = Outcome(state: Local, acts: seq<Action>, result: R)

  type Status = Result<(), SessionError>

  // Sooner or later the clock is read at or after the deadline.
  predicate Reaches(turns: seq<Turn>, deadline: nat) {
    exists i :: 0 <= i < |turns| && turns[i].checkAt >= deadline
  }

  function Flushed(s: Local, now: nat): Outcome<Status> {
    var s' := Do(s, NewSends(now));
    var r := TakeRetransmits(s'.tx, now).1;
    Outcome(Do(s', Retransmits(now)), [NewSends(now), Retransmits(now)],
            if r.Err? then Err(GaveUp(r.error)) else Ok(()))
  }

  function Arrived(s: Local, frame: Option<bytes>): Outcome<Status> {
    if frame.None? then Outcome(s, [], Ok(()))
    else
      var r := ArqModel.Ingest(s.tx, s.rx, frame.value).2;
      Outcome(Do(s, Action.Ingest(frame.value)), [Action.Ingest(frame.value)],
              if r.Err? then Err(BadArq(r.error)) else Ok(()))
  }

  // The operations `first` come before those of o.
  function After<R>(first: seq<Action>, o: Outcome<R>): Outcome<R> {
    o.(acts := first + o.acts)
  }

  // `wait_acked`
  function Wait(s: Local, turns: seq<Turn>, deadline: nat): Outcome<Status>
    requires Reaches(turns, deadline)
    decreases |turns|
  {
    var f := Flushed(s, turns[0].flushAt);
    if f.result.Err? then f
    else if |f.state.tx.unacked| == 0 then f.(result := Ok(()))
    else if turns[0].checkAt >= deadline then f.(result := Err(Timeout))
    else
      var a := After(f.acts, Arrived(f.state, turns[0].frame));
      if a.result.Err? then a
      else
        ReachesNext(turns, deadline);
        After(a.acts, Wait(a.state, turns[1..], deadline))
  }

  // `send_timeout`
  function Send(s: Local, m: bytes, turns: seq<Turn>, deadline: nat): Outcome<Status>
    requires Reaches(turns, deadline)
  {
    var r := ArqModel.Enqueue(s.tx, m).1;
    if r.Err? then Outcome(s, [], Err(BadArq(r.error)))
    else After([Action.Enqueue(m)], Wait(Do(s, Action.Enqueue(m)), turns, deadline))
  }

  // `recv`
  function Receive(s: Local, turns: seq<Turn>, deadline: nat): Outcome<Result<bytes, SessionError>>
    requires Reaches(turns, deadline)
    decreases |turns|
  {
    if s.rx.delivered != [] then Outcome(Do(s, Pop), [Pop], Ok(s.rx.delivered[0]))
    else
      var f := Flushed(s, turns[0].flushAt);
      if f.result.Err? then Outcome(f.state, f.acts, Err(f.result.error))
      else if turns[0].checkAt >= deadline then Outcome(f.state, f.acts, Err(Timeout))
      else
        var a := After(f.acts, Arrived(f.state, turns[0].frame));
        if a.result.Err? then Outcome(a.state, a.acts, Err(a.result.error))
        else
          ReachesNext(turns, deadline);
          After(a.acts, Receive(a.state, turns[1..], deadline))
  }

  lemma ReachesNext(turns: seq<Turn>, deadline: nat)
    requires Reaches(turns, deadline) && turns[0].checkAt < deadline
    ensures Reaches(turns[1..], deadline)
  {
    var i :| 0 <= i < |turns| && turns[i].checkAt >= deadline;
    assert turns[1..][i - 1] == turns[i];
  }

  /* ---- what the results say ---- */

  // The frame a give-up names is still queued, with its attempts used up.
  ghost predicate UsedUp(tx: Sender, g: GiveUp) {
    g.seqno in tx.unacked && g.attempts == tx.unacked[g.seqno].attempts >= tx.maxAttempts
  }

  lemma FlushedKeeps(s: Local, now: nat)
    ensures var Outcome(s', _, r) := Flushed(s, now);
            && s'.sent == s.sent && s'.received == s.received && s'.rx == s.rx
            && s'.tx.unacked.Keys == s.tx.unacked.Keys
            && (r.Err? ==> r.error.GaveUp? && UsedUp(s'.tx, r.error.giveUp))
  {
    hide Plaintexts, NewSendKeys, Sorted, Due;
    var s1 := Do(s, NewSends(now));
    assert s1.tx.unacked.Keys == s.tx.unacked.Keys;
    assert Do(s1, Retransmits(now)).tx.unacked.Keys == s1.tx.unacked.Keys;
    if TakeRetransmits(s1.tx, now).1.Err? {
      var stuck := StuckKeys(s1.tx, now);
      assert Sorted(stuck)[0] in stuck;
    }
  }

  lemma ArrivedKeeps(s: Local, frame: Option<bytes>)
    ensures var Outcome(s', _, r) := Arrived(s, frame);
            && s'.sent == s.sent && s'.received == s.received
            && (s.tx.unacked == map[] ==> s'.tx.unacked == map[])
            && (r.Err? ==> r.error.BadArq? && r.error.error.BadFrame?)
  {
    hide OnData, Acked;
  }

  /**
   What the result of a wait says: success exactly when a flush left nothing unacknowledged, a timeout
   only with frames still unacknowledged, a give-up only over a queued frame whose attempts are used up;
   the messages sent and received are untouched.
  */
  lemma {:induction false} WaitOutcome(s: Local, turns: seq<Turn>, deadline: nat)
    requires Reaches(turns, deadline)
    ensures var Outcome(s', _, r) := Wait(s, turns, deadline);
            && s'.sent == s.sent && s'.received == s.received
            && match r
               case Ok(_) => s'.tx.unacked == map[]
               case Err(Timeout) => s'.tx.unacked != map[]
               case Err(GaveUp(g)) => UsedUp(s'.tx, g)
               case Err(BadArq(e)) => e.BadFrame?
    decreases |turns|
  {
    hide Flushed, Arrived, UsedUp;
    FlushedKeeps(s, turns[0].flushAt);
    var f := Flushed(s, turns[0].flushAt);
    if f.result.Ok? && |f.state.tx.unacked| != 0 && turns[0].checkAt < deadline {
      ArrivedKeeps(f.state, turns[0].frame);
      var a := Arrived(f.state, turns[0].frame);
      if a.result.Ok? {
        ReachesNext(turns, deadline);
        WaitOutcome(a.state, turns[1..], deadline);
      }
    }
  }

  lemma Memberless(q: seq<int>)
    requires forall k :: k !in q
    ensures q == []
  {
    var first := if |q| > 0 then q[0] else 0;
    assert |q| > 0 ==> first in q;
  }

  lemma FlushedIdle(s: Local, now: nat)
    requires s.tx.unacked == map[]
    ensures Flushed(s, now).state == s && Flushed(s, now).result == Ok(())
  {
    hide Sorted, NewSendKeys;
    var q := NewSendKeys(s.tx.unacked);
    Memberless(q);
    assert TakeNewSends(s.tx, now) == (s.tx, []);
    assert DueKeys(s.tx, now) == {} && StuckKeys(s.tx, now) == {};
    Memberless(Select(Sorted(s.tx.unacked.Keys), DueKeys(s.tx, now)));
    assert TakeRetransmits(s.tx, now) == (s.tx, Ok([]));
    assert s.wire + [] == s.wire;
    hide TakeNewSends, TakeRetransmits;
    assert Do(s, NewSends(now)) == s && Do(s, Retransmits(now)) == s;
  }

  // A sender with nothing unacknowledged succeeds at once and puts nothing on the wire.
  lemma WaitIdle(s: Local, turns: seq<Turn>, deadline: nat)
    requires Reaches(turns, deadline) && s.tx.unacked == map[]
    ensures Wait(s, turns, deadline).state == s && Wait(s, turns, deadline).result == Ok(())
  {
    hide Flushed, Arrived;
    FlushedIdle(s, turns[0].flushAt);
  }

  /**
   What the result of a receive says: a success hands over the oldest delivered message, at once if one
   is waiting; a timeout comes only with none waiting; messages sent are untouched, and a sender with
   nothing unacknowledged still has nothing unacknowledged.
  */
  lemma {:induction false} ReceiveOutcome(s: Local, turns: seq<Turn>, deadline: nat)
    requires Reaches(turns, deadline)
    ensures s.rx.delivered != [] ==> Receive(s, turns, deadline).result == Ok(s.rx.delivered[0])
    ensures var Outcome(s', _, r) := Receive(s, turns, deadline);
            && s'.sent == s.sent
            && (s.tx.unacked == map[] ==> s'.tx.unacked == map[])
            && match r
               case Ok(m) => s'.received == s.received + [m]
               case Err(Timeout) => s'.received == s.received && s'.rx.delivered == []
               case Err(GaveUp(g)) => s'.received == s.received && UsedUp(s'.tx, g)
               case Err(BadArq(e)) => s'.received == s.received && e.BadFrame?
    decreases |turns|
  {
    hide Flushed, Arrived, UsedUp;
    FlushedKeeps(s, turns[0].flushAt);
    var f := Flushed(s, turns[0].flushAt);
    SameKeysEmpty(s.tx.unacked, f.state.tx.unacked);
    if s.rx.delivered == [] && f.result.Ok? && turns[0].checkAt < deadline {
      ArrivedKeeps(f.state, turns[0].frame);
      var a := Arrived(f.state, turns[0].frame);
      if a.result.Ok? {
        ReachesNext(turns, deadline);
        ReceiveOutcome(a.state, turns[1..], deadline);
      }
    }
  }

  lemma SameKeysEmpty(u: map<u32, Outgoing>, u': map<u32, Outgoing>)
    requires u.Keys == u'.Keys
    ensures u == map[] <==> u' == map[]
  {
    assert u == map[] <==> u.Keys == {};
    assert u' == map[] <==> u'.Keys == {};
  }

  /* ---- the operations a call takes ---- */

  // Only flushing and ingesting.
  ghost predicate Pumps(acts: seq<Action>) {
    forall i :: 0 <= i < |acts| ==> !acts[i].Enqueue? && !acts[i].Pop?
  }

  // The operations acts lead from where trace does to s, and keep it polite.
  ghost predicate Leads(trace: seq<Action>, acts: seq<Action>, s: Local) {
    Replay(trace + acts) == s && (Polite(trace) ==> Polite(trace + acts))
  }

  lemma LeadsOn(trace: seq<Action>, a: seq<Action>, b: seq<Action>, s: Local, s': Local)
    requires Leads(trace, a, s) && Leads(trace + a, b, s')
    ensures Leads(trace, a + b, s')
  {
    assert trace + (a + b) == trace + a + b;
  }

  lemma FlushedLeads(trace: seq<Action>, now: nat)
    ensures var f := Flushed(Replay(trace), now); Leads(trace, f.acts, f.state) && Pumps(f.acts)
  {
    hide Do, Polite, Replay, TakeRetransmits;
    ReplayNext(trace, NewSends(now));
    ReplayNext(trace + [NewSends(now)], Retransmits(now));
    assert trace + [NewSends(now), Retransmits(now)] == trace + [NewSends(now)] + [Retransmits(now)];
  }

  lemma ArrivedLeads(trace: seq<Action>, frame: Option<bytes>)
    ensures var a := Arrived(Replay(trace), frame); Leads(trace, a.acts, a.state) && Pumps(a.acts)
  {
    hide Do, Polite, Replay;
    if frame.None? {
      assert trace + [] == trace;
    } else {
      ReplayNext(trace, Action.Ingest(frame.value));
    }
  }

  lemma {:induction false} WaitLeads(trace: seq<Action>, turns: seq<Turn>, deadline: nat)
    requires Reaches(turns, deadline)
    ensures var w := Wait(Replay(trace), turns, deadline); Leads(trace, w.acts, w.state) && Pumps(w.acts)
    decreases |turns|
  {
    hide Flushed, Arrived, Replay, Leads;
    FlushedLeads(trace, turns[0].flushAt);
    var f := Flushed(Replay(trace), turns[0].flushAt);
    if f.result.Ok? && |f.state.tx.unacked| != 0 && turns[0].checkAt < deadline {
      LeadsTo(trace, f.acts, f.state);
      ArrivedLeads(trace + f.acts, turns[0].frame);
      var a := Arrived(f.state, turns[0].frame);
      LeadsOn(trace, f.acts, a.acts, f.state, a.state);
      if a.result.Ok? {
        ReachesNext(turns, deadline);
        LeadsTo(trace, f.acts + a.acts, a.state);
        WaitLeads(trace + (f.acts + a.acts), turns[1..], deadline);
        var w := Wait(a.state, turns[1..], deadline);
        LeadsOn(trace, f.acts + a.acts, w.acts, a.state, w.state);
      }
    }
  }

  lemma LeadsTo(trace: seq<Action>, acts: seq<Action>, s: Local)
    requires Leads(trace, acts, s)
    ensures Replay(trace + acts) == s
  {}

  lemma {:induction false} ReceiveLeads(trace: seq<Action>, turns: seq<Turn>, deadline: nat)
    requires Reaches(turns, deadline)
    ensures var r := Receive(Replay(trace), turns, deadline); Leads(trace, r.acts, r.state)
    decreases |turns|
  {
    hide Flushed, Arrived, Replay, Leads, Do;
    var s := Replay(trace);
    if s.rx.delivered != [] {
      PopLeads(trace);
    } else {
      FlushedLeads(trace, turns[0].flushAt);
      var f := Flushed(s, turns[0].flushAt);
      if f.result.Ok? && turns[0].checkAt < deadline {
        LeadsTo(trace, f.acts, f.state);
        ArrivedLeads(trace + f.acts, turns[0].frame);
        var a := Arrived(f.state, turns[0].frame);
        LeadsOn(trace, f.acts, a.acts, f.state, a.state);
        if a.result.Ok? {
          ReachesNext(turns, deadline);
          LeadsTo(trace, f.acts + a.acts, a.state);
          ReceiveLeads(trace + (f.acts + a.acts), turns[1..], deadline);
          var w := Receive(a.state, turns[1..], deadline);
          LeadsOn(trace, f.acts + a.acts, w.acts, a.state, w.state);
        }
      }
    }
  }

  lemma PopLeads(trace: seq<Action>)
    ensures Leads(trace, [Pop], Do(Replay(trace), Pop))
  {
    hide Do, Polite, Replay;
    ReplayNext(trace, Pop);
  }

  /* ---- histories of calls ---- */

  datatype Call =
    | SendCall(m: bytes, turns: seq<Turn>, deadline: nat)
    | RecvCall(turns: seq<Turn>, deadline: nat)
    | SetRetxCall(d: nat)

  datatype Answer = SendDone(status: Status) | RecvDone(message: Result<bytes, SessionError>) | RetxDone

  predicate Timely(call: Call) {
    !call.SetRetxCall? ==> Reaches(call.turns, call.deadline)
  }

  predicate AllTimely(calls: seq<Call>) {
    forall i :: 0 <= i < |calls| ==> Timely(calls[i])
  }

  function Perform(s: Local, call: Call): Outcome<Answer>
    requires Timely(call)
  {
    match call
    case SendCall(m, turns, deadline) =>
      var o := Send(s, m, turns, deadline);
      Outcome(o.state, o.acts, SendDone(o.result))
    case RecvCall(turns, deadline) =>
      var o := Receive(s, turns, deadline);
      Outcome(o.state, o.acts, RecvDone(o.result))
    case SetRetxCall(d) => Outcome(Do(s, SetRetx(d)), [SetRetx(d)], RetxDone)
  }

  // One call after another, from a new session; the result is the list of answers.
  function History(calls: seq<Call>): Outcome<seq<Answer>>
    requires AllTimely(calls)
  {
    if calls == [] then Outcome(NEW_LOCAL, [], [])
    else
      var h := History(calls[..|calls| - 1]);
      var o := Perform(h.state, calls[|calls| - 1]);
      Outcome(o.state, h.acts + o.acts, h.result + [o.result])
  }

  // Not a send, or one that succeeded, or was refused as too large.
  predicate Settled(a: Answer) {
    a.SendDone? ==> a.status.Ok? || a.status == Err(BadArq(TooLarge))
  }

  // A send is called only when every send before it has settled.
  predicate Patiently(answers: seq<Answer>) {
    forall i, j :: 0 <= i < j < |answers| && answers[j].SendDone? ==> Settled(answers[i])
  }

  predicate AllSettled(answers: seq<Answer>) {
    forall i :: 0 <= i < |answers| ==> Settled(answers[i])
  }

  // A call's operations, and when they stay polite.
  lemma PerformLeads(trace: seq<Action>, call: Call)
    requires Timely(call)
    ensures var o := Perform(Replay(trace), call);
            && Replay(trace + o.acts) == o.state
            && (Polite(trace) && (call.SendCall? ==> Replay(trace).tx.unacked == map[]) ==> Polite(trace + o.acts))
  {
    hide Replay, Polite, Do, ArqModel.Enqueue, Wait, Receive;
    match call
    case SendCall(m, turns, deadline) =>
      var r := ArqModel.Enqueue(Replay(trace).tx, m).1;
      if r.Err? {
        assert trace + [] == trace;
      } else {
        var e := Action.Enqueue(m);
        ReplayNext(trace, e);
        WaitLeads(trace + [e], turns, deadline);
        var w := Wait(Do(Replay(trace), e), turns, deadline);
        assert trace + ([e] + w.acts) == trace + [e] + w.acts;
      }
    case RecvCall(turns, deadline) =>
      ReceiveLeads(trace, turns, deadline);
    case SetRetxCall(d) =>
      ReplayNext(trace, SetRetx(d));
  }

  // A settled call leaves a sender with nothing unacknowledged as it was in that respect.
  lemma PerformSettles(s: Local, call: Call)
    requires Timely(call) && s.tx.unacked == map[]
    ensures var o := Perform(s, call); Settled(o.result) ==> o.state.tx.unacked == map[]
  {
    hide Wait, Receive;
    match call
    case SendCall(m, turns, deadline) =>
      if ArqModel.Enqueue(s.tx, m).1.Ok? {
        WaitOutcome(Do(s, Action.Enqueue(m)), turns, deadline);
      }
    case RecvCall(turns, deadline) =>
      ReceiveOutcome(s, turns, deadline);
    case SetRetxCall(d) =>
  }

  lemma HistoryNext(calls: seq<Call>, call: Call)
    requires AllTimely(calls) && Timely(call)
    ensures AllTimely(calls + [call])
    ensures var h, o := History(calls), Perform(History(calls).state, call);
            History(calls + [call]) == Outcome(o.state, h.acts + o.acts, h.result + [o.result])
  {
    assert (calls + [call])[..|calls|] == calls;
  }

  /**
   An application that calls send again only after every earlier send has returned success, or was refused
   as too large, enqueues only when nothing is unacknowledged; receives in between change nothing about that.
  */
  lemma {:induction false} PatientIsPolite(calls: seq<Call>)
    requires AllTimely(calls)
    ensures var h := History(calls);
            && Replay(h.acts) == h.state && |h.result| == |calls|
            && (Patiently(h.result) ==> Polite(h.acts))
            && (Patiently(h.result) && AllSettled(h.result) ==> h.state.tx.unacked == map[])
  {
    hide Perform, Replay, Polite, Settled;
    if calls == [] {
      NothingDone();
    } else {
      var before, call := calls[..|calls| - 1], calls[|calls| - 1];
      PatientIsPolite(before);
      var h, h' := History(before), History(calls);
      PerformLeads(h.acts, call);
      var o := Perform(h.state, call);
      SendAnswers(h.state, call);
      assert h'.result == h.result + [o.result];
      if Patiently(h'.result) {
        PatientPrefix(h.result, o.result);
        if AllSettled(h.result) { PerformSettles(h.state, call); }
      }
    }
  }

  lemma NothingDone()
    ensures Replay([]) == NEW_LOCAL && Polite([])
  {}

  lemma SendAnswers(s: Local, call: Call)
    requires Timely(call)
    ensures Perform(s, call).result.SendDone? <==> call.SendCall?
  {}

  lemma PatientPrefix(answers: seq<Answer>, last: Answer)
    requires Patiently(answers + [last])
    ensures Patiently(answers)
    ensures last.SendDone? ==> AllSettled(answers)
    ensures AllSettled(answers + [last]) ==> AllSettled(answers) && Settled(last)
  {
    hide Settled;
    var all := answers + [last];
    assert all[|answers|] == last && forall i :: 0 <= i < |answers| ==> all[i] == answers[i];
  }

  // The messages the sends took on.
  function Given(calls: seq<Call>, answers: seq<Answer>): seq<bytes>
    requires |calls| == |answers|
  {
    if calls == [] then []
    else
      var n := |calls| - 1;
      var before := Given(calls[..n], answers[..n]);
      if calls[n].SendCall? && answers[n] != SendDone(Err(BadArq(TooLarge))) then before + [calls[n].m] else before
  }

  // The messages the receives returned.
  function Taken(answers: seq<Answer>): seq<bytes> {
    if answers == [] then []
    else
      var n := |answers| - 1;
      var before := Taken(answers[..n]);
      if answers[n].RecvDone? && answers[n].message.Ok? then before + [answers[n].message.value] else before
  }

  lemma PerformMessages(s: Local, call: Call)
    requires Timely(call)
    ensures var o := Perform(s, call);
            && o.state.sent == (if call.SendCall? && o.result != SendDone(Err(BadArq(TooLarge))) then s.sent + [call.m] else s.sent)
            && o.state.received == (if o.result.RecvDone? && o.result.message.Ok? then s.received + [o.result.message.value] else s.received)
  {
    hide Wait, Receive;
    match call
    case SendCall(m, turns, deadline) =>
      if ArqModel.Enqueue(s.tx, m).1.Ok? {
        WaitOutcome(Do(s, Action.Enqueue(m)), turns, deadline);
      }
    case RecvCall(turns, deadline) =>
      ReceiveOutcome(s, turns, deadline);
    case SetRetxCall(d) =>
  }

  // The state's lists of messages are those of the calls.
  lemma {:induction false} HistoryMessages(calls: seq<Call>)
    requires AllTimely(calls)
    ensures var h := History(calls);
            && |h.result| == |calls| && h.state.sent == Given(calls, h.result) && h.state.received == Taken(h.result)
  {
    hide Perform;
    if calls != [] {
      var before, call := calls[..|calls| - 1], calls[|calls| - 1];
      HistoryMessages(before);
      var h, h' := History(before), History(calls);
      PerformMessages(h.state, call);
      assert h'.result[..|calls| - 1] == h.result;
    }
  }
}
