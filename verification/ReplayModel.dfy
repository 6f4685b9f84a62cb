/**
 The bounded replay filter of src/network/replay.rs as a relation on its map, and the log window it
 stands for.
*/
module ReplayModel {
  import opened Words

  // The first 16 bytes of a hash.
  datatype Key = Key(prefix: bytes)

  datatype Entry = Entry(key: Key, at: nat)

  type Log = seq<Entry>

  // `expire`
  function Live(seen: map<Key, nat>, now: nat, ttl: nat): map<Key, nat> {
    map k | k in seen && Elapsed(now, seen[k]) < ttl :: seen[k]
  }

  // An entry the eviction may pick: the oldest, any of them if several are equally old.
  ghost predicate Oldest(seen: map<Key, nat>, k: Key) {
    k in seen && forall j :: j in seen ==> seen[k] <= seen[j]
  }

  // One call of `accept`: what it may leave behind and answer.
  ghost predicate Accept(seen: map<Key, nat>, after: map<Key, nat>, key: Key, now: nat, ttl: nat, cap: nat, ok: bool) {
    var live := Live(seen, now, ttl);
    if key in live then !ok && after == live
    else if |live| < cap || live == map[] then ok && after == live[key := now]
    else ok && exists k :: Oldest(live, k) && after == (live - {k})[key := now]
  }

  // An entry stays for `ttl` after it was made, also if the clock is set back meanwhile.
  lemma LiveExactly(seen: map<Key, nat>, now: nat, ttl: nat, k: Key)
    ensures k in Live(seen, now, ttl) <==> k in seen && ttl > 0 && now < seen[k] + ttl
    ensures k in Live(seen, now, ttl) ==> Live(seen, now, ttl)[k] == seen[k]
  {}

  /* ---- the log of accepted keys, and the window of it that is remembered ---- */

  ghost predicate InOrder(log: Log) {
    forall i, j :: 0 <= i < j < |log| ==> log[i].at <= log[j].at
  }

  // Entries at the end of the log that have not expired at `now`.
  function Unexpired(log: Log, now: nat, ttl: nat): (n: nat)
    ensures n <= |log|
  {
    if log == [] || Elapsed(now, log[|log| - 1].at) >= ttl then 0
    else 1 + Unexpired(log[..|log| - 1], now, ttl)
  }

  function Max(a: nat, b: nat): nat {
    if a >= b then a else b
  }

  // The last n entries, as many as the capacity allows; a capacity of zero still holds one.
  function Last(log: Log, n: nat, cap: nat): (w: Log)
    requires n <= |log|
    ensures |w| <= Max(cap, 1)
  {
    log[|log| - if n <= Max(cap, 1) then n else Max(cap, 1)..]
  }

  // What a call at `now` compares its key with.
  function Window(log: Log, now: nat, ttl: nat, cap: nat): Log {
    Last(log, Unexpired(log, now, ttl), cap)
  }

  // What a call at t leaves remembered: with a lifetime of zero, the entry just made until the next call.
  function Remembered(log: Log, t: nat, ttl: nat, cap: nat): Log {
    Last(log, if ttl > 0 then Unexpired(log, t, ttl) else if log == [] then 0 else 1, cap)
  }

  predicate Among(w: Log, key: Key) {
    exists i :: 0 <= i < |w| && w[i].key == key
  }

  // The trailing unexpired entries are all of them.
  lemma {:induction false} UnexpiredExactly(log: Log, now: nat, ttl: nat, i: nat)
    requires InOrder(log) && i < |log|
    ensures Elapsed(now, log[i].at) < ttl <==> i >= |log| - Unexpired(log, now, ttl)
  {
    var last := |log| - 1;
    if i < last {
      if Elapsed(now, log[last].at) < ttl {
        assert InOrder(log[..last]);
        UnexpiredExactly(log[..last], now, ttl, i);
      } else {
        assert log[i].at <= log[last].at;
      }
    }
  }

  // seen holds exactly the entries of w, each key once.
  ghost predicate Holds(seen: map<Key, nat>, w: Log) {
    && (forall i :: 0 <= i < |w| ==> w[i].key in seen && seen[w[i].key] == w[i].at)
    && (forall i, j :: 0 <= i < j < |w| ==> w[i].key != w[j].key)
    && (forall k :: k in seen ==> exists i :: 0 <= i < |w| && w[i].key == k)
  }

  // The cache after a call at t, against the log.
  ghost predicate CacheInv(seen: map<Key, nat>, log: Log, t: nat, ttl: nat, cap: nat) {
    && InOrder(log)
    && (log != [] ==> log[|log| - 1].at <= t)
    && Holds(seen, Remembered(log, t, ttl, cap))
  }

  lemma {:induction false} HoldsSize(seen: map<Key, nat>, w: Log)
    requires Holds(seen, w)
    ensures |seen| == |w|
    decreases |w|
  {
    if w == [] {
      assert seen.Keys == {};
    } else {
      var k := w[0].key;
      assert k in seen;
      HoldsTail(seen, w);
      hide Holds;
      HoldsSize(seen - {k}, w[1..]);
      assert seen.Keys == (seen - {k}).Keys + {k};
    }
  }

  // Time passing only shortens the unexpired part.
  lemma {:induction false} UnexpiredShrinks(log: Log, t: nat, now: nat, ttl: nat)
    requires t <= now && (forall i :: 0 <= i < |log| ==> log[i].at <= t)
    ensures Unexpired(log, now, ttl) <= Unexpired(log, t, ttl)
  {
    if log != [] {
      UnexpiredShrinks(log[..|log| - 1], t, now, ttl);
    }
  }

  lemma AllBefore(log: Log, now: nat)
    requires InOrder(log) && (log != [] ==> log[|log| - 1].at <= now)
    ensures forall i :: 0 <= i < |log| ==> log[i].at <= now
  {}

  // A map that keeps exactly the entries from position d on.
  lemma HoldsSuffix(seen: map<Key, nat>, w: Log, live: map<Key, nat>, d: nat)
    requires Holds(seen, w) && d <= |w|
    requires forall k :: k in live ==> k in seen && live[k] == seen[k]
    requires forall i :: 0 <= i < |w| ==> (w[i].key in live <==> i >= d)
    ensures Holds(live, w[d..])
  {
    var w' := w[d..];
    forall k | k in live ensures exists i :: 0 <= i < |w'| && w'[i].key == k {
      var i :| 0 <= i < |w| && w[i].key == k;
      assert w'[i - d].key == k;
    }
    forall i | 0 <= i < |w'| ensures w'[i].key in live && live[w'[i].key] == w'[i].at {
      assert w'[i] == w[i + d];
    }
    forall i, j | 0 <= i < j < |w'| ensures w'[i].key != w'[j].key {
      assert w'[i] == w[i + d] && w'[j] == w[j + d];
    }
  }

  // Dropping the expired entries from the map is dropping them from the window.
  lemma LiveWindow(seen: map<Key, nat>, log: Log, t: nat, now: nat, ttl: nat, cap: nat)
    requires CacheInv(seen, log, t, ttl, cap) && t <= now
    ensures Holds(Live(seen, now, ttl), Window(log, now, ttl, cap))
  {
    AllBefore(log, t);
    UnexpiredShrinks(log, t, now, ttl);
    NoneUnexpired(log, now);
    var w, w' := Remembered(log, t, ttl, cap), Window(log, now, ttl, cap);
    var live, d := Live(seen, now, ttl), |w| - |w'|;
    assert w' == w[d..];
    assert Holds(seen, w);
    hide Unexpired, Holds, Elapsed;
    forall i | 0 <= i < |w| ensures w[i].key in live <==> i >= d {
      LiveEntry(seen, log, t, now, ttl, cap, i);
    }
    HoldsSuffix(seen, w, live, d);
  }

  // Nothing outlives a lifetime of zero.
  lemma NoneUnexpired(log: Log, now: nat)
    ensures Unexpired(log, now, 0) == 0
  {}

  lemma LiveEntry(seen: map<Key, nat>, log: Log, t: nat, now: nat, ttl: nat, cap: nat, i: nat)
    requires CacheInv(seen, log, t, ttl, cap) && t <= now
    requires i < |Remembered(log, t, ttl, cap)|
    ensures var w := Remembered(log, t, ttl, cap);
            w[i].key in Live(seen, now, ttl) <==> i >= |w| - |Window(log, now, ttl, cap)|
  {
    AllBefore(log, t);
    UnexpiredShrinks(log, t, now, ttl);
    NoneUnexpired(log, now);
    var w := Remembered(log, t, ttl, cap);
    var at := |log| - |w| + i;
    assert w[i] == log[at];
    UnexpiredExactly(log, now, ttl, at);
    hide Unexpired;
  }

  /* ---- one call ---- */

  // Nothing is evicted, or only one entry is remembered, or the oldest one is older than the next.
  predicate SafeCall(log: Log, key: Key, now: nat, ttl: nat, cap: nat) {
    var w := Window(log, now, ttl, cap);
    Among(w, key) || |w| < Max(cap, 1) || |w| == 1 || w[0].at < w[1].at
  }

  function Logged(log: Log, key: Key, now: nat, ttl: nat, cap: nat): Log {
    if Among(Window(log, now, ttl, cap), key) then log else log + [Entry(key, now)]
  }

  // A call refuses its key exactly when the key is in the window of the log.
  lemma RefusesExactly(seen: map<Key, nat>, after: map<Key, nat>, log: Log, t: nat, key: Key, now: nat, ttl: nat, cap: nat, ok: bool)
    requires CacheInv(seen, log, t, ttl, cap) && t <= now
    requires Accept(seen, after, key, now, ttl, cap, ok)
    ensures !ok <==> Among(Window(log, now, ttl, cap), key)
  {
    LiveWindow(seen, log, t, now, ttl, cap);
    var w := Window(log, now, ttl, cap);
    assert Holds(Live(seen, now, ttl), w);
    hide Window, Live, CacheInv;
  }

  lemma HoldsAppend(seen: map<Key, nat>, w: Log, e: Entry)
    requires Holds(seen, w) && e.key !in seen
    ensures Holds(seen[e.key := e.at], w + [e])
  {
    var w' := w + [e];
    forall k | k in seen || k == e.key ensures exists i :: 0 <= i < |w'| && w'[i].key == k {
      if k == e.key {
        assert w'[|w|].key == k;
      } else {
        var i :| 0 <= i < |w| && w[i].key == k;
        assert w'[i].key == k;
      }
    }
  }

  lemma HoldsTail(seen: map<Key, nat>, w: Log)
    requires Holds(seen, w) && w != []
    ensures Holds(seen - {w[0].key}, w[1..])
  {
    HoldsSuffix(seen, w, seen - {w[0].key}, 1);
  }

  // If it is the only entry, or older than the next, the entry evicted is the first of the window.
  lemma OldestIsFirst(live: map<Key, nat>, w: Log, k: Key)
    requires Holds(live, w) && w != [] && InOrder(w) && (|w| == 1 || w[0].at < w[1].at)
    requires Oldest(live, k)
    ensures k == w[0].key
  {
    assert forall i :: 1 < i < |w| ==> w[1].at <= w[i].at;
    hide InOrder;
    var i :| 0 <= i < |w| && w[i].key == k;
    assert w[0].key in live && live[k] <= live[w[0].key];
  }

  // If it is as old as the next, the next may be evicted instead, although it should be remembered.
  lemma NextMayGo(live: map<Key, nat>, w: Log, e: Entry)
    requires Holds(live, w) && |w| > 1 && InOrder(w) && w[0].at == w[1].at && e.key !in live
    ensures Oldest(live, w[1].key)
    ensures !Holds((live - {w[1].key})[e.key := e.at], w[1..] + [e])
  {
    assert forall i :: 1 < i < |w| ==> w[1].at <= w[i].at;
    hide InOrder;
    forall j | j in live ensures live[w[1].key] <= live[j] {
      var i :| 0 <= i < |w| && w[i].key == j;
      assert live[j] == w[i].at;
    }
    assert (w[1..] + [e])[0].key == w[1].key;
  }

  // What is remembered after one more entry: one more, or moved on by one once the capacity is reached.
  lemma RememberedNext(log: Log, e: Entry, ttl: nat, cap: nat)
    ensures var w := Window(log, e.at, ttl, cap);
            Remembered(log + [e], e.at, ttl, cap) == (if |w| < Max(cap, 1) then w else w[1..]) + [e]
  {
    assert (log + [e])[..|log|] == log;
    NoneUnexpired(log, e.at);
    if ttl > 0 { assert Unexpired(log + [e], e.at, ttl) == 1 + Unexpired(log, e.at, ttl); }
    hide Unexpired;
  }

  lemma CacheIs(seen: map<Key, nat>, log: Log, t: nat, ttl: nat, cap: nat)
    requires InOrder(log) && (log != [] ==> log[|log| - 1].at <= t) && Holds(seen, Remembered(log, t, ttl, cap))
    ensures CacheInv(seen, log, t, ttl, cap)
  {}

  lemma WindowInOrder(log: Log, now: nat, ttl: nat, cap: nat)
    requires InOrder(log)
    ensures InOrder(Window(log, now, ttl, cap))
  {
    hide Unexpired;
  }

  // What a call finds: the live entries are the window's.
  lemma WindowFacts(seen: map<Key, nat>, log: Log, t: nat, now: nat, ttl: nat, cap: nat)
    requires CacheInv(seen, log, t, ttl, cap) && t <= now
    ensures var w := Window(log, now, ttl, cap);
            Holds(Live(seen, now, ttl), w) && InOrder(w) && |w| <= Max(cap, 1)
    ensures InOrder(log) && (log != [] ==> log[|log| - 1].at <= now)
  {
    LiveWindow(seen, log, t, now, ttl, cap);
    WindowInOrder(log, now, ttl, cap);
    hide Holds, Live, Unexpired, Remembered;
  }

  lemma AmongLive(live: map<Key, nat>, w: Log, key: Key)
    requires Holds(live, w)
    ensures key in live <==> Among(w, key)
  {}

  lemma InOrderNext(log: Log, e: Entry)
    requires InOrder(log) && (log != [] ==> log[|log| - 1].at <= e.at)
    ensures InOrder(log + [e])
  {
    var l := log + [e];
    assert forall i :: 0 <= i < |log| ==> l[i] == log[i] && log[i].at <= log[|log| - 1].at;
  }

  // A newly accepted key is added to what the window holds.
  lemma Remembers(live: map<Key, nat>, after: map<Key, nat>, w: Log, e: Entry, cap: nat)
    requires Holds(live, w) && InOrder(w) && e.key !in live && |w| <= Max(cap, 1)
    requires |w| < Max(cap, 1) || |w| == 1 || w[0].at < w[1].at
    requires if |live| < cap || live == map[] then after == live[e.key := e.at]
             else exists k :: Oldest(live, k) && after == (live - {k})[e.key := e.at]
    ensures Holds(after, (if |w| < Max(cap, 1) then w else w[1..]) + [e])
  {
    HoldsSize(live, w);
    hide Holds, InOrder;
    if |live| < cap || live == map[] {
      HoldsAppend(live, w, e);
    } else {
      var k :| Oldest(live, k) && after == (live - {k})[e.key := e.at];
      OldestIsFirst(live, w, k);
      HoldsTail(live, w);
      HoldsAppend(live - {k}, w[1..], e);
    }
  }

  lemma RefusedKeeps(seen: map<Key, nat>, log: Log, t: nat, key: Key, now: nat, ttl: nat, cap: nat)
    requires CacheInv(seen, log, t, ttl, cap) && t <= now && Among(Window(log, now, ttl, cap), key)
    ensures CacheInv(Live(seen, now, ttl), log, now, ttl, cap)
  {
    LiveWindow(seen, log, t, now, ttl, cap);
    NoneUnexpired(log, now);
    assert ttl > 0 && Window(log, now, ttl, cap) == Remembered(log, now, ttl, cap);
    hide Live, Holds, Unexpired, InOrder;
  }

  lemma AcceptedKeeps(seen: map<Key, nat>, after: map<Key, nat>, log: Log, t: nat, key: Key, now: nat, ttl: nat, cap: nat)
    requires CacheInv(seen, log, t, ttl, cap) && t <= now && SafeCall(log, key, now, ttl, cap)
    requires !Among(Window(log, now, ttl, cap), key) && Accept(seen, after, key, now, ttl, cap, true)
    ensures CacheInv(after, log + [Entry(key, now)], now, ttl, cap)
  {
    WindowFacts(seen, log, t, now, ttl, cap);
    var live, w, e := Live(seen, now, ttl), Window(log, now, ttl, cap), Entry(key, now);
    hide CacheInv, Live, Holds, Oldest, InOrder, Window, Remembered, Among, Unexpired, Last;
    assert |w| < Max(cap, 1) || |w| == 1 || w[0].at < w[1].at;
    hide SafeCall;
    Remembers(live, after, w, e, cap);
    hide Accept;
    InOrderNext(log, e);
    RememberedNext(log, e, ttl, cap);
    CacheIs(after, log + [e], now, ttl, cap);
  }

  // A safe call keeps the cache a window of the log, whichever entry it evicts.
  lemma SafeKeeps(seen: map<Key, nat>, after: map<Key, nat>, log: Log, t: nat, key: Key, now: nat, ttl: nat, cap: nat, ok: bool)
    requires CacheInv(seen, log, t, ttl, cap) && t <= now && SafeCall(log, key, now, ttl, cap)
    requires Accept(seen, after, key, now, ttl, cap, ok)
    ensures CacheInv(after, Logged(log, key, now, ttl, cap), now, ttl, cap)
  {
    RefusesExactly(seen, after, log, t, key, now, ttl, cap, ok);
    hide CacheInv, SafeCall, Window, Live, Among;
    if ok {
      AcceptedKeeps(seen, after, log, t, key, now, ttl, cap);
    } else {
      RefusedKeeps(seen, log, t, key, now, ttl, cap);
    }
  }

  // An unsafe call has a choice of eviction that does not.
  lemma UnsafeBreaks(seen: map<Key, nat>, log: Log, t: nat, key: Key, now: nat, ttl: nat, cap: nat) returns (after: map<Key, nat>)
    requires CacheInv(seen, log, t, ttl, cap) && t <= now && !SafeCall(log, key, now, ttl, cap)
    ensures Accept(seen, after, key, now, ttl, cap, true)
    ensures !CacheInv(after, Logged(log, key, now, ttl, cap), now, ttl, cap)
  {
    WindowFacts(seen, log, t, now, ttl, cap);
    var live, w, e := Live(seen, now, ttl), Window(log, now, ttl, cap), Entry(key, now);
    hide CacheInv, Window, Live, Holds, InOrder, Among, Remembered, Oldest, Unexpired, Last, Accept;
    assert !Among(w, key) && |w| > 1 && |w| >= Max(cap, 1) && w[0].at >= w[1].at;
    assert Logged(log, key, now, ttl, cap) == log + [e];
    hide SafeCall, Logged;
    AmongLive(live, w, key);
    HoldsSize(live, w);
    FirstTwo(w);
    NextMayGo(live, w, e);
    after := (live - {w[1].key})[key := now];
    Evicting(seen, key, now, ttl, cap, w[1].key);
    RememberedNext(log, e, ttl, cap);
    CacheHolds(after, log + [e], now, ttl, cap);
  }

  lemma Evicting(seen: map<Key, nat>, key: Key, now: nat, ttl: nat, cap: nat, k: Key)
    requires var live := Live(seen, now, ttl); key !in live && |live| >= cap && |live| > 0 && Oldest(live, k)
    ensures Accept(seen, (Live(seen, now, ttl) - {k})[key := now], key, now, ttl, cap, true)
  {
    hide Live, Oldest;
  }

  lemma CacheHolds(seen: map<Key, nat>, log: Log, t: nat, ttl: nat, cap: nat)
    ensures CacheInv(seen, log, t, ttl, cap) ==> Holds(seen, Remembered(log, t, ttl, cap))
  {}

  lemma FirstTwo(w: Log)
    requires InOrder(w) && |w| > 1
    ensures w[0].at <= w[1].at
  {}

  /**
   One call, exactly: starting from a cache that is the window of its log, and with a clock that does not
   run backwards, the call keeps it so for every choice of eviction if and only if it evicts nothing,
   remembers only one entry, or finds its oldest entry strictly older than the next.
  */
  lemma KeepsExactly(seen: map<Key, nat>, log: Log, t: nat, key: Key, now: nat, ttl: nat, cap: nat)
    requires CacheInv(seen, log, t, ttl, cap) && t <= now
    ensures (forall after, ok :: Accept(seen, after, key, now, ttl, cap, ok)
                               ==> CacheInv(after, Logged(log, key, now, ttl, cap), now, ttl, cap))
            <==> SafeCall(log, key, now, ttl, cap)
  {
    hide Accept, CacheInv, SafeCall, Logged;
    if SafeCall(log, key, now, ttl, cap) {
      forall after, ok | Accept(seen, after, key, now, ttl, cap, ok)
        ensures CacheInv(after, Logged(log, key, now, ttl, cap), now, ttl, cap)
      {
        SafeKeeps(seen, after, log, t, key, now, ttl, cap, ok);
      }
    } else {
      var after := UnsafeBreaks(seen, log, t, key, now, ttl, cap);
    }
  }

  /* ---- runs ---- */

  datatype Call = Call(key: Key, now: nat)

  // The keys the calls should accept: each call compares with the window of the log before it.
  function LogOf(calls: seq<Call>, ttl: nat, cap: nat): Log {
    if calls == [] then []
    else
      var c := calls[|calls| - 1];
      Logged(LogOf(calls[..|calls| - 1], ttl, cap), c.key, c.now, ttl, cap)
  }

  function LastCall(calls: seq<Call>): nat {
    if calls == [] then 0 else calls[|calls| - 1].now
  }

  // The clock does not run backwards.
  ghost predicate Forward(calls: seq<Call>) {
    calls != [] ==> Forward(calls[..|calls| - 1]) && LastCall(calls[..|calls| - 1]) <= LastCall(calls)
  }

  ghost predicate SafeRun(calls: seq<Call>, ttl: nat, cap: nat) {
    calls != [] ==>
      var before, c := calls[..|calls| - 1], calls[|calls| - 1];
      SafeRun(before, ttl, cap) && SafeCall(LogOf(before, ttl, cap), c.key, c.now, ttl, cap)
  }

  // The calls can leave the cache like this, for some choices of eviction.
  ghost predicate CanLeave(calls: seq<Call>, seen: map<Key, nat>, ttl: nat, cap: nat) {
    if calls == [] then seen == map[]
    else
      var c := calls[|calls| - 1];
      exists before, ok :: CanLeave(calls[..|calls| - 1], before, ttl, cap) && Accept(before, seen, c.key, c.now, ttl, cap, ok)
  }

  // However the evictions fall, after each of the calls the cache is the window of the log.
  ghost predicate AlwaysWindow(calls: seq<Call>, ttl: nat, cap: nat) {
    && (forall seen :: CanLeave(calls, seen, ttl, cap) ==> CacheInv(seen, LogOf(calls, ttl, cap), LastCall(calls), ttl, cap))
    && (calls != [] ==> AlwaysWindow(calls[..|calls| - 1], ttl, cap))
  }

  // Some choice is always left.
  lemma HasOutcome(seen: map<Key, nat>, key: Key, now: nat, ttl: nat, cap: nat) returns (after: map<Key, nat>, ok: bool)
    ensures Accept(seen, after, key, now, ttl, cap, ok)
  {
    var live := Live(seen, now, ttl);
    if key in live {
      after, ok := live, false;
    } else if |live| < cap || live == map[] {
      after, ok := live[key := now], true;
    } else {
      var k := HasOldest(live);
      after, ok := (live - {k})[key := now], true;
    }
  }

  lemma {:induction false} HasOldest(m: map<Key, nat>) returns (k: Key)
    requires m != map[]
    ensures Oldest(m, k)
    decreases |m|
  {
    k :| k in m;
    var rest := m - {k};
    assert m.Keys == rest.Keys + {k};
    if rest != map[] {
      var j := HasOldest(rest);
      if m[j] < m[k] { k := j; }
    }
  }

  lemma {:induction false} CanRun(calls: seq<Call>, ttl: nat, cap: nat) returns (seen: map<Key, nat>)
    ensures CanLeave(calls, seen, ttl, cap)
  {
    hide Accept;
    if calls == [] {
      seen := map[];
    } else {
      var before := CanRun(calls[..|calls| - 1], ttl, cap);
      var ok;
      seen, ok := HasOutcome(before, calls[|calls| - 1].key, calls[|calls| - 1].now, ttl, cap);
    }
  }

  /**
   The filter refines the log, exactly: for any calls under a clock that does not run backwards, the cache
   is after each of them the window of the log of accepted keys, whichever of several oldest entries are
   evicted, if and only if no call evicts while its two oldest entries are equally old.
  */
  lemma {:induction false} RefinesExactly(calls: seq<Call>, ttl: nat, cap: nat)
    requires Forward(calls)
    ensures AlwaysWindow(calls, ttl, cap) <==> SafeRun(calls, ttl, cap)
  {
    hide Accept, CacheInv, SafeCall, Logged;
    if calls == [] {
      EmptyCache(ttl, cap);
    } else {
      RefinesExactly(calls[..|calls| - 1], ttl, cap);
      if AlwaysWindow(calls[..|calls| - 1], ttl, cap) {
        RefinesNext(calls, ttl, cap);
      }
    }
  }

  lemma EmptyCache(ttl: nat, cap: nat)
    ensures CacheInv(map[], [], 0, ttl, cap)
  {}

  lemma RefinesNext(calls: seq<Call>, ttl: nat, cap: nat)
    requires calls != [] && Forward(calls) && AlwaysWindow(calls[..|calls| - 1], ttl, cap)
    ensures var before, c := calls[..|calls| - 1], calls[|calls| - 1];
            AlwaysWindow(calls, ttl, cap) <==> SafeCall(LogOf(before, ttl, cap), c.key, c.now, ttl, cap)
  {
    hide Accept, CacheInv, SafeCall, Logged;
    var before, c := calls[..|calls| - 1], calls[|calls| - 1];
    var log, t := LogOf(before, ttl, cap), LastCall(before);
    if SafeCall(log, c.key, c.now, ttl, cap) {
      forall seen | CanLeave(calls, seen, ttl, cap)
        ensures CacheInv(seen, LogOf(calls, ttl, cap), LastCall(calls), ttl, cap)
      {
        var prior, ok :| CanLeave(before, prior, ttl, cap) && Accept(prior, seen, c.key, c.now, ttl, cap, ok);
        SafeKeeps(prior, seen, log, t, c.key, c.now, ttl, cap, ok);
      }
    } else {
      var prior := CanRun(before, ttl, cap);
      var after := UnsafeBreaks(prior, log, t, c.key, c.now, ttl, cap);
      assert CanLeave(calls, after, ttl, cap);
    }
  }

  // In such a run every answer is the window's.
  lemma AnswersExactly(calls: seq<Call>, c: Call, seen: map<Key, nat>, after: map<Key, nat>, ok: bool, ttl: nat, cap: nat)
    requires Forward(calls + [c]) && SafeRun(calls, ttl, cap) && CanLeave(calls, seen, ttl, cap)
    requires Accept(seen, after, c.key, c.now, ttl, cap, ok)
    ensures !ok <==> Among(Window(LogOf(calls, ttl, cap), c.now, ttl, cap), c.key)
  {
    hide Accept, CacheInv, SafeRun, Window;
    assert (calls + [c])[..|calls|] == calls;
    RefinesExactly(calls, ttl, cap);
    RefusesExactly(seen, after, LogOf(calls, ttl, cap), LastCall(calls), c.key, c.now, ttl, cap, ok);
  }

  // Calls at ever later times are safe.
  lemma {:induction false} TickingIsSafe(calls: seq<Call>, ttl: nat, cap: nat)
    requires forall i, j :: 0 <= i < j < |calls| ==> calls[i].now < calls[j].now
    ensures Forward(calls) && SafeRun(calls, ttl, cap)
    ensures Strict(LogOf(calls, ttl, cap))
    ensures calls == [] ==> LogOf(calls, ttl, cap) == []
    ensures LogOf(calls, ttl, cap) != [] ==> Latest(LogOf(calls, ttl, cap)) <= LastCall(calls)
  {
    if calls != [] {
      hide Logged, SafeCall, Strict;
      var before, c := calls[..|calls| - 1], calls[|calls| - 1];
      TickingIsSafe(before, ttl, cap);
      assert before != [] ==> LastCall(before) < c.now;
      StrictStep(LogOf(before, ttl, cap), c.key, c.now, ttl, cap);
    }
  }

  lemma StrictStep(log: Log, key: Key, now: nat, ttl: nat, cap: nat)
    requires Strict(log) && (log != [] ==> Latest(log) < now)
    ensures SafeCall(log, key, now, ttl, cap) && Strict(Logged(log, key, now, ttl, cap))
    ensures Logged(log, key, now, ttl, cap) != [] ==> Latest(Logged(log, key, now, ttl, cap)) <= now
  {
    StrictWindow(log, now, ttl, cap);
    StrictAppend(log, Entry(key, now));
    hide Strict, Among, Window;
  }

  lemma StrictWindow(log: Log, now: nat, ttl: nat, cap: nat)
    requires Strict(log)
    ensures var w := Window(log, now, ttl, cap); |w| > 1 ==> w[0].at < w[1].at
  {
    hide Unexpired;
    var w := Window(log, now, ttl, cap);
    if |w| > 1 {
      assert w[0] == log[|log| - |w|] && w[1] == log[|log| - |w| + 1];
    }
  }

  lemma StrictAppend(log: Log, e: Entry)
    requires Strict(log) && (log != [] ==> Latest(log) < e.at)
    ensures Strict(log + [e])
  {
    var l := log + [e];
    assert forall i :: 0 <= i < |log| ==> l[i] == log[i] && log[i].at <= log[|log| - 1].at;
  }

  ghost predicate Strict(log: Log) {
    forall i, j :: 0 <= i < j < |log| ==> log[i].at < log[j].at
  }

  function Latest(log: Log): nat
    requires log != []
  {
    log[|log| - 1].at
  }

  /**
   An accepted key stays refused until it expires or as many further keys as the capacity have been
   accepted: a call at `now` still compares with entry i of the log exactly in that case.
  */
  lemma RememberedExactly(log: Log, now: nat, ttl: nat, cap: nat, i: nat)
    requires InOrder(log) && i < |log| && log[|log| - 1].at <= now
    ensures i >= |log| - |Window(log, now, ttl, cap)|
            <==> now - log[i].at < ttl && |log| - 1 - i < Max(cap, 1)
    ensures i >= |log| - |Window(log, now, ttl, cap)|
            ==> Window(log, now, ttl, cap)[i - (|log| - |Window(log, now, ttl, cap)|)] == log[i]
  {
    UnexpiredExactly(log, now, ttl, i);
    AllBefore(log, now);
  }

  lemma TieIsUnsafe(k1: Key, k2: Key, k3: Key, t: nat, ttl: nat)
    requires k1 != k3 && k2 != k3 && ttl > 0
    ensures !SafeCall([Entry(k1, t), Entry(k2, t)], k3, t, ttl, 2)
  {
    var log := [Entry(k1, t), Entry(k2, t)];
    assert log[..1] == [Entry(k1, t)] && log[..1][..0] == [];
    assert Unexpired(log[..1], t, ttl) == 1 && Unexpired(log, t, ttl) == 2;
    hide Unexpired;
    assert Window(log, t, ttl, 2) == log;
  }

  lemma AcceptsFirst(k: Key, t: nat, ttl: nat)
    requires ttl > 0
    ensures Accept(map[], map[k := t], k, t, ttl, 2, true)
  {
    assert Live(map[], t, ttl) == map[];
  }

  lemma AcceptsSecond(k1: Key, k2: Key, t: nat, ttl: nat)
    requires k1 != k2 && ttl > 0
    ensures Accept(map[k1 := t], map[k1 := t, k2 := t], k2, t, ttl, 2, true)
  {
    assert Live(map[k1 := t], t, ttl) == map[k1 := t];
  }

  lemma EvictsSecond(k1: Key, k2: Key, k3: Key, t: nat, ttl: nat)
    requires k1 != k2 && k1 != k3 && k2 != k3 && ttl > 0
    ensures Accept(map[k1 := t, k2 := t], map[k1 := t, k3 := t], k3, t, ttl, 2, true)
  {
    var b, c := map[k1 := t, k2 := t], map[k1 := t, k3 := t];
    assert Live(b, t, ttl) == b && b.Keys == {k1, k2};
    hide Live;
    assert Oldest(b, k2) && c == (b - {k2})[k3 := t];
  }

  // An unsafe run: of two keys accepted at the same instant the later one may be the one evicted,
  // although fewer further keys than the capacity were accepted.
  lemma TiesMayForgetEarly(k1: Key, k2: Key, k3: Key, t: nat, ttl: nat)
    requires k1 != k2 && k1 != k3 && k2 != k3 && ttl > 0
    ensures var a, b, c := map[k1 := t], map[k1 := t, k2 := t], map[k1 := t, k3 := t];
            && Accept(map[], a, k1, t, ttl, 2, true)
            && Accept(a, b, k2, t, ttl, 2, true)
            && Accept(b, c, k3, t, ttl, 2, true)
            && k2 !in c
    ensures !SafeCall([Entry(k1, t), Entry(k2, t)], k3, t, ttl, 2)
  {
    hide Accept, SafeCall;
    AcceptsFirst(k1, t, ttl);
    AcceptsSecond(k1, k2, t, ttl);
    EvictsSecond(k1, k2, k3, t, ttl);
    TieIsUnsafe(k1, k2, k3, t, ttl);
  }
}
