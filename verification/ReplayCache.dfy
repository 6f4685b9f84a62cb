/** The replay filter object of src/network/replay.rs. */
module Replay {
  import opened Words
  import opened ReplayModel

  class ReplayCache {
    var seen: map<Key, nat>
    const ttl: nat
    const cap: nat
    // The first 16 bytes of the hash of a datagram.
    const hash: bytes -> Key

    // History: accepted keys; time of the last call; whether no call came earlier than the one before it
    // and none evicted while its two oldest entries were equally old.
    ghost var log: Log
    ghost var last: nat
    ghost var safe: bool

    ghost predicate Valid()
      reads this
    {
      && |seen| <= Max(cap, 1)
      && (safe ==> CacheInv(seen, log, last, ttl, cap))
    }

    constructor (ttl: nat, cap: nat, hash: bytes -> Key)
      ensures Valid() && seen == map[] && log == [] && last == 0 && safe
      ensures this.ttl == ttl && this.cap == cap && this.hash == hash
    {
      this.ttl, this.cap, this.hash := ttl, cap, hash;
      seen, log, last, safe := map[], [], 0, true;
    }

    method AcceptDatagram(inner: bytes, now: nat) returns (ok: bool)
      requires Valid()
      modifies this
      ensures Valid()
      ensures Accept(old(seen), seen, hash(inner), now, ttl, cap, ok)
      ensures log == if ok then old(log) + [Entry(hash(inner), now)] else old(log)
      ensures last == now
      ensures safe == (old(safe) && old(last) <= now && SafeCall(old(log), hash(inner), now, ttl, cap))
      ensures old(safe) && old(last) <= now ==> (!ok <==> Among(Window(old(log), now, ttl, cap), hash(inner)))
    {
      hide CacheInv, Window, Holds, SafeCall, Among;
      ghost var before, log0, last0 := seen, log, last;
      Expire(now);
      var key := hash(inner);
      ok := key !in seen;
      if ok {
        if |seen| >= cap {
          if |seen| > 0 {
            var oldest := OldestKey();
            seen := seen - {oldest};
          }
        }
        seen := seen[key := now];
        log := log + [Entry(key, now)];
      }
      last := now;
      assert Accept(before, seen, key, now, ttl, cap, ok);
      hide Accept, Live, Oldest;
      SizeBound(before, seen, key, now, ttl, cap, ok);
      if safe && last0 <= now {
        RefusesExactly(before, seen, log0, last0, key, now, ttl, cap, ok);
        if SafeCall(log0, key, now, ttl, cap) {
          SafeKeeps(before, seen, log0, last0, key, now, ttl, cap, ok);
        }
      }
      safe := safe && last0 <= now && SafeCall(log0, key, now, ttl, cap);
    }

    method Expire(now: nat)
      modifies `seen
      ensures seen == Live(old(seen), now, ttl)
    {
      seen := map k | k in seen && Elapsed(now, seen[k]) < ttl :: seen[k];
    }

    // iter().min_by_key(): any key of least time.
    method OldestKey() returns (k: Key)
      requires seen != map[]
      ensures Oldest(seen, k)
    {
      var rest := seen.Keys;
      k :| k in rest;
      rest := rest - {k};
      while rest != {}
        invariant k in seen && rest <= seen.Keys
        invariant forall j :: j in seen ==> j in rest || seen[k] <= seen[j]
        decreases |rest|
      {
        var j :| j in rest;
        if seen[j] < seen[k] {
          k := j;
        }
        rest := rest - {j};
      }
    }
  }

  // Occupancy never exceeds the capacity, whatever the clock does.
  lemma SizeBound(seen: map<Key, nat>, after: map<Key, nat>, key: Key, now: nat, ttl: nat, cap: nat, ok: bool)
    requires |seen| <= Max(cap, 1) && Accept(seen, after, key, now, ttl, cap, ok)
    ensures |after| <= Max(cap, 1)
  {
    var live := Live(seen, now, ttl);
    LiveSize(seen, now, ttl);
    hide Live, Oldest;
    if ok {
      if |live| < cap || live == map[] {
        UpdateSize(live, key, now);
      } else {
        var k :| Oldest(live, k) && after == (live - {k})[key := now];
        OldestPresent(live, k);
        DropSize(live, k);
        UpdateSize(live - {k}, key, now);
      }
    }
  }

  lemma OldestPresent(m: map<Key, nat>, k: Key)
    requires Oldest(m, k)
    ensures k in m
  {}

  lemma UpdateSize(m: map<Key, nat>, key: Key, now: nat)
    ensures |m[key := now]| <= |m| + 1
  {
    assert m[key := now].Keys == m.Keys + {key};
  }

  lemma DropSize(m: map<Key, nat>, k: Key)
    requires k in m
    ensures |m - {k}| == |m| - 1
  {
    assert m.Keys == (m - {k}).Keys + {k};
  }

  lemma LiveSize(seen: map<Key, nat>, now: nat, ttl: nat)
    ensures |Live(seen, now, ttl)| <= |seen|
  {
    var live := Live(seen, now, ttl);
    assert seen.Keys == live.Keys + (seen.Keys - live.Keys);
  }
}
