/** Invitations and the trust graph of src/admission.rs as values. */
module AdmissionModel {
  import opened Words
  import opened Wrappers

  // 32 public-key bytes, of an issuer or a subject.
  datatype Id = Id(raw: bytes)

  datatype Invitation = Invitation(issuer: Id, subject: Id, issuedAt: u64, expiresAt: u64, signature: bytes)

  datatype AdmissionError = BadSignature | NotYetValid | Expired | IssuerCapReached

  // Does the signature verify? Fixed, and otherwise unknown.
  type Genuine = Invitation -> bool

  const USIZE_MAX := U64_MOD - 1

  datatype Store = Store(roots: set<Id>, edges: map<Id, map<Id, Invitation>>, cap: nat)

  const NEW_STORE := Store({}, map[], USIZE_MAX)

  function Verify(invite: Invitation, now: nat, genuine: Genuine): Result<(), AdmissionError> {
    if now < invite.issuedAt then Err(NotYetValid)
    else if now >= invite.expiresAt then Err(Expired)
    else if !genuine(invite) then Err(BadSignature)
    else Ok(())
  }

  function SubjectsOf(st: Store, issuer: Id): map<Id, Invitation> {
    if issuer in st.edges then st.edges[issuer] else map[]
  }

  // `ingest`; a refusal by the cap still leaves the issuer's (possibly empty) entry behind.
  function Ingest(st: Store, invite: Invitation, now: nat, genuine: Genuine): (Store, Result<(), AdmissionError>) {
    var v := Verify(invite, now, genuine);
    if v.Err? then (st, v)
    else
      var subjects := SubjectsOf(st, invite.issuer);
      if invite.subject !in subjects && |subjects| >= st.cap then
        (st.(edges := st.edges[invite.issuer := subjects]), Err(IssuerCapReached))
      else
        (st.(edges := st.edges[invite.issuer := subjects[invite.subject := invite]]), Ok(()))
  }

  /* ---- the graph at one instant ---- */

  // a vouches for b by an invitation that verifies at `now`.
  predicate Edge(st: Store, a: Id, b: Id, now: nat, genuine: Genuine) {
    b in SubjectsOf(st, a) && Verify(SubjectsOf(st, a)[b], now, genuine).Ok?
  }

  // An invitation chain from a root.
  ghost predicate Chain(st: Store, path: seq<Id>, now: nat, genuine: Genuine) {
    && path != [] && path[0] in st.roots
    && forall i :: 0 <= i < |path| - 1 ==> Edge(st, path[i], path[i + 1], now, genuine)
  }

  // A chain of exactly d invitations leads to x.
  ghost predicate HasChain(st: Store, x: Id, d: nat, now: nat, genuine: Genuine) {
    exists path :: |path| == d + 1 && path[d] == x && Chain(st, path, now, genuine)
  }

  // d is the length of the shortest chain to x.
  ghost predicate IsDistance(st: Store, x: Id, d: nat, now: nat, genuine: Genuine) {
    HasChain(st, x, d, now, genuine) && forall e: nat :: e < d ==> !HasChain(st, x, e, now, genuine)
  }

  function ValidSubjects(st: Store, a: Id, now: nat, genuine: Genuine): set<Id> {
    set b | b in SubjectsOf(st, a) && Edge(st, a, b, now, genuine)
  }

  ghost function Succ(st: Store, s: set<Id>, now: nat, genuine: Genuine): set<Id> {
    set a, b | a in s && b in ValidSubjects(st, a, now, genuine) :: b
  }

  // Everyone a chain of at most d invitations leads to.
  ghost function Within(st: Store, d: nat, now: nat, genuine: Genuine): set<Id> {
    if d == 0 then st.roots else st.roots + Succ(st, Within(st, d - 1, now, genuine), now, genuine)
  }

  lemma SuccMonotone(st: Store, s: set<Id>, t: set<Id>, now: nat, genuine: Genuine)
    requires s <= t
    ensures Succ(st, s, now, genuine) <= Succ(st, t, now, genuine)
  {}

  lemma {:induction false} WithinMonotone(st: Store, d: nat, e: nat, now: nat, genuine: Genuine)
    requires d <= e
    ensures Within(st, d, now, genuine) <= Within(st, e, now, genuine)
    decreases e
  {
    hide Succ;
    if 0 < d {
      WithinMonotone(st, d - 1, e - 1, now, genuine);
      SuccMonotone(st, Within(st, d - 1, now, genuine), Within(st, e - 1, now, genuine), now, genuine);
    }
  }

  lemma {:induction false} ChainWithin(st: Store, path: seq<Id>, now: nat, genuine: Genuine)
    requires Chain(st, path, now, genuine)
    ensures path[|path| - 1] in Within(st, |path| - 1, now, genuine)
  {
    var d := |path| - 1;
    if d > 0 {
      ChainWithin(st, path[..d], now, genuine);
      assert path[..d][d - 1] == path[d - 1];
      assert Edge(st, path[d - 1], path[d - 1 + 1], now, genuine);
      assert path[d] in ValidSubjects(st, path[d - 1], now, genuine);
    }
  }

  // Whoever is in a level and no root has an issuer in the level before.
  lemma HasIssuer(st: Store, x: Id, d: nat, now: nat, genuine: Genuine) returns (a: Id)
    requires x in Within(st, d, now, genuine) && x !in st.roots
    ensures d > 0 && a in Within(st, d - 1, now, genuine) && Edge(st, a, x, now, genuine)
  {
    hide Edge;
    a :| a in Within(st, d - 1, now, genuine) && x in ValidSubjects(st, a, now, genuine);
  }

  lemma {:induction false} WithinChain(st: Store, x: Id, d: nat, now: nat, genuine: Genuine) returns (e: nat)
    requires x in Within(st, d, now, genuine)
    ensures e <= d && HasChain(st, x, e, now, genuine)
    decreases d
  {
    hide Edge, Within;
    if x in st.roots {
      e := 0;
      assert Chain(st, [x], now, genuine);
    } else {
      var a := HasIssuer(st, x, d, now, genuine);
      var e' := WithinChain(st, a, d - 1, now, genuine);
      e := e' + 1;
      HasChainExtends(st, a, x, e', now, genuine);
    }
  }

  lemma HasChainExtends(st: Store, a: Id, x: Id, d: nat, now: nat, genuine: Genuine)
    requires HasChain(st, a, d, now, genuine) && Edge(st, a, x, now, genuine)
    ensures HasChain(st, x, d + 1, now, genuine)
  {
    hide Edge, Chain;
    var path :| |path| == d + 1 && path[d] == a && Chain(st, path, now, genuine);
    ChainExtends(st, path, x, now, genuine);
    assert (path + [x])[d + 1] == x;
  }

  lemma ChainExtends(st: Store, path: seq<Id>, x: Id, now: nat, genuine: Genuine)
    requires Chain(st, path, now, genuine) && Edge(st, path[|path| - 1], x, now, genuine)
    ensures Chain(st, path + [x], now, genuine)
  {
    hide Edge;
    var q := path + [x];
    forall i | 0 <= i < |q| - 1 ensures Edge(st, q[i], q[i + 1], now, genuine) {
      if i < |path| - 1 { assert q[i] == path[i] && q[i + 1] == path[i + 1]; }
    }
  }

  // The levels are the chains.
  lemma WithinIffChain(st: Store, x: Id, d: nat, now: nat, genuine: Genuine)
    ensures x in Within(st, d, now, genuine) <==> exists e: nat :: e <= d && HasChain(st, x, e, now, genuine)
  {
    hide Chain, Within;
    if x in Within(st, d, now, genuine) {
      var e := WithinChain(st, x, d, now, genuine);
    }
    forall e: nat | e <= d && HasChain(st, x, e, now, genuine) ensures x in Within(st, d, now, genuine) {
      var path :| |path| == e + 1 && path[e] == x && Chain(st, path, now, genuine);
      ChainWithin(st, path, now, genuine);
      WithinMonotone(st, e, d, now, genuine);
    }
  }

  lemma DistanceByLevels(st: Store, x: Id, d: nat, now: nat, genuine: Genuine)
    requires x in Within(st, d, now, genuine)
    requires d > 0 ==> x !in Within(st, d - 1, now, genuine)
    ensures IsDistance(st, x, d, now, genuine)
  {
    hide HasChain, Within;
    WithinIffChain(st, x, d, now, genuine);
    if d > 0 { WithinIffChain(st, x, d - 1, now, genuine); }
  }

  lemma UnreachedByLevels(st: Store, x: Id, d: nat, now: nat, genuine: Genuine)
    requires x !in Within(st, d, now, genuine)
    ensures forall e: nat :: e <= d ==> !HasChain(st, x, e, now, genuine)
    ensures forall e: nat :: e <= d ==> !IsDistance(st, x, e, now, genuine)
  {
    hide HasChain, Within;
    WithinIffChain(st, x, d, now, genuine);
  }

  // Once a level adds nobody, no later one does.
  lemma {:induction false} Exhausted(st: Store, d: nat, e: nat, now: nat, genuine: Genuine)
    requires d <= e && Within(st, d + 1, now, genuine) == Within(st, d, now, genuine)
    ensures Within(st, e, now, genuine) == Within(st, d, now, genuine)
    decreases e
  {
    hide Succ;
    if d < e { Exhausted(st, d, e - 1, now, genuine); }
  }

  // The distance is one number.
  lemma OnlyDistance(st: Store, x: Id, d: nat, now: nat, genuine: Genuine)
    requires IsDistance(st, x, d, now, genuine)
    ensures forall e: nat :: IsDistance(st, x, e, now, genuine) ==> e == d
  {
    hide HasChain;
  }

  // Whoever is reached has a distance.
  lemma {:induction false} HasDistance(st: Store, x: Id, d: nat, now: nat, genuine: Genuine) returns (e: nat)
    requires x in Within(st, d, now, genuine)
    ensures e <= d && IsDistance(st, x, e, now, genuine)
    decreases d
  {
    hide IsDistance, Within;
    if d > 0 && x in Within(st, d - 1, now, genuine) {
      e := HasDistance(st, x, d - 1, now, genuine);
    } else {
      e := d;
      DistanceByLevels(st, x, d, now, genuine);
    }
  }

  /* ---- verification and ingest, case by case ---- */

  // The errors come in this order.
  lemma VerifyExactly(invite: Invitation, now: nat, genuine: Genuine)
    ensures Verify(invite, now, genuine) ==
            if now < invite.issuedAt then Err(NotYetValid)
            else if invite.expiresAt <= now then Err(Expired)
            else if genuine(invite) then Ok(()) else Err(BadSignature)
  {}

  // a's invitation of b is stored.
  predicate Stored(st: Store, a: Id, b: Id) {
    a in st.edges && b in st.edges[a]
  }

  function HeldBy(st: Store, a: Id): nat {
    if a in st.edges then |st.edges[a]| else 0
  }

  /**
   Ingest, exactly: an invitation within its time and genuine is taken if and only if its issuer already
   vouches for the subject or vouches for fewer than the cap; each refusal has its own cause, tested in this
   order. Taken, it is stored in place of any earlier one, and no other invitation changes; refused, none does.
  */
  lemma IngestExactly(st: Store, invite: Invitation, now: nat, genuine: Genuine)
    ensures var (st', r) := Ingest(st, invite, now, genuine);
            var a, b := invite.issuer, invite.subject;
            && (r == Err(NotYetValid) <==> now < invite.issuedAt)
            && (r == Err(Expired) <==> invite.issuedAt <= now && invite.expiresAt <= now)
            && (r == Err(BadSignature) <==> invite.issuedAt <= now < invite.expiresAt && !genuine(invite))
            && (r == Err(IssuerCapReached) <==> invite.issuedAt <= now < invite.expiresAt && genuine(invite)
                                                && !Stored(st, a, b) && HeldBy(st, a) >= st.cap)
            && (r == Ok(()) <==> invite.issuedAt <= now < invite.expiresAt && genuine(invite)
                                 && (Stored(st, a, b) || HeldBy(st, a) < st.cap))
            && st'.roots == st.roots && st'.cap == st.cap
            && (r.Ok? ==> Stored(st', a, b) && st'.edges[a][b] == invite)
            && (forall y, z :: (y, z) != (a, b) || r.Err? ==>
                  && (Stored(st', y, z) <==> Stored(st, y, z))
                  && (Stored(st, y, z) ==> st'.edges[y][z] == st.edges[y][z]))
  {
    VerifyExactly(invite, now, genuine);
    hide Verify;
  }
}
