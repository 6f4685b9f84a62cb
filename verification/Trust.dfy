/** What runs of a trust store guarantee: the counting bound, decay with time and growth at ingest. */
module Trust {
  import opened Ordered
  import opened AdmissionModel

  datatype Op = AddRoot(root: Id) | SetCap(max: nat) | Offer(invite: Invitation, now: nat)

  function Step(st: Store, op: Op, genuine: Genuine): Store {
    match op
    case AddRoot(root) => st.(roots := st.roots + {root})
    case SetCap(max) => st.(cap := max)
    case Offer(invite, now) => Ingest(st, invite, now, genuine).0
  }

  function Run(st: Store, ops: seq<Op>, genuine: Genuine): Store {
    if ops == [] then st else Step(Run(st, ops[..|ops| - 1], genuine), ops[|ops| - 1], genuine)
  }

  /* ---- what every run keeps ---- */

  // Each invitation is filed under its own issuer and subject, is genuine, and was issued by `latest`.
  ghost predicate WellKeyed(st: Store, latest: nat, genuine: Genuine) {
    forall a, b :: a in st.edges && b in st.edges[a] ==> WellFiled(st.edges[a][b], a, b, latest, genuine)
  }

  ghost predicate WellFiled(invite: Invitation, a: Id, b: Id, latest: nat, genuine: Genuine) {
    invite.issuer == a && invite.subject == b && invite.issuedAt <= latest && genuine(invite)
  }

  ghost predicate Capped(st: Store, c: nat) {
    st.cap <= c && forall a :: a in st.edges ==> |st.edges[a]| <= c
  }

  // No offer was made later than `latest`.
  predicate Before(ops: seq<Op>, latest: nat) {
    forall i :: 0 <= i < |ops| && ops[i].Offer? ==> ops[i].now <= latest
  }

  // No cap above c was ever set.
  predicate CapAtMost(ops: seq<Op>, c: nat) {
    forall i :: 0 <= i < |ops| && ops[i].SetCap? ==> ops[i].max <= c
  }

  lemma {:induction false} RunWellKeyed(ops: seq<Op>, latest: nat, genuine: Genuine)
    requires Before(ops, latest)
    ensures WellKeyed(Run(NEW_STORE, ops, genuine), latest, genuine)
  {
    if ops != [] {
      RunWellKeyed(ops[..|ops| - 1], latest, genuine);
    }
  }

  lemma {:induction false} RunCapped(st: Store, ops: seq<Op>, c: nat, genuine: Genuine)
    requires Capped(st, c) && CapAtMost(ops, c)
    ensures Capped(Run(st, ops, genuine), c)
  {
    if ops != [] {
      RunCapped(st, ops[..|ops| - 1], c, genuine);
    }
  }

  /* ---- counting bound ---- */

  function Pow(c: nat, d: nat): nat {
    if d == 0 then 1 else c * Pow(c, d - 1)
  }

  // 1 + c + c^2 + ... + c^d
  function GeometricSum(c: nat, d: nat): nat {
    if d == 0 then 1 else GeometricSum(c, d - 1) + Pow(c, d)
  }

  lemma PowNext(c: nat, d: nat)
    requires d > 0
    ensures Pow(c, d) == c * Pow(c, d - 1)
  {}

  lemma Distributes(c: nat, x: nat, y: nat)
    ensures c * (x + y) == c * x + c * y
  {}

  // A level of w identities vouches for at most c * w more.
  lemma LevelSize(r: nat, c: nat, g: nat, w: nat)
    requires w <= r * g
    ensures r + w * c <= r * (1 + c * g)
  {
    assert w * c <= r * g * c;
    assert r * (1 + c * g) == r + r * (c * g);
    assert r * (c * g) == r * g * c;
  }

  lemma {:induction false} Horner(c: nat, d: nat)
    requires d > 0
    ensures GeometricSum(c, d) == 1 + c * GeometricSum(c, d - 1)
  {
    if d == 1 {
      assert Pow(c, 1) == c * Pow(c, 0) == c;
    } else {
      Horner(c, d - 1);
      hide Pow;
      Distributes(c, GeometricSum(c, d - 2), Pow(c, d - 1));
      assert Pow(c, d) == c * Pow(c, d - 1) by { PowNext(c, d); }
    }
  }

  // One issuer vouches for at most c subjects, so a set of issuers reaches at most c times its size.
  lemma {:induction false} SuccSize(st: Store, s: set<Id>, c: nat, now: nat, genuine: Genuine)
    requires Capped(st, c)
    ensures |Succ(st, s, now, genuine)| <= |s| * c
    decreases |s|
  {
    hide Capped, Succ, ValidSubjects;
    if s == {} {
      SuccEmpty(st, now, genuine);
    } else {
      var a :| a in s;
      var rest := s - {a};
      SuccSize(st, rest, c, now, genuine);
      assert s == rest + {a};
      SuccAdd(st, rest, a, now, genuine);
      ValidSubjectsSize(st, a, c, now, genuine);
      assert |s| * c == |rest| * c + c;
    }
  }

  lemma SuccEmpty(st: Store, now: nat, genuine: Genuine)
    ensures Succ(st, {}, now, genuine) == {}
  {}

  lemma SuccAdd(st: Store, s: set<Id>, a: Id, now: nat, genuine: Genuine)
    ensures Succ(st, s + {a}, now, genuine) == Succ(st, s, now, genuine) + ValidSubjects(st, a, now, genuine)
  {
    hide ValidSubjects;
  }

  lemma ValidSubjectsSize(st: Store, a: Id, c: nat, now: nat, genuine: Genuine)
    requires Capped(st, c)
    ensures |ValidSubjects(st, a, now, genuine)| <= c
  {
    hide Edge;
    SubsetSize(ValidSubjects(st, a, now, genuine), SubjectsOf(st, a).Keys);
  }

  lemma {:induction false} WithinSize(st: Store, d: nat, c: nat, now: nat, genuine: Genuine)
    requires Capped(st, c)
    ensures |Within(st, d, now, genuine)| <= |st.roots| * GeometricSum(c, d)
  {
    hide Succ, Capped;
    if d > 0 {
      WithinSize(st, d - 1, c, now, genuine);
      SuccSize(st, Within(st, d - 1, now, genuine), c, now, genuine);
      Horner(c, d);
      hide GeometricSum;
      LevelSize(|st.roots|, c, GeometricSum(c, d - 1), |Within(st, d - 1, now, genuine)|);
    }
  }

  // `subject` would be admitted at depth d.
  ghost predicate Admitted(st: Store, subject: Id, d: nat, now: nat, genuine: Genuine) {
    exists e: nat :: e <= d && HasChain(st, subject, e, now, genuine)
  }

  // With the cap set to c before anything else and never raised above c, r roots admit at most
  // r * (1 + c + ... + c^d) identities within depth d, at any time, however the run went.
  lemma CountingBound(ops: seq<Op>, c: nat, d: nat, now: nat, genuine: Genuine, admitted: set<Id>)
    requires CapAtMost(ops, c)
    requires forall x :: x in admitted ==> Admitted(Run(NEW_STORE.(cap := c), ops, genuine), x, d, now, genuine)
    ensures |admitted| <= |Run(NEW_STORE.(cap := c), ops, genuine).roots| * GeometricSum(c, d)
  {
    hide Run, HasChain, Within;
    var st := Run(NEW_STORE.(cap := c), ops, genuine);
    RunCapped(NEW_STORE.(cap := c), ops, c, genuine);
    forall x | x in admitted ensures x in Within(st, d, now, genuine) {
      WithinIffChain(st, x, d, now, genuine);
    }
    SubsetSize(admitted, Within(st, d, now, genuine));
    WithinSize(st, d, c, now, genuine);
  }

  /* ---- time ---- */

  // Every edge of one instant's graph is an edge of another's.
  ghost predicate EdgesKept(st: Store, now: nat, st': Store, now': nat, genuine: Genuine) {
    st.roots <= st'.roots && forall a, b :: Edge(st, a, b, now, genuine) ==> Edge(st', a, b, now', genuine)
  }

  lemma ChainKept(st: Store, now: nat, st': Store, now': nat, x: Id, d: nat, genuine: Genuine)
    requires EdgesKept(st, now, st', now', genuine) && HasChain(st, x, d, now, genuine)
    ensures HasChain(st', x, d, now', genuine)
  {
    hide Edge;
    var path :| |path| == d + 1 && path[d] == x && Chain(st, path, now, genuine);
    assert Chain(st', path, now', genuine);
  }

  // A graph with more edges has no longer distances.
  lemma DistanceKept(st: Store, now: nat, st': Store, now': nat, x: Id, d: nat, genuine: Genuine) returns (e: nat)
    requires EdgesKept(st, now, st', now', genuine) && IsDistance(st, x, d, now, genuine)
    ensures e <= d && IsDistance(st', x, e, now', genuine)
  {
    hide HasChain, Within, EdgesKept;
    ChainKept(st, now, st', now', x, d, genuine);
    WithinIffChain(st', x, d, now', genuine);
    e := HasDistance(st', x, d, now', genuine);
  }

  // Query times at or after every ingest: the earlier query finds every distance at most as long.
  lemma TrustDecays(ops: seq<Op>, t1: nat, t2: nat, x: Id, d: nat, genuine: Genuine) returns (e: nat)
    requires Before(ops, t1) && t1 <= t2
    requires IsDistance(Run(NEW_STORE, ops, genuine), x, d, t2, genuine)
    ensures e <= d && IsDistance(Run(NEW_STORE, ops, genuine), x, e, t1, genuine)
  {
    hide Run, Before, IsDistance;
    var st := Run(NEW_STORE, ops, genuine);
    RunWellKeyed(ops, t1, genuine);
    e := DistanceKept(st, t2, st, t1, x, d, genuine);
  }

  // A successful ingest at `now` raises no distance at `now`.
  lemma IngestGrows(st: Store, invite: Invitation, now: nat, x: Id, d: nat, genuine: Genuine) returns (e: nat)
    requires Ingest(st, invite, now, genuine).1.Ok? && IsDistance(st, x, d, now, genuine)
    ensures e <= d && IsDistance(Ingest(st, invite, now, genuine).0, x, e, now, genuine)
  {
    hide IsDistance;
    e := DistanceKept(st, now, Ingest(st, invite, now, genuine).0, now, x, d, genuine);
  }

  // A taken invitation extends its issuer's chains to its subject.
  lemma IngestReaches(st: Store, invite: Invitation, now: nat, d: nat, genuine: Genuine)
    requires Ingest(st, invite, now, genuine).1.Ok? && HasChain(st, invite.issuer, d, now, genuine)
    ensures HasChain(Ingest(st, invite, now, genuine).0, invite.subject, d + 1, now, genuine)
  {
    var st' := Ingest(st, invite, now, genuine).0;
    IngestExactly(st, invite, now, genuine);
    VerifyExactly(invite, now, genuine);
    assert Edge(st', invite.issuer, invite.subject, now, genuine);
    assert EdgesKept(st, now, st', now, genuine);
    hide Edge, HasChain, Ingest, EdgesKept;
    ChainKept(st, now, st', now, invite.issuer, d, genuine);
    HasChainExtends(st', invite.issuer, invite.subject, d, now, genuine);
  }

  // A refused ingest changes nobody's chains.
  lemma RefusalKeeps(st: Store, invite: Invitation, now: nat, t: nat, x: Id, d: nat, genuine: Genuine)
    requires Ingest(st, invite, now, genuine).1.Err?
    ensures HasChain(st, x, d, t, genuine) <==> HasChain(Ingest(st, invite, now, genuine).0, x, d, t, genuine)
  {
    hide HasChain;
    var st' := Ingest(st, invite, now, genuine).0;
    if HasChain(st, x, d, t, genuine) {
      ChainKept(st, t, st', t, x, d, genuine);
    }
    if HasChain(st', x, d, t, genuine) {
      ChainKept(st', t, st, t, x, d, genuine);
    }
  }

  /* ---- renewals ---- */

  // The store after `a`'s invitation of `b` is taken out.
  function Without(st: Store, a: Id, b: Id): Store {
    if a in st.edges then st.(edges := st.edges[a := st.edges[a] - {b}]) else st
  }

  // Until when the invitation that a new one replaces would have been valid.
  function ReplacedUntil(st: Store, invite: Invitation): nat {
    var subjects := SubjectsOf(st, invite.issuer);
    if invite.subject in subjects then subjects[invite.subject].expiresAt else 0
  }

  // Outside the times the new invitation leaves uncovered, every edge is kept.
  lemma RenewalKeepsEdges(st: Store, invite: Invitation, now: nat, t: nat, genuine: Genuine)
    requires Ingest(st, invite, now, genuine).1.Ok? && now <= t
    requires !(invite.expiresAt <= t < ReplacedUntil(st, invite))
    ensures EdgesKept(st, t, Ingest(st, invite, now, genuine).0, t, genuine)
  {}

  // In them, the new graph is the old one without the replaced edge.
  lemma RenewalDropsEdge(st: Store, invite: Invitation, now: nat, t: nat, genuine: Genuine)
    requires Ingest(st, invite, now, genuine).1.Ok? && invite.expiresAt <= t
    ensures var st', gone := Ingest(st, invite, now, genuine).0, Without(st, invite.issuer, invite.subject);
            EdgesKept(st', t, gone, t, genuine) && EdgesKept(gone, t, st', t, genuine)
  {
    hide Ingest, Without, Edge;
    var st', gone := Ingest(st, invite, now, genuine).0, Without(st, invite.issuer, invite.subject);
    RenewalRoots(st, invite, now, genuine);
    forall y, z ensures Edge(st', y, z, t, genuine) <==> Edge(gone, y, z, t, genuine) {
      RenewalEdge(st, invite, now, t, y, z, genuine);
    }
  }

  lemma RenewalRoots(st: Store, invite: Invitation, now: nat, genuine: Genuine)
    ensures Ingest(st, invite, now, genuine).0.roots == st.roots == Without(st, invite.issuer, invite.subject).roots
  {}

  lemma RenewalEdge(st: Store, invite: Invitation, now: nat, t: nat, y: Id, z: Id, genuine: Genuine)
    requires Ingest(st, invite, now, genuine).1.Ok? && invite.expiresAt <= t
    ensures Edge(Ingest(st, invite, now, genuine).0, y, z, t, genuine)
            <==> Edge(Without(st, invite.issuer, invite.subject), y, z, t, genuine)
  {}

  lemma AdmittedKept(st: Store, now: nat, st': Store, now': nat, x: Id, d: nat, genuine: Genuine)
    requires EdgesKept(st, now, st', now', genuine) && Admitted(st, x, d, now, genuine)
    ensures Admitted(st', x, d, now', genuine)
  {
    hide HasChain, EdgesKept;
    var e: nat :| e <= d && HasChain(st, x, e, now, genuine);
    ChainKept(st, now, st', now', x, e, genuine);
  }

  // Whoever is admitted stays admitted if b does, when only an edge to b is lost.
  lemma {:induction false} DetourServesAll(st: Store, gone: Store, b: Id, x: Id, d: nat, t: nat, genuine: Genuine)
    requires gone.roots == st.roots
    requires forall y, z :: z != b && Edge(st, y, z, t, genuine) ==> Edge(gone, y, z, t, genuine)
    requires forall e: nat :: e <= d && b in Within(st, e, t, genuine) ==> b in Within(gone, e, t, genuine)
    requires x in Within(st, d, t, genuine)
    ensures x in Within(gone, d, t, genuine)
    decreases d
  {
    hide Edge;
    if d > 0 && x !in st.roots && x != b {
      var y :| y in Within(st, d - 1, t, genuine) && x in ValidSubjects(st, y, t, genuine);
      DetourServesAll(st, gone, b, y, d - 1, t, genuine);
      EdgeListed(gone, y, x, t, genuine);
    }
  }

  lemma EdgeListed(st: Store, a: Id, b: Id, t: nat, genuine: Genuine)
    requires Edge(st, a, b, t, genuine)
    ensures b in ValidSubjects(st, a, t, genuine)
  {}

  // Someone admitted at a later time t would no longer be, at the same depth, after the ingest.
  ghost predicate Forgets(st: Store, invite: Invitation, now: nat, t: nat, x: Id, d: nat, genuine: Genuine) {
    Admitted(st, x, d, t, genuine) && !Admitted(Ingest(st, invite, now, genuine).0, x, d, t, genuine)
  }

  // At t, which the new invitation does not cover any more and the replaced one would, the subject
  // is admitted to depth d only thanks to the replaced one.
  ghost predicate Dependent(st: Store, invite: Invitation, t: nat, d: nat, genuine: Genuine) {
    && invite.expiresAt <= t < ReplacedUntil(st, invite)
    && Admitted(st, invite.subject, d, t, genuine)
    && !Admitted(Without(st, invite.issuer, invite.subject), invite.subject, d, t, genuine)
  }

  lemma GapForgetsSubject(st: Store, invite: Invitation, now: nat, t: nat, x: Id, d: nat, genuine: Genuine) returns (e: nat)
    requires Ingest(st, invite, now, genuine).1.Ok? && now <= t && Forgets(st, invite, now, t, x, d, genuine)
    ensures e <= d && Dependent(st, invite, t, e, genuine)
  {
    var a, b, st' := invite.issuer, invite.subject, Ingest(st, invite, now, genuine).0;
    var gone := Without(st, a, b);
    hide HasChain, Within;
    if !(invite.expiresAt <= t < ReplacedUntil(st, invite)) {
      RenewalKeepsEdges(st, invite, now, t, genuine);
      AdmittedKept(st, t, st', t, x, d, genuine);
      assert false;
    }
    RenewalDropsEdge(st, invite, now, t, genuine);
    hide Admitted, EdgesKept;
    if forall e: nat :: e <= d && Admitted(st, b, e, t, genuine) ==> Admitted(gone, b, e, t, genuine) {
      DetourAdmits(st, gone, a, b, x, d, t, genuine);
      AdmittedKept(gone, t, st', t, x, d, genuine);
      assert false;
    }
    e :| e <= d && Admitted(st, b, e, t, genuine) && !Admitted(gone, b, e, t, genuine);
  }

  lemma DetourAdmits(st: Store, gone: Store, a: Id, b: Id, x: Id, d: nat, t: nat, genuine: Genuine)
    requires gone == Without(st, a, b) && Admitted(st, x, d, t, genuine)
    requires forall e: nat :: e <= d && Admitted(st, b, e, t, genuine) ==> Admitted(gone, b, e, t, genuine)
    ensures Admitted(gone, x, d, t, genuine)
  {
    assert forall y, z :: z != b && Edge(st, y, z, t, genuine) ==> Edge(gone, y, z, t, genuine);
    hide HasChain, Within, Edge;
    forall e: nat | e <= d && b in Within(st, e, t, genuine) ensures b in Within(gone, e, t, genuine) {
      WithinIffChain(st, b, e, t, genuine);
      assert Admitted(st, b, e, t, genuine);
      WithinIffChain(gone, b, e, t, genuine);
    }
    WithinIffChain(st, x, d, t, genuine);
    DetourServesAll(st, gone, b, x, d, t, genuine);
    WithinIffChain(gone, x, d, t, genuine);
  }

  lemma DependentIsForgotten(st: Store, invite: Invitation, now: nat, t: nat, d: nat, genuine: Genuine)
    requires Ingest(st, invite, now, genuine).1.Ok? && Dependent(st, invite, t, d, genuine)
    ensures now <= t && Forgets(st, invite, now, t, invite.subject, d, genuine)
  {
    var b, st', gone := invite.subject, Ingest(st, invite, now, genuine).0, Without(st, invite.issuer, invite.subject);
    RenewalDropsEdge(st, invite, now, t, genuine);
    hide Admitted, EdgesKept, Without;
    if Admitted(st', b, d, t, genuine) {
      AdmittedKept(st', t, gone, t, b, d, genuine);
      assert false;
    }
  }

  /**
   When an ingest can cost someone admission later on, exactly: at some later time somebody admitted to
   some depth stops being so, if and only if at some time between the new expiry and the replaced one the
   subject itself is admitted to some depth and would not be without the replaced invitation. The latter
   is a question about one identity, answered by the store as it was before the ingest.
  */
  lemma RenewalExactly(st: Store, invite: Invitation, now: nat, genuine: Genuine)
    requires Ingest(st, invite, now, genuine).1.Ok?
    ensures (exists t: nat, x, d: nat :: now <= t && Forgets(st, invite, now, t, x, d, genuine))
            <==> (exists t: nat, d: nat :: Dependent(st, invite, t, d, genuine))
  {
    hide Forgets, Dependent, Ingest;
    if t: nat, x, d: nat :| now <= t && Forgets(st, invite, now, t, x, d, genuine) {
      var e := GapForgetsSubject(st, invite, now, t, x, d, genuine);
    }
    if t: nat, d: nat :| Dependent(st, invite, t, d, genuine) {
      DependentIsForgotten(st, invite, now, t, d, genuine);
    }
  }

  lemma NoEdgeNoChain(st: Store, b: Id, path: seq<Id>, d: nat, t: nat, genuine: Genuine)
    requires b !in st.roots && forall a :: !Edge(st, a, b, t, genuine)
    ensures !(|path| == d + 1 && path[d] == b && Chain(st, path, t, genuine))
  {
    hide Edge;
    if d > 0 && |path| == d + 1 {
      assert Chain(st, path, t, genuine) ==> Edge(st, path[d - 1], path[d - 1 + 1], t, genuine);
    }
  }

  lemma NoEdgeNotAdmitted(st: Store, b: Id, d: nat, t: nat, genuine: Genuine)
    requires b !in st.roots && forall a :: !Edge(st, a, b, t, genuine)
    ensures !Admitted(st, b, d, t, genuine)
  {
    hide Edge, Chain;
    forall path, e: nat ensures !(|path| == e + 1 && path[e] == b && Chain(st, path, t, genuine)) {
      NoEdgeNoChain(st, b, path, e, t, genuine);
    }
  }

  lemma OneStepAdmits(st: Store, a: Id, b: Id, t: nat, genuine: Genuine)
    requires a in st.roots && Edge(st, a, b, t, genuine)
    ensures Admitted(st, b, 1, t, genuine)
  {
    hide Edge;
    assert Chain(st, [a, b], t, genuine) && [a, b][1] == b;
    assert HasChain(st, b, 1, t, genuine);
  }

  lemma RunNext(st: Store, ops: seq<Op>, op: Op, genuine: Genuine)
    ensures Run(st, [], genuine) == st && Run(st, ops + [op], genuine) == Step(Run(st, ops, genuine), op, genuine)
  {
    assert (ops + [op])[..|ops|] == ops;
  }

  // Two offers of root a to b, the second replacing the first.
  lemma TwoOffers(a: Id, b: Id, long: Invitation, short: Invitation, genuine: Genuine)
    requires long == Invitation(a, b, 0, 100, []) && short == Invitation(a, b, 10, 50, [])
    requires genuine(long) && genuine(short)
    ensures Run(NEW_STORE, [AddRoot(a), Offer(long, 0)], genuine) == Store({a}, map[a := map[b := long]], USIZE_MAX)
    ensures Run(NEW_STORE, [AddRoot(a), Offer(long, 0), Offer(short, 10)], genuine)
         == Store({a}, map[a := map[b := short]], USIZE_MAX)
  {
    RunNext(NEW_STORE, [], AddRoot(a), genuine);
    RunNext(NEW_STORE, [AddRoot(a)], Offer(long, 0), genuine);
    RunNext(NEW_STORE, [AddRoot(a), Offer(long, 0)], Offer(short, 10), genuine);
    hide Run;
    assert map[b := long][b := short] == map[b := short];
    assert map[a := map[b := long]][a := map[b := short]] == map[a := map[b := short]];
    assert [] + [AddRoot(a)] == [AddRoot(a)];
    assert [AddRoot(a)] + [Offer(long, 0)] == [AddRoot(a), Offer(long, 0)];
    assert [AddRoot(a), Offer(long, 0)] + [Offer(short, 10)] == [AddRoot(a), Offer(long, 0), Offer(short, 10)];
  }

  // A shorter renewal that costs its subject admission at time 60.
  lemma ShorterRenewalForgets(a: Id, b: Id, genuine: Genuine)
    requires a != b
    requires genuine(Invitation(a, b, 0, 100, [])) && genuine(Invitation(a, b, 10, 50, []))
    ensures var long, short := Invitation(a, b, 0, 100, []), Invitation(a, b, 10, 50, []);
            var before := Run(NEW_STORE, [AddRoot(a), Offer(long, 0)], genuine);
            var after := Run(NEW_STORE, [AddRoot(a), Offer(long, 0), Offer(short, 10)], genuine);
            && Admitted(before, b, 1, 60, genuine)
            && (forall d: nat :: !Admitted(after, b, d, 60, genuine))
  {
    var long, short := Invitation(a, b, 0, 100, []), Invitation(a, b, 10, 50, []);
    TwoOffers(a, b, long, short, genuine);
    var before := Store({a}, map[a := map[b := long]], USIZE_MAX);
    var after := Store({a}, map[a := map[b := short]], USIZE_MAX);
    assert Edge(before, a, b, 60, genuine) && forall c :: !Edge(after, c, b, 60, genuine);
    hide Run, Edge, Admitted;
    OneStepAdmits(before, a, b, 60, genuine);
    forall d: nat ensures !Admitted(after, b, d, 60, genuine) {
      NoEdgeNotAdmitted(after, b, d, 60, genuine);
    }
  }
}
