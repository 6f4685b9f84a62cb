/** The local admission policy object of src/admission.rs. */
module Admission {
  import opened Words
  import opened Wrappers
  import opened AdmissionModel
  import opened Trust

  class TrustStore {
    var roots: set<Id>
    var edges: map<Id, map<Id, Invitation>>
    var maxInviteesPerIssuer: nat
    const genuine: Genuine

    function Contents(): Store
      reads this
    {
      Store(roots, edges, maxInviteesPerIssuer)
    }

    // Invitations are filed under their own subject.
    ghost predicate Valid()
      reads this
    {
      forall a, b :: a in edges && b in edges[a] ==> edges[a][b].subject == b
    }

    constructor (genuine: Genuine)
      ensures Valid() && Contents() == NEW_STORE && this.genuine == genuine
      ensures Contents() == Store({}, map[], 0xFFFF_FFFF_FFFF_FFFF)
    {
      this.genuine := genuine;
      roots, edges, maxInviteesPerIssuer := {}, map[], USIZE_MAX;
    }

    method AddRoot(root: Id)
      requires Valid()
      modifies `roots
      ensures Valid() && Contents() == old(Contents()).(roots := old(roots) + {root})
    {
      roots := roots + {root};
    }

    method SetMaxInviteesPerIssuer(max: nat)
      requires Valid()
      modifies `maxInviteesPerIssuer
      ensures Valid() && Contents() == old(Contents()).(cap := max)
    {
      maxInviteesPerIssuer := max;
    }

    method IngestInvitation(invite: Invitation, now: u64) returns (r: Result<(), AdmissionError>)
      requires Valid()
      modifies `edges
      ensures Valid() && (Contents(), r) == Ingest(old(Contents()), invite, now, genuine)
    {
      var verdict := Verify(invite, now, genuine);
      if verdict.Err? {
        return verdict;
      }
      var issuer, subject := invite.issuer, invite.subject;
      if issuer !in edges {
        edges := edges[issuer := map[]];
      }
      var subjects := edges[issuer];
      if subject !in subjects && |subjects| >= maxInviteesPerIssuer {
        assert edges == old(edges)[issuer := subjects];
        return Err(IssuerCapReached);
      }
      edges := edges[issuer := subjects[subject := invite]];
      assert edges == old(edges)[issuer := subjects[subject := invite]];
      return Ok(());
    }

    // Breadth first, level by level, in whatever order the maps are walked.
    method TrustDepth(subject: Id, maxDepth: u8, now: u64) returns (r: Option<nat>)
      requires Valid()
      ensures r.Some? ==> r.value <= maxDepth && IsDistance(Contents(), subject, r.value, now, genuine)
      ensures forall d: nat :: d <= maxDepth && IsDistance(Contents(), subject, d, now, genuine) ==> r == Some(d)
      ensures r.None? ==> forall d: nat :: d <= maxDepth ==> !HasChain(Contents(), subject, d, now, genuine)
    {
      hide HasChain, IsDistance, Within, Edge;
      ghost var st := Contents();
      LevelZero(st, now, genuine);
      if subject in roots {
        DistanceByLevels(st, subject, 0, now, genuine);
        OnlyDistance(st, subject, 0, now, genuine);
        return Some(0);
      }
      var frontier := Listing(roots);
      var visited := roots;
      var depth := 1;
      while depth <= maxDepth
        invariant 1 <= depth <= maxDepth + 1
        invariant visited == Within(st, depth - 1, now, genuine) && subject !in visited
        invariant IsFrontier(st, frontier, visited, now, genuine)
      {
        var found, seen, next := Expand(frontier, visited, subject, now);
        LevelExpands(st, frontier, visited, depth, now, genuine);
        if found {
          DistanceByLevels(st, subject, depth, now, genuine);
          OnlyDistance(st, subject, depth, now, genuine);
          return Some(depth);
        }
        if next == [] {
          NoneNew(seen, visited);
          Exhausted(st, depth - 1, maxDepth, now, genuine);
          UnreachedByLevels(st, subject, maxDepth, now, genuine);
          return None;
        }
        FrontierMoves(st, frontier, visited, next, seen, now, genuine);
        frontier, visited := next, seen;
        depth := depth + 1;
      }
      UnreachedByLevels(st, subject, maxDepth, now, genuine);
      return None;
    }

    method IsAdmitted(subject: Id, maxDepth: u8, now: u64) returns (ok: bool)
      requires Valid()
      ensures ok <==> Admitted(Contents(), subject, maxDepth, now, genuine)
    {
      hide HasChain;
      var depth := TrustDepth(subject, maxDepth, now);
      ok := depth.Some?;
    }

    // One level: walk every frontier issuer's invitations, stopping at the subject.
    method Expand(frontier: seq<Id>, visited: set<Id>, subject: Id, now: u64)
      returns (found: bool, seen: set<Id>, next: seq<Id>)
      requires Valid() && subject !in visited
      ensures found ==> subject in Succ(Contents(), Elements(frontier), now, genuine)
      ensures !found ==> seen == visited + Succ(Contents(), Elements(frontier), now, genuine) && subject !in seen
      ensures !found ==> Elements(next) == seen - visited
    {
      hide Edge, Succ, ValidSubjects;
      ghost var st := Contents();
      found, seen, next := false, visited, [];
      assert Elements(frontier[..0]) == {};
      SuccEmpty(st, now, genuine);
      var i := 0;
      while i < |frontier|
        invariant 0 <= i <= |frontier| && !found
        invariant seen == visited + Succ(st, Elements(frontier[..i]), now, genuine)
        invariant subject !in seen && Elements(next) == seen - visited
      {
        found, seen, next := Walk(frontier[i], seen, next, visited, subject, now);
        if found {
          SuccHas(st, Elements(frontier), frontier[i], subject, now, genuine);
          return;
        }
        SuccNext(st, frontier, i, now, genuine);
        i := i + 1;
      }
      assert frontier[..i] == frontier;
    }

    // One issuer's valid invitations, in any order.
    method Walk(issuer: Id, seen0: set<Id>, next0: seq<Id>, ghost visited: set<Id>, subject: Id, now: u64)
      returns (found: bool, seen: set<Id>, next: seq<Id>)
      requires Valid() && visited <= seen0 && subject !in seen0 && Elements(next0) == seen0 - visited
      ensures found ==> Edge(Contents(), issuer, subject, now, genuine)
      ensures !found ==> seen == seen0 + ValidSubjects(Contents(), issuer, now, genuine) && subject !in seen
      ensures !found ==> Elements(next) == seen - visited
    {
      hide Edge, ValidSubjects, Elements;
      ghost var st := Contents();
      ghost var valid := ValidSubjects(st, issuer, now, genuine);
      found, seen, next := false, seen0, next0;
      VouchedFor(st, issuer, now, genuine);
      if issuer !in edges {
        return;
      }
      var rest := edges[issuer].Keys;
      while rest != {}
        invariant rest <= edges[issuer].Keys
        invariant seen == seen0 + (valid - rest)
        invariant subject !in seen && Elements(next) == seen - visited
        decreases |rest|
      {
        var key :| key in rest;
        var invite := edges[issuer][key];
        EdgeHere(st, issuer, key, now, genuine);
        WalkOne(valid, rest, key, seen0, seen, visited, next);
        rest := rest - {key};
        if Verify(invite, now, genuine).Ok? {
          var s := invite.subject;
          if s == subject {
            found := true;
            return;
          }
          if s !in seen {
            seen := seen + {s};
            next := next + [s];
          }
        }
      }
    }
  }

  function Elements(q: seq<Id>): set<Id> {
    set x | x in q
  }

  lemma ElementsSnoc(q: seq<Id>, x: Id)
    ensures Elements(q + [x]) == Elements(q) + {x}
  {}

  lemma NoneNew(seen: set<Id>, visited: set<Id>)
    requires visited <= seen && seen - visited == Elements([])
    ensures seen == visited
  {
    assert seen == visited + (seen - visited);
  }

  // The elements of a set in some order.
  method Listing(s: set<Id>) returns (q: seq<Id>)
    ensures Elements(q) == s
  {
    q := [];
    var rest := s;
    while rest != {}
      invariant rest <= s && Elements(q) == s - rest
      decreases |rest|
    {
      var x :| x in rest;
      ElementsSnoc(q, x);
      q, rest := q + [x], rest - {x};
    }
  }

  // The frontier was visited, and everyone else visited has had its invitations walked.
  ghost predicate IsFrontier(st: Store, frontier: seq<Id>, visited: set<Id>, now: nat, genuine: Genuine) {
    && Elements(frontier) <= visited
    && Succ(st, visited, now, genuine) <= visited + Succ(st, Elements(frontier), now, genuine)
  }

  lemma EdgeHere(st: Store, a: Id, b: Id, now: nat, genuine: Genuine)
    requires b in SubjectsOf(st, a)
    ensures Edge(st, a, b, now, genuine) <==> Verify(SubjectsOf(st, a)[b], now, genuine).Ok?
    ensures Edge(st, a, b, now, genuine) <==> b in ValidSubjects(st, a, now, genuine)
  {}

  lemma VouchedFor(st: Store, a: Id, now: nat, genuine: Genuine)
    ensures ValidSubjects(st, a, now, genuine) <= SubjectsOf(st, a).Keys
  {}

  // Walking one more of the subjects not yet walked.
  lemma WalkOne(valid: set<Id>, rest: set<Id>, key: Id, seen0: set<Id>, seen: set<Id>, visited: set<Id>, next: seq<Id>)
    requires seen == seen0 + (valid - rest) && key in rest && Elements(next) == seen - visited && visited <= seen0
    ensures (if key in valid then seen + {key} else seen) == seen0 + (valid - (rest - {key}))
    ensures key !in seen ==> Elements(next + [key]) == seen + {key} - visited
  {
    ElementsSnoc(next, key);
    hide Elements;
  }

  lemma SuccHas(st: Store, s: set<Id>, a: Id, b: Id, now: nat, genuine: Genuine)
    requires a in s && Edge(st, a, b, now, genuine)
    ensures b in Succ(st, s, now, genuine)
  {
    assert b in ValidSubjects(st, a, now, genuine);
  }

  lemma LevelZero(st: Store, now: nat, genuine: Genuine)
    ensures Within(st, 0, now, genuine) == st.roots
  {}

  lemma SuccNext(st: Store, frontier: seq<Id>, i: nat, now: nat, genuine: Genuine)
    requires i < |frontier|
    ensures Succ(st, Elements(frontier[..i + 1]), now, genuine) ==
            Succ(st, Elements(frontier[..i]), now, genuine) + ValidSubjects(st, frontier[i], now, genuine)
    ensures frontier[i] !in st.edges ==> ValidSubjects(st, frontier[i], now, genuine) == {}
  {
    hide Edge;
    assert Elements(frontier[..i + 1]) == Elements(frontier[..i]) + {frontier[i]};
  }

  // Walking the frontier alone completes the next level.
  lemma LevelExpands(st: Store, frontier: seq<Id>, visited: set<Id>, depth: nat, now: nat, genuine: Genuine)
    requires depth > 0 && visited == Within(st, depth - 1, now, genuine)
    requires IsFrontier(st, frontier, visited, now, genuine)
    ensures Within(st, depth, now, genuine) == visited + Succ(st, Elements(frontier), now, genuine)
  {
    hide Succ, Elements;
    SuccMonotone(st, Elements(frontier), visited, now, genuine);
    WithinMonotone(st, depth - 1, depth, now, genuine);
  }

  lemma FrontierMoves(st: Store, frontier: seq<Id>, visited: set<Id>, next: seq<Id>, seen: set<Id>,
                      now: nat, genuine: Genuine)
    requires IsFrontier(st, frontier, visited, now, genuine)
    requires seen == visited + Succ(st, Elements(frontier), now, genuine) && Elements(next) == seen - visited
    ensures IsFrontier(st, next, seen, now, genuine)
  {
    hide ValidSubjects;
    assert seen == visited + Elements(next);
    assert Succ(st, seen, now, genuine) ==
           Succ(st, visited, now, genuine) + Succ(st, Elements(next), now, genuine);
  }
}
