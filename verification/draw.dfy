/** `generateAssignments`: build the candidate graph, shuffle the givers,
    run the backtracking search. Also states what a valid draw is, both as the
    returned list of records and as an order-free giver-to-receiver map, and
    proves that the function returns a draw exactly when one exists. */
module Draw {
  import opened Seqs
  import opened Types
  import opened Shuffling
  import opened Candidates
  import opened Search

  /** The search order: Fisher–Yates on a copy of the participants, using
      random calls 0 .. n-2. */
  function GiverOrder(ps: seq<Participant>, rng: Rng): (order: seq<Participant>)
    ensures multiset(order) == multiset(ps)
  {
    Shuffle(ps, rng, 0).0
  }

  /** A returned list of assignments is valid: one record per participant,
      every participant a giver exactly as often as it is listed, no receiver
      id twice, every receiver a participant, nobody drawing themselves and no
      excluded pair. */
  ghost predicate IsValidDraw(ps: seq<Participant>, ex: seq<Exclusion>, xs: seq<Assignment>) {
    && |xs| == |ps|
    && multiset(Givers(xs)) == multiset(ps)
    && Distinct(ReceiverIds(xs))
    && forall t :: 0 <= t < |xs| ==>
         && xs[t].receiver in ps
         && xs[t].receiver.id != xs[t].giver.id
         && !Excluded(ex, xs[t].giver.id, xs[t].receiver.id)
  }

  /** The order-free meaning of a draw: a map from every participant id to a
      legal receiver id, no two givers sharing a receiver. */
  ghost predicate IsValidPairing(ps: seq<Participant>, ex: seq<Exclusion>, m: map<Id, Id>) {
    && m.Keys == IdSet(ps)
    && (forall g :: g in m ==> IsCandidate(ps, ex, g, m[g]))
    && (forall g1, g2 :: g1 in m && g2 in m && g1 != g2 ==> m[g1] != m[g2])
  }

  ghost predicate DrawExists(ps: seq<Participant>, ex: seq<Exclusion>) {
    exists m :: IsValidPairing(ps, ex, m)
  }

  /** The graph and the empty stack satisfy the search's entry conditions. */
  lemma DrawSetup(ps: seq<Participant>, ex: seq<Exclusion>, order: seq<Participant>)
    requires multiset(order) == multiset(ps)
    ensures Covers(ps, CandidateGraph(ps, ex), order)
    ensures Partial(ps, CandidateGraph(ps, ex), order, 0, {}, [])
  {
    forall p | p in order ensures p.id in IdSet(ps) {
      assert p in multiset(order);
    }
    assert Elems(ReceiverIds([])) == {};
  }

  /** A finished stack over a permutation of the participants is a valid draw
      whose givers come in the search order. */
  lemma CompleteIsValid(ps: seq<Participant>, ex: seq<Exclusion>, order: seq<Participant>, xs: seq<Assignment>)
    requires multiset(order) == multiset(ps)
    requires Covers(ps, CandidateGraph(ps, ex), order)
    requires Complete(ps, CandidateGraph(ps, ex), order, xs)
    ensures IsValidDraw(ps, ex, xs)
    ensures Givers(xs) == order
  {
    assert |order| == |multiset(order)| == |multiset(ps)| == |ps|;
    assert Givers(xs) == order;
  }

  /** generateAssignments(participants, exclusions). */
  function GenerateAssignments(ps: seq<Participant>, ex: seq<Exclusion>, rng: Rng): (r: Option<seq<Assignment>>)
    ensures |ps| < 2 ==> r.None?
    ensures r.Some? ==> IsValidDraw(ps, ex, r.value)
    ensures r.Some? ==> Givers(r.value) == GiverOrder(ps, rng)
  {
    if |ps| < 2 then None
    else
      var graph := CandidateGraph(ps, ex);
      var sh := Shuffle(ps, rng, 0);
      DrawSetup(ps, ex, sh.0);
      var step := Backtrack(ps, graph, sh.0, 0, {}, [], rng, sh.1);
      if step.found.None? then None
      else
        CompleteIsValid(ps, ex, sh.0, step.found.value);
        step.found
  }

  /** An exclusion naming an id that is not a participant's is inert: the
      draw is exactly the same with or without it. */
  lemma InertExclusion(ps: seq<Participant>, ex: seq<Exclusion>, e: Exclusion, rng: Rng)
    requires !HasId(ps, e.fromId) || !HasId(ps, e.toId)
    ensures GenerateAssignments(ps, ex + [e], rng) == GenerateAssignments(ps, ex, rng)
  {
    var ex' := ex + [e];
    forall g | g in IdSet(ps) ensures ValidReceivers(ps, ex', g) == ValidReceivers(ps, ex, g) {
      assert forall p :: p in ps ==> (Excluded(ex', g, p.id) <==> Excluded(ex, g, p.id));
      ValidReceiversAgree(ps, ex', ex, g);
    }
    assert CandidateGraph(ps, ex') == CandidateGraph(ps, ex);
  }

  /** The giver-to-receiver map of a list of assignments (a later record for
      the same giver wins, as in a `Map`). */
  function PairingOf(xs: seq<Assignment>): (m: map<Id, Id>)
    ensures m.Keys == IdSet(Givers(xs))
    decreases |xs|
  {
    if |xs| == 0 then map[]
    else
      var init := xs[..|xs| - 1];
      var last := xs[|xs| - 1];
      assert Givers(xs) == Givers(init) + [last.giver];
      PairingOf(init)[last.giver.id := last.receiver.id]
  }

  /** With distinct giver ids, the map sends each giver to its own receiver. */
  lemma {:induction false} PairingLookup(xs: seq<Assignment>)
    requires UniqueIds(Givers(xs))
    ensures forall t :: 0 <= t < |xs| ==> PairingOf(xs)[xs[t].giver.id] == xs[t].receiver.id
    decreases |xs|
  {
    if |xs| > 0 {
      var init := xs[..|xs| - 1];
      var last := xs[|xs| - 1];
      assert UniqueIds(Givers(init)) by {
        forall i, j | 0 <= i < j < |init| ensures Givers(init)[i].id != Givers(init)[j].id {
          assert Givers(xs)[i] == Givers(init)[i] && Givers(xs)[j] == Givers(init)[j];
        }
      }
      PairingLookup(init);
      forall t | 0 <= t < |xs| ensures PairingOf(xs)[xs[t].giver.id] == xs[t].receiver.id {
        if t < |xs| - 1 {
          assert Givers(xs)[t].id != Givers(xs)[|xs| - 1].id;
          assert xs[t] == init[t];
        }
      }
    }
  }

  /** Soundness: under unique ids a valid list of assignments is a valid
      pairing of the participants. */
  lemma DrawSound(ps: seq<Participant>, ex: seq<Exclusion>, xs: seq<Assignment>)
    requires UniqueIds(ps) && IsValidDraw(ps, ex, xs)
    ensures IsValidPairing(ps, ex, PairingOf(xs))
  {
    var givers := Givers(xs);
    var m := PairingOf(xs);
    PermutationKeepsIds(givers, ps);
    PairingLookup(xs);
    forall g | g in m ensures exists t :: 0 <= t < |xs| && xs[t].giver.id == g {
      var p :| p in givers && p.id == g;
      var t :| 0 <= t < |givers| && givers[t] == p;
      assert xs[t].giver.id == g;
    }
    forall g | g in m ensures IsCandidate(ps, ex, g, m[g]) {
      var t :| 0 <= t < |xs| && xs[t].giver.id == g;
      assert xs[t].receiver in ps;
    }
    forall g1, g2 | g1 in m && g2 in m && g1 != g2 ensures m[g1] != m[g2] {
      var t1 :| 0 <= t1 < |xs| && xs[t1].giver.id == g1;
      var t2 :| 0 <= t2 < |xs| && xs[t2].giver.id == g2;
      assert ReceiverIds(xs)[t1] != ReceiverIds(xs)[t2];
    }
  }

  /** Every receiver being a participant, the receiver ids are participant ids. */
  lemma ReceiverIdsAreIds(ps: seq<Participant>, xs: seq<Assignment>)
    requires forall t :: 0 <= t < |xs| ==> xs[t].receiver in ps
    ensures Elems(ReceiverIds(xs)) <= IdSet(ps)
  {
    var rids := ReceiverIds(xs);
    forall id | id in Elems(rids) ensures id in IdSet(ps) {
      var t :| 0 <= t < |rids| && rids[t] == id;
      assert xs[t].receiver in ps;
    }
  }

  /** Pigeonhole: as many distinct receiver ids as participants, all of them
      participant ids, cover every participant when ids are unique. */
  lemma ReceiversCover(ps: seq<Participant>, xs: seq<Assignment>)
    requires UniqueIds(ps) && |xs| == |ps| && Distinct(ReceiverIds(xs))
    requires forall t :: 0 <= t < |xs| ==> xs[t].receiver in ps
    ensures forall p :: p in ps ==> exists t :: 0 <= t < |xs| && xs[t].receiver == p
    ensures forall t1, t2 :: 0 <= t1 < t2 < |xs| ==> xs[t1].receiver != xs[t2].receiver
  {
    var rids := ReceiverIds(xs);
    forall t1, t2 | 0 <= t1 < t2 < |xs| ensures xs[t1].receiver != xs[t2].receiver {
      assert rids[t1] != rids[t2];
    }
    ReceiverIdsAreIds(ps, xs);
    CardElems(rids);
    IdCard(ps);
    SubsetSameCard(Elems(rids), IdSet(ps));
    forall p | p in ps ensures exists t :: 0 <= t < |xs| && xs[t].receiver == p {
      assert p.id in Elems(rids);
      var t :| 0 <= t < |rids| && rids[t] == p.id;
      SameIdSameParticipant(ps, xs[t].receiver, p);
    }
  }

  /** The givers being a permutation of participants with unique ids, every
      participant gives, and no two records share a giver. */
  lemma GiversOnce(ps: seq<Participant>, xs: seq<Assignment>)
    requires UniqueIds(ps) && multiset(Givers(xs)) == multiset(ps)
    ensures forall p :: p in ps ==> exists t :: 0 <= t < |xs| && xs[t].giver == p
    ensures forall t1, t2 :: 0 <= t1 < t2 < |xs| ==> xs[t1].giver != xs[t2].giver
  {
    var givers := Givers(xs);
    PermutationKeepsIds(givers, ps);
    forall p | p in ps ensures exists t :: 0 <= t < |xs| && xs[t].giver == p {
      assert p in multiset(ps);
      assert p in givers;
      var t :| 0 <= t < |givers| && givers[t] == p;
    }
    forall t1, t2 | 0 <= t1 < t2 < |xs| ensures xs[t1].giver != xs[t2].giver {
      assert givers[t1].id != givers[t2].id;
    }
  }

  /** Under unique ids every participant gives exactly once and receives
      exactly once in a valid draw. */
  lemma ExactlyOnce(ps: seq<Participant>, ex: seq<Exclusion>, xs: seq<Assignment>)
    requires UniqueIds(ps) && IsValidDraw(ps, ex, xs)
    ensures forall p :: p in ps ==> exists t :: 0 <= t < |xs| && xs[t].giver == p
    ensures forall p :: p in ps ==> exists t :: 0 <= t < |xs| && xs[t].receiver == p
    ensures forall t1, t2 :: 0 <= t1 < t2 < |xs| ==> xs[t1].giver != xs[t2].giver
    ensures forall t1, t2 :: 0 <= t1 < t2 < |xs| ==> xs[t1].receiver != xs[t2].receiver
  {
    GiversOnce(ps, xs);
    ReceiversCover(ps, xs);
  }

  /** Completeness: whenever a valid pairing exists the draw returns one,
      for every random source. */
  lemma FoundWhenDrawExists(ps: seq<Participant>, ex: seq<Exclusion>, rng: Rng, m: map<Id, Id>)
    requires 2 <= |ps| && UniqueIds(ps) && IsValidPairing(ps, ex, m)
    ensures GenerateAssignments(ps, ex, rng).Some?
  {
    var sh := Shuffle(ps, rng, 0);
    DrawSetup(ps, ex, sh.0);
    PairingCompletes(ps, ex, sh.0, m);
    BacktrackComplete(ps, CandidateGraph(ps, ex), sh.0, 0, {}, [], rng, sh.1, ReceiversAlong(sh.0, m));
  }

  /** The receiver ids a pairing gives to the givers of a list, in list order. */
  function ReceiversAlong(order: seq<Participant>, m: map<Id, Id>): (rs: seq<Id>)
    requires forall p :: p in order ==> p.id in m
    ensures |rs| == |order|
    ensures forall t :: 0 <= t < |order| ==> rs[t] == m[order[t].id]
  {
    seq(|order|, t requires 0 <= t < |order| => m[order[t].id])
  }

  /** A valid pairing, read along any permutation of the participants, is a
      way to finish the empty stack. */
  lemma PairingCompletes(ps: seq<Participant>, ex: seq<Exclusion>, order: seq<Participant>, m: map<Id, Id>)
    requires multiset(order) == multiset(ps) && UniqueIds(ps) && IsValidPairing(ps, ex, m)
    requires Covers(ps, CandidateGraph(ps, ex), order)
    ensures forall p :: p in order ==> p.id in m
    ensures Completes(ps, CandidateGraph(ps, ex), order, 0, {}, ReceiversAlong(order, m))
  {
    var graph := CandidateGraph(ps, ex);
    PermutationKeepsIds(order, ps);
    assert forall p :: p in order ==> p.id in IdSet(order);
    var rs := ReceiversAlong(order, m);
    forall i, j | 0 <= i < j < |rs| ensures rs[i] != rs[j] {
      assert order[i].id != order[j].id;
    }
    forall t | 0 <= t < |rs| ensures rs[t] in graph[order[t].id] {
      assert IsCandidate(ps, ex, order[t].id, rs[t]);
    }
  }

  /** A valid draw exists only over participants with unique ids: n distinct
      receiver ids drawn from the participant ids need n participant ids. */
  lemma ValidDrawNeedsUniqueIds(ps: seq<Participant>, ex: seq<Exclusion>, xs: seq<Assignment>)
    requires IsValidDraw(ps, ex, xs)
    ensures UniqueIds(ps)
  {
    var rids := ReceiverIds(xs);
    ReceiverIdsAreIds(ps, xs);
    SubsetCard(Elems(rids), IdSet(ps));
    CardElems(rids);
    IdCard(ps);
  }

  /** With duplicate ids the draw always returns null. */
  lemma DuplicateIdsYieldNull(ps: seq<Participant>, ex: seq<Exclusion>, rng: Rng)
    requires !UniqueIds(ps)
    ensures GenerateAssignments(ps, ex, rng).None?
  {
    var r := GenerateAssignments(ps, ex, rng);
    if r.Some? {
      ValidDrawNeedsUniqueIds(ps, ex, r.value);
    }
  }

  /** The draw returns a result exactly when a valid pairing exists; a
      returned result is itself such a pairing. */
  lemma FoundIffDrawExists(ps: seq<Participant>, ex: seq<Exclusion>, rng: Rng)
    requires 2 <= |ps| && UniqueIds(ps)
    ensures GenerateAssignments(ps, ex, rng).Some? <==> DrawExists(ps, ex)
  {
    var r := GenerateAssignments(ps, ex, rng);
    if r.Some? {
      DrawSound(ps, ex, r.value);
    }
    if DrawExists(ps, ex) {
      var m :| IsValidPairing(ps, ex, m);
      FoundWhenDrawExists(ps, ex, rng, m);
    }
  }

  /** Whether a draw is found never depends on the random choices. */
  lemma OutcomeIndependentOfRandomness(ps: seq<Participant>, ex: seq<Exclusion>, rng1: Rng, rng2: Rng)
    ensures GenerateAssignments(ps, ex, rng1).Some? <==> GenerateAssignments(ps, ex, rng2).Some?
  {
    if !UniqueIds(ps) {
      DuplicateIdsYieldNull(ps, ex, rng1);
      DuplicateIdsYieldNull(ps, ex, rng2);
    } else if 2 <= |ps| {
      FoundIffDrawExists(ps, ex, rng1);
      FoundIffDrawExists(ps, ex, rng2);
    }
  }

  /** The position after i in a cyclic list of length n. */
  function Successor(n: nat, i: nat): (j: nat)
    requires i < n
    ensures j < n
    ensures 2 <= n ==> j != i
  {
    if i + 1 == n then 0 else i + 1
  }

  /** Each participant giving to the next one in list order. */
  function CyclicPairing(ps: seq<Participant>): (m: map<Id, Id>)
    ensures m.Keys == IdSet(ps)
  {
    IdViews(ps);
    map g | g in IdSet(ps) :: ps[Successor(|ps|, IndexOf(ps, g))].id
  }

  /** Under unique ids the cyclic pairing sends the i-th participant to the next. */
  lemma CyclicPairingLookup(ps: seq<Participant>, i: nat)
    requires UniqueIds(ps) && i < |ps|
    ensures ps[i].id in CyclicPairing(ps)
    ensures CyclicPairing(ps)[ps[i].id] == ps[Successor(|ps|, i)].id
  {
    IndexOfUnique(ps, i);
    IdViews(ps);
  }

  /** The cyclic shift sends each participant to a different, listed one. */
  lemma CyclicStepLegal(ps: seq<Participant>, g: Id)
    requires 2 <= |ps| && UniqueIds(ps) && g in CyclicPairing(ps)
    ensures IsCandidate(ps, [], g, CyclicPairing(ps)[g])
  {
    assert HasId(ps, g);
    var i := IndexOf(ps, g);
    CyclicPairingLookup(ps, i);
    var j := Successor(|ps|, i);
    assert ps[j] in ps;
    assert ps[i].id != ps[j].id;
  }

  /** Distinct givers get distinct receivers under the cyclic shift. */
  lemma CyclicStepInjective(ps: seq<Participant>, g1: Id, g2: Id)
    requires UniqueIds(ps) && g1 in CyclicPairing(ps) && g2 in CyclicPairing(ps) && g1 != g2
    ensures CyclicPairing(ps)[g1] != CyclicPairing(ps)[g2]
  {
    assert HasId(ps, g1) && HasId(ps, g2);
    var i1 := IndexOf(ps, g1);
    var i2 := IndexOf(ps, g2);
    CyclicPairingLookup(ps, i1);
    CyclicPairingLookup(ps, i2);
    assert Successor(|ps|, i1) != Successor(|ps|, i2);
  }

  /** The cyclic shift is a derangement, so it is a valid pairing when there
      are no exclusions. */
  lemma CyclicPairingValid(ps: seq<Participant>)
    requires 2 <= |ps| && UniqueIds(ps)
    ensures IsValidPairing(ps, [], CyclicPairing(ps))
  {
    var m := CyclicPairing(ps);
    forall g | g in m ensures IsCandidate(ps, [], g, m[g]) {
      CyclicStepLegal(ps, g);
    }
    forall g1, g2 | g1 in m && g2 in m && g1 != g2 ensures m[g1] != m[g2] {
      CyclicStepInjective(ps, g1, g2);
    }
  }

  /** Without exclusions, two or more participants always get a draw. */
  lemma NoExclusionsAlwaysDraws(ps: seq<Participant>, rng: Rng)
    requires 2 <= |ps| && UniqueIds(ps)
    ensures GenerateAssignments(ps, [], rng).Some?
  {
    CyclicPairingValid(ps);
    FoundWhenDrawExists(ps, [], rng, CyclicPairing(ps));
  }

  /** Two participants with the exclusion A -> B cannot be drawn: the only
      derangement of two is the swap, and it is forbidden. */
  lemma TwoWithExclusionIsInfeasible(a: Participant, b: Participant, ex: seq<Exclusion>, rng: Rng)
    requires Excluded(ex, a.id, b.id)
    ensures GenerateAssignments([a, b], ex, rng).None?
  {
    var ps := [a, b];
    if a.id == b.id {
      assert ps[0].id == ps[1].id;
      DuplicateIdsYieldNull(ps, ex, rng);
    } else {
      forall m: map<Id, Id> ensures !IsValidPairing(ps, ex, m) {
        if m.Keys == IdSet(ps) {
          assert a.id in IdSet(ps);
          assert !IsCandidate(ps, ex, a.id, m[a.id]);
        }
      }
      FoundIffDrawExists(ps, ex, rng);
    }
  }
}
