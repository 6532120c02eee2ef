/** The state handlers of the main page (src/pages/Index.tsx): adding and
    removing participants and exclusions, and performing the draw. React's
    `useState` pairs become one immutable `State`; each handler is a function
    from the old state to the new one. Toasts are left out, and so are the
    random UUIDs: a handler that mints an id takes it as a parameter. */
module Page {
  import opened Seqs
  import opened Types
  import opened Shuffling
  import opened Search
  import opened Draw

  datatype State = State(participants: seq<Participant>, exclusions: seq<Exclusion>,
                         assignments: Option<seq<Assignment>>, emailsSent: bool)

  /** The page's initial state. */
  const Initial: State := State([], [], None, false)

  /** Every exclusion names existing participants (referential integrity,
      which the page does not keep: see `StalePickDangles`). */
  ghost predicate ExclusionsResolve(s: State) {
    forall e :: e in s.exclusions ==> HasId(s.participants, e.fromId) && HasId(s.participants, e.toId)
  }

  predicate DifferentPair(a: Exclusion, b: Exclusion) {
    a.fromId != b.fromId || a.toId != b.toId
  }

  predicate DifferentIds(a: Participant, b: Participant) {
    a.id != b.id
  }

  /** What the page keeps true: unique participant ids, never a participant
      excluded from themselves, no (fromId, toId) pair listed twice, and a
      displayed draw that is valid for the current participants and
      exclusions. An exclusion may name a participant who is gone; the draw
      ignores it (`Draw.InertExclusion`). */
  ghost predicate Consistent(s: State) {
    && UniqueIds(s.participants)
    && (forall e :: e in s.exclusions ==> e.fromId != e.toId)
    && Pairwise(s.exclusions, DifferentPair)
    && (s.assignments.Some? ==> IsValidDraw(s.participants, s.exclusions, s.assignments.value))
  }

  lemma InitialConsistent()
    ensures Consistent(Initial) && ExclusionsResolve(Initial)
  {
  }

  lemma UniqueIdsPairwise(ps: seq<Participant>)
    ensures UniqueIds(ps) <==> Pairwise(ps, DifferentIds)
  {
  }

  /** addParticipant(name, email), with `newId` standing for crypto.randomUUID(). */
  function AddParticipant(s: State, name: string, email: string, newId: Id): (r: State)
    ensures |r.participants| == |s.participants| + 1
    ensures r.participants[..|s.participants|] == s.participants
    ensures r.participants[|s.participants|] == Participant(newId, name, email)
    ensures r.exclusions == s.exclusions
    ensures r.assignments.None? && !r.emailsSent
    ensures Consistent(s) && !HasId(s.participants, newId) ==> Consistent(r)
    ensures ExclusionsResolve(s) ==> ExclusionsResolve(r)
  {
    var ps := s.participants + [Participant(newId, name, email)];
    assert forall id :: HasId(s.participants, id) ==> HasId(ps, id);
    State(ps, s.exclusions, None, false)
  }

  /** removeParticipant(id): the participant goes, and so does every
      exclusion that names it on either side. */
  function RemoveParticipant(s: State, id: Id): (r: State)
    ensures forall p :: p in r.participants <==> p in s.participants && p.id != id
    ensures !HasId(r.participants, id)
    ensures forall e :: e in r.exclusions <==> e in s.exclusions && e.fromId != id && e.toId != id
    ensures r.assignments.None? && !r.emailsSent
    ensures Consistent(s) ==> Consistent(r)
    ensures ExclusionsResolve(s) ==> ExclusionsResolve(r)
  {
    var ps := Filter(s.participants, (p: Participant) => p.id != id);
    var ex := Filter(s.exclusions, (e: Exclusion) => e.fromId != id && e.toId != id);
    var r := State(ps, ex, None, false);
    assert Consistent(s) ==> Consistent(r) by {
      if Consistent(s) {
        UniqueIdsPairwise(s.participants);
        FilterPairwise(s.participants, (p: Participant) => p.id != id, DifferentIds);
        UniqueIdsPairwise(ps);
        FilterPairwise(s.exclusions, (e: Exclusion) => e.fromId != id && e.toId != id, DifferentPair);
      }
    }
    assert ExclusionsResolve(s) ==> ExclusionsResolve(r) by {
      if ExclusionsResolve(s) {
        forall e | e in ex ensures HasId(ps, e.fromId) && HasId(ps, e.toId) {
          var p :| p in s.participants && p.id == e.fromId;
          var q :| q in s.participants && q.id == e.toId;
          assert p in ps && q in ps;
        }
      }
    }
    r
  }

  /** addExclusion(fromId, toId), with `newId` standing for crypto.randomUUID():
      a pair already present leaves the state untouched; a new pair is
      appended and clears the draw. */
  function AddExclusion(s: State, fromId: Id, toId: Id, newId: Id): (r: State)
    ensures Excluded(s.exclusions, fromId, toId) ==> r == s
    ensures !Excluded(s.exclusions, fromId, toId) ==>
              && r.exclusions == s.exclusions + [Exclusion(newId, fromId, toId)]
              && r.participants == s.participants
              && r.assignments.None? && !r.emailsSent
    ensures forall g, t :: Excluded(r.exclusions, g, t) <==> Excluded(s.exclusions, g, t) || (g == fromId && t == toId)
    ensures Consistent(s) && fromId != toId ==> Consistent(r)
    ensures (ExclusionsResolve(s) && HasId(s.participants, fromId) && HasId(s.participants, toId))
            ==> ExclusionsResolve(r)
  {
    if Excluded(s.exclusions, fromId, toId) then s
    else
      var e := Exclusion(newId, fromId, toId);
      var ex := s.exclusions + [e];
      assert forall x :: x in ex <==> x in s.exclusions || x == e;
      assert Pairwise(s.exclusions, DifferentPair) ==> Pairwise(ex, DifferentPair) by {
        if Pairwise(s.exclusions, DifferentPair) {
          forall i, j | 0 <= i < j < |ex| ensures DifferentPair(ex[i], ex[j]) {
            if j == |s.exclusions| {
              assert ex[i] in s.exclusions;
            } else {
              assert ex[i] == s.exclusions[i] && ex[j] == s.exclusions[j];
            }
          }
        }
      }
      State(s.participants, ex, None, false)
  }

  /** Adding the same pair twice is the same as adding it once. */
  lemma AddExclusionIdempotent(s: State, fromId: Id, toId: Id, id1: Id, id2: Id)
    ensures AddExclusion(AddExclusion(s, fromId, toId, id1), fromId, toId, id2)
            == AddExclusion(s, fromId, toId, id1)
  {
  }

  /** removeExclusion(id): drops the exclusions with that id and clears the
      draw, but leaves the emails-sent flag as it was. */
  function RemoveExclusion(s: State, id: Id): (r: State)
    ensures r.participants == s.participants
    ensures forall e :: e in r.exclusions <==> e in s.exclusions && e.id != id
    ensures r.assignments.None? && r.emailsSent == s.emailsSent
    ensures Consistent(s) ==> Consistent(r)
    ensures ExclusionsResolve(s) ==> ExclusionsResolve(r)
  {
    var ex := Filter(s.exclusions, (e: Exclusion) => e.id != id);
    assert Pairwise(s.exclusions, DifferentPair) ==> Pairwise(ex, DifferentPair) by {
      if Pairwise(s.exclusions, DifferentPair) {
        FilterPairwise(s.exclusions, (e: Exclusion) => e.id != id, DifferentPair);
      }
    }
    State(s.participants, ex, None, s.emailsSent)
  }

  /** performDraw(): refuses fewer than two participants; otherwise stores the
      algorithm's result when there is one and keeps everything otherwise. */
  function PerformDraw(s: State, rng: Rng): (r: State)
    ensures |s.participants| < 2 ==> r == s
    ensures r.participants == s.participants && r.exclusions == s.exclusions
    ensures r == s || (r.assignments.Some? && IsValidDraw(s.participants, s.exclusions, r.assignments.value) && !r.emailsSent)
    ensures (UniqueIds(s.participants) && 2 <= |s.participants| && DrawExists(s.participants, s.exclusions))
            ==> r.assignments.Some? && IsValidDraw(s.participants, s.exclusions, r.assignments.value)
    ensures UniqueIds(s.participants) && !DrawExists(s.participants, s.exclusions) ==> r == s
    ensures Consistent(s) ==> Consistent(r)
  {
    if |s.participants| < 2 then s
    else
      var result := GenerateAssignments(s.participants, s.exclusions, rng);
      assert UniqueIds(s.participants) ==> (result.Some? <==> DrawExists(s.participants, s.exclusions)) by {
        if UniqueIds(s.participants) {
          FoundIffDrawExists(s.participants, s.exclusions, rng);
        }
      }
      match result
      case None => s
      case Some(xs) => s.(assignments := Some(xs), emailsSent := false)
  }

  /** One user action; ids minted by the page are carried in the action. */
  datatype Action =
    | AddPerson(name: string, email: string, newId: Id)
    | RemovePerson(id: Id)
    | Exclude(fromId: Id, toId: Id, newId: Id)
    | Unexclude(id: Id)
    | DrawNow(rng: Rng)

  /** What the page's forms and pickers let through: a fresh UUID for a new
      participant, and for an exclusion two non-empty, different picks. The
      picks are the exclusion manager's own state and are not re-checked
      against the current list, so they may name a removed participant. */
  predicate Allowed(s: State, a: Action) {
    match a
    case AddPerson(_, _, newId) => !HasId(s.participants, newId)
    case Exclude(f, t, _) => f != "" && t != "" && f != t
    case _ => true
  }

  function Apply(s: State, a: Action): State {
    match a
    case AddPerson(name, email, newId) => AddParticipant(s, name, email, newId)
    case RemovePerson(id) => RemoveParticipant(s, id)
    case Exclude(f, t, newId) => AddExclusion(s, f, t, newId)
    case Unexclude(id) => RemoveExclusion(s, id)
    case DrawNow(rng) => PerformDraw(s, rng)
  }

  /** Replays the actions, stopping with None at the first one the page
      would not let through. */
  function Run(s: State, acts: seq<Action>): Option<State>
    decreases |acts|
  {
    if |acts| == 0 then Some(s)
    else if !Allowed(s, acts[0]) then None
    else Run(Apply(s, acts[0]), acts[1..])
  }

  /** Every state the page keeps consistent stays consistent under any
      sequence of actions the page lets through. */
  lemma {:induction false} RunKeepsConsistent(s: State, acts: seq<Action>)
    requires Consistent(s)
    ensures Run(s, acts).Some? ==> Consistent(Run(s, acts).value)
    decreases |acts|
  {
    if |acts| > 0 && Allowed(s, acts[0]) {
      RunKeepsConsistent(Apply(s, acts[0]), acts[1..]);
    }
  }

  /** Every state the page can reach from its initial state is consistent; in
      particular a displayed draw always matches the current participants and
      exclusions. */
  lemma ReachableConsistent(acts: seq<Action>)
    ensures Run(Initial, acts).Some? ==> Consistent(Run(Initial, acts).value)
  {
    InitialConsistent();
    RunKeepsConsistent(Initial, acts);
  }

  /** Add A, B and C; pick A -> B in the exclusion manager; remove A; press
      the add button. The picks survive the removal. */
  const StalePickPath: seq<Action> := [
    AddPerson("A", "a@example.com", "a"),
    AddPerson("B", "b@example.com", "b"),
    AddPerson("C", "c@example.com", "c"),
    RemovePerson("a"),
    Exclude("a", "b", "e")
  ]

  /** One step of a replay. */
  lemma RunStep(s: State, acts: seq<Action>)
    requires |acts| > 0 && Allowed(s, acts[0])
    ensures Run(s, acts) == Run(Apply(s, acts[0]), acts[1..])
  {
  }

  /** As written, the page can store an exclusion naming a participant who
      is no longer listed. */
  lemma StalePickDangles()
    ensures Run(Initial, StalePickPath).Some?
    ensures !ExclusionsResolve(Run(Initial, StalePickPath).value)
  {
    var acts := StalePickPath;
    var s1 := AddParticipant(Initial, "A", "a@example.com", "a");
    RunStep(Initial, acts);
    var s2 := AddParticipant(s1, "B", "b@example.com", "b");
    assert !HasId(s1.participants, "b");
    RunStep(s1, acts[1..]);
    var s3 := AddParticipant(s2, "C", "c@example.com", "c");
    assert !HasId(s2.participants, "c");
    RunStep(s2, acts[2..]);
    var s4 := RemoveParticipant(s3, "a");
    RunStep(s3, acts[3..]);
    assert s4.exclusions == [];
    var s5 := AddExclusion(s4, "a", "b", "e");
    RunStep(s4, acts[4..]);
    assert Exclusion("e", "a", "b") in s5.exclusions;
    assert acts[5..] == [];
  }

  /** addExclusion as the page evidently means it: a pair naming someone who
      is no longer listed is refused, like a pair already present. */
  function AddListedExclusion(s: State, fromId: Id, toId: Id, newId: Id): (r: State)
    ensures !HasId(s.participants, fromId) || !HasId(s.participants, toId) ==> r == s
    ensures HasId(s.participants, fromId) && HasId(s.participants, toId) ==> r == AddExclusion(s, fromId, toId, newId)
    ensures ExclusionsResolve(s) ==> ExclusionsResolve(r)
    ensures Consistent(s) && fromId != toId ==> Consistent(r)
  {
    if HasId(s.participants, fromId) && HasId(s.participants, toId) then AddExclusion(s, fromId, toId, newId)
    else s
  }

  /** One action with the corrected exclusion handler. */
  function ApplyListed(s: State, a: Action): State {
    match a
    case Exclude(f, t, newId) => AddListedExclusion(s, f, t, newId)
    case _ => Apply(s, a)
  }

  /** Replays the actions with the corrected exclusion handler. */
  function RunListed(s: State, acts: seq<Action>): Option<State>
    decreases |acts|
  {
    if |acts| == 0 then Some(s)
    else if !Allowed(s, acts[0]) then None
    else RunListed(ApplyListed(s, acts[0]), acts[1..])
  }

  /** With the corrected handler the page keeps its invariant and, in
      addition, every exclusion names listed participants. */
  lemma {:induction false} RunListedKeepsResolved(s: State, acts: seq<Action>)
    requires Consistent(s) && ExclusionsResolve(s)
    ensures RunListed(s, acts).Some? ==> Consistent(RunListed(s, acts).value) && ExclusionsResolve(RunListed(s, acts).value)
    decreases |acts|
  {
    if |acts| > 0 && Allowed(s, acts[0]) {
      RunListedKeepsResolved(ApplyListed(s, acts[0]), acts[1..]);
    }
  }

  /** Every state reachable with the corrected handler resolves its exclusions. */
  lemma ReachableResolved(acts: seq<Action>)
    ensures RunListed(Initial, acts).Some? ==> ExclusionsResolve(RunListed(Initial, acts).value)
  {
    InitialConsistent();
    RunListedKeepsResolved(Initial, acts);
  }
}
