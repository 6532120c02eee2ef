/** The candidate graph: for each giver, the receivers it may legally draw. */
module Candidates {
  import opened Seqs
  import opened Types

  /** r is a legal receiver for giver g: some participant's id, not g itself,
      and not named by an exclusion (g, r). */
  predicate IsCandidate(ps: seq<Participant>, ex: seq<Exclusion>, g: Id, r: Id) {
    HasId(ps, r) && r != g && !Excluded(ex, g, r)
  }

  /** The receiver set built for giver g, in the insertion order of a JS `Set`:
      participant order, each id kept at its first occurrence. */
  function ValidReceivers(ps: seq<Participant>, ex: seq<Exclusion>, g: Id): (r: seq<Id>)
    ensures Distinct(r)
    ensures forall id :: id in r <==> IsCandidate(ps, ex, g, id)
    decreases |ps|
  {
    if |ps| == 0 then []
    else
      var init := ps[..|ps| - 1];
      var last := ps[|ps| - 1];
      var prev := ValidReceivers(init, ex, g);
      assert ps == init + [last];
      assert forall id :: HasId(ps, id) <==> HasId(init, id) || last.id == id;
      if last.id != g && !Excluded(ex, g, last.id) && last.id !in prev then prev + [last.id]
      else prev
  }

  /** The receiver list for g depends on the exclusions only through which
      participants they forbid g to draw. */
  lemma {:induction false} ValidReceiversAgree(ps: seq<Participant>, ex1: seq<Exclusion>, ex2: seq<Exclusion>, g: Id)
    requires forall p :: p in ps ==> (Excluded(ex1, g, p.id) <==> Excluded(ex2, g, p.id))
    ensures ValidReceivers(ps, ex1, g) == ValidReceivers(ps, ex2, g)
    decreases |ps|
  {
    if |ps| > 0 {
      var init := ps[..|ps| - 1];
      assert forall p :: p in init ==> p in ps;
      ValidReceiversAgree(init, ex1, ex2, g);
      assert ps[|ps| - 1] in ps;
    }
  }

  /** The map `validReceivers`: one entry per participant id. */
  function CandidateGraph(ps: seq<Participant>, ex: seq<Exclusion>): (m: map<Id, seq<Id>>)
    ensures m.Keys == IdSet(ps)
    ensures forall g, r :: g in m ==> (r in m[g] <==> IsCandidate(ps, ex, g, r))
    ensures forall g :: g in m ==> Distinct(m[g])
  {
    map g | g in IdSet(ps) :: ValidReceivers(ps, ex, g)
  }
}
