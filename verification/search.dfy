/** The depth-first backtracking search of `generateAssignments`.

    The source keeps two mutable structures, `assignments` (a stack of
    giver/receiver records) and `usedReceivers` (the receiver ids on that
    stack), pushes before recursing and pops on failure. Here both are
    immutable parameters: a failed branch leaves the caller's values exactly
    as they were by construction. The counter `k` is the number of the next
    call to the random source; every call, including the ones made inside
    branches that later fail, advances it. */
module Search {
  import opened Seqs
  import opened Types
  import opened Shuffling

  function Givers(xs: seq<Assignment>): (r: seq<Participant>)
    ensures |r| == |xs|
    ensures forall t :: 0 <= t < |xs| ==> r[t] == xs[t].giver
  {
    seq(|xs|, t requires 0 <= t < |xs| => xs[t].giver)
  }

  function ReceiverIds(xs: seq<Assignment>): (r: seq<Id>)
    ensures |r| == |xs|
    ensures forall t :: 0 <= t < |xs| ==> r[t] == xs[t].receiver.id
  {
    seq(|xs|, t requires 0 <= t < |xs| => xs[t].receiver.id)
  }

  /** `participants.find(p => p.id === id)!`: the first participant with the id. */
  function Find(ps: seq<Participant>, id: Id): (p: Participant)
    requires HasId(ps, id)
    ensures p in ps && p.id == id
    ensures forall q :: q in ps && q.id == id ==> UniqueIds(ps) ==> q == p
  {
    ps[IndexOf(ps, id)]
  }

  /** The candidate graph names every giver of the search order, and every
      receiver it lists is some participant's id (so `find` succeeds). */
  ghost predicate Covers(ps: seq<Participant>, graph: map<Id, seq<Id>>, order: seq<Participant>) {
    && (forall p :: p in order ==> p.id in graph)
    && (forall g, r :: g in graph && r in graph[g] ==> HasId(ps, r))
  }

  /** The state on entry to `backtrack(index)`: the stack holds one record per
      giver already visited, in the search order, each receiver legal for its
      giver, no receiver twice, and `used` is exactly the set of receiver ids
      on the stack. */
  ghost predicate Partial(ps: seq<Participant>, graph: map<Id, seq<Id>>, order: seq<Participant>,
                          index: nat, used: set<Id>, acc: seq<Assignment>)
    requires Covers(ps, graph, order)
  {
    && index == |acc| <= |order|
    && (forall t :: 0 <= t < index ==> acc[t].giver == order[t])
    && (forall t :: 0 <= t < index ==> acc[t].receiver in ps && acc[t].receiver.id in graph[order[t].id])
    && Distinct(ReceiverIds(acc))
    && used == Elems(ReceiverIds(acc))
  }

  /** A finished stack: every giver of the order has a legal, distinct receiver. */
  ghost predicate Complete(ps: seq<Participant>, graph: map<Id, seq<Id>>, order: seq<Participant>,
                           xs: seq<Assignment>)
    requires Covers(ps, graph, order)
  {
    Partial(ps, graph, order, |order|, Elems(ReceiverIds(xs)), xs)
  }

  /** Pushing a legal unused receiver for the next giver keeps the invariant. */
  lemma PartialStep(ps: seq<Participant>, graph: map<Id, seq<Id>>, order: seq<Participant>,
                    index: nat, used: set<Id>, acc: seq<Assignment>, id: Id)
    requires Covers(ps, graph, order)
    requires index < |order| && Partial(ps, graph, order, index, used, acc)
    requires id in graph[order[index].id] && id !in used
    ensures HasId(ps, id)
    ensures Partial(ps, graph, order, index + 1, used + {id},
                    acc + [Assignment(order[index], Find(ps, id))])
  {
    var acc' := acc + [Assignment(order[index], Find(ps, id))];
    assert ReceiverIds(acc') == ReceiverIds(acc) + [id];
    assert Elems(ReceiverIds(acc')) == Elems(ReceiverIds(acc)) + {id};
  }

  /** The outcome of a search call and the number of the next random call. */
  datatype Step = Step(found: Option<seq<Assignment>>, next: nat)

  /** `backtrack(index)`: on success the stack is extended to a complete
      assignment, never rewriting what was already committed. */
  function Backtrack(ps: seq<Participant>, graph: map<Id, seq<Id>>, order: seq<Participant>,
                     index: nat, used: set<Id>, acc: seq<Assignment>, rng: Rng, k: nat): (r: Step)
    requires Covers(ps, graph, order)
    requires Partial(ps, graph, order, index, used, acc)
    ensures r.found.Some? ==> Complete(ps, graph, order, r.found.value) && acc <= r.found.value
    decreases |order| - index, 1, 0
  {
    if index == |order| then Step(Some(acc), k)
    else
      var giver := order[index];
      var sh := Shuffle(Filter(graph[giver.id], id => id !in used), rng, k);
      ShuffleKeepsElems(Filter(graph[giver.id], id => id !in used), rng, k);
      TryEach(ps, graph, order, index, used, acc, sh.0, 0, rng, sh.1)
  }

  /** The loop `for (const receiverId of candidates)` from position ci on:
      commit the candidate, recurse, and on failure move to the next one. */
  function TryEach(ps: seq<Participant>, graph: map<Id, seq<Id>>, order: seq<Participant>,
                   index: nat, used: set<Id>, acc: seq<Assignment>,
                   cands: seq<Id>, ci: nat, rng: Rng, k: nat): (r: Step)
    requires Covers(ps, graph, order)
    requires index < |order| && Partial(ps, graph, order, index, used, acc)
    requires ci <= |cands|
    requires forall c :: c in cands ==> c in graph[order[index].id] && c !in used
    ensures r.found.Some? ==> Complete(ps, graph, order, r.found.value) && acc <= r.found.value
    decreases |order| - index, 0, |cands| - ci
  {
    if ci == |cands| then Step(None, k)
    else
      var id := cands[ci];
      PartialStep(ps, graph, order, index, used, acc, id);
      var sub := Backtrack(ps, graph, order, index + 1, used + {id},
                           acc + [Assignment(order[index], Find(ps, id))], rng, k);
      if sub.found.Some? then sub
      else TryEach(ps, graph, order, index, used, acc, cands, ci + 1, rng, sub.next)
  }

  /** rs is a way to finish the stack from `index` on: a legal, distinct,
      not-yet-used receiver id for each remaining giver. */
  ghost predicate Completes(ps: seq<Participant>, graph: map<Id, seq<Id>>, order: seq<Participant>,
                            index: nat, used: set<Id>, rs: seq<Id>)
    requires Covers(ps, graph, order)
    requires index <= |order|
  {
    && |rs| == |order| - index
    && Distinct(rs)
    && forall t :: 0 <= t < |rs| ==> rs[t] !in used && rs[t] in graph[order[index + t].id]
  }

  /** Taking the first choice of a completion leaves a completion of the rest. */
  lemma CompletesStep(ps: seq<Participant>, graph: map<Id, seq<Id>>, order: seq<Participant>,
                      index: nat, used: set<Id>, rs: seq<Id>)
    requires Covers(ps, graph, order)
    requires index < |order| && Completes(ps, graph, order, index, used, rs)
    ensures Completes(ps, graph, order, index + 1, used + {rs[0]}, rs[1..])
  {
    var tail := rs[1..];
    forall t | 0 <= t < |tail| ensures tail[t] !in used + {rs[0]} {
      assert tail[t] == rs[t + 1];
    }
    forall t | 0 <= t < |tail| ensures tail[t] in graph[order[index + 1 + t].id] {
      assert tail[t] == rs[t + 1];
    }
  }

  /** Completeness of `backtrack(index)`: whenever the stack can be finished
      at all, the search finishes it, whatever the random source. */
  lemma {:induction false} BacktrackComplete(ps: seq<Participant>, graph: map<Id, seq<Id>>, order: seq<Participant>,
                                             index: nat, used: set<Id>, acc: seq<Assignment>, rng: Rng, k: nat,
                                             rs: seq<Id>)
    requires Covers(ps, graph, order)
    requires Partial(ps, graph, order, index, used, acc)
    requires Completes(ps, graph, order, index, used, rs)
    ensures Backtrack(ps, graph, order, index, used, acc, rng, k).found.Some?
    decreases |order| - index, 1, 0
  {
    if index < |order| {
      var giver := order[index];
      var filtered := Filter(graph[giver.id], id => id !in used);
      var sh := Shuffle(filtered, rng, k);
      ShuffleKeepsElems(filtered, rng, k);
      assert rs[0] in sh.0;
      var j :| 0 <= j < |sh.0| && sh.0[j] == rs[0];
      TryEachComplete(ps, graph, order, index, used, acc, sh.0, 0, rng, sh.1, rs, j);
    }
  }

  /** Completeness of the candidate loop: if a way to finish the stack starts
      with the candidate at position j >= ci, the loop from ci on succeeds. */
  lemma {:induction false} TryEachComplete(ps: seq<Participant>, graph: map<Id, seq<Id>>, order: seq<Participant>,
                                           index: nat, used: set<Id>, acc: seq<Assignment>,
                                           cands: seq<Id>, ci: nat, rng: Rng, k: nat, rs: seq<Id>, j: nat)
    requires Covers(ps, graph, order)
    requires index < |order| && Partial(ps, graph, order, index, used, acc)
    requires ci <= j < |cands|
    requires forall c :: c in cands ==> c in graph[order[index].id] && c !in used
    requires Completes(ps, graph, order, index, used, rs) && cands[j] == rs[0]
    ensures TryEach(ps, graph, order, index, used, acc, cands, ci, rng, k).found.Some?
    decreases |order| - index, 0, |cands| - ci
  {
    var id := cands[ci];
    PartialStep(ps, graph, order, index, used, acc, id);
    var acc' := acc + [Assignment(order[index], Find(ps, id))];
    var sub := Backtrack(ps, graph, order, index + 1, used + {id}, acc', rng, k);
    if ci == j {
      CompletesStep(ps, graph, order, index, used, rs);
      BacktrackComplete(ps, graph, order, index + 1, used + {id}, acc', rng, k, rs[1..]);
    } else if sub.found.None? {
      TryEachComplete(ps, graph, order, index, used, acc, cands, ci + 1, rng, sub.next, rs, j);
    }
  }
}
