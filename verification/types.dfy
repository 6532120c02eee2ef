/** The records of the gift-exchange application: participants, directed
    exclusions and giver/receiver assignments, plus the id-level views of a
    participant list that the draw and the page handlers share. */
module Types {
  import opened Seqs

  /** Participant and exclusion ids are opaque strings (UUIDs in the application). */
  type Id = string

  datatype Participant = Participant(id: Id, name: string, email: string)

  /** "fromId must not give a gift to toId". */
  datatype Exclusion = Exclusion(id: Id, fromId: Id, toId: Id)

  datatype Assignment = Assignment(giver: Participant, receiver: Participant)

  /** The absent-or-present value the source writes as `T | null`. */
  datatype Option<T> = None | Some(value: T)

  /** The ids of a participant list, position by position. */
  function Ids(ps: seq<Participant>): (r: seq<Id>)
    ensures |r| == |ps|
    ensures forall t :: 0 <= t < |ps| ==> r[t] == ps[t].id
  {
    seq(|ps|, t requires 0 <= t < |ps| => ps[t].id)
  }

  function IdSet(ps: seq<Participant>): set<Id> {
    set p | p in ps :: p.id
  }

  predicate HasId(ps: seq<Participant>, id: Id) {
    exists p :: p in ps && p.id == id
  }

  /** No two participants share an id (the application draws ids from crypto.randomUUID). */
  predicate UniqueIds(ps: seq<Participant>) {
    forall i, j :: 0 <= i < j < |ps| ==> ps[i].id != ps[j].id
  }

  /** Some exclusion forbids giver g from giving to receiver r. */
  predicate Excluded(ex: seq<Exclusion>, g: Id, r: Id) {
    exists e :: e in ex && e.fromId == g && e.toId == r
  }

  /** The three views of the ids of a participant list agree. */
  lemma IdViews(ps: seq<Participant>)
    ensures IdSet(ps) == Elems(Ids(ps))
    ensures forall id :: HasId(ps, id) <==> id in IdSet(ps)
    ensures UniqueIds(ps) <==> Distinct(Ids(ps))
  {
    var ids := Ids(ps);
    forall id | id in IdSet(ps) ensures id in Elems(ids) {
      var p :| p in ps && p.id == id;
      var t :| 0 <= t < |ps| && ps[t] == p;
      assert ids[t] == id;
    }
    forall id | id in Elems(ids) ensures id in IdSet(ps) {
      var t :| 0 <= t < |ids| && ids[t] == id;
      assert ps[t] in ps;
    }
    assert UniqueIds(ps) <==> Distinct(ids);
  }

  /** A list has at most as many ids as participants, exactly as many when
      the ids are unique. */
  lemma IdCard(ps: seq<Participant>)
    ensures |IdSet(ps)| <= |ps|
    ensures UniqueIds(ps) <==> |IdSet(ps)| == |ps|
  {
    IdViews(ps);
    CardElems(Ids(ps));
  }

  /** The position of the first participant with the given id. */
  function IndexOf(ps: seq<Participant>, id: Id): (i: nat)
    requires HasId(ps, id)
    ensures i < |ps| && ps[i].id == id
    ensures forall j :: 0 <= j < i ==> ps[j].id != id
  {
    if ps[0].id == id then 0
    else
      assert forall q :: q in ps && q != ps[0] ==> q in ps[1..];
      1 + IndexOf(ps[1..], id)
  }

  /** Under unique ids, the position of a participant's id is its own position. */
  lemma IndexOfUnique(ps: seq<Participant>, i: nat)
    requires UniqueIds(ps) && i < |ps|
    ensures HasId(ps, ps[i].id)
    ensures IndexOf(ps, ps[i].id) == i
  {
    assert ps[i] in ps;
  }

  /** Two lists holding the same participants (as multisets) have the same
      ids, and one has unique ids exactly when the other does. */
  lemma PermutationKeepsIds(a: seq<Participant>, b: seq<Participant>)
    requires multiset(a) == multiset(b)
    ensures IdSet(a) == IdSet(b)
    ensures UniqueIds(a) <==> UniqueIds(b)
  {
    assert |a| == |multiset(a)| == |multiset(b)| == |b|;
    forall p ensures p in a <==> p in b {
      assert p in a <==> p in multiset(a);
      assert p in b <==> p in multiset(b);
    }
    IdViews(a);
    IdViews(b);
    IdCard(a);
    IdCard(b);
  }

  /** Under unique ids, a participant is determined by its id. */
  lemma SameIdSameParticipant(ps: seq<Participant>, p: Participant, q: Participant)
    requires UniqueIds(ps) && p in ps && q in ps && p.id == q.id
    ensures p == q
  {
    var i :| 0 <= i < |ps| && ps[i] == p;
    var j :| 0 <= j < |ps| && ps[j] == q;
    assert i == j;
  }
}
