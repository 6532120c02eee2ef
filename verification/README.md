# Secret Santa draw — a Dafny model

This project models the gift-exchange draw of a small Secret Santa web app and
proves properties of the model. There are two parts.

- **The draw.** `generateAssignments` (src/utils/secretSantaAlgorithm.ts) works
  in three stages. It builds, for every giver, the list of legal receivers:
  every other participant not named by an exclusion `(fromId, toId)`. It
  shuffles a copy of the participant list with Fisher–Yates to fix the giver
  order. It then runs a depth-first backtracking search. The search tracks the
  receivers already used, and it shuffles each giver's remaining candidates
  before trying them. The result is a list of `{giver, receiver}` records or
  `null`.
- **The page state.** The handlers of src/pages/Index.tsx (`addParticipant`,
  `removeParticipant`, `addExclusion`, `removeExclusion`, `performDraw`) form a
  small state machine over participants, exclusions, the current draw and the
  "emails sent" flag.

Files, one module each:

| file | module | contents |
|---|---|---|
| seqs.dfy | `Seqs` | distinctness, element sets, `filter`, swap, cardinality lemmas |
| types.dfy | `Types` | `Participant`, `Exclusion`, `Assignment`, `Option`, id views |
| shuffle.dfy | `Shuffling` | the random-source oracle and Fisher–Yates |
| candidates.dfy | `Candidates` | the candidate graph `validReceivers` |
| search.dfy | `Search` | `backtrack` and its candidate loop, soundness and completeness |
| draw.dfy | `Draw` | `generateAssignments`, what a valid draw is, the main theorems |
| page.dfy | `Page` | the page's state handlers and the invariant they keep |

## How the source is represented

- **Randomness.** `Math.random` becomes an oracle `rng: nat -> nat`. The calls
  to the random source are numbered 0, 1, 2, … in the order the source makes
  them. `Math.floor(Math.random() * (i + 1))` becomes `rng(k) % (i + 1)`, which
  is some index in `[0, i]`. Every index is reachable (`Shuffling.PickReachesAll`).
  So a theorem proved for every `rng` holds for every sequence of random choices.
  The search threads the call counter through every call, including the calls
  made in branches that later fail.
- **The search's mutable state.** The source pushes onto `assignments` and
  `usedReceivers` and pops on failure. In the model both are immutable
  arguments of `Search.Backtrack` / `Search.TryEach`. A failed branch therefore
  hands its caller the very values it was given, so restoration holds by
  construction. `Search.Partial` states the source's invariant on entry to
  `backtrack(index)`:
  - the stack holds `index` records;
  - record `k` has giver `participantsCopy[k]`;
  - every receiver is legal for its giver, and no receiver appears twice;
  - `used` is exactly the set of receiver ids on the stack.
- **Candidate order.** The candidate lists keep the insertion order of a
  JavaScript `Set`: participant order, with each id kept at its first
  occurrence. `participants.find` returns the first participant with the id.
- **Ids and UUIDs.** Ids are strings. `crypto.randomUUID()` becomes an id
  parameter of the handlers that mint one. Freshness is a condition on the
  invariant those handlers keep, not an assumption about the function.
- **Valid draw, in two views.** The returned records form a valid draw
  (`Draw.IsValidDraw`) when:
  - there is one record per participant;
  - the givers are a permutation of the participants;
  - no receiver id repeats;
  - every receiver is a participant;
  - nobody draws themselves;
  - no pair is excluded.

  The order-free meaning is a valid pairing (`Draw.IsValidPairing`): an
  injective map from every participant id to a legal receiver id.
  `Draw.DrawExists` says that such a map exists.

On three points the model follows the code rather than a tidier reading of it:

- The output lists the records in the shuffled giver order, not in the
  original participant order (`Draw.GenerateAssignments` ensures the givers
  are exactly `Draw.GiverOrder`).
- An exclusion that names an unknown id is silently inert; it is not rejected
  (`Draw.InertExclusion`).
- The algorithm itself returns `null` for fewer than two participants. It does
  not rely on the caller for this.

## Model

| member | source | states |
|---|---|---|
| Shuffling.Pick | src/utils/secretSantaAlgorithm.ts:35 | the index drawn for loop counter `i` lies in `[0, i]` |
| Shuffling.ShuffleDown | src/utils/secretSantaAlgorithm.ts:34-37 | the swap loop from `i` down to 1 leaves a permutation of its input (same multiset, same length) and consumes exactly `i` random calls |
| Shuffling.Shuffle | src/utils/secretSantaAlgorithm.ts:31-37 | Fisher–Yates on a copy yields a permutation of the participants for every random choice, using `n - 1` random calls |
| Shuffling.ShuffleKeepsElems | src/utils/secretSantaAlgorithm.ts:46-50 | shuffling the candidates neither loses nor adds a candidate, and keeps them duplicate-free |
| Candidates.ValidReceivers | src/utils/secretSantaAlgorithm.ts:13-24 | the receiver list of giver `g` holds exactly the participant ids `r` with `r != g` and no exclusion `(g, r)`, each once |
| Candidates.CandidateGraph | src/utils/secretSantaAlgorithm.ts:11-26 | `validReceivers` has one entry per participant id, and `r` is in the entry for `g` iff `r` is a legal receiver for `g` |
| Candidates.ValidReceiversAgree | src/utils/secretSantaAlgorithm.ts:17-20 | a giver's receiver list depends on the exclusions only through which participants they forbid that giver |
| Search.Find | src/utils/secretSantaAlgorithm.ts:54 | `participants.find(p => p.id === id)!` returns a listed participant carrying that id, and under unique ids the only one |
| Search.PartialStep | src/utils/secretSantaAlgorithm.ts:52-55 | committing a legal unused receiver for the next giver (`add` + `push`) keeps the stack invariant at `index + 1` |
| Search.Backtrack | src/utils/secretSantaAlgorithm.ts:39-64 | on success `backtrack(index)` has extended the committed stack, without rewriting it, to a complete assignment: every giver in search order, legal distinct receivers, `used` equal to the receivers on the stack |
| Search.TryEach | src/utils/secretSantaAlgorithm.ts:52-61 | the candidate loop succeeds only with a complete assignment that extends the committed stack |
| Search.CompletesStep | src/utils/secretSantaAlgorithm.ts:52-57 | the remainder of any way to finish the stack, after its first choice, finishes the stack one level deeper with that choice used |
| Search.BacktrackComplete | src/utils/secretSantaAlgorithm.ts:39-63 | whenever the remaining givers can be given legal, distinct, unused receivers, `backtrack(index)` succeeds, whatever the shuffles |
| Search.TryEachComplete | src/utils/secretSantaAlgorithm.ts:52-63 | if some way to finish the stack starts with the candidate at position `j >= ci`, the loop started at `ci` succeeds (a failed candidate's branch does not end the loop) |
| Draw.GiverOrder | src/utils/secretSantaAlgorithm.ts:31-37 | the search order is a permutation of the participants |
| Draw.CompleteIsValid | src/utils/secretSantaAlgorithm.ts:66-67 | a finished stack over the shuffled givers is a valid draw whose givers come in the search order |
| Draw.GenerateAssignments | src/utils/secretSantaAlgorithm.ts:3-71 | fewer than 2 participants give `null`; any result is a valid draw (one record per participant, givers a permutation, receivers distinct participants, no self-gift, no excluded pair), listed in the shuffled giver order |
| Draw.InertExclusion | src/utils/secretSantaAlgorithm.ts:16-20 | adding an exclusion that names a non-participant leaves the result of the draw unchanged |
| Draw.PairingLookup | src/utils/secretSantaAlgorithm.ts:55 | with distinct givers, the giver-to-receiver map of the records sends each giver to its own receiver |
| Draw.DrawSound | src/utils/secretSantaAlgorithm.ts:40-67 | under unique ids a valid list of records is a valid pairing: a total injective map from participants to legal receivers |
| Draw.GiversOnce | src/utils/secretSantaAlgorithm.ts:42-55 | under unique ids every participant is the giver of a record, and no two records share a giver |
| Draw.ReceiversCover | src/utils/secretSantaAlgorithm.ts:44-57 | as many distinct receiver ids as participants, all of them participant ids, make every participant a receiver exactly once |
| Draw.ExactlyOnce | src/utils/secretSantaAlgorithm.ts:40-67 | in a valid draw over unique ids, every participant gives exactly once and receives exactly once |
| Draw.ValidDrawNeedsUniqueIds | src/utils/secretSantaAlgorithm.ts:13-25 | a valid draw exists as a list of records only if the participant ids are unique |
| Draw.DuplicateIdsYieldNull | src/utils/secretSantaAlgorithm.ts:40-70 | with a repeated participant id the function always returns `null` |
| Draw.FoundWhenDrawExists | src/utils/secretSantaAlgorithm.ts:52-70 | with at least 2 participants and unique ids, if a valid pairing exists the function returns a draw, for every random source |
| Draw.PairingCompletes | src/utils/secretSantaAlgorithm.ts:40-57 | a valid pairing, read along the shuffled giver order, is a way to finish the empty stack: distinct receivers, each in its giver's candidate list |
| Draw.FoundIffDrawExists | src/utils/secretSantaAlgorithm.ts:3-71 | with at least 2 participants and unique ids, the result is non-null iff a valid pairing exists |
| Draw.OutcomeIndependentOfRandomness | src/utils/secretSantaAlgorithm.ts:33-63 | for every input, whether a draw is found is the same for any two random sources (with a repeated id it is never found) |
| Draw.CyclicPairingLookup | src/utils/secretSantaAlgorithm.ts:13-24 | the cyclic pairing sends the `i`-th participant to the next one in list order |
| Draw.CyclicStepLegal | src/utils/secretSantaAlgorithm.ts:13-24 | with two or more participants, the cyclic pairing sends each participant to a different listed participant |
| Draw.CyclicStepInjective | src/utils/secretSantaAlgorithm.ts:13-24 | the cyclic pairing sends different participants to different receivers |
| Draw.CyclicPairingValid | src/utils/secretSantaAlgorithm.ts:13-24 | with no exclusions, each participant giving to the next is a valid pairing |
| Draw.NoExclusionsAlwaysDraws | src/utils/secretSantaAlgorithm.ts:3-71 | with no exclusions, 2 or more participants with unique ids always get a draw |
| Draw.TwoWithExclusionIsInfeasible | src/utils/secretSantaAlgorithm.ts:3-71 | two participants with the exclusion A→B always get `null` |
| Page.InitialConsistent | src/pages/Index.tsx:14-18 | the page's initial state satisfies the page invariant, and its (empty) exclusion list names only listed participants |
| Page.AddParticipant | src/pages/Index.tsx:20-28 | appends exactly the new participant, keeps the others and the exclusions, clears the draw and the emails-sent flag, keeps the page invariant when the id is fresh, and keeps exclusions that named listed participants resolvable |
| Page.RemoveParticipant | src/pages/Index.tsx:32-37 | keeps exactly the other participants and exactly the exclusions not naming the id, clears the draw and the flag, keeps the page invariant, and keeps exclusions naming only listed participants if they did before |
| Page.AddExclusion | src/pages/Index.tsx:39-46 | an existing `(fromId, toId)` pair leaves the state unchanged; a new one appends one exclusion and clears the draw and the flag; afterwards exactly the old pairs plus this one are excluded; the invariant is kept whenever the two ids differ, whether or not they are listed; exclusions stay resolvable only when both ids are listed |
| Page.AddExclusionIdempotent | src/pages/Index.tsx:39-41 | adding the same pair twice gives the same state as adding it once |
| Page.RemoveExclusion | src/pages/Index.tsx:48-51 | keeps exactly the exclusions with another id and the participants, clears the draw, leaves the emails-sent flag, keeps the invariant and resolvability |
| Page.PerformDraw | src/pages/Index.tsx:53-72 | fewer than 2 participants leave the state unchanged; otherwise a result is stored (with the flag cleared) and is valid, or the state is unchanged; a draw is stored whenever one exists; the invariant is kept |
| Page.RunKeepsConsistent | src/pages/Index.tsx:20-72 | any sequence of handler calls the page lets through (fresh participant ids; exclusion picks that are non-empty and different, as src/components/ExclusionManager.tsx checks, possibly naming a removed participant) keeps the page invariant |
| Page.ReachableConsistent | src/pages/Index.tsx:14-72 | every state reachable from the initial one is consistent; in particular a displayed draw always matches the current participants and exclusions |
| Page.StalePickDangles | src/components/ExclusionManager.tsx:15-23 | the page path add A, B, C; pick A→B; remove A; press add is let through and ends with an exclusion naming no listed participant |
| Page.AddListedExclusion | src/pages/Index.tsx:39-46 | the corrected handler: a pair naming an unlisted id leaves the state unchanged, otherwise it acts as `addExclusion`; it keeps both the invariant and resolvability |
| Page.RunListedKeepsResolved | src/pages/Index.tsx:20-72 | with the corrected exclusion handler, any sequence of allowed handler calls keeps the invariant and keeps every exclusion naming listed participants |
| Page.ReachableResolved | src/pages/Index.tsx:14-72 | with the corrected exclusion handler, every reachable state's exclusions name listed participants |

## Left out

- `sendEmails` (src/pages/Index.tsx:74-111), the `isSending` flag and the
  supabase function `send-secret-santa-emails`. They are asynchronous network
  and SMTP I/O, HTTP handling and HTML templating.
- JSX rendering, toasts and styling (src/pages/Index.tsx:113-289,
  ParticipantCard, AddParticipantForm, ExclusionManager). The form and picker
  guards enter the model only as `Page.Allowed`: a fresh id for a new
  participant, and two non-empty, different exclusion picks. The picks are the
  exclusion manager's own state; the model carries them in the action rather
  than modelling the select boxes. The name and email
  trimming of the add form is not modelled; the handler stores whatever it is
  given.
- `Math.random` and `crypto.randomUUID`. They become oracle parameters. The
  uniformity of the shuffle is not modelled, only that every choice is
  possible.
- Determinism under a fixed random sequence is not stated as a lemma: every
  member is a pure function of its arguments, random source included.
- Draw.FoundIffDrawExists: stated for participants with unique ids only. With
  a repeated id the function always returns `null`, even when an injective
  map over the ids exists (Draw.DuplicateIdsYieldNull). The application's
  UUIDs rule this case out.
- Draw.ExactlyOnce: "exactly once" is stated for unique ids. Without them no
  result is ever returned (Draw.ValidDrawNeedsUniqueIds).
- Running time and the exponential worst case of the search are not modelled.

## Findings

| source | as written | input that shows it | evidently intended | confidence | as-written member | corrected member |
|---|---|---|---|---|---|---|
| src/components/ExclusionManager.tsx:18-23 | the add button checks only that both picks are non-empty and different, and `addExclusion` (src/pages/Index.tsx:39-46) stores the pair without checking that both ids are listed; the picks survive a removal | add A, B, C; pick A→B; remove A; press add: the exclusion (a, b) is stored although A is gone | an exclusion only ever names listed participants, as the purge in `removeParticipant` (src/pages/Index.tsx:34) intends; the stale exclusion is harmless to the draw (`Draw.InertExclusion`) but is shown as "Sconosciuto" | medium, not executed | Page.StalePickDangles | Page.RunListedKeepsResolved |
