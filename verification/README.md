# Synapse memory store: a verified model

Synapse is a local memory store for agents: documents, typed memories that supersede
one another, a graph of memory edges, several retrieval paths and an audit trail. This
project models the algorithmic core of that store in Dafny and proves what the core is
there for. `dafny verify dfyconfig.toml` checks all of it.

| part | files | what is proved |
|---|---|---|
| memory lifecycle | `MemoryTables`, `MemoryOps`, `MemoryEffects`, `MemoryRuns`, `MemoryStore` | every run keeps `superseded_by` a forest that never dangles and that the 'supersedes' edges mirror, even when row ids are reused; what each operation writes, column by column |
| clustering, compaction | `Text`, `Clustering`, `Compaction` | union-find groups are the connected components; compaction leaves one active memory per component, counts correctly, and is idempotent |
| traversal | `Traversal` | breadth-first search returns exactly the true hop distances |
| PageRank | `Sums`, `PageRank` | scores stay non-negative, and mass is lost only below the cutoff |
| fusion | `Fusion`, `FusionOrder` | sort-merge fusion and map accumulation give the same answer, and what the ranks decide about its order |
| Glass index | `Reachability`, `Beams`, `BeamSearch`, `BeamExactness`, `Glass`, `GlassExactness` | what a beam search returns for any beam, which nodes a build leaves reachable, and exactly when an index answers exactly whatever its vectors |
| calendar | `Calendar`, `Timestamps`, `TimestampForms`, `DateRanges`, `TemporalQuery` | date conversion, timestamp round trips, tiling ranges, and the range of a time cue in a query |
| query words | `QueryPhrases`, `QueryRanges`, `QueryNames` | from the text of a query to its range: every phrase, unit and name the query parser knows, in both languages |
| ingest | `Ingest`, `IngestRows` | deferred full-text ingest ends as per-row ingest does, and rolls back completely; exactly which rows a batch leaves and when it is refused |
| sidecar recovery | `Sidecar` | with crashes anywhere, reopening restores the index |
| scoring | `Quantization`, `Hamming` | int8 max-sim error bound; sign-bit distance; partial selection |
| recall prediction | `Conformal` | the predicted bound is the best one that enough calibration queries reached |
| audit trail | `AuditChain` | appends verify; exactly which edits go unnoticed |

`Prelude` and `Sorting` hold shared vocabulary and the contracts of the sort and selection
routines used by the store.

## How the model reads the code

- SQL tables are maps keyed by row id. A query without a total order may return any row
  that its `ORDER BY` allows, and every theorem holds for each choice.
- Floats are exact reals. Hashes are arbitrary functions, and the audit theorems name the
  two colliding messages instead of assuming that there are none.
- Clocks, hook results and the answers of the retrieval being calibrated are parameters.
- Code that updates state in place is modelled by classes, arrays and loops, each proved
  against a specification on values; the theorems are about those specifications.

Where the code and its comments differ, the model follows the code:

- `jaccard` is described as comparing lower-cased tokens, but it does not lower-case.
  `Text.CaseMatters` is a concrete case: one word in two spellings scores 0. Two texts
  score 1 exactly when their tokens are the same as spelled (`Text.JaccardRange`).
- Both heaps of the Glass beam search order by negated distance, so `peek` and `pop` on the
  result heap give its nearest entry. A node is offered to a full beam with success only if
  it is nearer than the nearest entry held when the expansion began, and then the nearest
  of all is dropped. In the batch that fills the beam that may be an earlier node of the
  same batch; in every later batch it is the new node itself, so a beam that is full never
  changes again. `Beams.IsBeam` states what is left.
- A search for the k nearest is therefore not always exact, for two reasons: a vector whose
  found neighbours are all full when it is inserted is never reachable, and a full beam
  misses what comes later. `GlassExactness.ExactExactlyWhenWide` gives the condition in
  terms of what a caller chooses. An index over n vectors, built with any `ef_construction`
  and searched for k > 0 with beams of max(k, ef), finds the k nearest of all vectors
  whatever they are exactly when n is 1, or the cap m is at least n - 1 and the beam at
  least n wide. Otherwise `GlassExactness.FoilIndex` builds and searches n vectors of which
  it misses the nearest; `GlassExactness.NarrowBeamMisses` is the case of two.
- `parse_timestamp` reads the clock fields as signed numbers and checks upper bounds only,
  so a field such as `-5` is accepted (`Timestamps.SignedHour` is a timestamp with it). `Timestamps.ClockAccepted`
  says exactly which clocks are accepted: besides plain ones, those with a sign in front of
  a one-digit field.
- `parse_temporal` lower-cases the query first, so the `T` and `Z` in its list of token
  characters never occur: a full timestamp in a query is cut at its `t`, and clock and
  offset are dropped. `TemporalQuery.WrittenOffset` says exactly when the resulting day
  still holds the written instant, and `TemporalQuery.MidnightMisses` is a query whose day
  does not.
- The last month of year 9999 and the year 9999 have no range, since the next month is out
  of the calendar.
- The audit module's comment says that tampering with any event breaks the chain. The
  hashed message joins the text fields without separators and the last row has no
  successor, so some edits go unnoticed. `AuditChain.FieldEditUnnoticed`,
  `AuditChain.EditUnnoticed`, `AuditChain.MoveUnnoticed`, `AuditChain.InsertionUnnoticed`
  and `AuditChain.RemovalUnnoticed` give the exact conditions, and
  `AuditChain.MovedBoundary` is a concrete case.
- `recall_at_k` counts repeated predictions each time, so it can exceed one
  (`Conformal.RepeatedHitExceedsOne`). `Conformal.RecallIsSetRecall` says that it is the
  share of the intersection exactly when no hit is predicted twice.
- The int8 bound is stated with the constant 1/127. It is smaller than 509/64516, the value
  that multiplying out both half-scale errors gives, because a quantized component never
  exceeds the largest original one.

## Model

| member | source | states |
|---|---|---|
| `MemoryRuns.EveryReachableState` | crates/synapse-core/src/sota.rs:434-539 | in every state of every run of ensure, put, promote, evolve, compact and delete, whatever the queries return and whichever free row ids are used: `superseded_by` is acyclic and never dangles, every chain ends at an active memory, the 'supersedes' edges are exactly the links, and no edge names a missing memory |
| `MemoryRuns.StepKeeps` | crates/synapse-core/src/sota_pipeline.rs:203-286 | each single operation keeps that invariant |
| `MemoryTables.SupersedeKeeps` | crates/synapse-core/src/sota.rs:526-539 | linking one active memory under another distinct active one keeps the forest and its edges |
| `MemoryTables.DeleteKeeps` | crates/synapse-core/src/db.rs:1055-1077 | deleting a document with its memories, edges and inbound links keeps the invariant |
| `MemoryTables.EveryChainEndsActive` | crates/synapse-core/src/sota.rs:526-539 | following `superseded_by` from any memory reaches an active one |
| `MemoryTables.NoCycle` | crates/synapse-core/src/sota.rs:526-539 | no memory is superseded, directly or through others, by itself |
| `MemoryOps.PromoteKeeps` | crates/synapse-core/src/sota.rs:434-498 | a promotion keeps the invariant; on success its row is an active memory of the document and the replaced one is superseded by it |
| `MemoryOps.EvolveKeeps` | crates/synapse-core/src/sota_pipeline.rs:203-245 | an evolution keeps the invariant, its target belongs to another document, and the target's newest memory is superseded by the new one |
| `MemoryEffects.PromoteMeans` | crates/synapse-core/src/sota.rs:434-498 | every promotion has that effect on every column, and fails on exactly those inputs |
| `MemoryEffects.EvolveMeans` | crates/synapse-core/src/sota_pipeline.rs:203-245 | every evolution writes that row and links that one, and nothing else |
| `MemoryEffects.DeleteMeans` | crates/synapse-core/src/db.rs:1055-1077 | every delete leaves exactly the other documents' rows, entries and edges, with the links to its own cleared |
| `MemoryEffects.EligibleCounted` | crates/synapse-core/src/sota.rs:661-664 | a candidate is in the window exactly when its common tokens are a share of all tokens between the two bounds, ends included |
| `MemoryEffects.WeightsOfKinds` | crates/synapse-core/src/sota.rs:62-71 | the weight of each kind, in hundredths |
| `MemoryStore.Store.EnsureRawMemoryAndEnqueue` | crates/synapse-core/src/sota.rs:357-381 | the answer is the document's active raw row, and only if it had none is a row written, with confidence 1 and both times now; the queue keeps a document's entry as it was or gets a pending one; nothing else changes |
| `MemoryStore.Store.PutMemory` | crates/synapse-core/src/sota.rs:286-352 | one new row, with the columns given, the weight of its kind and both times now |
| `MemoryStore.Store.PromoteDocMemory` | crates/synapse-core/src/sota.rs:434-498 | fails exactly on a confidence outside 0 to 1, a document that is to supersede itself, or one to be superseded without an active row, and then changes nothing; else the row that comes first among the document's free ones (raw before typed, then latest), or a new row, has the kind and its weight, the confidence, date and time given and keeps its creation time and tags, the queue entry is 'promoted' without an error, the latest active row of the superseded document is linked under it with one edge, and nothing else changes |
| `MemoryStore.Store.FindEvolveTarget` | crates/synapse-core/src/sota.rs:634-668 | the target is the first of the most similar candidates whose similarity is in the window, ends included, and there is none only if no candidate is in it |
| `MemoryStore.Store.EvolveOnIngest` | crates/synapse-core/src/sota_pipeline.rs:203-245 | a new row of the document is written; with a target and a successful merge the latest active row of the target's document, which is another one, is linked under it with one edge; a failing merge hook leaves the insert and supersedes nothing; nothing else changes |
| `MemoryStore.Store.Compact` | crates/synapse-core/src/sota_pipeline.rs:251-286 | every row of the window is linked under the largest id connected to it, with one edge that says so, or is that row and stays; nothing else changes, and the count is the number of rows less the number of components; a failing hook leaves the groups before it folded |
| `MemoryStore.Store.CompactTwice` | crates/synapse-core/src/sota_pipeline.rs:251-286 | after a first run whose window covers all active rows, a second run returns 0 and changes nothing |
| `MemoryStore.Store.Delete` | crates/synapse-core/src/db.rs:1055-1087 | the document, its memories, their edges and its queue entry are gone, links to its memories are cleared, and everything else is as it was; the flag says whether the document or a stored vector of it existed |
| `Text.JaccardRange` | crates/synapse-core/src/sota.rs:616-630 | similarity lies between 0, for texts without a common token, and 1, for texts with the same tokens as spelled, and takes those values on no others |
| `Text.SimilarityCounted` | crates/synapse-core/src/sota.rs:616-630 | for m and n tokens, c of them common, the similarity times m + n - c is c, and a threshold is met exactly when c is at least that share of m + n - c |
| `Text.OneOfThree` | crates/synapse-core/src/sota.rs:616-630 | two texts of two words each, one of them common, score a third |
| `Text.TokensByWord` | crates/synapse-core/src/sota.rs:616-630 | the tokens of a text are those of its first word, if it is longer than two bytes, and those of the rest |
| `Text.FirstWord` | crates/synapse-core/src/sota.rs:619-620 | a word followed by whitespace is the first word of the text |
| `Text.LengthsAdd` | crates/synapse-core/src/sota.rs:619-620 | the byte length of a text is the sum of those of its parts |
| `Text.CaseMatters` | crates/synapse-core/src/sota.rs:616-630 | a word in two spellings scores 0 |
| `Clustering.Find` | crates/synapse-core/src/sota.rs:689-695 | find with path compression terminates, returns the root, and changes no node's root |
| `Clustering.JoinAll` | crates/synapse-core/src/sota.rs:687-703 | after all pairs are compared two rows have one root exactly when they are connected |
| `Clustering.ClusterForCompact` | crates/synapse-core/src/sota.rs:671-713 | the groups are exactly the components with at least two members of "similarity at least the threshold", each row in at most one group |
| `Clustering.SimilarCounted` | crates/synapse-core/src/sota.rs:697-702 | two rows are joined exactly when their common tokens are at least the threshold's share of all their tokens |
| `Compaction.FoldedIsCompacted` | crates/synapse-core/src/sota_pipeline.rs:259-284 | folding the groups one after the other has the effect of compaction by components: rows, and edges that are the old ones plus a 'supersedes' edge for each row put under another |
| `Compaction.CompactedMeans` | crates/synapse-core/src/sota_pipeline.rs:259-284 | column by column: each row of the window is linked under the largest id connected to it, at its own time, unless it is that row; each new edge is such a link; rows outside the window and old edges stay |
| `Compaction.TextsInOrder` | crates/synapse-core/src/sota_pipeline.rs:263-274 | the summary hook gets the texts of the group's rows in the group's order |
| `Compaction.WindowLinksAreNew` | crates/synapse-core/src/sota.rs:526-539 | in a state that keeps the invariant none of those edges was there before |
| `Compaction.OneSurvivorPerComponent` | crates/synapse-core/src/sota_pipeline.rs:259-284 | two rows of a compacted window that both stay active lie in different components |
| `Compaction.SurvivorStaysActive` | crates/synapse-core/src/sota_pipeline.rs:259-284 | the largest id of every component stays active |
| `Compaction.NothingLeftToFold` | crates/synapse-core/src/sota_pipeline.rs:251-286 | after a covering compaction no later window holds a similar pair |
| `Compaction.SurvivorsCount` | crates/synapse-core/src/sota_pipeline.rs:259-285 | after a compaction as many of the window's rows are active as the window has components |
| `Compaction.FullyFolded` | crates/synapse-core/src/sota_pipeline.rs:259-285 | once all groups are folded the number of superseded rows is rows less components |
| `Traversal.MultiHopNeighbors` | crates/synapse-core/src/sota.rs:555-594 | returns each non-seed node within `max_hops` once, with its true shortest hop distance from the seeds over the capped lists, nearest first, and nothing else |
| `Traversal.Search` | crates/synapse-core/src/sota.rs:565-588 | after the queue loop the distance map holds exactly the distances up to the limit |
| `Traversal.FirstNeighbours` | crates/synapse-core/src/sota.rs:574-586 | the neighbours that count are the first ones fetched, as many as the cap allows |
| `PageRank.MassLaw` | crates/synapse-core/src/ppr.rs:59-92 | one iteration's mass is alpha plus (1 - alpha) times the mass at or above the cutoff |
| `PageRank.RunLaw` | crates/synapse-core/src/ppr.rs:46-92 | through a whole run scores stay non-negative and mass never exceeds 1; it is 1 exactly while no node with a positive score has been below the cutoff, or when alpha is 1 |
| `PageRank.SentAddsUp` | crates/synapse-core/src/ppr.rs:66-88 | a node hands on exactly its flow, through its out-list or to the seeds |
| `PageRank.SentByWeight` | crates/synapse-core/src/ppr.rs:66-88 | a node with a score and weights of at least 1e-9 hands each of its targets (1 - alpha) times its score times the edge's weight over the sum of the weights |
| `PageRank.EachEdgeCounts` | crates/synapse-core/src/ppr.rs:84-88 | every edge to a target adds its own part, wherever it stands in the list |
| `PageRank.FirstEdges` | crates/synapse-core/src/ppr.rs:59-72 | the edges that count are the first ones fetched, as many as the cap allows |
| `PageRank.PersonalizedPageRank` | crates/synapse-core/src/ppr.rs:34-97 | the loops compute such a run from the seeds divided by their total, or from a uniform vector when that is not positive, and return the best scores of its last vector in order |
| `Fusion.RrfMerge` | crates/synapse-core/src/db.rs:129-256 | sort-merge fusion returns min(limit, distinct ids) hits, one per id, with the sum of its rank scores over both lists, best first, and no omitted id outscores a returned one |
| `Fusion.RrfMap` | crates/synapse-core/benches/rrf_neon.rs:24-51 | map accumulation meets the same contract |
| `Fusion.FusionsAgree` | crates/synapse-core/src/db.rs:186-256 | any two answers that meet the contract have the same scores place by place |
| `FusionOrder.FusedByRanks` | crates/synapse-core/src/db.rs:186-226 | in lists without repeated ids a hit at ranks i and j, counted from 0, scores 1 / (61 + i) + 1 / (61 + j), and a hit in one list only the one term |
| `FusionOrder.EachOccurrenceCounts` | crates/synapse-core/src/db.rs:186-226 | when a list repeats an id each occurrence adds the score of its own rank |
| `FusionOrder.AheadInBoth` | crates/synapse-core/src/db.rs:129-256 | a hit ahead of another in both lists is before it in the answer |
| `FusionOrder.BothBeatOne` | crates/synapse-core/src/db.rs:129-256 | a hit in both lists is before one in only one of them that is ranked no better there than the first is in either list, and before every such hit if it is among the first 61 of both |
| `FusionOrder.TieAtSixtyTwo` | crates/synapse-core/src/db.rs:186-193 | not beyond that: the 62nd of both lists scores what the first of one does |
| `FusionOrder.HigherComesFirst` | crates/synapse-core/src/db.rs:229-256 | a hit of a higher fused score comes before one of a lower score that is in the answer |
| `Fusion.MergedEntriesOk` | crates/synapse-core/src/db.rs:196-226 | the merged runs are one entry per distinct id, each with its fused score |
| `BeamSearch.Search` | crates/synapse-ann/src/glass.rs:285-353 | terminates; returns the front of the beam in order of distance, min(k, max(ef, 1), reachable) distinct reachable nodes at their exact distances; exact when the beam has room for every reachable node |
| `BeamSearch.Offer` | crates/synapse-ann/src/glass.rs:261-273 | a full beam keeps its size and every entry not nearer than the bound, and rejects an entry that is nearest of all |
| `BeamSearch.OfferAll` | crates/synapse-ann/src/glass.rs:260-274 | a batch leaves a full beam as it is; otherwise nothing held before is lost, the beam fills up from the batch, and a late entry that is nearest of all is lost |
| `BeamSearch.Explore` | crates/synapse-ann/src/glass.rs:213-276 | the beam holds all nodes met before the batch that fills it, in best-first order of expansion, fills up from that batch, and holds no node met later; if nothing fills it, it holds every reachable node |
| `Beams.BeamHolds` | crates/synapse-ann/src/glass.rs:234-276 | such a beam has min(max(ef, 1), reachable) reachable nodes, the entry node among them |
| `Beams.MetAll` | crates/synapse-ann/src/glass.rs:234-276 | when every node met has been expanded, every reachable node has been met |
| `BeamExactness.ExactExactlyWithRoom` | crates/synapse-ann/src/glass.rs:285-353 | the search function taken alone, on any graph and with vectors that need not be those the graph was built from: for a positive k, with room for every reachable node every answer is right on all vectors; without, there are vectors and a query on which every answer is wrong |
| `BeamExactness.TrapCatches` | crates/synapse-ann/src/glass.rs:285-353 | when nodes lie further out the later they are met, save the last, which is nearest, no beam without room for all holds that one |
| `BeamExactness.NarrowBeamExact` | crates/synapse-ann/src/glass.rs:285-353 | on given vectors a beam of one is exact exactly when the entry node is nearest among the reachable ones |
| `GlassExactness.NarrowBeamMisses` | crates/synapse-ann/src/glass.rs:358-381 | an index over two vectors, built and then searched with a beam of one, answers with the farther one |
| `Glass.OnlyEarlierReachable` | crates/synapse-ann/src/glass.rs:156-171 | while node i is inserted only earlier nodes can be reached from the entry |
| `Glass.InsertKeeps` | crates/synapse-ann/src/glass.rs:156-171 | insertion keeps every list in range, free of self-loops and repeats and at most m long |
| `Glass.InsertedReachable` | crates/synapse-ann/src/glass.rs:156-171 | a new node becomes reachable exactly when a found neighbour has room to list it back, and nothing else changes in what is reachable |
| `Glass.ReachableIsJoined` | crates/synapse-ann/src/glass.rs:156-171 | in the finished graph the reachable nodes are the entry and those that found a neighbour with room when inserted; the others stay out of reach |
| `Glass.Compact` | crates/synapse-ann/src/glass.rs:173-181 | after compaction into rows `neighbours(i)` is the list built for i |
| `Glass.Build` | crates/synapse-ann/src/glass.rs:124-192 | fails exactly on unequal dimensions, reporting the first vector that differs; otherwise the index is the compaction of a history of insertions, each from a beam search of the nodes before, with well-formed lists of at most m |
| `Glass.SearchBeam` | crates/synapse-ann/src/glass.rs:358-381 | nothing for an index without vectors or components; otherwise fails exactly on a wrong dimension of the query, and returns min(k, reachable) hits, each a vector with the sum of its squared coordinate differences from the query, the front of a beam of max(k, ef), exact when that is at least the number of reachable nodes |
| `Beams.DistanceIsSum` | crates/synapse-ann/src/glass.rs:89-97 | the distance is the sum of the squared differences over all coordinates |
| `Beams.DistanceParts` | crates/synapse-ann/src/glass.rs:89-97 | the distance of joined vectors is the sum of the distances of their parts |
| `Beams.DistanceSymmetric` | crates/synapse-ann/src/glass.rs:89-97 | the distance is the same both ways |
| `Beams.ZeroDistance` | crates/synapse-ann/src/glass.rs:89-97 | vectors of one length are at distance 0 exactly when they are equal |
| `GlassExactness.StageReachable` | crates/synapse-ann/src/glass.rs:156-171 | while at most m + 1 vectors are inserted all of them are reachable |
| `GlassExactness.LeftOut` | crates/synapse-ann/src/glass.rs:156-171 | after m + 1 equal vectors the next one finds only full lists, whatever `ef_construction` is |
| `GlassExactness.AllReachable` | crates/synapse-ann/src/glass.rs:124-192 | with a cap of at least n - 1 every vector of the finished index is reachable |
| `GlassExactness.ExactExactlyWhenWide` | crates/synapse-ann/src/glass.rs:358-381 | for a positive k and more than one vector: every index over any n vectors answers every query with the k nearest of all of them if m is at least n - 1 and max(k, ef) at least n; otherwise there are n vectors and a query on which no index over them does |
| `GlassExactness.FoilIndex` | crates/synapse-ann/src/glass.rs:358-381 | such vectors, built and searched: the answer is not empty and misses the vector that equals the query |
| `Calendar.CivilRoundTrip` | crates/synapse-core/src/temporal.rs:39-80 | valid date to day number and back is the identity |
| `Calendar.DaysRoundTrip` | crates/synapse-core/src/temporal.rs:59-80 | day number to date and back is the identity, defined on exactly the days of years 1 to 9999 |
| `Calendar.DateRoundTrip` | crates/synapse-core/src/temporal.rs:39-80 | the two formulas are inverse on dates of every year, the range checks aside |
| `Calendar.NextDayIsNext` | crates/synapse-core/src/temporal.rs:39-57 | the day number grows by one from each date to the next calendar date |
| `Calendar.Epoch` | crates/synapse-core/src/temporal.rs:39-57 | 1970-01-01 is day zero |
| `Calendar.DaysFromCivilDefined` | crates/synapse-core/src/temporal.rs:39-57 | the conversion accepts exactly the valid dates |
| `Timestamps.FormatThenParse` | crates/synapse-core/src/temporal.rs:141-213 | every printable instant prints to a text that parses back to it |
| `Timestamps.Printable` | crates/synapse-core/src/temporal.rs:200-213 | the printable instants are the seconds of years 1 to 9999 |
| `Timestamps.FormatInjective` | crates/synapse-core/src/temporal.rs:200-213 | distinct printable instants print differently |
| `Timestamps.NormalFormIsFixed` | crates/synapse-core/src/temporal.rs:141-213 | an accepted text with a printable instant normalises to a fixed point |
| `Timestamps.OffsetShifts` | crates/synapse-core/src/temporal.rs:170-198 | a numeric offset in place of Z shifts the instant by exactly that offset |
| `TimestampForms.NoOffsetForms` | crates/synapse-core/src/temporal.rs:174-183 | a final `z`, or nothing in its place, means what `Z` means |
| `TimestampForms.FractionIgnored` | crates/synapse-core/src/temporal.rs:161-173 | a fraction of a second of any number of digits is dropped |
| `TimestampForms.SlashesForDashes` | crates/synapse-core/src/temporal.rs:121-139 | slashes in the date mean what dashes mean |
| `TimestampForms.MarkForms` | crates/synapse-core/src/temporal.rs:148-152 | `T`, `t` and a blank between date and clock mean the same |
| `TimestampForms.DateIsMidnight` | crates/synapse-core/src/temporal.rs:141-147 | a date alone is its midnight in UTC |
| `TimestampForms.BlanksIgnored` | crates/synapse-core/src/temporal.rs:141-143 | whitespace around a timestamp does not matter |
| `TimestampForms.LeapDayPrint` | crates/synapse-core/src/temporal.rs:200-213 | 951868799 prints as `2000-02-29T23:59:59Z` |
| `Timestamps.ClockAccepted` | crates/synapse-core/src/temporal.rs:148-160 | a clock is accepted exactly when mark and separators are in place and each field is two digits in range or a sign and a digit |
| `Timestamps.SignedHour` | crates/synapse-core/src/temporal.rs:141-198 | the timestamp `2024-01-01T-5:00:00Z` is accepted as the instant five hours before that day begins |
| `DateRanges.MonthDefined` | crates/synapse-core/src/temporal.rs:104-112 | a month range exists for the months of years 1 to 9999 but the last, and is as long as the month |
| `DateRanges.MonthHoldsItsDays` | crates/synapse-core/src/temporal.rs:104-112 | a day lies in a month's range exactly when it is a date of that month |
| `DateRanges.QuarterTiled` | crates/synapse-core/src/temporal.rs:355-384 | a quarter is its three adjacent months |
| `DateRanges.YearTiled` | crates/synapse-core/src/temporal.rs:114-119 | a year is its four adjacent quarters, and the next year follows at once |
| `DateRanges.WeekHoldsItsDay` | crates/synapse-core/src/temporal.rs:96-102 | a week holds its day, starts on a Monday and lasts seven days |
| `DateRanges.WeeksTile` | crates/synapse-core/src/temporal.rs:96-102 | two days share a week or their weeks do not meet |
| `TemporalQuery.ParseTemporal` | crates/synapse-core/src/temporal.rs:276-403 | the scans give the range of the first cue in order of precedence, and it is a non-empty range of whole UTC days |
| `TemporalQuery.FindCue` | crates/synapse-core/src/temporal.rs:280-402 | the cue found is that of the first hit: no earlier position of its pass over the query hits, and no earlier pass does anywhere; there is none only if no pass hits |
| `TemporalQuery.ResolvesToWholeDays` | crates/synapse-core/src/temporal.rs:276-403 | every kind of cue gives a non-empty range of whole UTC days or nothing |
| `TemporalQuery.DayShiftExact` | crates/synapse-core/src/temporal.rs:294-331 | a shift by n days gives the day that holds the instant n days from now, whenever that day is in years 1 to 9999 |
| `TemporalQuery.ThisPeriodHoldsNow` | crates/synapse-core/src/temporal.rs:333-359 | this week, month and year hold the present instant, and are missing only at the calendar's end |
| `TemporalQuery.PeriodsAdjacent` | crates/synapse-core/src/temporal.rs:333-359 | last, this and next week, month and year follow each other without gap or overlap |
| `TemporalQuery.WrittenDateRange` | crates/synapse-core/src/temporal.rs:280-292 | a date written in a query, with no date characters before it, gives that day, whatever follows |
| `TemporalQuery.ClockIsNeverRead` | crates/synapse-core/src/temporal.rs:280-292 | a token accepted in a lower-cased query is a bare date |
| `TemporalQuery.WrittenOffset` | crates/synapse-core/src/temporal.rs:280-292 | the day given for a full timestamp holds the written instant exactly when the offset does not carry the clock over midnight |
| `TemporalQuery.MidnightMisses` | crates/synapse-core/src/temporal.rs:280-292 | the query `2024-01-01T00:00:00+01:00`, lower-cased, gets the first of January; the instant is on the day before |
| `QueryRanges.DaysByName` | crates/synapse-core/src/temporal.rs:245-298 | "yesterday", "today" and "tomorrow", and "gestern", "heute" and "morgen", give the whole UTC day that holds the instant a day ago, now and in a day |
| `QueryRanges.DayWordRange` | crates/synapse-core/src/temporal.rs:293-298 | so does any query without date characters that has one of those words in it, whatever else it says, the earlier day first |
| `QueryRanges.WeeksByName` | crates/synapse-core/src/temporal.rs:245-342 | last, this and next week, and their German forms, give the Monday-to-Sunday weeks that hold the instants seven days ago, now and in seven days |
| `QueryRanges.MonthsByName` | crates/synapse-core/src/temporal.rs:245-349 | last, this and next month, and their German forms, give the months before, of and after today, across the turn of the year |
| `QueryRanges.YearsByName` | crates/synapse-core/src/temporal.rs:245-354 | last, this and next year, and their German forms, give the years around today's |
| `QueryNames.UnitsAgo` | crates/synapse-core/src/temporal.rs:233-310 | a number, any word for days, weeks, months or years and "ago" give the day that many days, or seven, 30 or 365 times as many, before now, as long as the days fit in 64 bits |
| `QueryNames.UnitsAfter` | crates/synapse-core/src/temporal.rs:233-327 | "in", a number and such a word give the day that long after now, and "vor" the day that long before |
| `QueryNames.QuartersByName` | crates/synapse-core/src/temporal.rs:356-385 | "q1" to "q4" give that quarter of this year, or of the year from 1900 to 2099 written after it |
| `QueryNames.MonthsByNumber` | crates/synapse-core/src/temporal.rs:215-401 | each of the 35 month names gives that month of this year, or of the year from 1900 to 2099 written after it |
| `QueryPhrases.ReplaceFirst` | crates/synapse-core/src/temporal.rs:266-266 | the first occurrence of a phrase gives way, and the search goes on behind it |
| `QueryNames.TrimEnds` | crates/synapse-core/src/temporal.rs:271-273 | characters to be dropped go at both ends of a word, and no others |
| `Ingest.StoreAllKeeps` | crates/synapse-core/src/db.rs:912-965 | a stored batch keeps hashes and uris unique, keeps every old row, gives only new ids, and answers each request with a row of its text's hash |
| `Ingest.AnswersHoldText` | crates/synapse-core/src/db.rs:912-965 | when the hash does not collide each returned id is the row that holds the request's text |
| `IngestRows.WholeBatch` | crates/synapse-core/src/db.rs:912-965 | a batch is refused exactly when some request whose text is new has a uri that an old document or an earlier such request has; otherwise it adds exactly one row for each request whose text is new, under the next ids in order, holding the request's uri, title, text and metadata and the time, and nothing else |
| `IngestRows.IndexHoldsTexts` | crates/synapse-core/src/db.rs:973-1038 | the full-text rows hold each document's title and text |
| `Ingest.ClashStays` | crates/synapse-core/src/db.rs:912-965 | a uri clash fails the whole batch |
| `Ingest.Store.PutBatchFast` | crates/synapse-core/src/db.rs:912-965 | per-row ingest stores the batch or nothing; the full-text rows are exactly the documents |
| `Ingest.Store.PutBatchDeferredFts` | crates/synapse-core/src/db.rs:973-1038 | deferred ingest does the same, and the trigger is back in place on every path |
| `Ingest.BothForms` | crates/synapse-core/src/db.rs:973-1038 | from equal states both forms return the same ids and end with the same documents, full-text rows and trigger |
| `Sidecar.EveryReopenRecovers` | crates/synapse-core/src/db.rs:359-386 | in every append-only run with crashes anywhere, reopening makes the index equal `docs_vec` and loads exactly the rows the sidecar lacked |
| `Sidecar.RunKeeps` | crates/synapse-core/src/db.rs:359-386 | the saved ids are always a prefix of `docs_vec` in id order |
| `Sidecar.RecoversIff` | crates/synapse-core/src/db.rs:1166-1193 | reopening restores the index exactly when the loaded ids are the first rows |
| `Sidecar.DeleteDefeatsRecovery` | crates/synapse-core/src/db.rs:1166-1193 | a delete and a put after the last save, after which reopening does not restore the index |
| `Sidecar.Index.RebuildTail` | crates/synapse-core/src/db.rs:1166-1193 | loads the newest rows and counts those that were new |
| `Sidecar.Open` | crates/synapse-core/src/ann.rs:47-59 | a missing or corrupt sidecar counts as empty, and the newest missing rows are added; any other load error fails the opening |
| `Quantization.DotUnrolled` | crates/synapse-colbert/src/kernel.rs:25-45 | the four-way unrolled loop is the plain sum of products |
| `Quantization.ComponentError` | crates/synapse-colbert/src/quant.rs:9-25 | a quantized component is in the int8 range, at most half a scale off, and not above the largest component |
| `Quantization.PairError` | crates/synapse-colbert/src/quant.rs:37-41 | quantizing two vectors moves their dot product by at most n Mq Md / 127 |
| `Quantization.MaxSimError` | crates/synapse-colbert/src/quant.rs:30-46 | int8 max-sim differs from exact max-sim by at most the number of query vectors times n Mq Md / 127 |
| `Quantization.LargestFills` | crates/synapse-colbert/src/quant.rs:9-25 | the scale takes the largest component to 127 or -127, and a vector of zeros keeps scale 1 |
| `Quantization.HalvesRoundAway` | crates/synapse-colbert/src/quant.rs:18-22 | halves round away from zero |
| `Quantization.DotParts` | crates/synapse-colbert/src/kernel.rs:25-45 | the product of joined vectors is the sum of the products of their parts |
| `Quantization.MaxSimOfFew` | crates/synapse-colbert/src/kernel.rs:8-21 | no query vectors or no document vectors score 0, and one query vector scores its best product |
| `Quantization.MaxSimParts` | crates/synapse-colbert/src/kernel.rs:8-21 | the scores of query vectors add up |
| `Quantization.MaxSimI8OfFew` | crates/synapse-colbert/src/quant.rs:30-46 | the same two cases for quantized vectors |
| `Quantization.MaxSimI8Parts` | crates/synapse-colbert/src/quant.rs:30-46 | the scores of quantized query vectors add up |
| `Hamming.Binarize` | crates/synapse-ann/src/cascade.rs:37-46 | one bit per coordinate, most significant first, set exactly when it is positive; padding bits are clear |
| `Hamming.HammingCountsSigns` | crates/synapse-ann/src/cascade.rs:50-52 | the byte-wise distance of packed signs is the number of coordinates whose sign tests differ |
| `Hamming.DifferencesCounted` | crates/synapse-ann/src/cascade.rs:37-52 | that number is of the coordinates that are positive in one vector and not in the other, zero counting as not positive |
| `Hamming.FirstIsHighest` | crates/synapse-ann/src/cascade.rs:37-46 | the first coordinate takes the highest bit of the first byte |
| `Hamming.HammingTopK` | crates/synapse-ann/src/cascade.rs:55-81 | selecting, truncating and sorting gives the front of the fully sorted scores: the closest first, ties by id, and no row left out before one returned |
| `Hamming.SweepCountsSigns` | crates/synapse-ann/src/cascade.rs:55-81 | over packed vectors the sweep orders by differing signs |
| `Conformal.Calibrator.Calibrate` | crates/synapse-core/src/conformal.rs:45-55 | replaces the residuals by one minus recall, query by query |
| `Conformal.RecallIsSetRecall` | crates/synapse-core/src/conformal.rs:99-106 | recall is the intersection's share of the truth exactly when no hit is predicted twice, and then at most one; otherwise it is larger |
| `Conformal.RepeatedHitExceedsOne` | crates/synapse-core/src/conformal.rs:99-106 | one relevant document predicted twice scores a recall of two |
| `Conformal.ConformalQuantile` | crates/synapse-core/src/conformal.rs:110-121 | q' reaches the quantile exactly when enough scores are at most q' |
| `Conformal.RankPlace` | crates/synapse-core/src/conformal.rs:110-121 | counted from 1, the quantile's place among the sorted scores is the first at or above (1 - alpha)(n + 1), or the last |
| `Conformal.LevelShare` | crates/synapse-core/src/conformal.rs:112-113 | the level's share of n scores is (1 - alpha)(n + 1) of them, or all |
| `Conformal.ReachedPlaces` | crates/synapse-core/src/conformal.rs:84-91 | the queries that reached a target are those whose residual is at most what the target leaves |
| `Conformal.NothingToFind` | crates/synapse-core/src/conformal.rs:99-106 | with nothing to find the recall is one |
| `Conformal.Calibrator.PredictRecallLowerBound` | crates/synapse-core/src/conformal.rs:63-69 | the bound is the largest recall, up to one, that at least min(1, (1 - alpha)(1 + 1/n)) of the calibration queries reached; 0 without calibration |
| `Conformal.Calibrator.ShouldFallback` | crates/synapse-core/src/conformal.rs:73-75 | falls back exactly when too few calibration queries reached the target, or the target exceeds one |
| `Conformal.Calibrator.EmpiricalCoverage` | crates/synapse-core/src/conformal.rs:84-91 | the share that reached the bound is at least min(1, (1 - alpha)(1 + 1/n)), hence at least 1 - alpha |
| `Conformal.NeedsExactFallback` | crates/synapse-core/src/conformal.rs:129-137 | no fallback without calibrator or target |
| `AuditChain.ActionRoundTrip` | crates/synapse-audit/src/lib.rs:55-79 | each action has one spelling and no other text is an action |
| `AuditChain.MessageParts` | crates/synapse-audit/src/lib.rs:117-144 | two hashed messages are equal exactly when previous hash, time and joined texts are |
| `AuditChain.MessageLayout` | crates/synapse-audit/src/lib.rs:117-144 | the hashed bytes in order: 32 of the previous hash or of zeros, eight of the time, then actor, action and target, and space and metadata where there are any |
| `AuditChain.TimestampByteWeights` | crates/synapse-audit/src/lib.rs:132-132 | the time's bytes weigh 1, 256, 65536 and so on, a negative time counted from the top |
| `AuditChain.SpellingBytes` | crates/synapse-audit/src/lib.rs:55-65 | the bytes of each action's spelling |
| `AuditChain.Log.Append` | crates/synapse-audit/src/lib.rs:164-198 | appends the chained row under an unused id; the table verifies exactly when it did before |
| `AuditChain.RunsVerify` | crates/synapse-audit/src/lib.rs:164-198 | every table built by appends verifies, as does every prefix, and holds the entries in order |
| `AuditChain.VerifyChain` | crates/synapse-audit/src/lib.rs:241-288 | accepts exactly the intact chains, and otherwise reports the first broken row with what was expected and found |
| `AuditChain.LastHashPinsHistory` | crates/synapse-audit/src/lib.rs:241-288 | two verifying tables of one length with one last hash agree on every row's hashed message, time, texts and hashes, or the hash collides on two of their messages |
| `AuditChain.LastHashPinsTable` | crates/synapse-audit/src/lib.rs:241-288 | two verifying tables with one last hash, of whatever lengths, have one length and one history, or the hash collides on two of their messages, or a row's hash is all zeros |
| `AuditChain.EditUnnoticed` | crates/synapse-audit/src/lib.rs:241-288 | replacing a row in its place in the id order goes unnoticed exactly when it fits its predecessor and, unless last, keeps its hash |
| `AuditChain.MoveUnnoticed` | crates/synapse-audit/src/lib.rs:241-288 | a replacement whose id moves the row goes unnoticed exactly when taking the row out and putting the new one in both do |
| `AuditChain.InsertionUnnoticed` | crates/synapse-audit/src/lib.rs:241-288 | inserting a row goes unnoticed exactly when it fits its predecessor and, unless last, repeats its predecessor's hash |
| `AuditChain.FieldEditUnnoticed` | crates/synapse-audit/src/lib.rs:241-288 | changing a row's fields goes unnoticed exactly when time and joined texts stay, or the hash collides |
| `AuditChain.RemovalUnnoticed` | crates/synapse-audit/src/lib.rs:241-288 | removing a row goes unnoticed exactly when it was the last, or repeated its predecessor's hash |
| `AuditChain.MovedBoundary` | crates/synapse-audit/src/lib.rs:117-144 | a byte moved from the space to the target leaves the chain intact |

## Left out

- Floating-point rounding, NaN and the NEON reciprocal estimate: scores, distances and weights are exact reals, and fusion follows the scalar branch.
- The SQL engine, full-text ranking, the vector index's own graph, encryption, signatures and compression: tables, full-text rows and the index are maps and sets.
- Foreign keys: the model does not rely on the database enforcing them.
- Row ids have no upper end in the lifecycle and ingest models, so the failure of an insert at the largest id is not modelled there.
- Vector storage: the Glass index keeps vectors as a sequence of vectors, not as one flat buffer, and row offsets have no 32-bit width.
- The order among equal keys of unstable sorts and heaps: every theorem holds for any such order.
- Other edge types and the recall pipeline that reads them: no operation of the lifecycle model writes them.
- The batch form of ensuring raw memories, whose single statement decides all rows at once, and the extraction worker with its queue reads: only the queue entry made by promotion and ensuring is modelled.
- Sidecar recovery after deletes or with several writers: `Sidecar.RecoversIff` gives the exact condition, and the run theorem is about append-only runs of one writer whose inserts succeed.
- Stored vectors of a wrong length, which the tail reload skips, and stored audit hashes that are not 32 bytes long, on which the reader panics.
- The single-row and embedding-carrying forms of put, and the mirrors that follow an insert in other indexes.
- Unicode lower-casing and the alphanumeric test in query parsing: the query comes lower-cased, and the test is a parameter. Arithmetic on counts in queries wraps at 64 bits, as in an optimised build.
- Federation, command line, installer, embedding backends, feeds and file ingest: input, output and wrappers.
- Fusion.RrfMerge: needs a positive limit when there are hits, because the selection step indexes `k - 1`.
- Ingest.Store.PutBatchDeferredFts: does not model a failure after the commit, when the trigger is created again (crates/synapse-core/src/db.rs:1021-1026); the documents are then stored although an error is reported.
- Ingest.AnswersHoldText: needs a hash without collisions; with the 32-byte hash of the store this is an assumption about the texts at hand.
