# TribleSpace in Dafny: maintenance, exact rationals, queries, ledgers

A model of the stateful and arithmetical core of TribleSpace, with its laws
proved for all inputs and all runs. `dafny verify dfyconfig.toml` checks it.

**Maintenance driver.** `Store` is a grow-only set of items with read-sets
(`Interests`). `MaintenanceOrder` is the depth-first planner with cycle
detection. `MaintenanceModel` is one tick as a function of a clocked environment
(`Env`) in which other writers append items at every scheduling point and every
await may be cancelled or fail. `MaintenanceDriver` is the imperative driver
(`Driver`, `Pile`, `Walker`), proved to compute exactly that function; runs of it
are the subject of `MaintenanceRuns`, `MaintenanceAttempts`, `MaintenanceRebase`,
`MaintenanceRetry` and `MaintenanceWork`.

**Exact rationals.** `ContinuedFraction` and `BitBudget` hold the continuant, its
overflow behaviour and the length of the term codes; `OrderedRational`,
`OrderedRationalDecode` and `OrderedRationalCodec` the 256-bit order-preserving
format with its bit writer and reader over `Bytes`; `Radix` and `NumericRange` byte order
against numeric order; `Fractions` and `NumberFormat` reduction and decimal
printing.

**Queries.** `Patterns` defines conjunctive patterns, an evaluator proved to find
exactly their solutions, and `pattern_changes!`. `IncrementalQueries` is the
checkpointed consumer and the two benchmark arms. `SparqlAlgebra` is the bag
algebra of section 18.5 of the SPARQL 1.1 Query Language, `SparqlQueries` the
programs that replace it by multiplicity maps and witness sets. `Components`,
`Fixtures`, `FixtureChains` and `FixtureUnions` prove the row counts of generated
fixtures over the identifiers of `Minting`.

**Records.** `Census` is the confirm-region histogram; `Publishing`, `Ledger`,
`Measures` and `Telemetry` the publish-then-clear writers over a pile whose
commits and flushes may fail.

## Findings

- Stranded maintenance work. The driver's documentation says that a subsequent
  tick retries incomplete work (trible/src/maintenance.rs:214-216). After a
  completed pass the next tick works again exactly when something in the adopted
  read-set arrived (`MaintenanceRetry.WorksAgainExactlyOnArrival`); failures play
  no part. A tick that works does take up every attempted handle whose work was
  incomplete (`MaintenanceRetry.TickRetries`), but without a relevant arrival no
  such tick ever comes (`MaintenanceRetry.RestsForever`). A store snapshot that
  fails just before the first hop of a collection is stranded that way
  (`MaintenanceRetry.HiccupStrandsTheHop`). Work interrupted by cancellation or by
  an error out of `tick` is retried (`MaintenanceRuns.InterruptedRunsAgain`).
- Lost rationals. `i128::MIN / d` is in lowest terms, encodes, and has bytes that
  the decoder refuses, exactly when `d` is a proper factor of 2^127 + 1 above one
  (`OrderedRationalDecode.LostExactly`); 3 and its cofactor are two of them. The
  decoder multiplies `a1 * a0` before it adds one, and the product overshoots.
- Reciprocals. The documentation promises every `1/n` (rord256.rs:80); the encoder
  refuses exactly `1/i128::MIN` (`OrderedRationalDecode.ReciprocalsEncode`).
- The telemetry end marker, unlike the ledger's, does not certify its session
  (`Telemetry.EndWithoutFacts`). After `Drop` everything recorded is in the pile if
  and only if what was turned away is there by other means; for batches that share
  nothing with each other or with the pile, if and only if no last commit was
  refused (`Telemetry.TelemetryInner.Drop`).
- Adding up deliveries. A caller of `observe` who adds up what it receives is right
  in every run without a reset (`IncrementalQueries.SumWithoutReset`), and can be
  wrong after one (`IncrementalQueries.SumAfterReset`). The guard is exact: two
  supports are safe for all payloads and queries if and only if the later contains
  the earlier (`IncrementalQueries.GuardIsExact`).
- Decimal overflow. The formatter's product by ten leaves 128 bits exactly when some
  printed place has a remainder r with 10 r of 2^128 or more
  (`NumberFormat.OverflowsAt`); no denominator with 10(d - 1) inside 128 bits has one.

## Model

| member | source | states |
|---|---|---|
| Store.QuietRebase | trible/src/maintenance.rs:651-670 | moving a boundary across an interval without relevant arrivals changes no later answer |
| Store.QuietInside | trible/src/maintenance.rs:632-649 | a quiet interval is quiet on every part and for every read-set it covers, so merged interests are safe |
| MaintenanceOrder.OrderCorrect | trible/src/maintenance.rs:560-606 | planning fails exactly on a reachable cycle or unreadable descriptor; otherwise the pass gains exactly what the target reaches, dependencies first, no handle twice |
| MaintenanceOrder.OrderFrame | trible/src/maintenance.rs:560-606 | a plan depends only on the descriptors it reports as read |
| MaintenanceOrder.OrderReads | trible/src/maintenance.rs:560-606 | it reads only descriptors of new handles that the target reaches, on success exactly those it plans, and none without dependencies |
| MaintenanceDriver.Walker | trible/src/maintenance.rs:566-595 | the mutating recursive visit computes the planner's order, fault and reads, restores its stack, and terminates by shrinking unvisited handles |
| MaintenanceDriver.Driver.Gathered | trible/src/maintenance.rs:641-649 | the interests are the planning reads merged with those of every retained hop |
| MaintenanceRuns.GatherWakes | trible/src/maintenance.rs:632-649 | the merged interests are woken by the planning reads and the retained hops, and by nothing else |
| MaintenanceDriver.Driver.RebaseAll | trible/src/maintenance.rs:651-657 | exactly the unchanged boundaries advance |
| MaintenanceDriver.Driver.Needs | trible/src/maintenance.rs:659-670 | work is needed for a new, a retried or a changed entry; otherwise its boundary advances |
| MaintenanceDriver.Driver.HopOn | trible/src/maintenance.rs:838-936 | one planned handle: yield, snapshot, and run or skip, including the snapshot failure that only marks an existing entry |
| MaintenanceDriver.Driver.RunPass | trible/src/maintenance.rs:768-952 | the pass loop computes the pass of the model for every environment |
| MaintenanceDriver.Driver.Tick | trible/src/maintenance.rs:290-339 | the imperative tick is the model's tick; it keeps the driver invariant and the event bracketing, and when idle has swallowed nothing |
| MaintenanceRuns.TickSound | trible/src/maintenance.rs:290-339 | one tick keeps the invariant that adopted interests cover every retained read-set and the baseline swallows nothing unconsumed |
| MaintenanceRuns.IdleMeansSettled | trible/src/maintenance.rs:290-339 | in every run, an idle tick means that no retained non-retry hop and no planning read has a relevant change after its boundary |
| MaintenanceRuns.ArrivalWakes | trible/src/maintenance.rs:299-311 | in every run, a relevant arrival after a retained boundary starts a pass at the next tick |
| MaintenanceRuns.InterruptedStaysDirty | trible/src/maintenance.rs:312-332 | cancelling at any await or failing out leaves `catch_up` set; failing on the very first snapshot leaves the driver as it was |
| MaintenanceRuns.InterruptedRunsAgain | trible/src/maintenance.rs:312-332 | the tick after an interruption runs a pass |
| MaintenanceRuns.TickBracketed | trible/src/maintenance.rs:163-208 | one tick keeps every started hop closed by exactly the next event; an idle tick emits nothing |
| MaintenanceRuns.RunBracketed | trible/src/maintenance.rs:163-208 | in every run each `HopStarted` is closed by one `HopFinished` or `HopCancelled` before the next |
| MaintenanceRuns.WorkIsBounded | trible/src/maintenance.rs:299-338 | without disturbance and with hops confined to a closure C, at most size of C minus the store, plus one, consecutive ticks run a pass |
| MaintenanceRuns.SettlesDown | trible/src/maintenance.rs:299-338 | and from then on every tick is idle and silent |
| MaintenanceAttempts.PassOrderly | trible/src/maintenance.rs:807-837 | in every environment, also when cut short, a pass attempts each handle once and after all its dependencies |
| MaintenanceAttempts.PassAttempts | trible/src/maintenance.rs:784-837 | over a fixed graph the attempted set is the union of the closures of the resolved targets whose closure is readable and acyclic, whatever the priority |
| MaintenanceAttempts.PassAttemptsTargets | trible/src/maintenance.rs:784-837 | without dependencies it is the set of resolved targets |
| MaintenanceAttempts.SelectCorrect | trible/src/maintenance.rs:784-815 | the selection is the resolved references, deduplicated and sorted by priority |
| MaintenanceRebase.RebaseIsInvisible | trible/src/maintenance.rs:651-670 | a driver that rebases and one that keeps every boundary agree on outcomes, events, store, attempts and run or skip decisions in every run |
| MaintenanceRetry.WorksAgainExactlyOnArrival | trible/src/maintenance.rs:312-338 | after a completed pass the next tick works if and only if something in the adopted read-set arrived since the pass began |
| MaintenanceRetry.TickRetries | trible/src/maintenance.rs:837-936 | a tick that completes a pass starts, or reports the failure of, every attempted handle whose work was incomplete or outdated at its first snapshot |
| MaintenanceRetry.RestsForever | trible/src/maintenance.rs:299-311 | once nothing is due by the driver's reckoning, no tick runs a pass or emits an event until something relevant arrives, whatever work is incomplete |
| MaintenanceRetry.HiccupStrandsTheHop | trible/src/maintenance.rs:845-854 | a run in which a snapshot failure before a first hop is counted as a failure, stays due, and is idle at every later tick |
| MaintenanceWork.RunsForAReason | trible/src/maintenance.rs:856-859 | once its snapshot is taken a handle runs exactly when it has no entry, is marked for retry, or something relevant arrived since its boundary; skipped, it leaves events, counts and store alone |
| MaintenanceWork.TickJustified | trible/src/maintenance.rs:914-927 | in every environment each hop that a tick starts has such a reason in the entries the tick began with |
| MaintenanceWork.TickRemembers | trible/src/maintenance.rs:920-950 | a completed pass leaves a record of exactly what it attempted, free of retry marks but for what failed in it |
| MaintenanceWork.IdleAdvances | trible/src/maintenance.rs:302-311 | an idle tick brings every boundary without a retry mark up to its snapshot and changes nothing else |
| MaintenanceWork.TickAccounts | trible/src/maintenance.rs:900-940 | the counts of a returned pass are those of the hop and failure events the tick emitted |
| ContinuedFraction.ValueOfTerms | triblespace-core/benches/ordered_rational.rs:59-84 | the Euclidean terms of a reduced fraction are canonical and denote exactly that fraction |
| ContinuedFraction.TermsOfValue | triblespace-core/benches/ordered_rational.rs:41-53 | every canonical term list is the expansion of its continuant |
| ContinuedFraction.TermsScale | triblespace-core/benches/ordered_rational.rs:59-84 | a common factor does not change the terms |
| ContinuedFraction.Determinant | triblespace-core/benches/ordered_rational.rs:41-53 | the recurrence keeps its determinant up to sign |
| ContinuedFraction.ContinuantIsReduced | triblespace-core/benches/ordered_rational.rs:41-53 | so the unreduced constructor always receives lowest terms |
| ContinuedFraction.Continuant | triblespace-core/benches/ordered_rational.rs:41-53 | the checked loop returns the value of the terms, in lowest terms, or nothing |
| ContinuedFraction.PositiveOverflow | triblespace-core/benches/ordered_rational.rs:41-53 | for positive terms it returns nothing exactly when the true numerator or denominator exceeds i128 |
| ContinuedFraction.CanonicalOverflow | triblespace-core/src/inline/encodings/rord256.rs:353-414 | for the terms of a representable fraction the only overflow is the numerator i128::MIN with remainder one |
| BitBudget.CountBits | triblespace-core/benches/ordered_rational.rs:59-84 | the loop counts sign, first and later code lengths of the expansion |
| BitBudget.CubicBudget | triblespace-core/benches/ordered_rational.rs:59-84 | the terms after the first cost at most 3 log2(d) bits, for every n/d |
| BitBudget.TailBudget | triblespace-core/src/inline/encodings/rord256.rs:71-80 | the potential behind the domain: 2^(19 bits) is at most 2^15 n^42 d^4 for every Euclidean tail |
| BitBudget.GuaranteedDomain | triblespace-core/src/inline/encodings/rord256.rs:75-77 | every n/d with both parts up to 2^104 costs at most 256 bits |
| BitBudget.IntegersFit | triblespace-core/src/inline/encodings/rord256.rs:80-80 | every i128 integer costs at most 256 bits |
| BitBudget.UnitFractionsFit | triblespace-core/src/inline/encodings/rord256.rs:80-80 | so does every unit fraction of either sign |
| OrderedRational.CodeOrder | triblespace-core/src/inline/encodings/rord256.rs:193-204 | the term code is strictly increasing and prefix-free |
| OrderedRational.CodeExamples | triblespace-core/src/inline/encodings/rord256.rs:42-44 | the documented codes of 1, 2, 3, 4 and 8 |
| OrderedRational.BytesSortNumerically | triblespace-core/src/inline/encodings/rord256.rs:8-10 | of any two encodable ratios the stored bytes compare as the numbers do, and are equal exactly when the numbers are |
| OrderedRational.DomainEncodes | triblespace-core/src/inline/encodings/rord256.rs:71-80 | the documented domain encodes |
| OrderedRational.EncodeByValue | triblespace-core/src/inline/encodings/rord256.rs:290-300 | the sign may stand on either part and common factors may stay |
| OrderedRationalDecode.DecodeEncode | triblespace-core/src/inline/encodings/rord256.rs:353-414 | an encoded reduced fraction decodes to itself, or to an overflow exactly in the i128::MIN family |
| OrderedRationalDecode.EncodeDecode | triblespace-core/src/inline/encodings/rord256.rs:353-414 | any 256 bits that decode are the one encoding of a fraction in lowest terms |
| OrderedRationalDecode.LostExactly | triblespace-core/src/inline/encodings/rord256.rs:376-403 | i128::MIN / d encodes in lowest terms without decoding if and only if d is a proper factor of 2^127 + 1 above one |
| OrderedRationalDecode.MinimumThirdIsLost | triblespace-core/src/inline/encodings/rord256.rs:376-403 | two members of that family |
| OrderedRationalDecode.ReciprocalsEncode | triblespace-core/src/inline/encodings/rord256.rs:286-300 | every 1/n encodes except 1/i128::MIN |
| OrderedRationalCodec.BitWriter.Push | triblespace-core/src/inline/encodings/rord256.rs:180-189 | one bit set in one of the 32 bytes appends that bit, or the buffer is full |
| OrderedRationalCodec.BitWriter.PushTerm | triblespace-core/src/inline/encodings/rord256.rs:193-204 | the writer appends the code of the term, complemented on demand, or reports that it does not fit |
| OrderedRationalCodec.EncodeParts | triblespace-core/src/inline/encodings/rord256.rs:286-350 | the Euclid loop over the writer, with its small-width second loop and its error cases, returns 32 bytes whose bits are the format's encoding |
| OrderedRationalCodec.BitReader.Next | triblespace-core/src/inline/encodings/rord256.rs:259-281 | the reader returns the next term or finds the input truncated |
| OrderedRationalCodec.BitReader.RestOf | triblespace-core/src/inline/encodings/rord256.rs:240-256 | the byte-wise scan decides whether all remaining bits have the pad value |
| OrderedRationalCodec.DecodeParts | triblespace-core/src/inline/encodings/rord256.rs:353-414 | the reading loop over 32 bytes with checked arithmetic computes the format's decoding, error by error |
| Radix.LexIsNumeric | tribleset-bench/queries/sparqloscope.rs:2746-2753 | on digit strings of one length, lexicographic order is numeric order |
| Bytes.UnpackKeepsOrder | triblespace-core/src/inline/encodings/rord256.rs:165-166 | bytewise order is bitwise order, and the bits determine the bytes |
| NumericRange.RangeIsNumeric | tribleset-bench/queries/sparqloscope.rs:2746-2768 | for every 256-bit integer and every bound from 0 to i128::MAX the byte range is the numeric range |
| NumericRange.RangeExactness | tribleset-bench/queries/sparqloscope.rs:2754-2755 | the asserted precondition is exact: the byte range is right for all integers if and only if the bound is not negative |
| Fractions.Gcd | benches/number_format.rs:27-34 | the loop returns the number whose divisors are the common divisors |
| Fractions.NewR256 | benches/number_format.rs:12-25 | the result is the same fraction in lowest terms with a positive denominator |
| Fractions.NewIsCanonical | benches/number_format.rs:12-25 | two fractions are equal if and only if they get the same result |
| Fractions.ClearedBy | benches/number_format.rs:63-80 | a reduced numerator over 2^a 5^b is cleared by 10^k exactly from max(a, b) on |
| Fractions.NeverCleared | benches/number_format.rs:63-80 | over a denominator with any other factor it never is |
| NumberFormat.FormatR256 | benches/number_format.rs:37-89 | the imperative formatter prints the specified string, unless the running remainder times ten leaves 128 bits |
| NumberFormat.OverflowsAt | benches/number_format.rs:82-88 | that happens if and only if some printed place has a remainder r with 10 r of 2^128 or more |
| NumberFormat.SmallNeverOverflows | benches/number_format.rs:82-88 | and never for a denominator with 10(d - 1) inside 128 bits |
| NumberFormat.ExpandLaw | benches/number_format.rs:82-88 | the printed digits are the truncation of the remainder to as many places |
| NumberFormat.ExpandEnds | benches/number_format.rs:82-88 | they end at the limit or where the division comes out even, and not before |
| NumberFormat.FormatLaw | benches/number_format.rs:37-89 | read back, the output has the right sign and is the truncation; over 2^a 5^b it has exactly max(a, b) places and is exact, over other denominators exactly `precision` places and is not |
| NumberFormat.FormatText | benches/number_format.rs:37-89 | the text is the sign, a numeral of the whole part, and, unless the denominator is one, a point and the digits |
| NumberFormat.DecimalUnique | benches/number_format.rs:54-56 | a numeral, digits without a superfluous leading zero, is the only one of its number |
| NumberFormat.WrittenOnce | benches/number_format.rs:37-89 | so the text is determined by its parts |
| Patterns.QueryCorrect | examples/collection_pattern_changes.rs:24-47 | the evaluator finds exactly the rows that bind the pattern's variables and match every clause |
| Patterns.ChangesCorrect | triblespace-macros-common/src/lib.rs:948-990 | the union of the per-clause cases is the rows in which at least one clause matches a changed fact |
| Patterns.DeltaLaw | examples/collection_pattern_changes.rs:49-74 | for every conjunctive pattern, the rows over old and new facts are the old rows plus the changes |
| Patterns.ChangesAreNew | benches/incremental_collection_queries.rs:278-333 | where the new facts are new, the changes are exactly the new rows |
| IncrementalQueries.FoldIsQuery | examples/collection_pattern_changes.rs:76-132 | after any observations, failed, retried or reset, the fold of the successful ones is the full answer over the checkpoint's support |
| IncrementalQueries.ObserveKeeps | examples/collection_pattern_changes.rs:76-132 | one observation keeps that; a failure keeps checkpoint and fold, a success moves the checkpoint to the observed support |
| IncrementalQueries.DeliveredUnlessHeldUp | examples/collection_pattern_changes.rs:84-131 | an observation fails exactly when maintenance, a new unreadable member, the view or a refused row holds it up; otherwise exactly the due rows arrive and the checkpoint moves |
| IncrementalQueries.CleanRunIsCurrent | examples/collection_pattern_changes.rs:84-131 | after any run that ends with a clean observation the checkpoint names its support and the fold is its answer |
| IncrementalQueries.PrefixStops | examples/collection_pattern_changes.rs:122-125 | a consumer has taken the rows up to the first one it refuses |
| IncrementalQueries.RetryOffersTheSame | examples/collection_pattern_changes.rs:76-132 | after a failed observation the next attempt over the same support offers the same set of rows, for any two listings |
| IncrementalQueries.AcceptedIsSound | examples/collection_pattern_changes.rs:76-132 | everything the consumer accepted was an answer at some observed support |
| IncrementalQueries.AddingUp | examples/collection_pattern_changes.rs:96-131 | adding a delivery to the current answer is right while the support grows, and otherwise if and only if the old answer is inside the new |
| IncrementalQueries.SumWithoutReset | examples/collection_pattern_changes.rs:96-131 | in every run without a reset the sum of deliveries is the full answer |
| IncrementalQueries.GuardIsExact | examples/collection_pattern_changes.rs:101-113 | no payloads or query lose an answer between two supports if and only if the later contains the earlier |
| IncrementalQueries.SumAfterReset | examples/collection_pattern_changes.rs:112-125 | a run with a reset in which the sum of deliveries is wrong |
| IncrementalQueries.Consumer.Observe | examples/collection_pattern_changes.rs:76-132 | the imperative observe is the step of the model and keeps the fold invariant |
| IncrementalQueries.Consumer.ReadAdditions | examples/collection_pattern_changes.rs:101-111 | the additions' facts, or nothing when a member cannot be read |
| IncrementalQueries.FullState.Observe | benches/incremental_collection_queries.rs:218-251 | the full arm holds the whole query after each commit |
| IncrementalQueries.IncrementalState.Observe | benches/incremental_collection_queries.rs:278-333 | the incremental arm keeps its results equal to the whole query |
| IncrementalQueries.RunBoth | benches/incremental_collection_queries.rs:373-436 | both arms end with the same rows; with disjoint payloads the incremental arm produced each row once |
| SparqlAlgebra.FamilyBalance | tribleset-bench/queries/sparqloscope.rs:1079-1097 | for all bags sharing one key, OPTIONAL is JOIN plus MINUS and EXISTS plus MINUS is the left side |
| SparqlAlgebra.JoinIsConjunction | tribleset-bench/queries/sparqloscope.rs:436-445 | enumerating the conjunction enumerates the bag join of its halves, whatever they share |
| SparqlAlgebra.ConjunctionIsJoin | tribleset-bench/queries/sparqloscope.rs:436-445 | a row solves a conjunction exactly when its parts solve the conjuncts |
| SparqlQueries.WitnessCount | tribleset-bench/queries/sparqloscope.rs:780-798 | the witness-set program counts FILTER EXISTS, or MINUS, of every pair of listings |
| SparqlQueries.WitnessDecides | tribleset-bench/queries/sparqloscope.rs:1051-1077 | deduplicating a whole block, joins included, to its key decides the block's existential |
| SparqlQueries.Tally | tribleset-bench/queries/sparqloscope.rs:1110-1116 | the entry loop holds the multiplicity of every key that occurs and no other |
| SparqlQueries.FoldIsLeftJoin | tribleset-bench/queries/sparqloscope.rs:1117-1123 | the fold with default one is the size of LeftJoin |
| SparqlQueries.OptionalCount | tribleset-bench/queries/sparqloscope.rs:1107-1125 | the OPTIONAL program counts LeftJoin of every pair of listings |
| SparqlQueries.StarFactors | tribleset-bench/queries/sparqloscope.rs:972-974 | the witness set of two parts meeting only in the key is the intersection of theirs |
| SparqlQueries.StarExistsCount | tribleset-bench/queries/sparqloscope.rs:975-1001 | the program with two witness sets counts FILTER EXISTS of the joined block |
| SparqlQueries.ChainWitness | tribleset-bench/queries/sparqloscope.rs:1671-1691 | the chain's witness set holds exactly the starts of some two-hop chain |
| SparqlQueries.ChainMultiplicity | tribleset-bench/queries/sparqloscope.rs:1377-1399 | the chain map holds for each key the exact number of (c, d) chains |
| SparqlQueries.ReferenceCounts | tribleset-bench/queries/sparqloscope.rs:1401-1417 | the three bag counts do not depend on the order of enumeration |
| Minting.UnsplitmixSplitmix | tribleset-bench/src/fixtures.rs:155-160 | splitmix64 stays in 64 bits and has a left inverse |
| Minting.SplitmixUnsplitmix | tribleset-bench/src/fixtures.rs:155-160 | and the same right inverse: it is a bijection |
| Minting.MintedDistinct | tribleset-bench/src/fixtures.rs:709-715 | minted identifiers and anchors are equal only for equal numbers, and never to each other |
| Minting.Ids.Mint | tribleset-bench/src/fixtures.rs:162-170 | a mint differs from all earlier ones and from every anchor while the counter has not wrapped |
| Components.RowsAddUp | tribleset-bench/src/fixtures.rs:137-141 | a connected pattern over facts without common nodes has the disjoint union of the rows |
| Fixtures.BuildDiamond | tribleset-bench/src/fixtures.rs:254-274 | 6n rows for every n |
| Fixtures.BuildHubSkew | tribleset-bench/src/fixtures.rs:838-867 | fan-out plus uniform nodes, for all sizes |
| FixtureChains.PathRows | tribleset-bench/src/fixtures.rs:1409-1428 | the rows of a path query over a chain are its stretches of that length |
| FixtureChains.EndsKeepRows | tribleset-bench/src/fixtures.rs:1403-1428 | over functional edges, projecting path rows to their two ends loses no row |
| FixtureChains.BuildDeepChain | tribleset-bench/src/fixtures.rs:1375-1428 | all edges are there; one row per complete chain, none per half-length decoy, counted in full and at the two projected ends, for all sizes |
| FixtureUnions.BuildUnionFan | tribleset-bench/src/fixtures.rs:782-798 | arms times entities; the decoys are all there and contribute nothing |
| FixtureUnions.BuildUnionDedup | tribleset-bench/src/fixtures.rs:1668-1700 | both + 2 only rows, though each arm alone has both + only |
| Census.FlatIsSumOfDepths | tribleset-bench/src/archq.rs:447-462 | the flat histogram is the sum of the per-depth histograms |
| Census.CountingArchive.Record | tribleset-bench/src/archq.rs:447-462 | both histograms hold exactly the confirms since the last reset |
| Census.CountingArchive.Reset | tribleset-bench/src/archq.rs:373-380 | and none after it |
| Census.RankIsLeast | tribleset-bench/src/archq.rs:303-303 | the rank is the least positive number that is at least q times the total |
| Census.Quantile | tribleset-bench/src/archq.rs:298-311 | the scan returns the element with fewer than q of the population below it and at least q not above it; the largest when the rank is beyond the population |
| Census.RankIsSortedPlace | tribleset-bench/src/archq.rs:296-311 | which is the element at that place of the sorted population, and no other |
| Census.Summarize | tribleset-bench/src/archq.rs:385-399 | count, maximum, threshold count and total match direct counts, and median and p95 stand at one half and 95 hundredths of the population |
| Census.SummaryOrdered | tribleset-bench/src/archq.rs:385-399 | median is at most p95 is at most max |
| Census.CountingArchive.DepthRows | tribleset-bench/src/archq.rs:412-434 | one summary per depth that occurred, in order, each of that depth's confirms |
| Publishing.PublishLaw | tribleset-bench/src/ledger.rs:260-275 | commit then flush loses nothing, adds at most the fragment, and on success has made everything durable |
| Ledger.Open | tribleset-bench/src/ledger.rs:161-207 | a session is durable before it is returned |
| Ledger.ResultsLedger.Checkpoint | tribleset-bench/src/ledger.rs:260-275 | what is recorded stays pending or durable; success clears and makes all durable, failure keeps the fragment |
| Ledger.ResultsLedger.Finish | tribleset-bench/src/ledger.rs:278-289 | in every prefix of the log, hence after a crash at any durable point, the end marker stands only with everything the session recorded |
| Measures.Measure.Iterate | tribleset-bench/src/main.rs:254-277 | spans, identity and gate describe the calls before the first panic |
| Measures.VerdictIsDeserved | tribleset-bench/src/main.rs:279-289 | the outcome is a signal if and only if every call answered, all alike and as predicted; otherwise the first panic, the first deviation, or the count against the prediction |
| Measures.Emit | tribleset-bench/src/main.rs:312-340 | a line is printed only when all of its measure's facts are durable |
| Measures.LineTells | tribleset-bench/src/main.rs:313-329 | the facts of a line are one span with its times for each call recorded before the first panic, and the outcome |
| Measures.LineIsExact | tribleset-bench/src/main.rs:381-394 | for an earned line: each round after the warm-up and before the first panic has its begin and duration in a span of the session under the measure's name, and there is no other |
| Measures.RunR2 | tribleset-bench/src/main.rs:361-397 | the console gains each measure's earned line, or those of a prefix if a publication failed; the facts of every line are durable; none is missing when every publication succeeds |
| Telemetry.TelemetryInner.PublishPending | src/telemetry.rs:227-243 | the batch is cleared only when it is durable and otherwise unchanged |
| Telemetry.TelemetryInner.MaybeFlush | src/telemetry.rs:259-280 | before the interval is over nothing changes; a due flush that succeeds empties the batch and stamps the time, a failed one changes neither; other threads' batches are untouched |
| Telemetry.TelemetryInner.Callback | src/telemetry.rs:506-531 | recorded facts are in a batch or durable; closing a span publishes the batch when due; after shutdown nothing is recorded |
| Telemetry.TelemetryInner.Drop | src/telemetry.rs:707-755 | a fact missing afterwards is in the batch of a thread whose last publication failed; for separate batches everything is in the pile if and only if no last commit was refused; the end marker is committed as its own commit goes |
| Telemetry.FinalPublished | src/telemetry.rs:713-730 | the pile gains exactly the batches whose last commit is not refused |
| Telemetry.EndWithoutFacts | src/telemetry.rs:732-755 | a sink whose `Drop` commits the end marker and leaves a recorded fact out of the pile |

## Left out

- The query engine, PATCH, the pile format, SuccinctArchive, GPU and network code: `find!` is modelled as enumerating each row of the evaluator once, in any order.
- Name and handle resolution, signatures, representations and blob contents in maintenance: handles are opaque, resolution is a function of the snapshot with its own reads, and a hop is an arbitrary step that reports interests and adds items.
- The async runtime: suspension points are positions of the environment's clock; arrivals, failures, cancellations and hop results are its moves.
- Maintenance telemetry, `cover_census` and elapsed times: they do not influence decisions.
- The wasm formatter of ordered rationals and `validate`, which repeats the decoder.
- Fractions.NewR256: does not cover numerators or denominators equal to i128::MIN, whose absolute value overflows in the source.
- NumberFormat.FormatR256: says when the product by ten leaves 128 bits, not what is printed after it has wrapped around; parts equal to i128::MIN, which `R256::new` never produces, are not covered.
- Census.Quantile: takes an exact rational in place of a floating-point fraction, and sums are unbounded integers.
- Minting.Ids.Mint: does not go past a wrapped counter; `mint_ordered` truncates the mixed word and is not modelled, nor are the fixtures F3 and F14 that use it.
- The fixtures F8 to F11 and F13: witness multiplicity, threshold and lying-estimate fixtures would only add members of the same kind.
- SPARQL aggregates, UNION, ORDER, regex, dates and the other query families that are single engine expressions.
- Telemetry.TelemetryInner.Callback: callbacks concurrent with `Drop`, the enter and exit stack, and field capture are not modelled.
- Measures.Emit: the gate and panic texts are data, not formatted strings; console output is a sequence of lines.
- Publishing.PublishLaw: a commit is one record, written or not; torn records and pile recovery are not modelled.
