# Verified models of the RDF federation front end and the Extrae tracing toolkit

A Dafny project that models seven algorithmic parts of the repository and proves what they are for.
`dafny verify dfyconfig.toml` checks all of it.

- **Heat solver** (`Grids`, `RowMajor`, `Blocks`, `Solver`, `HeatSequential`, `MaximumPrinciple`, `HeatTermination`,
  `HeatMpi`, `HeatMpiLoops`, `HeatMpiRefinement`, `HeatMpiSafety`, `HeatMpiProgress`, `HeatMpiTermination`). The three relaxation solvers as loops over flat
  arrays, proved against an order-free definition of an in-place sweep, with the element type and the stencil as
  parameters; the sequential program; the distributed Jacobi program as a state machine over its ranks, proved to
  refine the sequential one, to be free of deadlock and to stop when the sequential one does; over real numbers both
  always stop. Cell results hold for any arithmetic, floats included. Residuals are real numbers; the exit test
  sees the exact sum.
- **RDF federation** (`Levenshtein`, `Federation`, `QueryPartition`). The edit distance as shortest edit script and
  metric, the subject-rewriting merge, and the query partitioner with its cache. A graph is a set of triples and a
  CONSTRUCT query a function on graphs (SPARQL 1.1 Query, sections 16.2 and 18.3).
- **Counter sets** (`Masks`, `ExhaustiveCounters`, `GreedyCounters`). The binary-counter search for all largest
  valid sets and the greedy grouping. Whether counters can be counted together is a fixed oracle.
- **Instrumented routines** (`UfTable`). The hash table with bounded linear probing, proved to agree with a set.
- **Queues** (`Queue`, `ItemPool`). The intrusive circular list with sorted insertion, and the block allocator whose
  free list is threaded through the items, on the heap.
- **Clock synchronisation** (`TimeSync`). The latency calculation in signed and unsigned 64-bit arithmetic.
- **Trace names** (`TraceNames`). Fixed-width ids printed into file names and read back from the end.

Where the code falls short of what it promises, a concrete input and the exact condition are given:

- Rows and columns past the last whole block are never relaxed (`Blocks.NinthLineIsLeftOut`, `SweptIsInteriorIff`).
- An edge from a later-listed to an earlier-listed class is lost and its reversal comes back
  (`QueryPartition.LaterToEarlierEdgeIsTurned`, `PartitionIsCompleteIff`, `PartitionIsSoundIff`).
- A replaced subject can survive a merge (`Federation.ExampleSubjectSurvives`, `NoSurvivorsIff`). The merge looks for
  countries by the unexpanded names `rdf:type` and `dbo:Country`; over data typed with the full name it is the plain
  union (`Federation.UntypedInputsAreUnited`, `QueryPartition.MergeOfTypedDataIsUnion`).
- The greedy search and grouping need not end with 32 counters or more (`GreedyCounters.FourEventsNeverEnd`,
  `SearchEndsIff`, `SearchesEndIff`).
- An accepted NULL is counted without occupying a slot (`UfTable.CountedNull`, `CountersAreTableStatsIff`).
- TS_NOSYNC as a second calculation does not undo a synchronisation (`TimeSync.NoSyncDoesNotUndo`,
  `NoSyncUniformIff`). The repository's own callers make one calculation for each initialisation
  (`trace_to_prv.c:372-398`, `wrapper.c:1972-2015`), and there TS_NOSYNC does what it should
  (`TimeSync.NoSyncShiftsTogether`).
- Sorting trace names by process id puts the files of one process in any order, so its files can be separated from
  each other (`TraceNames.SortingDoesNotSuffice`, `SecondThreadIsSeparated`, `AlwaysSeparatesIff`).

## Model

| member | source | states |
|---|---|---|
| Grids.Compose | trunk/dependencies/extrae/example/LINUX/MPI+OMPSS/solver-mpi-ompss.c:120-144 | Two in-place sweeps one after the other leave the grid of one sweep of both cell sets, whenever no cell of the second needs an old value the first overwrote |
| Grids.ComposeGapSum | trunk/dependencies/extrae/example/LINUX/MPI+OMPSS/solver-mpi-ompss.c:120-144 | The residuals of two sweeps over disjoint cells add up to the residual of the combined step |
| Grids.AnyDependencyOrder | trunk/dependencies/extrae/example/LINUX/MPI+OMPSS/solver-mpi-ompss.c:120-144 | Relaxing cells one at a time in any order in which no cell comes after its right or bottom neighbour leaves the same grid, for any element type and stencil |
| Grids.PlainSweepIsSweep | trunk/dependencies/extrae/example/LINUX/MPI+OMPSS/solver-mpi-ompss.c:120-144 | The textbook row-major Gauss-Seidel sweep is the order-free sweep of its rectangle |
| Grids.GapSumTake | trunk/dependencies/extrae/example/LINUX/MPI+OMPSS/solver-mpi-ompss.c:136-139 | The residual does not depend on the order in which the cells are counted |
| RowMajor.UnflattenUpdate | trunk/dependencies/extrae/example/LINUX/MPI+OMPSS/solver-mpi-ompss.c:134-140 | Writing element i*w+j of the flat array changes exactly cell (i, j) of the grid |
| Solver.ElementIndex | trunk/dependencies/extrae/example/LINUX/MPI+OMPSS/solver-mpi-ompss.c:134-140 | Cell (i, j) of the grid is element i*w+j of the array |
| Blocks.SplitValid | trunk/dependencies/extrae/example/LINUX/MPI+OMPSS/solver-mpi-ompss.c:36-47 | The blocks fit the grid for every size, given two boundary lines where a single block takes all |
| Blocks.BlocksCoverSwept | trunk/dependencies/extrae/example/LINUX/MPI+OMPSS/solver-mpi-ompss.c:125-132 | The blocks together cover exactly rows 1..min(8*bx, sizex-2) and columns 1..min(8*by, sizey-2) |
| Blocks.SweptIsInteriorIff | trunk/dependencies/extrae/example/LINUX/MPI+OMPSS/solver-mpi-ompss.c:36-47 | For sizes of at least 3, every interior cell is relaxed if and only if dividing the sizes by the numbers of blocks leaves at most 2 lines each way; for the Jacobi solver that is the columns alone |
| Blocks.NinthLineIsLeftOut | trunk/dependencies/extrae/example/LINUX/MPI+OMPSS/solver-mpi-ompss.c:36-47 | On an 11 by 11 grid the last interior column is never relaxed, nor, by the solvers with 8 block rows, the last interior row |
| Blocks.AnyBlockOrder | trunk/dependencies/extrae/example/LINUX/MPI+OMPSS/solver-mpi-ompss.c:129-132 | Relaxing blocks in any order in which none comes after its right or bottom neighbour block is one sweep of their cells |
| Blocks.ColourOrderIrrelevant | trunk/dependencies/extrae/example/LINUX/MPI+OMPSS/solver-mpi-ompss.c:78-112 | Within the red or the black pass, all orders of the blocks leave the same grid |
| Blocks.ColoursPartition | trunk/dependencies/extrae/example/LINUX/MPI+OMPSS/solver-mpi-ompss.c:78-112 | The red and the black pass together relax every swept cell exactly once |
| Solver.RelaxGauss | trunk/dependencies/extrae/example/LINUX/MPI+OMPSS/solver-mpi-ompss.c:120-144 | In place, blocked Gauss-Seidel leaves the sweep of the swept rectangle, returns its residual, and writes nothing past the grid |
| Solver.GaussElement | trunk/dependencies/extrae/example/LINUX/MPI+OMPSS/solver-mpi-ompss.c:27-144 | After relax_gauss, element (i, j) with 1 <= i <= min(8*(sizex/8), sizex-2) and 1 <= j <= min(8*(sizey/8), sizey-2) is the mean of its new left and top and its old right and bottom element, and every other element is unchanged |
| Solver.GaussSum | trunk/dependencies/extrae/example/LINUX/MPI+OMPSS/solver-mpi-ompss.c:125-143 | Its result is the residual over exactly those elements |
| Solver.GaussIsPlainSweep | trunk/dependencies/extrae/example/LINUX/MPI+OMPSS/solver-mpi-ompss.c:120-144 | Blocked Gauss-Seidel leaves exactly what a plain row-major sweep of the same rectangle leaves, and returns the residual that sweep accumulates |
| Solver.RelaxColour | trunk/dependencies/extrae/example/LINUX/MPI+OMPSS/solver-mpi-ompss.c:78-112 | One colour pass relaxes exactly the blocks of that colour and adds their residual |
| Solver.RelaxRedBlack | trunk/dependencies/extrae/example/LINUX/MPI+OMPSS/solver-mpi-ompss.c:68-115 | The black pass works on the grid the red pass left; the sum is the residual between the input and the final grid over the swept rectangle |
| Solver.RedBlackElement | trunk/dependencies/extrae/example/LINUX/MPI+OMPSS/solver-mpi-ompss.c:27-115 | After relax_redblack, the elements of the same rectangle are means of their neighbours: a red element sees old values of the black blocks around it, a black element new values of the red ones, and within a block left and top are new; every other element is unchanged |
| Solver.RedBlackSum | trunk/dependencies/extrae/example/LINUX/MPI+OMPSS/solver-mpi-ompss.c:70-114 | Its result is the residual over exactly those elements |
| Solver.RelaxJacobi | trunk/dependencies/extrae/example/LINUX/MPI+OMPSS/solver-mpi-ompss.c:31-63 | utmp gets the mean of the old neighbours in every swept cell and keeps its other cells; the sum is the residual over the swept rectangle |
| Solver.JacobiElement | trunk/dependencies/extrae/example/LINUX/MPI+OMPSS/solver-mpi-ompss.c:27-63 | After relax_jacobi, element (i, j) of utmp with 1 <= i <= sizex-2 and 1 <= j <= min(8*(sizey/8), sizey-2) is the mean of the four elements around it in u, and every other element is unchanged |
| Solver.JacobiSum | trunk/dependencies/extrae/example/LINUX/MPI+OMPSS/solver-mpi-ompss.c:33-62 | Its result is the residual over exactly those elements |
| HeatSequential.CopyRows | trunk/dependencies/extrae/example/LINUX/OMPSS/heat-ompss.c:122-125 | The copy loop copies the leading rows and nothing else |
| HeatSequential.Step | trunk/dependencies/extrae/example/LINUX/OMPSS/heat-ompss.c:111-134 | One turn of the loop, for each of the three solvers, is one application of the reference step, with its residual |
| HeatTermination.HeatOverReals | trunk/dependencies/extrae/example/LINUX/OMPSS/heat-ompss.c:108-148 | Over reals the program ends for every grid, every solver and every iteration limit, 0 included, after the first positive multiple of ten iterations of which the last had a residual below 0.00005 or that reaches a limit above 0, with the grid of that iteration |
| HeatTermination.AlwaysStops | trunk/dependencies/extrae/example/LINUX/OMPSS/heat-ompss.c:138-147 | Over reals every solver meets the exit test from every grid, with and without an iteration limit |
| HeatTermination.NextShrinks | trunk/dependencies/extrae/example/LINUX/MPI+OMPSS/solver-mpi-ompss.c:31-144 | One iteration of any of the three solvers brings two grids that agree outside the swept rectangle closer together by a fixed factor, in a norm that weighs the rows |
| HeatTermination.ResidualBound | trunk/dependencies/extrae/example/LINUX/MPI+OMPSS/solver-mpi-ompss.c:31-144 | The residual of an iteration is at most the number of swept cells times the square of how far it moves the grid |
| HeatTermination.RestlessNeverStops | trunk/dependencies/extrae/example/LINUX/OMPSS/heat-ompss.c:138-147 | An arithmetic other than the reals in which, without an iteration limit, the exit test is never met |
| HeatSequential.FirstExit | trunk/dependencies/extrae/example/LINUX/OMPSS/heat-ompss.c:137-147 | The first iteration that meets the exit test is the first positive multiple of ten at which the residual is below 0.00005 or a limit above 0 is reached |
| HeatSequential.Heat | trunk/dependencies/extrae/example/LINUX/OMPSS/heat-ompss.c:108-148 | In any arithmetic, given some iteration that meets the exit test, the program ends with the grid of the first one, a multiple of ten, with a residual below 0.00005 or at a limit above 0 |
| HeatSequential.LimitStops | trunk/dependencies/extrae/example/LINUX/OMPSS/heat-ompss.c:138-147 | With an iteration limit some iteration fewer than ten past the limit meets the exit test |
| MaximumPrinciple.DiscreteMaximumPrinciple | trunk/dependencies/extrae/example/LINUX/MPI+OMPSS/solver-mpi-ompss.c:31-144 | Any number of iterations of any mix of the three solvers keeps every cell within the range of the initial grid and never changes the boundary |
| MaximumPrinciple.HeatKernel | trunk/dependencies/extrae/example/LINUX/MPI+OMPSS/solver-mpi-ompss.c:49-54 | Over reals a relaxed cell is a quarter of the sum of its neighbours and adds the square of its change to the residual |
| MaximumPrinciple.FixedIffSettled | trunk/dependencies/extrae/example/LINUX/MPI+OMPSS/solver-mpi-ompss.c:120-144 | A sweep leaves a grid unchanged if and only if every swept cell is the mean of its four neighbours |
| MaximumPrinciple.ResidualZeroIffSettled | trunk/dependencies/extrae/example/LINUX/MPI+OMPSS/solver-mpi-ompss.c:31-144 | An iteration of any of the three solvers has residual zero if and only if every swept cell of its input is the mean of its four neighbours |
| HeatMpi.SplitRows | trunk/dependencies/extrae/example/LINUX/MPI+OMPSS/heat-mpi-ompss.c:112-131 | The loop cuts rows 1..resolution into consecutive bands of resolution/numprocs rows, one more for each of the first resolution%numprocs ranks |
| HeatMpi.BandsEnd | trunk/dependencies/extrae/example/LINUX/MPI+OMPSS/heat-mpi-ompss.c:114-131 | The bands end exactly at the last interior row |
| HeatMpi.EveryRowHasOneOwner | trunk/dependencies/extrae/example/LINUX/MPI+OMPSS/heat-mpi-ompss.c:112-131 | For 2 <= numprocs <= resolution every interior row belongs to exactly one rank |
| HeatMpiRefinement.LocalRows | trunk/dependencies/extrae/example/LINUX/MPI+OMPSS/heat-mpi-ompss.c:149-149 | Relaxing a band with its halo rows gives the matching rows of the next sequential grid |
| HeatMpiRefinement.PartsAreResidual | trunk/dependencies/extrae/example/LINUX/MPI+OMPSS/heat-mpi-ompss.c:173-175 | The local residuals add up to the residual of the sequential iteration |
| HeatMpiLoops.ComputeBand | trunk/dependencies/extrae/example/LINUX/MPI+OMPSS/heat-mpi-ompss.c:265-270 | On a rank's arrays, the relaxation loops do exactly what the computing step does to its grids, residual included |
| HeatMpiLoops.CopyBand | trunk/dependencies/extrae/example/LINUX/MPI+OMPSS/heat-mpi-ompss.c:283-287 | On a rank's arrays, the copy loops do exactly what the copying step does |
| HeatMpiSafety.StepKeeps | trunk/dependencies/extrae/example/LINUX/MPI+OMPSS/heat-mpi-ompss.c:138-200 | Every step of any rank, in any interleaving, keeps the global invariant (bands, exchanged halo rows, residual parts, iteration numbers, neighbours in step) |
| HeatMpiSafety.RunsKeepInvariant | trunk/dependencies/extrae/example/LINUX/MPI+OMPSS/heat-mpi-ompss.c:112-200 | Every state of every run satisfies the invariant |
| HeatMpiSafety.BandsAgree | trunk/dependencies/extrae/example/LINUX/MPI+OMPSS/heat-mpi-ompss.c:260-288 | Whenever a rank is about to relax, both its arrays hold its band and halo rows of the sequential grid of its iteration, and all such ranks are in the same iteration |
| HeatMpiSafety.FinishedRunsAgree | trunk/dependencies/extrae/example/LINUX/MPI+OMPSS/heat-mpi-ompss.c:173-200 | When all ranks have finished, all left the loop at the same iteration, the first multiple of ten with a reduced residual below 0.00005 or at a limit above 0, and rank 0 holds the complete sequential result |
| HeatMpiProgress.NeverStuck | trunk/dependencies/extrae/example/LINUX/MPI+OMPSS/heat-mpi-ompss.c:151-156 | No reachable state with an unfinished rank is deadlocked, for any number of ranks and any interleaving of rendezvous exchanges |
| HeatMpiProgress.StepsComeNearer | trunk/dependencies/extrae/example/LINUX/MPI+OMPSS/heat-mpi-ompss.c:138-200 | Every step of every rank lowers one distance to the end |
| HeatMpiProgress.RunsAreBounded | trunk/dependencies/extrae/example/LINUX/MPI+OMPSS/heat-mpi-ompss.c:138-200 | In any arithmetic: when the sequential program stops at iteration k, no run has more than k(4n+1)+7n steps |
| HeatMpiProgress.RunsCanFinish | trunk/dependencies/extrae/example/LINUX/MPI+OMPSS/heat-mpi-ompss.c:138-200 | In any arithmetic: when the sequential program stops, every run goes on to one in which all ranks have finished |
| HeatMpiTermination.RunsEnd | trunk/dependencies/extrae/example/LINUX/MPI+OMPSS/heat-mpi-ompss.c:138-200 | Over reals one bound holds for all runs of the distributed program, for every grid, number of ranks and iteration limit |
| HeatMpiTermination.RunsGiveTheResult | trunk/dependencies/extrae/example/LINUX/MPI+OMPSS/heat-mpi-ompss.c:138-200 | Over reals every run goes on to one in which all ranks have finished and rank 0 holds the complete sequential result |
| HeatMpiProgress.EndlessWhenSequentialIs | trunk/dependencies/extrae/example/LINUX/MPI+OMPSS/heat-mpi-ompss.c:177-186 | For arithmetic other than the reals, where the exit test may never be met: then no run finishes |
| Levenshtein.Levenshtein | src/distributed_rdf.py:15-25 | The row-by-row computation, with cell -1 standing for the empty prefix, returns the distance of the recurrence, for all strings |
| Levenshtein.NoShorterScript | src/distributed_rdf.py:15-25 | No script of single insertions, deletions and substitutions from one string to the other is shorter than the distance |
| Levenshtein.ShortestScript | src/distributed_rdf.py:15-25 | Some script is exactly as long as the distance |
| Levenshtein.ZeroIffEqual | src/distributed_rdf.py:15-25 | The distance is zero exactly for equal strings |
| Levenshtein.Symmetric | src/distributed_rdf.py:15-25 | The distance is symmetric |
| Levenshtein.Triangle | src/distributed_rdf.py:15-25 | The distance satisfies the triangle inequality |
| Levenshtein.Bounds | src/distributed_rdf.py:15-25 | The distance lies between the difference and the larger of the lengths |
| Federation.AfterLast | src/distributed_rdf.py:43-47 | What splitting at a separator leaves last is the longest tail without the separator |
| Federation.SimilarIsSymmetric | src/distributed_rdf.py:34-41 | The name test gives the same answer in both orders |
| Federation.SimilarIff | src/distributed_rdf.py:34-41 | Two subjects are similar if and only if one name contains the other or at most three single-character edits turn one into the other |
| Federation.NameAfterHash | src/distributed_rdf.py:43-45 | With a # the name is what follows the last one |
| Federation.NameAfterSlash | src/distributed_rdf.py:46-47 | Without a # the name is what follows the last / |
| Federation.Copy | src/distributed_rdf.py:66-70 | The copy loop adds exactly the image of the graph under the subject substitution |
| Federation.MergeGraphs | src/distributed_rdf.py:55-78 | The result is exactly the image of both graphs under one substitution, that of the nested loops for some order of the countries. Of two similar names the second graph's is replaced if the first contains dbpedia, and the first graph's otherwise; for graphs without a common country every replacement is such a similar name, and every dbpedia country of the first graph stays |
| Federation.FillMapIsMapping | src/distributed_rdf.py:59-64 | In every order the dictionary has an entry for every similar pair and only replacements of similar pairs |
| Federation.StatementsKept | src/distributed_rdf.py:66-78 | Predicate-object pairs are neither changed, lost nor added |
| Federation.SubjectSurvives | src/distributed_rdf.py:66-78 | A replaced subject is still a subject of the result exactly if it is itself a replacement |
| Federation.NoSurvivorsIff | src/distributed_rdf.py:49-78 | For all graphs: no replaced subject is still a subject of the result, in any order of the countries, if and only if the graphs have no country in common and no country of the second graph is similar both to a dbpedia and to another country of the first |
| Federation.ExampleSubjectSurvives | src/distributed_rdf.py:49-78 | Two concrete graphs for which a replaced subject survives |
| Federation.UntypedGraphsAreUnited | src/distributed_rdf.py:57-78 | If no triple of one of the graphs has the predicate rdf:type written unexpanded, no subject is replaced and the result is the plain union |
| Federation.UntypedInputsAreUnited | src/distributed_rdf.py:139-142 | The same for all inputs of a query merged one after the other |
| Federation.UniformSourcesDoNotConflict | src/distributed_rdf.py:49-53 | There is no such country when all countries of the first graph are dbpedia ones, or none is |
| Federation.MergeAll | src/distributed_rdf.py:139-142 | All inputs of a query are merged one after the other, and the result has exactly the statements of all of them |
| Federation.FirstNamesStay | src/distributed_rdf.py:139-142 | A dbpedia country of the first input that no other input has is a country of the merged graph |
| QueryPartition.PartitionQuery | src/distributed_rdf.py:201-228 | The loops build the class subqueries and then the pair subqueries |
| QueryPartition.PartitionHolds | src/distributed_rdf.py:215-226 | There is one subquery for each class and one for each pair of classes, earlier-listed first, and no other |
| QueryPartition.JoinTriplets | src/distributed_rdf.py:85-89 | The join is the union of the graphs |
| QueryPartition.RetrievedIff | src/distributed_rdf.py:182-192 | A triple comes back if and only if one endpoint has it together with the class triples some subquery needs, or it is the reversal of an edge from a later-listed to an earlier-listed class |
| QueryPartition.SupportedIs | src/distributed_rdf.py:182-192 | That condition, written out: the endpoint has the triple, its subject is of a listed class, and its object is a literal or a class of the subject; or subject and object are of two listed classes, in this order, and the endpoint has the triple or its reversal |
| QueryPartition.PartitionIsCompleteIff | src/distributed_rdf.py:201-228 | A solution over the union of the endpoints is one over what the subqueries bring back if and only if each triple it matches is in some endpoint together with the class triples a subquery needs, or is the reversal of some endpoint's edge |
| QueryPartition.PartitionIsComplete | src/distributed_rdf.py:201-228 | In particular when each triple lies in one endpoint with its class triples, literals have a classed subject, and edges run from an earlier-listed to a later-listed class |
| QueryPartition.PartitionIsSoundIff | src/distributed_rdf.py:182-192 | Only triples of the endpoints come back if and only if the reversal of every later-to-earlier edge is in some endpoint anyway |
| QueryPartition.PartitionIsSound | src/distributed_rdf.py:182-192 | In that case every solution over what comes back is one over the union of the endpoints |
| QueryPartition.LaterToEarlierEdgeIsTurned | src/distributed_rdf.py:189-192 | A concrete query and endpoint where a later-to-earlier edge is lost and its reversal answers another query wrongly |
| QueryPartition.GetConsolidatedTriplets | src/distributed_rdf.py:92-107 | The consolidated graph is the union of all endpoints' answers |
| QueryPartition.ProcessQueries | src/distributed_rdf.py:264-283 | With the cache every query gets what asking all its subqueries afresh gives, and every subquery that occurs is asked exactly once |
| QueryPartition.MergeOfTypedDataIsUnion | src/distributed_rdf.py:139-145 | Over endpoints that type their data with full names only, the merged inputs have exactly the solutions of what came back |
| QueryPartition.RenamedSolution | src/distributed_rdf.py:66-78 | Where subjects are replaced, a solution over both graphs is, renamed, one over the merged graph, if it binds no object or predicate variable to a replaced subject and the query names none as a subject |
| QueryPartition.ReplacedObjectDangles | src/distributed_rdf.py:66-78 | A triple whose object was replaced stays, while no triple has that object as subject any more, unless it is itself a replacement |
| UfTable.AcceptsIffRoom | trunk/dependencies/extrae/src/tracer/UF_gcc_instrument.c:123-148 | An address is accepted if and only if one of the 65 slots probed for it is empty |
| UfTable.ProbedSlot | trunk/dependencies/extrae/src/tracer/UF_gcc_instrument.c:49-60 | The slots probed are the eighth of the address and the following ones, modulo 2^17 |
| UfTable.InsertsAtFirstEmpty | trunk/dependencies/extrae/src/tracer/UF_gcc_instrument.c:127-144 | An accepted address goes to the first empty slot probed, within 65 slots |
| UfTable.FoundWithin | trunk/dependencies/extrae/src/tracer/UF_gcc_instrument.c:150-163 | The search finds an address within 65 slots, and not behind an empty one |
| UfTable.InsertKeeps | trunk/dependencies/extrae/src/tracer/UF_gcc_instrument.c:123-148 | Adding keeps every entry reachable from its home slot without an empty slot between, and adds exactly the accepted address |
| UfTable.FoundIffContained | trunk/dependencies/extrae/src/tracer/UF_gcc_instrument.c:150-163 | The bounded search finds exactly the addresses in the table |
| UfTable.FoundNull | trunk/dependencies/extrae/src/tracer/UF_gcc_instrument.c:150-163 | Searching for NULL answers whether a probe for NULL would be accepted |
| UfTable.LookupAfterAnyRun | trunk/dependencies/extrae/src/tracer/UF_gcc_instrument.c:123-171 | After any sequence of resets and adds, lookup answers true exactly for the addresses accepted since the last reset |
| UfTable.InsertStats | trunk/dependencies/extrae/src/tracer/UF_gcc_instrument.c:127-144 | Adding an address changes occupied slots, collisions and total displacement by its own entry |
| UfTable.OccupiedSlots | trunk/dependencies/extrae/src/tracer/UF_gcc_instrument.c:127-143 | The count of a table is the number of its occupied slots |
| UfTable.DisplacedEntries | trunk/dependencies/extrae/src/tracer/UF_gcc_instrument.c:134-143 | Its collisions are the entries outside their home slot |
| UfTable.DistanceGrows | trunk/dependencies/extrae/src/tracer/UF_gcc_instrument.c:134-143 | An accepted address adds the number of slots it is from its home slot to the total displacement |
| UfTable.CountersAreTableStatsIff | trunk/dependencies/extrae/src/tracer/UF_gcc_instrument.c:123-171 | After any sequence of resets and adds, UF_count, UF_collisions and UF_distance are the occupied slots, displaced entries and total displacement if and only if no NULL was accepted since the last reset; UF_count alone decides it |
| UfTable.CountedNull | trunk/dependencies/extrae/src/tracer/UF_gcc_instrument.c:123-131 | After adding address 0 to an empty table one routine is counted and the table is empty |
| UfTable.FileForgetsThePast | trunk/dependencies/extrae/src/tracer/UF_gcc_instrument.c:177-195 | What a file leaves in the table and the counters does not depend on what was there before |
| UfTable.UserFunctions.constructor | trunk/dependencies/extrae/src/tracer/UF_gcc_instrument.c:53-62 | The static table starts out empty |
| UfTable.UserFunctions.ResetUFtoInstrument | trunk/dependencies/extrae/src/tracer/UF_gcc_instrument.c:165-171 | Resetting empties the table and the counters |
| UfTable.UserFunctions.AddUFtoInstrument | trunk/dependencies/extrae/src/tracer/UF_gcc_instrument.c:123-148 | Adding in place is the abstract insertion, and the counters are those of the operations so far |
| UfTable.UserFunctions.LookForUFaddress | trunk/dependencies/extrae/src/tracer/UF_gcc_instrument.c:150-163 | The search loop answers membership in the table |
| UfTable.UserFunctions.InstrumentRoutines | trunk/dependencies/extrae/src/tracer/UF_gcc_instrument.c:177-214 | Reading a file is a reset followed by adding its addresses; a missing file changes nothing; tracing is switched on when an entry was counted and never off |
| Queue.Ring.constructor | trunk/dependencies/extrae/src/common/queue.h:42-43 | An initialised head is an empty queue |
| Queue.Ring.IsNull | trunk/dependencies/extrae/src/common/queue.h:48-49 | Tells whether the queue is empty |
| Queue.Ring.GetHeadItem | trunk/dependencies/extrae/src/common/queue.h:79-79 | The front item, or NULL for an empty queue |
| Queue.Ring.GetNextItem | trunk/dependencies/extrae/src/common/queue.h:84-84 | The follower of an item, or NULL for the last one |
| Queue.Ring.InsertAfter | trunk/dependencies/extrae/src/common/queue.h:96-97 | Puts the item directly after the given node; next and prev stay mutually inverse along one cycle |
| Queue.Ring.InsertBefore | trunk/dependencies/extrae/src/common/queue.h:102-103 | Puts the item directly before the given node; the links stay one cycle |
| Queue.Ring.EnqueueHead | trunk/dependencies/extrae/src/common/queue.h:60-61 | Puts the item in front |
| Queue.Ring.Enqueue | trunk/dependencies/extrae/src/common/queue.h:90-91 | Puts the item at the end |
| Queue.Ring.Remove | trunk/dependencies/extrae/src/common/queue.h:54-55 | Takes exactly that item out; the links of the others stay one cycle |
| Queue.Ring.Dequeue | trunk/dependencies/extrae/src/common/queue.h:108-109 | Takes the front item off, or gives NULL and changes nothing when the queue is empty |
| Queue.Ring.DequeueNoCheck | trunk/dependencies/extrae/src/common/queue.h:116-117 | Takes the front item off; an empty queue stays as it is and its head is returned |
| Queue.Ring.InsertIncreasing | trunk/dependencies/extrae/src/common/queue.h:122-131 | The item goes behind the last one whose key is not larger |
| Queue.Ring.InsertDecreasing | trunk/dependencies/extrae/src/common/queue.h:136-145 | The same for decreasing keys |
| Queue.SortIsStable | trunk/dependencies/extrae/src/common/queue.h:122-131 | Inserting entries one by one gives a sorted permutation of them that keeps the order of equal keys |
| Queue.StableSortIsUnique | trunk/dependencies/extrae/src/common/queue.h:122-131 | Two sorted sequences that agree on the entries of every key, in order, are equal: that sort is the only stable one |
| Queue.InsertAll | trunk/dependencies/extrae/src/common/queue.h:122-131 | Queueing distinct items with the increasing insertion leaves the sort of their entries in the queue |
| Queue.Drain | trunk/dependencies/extrae/src/common/queue.h:108-109 | Dequeueing until NULL yields the queued items front to tail and empties the queue |
| Queue.SortItems | trunk/dependencies/extrae/src/common/queue.h:108-131 | Queueing distinct items with the increasing insertion and dequeueing until NULL yields their stable sort |
| ItemPool.Pool.AllocNewItem | trunk/dependencies/extrae/src/common/queue.h:243-271 | Gives the first free item, or the first of a new block of thirty, none of whose items was carved before; every item ever carved stays either live or on the acyclic free list, once |
| ItemPool.LiveAndFree | trunk/dependencies/extrae/src/common/queue.h:230-271 | Live and free items together are thirty times the number of blocks |
| ItemPool.Pool.FreeItem | trunk/dependencies/extrae/src/common/queue.h:312-317 | Puts a live item on the front of the free list; the carved items stay the same |
| ItemPool.Pool.NumItemsFree | trunk/dependencies/extrae/src/common/queue.h:396-403 | Counts the free list |
| ItemPool.Pool.ResetQueue | trunk/dependencies/extrae/src/common/queue.h:65-74 | Frees all queued items, last one first on the free list, and empties the queue; the carved items stay the same |
| ItemPool.LinkBlock | trunk/dependencies/extrae/src/common/queue.h:259-265 | The items of a new block form a chain that ends |
| ExhaustiveCounters.NextValue | trunk/dependencies/extrae/src/others/papi_best_set_old.c:73-82 | Adds one to the mask, in place, for every mask but the all-ones one |
| ExhaustiveCounters.IncrementBits | trunk/dependencies/extrae/src/others/papi_best_set_old.c:77-81 | Adding one clears the leading ones, sets the first zero and keeps the other bits |
| ExhaustiveCounters.CountActiveBits | trunk/dependencies/extrae/src/others/papi_best_set_old.c:84-93 | The result is the number of positions that are not 0 |
| ExhaustiveCounters.IsLastValue | trunk/dependencies/extrae/src/others/papi_best_set_old.c:95-103 | True exactly for the all-ones mask |
| ExhaustiveCounters.CheckMaxEventSet | trunk/dependencies/extrae/src/others/papi_best_set_old.c:135-203 | Terminates for every n >= 1, visits the values 1..2^n-1 once each in increasing order, and ends with exactly the valid masks of maximum bit count, once each and in that order |
| ExhaustiveCounters.AfterSetHolds | trunk/dependencies/extrae/src/others/papi_best_set_old.c:153-201 | Taking one more mask into account keeps the list exactly the best so far |
| ExhaustiveCounters.BestSetsExist | trunk/dependencies/extrae/src/others/papi_best_set_old.c:135-203 | With any valid set the list is not empty, and all its masks have one size, at least that of every valid set |
| ExhaustiveCounters.ListedIsLargest | trunk/dependencies/extrae/src/others/papi_best_set_old.c:153-201 | What is listed is valid and not empty; no valid non-empty set has more positions with a 1 than a listed one, and one with equally many is listed |
| ExhaustiveCounters.SomethingIsListed | trunk/dependencies/extrae/src/others/papi_best_set_old.c:153-201 | With any valid non-empty set the list is not empty |
| Masks.ValueInjective | trunk/dependencies/extrae/src/others/papi_best_set_old.c:73-82 | A mask is determined by its value |
| GreedyCounters.FindLargest | trunk/dependencies/extrae/src/others/papi_best_set.C:168-190 | Whenever the search ends it returns the first fitting mask that selects a maximum number of counters, or the empty one if nothing fits |
| GreedyCounters.SearchEndsIff | trunk/dependencies/extrae/src/others/papi_best_set.C:174-190 | With its 32-bit copy of the mask the search ends if and only if there are fewer than 32 counters or a set as large as the limit fits within the low 32 |
| GreedyCounters.FourEventsNeverEnd | trunk/dependencies/extrae/src/others/papi_best_set.C:174-190 | With 32 or more counters, no omnipresent ones and hardware that counts at most four events at a time, neither the search nor the grouping ends |
| GreedyCounters.EraseSelected | trunk/dependencies/extrae/src/others/papi_best_set.C:231-242 | Erasing from the highest bit down leaves exactly the counters not selected, in order |
| GreedyCounters.GroupCounters | trunk/dependencies/extrae/src/others/papi_best_set.C:439-460 | Whenever the search of every turn ends, the loop terminates; each group is a largest fitting set of what the earlier ones left over, and if counters are left over at the end nothing of them fits |
| GreedyCounters.SearchesEndIff | trunk/dependencies/extrae/src/others/papi_best_set.C:439-460 | All searches end if and only if each of the first turns, as long as full groups leave 32 counters or more, finds a group as large as the limit within the low 32 counters |
| GreedyCounters.FewCountersEnd | trunk/dependencies/extrae/src/others/papi_best_set.C:439-460 | With fewer than 32 counters the grouping ends whatever the oracle says |
| GreedyCounters.GroupsPartition | trunk/dependencies/extrae/src/others/papi_best_set.C:439-460 | Groups and left-over counters together are exactly the given counters |
| GreedyCounters.GroupsAreValid | trunk/dependencies/extrae/src/others/papi_best_set.C:439-460 | Every group is valid, not empty, within the limit and, like the left-over counters, in the given order |
| GreedyCounters.GroupsOfEight | trunk/dependencies/extrae/src/others/papi_best_set.C:176-185 | With at most eight omnipresent counters, each group and they are at most eight; no list of counters in no earlier group that makes at most eight with the omnipresent ones and is valid is longer than the group. With more omnipresent counters the limit wraps around and no list is too long |
| GreedyCounters.NoneOfEightLeft | trunk/dependencies/extrae/src/others/papi_best_set.C:448-456 | At an early stop no non-empty list of counters in no group that makes at most eight with the omnipresent ones is valid |
| GreedyCounters.LimitIsEightInAll | trunk/dependencies/extrae/src/others/papi_best_set.C:177-184 | The limit leaves room exactly for what makes eight counters with the omnipresent ones |
| GreedyCounters.GroupsAreDisjoint | trunk/dependencies/extrae/src/others/papi_best_set.C:439-460 | For distinct counters no counter is in two groups, or in a group and left over |
| GreedyCounters.GroupIsLargest | trunk/dependencies/extrae/src/others/papi_best_set.C:176-185 | No valid list of the counters left at that turn, within the limit, is longer than the group |
| GreedyCounters.LeftoversFitNowhere | trunk/dependencies/extrae/src/others/papi_best_set.C:448-456 | When counters are left over, no non-empty list of them within the limit is valid |
| TimeSync.Clocks.GetNodeId | trunk/dependencies/extrae/src/common/timesync.c:62-80 | Equal names get equal numbers and different names different ones |
| TimeSync.Clocks.Initialize | trunk/dependencies/extrae/src/common/timesync.c:87-137 | Every task starts unset with latency 0 |
| TimeSync.Clocks.SetInitialTime | trunk/dependencies/extrae/src/common/timesync.c:176-190 | Records the times and node of exactly that task |
| TimeSync.Clocks.CalculateLatencies | trunk/dependencies/extrae/src/common/timesync.c:197-265 | If some task is unset nothing changes; otherwise the latencies are those of the strategy, in 64-bit arithmetic |
| TimeSync.DesyncUndoesSync | trunk/dependencies/extrae/src/common/timesync.c:273-287 | TimeDesync undoes TimeSync and the other way round, for every time and latency, wrap-around included |
| TimeSync.SyncIsSum | trunk/dependencies/extrae/src/common/timesync.c:273-287 | A synchronised time is the time plus the latency modulo 2^64, a desynchronised one the difference |
| TimeSync.LatencyIsSigned | trunk/dependencies/extrae/src/common/timesync.c:257-260 | Every calculated latency is a signed 64-bit number |
| TimeSync.TaskPointsMeet | trunk/dependencies/extrae/src/common/timesync.c:215-226 | Under TS_TASK all synchronisation points are mapped to one time |
| TimeSync.NodePointsMeet | trunk/dependencies/extrae/src/common/timesync.c:227-249 | Under TS_NODE and TS_DEFAULT the latest synchronisation points of all populated nodes are mapped to one time |
| TimeSync.SameNodeSameShift | trunk/dependencies/extrae/src/common/timesync.c:243-246 | Under TS_NODE and TS_DEFAULT all tasks of a node have one latency |
| TimeSync.EarliestStartsAtZero | trunk/dependencies/extrae/src/common/timesync.c:251-260 | Under every strategy some task starts at exactly 0 |
| TimeSync.TimesMoveExactly | trunk/dependencies/extrae/src/common/timesync.c:251-276 | With times below 2^62 nothing wraps, under every strategy, TS_NOSYNC on fresh latencies included: from a task's start on, its times move by exactly the latency and none below 0 |
| TimeSync.LatenciesForgetThePast | trunk/dependencies/extrae/src/common/timesync.c:215-260 | Apart from TS_NOSYNC the result does not depend on the latencies before |
| TimeSync.RepeatingChangesNothing | trunk/dependencies/extrae/src/common/timesync.c:197-265 | Repeating the same strategy changes nothing |
| TimeSync.NoSyncShiftsTogether | trunk/dependencies/extrae/src/common/timesync.c:251-260 | TS_NOSYNC on latencies that are all 0 moves every task left by the earliest start and does nothing else |
| TimeSync.NoSyncUniformIff | trunk/dependencies/extrae/src/common/timesync.c:251-260 | After TS_NOSYNC all tasks have one latency if and only if they had one before, modulo 2^64 |
| TimeSync.NoSyncKeepsLatencies | trunk/dependencies/extrae/src/common/timesync.c:251-260 | TS_NOSYNC as a second calculation keeps the latencies of the first: it does not undo a synchronisation |
| TimeSync.NoSyncDoesNotUndo | trunk/dependencies/extrae/src/common/timesync.c:197-265 | Two concrete tasks that TS_NODE followed by TS_NOSYNC leaves moved against each other, and TS_NOSYNC alone does not |
| TimeSync.OneTaskPerNode | trunk/dependencies/extrae/src/common/timesync.c:215-249 | When no two tasks share a node, TS_NODE and TS_TASK give the same latencies |
| TraceNames.PrintedIsRead | trunk/dependencies/extrae/src/common/common.h:86-86 | A printed number stands for itself, and has exactly the fixed width if and only if it is small enough |
| TraceNames.NameLayout | trunk/dependencies/extrae/src/common/common.h:78-92 | A name is directory, /, prefix, @, host, a dot, 22 digits and the extension; the first ten digits are the pid, the next six the task and the last six the thread |
| TraceNames.OverflowsIffTooLarge | trunk/dependencies/extrae/src/others/genmpits.c:63-68 | Reading digits overflows an int on the way if and only if the number itself does not fit, and otherwise gives the number |
| TraceNames.NameRoundTrip | trunk/dependencies/extrae/src/others/genmpits.c:61-68 | For any prefix, pid below 2^31, task and thread below 10^6: task and pid are read back from the end of the printed name, and no value on the way overflows |
| TraceNames.TaskReadIff | trunk/dependencies/extrae/src/others/genmpits.c:61-64 | With a six-digit thread the task is read back if and only if it is below 10^6 |
| TraceNames.NamesDiffer | trunk/dependencies/extrae/src/common/common.h:86-92 | Equal names have equal pid, task, thread and beginning |
| TraceNames.ReadNumber | trunk/dependencies/extrae/src/others/genmpits.c:63-64 | The digit loop computes the 32-bit accumulated value of the characters |
| TraceNames.CompareFiles | trunk/dependencies/extrae/src/others/genmpits.c:81-101 | The callback compares the process ids read from the names |
| TraceNames.ComparesPids | trunk/dependencies/extrae/src/others/genmpits.c:81-101 | On printed names the comparison is the total order of the process ids |
| TraceNames.DumpFiles | trunk/dependencies/extrae/src/others/genmpits.c:54-79 | One line for each file, in order, with a separator before each later file of task 0 |
| TraceNames.ListingLayout | trunk/dependencies/extrae/src/others/genmpits.c:59-78 | The lines of the files come in order, with exactly one separator before each later file of task 0 and nothing else between, before or after |
| TraceNames.AlwaysSeparatesIff | trunk/dependencies/extrae/src/others/genmpits.c:70-107 | In every order sorting can give, the separators stand exactly between applications, if and only if each file of task 0 is the only one of its process and every file of another task belongs to the process with the smallest id |
| TraceNames.AlwaysSeparatesIffOneFileEach | trunk/dependencies/extrae/src/others/genmpits.c:70-107 | When every process has a task 0, that is if and only if no two files have the same process id |
| TraceNames.SecondThreadIsSeparated | trunk/dependencies/extrae/src/others/genmpits.c:70-72 | Two threads of one task 0 are separated from each other |
| TraceNames.SortingDoesNotSuffice | trunk/dependencies/extrae/src/others/genmpits.c:70-107 | Two files of one process, task 1 before task 0, are sorted and yet separated |

## Left out

- HeatSequential.Heat: takes an iteration that meets the exit test as a ghost argument, because in other arithmetic than the reals there may be none (`HeatTermination.RestlessNeverStops`); `HeatTermination.HeatOverReals` needs no such argument.
- HeatMpiRefinement.PartsAreResidual: adds real numbers, so it does not capture that a floating-point sum depends on the order of addition and that the distributed exit test may then fire at another iteration.
- GreedyCounters.GroupCounters: requires fewer than 63 counters, as the program asserts, and that the search of every turn ends; `SearchesEndIff` says when.
- UfTable.UserFunctions.AddUFtoInstrument: does not model the wrap-around of the 32-bit statistics counters.
- TimeSync.TimesMoveExactly: signed overflow is undefined in C; outside its bounds the other lemmas take it to wrap around.
- TraceNames.NameRoundTrip: does not model that the name is cut off at the size of the caller's buffer, nor negative process ids.
- The heat program's OmpSs tasks: modelled in program order, so the shared sum of the Jacobi solver has no races.
- The distributed program with the red-black and Gauss-Seidel solvers: its workers pass the full grid size for a band.
- The seven messages that start a worker are one rendezvous, and the all-reduce is one step that all ranks take together.
- In the state machine a rank's buffers are values; `HeatMpiLoops` ties its computing and copying steps to loops over arrays, while sending, receiving and gathering rows stay on values.
- Initial heat sources, image output, timing and the parser of the heat programs; 32-bit overflow of sizes and iteration numbers.
- The sameAs and differentFrom branches of the name test: they compare a generator with a string and never fire. Lower-casing is a parameter.
- Splitting the text of a query into triple patterns, and prefixes: queries start as parsed patterns, and the text of a subquery is taken to determine it. Queries that reuse the names of a subquery's own variables are not modelled.
- SPARQL endpoints, the local store, the task runtime, and asking whether inputs are already stored.
- PAPI itself, the kernels run to see whether a counter stays zero, and the exit when omnipresent counters clash: the oracle is total and fixed. Printing and the events' descriptions.
- The test for eight or more omnipresent counters runs before any is recorded and never fires, so it is not part of the model; the limit then wraps around as in the code.
- Parsing the routine file, including its last line without a line end; hashing of 4-byte pointers; emitting the trace events.
- The `_NP` variants of the queue macros, the zeroing and the traced variants of the allocator, and running out of memory.
- That a freed item is still referenced elsewhere: freeing is for live items that are on no queue.
- TimeSync tables are sequences reassigned row by row; freeing them, and initialising twice without freeing, is not modelled.
- qsort itself: results about sorted files hold for every order it can produce. Reading lists of file names.
- The XML configuration, signal handling, wrappers for JNI, DynInst, CUDA and OpenCL, installers and the XML-to-SQL converter; growable vectors, event tables and version packing would only add easy members.
