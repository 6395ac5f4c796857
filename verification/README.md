# A verified model of elm-wrap's core

elm-wrap resolves Elm package versions, keeps a registry of known packages, and
answers a few smaller questions about a project.  This project models the parts of
it where the logic is hard and proves what they guarantee:

- the conflict-driven version solver: range algebra, the assignment trail, unit
  propagation, decisions with lookahead, conflict analysis, backjumping and the
  budgeted solve loop (`Versions`, `Ranges`, `Terms`, `Clauses`, `Trails`,
  `Propagation`, `Bookkeeping`, `Decisions`, `Selections`, `Analysis`, `Walk`,
  `Solver`, `Scenarios`, `Counterexamples`);
- the registry the solver draws versions from, and its binary file format
  (`Registry`, `RegistryFile`, `RegistryStore`);
- import reachability (`ImportTree`), edit distance and bounded top-k suggestions
  (`EditDistance`, `Suggestions`), and the bump arena with size headers (`Machine`,
  `Arena`).

`dafny verify dfyconfig.toml` checks everything.

## How the solver is modelled

`Solver.PgSolver` has the fields of the C struct and one method for each of its
operations.  A clause is identified by its index in the list of all recorded
clauses, where the C code uses a pointer; the flag "attached" is a set of such
indices.  Ghost fields record the history of each clause (`origins`), the root
requirements, and the exit by which conflict analysis gave up.  Many methods begin
with `hide *`: they work only with the summaries stated in their contracts.

What every reachable state keeps is `Core`: the trail has its shape, each derived
entry has the clause that forced it, the package states, clause lists and version
cache agree with the plain data they abbreviate, and each decided version has its
dependencies on record.  The methods preserve it; the lemmas say what follows.

The dependency provider is a deterministic function that may answer "error".  Its
contract is that ranges are proper: not flagged empty and with bounds that are not
inverted.  `AddRootDependency` takes any range, but keeps the solver's invariants
only for proper ones; termination of propagation depends on that
(`Terms.NegationContradicts` says exactly how).  A solver is used as the header
describes: create, add root dependencies, solve; solving again after success
returns at once.

## What conflict analysis does and does not achieve

- It always ends.  Every recorded clause has at most one negative term, and exact
  positive terms unless it is a one-term no-versions clause
  (`Walk.RecordedShape`); once a package is down to one version nothing more is
  derived on it; so each satisfier that is resolved past comes before the previous
  one (`Walk.AnalysisStepsBack`), and an analysis makes at most as many resolutions
  as the trail is long (`Solver.PgSolver.ResolveConflict`).
- Every resolution is sound although it drops all terms on the eliminated package:
  `Clauses.ResolutionSoundIff` says when such a step is sound in general, and
  `Walk.EliminationLeavesNoEscape` that each step of the walk meets the condition.
- The one thing that is not checked about a clause on record is a no-versions
  clause.  It says that no version is left on the current trail and is used as if it
  held for the provider.  `Counterexamples.NoVersionsIsNotProof` is a run where the
  answer "no solution" is wrong for that reason alone: alpha 2.0.0 needs d 1.0.0,
  every q needs d 2.0.0, alpha 1.0.0 needs nothing, and alpha and q are required.
- A solution breaks every clause that descends from true no-versions clauses only
  (`Analysis.SolutionsBreakClauses`).  "No solution" is proved right, whatever the
  exit, when the clause it was given for is in conflict with entries from before the
  first decision above the root, and that clause and the causes of those entries
  descend from true no-versions clauses (`Analysis.Proven`,
  `Analysis.ProvenIsUnsolvable`).  Every exit at level 1, the root failure, and every
  exit that blames a root requirement or the root decision meets the first half by
  itself (`Analysis.BlamedRootIsSettled`); others may
  (`Counterexamples.ProvenDespiteTheExit`).
- Outside that condition the state does not tell whether the answer is right.  Alpha
  2.0.0 needs a package without versions: with an alpha 1.0.0 that needs nothing the
  answer "no solution" is wrong (`Counterexamples.BlamedDecisionIsNotProof`), without
  it the very same trail, clauses and exit give the right answer
  (`Counterexamples.SameStateRightAnswer`).  The cause is the exit "conflict at root
  level - no solution exists", which is also taken when a single decision above the
  root level is to blame.
- A conflict can have no single entry that settles one of its terms, and the answer
  is then wrong in `Counterexamples.NoSatisfierIsNotProof`: beta needs q below 2.0.0,
  alpha 2.0.0 needs q from 1.0.0 on, no q lies between, alpha 1.0.0 would do.
  `Walk.SatisfierExact` says exactly when a conflict has a satisfier; for a
  no-versions clause it takes one entry at least as tight as the clause at both ends
  (`Walk.BothBoundsExact`), which for one just recorded means one entry that carries
  both bounds of the combined range (`Walk.FreshNoVersionsExact`).
- A stop at a derived satisfier can have the current level as its target.  Then the
  jump undoes nothing, and the conflict stays, on every longer trail as well
  (`Walk.ConflictPersists`), so the next round meets a conflict again.  The clause an
  analysis ends on and its target level are functions of the state before
  (`Walk.Ending`, `Walk.StopsForUnique`), and `Solver.PgSolver.HandleConflict` says
  which outcome they lead to.  Where every conflict stops at the current level and
  nothing can be derived, nothing but the budget ends the search
  (`Solver.PgSolver.Rounds`).  `Counterexamples.StuckRound` is such a state of a
  problem with a solution: p 2.0.0 needs beta 1.0.0, which needs p below 2.0.0;
  p 1.0.0 would do.

Other places where the code does something other than its comments or the textbook
say, modelled as the code has them:

- A root requirement on the root package is not compared with the root version.
  A successful answer is a solution if and only if no such requirement contradicts
  it; `Counterexamples.ContradictoryRootRequirement` is the other case.
- The verdict "contradicted" on a positive term can come from a mere overlap with
  a forbidden range (`Trails.ContradictedByMereOverlap`); `Trails.ContradictedExact`
  says exactly when it is right.
- The subset test compares bounds, so it is complete on the discrete order of
  versions exactly for ranges with closed bounds (`Ranges.SubsetExact`).
- Propagation can leave a unit clause behind: exactly the clauses of one term on a
  package without any entry (`Propagation.UnitLeftBehind`).
- The registry reader checks neither unique keys nor the order of versions
  (`RegistryFile.ReadOkExact`).
- The registry writer cuts names to their length modulo 256
  (`RegistryFile.EntryReadsBack`, `RegistryFile.RoundTripExact`).
- Size arithmetic in the arena wraps for requests beyond half the address space
  (`Arena.FitsInExact`, `Arena.AlignUpExact`); the guarantees hold for every request
  whose sums do not wrap.

## Model

| member | source | states |
|---|---|---|
| Ranges.Intersect | src/pgsolver/pg_core.c:1828-1888 | bounds are the tighter ones on both sides for all inclusive, exclusive and missing ends; the empty flag is set exactly when they are inverted |
| Ranges.Subset | src/pgsolver/pg_core.c:549-599 | holds exactly when the left range is flagged empty or lies within the right one's bounds; the right one's flag is not looked at |
| Ranges.Contains | src/pgsolver/pg_core.c:1890-1916 | membership is lying between the two bounds of an unflagged range |
| Ranges.IntersectIsConjunction | src/pgsolver/pg_core.c:1828-1916 | the intersection holds exactly the versions in both ranges, inverted and flagged ranges included |
| Ranges.NarrowingKeeps | src/pgsolver/pg_core.c:593-599 | intersecting further breaks neither a subset nor an empty overlap |
| Ranges.SubsetExact | src/pgsolver/pg_core.c:549-599 | the subset test agrees with containment of versions, against every unflagged range, if and only if both bounds of the left range are closed |
| Ranges.NextMinorExact | src/pgsolver/pg_core.c:1796-1810 | the next-minor range holds exactly the later patches, if and only if the 16-bit successor does not wrap |
| Ranges.NextMajorExact | src/pgsolver/pg_core.c:1812-1826 | the next-major range holds exactly the later versions of the major, if and only if the successor does not wrap |
| Solver.PgSolver.TermStateNow | src/pgsolver/pg_core.c:601-668 | one pass over the trail computes the verdict given by the combined positive range and the negative overlaps |
| Terms.VerdictExact | src/pgsolver/pg_core.c:601-668 | seen as sets of positions in the version order: satisfied exactly when the combined range decides for the term everywhere, contradicted exactly when it decides against it or a forbidden range shares a position with a positive term |
| Terms.SatisfiedIsSound | src/pgsolver/pg_core.c:601-668 | a satisfied term holds in every model that agrees with the trail |
| Trails.ContradictedExact | src/pgsolver/pg_core.c:624-665 | a contradicted negative term fails in every agreeing model; a contradicted positive one does if and only if no version of its range is both unforbidden and in the combined positive range (if there is one) |
| Trails.PositiveFailsExact | src/pgsolver/pg_core.c:601-668 | the same condition for any positive term, whatever its verdict |
| Trails.ContradictedByMereOverlap | src/pgsolver/pg_core.c:624-647 | forbidding one version contradicts a term that every other version satisfies |
| Terms.StateSettles | src/pgsolver/pg_core.c:601-668 | on a growing trail no term becomes inconclusive again and a satisfied one stays satisfied |
| Terms.NegationContradicts | src/pgsolver/pg_core.c:670-687 | recording the negation of an inconclusive positive term contradicts it if and only if its range is proper |
| Propagation.PendingShrinks | src/pgsolver/pg_core.c:1247-1260 | each derivation strictly shrinks the set of inconclusive (clause, term) pairs |
| Solver.PgSolver.UnitPropagate | src/pgsolver/pg_core.c:1195-1269 | terminates; adds only entries derived at the current level, each justified by a clause; ends in an attached clause in conflict, or with an empty queue, no conflict, and an attached clause unit if and only if it has one term on a package without entries; a conflict there at the start is never passed over; with no unit clause it changes nothing |
| Propagation.UnitLeftBehind | src/pgsolver/pg_core.c:1195-1269 | what propagation leaves unit: exactly the clauses of one term on a package without entries |
| Propagation.WorklistAfterDerivation | src/pgsolver/pg_core.c:1247-1263 | every clause that calls for action after a derivation mentions a queued package or was still to be visited |
| Propagation.WorklistOfTrail | src/pgsolver/pg_core.c:799-804 | after a backjump it is enough to queue the packages of the trail |
| Propagation.WorklistAfterAdd | src/pgsolver/pg_core.c:504-547 | attaching a clause keeps the work list complete |
| Propagation.DerivedEntriesEntailed | src/pgsolver/pg_core.c:1195-1269 | a model that breaks the clauses behind the derived entries of a trail prefix and agrees with its requirements and decisions agrees with the whole prefix |
| Trails.DerivingKeepsTrail | src/pgsolver/pg_core.c:1247-1260 | derivations keep levels ordered, one decision a level, and every combined positive range proper |
| Trails.DecidingKeepsTrail | src/pgsolver/pg_core.c:1349-1367 | so does a decision inside the combined range |
| Trails.BackjumpKeepsTrail | src/pgsolver/pg_core.c:757-806 | so does a backjump to level 1 or above, which keeps all root requirements and the root decision right above them |
| Trails.PositiveContains | src/pgsolver/pg_core.c:271-310 | a version is in the combined range exactly when it is in every positive range of the package |
| Solver.PgSolver.PositiveRange | src/pgsolver/pg_core.c:271-310 | computes the combined range; fails only when it is not proper, which feasible trails rule out |
| Solver.PgSolver.PushAssignment | src/pgsolver/pg_core.c:726-755 | appends, queues the package and keeps the package states equal to what the trail gives |
| Solver.PgSolver.BacktrackTo | src/pgsolver/pg_core.c:757-806 | keeps exactly the entries up to the level; the rebuilt package states equal what pushing them would give; the queue lists their packages |
| Bookkeeping.StateMeaning | src/pgsolver/pg_core.c:726-797 | a package is marked used, or decided, exactly when the trail has such an entry |
| Solver.PgSolver.Attach | src/pgsolver/pg_core.c:504-547 | each package list holds each attached clause once per matching term; all its packages are queued |
| Bookkeeping.IndexFinds | src/pgsolver/pg_core.c:504-547 | an attached clause is listed under the package of each of its terms |
| Bookkeeping.PoppedPackage | src/pgsolver/pg_core.c:1207-1212 | clauses relying on a popped package are found in its list |
| Solver.PgSolver.FetchVersions | src/pgsolver/pg_core.c:1007-1073 | the cache answers what the provider answers, and reports its errors |
| Solver.PgSolver.VersionWouldConflict | src/pgsolver/pg_core.c:923-988 | true exactly when some listed clause would be satisfied by choosing the version |
| Decisions.LookaheadExact | src/pgsolver/pg_core.c:923-988 | for a version in the combined range the lookahead agrees with the state right after pushing that decision |
| Decisions.ChoiceSettlesNone | src/pgsolver/pg_core.c:1082-1099 | a chosen version satisfies no attached clause |
| Solver.PgSolver.CountCandidates | src/pgsolver/pg_core.c:1075-1099 | counts the versions that pass the three tests, in list order, and returns the first; `Decisions.CandidatesExact` says which versions those are |
| Decisions.AcceptableExact | src/pgsolver/pg_core.c:1082-1099 | the three tests leave out exactly the versions that are out of the combined range, forbidden, or would put an attached clause in conflict once decided |
| Decisions.CandidatesExact | src/pgsolver/pg_core.c:1007-1122 | the candidates are exactly the offered versions that could be decided without that |
| Decisions.CandidatesConcat | src/pgsolver/pg_core.c:1082-1099 | in the provider's order, each as often as it is listed |
| Decisions.ClashesAtAnyLevel | src/pgsolver/pg_core.c:1082-1099 | whether a decision puts a clause in conflict does not depend on its level |
| Decisions.NoCandidates | src/pgsolver/pg_core.c:1101-1119 | a package has no candidates exactly when no offered version could be decided |
| Decisions.ChoiceLeavesNothingNewer | src/pgsolver/pg_core.c:1082-1099 | with versions newest first, every newer offered version is out of range, forbidden, or would put an attached clause in conflict |
| Decisions.ChoiceIsNewest | src/pgsolver/pg_core.c:1082-1099 | with versions newest first, the choice is the newest acceptable version |
| Solver.PgSolver.PickPackage | src/pgsolver/pg_core.c:1295-1347 | the undecided package with the fewest candidates, the smallest number on a tie; or a package with none; or every required package is decided |
| Solver.PgSolver.RegisterDependencies | src/pgsolver/pg_core.c:1129-1173 | afterwards every dependency of the version is an attached clause; the clauses added are one for each dependency, in order, and no others |
| Solver.PgSolver.MakeDecision | src/pgsolver/pg_core.c:1271-1384 | pushes, one level up, a version of the package with the fewest candidates that could be decided while nothing newer could, without satisfying any earlier clause; or records a no-versions clause in conflict when no offered version could be decided; or finds nothing left to decide; fails only if the provider does; the recorded clause has a satisfier exactly when one entry carries both bounds of the combined range |
| Solver.PgSolver.Decide | src/pgsolver/pg_core.c:2074-2090 | a conflict it returns is the clause just recorded for a required package none of whose offered versions could be decided; every no-versions clause on record keeps the state it was recorded in (`Analysis.OriginOk`) |
| Solver.PgSolver.FindSatisfier | src/pgsolver/pg_core.c:1434-1512 | the end of the shortest trail prefix whose entries settle every term on their own, and the first term settled there; none exactly when some term is never settled |
| Terms.SettlesIsSound | src/pgsolver/pg_core.c:1386-1410 | a recorded fact that settles a term makes it hold in every model of the fact |
| Terms.SettlesExact | src/pgsolver/pg_core.c:1386-1410 | one fact settles a term if and only if the term is true at every position, or absence, at which the fact is |
| Analysis.LastLevelExact | src/pgsolver/pg_core.c:1412-1432 | with ordered levels, the level found for a term is the highest of all entries that settle it, 0 when there is none |
| Analysis.LastLevelIsLatest | src/pgsolver/pg_core.c:1412-1432 | and always that of the entry that settles it last |
| Solver.PgSolver.PreviousLevelOf | src/pgsolver/pg_core.c:1514-1536 | the highest level of any entry that settles a term on another package, 0 when there is none |
| Solver.PgSolver.ResolveTerms | src/pgsolver/pg_core.c:1560-1628 | the terms of both clauses, in order, without those on the eliminated package |
| Clauses.ResolventInOrder | src/pgsolver/pg_core.c:1560-1628 | left before right, each term kept in its place or dropped with the eliminated package |
| Clauses.ResolutionSoundIff | src/pgsolver/pg_core.c:1560-1628 | the resolvent follows from its parents if and only if no choice for the eliminated package fails a dropped term on both sides, whenever the other terms can hold together |
| Clauses.SatisfierLeavesNoEscape | src/pgsolver/pg_core.c:1560-1628 | one term a side, linked by the satisfier, meets that condition |
| Walk.RecordedShape | src/pgsolver/pg_core.c:1101-1170 | every clause ever recorded has at most one negative term; its positive terms are exact, or it is a no-versions clause with one term |
| Walk.EliminationLeavesNoEscape | src/pgsolver/pg_core.c:1560-1628 | no resolution of the walk loses anything: no choice for the eliminated package fails a dropped term on both sides |
| Walk.DerivedIsNotRoot | src/pgsolver/pg_core.c:1247-1260 | nothing is ever derived about the root package |
| Walk.SatisfiedIsWithinReach | src/pgsolver/pg_core.c:1434-1512 | what a trail prefix satisfies is settled by one entry of that prefix, or first settled where the walk stops |
| Walk.AnalysisStepsBack | src/pgsolver/pg_core.c:1642-1767 | after a resolution the next satisfier is strictly earlier, or a decision, where the walk stops |
| Walk.ResolutionStep | src/pgsolver/pg_core.c:1560-1628 | the resolvent is proper and in conflict again, its history is on record, and it is within reach of the satisfier |
| Walk.SatisfierExact | src/pgsolver/pg_core.c:1434-1512 | a recorded clause in conflict has a satisfier if and only if the package of each exact positive term has an exact entry, one entry is at least as tight as each other positive term at both ends, and the root package misses each negative term on it (which only a contradicted root requirement can prevent) |
| Walk.BothBoundsExact | src/pgsolver/pg_core.c:1434-1512 | a satisfied positive term has an entry as tight as it at each end, and a single entry that settles it if and only if one entry serves for both ends |
| Walk.FreshNoVersionsExact | src/pgsolver/pg_core.c:1101-1119 | the no-versions clause just recorded has a satisfier if and only if one entry carries both bounds of the combined range |
| Walk.StopsForUnique | src/pgsolver/pg_core.c:1642-1692 | trail and terms determine the level an analysis goes back to |
| Walk.ConflictPersists | src/pgsolver/pg_core.c:601-668 | a clause in conflict is in conflict on every longer trail |
| Solver.PgSolver.Examine | src/pgsolver/pg_core.c:1642-1752 | one round of the walk: which exit, with the clause the failure explanation starts from, or the stop rule with the previous level as target, or the satisfier to resolve with |
| Solver.PgSolver.ResolveConflict | src/pgsolver/pg_core.c:1630-1768 | always ends, after at most trail length resolutions; every clause it records is its predecessor resolved with the cause of the predecessor's satisfier; it ends on the terms the state before determines, with a learned clause in conflict exactly when those terms stop the walk above level 0, otherwise at one of the exits; the backjump level is the highest level of any entry that settles a term on another package than the satisfier's |
| Analysis.RootRequirementExit | src/pgsolver/pg_core.c:1694-1751 | an uncaused entry that was not decided is a root requirement, so the internal-error exit is unreachable |
| Counterexamples.BlamedDecisionIsNotProof | src/pgsolver/pg_core.c:1676-1690 | a sound state at the root-level exit, with true no-versions clauses, and a solution to the problem |
| Counterexamples.SameStateRightAnswer | src/pgsolver/pg_core.c:1676-1690 | the same trail, clauses and exit for a problem without solution, and not in conflict with root entries |
| Counterexamples.ProvenDespiteTheExit | src/pgsolver/pg_core.c:1676-1690 | an exit that blames a decision above the root, in a state where the root entries alone prove the answer |
| Counterexamples.NoSatisfierIsNotProof | src/pgsolver/pg_core.c:1654-1661 | a wrong answer at the exit without a satisfier, with true no-versions clauses; no entry carries both bounds |
| Counterexamples.NoVersionsIsNotProof | src/pgsolver/pg_core.c:1101-1119 | a no-versions clause that is not true of the provider makes the answer wrong although the conflict is with root entries |
| Counterexamples.StuckRound | src/pgsolver/pg_core.c:1674-1690 | a stuck state of a problem with a solution: the one conflict is answered with a jump to the current level and nothing can be derived |
| Analysis.SolutionsBreakClauses | src/pgsolver/pg_core.c:1101-1170 | every solution breaks every recorded clause that descends from true no-versions clauses only |
| Analysis.SettledAtRootHolds | src/pgsolver/pg_core.c:1630-1768 | terms that entries of levels 0 and 1 satisfy hold in every solution that breaks the causes of those entries |
| Analysis.ProvenIsUnsolvable | src/pgsolver/pg_core.c:1647-1751 | whatever the exit, giving up on a clause in conflict with such entries proves that there is no solution, if that clause and their causes rest on true no-versions clauses |
| Analysis.BlamedRootIsSettled | src/pgsolver/pg_core.c:1647-1751 | every exit at level 1, the root failure, and every exit that blames an entry of level 0 or 1 is such a conflict |
| Solver.PgSolver.Backjump | src/pgsolver/pg_core.c:2109-2123 | attaches the learned clause, returns to the target level and restores the work list; something is undone if and only if the target is below the current level |
| Solver.PgSolver.HandleConflict | src/pgsolver/pg_core.c:2093-2123 | the state before decides: the search goes on, at the level the terms of the walk's end stop for, exactly when they stop it above level 0, otherwise the answer is "no solution" with the exit on record; a level is undone or the trail is as it was with a clause in conflict; a conflict that stops at the current level changes neither trail nor clauses |
| Solver.PgSolver.Rounds | src/pgsolver/pg_core.c:2060-2123 | the main loop ends; with a budget spent it stops at once; started in a stuck state it can only run out of budget, with the trail and the clauses as they were |
| Solver.PgSolver.AddRootDependency | src/pgsolver/pg_core.c:855-890 | for any range, records the requirement exactly when the id is valid and the combined range stays non-empty |
| Solver.PgSolver.Solve | src/pgsolver/pg_core.c:2025-2127 | always ends; on success the selection is a complete consistent solution if and only if no root requirement contradicts the root version, and then agrees with the whole trail; "no solution" is right whenever the clause on record is in conflict with root entries and rests on true no-versions clauses; an internal error means that the provider failed; the explanation starts from the clause of the exit; decisions, propagations and conflicts never exceed their budgets, and the budget status means that some budget is used up |
| Selections.QuietTrailIsSolution | src/pgsolver/pg_core.c:2025-2159 | a quiet, fully decided trail reports a solution if and only if no root requirement contradicts the root version |
| Selections.SelectionAgrees | src/pgsolver/pg_core.c:2025-2159 | with fitting root requirements the final selection agrees with every entry of the trail, the forbidding ones included |
| Trails.DerivingKeepsPermitted | src/pgsolver/pg_core.c:892-917 | no later entry forbids a version once it is decided |
| Selections.SelectedIsDecided | src/pgsolver/pg_core.c:2129-2159 | the first exact positive entry names exactly the decided version |
| Solver.PgSolver.GetSelectedVersion | src/pgsolver/pg_core.c:2129-2159 | returns the first exact positive entry of the package |
| Counterexamples.ContradictoryRootRequirement | src/pgsolver/pg_core.c:1999-2016 | a final state that reports the required instead of the root version |
| Registry.CompareKeysTransitive | src/registry.c:58-66 | author and name order is transitive |
| Registry.CompareTextExact | src/registry.c:58-66 | the text comparison is negative exactly when the first text is a proper prefix or has the smaller byte at the first difference |
| Registry.CompareKeysExact | src/registry.c:58-66 | the author decides, and within one author the name |
| Registry.SortedIsAlphabetical | src/registry.c:69-73 | sorted means that each key comes before all later ones in that order |
| Registry.SortEntriesSorts | src/registry.c:69-73 | sorting yields a sorted permutation |
| Registry.SortedUnique | src/registry.c:69-73 | with unique keys the sorted permutation is the only one |
| RegistryFile.VersionRoundTrip | src/registry.c:105-150 | every 16-bit version survives the short or the 255-tagged long encoding |
| RegistryFile.VersionLayout | src/registry.c:134-150 | three bytes exactly when major is below 255 and minor and patch below 256, otherwise the tag 255 and three eight-byte numbers, major, minor, patch |
| RegistryFile.ReadVersionExact | src/registry.c:105-131 | what the reader makes of any bytes: short or tagged, numbers beyond 65535 cut to it, too few bytes refused |
| RegistryFile.VersionShortest | src/registry.c:105-150 | no encoding that reads as a version is shorter than the one written |
| RegistryFile.MostSignificantFirst | src/registry.c:17-45 | numbers are big-endian |
| RegistryFile.CStringExact | src/registry.c:218-250 | a name read is the longest prefix of its bytes without a NUL |
| RegistryFile.EntryLayout | src/registry.c:370-425 | where author, name, newest version, count and older versions stand in a written entry |
| RegistryFile.HeaderLayout | src/registry.c:353-368 | the counter comes first, then the number of entries |
| RegistryFile.EntryRoundTrip | src/registry.c:218-324 | every entry with a version and short NUL-free names survives |
| RegistryFile.EntryReadsBack | src/registry.c:218-425 | with names of any length an entry is read back with each name cut to its length modulo 256 and its versions as they were |
| RegistryFile.RoundTrip | src/registry.c:153-437 | reading back the written bytes, whatever follows them, gives the same counter and the same entries up to the key sort |
| RegistryFile.ReadsBack | src/registry.c:153-437 | the same for whole registries with names of any length |
| RegistryFile.WriteShortest | src/registry.c:153-437 | no readable file that stores the same is shorter than the one written |
| RegistryFile.TruncatedIsUnreadable | src/registry.c:153-437 | a written file cut short anywhere is refused |
| RegistryFile.ReadIgnoresTail | src/registry.c:153-335 | bytes after a readable file are ignored |
| RegistryFile.HugeCountsRefused | src/registry.c:180-290 | counts beyond what an array can hold are refused |
| RegistryFile.RoundTripExact | src/registry.c:338-437 | and that if and only if all names are shorter than 256 bytes |
| RegistryFile.ReadOkExact | src/registry.c:153-335 | a readable file gives unique keys and newest-first versions if and only if it stores them so |
| RegistryFile.ReloadExact | src/registry.c:153-437 | a registry with unique keys survives saving and loading, as one with unique keys and the same versions for the same packages, if and only if all names are shorter than 256 bytes |
| RegistryStore.Store.Open | src/registry.c:153-335 | loads exactly the readable files; the registry is valid if and only if the file stores unique keys and newest-first versions |
| RegistryStore.Store.SaveTo | src/registry.c:338-437 | fails exactly when an entry has no versions; what it writes survives loading if and only if all names are short |
| RegistryStore.Load | src/registry.c:153-335 | the reader's loops compute the specified parse, failing on every short or oversized count; the entries are those stored, in alphabetical order |
| RegistryStore.Save | src/registry.c:338-437 | the writer's loop produces the specified bytes (`RegistryFile.HeaderLayout`, `RegistryFile.EntryLayout`, `RegistryFile.VersionLayout`) and fails on an entry without versions |
| RegistryStore.Store.AddVersion | src/registry.c:491-554 | set insertion that keeps keys unique and versions newest first; a new package comes last; the counter moves only when asked and needed, with the saturation case |
| RegistryStore.Store.RemoveVersion | src/registry.c:560-628 | set deletion; the package goes with its last version; the counter moves only when asked and needed |
| RegistryStore.Store.Merge | src/registry.c:710-735 | set union with a readable file, counter untouched, entries left in alphabetical order; nothing changes otherwise |
| RegistryStore.Store.ResolveConstraint | src/registry.c:631-661 | the greatest listed version in the range, or none when there is none |
| ImportTree.Collector.Collect | src/import_tree.c:215-247 | terminates on every finite import graph and adds only reachable files, closed under imports |
| ImportTree.ReachableFiles | src/import_tree.c:408-425 | exactly the files reachable from the start, each once |
| ImportTree.Analyze | src/import_tree.c:408-443 | included is the duplicate-free union over the exposed modules, redundant exactly the remaining source files in order |
| ImportTree.UnneededMembers | src/import_tree.c:436-443 | a source file is redundant exactly when no exposed module reaches it |
| ImportTree.UnneededConcat | src/import_tree.c:436-443 | redundant files keep the order of the listing |
| EditDistance.OsaDistance | src/package_suggestions.c:9-76 | three rotating rows compute the recursive alignment distance |
| EditDistance.NoCheaperScript | src/package_suggestions.c:38-61 | no edit script is cheaper than the distance |
| EditDistance.BestScript | src/package_suggestions.c:38-61 | some edit script costs exactly the distance |
| EditDistance.DistanceLaws | src/package_suggestions.c:9-76 | symmetric, zero exactly on equal strings, between the length difference and the longer length |
| Suggestions.StableSortIsStable | src/package_suggestions.c:94-134 | the specified sort sorts, permutes and keeps ties in arrival order |
| Suggestions.TakeInsert | src/package_suggestions.c:94-134 | forgetting all but the first k entries before an insertion does not show in the first k after it |
| Suggestions.Consider | src/package_suggestions.c:136-157 | early rejection and shifting insertion keep the first four of the stable order |
| Suggestions.ScoreIsCheapest | src/package_suggestions.c:70-92 | a score is the least number of edits for the name and, unless the author is one of the two official ones, for the author |
| Suggestions.UsableExact | src/package_suggestions.c:159-199 | the competing listed packages are exactly those with a usable version, in registry order |
| Suggestions.SuggestNearby | src/package_suggestions.c:200-209 | the array ends as the first four of the stable sort of all scored candidates |
| Suggestions.SuggestNearbyListed | src/package_suggestions.c:159-199 | the same over the listed packages that have a usable version, in registry order |
| Arena.AlignUpExact | src/larena.h:30-33 | the round-up is right if and only if it does not wrap |
| Arena.CallocGuardExact | src/alloc.c:62-71 | the guard rejects exactly the products that do not fit |
| Arena.FitsInExact | src/larena.h:101-116 | the test for room is right if and only if its sum does not wrap to a small number |
| Arena.SmallIsSafe | src/larena.h:94-123 | in every state, no sum wraps for requests up to half the address space |
| Arena.NewAllocation | src/larena.h:94-123 | a new stretch is aligned, inside its block and apart from every allocation handed out |
| Arena.AllocationsDisjoint | src/alloc.c:33-56 | payloads and headers of different allocations share no byte |
| Arena.Allocator.LarenaAlloc | src/larena.h:94-123 | when the newest block has room, the aligned stretch behind what is used; otherwise none when malloc refuses, and nothing changes; otherwise, unless a sum wraps, the start of a new block of the larger of the block size and the aligned request, or none when that is larger than any object |
| Arena.Allocator.AllocWithHeader | src/alloc.c:33-56 | any request: refused by the guard or by malloc and, unless a sum wraps, for no other reason; otherwise a new allocation of the granted size, zeroed on request, touching no other |
| Arena.Allocator.Calloc | src/alloc.c:62-71 | zeroed array, refused when the product does not fit |
| Arena.Allocator.Realloc | src/alloc.c:73-97 | shrinks in place or moves; the first bytes survive and no other allocation changes |

## Left out

- Solver.PgSolver.Solve: calling it again after a failure is not modelled; the header describes one solve per solver.  After a root requirement with an improper range nothing is promised of it.
- Solver.PgSolver.MakeDecision: the no-versions clause is recorded by the caller of the candidate evaluation instead of inside it; the order of effects is the same.
- Completeness of the solver and unit-ness of learned clauses: the code provides neither.
- Allocation failure outside the arena, integer overflow of package ids and counters, and negative package ids other than in the public calls.
- The provider's truncation to 128 versions or dependencies, downloads, and answers that change between calls: the provider is a function of its arguments.
- Failure explanation text, statistics output, logging.
- Arena.Allocator.LarenaAlloc: where a sum wraps the code is modelled as it is, but nothing is promised; whether malloc succeeds on a size below the largest object is a parameter.
- Header words and payload bytes of the arena are kept in two maps; that the header lies in front of its payload shows in the layout, not in the bytes.
- EditDistance.OsaDistance: 32-bit wrap-around of distances, for strings of more than four billion characters.
- The library sort of registry entries, of which only the effect is modelled; file creation, temporary files and renaming; allocation failure for huge counts.
- Registry capacity, and entries created without a version.
- ImportTree.ReachableFiles: finding files on disk, elm.json and import parsing are given functions, and parsing is taken to depend on the absolute path only.
- ImportTree.ReachableFiles: the order in which files are found is not stated.
- Solver.PgSolver.UnitPropagate: the order in which queued packages and their clauses are visited is modelled but not stated.
- Network, HTTP, archives, commands, tree-sitter code, package maps, interning, install plans and version-string parsing.
