# VCS_SOLVE bookkeeping, modelled in Dafny

Cantera's VCS equilibrium solver keeps its working data in the `VCS_SOLVE`
object, held in its own internal order of species and elements. The
caller describes a problem in a `VCS_PROB` object. This project models the
bookkeeping around the minimisation in `Cantera/src/equil/vcs_solve.cpp`:

- the object's construction, sizing (`InitSizes`) and release
  (`delete_memory`);
- the full import of a problem statement (`vcs_prob_specifyFully`) and the
  incremental import of a problem of the same shape (`vcs_prob_specify`);
- the export of the results back to the caller (`vcs_prob_update`);
- the counter reset (`vcs_counters_init`);
- the `vcs()` driver that strings these together.

Layout:

- `vcs_defs.dfy` (module `VcsDefs`): return codes, type tags, the per-phase
  record `VolPhase` and the `Counters` class.
- `vcs_spec.dfy` (module `VcsSpec`): pure definitions the loops are proved
  against, with lemmas about them. These cover the species arrangement and
  the export's search that inverts it, gather and scatter, the element
  abundance, the species to phase map, the per-phase respecify and export
  rules, and the decision `InitSizes` makes.
- `vcs_transfer.dfy` (module `VcsTransfer`): one method per index loop of
  the source. Each takes the vectors it reads, returns the vectors it
  writes, and is proved against `VcsSpec`.
- `vcs_prob.dfy` (module `Prob`): the caller's `VCS_PROB`, as a class with
  the fields the bookkeeping reads and writes.
- `vcs_workspace.dfy` (module `Work`): the data members of `VCS_SOLVE` as a
  record. It also holds the allocation done by `InitSizes` and the release
  done by `delete_memory`.
- `vcs_import.dfy` (module `Import`): the full import, stage by stage. Each
  stage has a predicate saying what it establishes, and a lemma composes
  the stages.
- `vcs_solve.dfy` (module `Solve`): the class `VcsSolve` holding the
  workspace and the counters, with the source's member functions.

The routines `vcs()` calls that lie outside this file are represented by
what they report, gathered in `Solve.Externals`:

- `vcs_prep_oneTime`, `vcs_prep`, `vcs_wellPosed`, `vcs_TP` and `vcs_TV`
  contribute their return codes;
- `vcs_SSPhase`, `vcs_prep` and the minimisation contribute the workspaces they leave behind;
- `vcs_tmoles` contributes its phase totals;
- `vcs_VolTotal` contributes its volume;
- `vcs_second` contributes the elapsed time.

## Model

| member | source | states |
|---|---|---|
| Solve.VcsSolve.constructor | Cantera/src/equil/vcs_solve.cpp:30-58 | every count the source initialises, every condition and every tolerance is zero (the reduced reaction count, which the source leaves uninitialised, is not stated); units are unitless, nothing is allocated and there are no counters |
| Solve.VcsSolve.DeleteMemory | Cantera/src/equil/vcs_solve.cpp:226-247 | The counters become null and the workspace becomes its released form, with zero capacities, element count and component count and every other member kept. |
| Work.Released | Cantera/src/equil/vcs_solve.cpp:226-247 | a released workspace records sizes (0, 0, 0) and is no longer allocated; every other member is kept |
| Solve.VcsSolve.CountersInit | Cantera/src/equil/vcs_solve.cpp:1004-1019 | the per-solve counts and times become zero; a non-zero ifunc also zeroes the running totals, and ifunc 0 keeps them |
| Solve.VcsSolve.InitSizes | Cantera/src/equil/vcs_solve.cpp:60-215 | a workspace in use with the same sizes is kept untouched; otherwise the sizes are stored; a non-positive size throws VCS_PUB_BAD; accepted sizes give the allocated workspace and fresh counters reset in full |
| Work.StoredSizes | Cantera/src/equil/vcs_solve.cpp:70-74 | the three sizes, the species total and the component count take the requested values; nothing else changes |
| Work.Allocated | Cantera/src/equil/vcs_solve.cpp:70-206 | the workspace is allocated with exactly the requested sizes; every vector is Resize of the old one to its new length, so existing entries are kept and new entries take the source's initial values (0, mole-number type, major, absolute-positive element, active); every phase is fresh |
| Work.AllocatedAfterRelease | Cantera/src/equil/vcs_solve.cpp:62-74 | releasing before reallocating makes no difference to the allocated workspace |
| VcsSpec.InitSizesAction | Cantera/src/equil/vcs_solve.cpp:62-95 | keep exactly when the workspace is in use and the sizes repeat; reject exactly when a different request has a non-positive size |
| VcsSpec.SizesAfter | Cantera/src/equil/vcs_solve.cpp:62-74 | kept sizes stay; otherwise the request is recorded, rejected or not |
| VcsSpec.InitSizesIdempotent | Cantera/src/equil/vcs_solve.cpp:62-74 | repeating an accepted request keeps the workspace |
| VcsSpec.RepeatedRejectIsKept | Cantera/src/equil/vcs_solve.cpp:62-95 | a rejected request with a non-zero species size is rejected once and then kept silently when repeated |
| Work.RequestedSizes | Cantera/src/equil/vcs_solve.cpp:310-314 | vcs() asks for ten spare species slots and the problem's element and phase counts |
| Work.RequestedSizesFit | Cantera/src/equil/vcs_solve.cpp:452-466 | a workspace sized for a problem's request passes the capacity check for that problem |
| Work.Workspace.Fits | Cantera/src/equil/vcs_solve.cpp:452-466 | a problem fits when its species and phase counts are within the capacities and its element count within the stored element count, the three size checks of the full import |
| Solve.VcsSolve.ProbSpecifyFully | Cantera/src/equil/vcs_solve.cpp:441-758 | an oversized problem is refused with VCS_PUB_BAD and no change; success holds exactly when the goals are available, the phase map is acceptable and no "cn_" name conflicts; a conflict aborts; success establishes the full import |
| Import.ImportAll | Cantera/src/equil/vcs_solve.cpp:468-752 | the stages run in order and stop at the first failure; success and abort conditions are as for the full import; on success every stage's predicate holds against the starting workspace |
| Import.StagesCompose | Cantera/src/equil/vcs_solve.cpp:468-752 | five stage results, each taken against the workspace before it, together give the whole import against the first workspace |
| Import.ImportExportRoundTrip | Cantera/src/equil/vcs_solve.cpp:548-551 | after a full import with a mole-number estimate, exporting the mole numbers back gives the caller's estimate for every species except interfacial voltages, which come back as zero |
| Import.SpeciesImported | Cantera/src/equil/vcs_solve.cpp:468-576 | the counts, the formula-matrix block (the rest of the matrix kept), weights, charges, unknown types and mole numbers (zeros without an estimate) are the caller's, and the goals are copied or derived from the estimate |
| Import.ConditionsImported | Cantera/src/equil/vcs_solve.cpp:578-624 | temperature and pressure (defaults when not positive), inert moles, units and tolerances are the caller's; species and elements get the identity arrangement and every species is major; the entries past the problem's counts are kept |
| Import.PhaseMapImported | Cantera/src/equil/vcs_solve.cpp:625-663 | each species has the caller's phase and its slot among that phase's species, or phase 0 and its own index without a map; the entries past nspecies are kept |
| Import.ElementsImported | Cantera/src/equil/vcs_solve.cpp:664-685 | element names, types and activity flags are the caller's, and every "cn_" element is a charge-neutrality constraint |
| Import.PhasesImported | Cantera/src/equil/vcs_solve.cpp:686-752 | species names, partial molar volumes, phases, per-phase activity conventions (the rest kept), the species conventions ConventionMarks gives, the title and the volume |
| Import.FullyImported | Cantera/src/equil/vcs_solve.cpp:468-752 | a full import is all five stage parts, against the workspace it started from |
| Prob.VcsProb.EstimateFlag | Cantera/src/equil/vcs_solve.cpp:542-552 | the caller's estimate flag when mole numbers are supplied, and -1 (no estimate) otherwise |
| Prob.VcsProb.PhaseMapValid | Cantera/src/equil/vcs_solve.cpp:629-662 | a supplied map names phases in range and gives each phase exactly its declared species count; without a map there must be one phase |
| Import.ImportSpecies | Cantera/src/equil/vcs_solve.cpp:468-576 | counts, formula matrix, weights, charges, unknown types and mole numbers are imported (zeros and no estimate when none is given); fails exactly when no goals can be had, leaving the goals as they were |
| Import.ImportGoals | Cantera/src/equil/vcs_solve.cpp:553-571 | supplied goals are copied; otherwise an estimate gives each element's abundance over the non-voltage species; with neither the call fails and the goals are untouched |
| Import.ImportConditions | Cantera/src/equil/vcs_solve.cpp:578-624 | T and P take defaults when not positive; inert moles, units and tolerances are copied, the secondary tolerances being 1% of the primary; the identity arrangement is set and every species is major |
| Import.ImportPhaseMap | Cantera/src/equil/vcs_solve.cpp:625-663 | fails exactly when the map names a phase out of range, miscounts a phase, or is missing while there are several phases; on success each species has its phase and its slot within that phase |
| Import.ImportElements | Cantera/src/equil/vcs_solve.cpp:664-685 | aborts exactly on a "cn_" element not declared charge-neutrality; otherwise names, types and activity flags are copied |
| Import.ImportPhases | Cantera/src/equil/vcs_solve.cpp:686-752 | species names, molar volumes and phases are copied; each phase's activity convention is recorded; the species marks are exactly ConventionMarks of the copied phases over the old marks; the title (with a default) and the volume are set |
| Solve.VcsSolve.ProbSpecify | Cantera/src/equil/vcs_solve.cpp:772-892 | VCS_PUB_BAD holds exactly when some stored phase mismatches the caller's; when some phase's inert moles changed, the workspace is the one vcs_SSPhase leaves, with its phase totals recomputed; otherwise conditions and tolerances are copied, mole numbers, fractions, potentials and goals are gathered into internal order, each phase is updated and its totals recomputed, and nothing else changes |
| VcsTransfer.RespecifyPhases | Cantera/src/equil/vcs_solve.cpp:824-882 | bad holds exactly when some phase mismatches; the status change holds exactly when some inert-mole value changes; every phase in range is respecified and the others are kept |
| VcsTransfer.RespecifyPhase | Cantera/src/equil/vcs_solve.cpp:826-880 | one phase: bad exactly on a mismatch, a status change exactly when its inert moles change, and the updated phase is the respecified one |
| VcsSpec.RespecifiedPhase | Cantera/src/equil/vcs_solve.cpp:826-880 | the equation of state, inert moles and potential are new; inert moles force existence and clear the single-species flag; nothing else changes |
| VcsSpec.UnchangedPhaseIsFlagged | Cantera/src/equil/vcs_solve.cpp:857-862 | respecifying a phase from an identical copy is flagged, because the name test fires on equal names |
| VcsSpec.PhaseMismatch | Cantera/src/equil/vcs_solve.cpp:826-861 | a stored phase is rejected when its id, single-species flag, gas flag or species count differs from the caller's, or its name is equal |
| Solve.InertMolesChange | Cantera/src/equil/vcs_solve.cpp:864-866 | some phase in range holds other inert moles than the caller's, the status change that triggers vcs_SSPhase |
| Solve.RespecifySameProblemRefused | Cantera/src/equil/vcs_solve.cpp:857-861 | an incremental import of the problem a full import has just stored, with at least one phase, ends the import stage with VCS_PUB_BAD |
| VcsSpec.AnyMismatchIsSome | Cantera/src/equil/vcs_solve.cpp:824-882 | the in-order scan flags exactly when some phase in range mismatches |
| VcsSpec.AnyInertChangeIsSome | Cantera/src/equil/vcs_solve.cpp:824-882 | the in-order scan reports a change exactly when some phase in range changes its inert moles |
| VcsTransfer.GatherSpecies | Cantera/src/equil/vcs_solve.cpp:790-795 | internal slot k takes external entry ind[k] for the mole numbers, fractions and potentials; slots past the species count are kept |
| VcsTransfer.GatherElements | Cantera/src/equil/vcs_solve.cpp:800-803 | internal element i's goal takes external entry indEl[i]; the rest are kept |
| Solve.VcsSolve.ProbUpdate | Cantera/src/equil/vcs_solve.cpp:903-991 | the phase totals and the volume are recomputed and nothing else in the workspace changes; the species results and conditions are exported; the call aborts exactly when some phase is inconsistent; otherwise the phase results and counts are exported |
| Solve.ExportResults | Cantera/src/equil/vcs_solve.cpp:910-990 | the species are exported; the call fails exactly when some phase is inconsistent with the exported vectors; otherwise the phases are exported |
| Solve.ExportSpecies | Cantera/src/equil/vcs_solve.cpp:910-936 | each external species takes the slot the search finds, with voltage species exporting 0 moles; entries past the species count are kept; T, P and the volume go back |
| Solve.ExportPhaseResults | Cantera/src/equil/vcs_solve.cpp:937-990 | fails exactly when some phase is inconsistent; on success every phase in range takes the stored phase's results, and the counts are reported |
| Solve.SpeciesExported | Cantera/src/equil/vcs_solve.cpp:910-936 | the caller's first numSpeciesTot mole numbers are the exported ones (voltage species zero), fractions, potentials and volumes are scattered back, the rest kept, and T, P and the volume are the workspace's |
| Solve.PhasesExported | Cantera/src/equil/vcs_solve.cpp:937-990 | each of the caller's phases in range takes the stored phase's results, the others are kept, and the iteration counts are reported |
| VcsTransfer.ScatterSpecies | Cantera/src/equil/vcs_solve.cpp:910-932 | external entry i takes the slot the search finds, for moles (0 for a voltage species), fractions, potentials and molar volumes |
| VcsTransfer.FindSpecies | Cantera/src/equil/vcs_solve.cpp:915-919 | returns the first slot holding i, or the last slot when no slot does |
| VcsSpec.SearchSlot | Cantera/src/equil/vcs_solve.cpp:915-919 | returns the first position holding v, or the last position when v is absent |
| VcsSpec.SearchFinds | Cantera/src/equil/vcs_solve.cpp:915-919 | on a permutation the search lands on the slot holding the value |
| VcsSpec.SearchInverts | Cantera/src/equil/vcs_solve.cpp:915-919 | on a permutation the search inverts the arrangement |
| VcsSpec.ScatterGather | Cantera/src/equil/vcs_solve.cpp:790-795 | respecify followed by export returns the caller's values |
| VcsSpec.GatherScatter | Cantera/src/equil/vcs_solve.cpp:910-932 | export followed by respecify returns the internal values |
| VcsSpec.MolesRoundTrip | Cantera/src/equil/vcs_solve.cpp:790-795 | import then export returns every non-voltage mole number and zeroes voltage species |
| VcsSpec.Gather | Cantera/src/equil/vcs_solve.cpp:790-803 | internal slot k holds external entry p[k] |
| VcsSpec.Scatter | Cantera/src/equil/vcs_solve.cpp:910-932 | external entry i holds the slot the search finds for i |
| VcsSpec.ExportMoles | Cantera/src/equil/vcs_solve.cpp:910-924 | as Scatter, except that voltage species get 0 |
| VcsTransfer.ExportPhases | Cantera/src/equil/vcs_solve.cpp:938-985 | ok holds exactly when every phase in range is consistent; on success those phases are exported and the rest are kept |
| VcsTransfer.ExportPhase | Cantera/src/equil/vcs_solve.cpp:941-983 | ok holds exactly when the phase passes the voltage, mole-fraction and total-moles checks; on success the phase is the exported one |
| VcsSpec.ExportedPhase | Cantera/src/equil/vcs_solve.cpp:941-958 | existence, inert moles, total moles, potential and mole fractions come from the stored phase; the per-slot data of slots in range is copied; nothing else changes |
| VcsSpec.PhaseConsistent | Cantera/src/equil/vcs_solve.cpp:959-983 | the potential unknown equals the phase potential, each exported mole fraction equals the phase's own, and inert plus non-voltage exported moles equal the phase total |
| VcsSpec.ExportKeepsPhaseMoles | Cantera/src/equil/vcs_solve.cpp:975-983 | the moles the mass-balance check sums through external indices are exactly the stored phase's moles |
| VcsSpec.WithTotals | Cantera/src/equil/vcs_solve.cpp:889 | a phase after vcs_tmoles differs only in its total moles and mole fractions |
| VcsSpec.ApplyTotals | Cantera/src/equil/vcs_solve.cpp:907 | the phases in range take their recomputed totals; the others are unchanged |
| Solve.SolveOutcome | Cantera/src/equil/vcs_solve.cpp:357-428 | a failing prep returns its code; an ill-posed problem or an unknown problem type returns VCS_PUB_BAD; otherwise the code of vcs_TP or vcs_TV is returned |
| Solve.StageOutcome | Cantera/src/equil/vcs_solve.cpp:306-355 | ifunc 0: a rejected size throws VCS_PUB_BAD, an unacceptable problem returns VCS_PUB_BAD, a "cn_" conflict aborts, otherwise the one-time prep's code; ifunc 1: VCS_PUB_BAD exactly when a phase mismatches |
| Solve.VcsSolve.Specify | Cantera/src/equil/vcs_solve.cpp:306-355 | the outcome is the first failing step of the import stage (sizing throws, the import fails or aborts, the one-time prep fails, a phase mismatches); the call goes on exactly on success, with counters in place |
| Solve.VcsSolve.SolveStage | Cantera/src/equil/vcs_solve.cpp:357-411 | without a minimisation the code is the error code, the workspace is the one vcs_prep leaves, and the caller's problem is untouched; with one, the minimised workspace is exported and the call aborts exactly on an inconsistent phase |
| Solve.VcsSolve.Vcs | Cantera/src/equil/vcs_solve.cpp:291-428 | an ifunc outside 0..2 returns VCS_PUB_BAD with no change; ifunc 2 succeeds and only adds the time; otherwise a failure of the import stage ends the call with the caller's problem untouched; a call that goes on returns the solve outcome; without a minimisation it leaves the workspace vcs_prep produced; when solved it exports and adds its time to the running total |
| VcsTransfer.CopyFormulaMatrix | Cantera/src/equil/vcs_solve.cpp:501-505 | the entries of the first ne elements and ns species are copied; every other entry is kept |
| VcsTransfer.ElementAbundances | Cantera/src/equil/vcs_solve.cpp:561-568 | each of the first ne goals is the abundance over the non-voltage species; the rest are kept |
| VcsSpec.Abundance | Cantera/src/equil/vcs_solve.cpp:561-568 | the sum of coefficient times mole number over the first n species, voltage species excluded |
| VcsSpec.AbundanceCongruence | Cantera/src/equil/vcs_solve.cpp:561-568 | the abundance depends only on the first n coefficients, types and non-voltage mole numbers |
| VcsSpec.AbundanceAdditive | Cantera/src/equil/vcs_solve.cpp:561-568 | the abundance is additive over a split of the mole numbers |
| VcsSpec.AbundanceOfThreeUnitSpecies | Cantera/src/equil/vcs_solve.cpp:561-568 | three unit species with unit coefficients give an abundance of 3 |
| VcsTransfer.CopyInertMoles | Cantera/src/equil/vcs_solve.cpp:593-596 | each phase in range takes the caller's inert moles; the rest are kept |
| VcsTransfer.IdentityPrefix | Cantera/src/equil/vcs_solve.cpp:614-619 | the first n entries become 0..n-1; the rest are kept |
| VcsSpec.Identity | Cantera/src/equil/vcs_solve.cpp:614-619 | entry i is i |
| VcsSpec.IdentityIsPermutation | Cantera/src/equil/vcs_solve.cpp:614-619 | the identity arrangement is a permutation |
| VcsSpec.DistinctImageSize | Cantera/src/equil/vcs_solve.cpp:910-932 | n distinct entries take n distinct values |
| VcsSpec.PermutationCovers | Cantera/src/equil/vcs_solve.cpp:910-932 | a permutation takes every value in its range, so the export search always finds its species |
| VcsTransfer.FillPrefix | Cantera/src/equil/vcs_solve.cpp:624 | the first n entries become v; the rest are kept |
| VcsTransfer.MapSpeciesToPhases | Cantera/src/equil/vcs_solve.cpp:630-643 | the walk stops at the first phase id out of range; earlier species get their phase and their slot within it; the counts cover the species before the stop |
| VcsTransfer.FirstBadPhaseAt | Cantera/src/equil/vcs_solve.cpp:630-643 | the first bad index is the only index with a good prefix and a bad entry there (or the end) |
| VcsSpec.FirstBadPhase | Cantera/src/equil/vcs_solve.cpp:630-643 | every species before the result has its phase in range, and the one at the result (if any) does not |
| VcsTransfer.PhaseCountsMatch | Cantera/src/equil/vcs_solve.cpp:644-651 | ok holds exactly when every phase holds the species count it declares |
| VcsTransfer.SinglePhaseMap | Cantera/src/equil/vcs_solve.cpp:653-657 | every species goes to phase 0, and its slot is its own index |
| VcsSpec.CountInPhase | Cantera/src/equil/vcs_solve.cpp:630-643 | the number of species among the first n assigned to the phase, never more than n |
| VcsSpec.PhaseSlot | Cantera/src/equil/vcs_solve.cpp:630-643 | a species' slot is the number of earlier species in its phase |
| VcsSpec.CountMonotone | Cantera/src/equil/vcs_solve.cpp:630-643 | the count of a phase never decreases as more species are walked |
| VcsSpec.PhaseSlotsIncrease | Cantera/src/equil/vcs_solve.cpp:630-643 | species of the same phase get distinct slots, in species order |
| VcsSpec.PhaseSlotBelowCount | Cantera/src/equil/vcs_solve.cpp:630-651 | a species' slot is below the number of species its phase holds |
| VcsSpec.SinglePhaseCount | Cantera/src/equil/vcs_solve.cpp:653-657 | with every species in phase 0, phase 0 holds all of them |
| VcsSpec.SinglePhaseSlots | Cantera/src/equil/vcs_solve.cpp:653-657 | with every species in phase 0, species k sits in slot k |
| VcsSpec.SumOfCountsStep | Cantera/src/equil/vcs_solve.cpp:630-651 | adding a species adds one to the count of its own phase only |
| VcsSpec.CountsPartitionSpecies | Cantera/src/equil/vcs_solve.cpp:630-651 | when every id is in range, the per-phase counts add up to the number of species |
| VcsSpec.CountsZero | Cantera/src/equil/vcs_solve.cpp:630-643 | before any species is walked, every count is zero |
| VcsTransfer.CopyElements | Cantera/src/equil/vcs_solve.cpp:673-684 | aborts exactly on a "cn_" conflict; otherwise names, types and flags of the first ne elements are copied, "cn_" elements are charge-neutrality, and the rest are kept |
| VcsSpec.HasCnPrefix | Cantera/src/equil/vcs_solve.cpp:677 | the name opens with "cn_" |
| VcsSpec.CnConflict | Cantera/src/equil/vcs_solve.cpp:673-684 | some element in range is named "cn_..." without being declared a charge-neutrality constraint |
| VcsTransfer.AssignActivityConventions | Cantera/src/equil/vcs_solve.cpp:714-735 | each phase's convention is recorded and the other entries are kept; the species marks are exactly ConventionMarks of the phases over the old marks |
| VcsSpec.ConventionMarks | Cantera/src/equil/vcs_solve.cpp:714-735 | each phase on a non-default convention marks its species after the solvent, later phases writing over earlier ones; the length is kept |
| VcsSpec.MarkSlots | Cantera/src/equil/vcs_solve.cpp:729-733 | one phase's solute loop: slots 1..n-1 take the phase's convention in slot order; the length is kept |
| VcsSpec.LastMarkWins | Cantera/src/equil/vcs_solve.cpp:714-735 | a species listed after the solvent of a non-default phase has that phase's convention when no later phase marks it (the last write wins) |
| VcsSpec.UnmarkedKept | Cantera/src/equil/vcs_solve.cpp:714-735 | a species that no non-default phase lists after its solvent keeps its old mark |
| VcsSpec.MarkSlotsAt | Cantera/src/equil/vcs_solve.cpp:729-733 | within one phase's loop, a species listed in slots 1..n-1 has the phase's convention and any other species keeps its mark |
| VcsSpec.Resize | Cantera/src/equil/vcs_solve.cpp:100-206 | the result has length n, keeps the existing prefix and fills new entries |
| VcsSpec.CopyPrefix | Cantera/src/equil/vcs_solve.cpp:510-551 | the first n entries come from the source; the rest of the destination is kept |

## Left out

- The minimisation and the routines around it: `vcs_prep_oneTime`, `vcs_prep`, `vcs_wellPosed`, `vcs_TP`, `vcs_TV`, `vcs_tmoles`, `vcs_VolTotal` and `vcs_report` lie outside this file. They enter as the values in `Solve.Externals`, not as code. The workspace `vcs_SSPhase` leaves during an incremental import is `ssPhased`. The workspace `vcs_prep` leaves is `prepped`, and the one the minimisation leaves after that is `solved`. How any of these is computed is not modelled.
- Solve.VcsSolve.Specify: the workspace after the import stage is not stated. What `vcs_prep_oneTime` does to it is not represented, and the solve stage replaces it with the workspace `vcs_prep` leaves.
- Timing: `vcs_second` is replaced by the elapsed time given in `Solve.Externals`. The time report (`vcs_TCounters_report`, `iprintTime`) and all logging (`plogf`) are left out, as are the printing parameters `ipr`, `ip1` and `maxit`, which only reach the routines above.
- Import.ImportSpecies: the per-species thermodynamic objects are not modelled. Their duplication and its failure path (lines 517-531) are left out, and so is their relinking to phases (lines 696-709), because the species thermodynamics classes are not part of this model.
- VcsTransfer.AssignActivityConventions: the reference log-molality offset (line 732) is not modelled, because it needs floating-point logarithms.
- Work.Allocated: tables used only by the minimisation (reaction stoichiometry, activity-coefficient derivatives and similar) are not modelled. Their sizing has no effect on the bookkeeping.
- Solve.VcsSolve.ProbSpecify: the body of `vcs_SSPhase` (line 885) is not part of this model. When it runs, the workspace it leaves is taken as given (the `ssPhased` value in `Solve.Externals`), so nothing is stated about how that workspace relates to the respecified one.
- Solve.VcsSolve.Vcs: its requires rule out two calls on which the source dereferences storage that is not there: an ifunc-0 call after a rejected one, where `InitSizes` keeps the rejected sizes and the import then writes into an unallocated workspace (`VcsSpec.RepeatedRejectIsKept` shows the sizes are kept); and ifunc 1 or 2 before any successful ifunc 0, where `m_VCount` is still null.
- Solve.VcsSolve.Vcs: the `retn` test after `InitSizes` (lines 315-320) can never fire, because `retn` is still 0 there, so no branch is modelled for it. The messages printed for `iconv < 0` and `iconv == 1` (lines 423-427) are left out with the rest of the logging.
- Solve.VcsSolve.DeleteMemory: the phase and species-thermo objects it deletes are not modelled. In the source their pointers become null; the model keeps the phase records. The vectors are not released, as in the source. Only the counters and the sizes are affected.
- `vcs_doubleEqual` is modelled as exact equality of reals. Its relative tolerance is floating-point behaviour.
- `VCS_PROB` (`vcs_prob.dfy`) and `vcs_defs.h` are not part of this model beyond the fields the bookkeeping touches. The numeric values of the `VCS_*` macros are chosen (`VcsDefs`). Two of them must match the source's literals: `VCS_SUCCESS` is 0, because `vcs()` starts `iconv` at 0 (line 294) and tests `retn != 0` (lines 327, 338 and 350), and `VCS_SPECIES_MAJOR` is 1, because `InitSizes` fills `spStatus` with the literal 1 (line 160). For the others, only their being distinct matters.
- Vectors are modelled as sequences with value semantics. The source's `std::vector` members never alias one another, so update in place is not distinguished from replacement.
- Solve.VcsSolve.Vcs: the counters the minimisation itself updates (iterations, basis optimisations, their times) are not modelled. They are read as they stand.
- Floating point: all real arithmetic is exact.
