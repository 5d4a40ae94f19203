/** Shared vocabulary of the VCS equilibrium solver's bookkeeping layer:
    return codes, type tags, the per-phase record and the counters object.
    The numeric values of the VCS_* macros live in vcs_defs.h, which is not
    part of this model; the model relies only on the values being distinct. */
module VcsDefs {

  /** VCS_SUCCESS */
  const VcsSuccess: int := 0
  /** VCS_PUB_BAD: a configuration error in the problem statement */
  const VcsPubBad: int := -3

  /** VCS_SPECIES_TYPE_MOLNUM: the unknown of a species is its mole number */
  const SpeciesTypeMolNum: int := 0
  /** VCS_SPECIES_TYPE_INTERFACIALVOLTAGE: a voltage pseudo-species, carrying no mass */
  const SpeciesTypeInterfacialVoltage: int := -5

  /** VCS_ELEM_TYPE_ABSPOS, the default element-constraint type */
  const ElemTypeAbsPos: int := 0
  /** VCS_ELEM_TYPE_CHARGENEUTRALITY */
  const ElemTypeChargeNeutrality: int := 2

  /** VCS_SPECIES_MAJOR */
  const SpeciesMajor: int := 1

  /** VCS_PROBTYPE_TP and VCS_PROBTYPE_TV: the two problem kinds the driver dispatches on */
  const ProbTypeTP: int := 0
  const ProbTypeTV: int := 1

  /** VCS_UNITS_UNITLESS */
  const UnitsUnitless: int := 0

  /** Existence value a phase is forced to when it holds inert moles */
  const ExistenceWithInerts: int := 2

  /** Defaults applied by a full import when the supplied T or P is not positive */
  const DefaultTemperature: real := 293.15
  const DefaultPressure: real := 1.0
  /** Secondary tolerances are this fraction of the primary ones */
  const SecondaryTolFactor: real := 0.01

  const UnspecifiedTitle: string := "Unspecified Problem Title"

  /** How a call ends: a returned status code, a thrown vcsError carrying a
      code, or a process abort (exit(-1)), which is never recoverable. */
  datatype Outcome = Returned(code: int) | Thrown(code: int) | Aborted

  /** Per phase-local slot thermodynamic data that export copies back. */
  datatype SlotProps = SlotProps(
    ss0ChemicalPotential: real,
    starChemicalPotential: real,
    starMolarVol: real,
    partialMolarVol: real,
    actCoeff: real)

  /** The part of a vcs_VolPhase object the bookkeeping layer reads or writes.
      `indSpecies[k]` is the solver-wide species index of phase-local slot k,
      `speciesUnknownType[k]` its unknown type. `totalMoles` and `moleFractions`
      are what the phase derives from the mole numbers. */
  datatype VolPhase = VolPhase(
    vpId: int,
    singleSpecies: bool,
    gasPhase: bool,
    eqnState: int,
    nVolSpecies: int,
    phaseName: string,
    tMolesInert: real,
    existence: int,
    electricPotential: real,
    activityConvention: int,
    indSpecies: seq<int>,
    speciesUnknownType: seq<int>,
    phiVarIndex: int,
    totalMoles: real,
    moleFractions: seq<real>,
    props: seq<SlotProps>)

  /** A phase object as freshly allocated by the workspace (the vcs_VolPhase
      constructor is not part of this model: an empty phase stands for it). */
  const NewPhase: VolPhase :=
    VolPhase(0, false, false, 0, 0, "", 0.0, 0, 0.0, 0, [], [], -1, 0.0, [], [])

  /** What the external vcs_tmoles() computes for one phase. */
  datatype PhaseTotals = PhaseTotals(totalMoles: real, moleFractions: seq<real>)

  /** VCS_COUNTERS: call/iteration counts and elapsed times. Fields without a
      `t` prefix cover one solve; the `t` fields are running totals. The
      VCS_COUNTERS constructor is not part of this model: the workspace resets
      every field right after allocating one. */
  class Counters {
    var its: int
    var basisOpts: int
    var timeVcsTP: real
    var timeBasopt: real
    var tIts: int
    var tBasisOpts: int
    var tCallsInest: int
    var tCallsVcsTP: int
    var tTimeVcsTP: real
    var tTimeBasopt: real
    var tTimeInest: real
    var tTimeVcs: real

    /** Leaves every field unconstrained. */
    constructor ()
    {
    }

    /** The per-solve counts and times are zero. */
    predicate RunZero()
      reads this
    {
      its == 0 && basisOpts == 0 && timeVcsTP == 0.0 && timeBasopt == 0.0
    }

    /** The running totals are zero. */
    predicate TotalsZero()
      reads this
    {
      tIts == 0 && tBasisOpts == 0 && tCallsInest == 0 && tCallsVcsTP == 0 &&
      tTimeVcsTP == 0.0 && tTimeBasopt == 0.0 && tTimeInest == 0.0 && tTimeVcs == 0.0
    }
  }
}
