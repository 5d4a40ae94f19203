/** The data members of the VCS_SOLVE workspace as one record, and the
    sizing of the workspace: construction, release (delete_memory) and
    allocation (InitSizes). */
module Work {
  import opened VcsDefs
  import opened VcsSpec

  /** The data members of VCS_SOLVE that the bookkeeping reads or writes. */
  datatype Workspace = Workspace(
    /** capacities fixed by InitSizes */
    nSpecies0: int,
    nPhase0: int,
    /** problem counts */
    numSpeciesTot: int,
    numElemConstraints: int,
    numComponents: int,
    numRxnTot: int,
    numSpeciesRdc: int,
    numRxnRdc: int,
    numRxnMinorZeroed: int,
    nPhase: int,
    iest: int,
    temperature: real,
    pressure: real,
    vol: real,
    tolmaj: real,
    tolmin: real,
    tolmaj2: real,
    tolmin2: real,
    unitsFormat: int,
    /** formulaMatrix[j][k]: atoms of element j in species k */
    formulaMatrix: seq<seq<real>>,
    wtSpecies: seq<real>,
    charge: seq<real>,
    speciesUnknownType: seq<int>,
    /** mole numbers */
    soln: seq<real>,
    /** mole fractions */
    wt: seq<real>,
    gibbsSpecies: seq<real>,
    volPM: seq<real>,
    /** element abundance goals */
    gai: seq<real>,
    tPhInertMoles: seq<real>,
    ind: seq<int>,
    indEl: seq<int>,
    indPhSp: seq<int>,
    phaseID: seq<int>,
    spStatus: seq<int>,
    elName: seq<string>,
    elType: seq<int>,
    elActive: seq<int>,
    spName: seq<string>,
    specActConvention: seq<int>,
    phaseActConvention: seq<int>,
    phases: seq<VolPhase>,
    title: string)
  {
    /** An allocated workspace: every species vector has nSpecies0 entries,
        every phase vector nPhase0, the element vectors agree in length (at
        least the current element count), every formula-matrix row has
        nSpecies0 entries, and the species count fits the capacity. */
    ghost predicate Valid()
    {
      nSpecies0 > 0 && nPhase0 > 0 &&
      |gibbsSpecies| == nSpecies0 && |soln| == nSpecies0 && |speciesUnknownType| == nSpecies0 &&
      |wt| == nSpecies0 && |ind| == nSpecies0 && |indPhSp| == nSpecies0 && |spStatus| == nSpecies0 &&
      |phaseID| == nSpecies0 && |spName| == nSpecies0 && |specActConvention| == nSpecies0 &&
      |wtSpecies| == nSpecies0 && |charge| == nSpecies0 && |volPM| == nSpecies0 &&
      0 <= numElemConstraints <= |gai| && |indEl| == |gai| && |elName| == |gai| &&
      numElemConstraints <= |elType| && numElemConstraints <= |elActive| &&
      |formulaMatrix| == |gai| && (forall j :: 0 <= j < |formulaMatrix| ==> |formulaMatrix[j]| == nSpecies0) &&
      0 <= numSpeciesTot <= nSpecies0 &&
      |tPhInertMoles| == nPhase0 && |phaseActConvention| == nPhase0 && |phases| == nPhase0
    }

    /** The sizes InitSizes compares a request against. */
    function CurrentSizes(): Sizes
    {
      Sizes(nSpecies0, numElemConstraints, nPhase0)
    }

    /** A problem of these sizes fits the workspace (lines 452-466). */
    predicate Fits(nspecies: int, ne: int, nph: int)
    {
      nspecies <= nSpecies0 && nph <= nPhase0 && ne <= numElemConstraints
    }
  }

  /** The workspace as constructed (lines 30-58): every count, condition and
      tolerance zero, units unitless, nothing allocated. The reduced reaction
      count, which the source leaves uninitialised, is zero here as well; the
      constructor promises nothing about it. */
  const Pristine: Workspace :=
    Workspace(0, 0, 0, 0, 0, 0, 0, 0, 0, 0, 0, 0.0, 0.0, 0.0, 0.0, 0.0, 0.0, 0.0, UnitsUnitless,
              [], [], [], [], [], [], [], [], [], [], [], [], [], [], [], [], [], [], [], [], [], [], "")

  /** delete_memory (lines 226-247): the capacities and the element and
      component counts are forgotten; the vectors are not released. */
  function Released(w: Workspace): (r: Workspace)
    ensures r.CurrentSizes() == Sizes(0, 0, 0) && r.numComponents == 0 && !r.Valid()
    ensures r.(nSpecies0 := w.nSpecies0, nPhase0 := w.nPhase0, numElemConstraints := w.numElemConstraints,
               numComponents := w.numComponents) == w
  {
    w.(nSpecies0 := 0, nPhase0 := 0, numElemConstraints := 0, numComponents := 0)
  }

  /** The size stores of InitSizes (lines 70-74), made before the sizes are
      checked. */
  function StoredSizes(w: Workspace, ns: int, ne: int, nph: int): (r: Workspace)
    ensures r.CurrentSizes() == Sizes(ns, ne, nph) && r.numSpeciesTot == ns && r.numComponents == ne
    ensures r.(nSpecies0 := w.nSpecies0, nPhase0 := w.nPhase0, numSpeciesTot := w.numSpeciesTot,
               numElemConstraints := w.numElemConstraints, numComponents := w.numComponents) == w
  {
    w.(nSpecies0 := ns, nPhase0 := nph, numSpeciesTot := ns, numElemConstraints := ne, numComponents := ne)
  }

  /** InitSizes for accepted sizes (lines 70-206): the sizes are stored, the
      units reset, every vector resized as std::vector::resize does (entries
      already there are kept, new ones take the documented initial value)
      and every phase replaced by a fresh one. The result is an allocated
      workspace of exactly the requested sizes. */
  function Allocated(w: Workspace, ns: int, ne: int, nph: int): (r: Workspace)
    requires ns > 0 && ne > 0 && nph > 0
    ensures r.Valid() && r.CurrentSizes() == Sizes(ns, ne, nph)
    ensures r.numSpeciesTot == ns && r.numComponents == ne && r.unitsFormat == UnitsUnitless
    ensures |r.gai| == ne && |r.elType| == ne && |r.elActive| == ne
    ensures forall i :: 0 <= i < ns && i < |w.soln| ==> r.soln[i] == w.soln[i]
    ensures forall i :: |w.soln| <= i < ns ==> r.soln[i] == 0.0
    ensures forall i :: 0 <= i < ns && i < |w.speciesUnknownType| ==> r.speciesUnknownType[i] == w.speciesUnknownType[i]
    ensures forall i :: |w.speciesUnknownType| <= i < ns ==> r.speciesUnknownType[i] == SpeciesTypeMolNum
    ensures forall i :: |w.spStatus| <= i < ns ==> r.spStatus[i] == SpeciesMajor
    ensures forall i :: |w.elType| <= i < ne ==> r.elType[i] == ElemTypeAbsPos
    ensures forall i :: |w.elActive| <= i < ne ==> r.elActive[i] == 1
    ensures forall j, i :: 0 <= j < |w.formulaMatrix| && j < ne && 0 <= i < |w.formulaMatrix[j]| && i < ns ==>
              r.formulaMatrix[j][i] == w.formulaMatrix[j][i]
    ensures forall iph :: 0 <= iph < nph ==> r.phases[iph] == NewPhase
    ensures r.gibbsSpecies == Resize(w.gibbsSpecies, ns, 0.0) && r.wt == Resize(w.wt, ns, 0.0) &&
            r.wtSpecies == Resize(w.wtSpecies, ns, 0.0) && r.charge == Resize(w.charge, ns, 0.0) &&
            r.volPM == Resize(w.volPM, ns, 0.0) && r.gai == Resize(w.gai, ne, 0.0) &&
            r.tPhInertMoles == Resize(w.tPhInertMoles, nph, 0.0)
    ensures r.ind == Resize(w.ind, ns, 0) && r.indPhSp == Resize(w.indPhSp, ns, 0) &&
            r.indEl == Resize(w.indEl, ne, 0) && r.phaseID == Resize(w.phaseID, ns, 0) &&
            r.spStatus == Resize(w.spStatus, ns, SpeciesMajor) && r.elType == Resize(w.elType, ne, ElemTypeAbsPos) &&
            r.elActive == Resize(w.elActive, ne, 1) && r.elName == Resize(w.elName, ne, "") &&
            r.spName == Resize(w.spName, ns, "") && r.specActConvention == Resize(w.specActConvention, ns, 0) &&
            r.phaseActConvention == Resize(w.phaseActConvention, nph, 0)
    ensures r.numRxnTot == w.numRxnTot && r.numSpeciesRdc == w.numSpeciesRdc && r.numRxnRdc == w.numRxnRdc &&
            r.numRxnMinorZeroed == w.numRxnMinorZeroed && r.nPhase == w.nPhase && r.iest == w.iest &&
            r.temperature == w.temperature && r.pressure == w.pressure && r.vol == w.vol &&
            r.tolmaj == w.tolmaj && r.tolmin == w.tolmin && r.tolmaj2 == w.tolmaj2 && r.tolmin2 == w.tolmin2 &&
            r.title == w.title
  {
    w.(nSpecies0 := ns, nPhase0 := nph, numSpeciesTot := ns, numElemConstraints := ne, numComponents := ne,
       unitsFormat := UnitsUnitless,
       gibbsSpecies := Resize(w.gibbsSpecies, ns, 0.0),
       soln := Resize(w.soln, ns, 0.0),
       speciesUnknownType := Resize(w.speciesUnknownType, ns, SpeciesTypeMolNum),
       wt := Resize(w.wt, ns, 0.0),
       gai := Resize(w.gai, ne, 0.0),
       formulaMatrix := ResizeRows(w.formulaMatrix, ne, ns),
       tPhInertMoles := Resize(w.tPhInertMoles, nph, 0.0),
       ind := Resize(w.ind, ns, 0),
       indPhSp := Resize(w.indPhSp, ns, 0),
       indEl := Resize(w.indEl, ne, 0),
       spStatus := Resize(w.spStatus, ns, SpeciesMajor),
       phaseID := Resize(w.phaseID, ns, 0),
       elName := Resize(w.elName, ne, ""),
       spName := Resize(w.spName, ns, ""),
       elType := Resize(w.elType, ne, ElemTypeAbsPos),
       elActive := Resize(w.elActive, ne, 1),
       specActConvention := Resize(w.specActConvention, ns, 0),
       phaseActConvention := Resize(w.phaseActConvention, nph, 0),
       wtSpecies := Resize(w.wtSpecies, ns, 0.0),
       charge := Resize(w.charge, ns, 0.0),
       phases := seq(nph, _ => NewPhase),
       volPM := Resize(w.volPM, ns, 0.0))
  }

  /** Releasing a workspace before reallocating it makes no difference to
      the result: every field the release clears is stored again. */
  lemma AllocatedAfterRelease(w: Workspace, ns: int, ne: int, nph: int)
    requires ns > 0 && ne > 0 && nph > 0
    ensures Allocated(Released(w), ns, ne, nph) == Allocated(w, ns, ne, nph)
  {
  }

  /** The sizes vcs() asks InitSizes for: ten spare species slots. */
  function RequestedSizes(nspecies: int, ne: int, nPhase: int): (s: Sizes)
    ensures s.nSpecies0 == nspecies + 10 && s.nElements == ne && s.nPhase0 == nPhase
  {
    Sizes(nspecies + 10, ne, nPhase)
  }

  /** A workspace InitSizes accepted for a problem's requested sizes holds
      that problem. */
  lemma RequestedSizesFit(w: Workspace, nspecies: int, ne: int, nPhase: int)
    requires w.CurrentSizes() == RequestedSizes(nspecies, ne, nPhase)
    ensures w.Fits(nspecies, ne, nPhase)
  {
  }
}
