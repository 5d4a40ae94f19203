/** VCS_PROB: the problem statement a caller hands to the solver, and the
    record the solver writes its results back into. Only the members the
    bookkeeping layer reads or writes are kept; the class itself (vcs_prob.h
    and vcs_prob.cpp) is not part of this model, so its fields follow the
    names the bookkeeping code uses. Species, elements and phases are in the
    caller's order. */
module Prob {
  import opened VcsDefs
  import opened VcsSpec

  class VcsProb {
    /** VCS_PROBTYPE_TP or VCS_PROBTYPE_TV */
    var probType: int
    var nspecies: int
    var ne: int
    var nPhase: int
    /** formulaMatrix[j][i]: atoms of element j in species i */
    var formulaMatrix: seq<seq<real>>
    var wtSpecies: seq<real>
    var charge: seq<real>
    var speciesUnknownType: seq<int>
    /** 0 when w holds an estimate the element targets may be derived from */
    var iest: int
    /** mole numbers: the estimate on input, the equilibrium on output */
    var w: seq<real>
    var mf: seq<real>
    var gibbsSpecies: seq<real>
    /** element abundance goals; empty when they are to be derived from w */
    var gai: seq<real>
    var temperature: real
    var pressure: real
    var vol: real
    var phases: seq<VolPhase>
    var unitsFormat: int
    var tolmaj: real
    var tolmin: real
    /** species to phase map; empty when there is a single phase */
    var phaseID: seq<int>
    var elName: seq<string>
    var elType: seq<int>
    var elActive: seq<int>
    var spName: seq<string>
    var title: string
    var volPM: seq<real>
    var iterations: int
    var numBasisOptimizations: int

    /** The vectors are as long as the counts say (w, gai and phaseID may
        also be empty, meaning "not supplied"), and every phase lists
        species of this problem. */
    ghost predicate Shaped()
      reads this
    {
      0 <= nspecies && 0 <= ne && 0 <= nPhase &&
      ne <= |formulaMatrix| && (forall j :: 0 <= j < ne ==> nspecies <= |formulaMatrix[j]|) &&
      nspecies <= |wtSpecies| && nspecies <= |charge| && nspecies <= |speciesUnknownType| &&
      nspecies <= |spName| && nspecies <= |volPM| &&
      (|w| == 0 || nspecies <= |w|) &&
      (|gai| == 0 || ne <= |gai|) &&
      (|phaseID| == 0 || nspecies <= |phaseID|) &&
      ne <= |elName| && ne <= |elType| && ne <= |elActive| &&
      nPhase <= |phases| &&
      forall iph :: 0 <= iph < nPhase ==> PubPhaseShape(phases[iph], nspecies)
    }

    /** The estimate flag a full import ends with: no mole numbers supplied
        means no estimate. */
    function EstimateFlag(): int
      reads this
    {
      if |w| != 0 then iest else -1
    }

    /** Element goals are available: supplied, or derivable from an estimate. */
    predicate HasAbundanceGoals()
      reads this
    {
      |gai| != 0 || EstimateFlag() == 0
    }

    /** The species to phase map is acceptable: a supplied map names phases
        in range and gives each phase exactly its declared species count;
        no map is acceptable only with a single phase. */
    ghost predicate PhaseMapValid()
      reads this
      requires Shaped()
    {
      if |phaseID| != 0 then
        FirstBadPhase(phaseID, nspecies, nPhase) == nspecies &&
        forall iph :: 0 <= iph < nPhase ==> CountInPhase(phaseID, nspecies, iph) == phases[iph].nVolSpecies
      else
        nPhase == 1
    }
  }
}
