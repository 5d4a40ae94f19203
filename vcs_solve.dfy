/** VCS_SOLVE: the solver's private workspace. This module models how the
    workspace is sized and released, how a problem statement is imported into
    it (in full, or incrementally for a problem of the same shape), how the
    results are exported back, and the top-level dispatch that strings these
    together. The minimisation itself is not part of this model: the
    routines vcs() calls around the import and export are represented by
    what they report (see `Externals`). Species and elements are held in the
    solver's internal order; `ind` and `indEl` give the caller's index of
    each internal slot. */
module Solve {
  import opened VcsDefs
  import opened VcsSpec
  import opened VcsTransfer
  import opened Prob
  import opened Work
  import opened Import

  /** What an incremental import reads: the stored phases, the caller's
      entries the species and element arrangements point at, and the phases
      of the workspace vcs_SSPhase leaves (ss). */
  ghost predicate SpecifyReady(w: Workspace, pub: VcsProb, tm: seq<PhaseTotals>, ss: Workspace)
    reads pub
  {
    0 <= ss.nPhase <= |ss.phases| && ss.nPhase <= |tm| &&
    0 <= w.nPhase <= |w.phases| && w.nPhase <= |w.tPhInertMoles| && w.nPhase <= |pub.phases| && w.nPhase <= |tm| &&
    0 <= w.numSpeciesTot <= |w.soln| && w.numSpeciesTot <= |w.wt| && w.numSpeciesTot <= |w.gibbsSpecies| &&
    w.numSpeciesTot <= |w.ind| && 0 <= w.numElemConstraints <= |w.gai| && w.numElemConstraints <= |w.indEl| &&
    (forall k :: 0 <= k < w.numSpeciesTot ==>
       0 <= w.ind[k] < |pub.w| && w.ind[k] < |pub.mf| && w.ind[k] < |pub.gibbsSpecies|) &&
    (forall i :: 0 <= i < w.numElemConstraints ==> 0 <= w.indEl[i] < |pub.gai|)
  }

  /** What the export reads: the caller's vectors are long enough for the
      species it writes back, and each of the caller's phases has the shape
      export reads, against the stored phase after vcs_tmoles. */
  ghost predicate ExportReady(w: Workspace, pub: VcsProb, tm: seq<PhaseTotals>)
    reads pub
  {
    pub.Shaped() && 0 <= w.nPhase <= |w.phases| && w.nPhase <= |tm| && pub.nPhase <= |w.phases| &&
    0 <= w.numSpeciesTot <= |w.soln| && w.numSpeciesTot <= |w.wt| && w.numSpeciesTot <= |w.gibbsSpecies| &&
    w.numSpeciesTot <= |w.volPM| && w.numSpeciesTot <= |w.ind| &&
    w.numSpeciesTot <= |pub.w| && w.numSpeciesTot <= |pub.mf| && w.numSpeciesTot <= |pub.gibbsSpecies| &&
    w.numSpeciesTot <= |pub.volPM| && w.numSpeciesTot <= |pub.speciesUnknownType| &&
    pub.nspecies <= |pub.w| && pub.nspecies <= |pub.mf| &&
    forall iph :: 0 <= iph < pub.nPhase ==>
      ExportShape(pub.phases[iph], ApplyTotals(w.phases, tm, w.nPhase)[iph], |w.soln|)
  }

  /** What the routines vcs() calls but this model does not contain report:
      the codes of vcs_prep_oneTime, vcs_prep, vcs_wellPosed, vcs_TP and
      vcs_TV; the workspace as vcs_SSPhase leaves it during an incremental
      import (`ssPhased`), as vcs_prep leaves it (`prepped`) and as the
      minimisation leaves it after that (`solved`); the phase totals
      vcs_tmoles computes during an incremental import and during the
      export; the volume vcs_VolTotal computes; and the time the call takes. */
  datatype Externals = Externals(
    prepOneTime: int,
    prep: int,
    wellPosed: bool,
    tp: int,
    tv: int,
    ssPhased: Workspace,
    prepped: Workspace,
    solved: Workspace,
    specifyTotals: seq<PhaseTotals>,
    updateTotals: seq<PhaseTotals>,
    volTotal: real,
    elapsed: real)

  /** The outcome of vcs() once the problem is in place (lines 357-428),
      when the export does not abort: a failing prep, an ill-posed problem
      or an unknown problem type end the call with an error code, otherwise
      the code of the minimisation is returned. */
  function SolveOutcome(ext: Externals, probType: int): (r: Outcome)
    ensures ext.prep != VcsSuccess ==> r == Returned(ext.prep)
    ensures ext.prep == VcsSuccess && !ext.wellPosed ==> r == Returned(VcsPubBad)
    ensures Solved(ext, probType) ==> r == Returned(if probType == ProbTypeTP then ext.tp else ext.tv)
    ensures ext.prep == VcsSuccess && ext.wellPosed && !Solved(ext, probType) ==> r == Returned(VcsPubBad)
  {
    if ext.prep != VcsSuccess then Returned(ext.prep)
    else if !ext.wellPosed then Returned(VcsPubBad)
    else if probType == ProbTypeTP then Returned(ext.tp)
    else if probType == ProbTypeTV then Returned(ext.tv)
    else Returned(VcsPubBad)
  }

  /** The minimisation runs, so the results are exported. */
  predicate Solved(ext: Externals, probType: int)
  {
    ext.prep == VcsSuccess && ext.wellPosed && (probType == ProbTypeTP || probType == ProbTypeTV)
  }

  /** Some stored phase in range holds other inert moles than the caller's
      counterpart: the status change that makes vcs_prob_specify call
      vcs_SSPhase (line 885). */
  ghost predicate InertMolesChange(w: Workspace, pub: VcsProb)
    reads pub
    requires 0 <= w.nPhase <= |w.phases| && w.nPhase <= |pub.phases|
  {
    exists iph :: 0 <= iph < w.nPhase && w.phases[iph].tMolesInert != pub.phases[iph].tMolesInert
  }

  /** Lines 910-936, as the caller's vectors stand afterwards: each of the
      first numSpeciesTot species has taken the mole number (0 for a
      voltage pseudo-species), mole fraction, chemical potential and
      partial molar volume of the internal slot the search finds for it,
      the rest of each vector (given before the export as w0, mf0, g0, v0)
      is kept, and the temperature, pressure and volume are the workspace's. */
  ghost predicate SpeciesExported(w: Workspace, pub: VcsProb, w0: seq<real>, mf0: seq<real>, g0: seq<real>, v0: seq<real>)
    reads pub`w, pub`mf, pub`gibbsSpecies, pub`volPM, pub`speciesUnknownType
    reads pub`temperature, pub`pressure, pub`vol
  {
    var n := w.numSpeciesTot;
    0 <= n <= |w.soln| && n <= |w.wt| && n <= |w.gibbsSpecies| && n <= |w.volPM| && n <= |w.ind| &&
    n <= |pub.speciesUnknownType| &&
    |pub.w| == |w0| && |pub.mf| == |mf0| && |pub.gibbsSpecies| == |g0| && |pub.volPM| == |v0| &&
    n <= |w0| && n <= |mf0| && n <= |g0| && n <= |v0| &&
    pub.w[..n] == ExportMoles(w.soln, w.ind[..n], pub.speciesUnknownType) && pub.w[n..] == w0[n..] &&
    pub.mf[..n] == Scatter(w.wt, w.ind[..n]) && pub.mf[n..] == mf0[n..] &&
    pub.gibbsSpecies[..n] == Scatter(w.gibbsSpecies, w.ind[..n]) && pub.gibbsSpecies[n..] == g0[n..] &&
    pub.volPM[..n] == Scatter(w.volPM, w.ind[..n]) && pub.volPM[n..] == v0[n..] &&
    pub.temperature == w.temperature && pub.pressure == w.pressure && pub.vol == w.vol
  }

  /** Lines 937-990, as the caller's phases stand after a successful export:
      each of its first NPhase phases (given before the export as phases0)
      has taken the results of the matching stored phase, the others are
      kept, and the iteration counts are reported. */
  ghost predicate PhasesExported(w: Workspace, pub: VcsProb, phases0: seq<VolPhase>, its: int, basisOpts: int)
    reads pub`phases, pub`nPhase, pub`iterations, pub`numBasisOptimizations
  {
    0 <= pub.nPhase <= |w.phases| && |pub.phases| == |phases0| && pub.nPhase <= |phases0| &&
    (forall iph :: 0 <= iph < pub.nPhase ==> pub.phases[iph] == ExportedPhase(phases0[iph], w.phases[iph])) &&
    (forall iph :: pub.nPhase <= iph < |pub.phases| ==> pub.phases[iph] == phases0[iph]) &&
    pub.iterations == its && pub.numBasisOptimizations == basisOpts
  }

  /** Lines 910-936: the species vectors and the conditions go back to the caller. */
  method ExportSpecies(w: Workspace, pub: VcsProb)
    requires 0 <= w.numSpeciesTot <= |w.soln| && w.numSpeciesTot <= |w.wt| &&
             w.numSpeciesTot <= |w.gibbsSpecies| && w.numSpeciesTot <= |w.volPM| && w.numSpeciesTot <= |w.ind|
    requires w.numSpeciesTot <= |pub.w| && w.numSpeciesTot <= |pub.mf| && w.numSpeciesTot <= |pub.gibbsSpecies| &&
             w.numSpeciesTot <= |pub.volPM| && w.numSpeciesTot <= |pub.speciesUnknownType|
    modifies pub`w, pub`mf, pub`gibbsSpecies, pub`volPM, pub`temperature, pub`pressure, pub`vol
    ensures SpeciesExported(w, pub, old(pub.w), old(pub.mf), old(pub.gibbsSpecies), old(pub.volPM))
  {
    var mw, mf, g, v := ScatterSpecies(pub.w, pub.mf, pub.gibbsSpecies, pub.volPM,
                                       w.soln, w.wt, w.gibbsSpecies, w.volPM, w.ind, pub.speciesUnknownType,
                                       w.numSpeciesTot);
    pub.w, pub.mf, pub.gibbsSpecies, pub.volPM := mw, mf, g, v;
    pub.temperature, pub.pressure, pub.vol := w.temperature, w.pressure, w.vol;
  }

  /** What the phase export reads: each of the caller's first NPhase phases
      points into vectors of nw and nmf entries and has the shape export
      reads against the matching stored phase. */
  ghost predicate PhasesExportable(w: Workspace, pub: VcsProb, nw: int, nmf: int)
    reads pub`phases, pub`nPhase
  {
    0 <= pub.nPhase <= |pub.phases| && pub.nPhase <= |w.phases| &&
    forall iph :: 0 <= iph < pub.nPhase ==>
      PubPhaseShape(pub.phases[iph], nw) && PubPhaseShape(pub.phases[iph], nmf) &&
      ExportShape(pub.phases[iph], w.phases[iph], |w.soln|)
  }

  /** Lines 937-990: each of the caller's phases takes the results of the
      matching stored phase, after the consistency checks of its voltage,
      mole fractions and total moles against the exported vectors; a failed
      check ends the process. */
  method ExportPhaseResults(w: Workspace, pub: VcsProb, its: int, basisOpts: int) returns (ok: bool)
    requires PhasesExportable(w, pub, |pub.w|, |pub.mf|)
    modifies pub`phases, pub`iterations, pub`numBasisOptimizations
    ensures !ok <==> exists iph :: 0 <= iph < pub.nPhase &&
                       !PhaseConsistent(old(pub.phases[iph]), w.phases[iph], pub.w, pub.mf, w.soln)
    ensures ok ==> PhasesExported(w, pub, old(pub.phases), its, basisOpts)
  {
    var exported;
    ok, exported := ExportPhases(pub.phases, w.phases, pub.nPhase, pub.w, pub.mf, w.soln);
    if ok {
      pub.phases, pub.iterations, pub.numBasisOptimizations := exported, its, basisOpts;
    }
  }

  /** Lines 910-990: the species results and the conditions go back to the
      caller, then the phase results. */
  method ExportResults(w: Workspace, pub: VcsProb, its: int, basisOpts: int) returns (ok: bool)
    requires ExportArgs(w, pub)
    modifies pub`w, pub`mf, pub`gibbsSpecies, pub`volPM, pub`temperature, pub`pressure, pub`vol
    modifies pub`phases, pub`iterations, pub`numBasisOptimizations
    ensures SpeciesExported(w, pub, old(pub.w), old(pub.mf), old(pub.gibbsSpecies), old(pub.volPM))
    ensures !ok <==> exists iph :: 0 <= iph < pub.nPhase &&
                       !PhaseConsistent(old(pub.phases[iph]), w.phases[iph], pub.w, pub.mf, w.soln)
    ensures ok ==> PhasesExported(w, pub, old(pub.phases), its, basisOpts)
  {
    ghost var nw, nmf := |pub.w|, |pub.mf|;
    assert PhasesExportable(w, pub, nw, nmf);
    ExportSpecies(w, pub);
    ok := ExportPhaseResults(w, pub, its, basisOpts);
  }

  /** What the export needs of the workspace it reads and of the caller's
      problem statement. */
  ghost predicate ExportArgs(w: Workspace, pub: VcsProb)
    reads pub
  {
    var n := w.numSpeciesTot;
    pub.Shaped() && pub.nPhase <= |w.phases| &&
    0 <= n <= |w.soln| && n <= |w.wt| && n <= |w.gibbsSpecies| && n <= |w.volPM| && n <= |w.ind| &&
    n <= |pub.w| && n <= |pub.mf| && n <= |pub.gibbsSpecies| && n <= |pub.volPM| && n <= |pub.speciesUnknownType| &&
    pub.nspecies <= |pub.w| && pub.nspecies <= |pub.mf| &&
    forall iph :: 0 <= iph < pub.nPhase ==> ExportShape(pub.phases[iph], w.phases[iph], |w.soln|)
  }

  /** The outcome of the import stage of vcs() (lines 306-355), where
      Returned(VCS_SUCCESS) means the call goes on. A full import (ifunc 0)
      throws VCS_PUB_BAD when InitSizes rejects the sizes, returns
      VCS_PUB_BAD when the problem is not importable, aborts on a
      charge-neutrality conflict and otherwise reports the one-time prep;
      an incremental import (ifunc 1) returns VCS_PUB_BAD when a phase
      mismatches. */
  ghost function StageOutcome(w: Workspace, pub: VcsProb, ifunc: int, prepOneTime: int): Outcome
    reads pub
    requires ifunc == 0 ==> pub.Shaped()
    requires ifunc == 1 ==> 0 <= w.nPhase <= |w.phases| && w.nPhase <= |pub.phases|
  {
    if ifunc == 0 then
      if InitSizesAction(w.CurrentSizes(), RequestedSizes(pub.nspecies, pub.ne, pub.nPhase)) == RejectSizes then Thrown(VcsPubBad)
      else if !Importable(pub) then Returned(VcsPubBad)
      else if CnConflict(pub.elName, pub.elType, pub.ne) then Aborted
      else Returned(prepOneTime)
    else if ifunc == 1 && exists iph :: 0 <= iph < w.nPhase && PhaseMismatch(w.phases[iph], pub.phases[iph]) then
      Returned(VcsPubBad)
    else
      Returned(VcsSuccess)
  }

  /** An incremental import of the very problem a full import has just
      stored never gets past the import stage when there is a phase: the
      stored phases are the caller's own, and the name test at line 857
      flags a phase whose name has not changed. */
  lemma {:induction false} RespecifySameProblemRefused(w: Workspace, w': Workspace, pub: VcsProb, prepOneTime: int)
    requires FullyImported(w, w', pub) && pub.nPhase >= 1
    ensures 0 <= w'.nPhase <= |w'.phases| && w'.nPhase <= |pub.phases|
    ensures StageOutcome(w', pub, 1, prepOneTime) == Returned(VcsPubBad)
  {
    UnchangedPhaseIsFlagged(pub.phases[0]);
    assert w'.phases[0] == pub.phases[0];
  }

  /** The solve stage after the minimisation ran (lines 403-411), with the
      caller's vectors and phases given as they stood before the export
      (w0, mf0, g0, v0, phases0): the workspace is the one the minimisation
      left, with the phase totals and the volume recomputed; the species
      results are exported; the call aborts exactly when some phase is
      inconsistent with the exported vectors, and otherwise the phase
      results are exported and the minimisation's code is the result. */
  ghost predicate SolvedAndExported(w: Workspace, pub: VcsProb, ext: Externals, r: Outcome, its: int, basisOpts: int,
                                    w0: seq<real>, mf0: seq<real>, g0: seq<real>, v0: seq<real>, phases0: seq<VolPhase>)
    reads pub
  {
    0 <= ext.solved.nPhase <= |ext.solved.phases| && ext.solved.nPhase <= |ext.updateTotals| &&
    w == ext.solved.(phases := ApplyTotals(ext.solved.phases, ext.updateTotals, ext.solved.nPhase), vol := ext.volTotal) &&
    SpeciesExported(w, pub, w0, mf0, g0, v0) &&
    0 <= pub.nPhase <= |w.phases| && pub.nPhase <= |phases0| &&
    (r == Aborted <==>
       exists iph :: 0 <= iph < pub.nPhase && !PhaseConsistent(phases0[iph], w.phases[iph], pub.w, pub.mf, w.soln)) &&
    (r != Aborted ==> r == SolveOutcome(ext, pub.probType) && PhasesExported(w, pub, phases0, its, basisOpts))
  }

  class VcsSolve {
    /** the data members */
    var ws: Workspace
    /** m_VCount: null until InitSizes allocates it */
    var vcount: Counters?

    /** Lines 30-58: an empty workspace; nothing is allocated yet. */
    constructor ()
      ensures ws.CurrentSizes() == Sizes(0, 0, 0) && ws.numSpeciesTot == 0 && ws.numComponents == 0
      ensures ws.numRxnTot == 0 && ws.numSpeciesRdc == 0 && ws.numRxnMinorZeroed == 0
      ensures ws.nPhase == 0 && ws.iest == 0 && ws.temperature == 0.0 && ws.pressure == 0.0 && ws.vol == 0.0
      ensures ws.tolmaj == 0.0 && ws.tolmin == 0.0 && ws.tolmaj2 == 0.0 && ws.tolmin2 == 0.0
      ensures ws.unitsFormat == UnitsUnitless && vcount == null
      ensures ws.soln == [] && ws.gai == [] && ws.phases == [] && ws.formulaMatrix == []
      ensures !Valid()
    {
      ws := Pristine;
      vcount := null;
    }

    /** An allocated workspace with its counters. */
    ghost predicate Valid()
      reads this
    {
      vcount != null && ws.Valid()
    }

    /** Lines 226-247: releases the counters and forgets the capacities. */
    method DeleteMemory()
      modifies this`ws, this`vcount
      ensures ws == Released(old(ws)) && vcount == null
    {
      vcount := null;
      ws := Released(ws);
    }

    /** Lines 1004-1019: the per-solve counters are reset; with a non-zero
        ifunc the running totals are reset too, otherwise they are kept. */
    method CountersInit(ifunc: int)
      requires vcount != null
      modifies vcount
      ensures vcount.RunZero()
      ensures ifunc != 0 ==> vcount.TotalsZero()
      ensures ifunc == 0 ==>
        vcount.tIts == old(vcount.tIts) && vcount.tBasisOpts == old(vcount.tBasisOpts) &&
        vcount.tCallsInest == old(vcount.tCallsInest) && vcount.tCallsVcsTP == old(vcount.tCallsVcsTP) &&
        vcount.tTimeVcsTP == old(vcount.tTimeVcsTP) && vcount.tTimeBasopt == old(vcount.tTimeBasopt) &&
        vcount.tTimeInest == old(vcount.tTimeInest) && vcount.tTimeVcs == old(vcount.tTimeVcs)
    {
      vcount.its := 0;
      vcount.basisOpts := 0;
      vcount.timeVcsTP := 0.0;
      vcount.timeBasopt := 0.0;
      if ifunc != 0 {
        vcount.tIts := 0;
        vcount.tBasisOpts := 0;
        vcount.tCallsInest := 0;
        vcount.tCallsVcsTP := 0;
        vcount.tTimeVcsTP := 0.0;
        vcount.tTimeBasopt := 0.0;
        vcount.tTimeInest := 0.0;
        vcount.tTimeVcs := 0.0;
      }
    }

    /** Lines 60-215: sizes the workspace for nspecies0 species, nelements
        elements and nphase0 phases. A workspace in use with exactly these
        sizes is kept as it is; otherwise the old one is released, the sizes
        are stored, and non-positive sizes are rejected with a thrown
        VCS_PUB_BAD; accepted sizes give an allocated workspace and new
        counters reset in full. */
    method InitSizes(nspecies0: int, nelements: int, nphase0: int) returns (r: Outcome)
      modifies this`ws, this`vcount
      ensures var act := InitSizesAction(old(ws.CurrentSizes()), Sizes(nspecies0, nelements, nphase0));
        act == KeepSizes ==> r == Returned(VcsSuccess) && ws == old(ws) && vcount == old(vcount)
      ensures var act := InitSizesAction(old(ws.CurrentSizes()), Sizes(nspecies0, nelements, nphase0));
        act == RejectSizes ==>
          r == Thrown(VcsPubBad) &&
          ws == StoredSizes(if old(ws.nSpecies0) != 0 then Released(old(ws)) else old(ws), nspecies0, nelements, nphase0) &&
          vcount == (if old(ws.nSpecies0) != 0 then null else old(vcount))
      ensures var act := InitSizesAction(old(ws.CurrentSizes()), Sizes(nspecies0, nelements, nphase0));
        act == Reallocate ==>
          r == Returned(VcsSuccess) && ws == Allocated(old(ws), nspecies0, nelements, nphase0) &&
          Valid() && fresh(vcount) && vcount.RunZero() && vcount.TotalsZero()
    {
      if ws.nSpecies0 != 0 {
        if nspecies0 != ws.nSpecies0 || nelements != ws.numElemConstraints || nphase0 != ws.nPhase0 {
          DeleteMemory();
        } else {
          return Returned(VcsSuccess);
        }
      }
      if nspecies0 <= 0 || nelements <= 0 || nphase0 <= 0 {
        ws := StoredSizes(ws, nspecies0, nelements, nphase0);
        return Thrown(VcsPubBad);
      }
      AllocatedAfterRelease(old(ws), nspecies0, nelements, nphase0);
      ws := Allocated(ws, nspecies0, nelements, nphase0);
      vcount := new Counters();
      CountersInit(1);
      r := Returned(VcsSuccess);
    }

    /** Lines 441-758: imports a whole problem statement. A problem larger
        than the workspace is refused with nothing changed. Otherwise the
        import fails with VCS_PUB_BAD when the element goals are neither
        supplied nor derivable from an estimate, or when the species to
        phase map is missing (with several phases), names a phase out of
        range, or disagrees with a phase's species count; it aborts when an
        element named "cn_..." is not declared charge-neutrality; and on
        success the workspace holds the problem in the caller's order. */
    method ProbSpecifyFully(pub: VcsProb) returns (r: Outcome)
      requires Valid() && pub.Shaped()
      modifies this`ws
      ensures Valid()
      ensures ws.nSpecies0 == old(ws.nSpecies0) && ws.nPhase0 == old(ws.nPhase0)
      ensures ws.wt == old(ws.wt) && ws.gibbsSpecies == old(ws.gibbsSpecies)
      ensures !old(ws.Fits(pub.nspecies, pub.ne, pub.nPhase)) ==> r == Returned(VcsPubBad) && ws == old(ws)
      ensures r == Returned(VcsSuccess) <==>
        old(ws.Fits(pub.nspecies, pub.ne, pub.nPhase)) && Importable(pub) &&
        !CnConflict(pub.elName, pub.elType, pub.ne)
      ensures r == Aborted <==>
        old(ws.Fits(pub.nspecies, pub.ne, pub.nPhase)) && Importable(pub) &&
        CnConflict(pub.elName, pub.elType, pub.ne)
      ensures r == Returned(VcsSuccess) || r == Returned(VcsPubBad) || r == Aborted
      ensures r == Returned(VcsSuccess) ==> FullyImported(old(ws), ws, pub)
    {
      if !ws.Fits(pub.nspecies, pub.ne, pub.nPhase) {
        return Returned(VcsPubBad);
      }
      r, ws := ImportAll(ws, pub);
    }

    /** Lines 772-892: imports a problem of the same shape. The conditions,
        mole numbers, mole fractions, chemical potentials and element goals
        are gathered into internal order; each stored phase is updated from
        the caller's, and the result is VCS_PUB_BAD exactly when some phase
        changed its id, single-species or gas flag or species count, or kept
        its name. When some phase's inert moles changed, vcs_SSPhase runs and
        the workspace is the one it leaves (ss); otherwise nothing else in the
        workspace changes. Either way the phase totals are then recomputed
        (vcs_tmoles). */
    method ProbSpecify(pub: VcsProb, tm: seq<PhaseTotals>, ss: Workspace) returns (code: int)
      requires SpecifyReady(ws, pub, tm, ss)
      modifies this`ws
      ensures code == VcsPubBad <==>
        exists iph :: 0 <= iph < old(ws.nPhase) && PhaseMismatch(old(ws.phases[iph]), pub.phases[iph])
      ensures code == VcsSuccess || code == VcsPubBad
      ensures old(InertMolesChange(ws, pub)) ==> ws == ss.(phases := ApplyTotals(ss.phases, tm, ss.nPhase))
      ensures !old(InertMolesChange(ws, pub)) ==> ws == old(ws).(temperature := ws.temperature, pressure := ws.pressure, unitsFormat := ws.unitsFormat,
                             iest := ws.iest, vol := ws.vol, tolmaj := ws.tolmaj, tolmin := ws.tolmin,
                             tolmaj2 := ws.tolmaj2, tolmin2 := ws.tolmin2, soln := ws.soln, wt := ws.wt,
                             gibbsSpecies := ws.gibbsSpecies, gai := ws.gai, title := ws.title,
                             phases := ws.phases, tPhInertMoles := ws.tPhInertMoles)
      ensures !old(InertMolesChange(ws, pub)) ==>
        ws.temperature == pub.temperature && ws.pressure == pub.pressure && ws.vol == pub.vol
      ensures !old(InertMolesChange(ws, pub)) ==>
        ws.unitsFormat == pub.unitsFormat && ws.iest == pub.iest
      ensures !old(InertMolesChange(ws, pub)) ==>
        ws.tolmaj == pub.tolmaj && ws.tolmin == pub.tolmin
      ensures !old(InertMolesChange(ws, pub)) ==>
        ws.tolmaj2 == SecondaryTolFactor * pub.tolmaj && ws.tolmin2 == SecondaryTolFactor * pub.tolmin
      ensures !old(InertMolesChange(ws, pub)) ==>
        |ws.soln| == old(|ws.soln|) && |ws.wt| == old(|ws.wt|) &&
              |ws.gibbsSpecies| == old(|ws.gibbsSpecies|) && |ws.gai| == old(|ws.gai|)
      ensures !old(InertMolesChange(ws, pub)) ==>
        ws.soln[..ws.numSpeciesTot] == Gather(pub.w, ws.ind[..ws.numSpeciesTot]) &&
              ws.soln[ws.numSpeciesTot..] == old(ws.soln)[ws.numSpeciesTot..]
      ensures !old(InertMolesChange(ws, pub)) ==>
        ws.wt[..ws.numSpeciesTot] == Gather(pub.mf, ws.ind[..ws.numSpeciesTot]) &&
              ws.wt[ws.numSpeciesTot..] == old(ws.wt)[ws.numSpeciesTot..]
      ensures !old(InertMolesChange(ws, pub)) ==>
        ws.gibbsSpecies[..ws.numSpeciesTot] == Gather(pub.gibbsSpecies, ws.ind[..ws.numSpeciesTot]) &&
              ws.gibbsSpecies[ws.numSpeciesTot..] == old(ws.gibbsSpecies)[ws.numSpeciesTot..]
      ensures !old(InertMolesChange(ws, pub)) ==>
        ws.gai[..ws.numElemConstraints] == Gather(pub.gai, ws.indEl[..ws.numElemConstraints]) &&
              ws.gai[ws.numElemConstraints..] == old(ws.gai)[ws.numElemConstraints..]
      ensures !old(InertMolesChange(ws, pub)) ==>
        ws.title == (if |pub.title| != 0 then pub.title else if |old(ws.title)| != 0 then old(ws.title) else UnspecifiedTitle)
      ensures !old(InertMolesChange(ws, pub)) ==>
        |ws.phases| == old(|ws.phases|) && |ws.tPhInertMoles| == old(|ws.tPhInertMoles|)
      ensures !old(InertMolesChange(ws, pub)) ==>
        forall iph :: 0 <= iph < ws.nPhase ==>
        ws.phases[iph] == WithTotals(RespecifiedPhase(old(ws.phases[iph]), pub.phases[iph]), tm[iph]) &&
        ws.tPhInertMoles[iph] == pub.phases[iph].tMolesInert
      ensures !old(InertMolesChange(ws, pub)) ==>
        forall iph :: ws.nPhase <= iph < |ws.phases| ==> ws.phases[iph] == old(ws.phases[iph])
      ensures !old(InertMolesChange(ws, pub)) ==>
        forall iph :: ws.nPhase <= iph < |ws.tPhInertMoles| ==> ws.tPhInertMoles[iph] == old(ws.tPhInertMoles[iph])
    {
      var w := ws;
      var soln, wt, gibbs := GatherSpecies(w.soln, w.wt, w.gibbsSpecies, pub.w, pub.mf, pub.gibbsSpecies, w.ind, w.numSpeciesTot);
      var gai := GatherElements(w.gai, pub.gai, w.indEl, w.numElemConstraints);
      var title := w.title;
      if |pub.title| == 0 {
        if |title| == 0 {
          title := UnspecifiedTitle;
        }
      } else {
        title := pub.title;
      }
      var bad, statusChange, respecified, inert := RespecifyPhases(w.phases, w.tPhInertMoles, pub.phases, w.nPhase);
      code := if bad then VcsPubBad else VcsSuccess;
      if statusChange {
        ws := ss.(phases := ApplyTotals(ss.phases, tm, ss.nPhase));
        return;
      }
      ws := w.(temperature := pub.temperature, pressure := pub.pressure, unitsFormat := pub.unitsFormat,
               iest := pub.iest, vol := pub.vol, tolmaj := pub.tolmaj, tolmin := pub.tolmin,
               tolmaj2 := SecondaryTolFactor * pub.tolmaj, tolmin2 := SecondaryTolFactor * pub.tolmin,
               soln := soln, wt := wt, gibbsSpecies := gibbs, gai := gai, title := title,
               tPhInertMoles := inert, phases := ApplyTotals(respecified, tm, w.nPhase));
    }

    /** Lines 903-991: recomputes the phase totals (vcs_tmoles) and the
        volume (vcs_VolTotal, here the parameter volTotal), writes every
        species' results back in the caller's order (the slot is found by
        searching ind), then the conditions, then each phase, aborting when a
        phase's exported values are inconsistent with the stored phase. */
    method ProbUpdate(pub: VcsProb, tm: seq<PhaseTotals>, volTotal: real) returns (r: Outcome)
      requires vcount != null && ExportReady(ws, pub, tm)
      modifies this`ws
      modifies pub`w, pub`mf, pub`gibbsSpecies, pub`volPM, pub`temperature, pub`pressure, pub`vol
      modifies pub`phases, pub`iterations, pub`numBasisOptimizations
      ensures ws == old(ws).(phases := ApplyTotals(old(ws.phases), tm, old(ws.nPhase)), vol := volTotal)
      ensures SpeciesExported(ws, pub, old(pub.w), old(pub.mf), old(pub.gibbsSpecies), old(pub.volPM)) && pub.vol == volTotal
      ensures r == Aborted <==>
        exists iph :: 0 <= iph < pub.nPhase && !PhaseConsistent(old(pub.phases[iph]), ws.phases[iph], pub.w, pub.mf, ws.soln)
      ensures r == Aborted || r == Returned(VcsSuccess)
      ensures r == Returned(VcsSuccess) ==> PhasesExported(ws, pub, old(pub.phases), vcount.its, vcount.basisOpts)
    {
      ws := ws.(phases := ApplyTotals(ws.phases, tm, ws.nPhase), vol := volTotal);
      var ok := ExportResults(ws, pub, vcount.its, vcount.basisOpts);
      r := if ok then Returned(VcsSuccess) else Aborted;
    }

    /** Lines 306-355: the import stage of vcs(). A full import (ifunc 0)
        sizes the workspace for the problem, imports it and runs the
        one-time prep; an incremental import (ifunc 1) imports a problem of
        the same shape. The first failing step ends the call with its
        outcome; otherwise the call goes on. */
    method Specify(pub: VcsProb, ifunc: int, prepOneTime: int, tm: seq<PhaseTotals>, ss: Workspace) returns (r: Outcome, proceed: bool)
      requires ifunc == 0 || ifunc == 1
      requires ifunc == 0 ==>
        pub.Shaped() && (InitSizesAction(ws.CurrentSizes(), RequestedSizes(pub.nspecies, pub.ne, pub.nPhase)) == KeepSizes ==> Valid())
      requires ifunc == 1 ==> vcount != null && SpecifyReady(ws, pub, tm, ss)
      modifies this`ws, this`vcount
      ensures r == old(StageOutcome(ws, pub, ifunc, prepOneTime))
      ensures proceed <==> r == Returned(VcsSuccess)
      ensures proceed ==> vcount != null && (vcount == old(vcount) || (fresh(vcount) && vcount.TotalsZero()))
      ensures ifunc == 1 ==> vcount == old(vcount)
    {
      proceed := false;
      if ifunc == 0 {
        r := InitSizes(pub.nspecies + 10, pub.ne, pub.nPhase);
        if r != Returned(VcsSuccess) {
          return;
        }
        r := ProbSpecifyFully(pub);
        if r != Returned(VcsSuccess) {
          return;
        }
        if prepOneTime != VcsSuccess {
          return Returned(prepOneTime), false;
        }
      } else {
        var code := ProbSpecify(pub, tm, ss);
        if code != VcsSuccess {
          return Returned(code), false;
        }
      }
      r, proceed := Returned(VcsSuccess), true;
    }

    /** Lines 357-411: the solve stage of vcs(). vcs_prep runs first and
        leaves its workspace. A failing prep, an ill-posed problem or an
        unknown problem type then end the call with an error code, the
        caller's problem untouched; otherwise the workspace the
        minimisation leaves is exported back to the caller (ProbUpdate) and
        the minimisation's code is the result, unless the export aborts. */
    method SolveStage(pub: VcsProb, ext: Externals) returns (r: Outcome)
      requires vcount != null
      requires Solved(ext, pub.probType) ==> ExportReady(ext.solved, pub, ext.updateTotals)
      modifies this`ws
      modifies pub`w, pub`mf, pub`gibbsSpecies, pub`volPM, pub`temperature, pub`pressure, pub`vol
      modifies pub`phases, pub`iterations, pub`numBasisOptimizations
      ensures !Solved(ext, pub.probType) ==> r == SolveOutcome(ext, pub.probType) && ws == ext.prepped && unchanged(pub)
      ensures Solved(ext, pub.probType) ==> SolvedAndExported(ws, pub, ext, r, vcount.its, vcount.basisOpts,
                          old(pub.w), old(pub.mf), old(pub.gibbsSpecies), old(pub.volPM), old(pub.phases))
    {
      ws := ext.prepped;
      r := SolveOutcome(ext, pub.probType);
      if !Solved(ext, pub.probType) {
        return;
      }
      ws := ext.solved;
      var exported := ProbUpdate(pub, ext.updateTotals, ext.volTotal);
      if exported == Aborted {
        r := Aborted;
      }
    }

    /** Lines 291-428: the driver. An ifunc outside 0..2 is refused with
        VCS_PUB_BAD and nothing changes. With ifunc 0 or 1 the problem is
        imported (Specify); if that lets the call go on, vcs_prep runs, and
        a failing prep, an ill-posed problem or an unknown problem type end
        the call with an error code and the prepped workspace; otherwise the workspace the minimisation leaves is
        exported back to the caller and the minimisation's code returned.
        ifunc 2 only records the time. Every call that reaches the end adds
        its time to the running total. */
    method Vcs(pub: VcsProb, ifunc: int, ext: Externals) returns (r: Outcome)
      requires ifunc == 0 ==>
        pub.Shaped() && (InitSizesAction(ws.CurrentSizes(), RequestedSizes(pub.nspecies, pub.ne, pub.nPhase)) == KeepSizes ==> Valid())
      requires ifunc == 1 ==> vcount != null && SpecifyReady(ws, pub, ext.specifyTotals, ext.ssPhased)
      requires ifunc == 2 ==> vcount != null
      requires Solved(ext, pub.probType) ==> ExportReady(ext.solved, pub, ext.updateTotals)
      modifies this`ws, this`vcount, vcount
      modifies pub`w, pub`mf, pub`gibbsSpecies, pub`volPM, pub`temperature, pub`pressure, pub`vol
      modifies pub`phases, pub`iterations, pub`numBasisOptimizations
      ensures !(0 <= ifunc <= 2) ==> r == Returned(VcsPubBad) && ws == old(ws) && vcount == old(vcount) && unchanged(pub)
      ensures ifunc == 2 ==>
        r == Returned(VcsSuccess) && ws == old(ws) && vcount == old(vcount) && unchanged(pub) &&
        vcount.tTimeVcs == old(vcount.tTimeVcs) + ext.elapsed
      ensures (ifunc == 0 || ifunc == 1) && old(StageOutcome(ws, pub, ifunc, ext.prepOneTime)) != Returned(VcsSuccess) ==>
        r == old(StageOutcome(ws, pub, ifunc, ext.prepOneTime)) && unchanged(pub)
      ensures (ifunc == 0 || ifunc == 1) && old(StageOutcome(ws, pub, ifunc, ext.prepOneTime)) == Returned(VcsSuccess) &&
              !Solved(ext, pub.probType) ==>
        r == SolveOutcome(ext, pub.probType) && ws == ext.prepped && unchanged(pub)
      ensures (ifunc == 0 || ifunc == 1) && old(StageOutcome(ws, pub, ifunc, ext.prepOneTime)) == Returned(VcsSuccess) &&
              Solved(ext, pub.probType) ==>
        vcount != null && SolvedAndExported(ws, pub, ext, r, vcount.its, vcount.basisOpts,
                          old(pub.w), old(pub.mf), old(pub.gibbsSpecies), old(pub.volPM), old(pub.phases)) &&
        (r != Aborted ==> vcount.tTimeVcs == ext.elapsed + (if vcount == old(vcount) then old(vcount.tTimeVcs) else 0.0))
    {
      if ifunc < 0 || ifunc > 2 {
        return Returned(VcsPubBad);
      }
      if ifunc != 2 {
        var proceed;
        r, proceed := Specify(pub, ifunc, ext.prepOneTime, ext.specifyTotals, ext.ssPhased);
        if !proceed {
          return;
        }
        r := SolveStage(pub, ext);
        if r == Aborted || !Solved(ext, pub.probType) {
          return;
        }
      } else {
        r := Returned(VcsSuccess);
      }
      vcount.tTimeVcs := vcount.tTimeVcs + ext.elapsed;
    }
  }
}
