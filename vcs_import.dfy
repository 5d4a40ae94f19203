/** The stages of a full import (vcs_prob_specifyFully), in the order the
    source performs them. Each stage takes the workspace as it stands and
    returns it with its own part filled in from the problem statement;
    the record-update ensures that opens each stage says which members
    it may change. */
module Import {
  import opened VcsDefs
  import opened VcsSpec
  import opened VcsTransfer
  import opened Prob
  import opened Work

  /** The import conditions of a full import that do not depend on the
      element names: goals available and an acceptable species to phase map. */
  ghost predicate Importable(pub: VcsProb)
    reads pub
    requires pub.Shaped()
  {
    pub.HasAbundanceGoals() && pub.PhaseMapValid()
  }

  /** Two workspaces a stage of the import relates: both allocated with the
      same capacities, the first with room for the problem. */
  ghost predicate Room(w: Workspace, w': Workspace, pub: VcsProb)
    reads pub
  {
    pub.Shaped() && w.Valid() && w'.Valid() && w.Fits(pub.nspecies, pub.ne, pub.nPhase) &&
    w'.nSpecies0 == w.nSpecies0 && w'.nPhase0 == w.nPhase0 && |w'.gai| == |w.gai|
  }

  /** The species part of a full import, lines 468-576: counts, formula
      matrix (the ne by nspecies block; the rest of the matrix kept), weights,
      charges and unknown types, mole numbers (zeros and no estimate when none
      are supplied), and the element goals (copied when supplied, otherwise
      the abundances of the estimate, when there is one). */
  ghost predicate SpeciesImported(w: Workspace, w': Workspace, pub: VcsProb)
    reads pub
    requires Room(w, w', pub)
  {
    w'.numElemConstraints == pub.ne && w'.numComponents == pub.ne &&
    w'.numSpeciesTot == pub.nspecies && w'.numSpeciesRdc == pub.nspecies &&
    w'.numRxnTot == (if pub.nspecies > pub.ne then pub.nspecies - pub.ne else 0) &&
    w'.numRxnRdc == w'.numRxnTot && w'.numRxnMinorZeroed == 0 && w'.nPhase == pub.nPhase &&
    (forall j, i :: 0 <= j < pub.ne && 0 <= i < pub.nspecies ==> w'.formulaMatrix[j][i] == pub.formulaMatrix[j][i]) &&
    (forall j, i :: 0 <= j < pub.ne && pub.nspecies <= i < w.nSpecies0 ==> w'.formulaMatrix[j][i] == w.formulaMatrix[j][i]) &&
    (forall j :: pub.ne <= j < |w.formulaMatrix| ==> w'.formulaMatrix[j] == w.formulaMatrix[j]) &&
    w'.wtSpecies == CopyPrefix(w.wtSpecies, pub.wtSpecies, pub.nspecies) &&
    w'.charge == CopyPrefix(w.charge, pub.charge, pub.nspecies) &&
    w'.speciesUnknownType == CopyPrefix(w.speciesUnknownType, pub.speciesUnknownType, pub.nspecies) &&
    w'.iest == pub.EstimateFlag() &&
    w'.soln == CopyPrefix(w.soln, if |pub.w| != 0 then pub.w else Zeros(pub.nspecies), pub.nspecies) &&
    (|pub.gai| != 0 ==> w'.gai == CopyPrefix(w.gai, pub.gai, pub.ne)) &&
    (|pub.gai| == 0 && pub.EstimateFlag() == 0 ==>
       w'.gai[..pub.ne] == AbundanceTargets(pub.formulaMatrix, pub.w, pub.speciesUnknownType, pub.nspecies, pub.ne) &&
       w'.gai[pub.ne..] == w.gai[pub.ne..])
  }

  /** The conditions part, lines 578-624: temperature and pressure
      (defaults for non-positive values), each phase's inert moles, units,
      tolerances (the secondary ones a fixed fraction of the primary), and
      the identity arrangement of species and elements, every species major;
      the entries past the problem's counts are kept. */
  ghost predicate ConditionsImported(w: Workspace, w': Workspace, pub: VcsProb)
    reads pub
    requires Room(w, w', pub)
  {
    w'.temperature == (if pub.temperature > 0.0 then pub.temperature else DefaultTemperature) &&
    w'.pressure == (if pub.pressure > 0.0 then pub.pressure else DefaultPressure) &&
    (forall iph :: 0 <= iph < pub.nPhase ==> w'.tPhInertMoles[iph] == pub.phases[iph].tMolesInert) &&
    (forall iph :: pub.nPhase <= iph < |w.tPhInertMoles| ==> w'.tPhInertMoles[iph] == w.tPhInertMoles[iph]) &&
    w'.unitsFormat == pub.unitsFormat && w'.tolmaj == pub.tolmaj && w'.tolmin == pub.tolmin &&
    w'.tolmaj2 == SecondaryTolFactor * pub.tolmaj && w'.tolmin2 == SecondaryTolFactor * pub.tolmin &&
    w'.ind[..pub.nspecies] == Identity(pub.nspecies) && w'.ind[pub.nspecies..] == w.ind[pub.nspecies..] &&
    w'.indEl[..pub.ne] == Identity(pub.ne) && w'.indEl[pub.ne..] == w.indEl[pub.ne..] &&
    (forall k :: 0 <= k < pub.nspecies ==> w'.spStatus[k] == SpeciesMajor) &&
    (forall k :: pub.nspecies <= k < |w.spStatus| ==> w'.spStatus[k] == w.spStatus[k])
  }

  /** The phase-map part, lines 625-663: with a supplied map each species
      gets its phase and its slot in that phase; without one every species
      is in phase 0, in order. The entries past nspecies are kept. */
  ghost predicate PhaseMapImported(w: Workspace, w': Workspace, pub: VcsProb)
    reads pub
    requires Room(w, w', pub)
  {
    (forall k :: pub.nspecies <= k < |w.phaseID| ==> w'.phaseID[k] == w.phaseID[k]) &&
    (forall k :: pub.nspecies <= k < |w.indPhSp| ==> w'.indPhSp[k] == w.indPhSp[k]) &&
    (|pub.phaseID| != 0 ==>
       forall k :: 0 <= k < pub.nspecies ==> w'.phaseID[k] == pub.phaseID[k] && w'.indPhSp[k] == PhaseSlot(pub.phaseID, k)) &&
    (|pub.phaseID| == 0 ==>
       forall k :: 0 <= k < pub.nspecies ==> w'.phaseID[k] == 0 && w'.indPhSp[k] == k)
  }

  /** The element part, lines 664-685: names copied, types and activity
      flags exactly the caller's first ne, and every "cn_" element a
      charge-neutrality constraint. */
  ghost predicate ElementsImported(w: Workspace, w': Workspace, pub: VcsProb)
    reads pub
    requires Room(w, w', pub)
  {
    w'.elName == CopyPrefix(w.elName, pub.elName, pub.ne) &&
    w'.elType == pub.elType[..pub.ne] && w'.elActive == pub.elActive[..pub.ne] &&
    (forall i :: 0 <= i < pub.ne && HasCnPrefix(w'.elName[i]) ==> w'.elType[i] == ElemTypeChargeNeutrality)
  }

  /** The phase part, lines 686-752: species names and partial molar
      volumes copied, the phases themselves copied, each phase's activity
      convention recorded (the entries past nPhase kept) and, for a non-default one, written on its species
      after the solvent (ConventionMarks: the last phase marking a species
      decides its convention), the title (a default when none is given) and
      the volume. */
  ghost predicate PhasesImported(w: Workspace, w': Workspace, pub: VcsProb)
    reads pub
    requires Room(w, w', pub)
  {
    w'.spName == CopyPrefix(w.spName, pub.spName, pub.nspecies) &&
    w'.volPM == CopyPrefix(w.volPM, pub.volPM, pub.nspecies) &&
    w'.phases == CopyPrefix(w.phases, pub.phases, pub.nPhase) &&
    (forall iph :: 0 <= iph < pub.nPhase ==> w'.phaseActConvention[iph] == pub.phases[iph].activityConvention) &&
    (forall iph :: pub.nPhase <= iph < |w.phaseActConvention| ==> w'.phaseActConvention[iph] == w.phaseActConvention[iph]) &&
    w'.specActConvention == ConventionMarks(w'.phases, pub.nPhase, w.specActConvention) &&
    w'.title == (if |pub.title| == 0 then UnspecifiedTitle else pub.title) && w'.vol == pub.vol
  }

  /** Everything a successful full import establishes, lines 468-752. */
  ghost predicate FullyImported(w: Workspace, w': Workspace, pub: VcsProb)
    reads pub
  {
    Room(w, w', pub) &&
    SpeciesImported(w, w', pub) && ConditionsImported(w, w', pub) && PhaseMapImported(w, w', pub) &&
    ElementsImported(w, w', pub) && PhasesImported(w, w', pub)
  }

  /** The species part survives the later stages, which leave the members it reads alone. */
  lemma SpeciesImportKept(wa: Workspace, wb: Workspace, wc: Workspace, wd: Workspace, pub: VcsProb)
    requires Room(wa, wb, pub) && SpeciesImported(wa, wb, pub) && Room(wc, wd, pub)
    requires wc.formulaMatrix == wa.formulaMatrix && wc.wtSpecies == wa.wtSpecies && wc.charge == wa.charge &&
             wc.speciesUnknownType == wa.speciesUnknownType && wc.soln == wa.soln && wc.gai == wa.gai
    requires wd.numElemConstraints == wb.numElemConstraints && wd.numComponents == wb.numComponents &&
             wd.numSpeciesTot == wb.numSpeciesTot && wd.numSpeciesRdc == wb.numSpeciesRdc &&
             wd.numRxnTot == wb.numRxnTot && wd.numRxnRdc == wb.numRxnRdc &&
             wd.numRxnMinorZeroed == wb.numRxnMinorZeroed && wd.nPhase == wb.nPhase &&
             wd.formulaMatrix == wb.formulaMatrix && wd.wtSpecies == wb.wtSpecies && wd.charge == wb.charge &&
             wd.speciesUnknownType == wb.speciesUnknownType && wd.iest == wb.iest &&
             wd.soln == wb.soln && wd.gai == wb.gai
    ensures SpeciesImported(wc, wd, pub)
  {
  }

  /** The conditions part survives the stages around it likewise. */
  lemma ConditionsImportKept(wa: Workspace, wb: Workspace, wc: Workspace, wd: Workspace, pub: VcsProb)
    requires Room(wa, wb, pub) && ConditionsImported(wa, wb, pub) && Room(wc, wd, pub)
    requires wc.tPhInertMoles == wa.tPhInertMoles && wc.ind == wa.ind && wc.indEl == wa.indEl &&
             wc.spStatus == wa.spStatus
    requires wd.temperature == wb.temperature && wd.pressure == wb.pressure &&
             wd.tPhInertMoles == wb.tPhInertMoles && wd.unitsFormat == wb.unitsFormat &&
             wd.tolmaj == wb.tolmaj && wd.tolmin == wb.tolmin && wd.tolmaj2 == wb.tolmaj2 &&
             wd.tolmin2 == wb.tolmin2 && wd.ind == wb.ind && wd.indEl == wb.indEl && wd.spStatus == wb.spStatus
    ensures ConditionsImported(wc, wd, pub)
  {
  }

  /** The element part survives the stages around it likewise. */
  lemma ElementsImportKept(wa: Workspace, wb: Workspace, wc: Workspace, wd: Workspace, pub: VcsProb)
    requires Room(wa, wb, pub) && ElementsImported(wa, wb, pub) && Room(wc, wd, pub)
    requires wc.elName == wa.elName
    requires wd.elName == wb.elName && wd.elType == wb.elType && wd.elActive == wb.elActive
    ensures ElementsImported(wc, wd, pub)
  {
  }

  /** The phase part holds against any earlier state with the same members it reads. */
  lemma PhasesImportKept(wa: Workspace, wb: Workspace, wc: Workspace, pub: VcsProb)
    requires Room(wa, wb, pub) && PhasesImported(wa, wb, pub) && Room(wc, wb, pub)
    requires wc.spName == wa.spName && wc.volPM == wa.volPM && wc.phases == wa.phases &&
             wc.specActConvention == wa.specActConvention && wc.phaseActConvention == wa.phaseActConvention
    ensures PhasesImported(wc, wb, pub)
  {
  }

  /** Lines 468-576, the species part (SpeciesImported). Fails exactly when
      the goals can be neither copied nor derived; the goals are then left
      as they were. */
  method ImportSpecies(w: Workspace, pub: VcsProb) returns (ok: bool, w': Workspace)
    requires w.Valid() && pub.Shaped() && w.Fits(pub.nspecies, pub.ne, pub.nPhase)
    ensures w' == w.(numElemConstraints := w'.numElemConstraints, numSpeciesTot := w'.numSpeciesTot,
                     numSpeciesRdc := w'.numSpeciesRdc, numComponents := w'.numComponents,
                     numRxnTot := w'.numRxnTot, numRxnRdc := w'.numRxnRdc,
                     numRxnMinorZeroed := w'.numRxnMinorZeroed, nPhase := w'.nPhase,
                     formulaMatrix := w'.formulaMatrix, wtSpecies := w'.wtSpecies, charge := w'.charge,
                     speciesUnknownType := w'.speciesUnknownType, iest := w'.iest, soln := w'.soln, gai := w'.gai)
    ensures Room(w, w', pub)
    ensures ok <==> pub.HasAbundanceGoals()
    ensures SpeciesImported(w, w', pub)
    ensures !ok ==> w'.gai == w.gai
  {
    var ns, ne := pub.nspecies, pub.ne;
    var nrxn := if ns - ne > 0 then ns - ne else 0;
    var fm := CopyFormulaMatrix(w.formulaMatrix, pub.formulaMatrix, ns, ne);
    var types := CopyPrefix(w.speciesUnknownType, pub.speciesUnknownType, ns);
    var iest := if |pub.w| != 0 then pub.iest else -1;
    var soln := CopyPrefix(w.soln, if |pub.w| != 0 then pub.w else Zeros(ns), ns);
    var gai;
    ok, gai := ImportGoals(w.gai, pub, fm, soln, types);
    w' := w.(numElemConstraints := ne, numSpeciesTot := ns, numSpeciesRdc := ns, numComponents := ne,
             numRxnTot := nrxn, numRxnRdc := nrxn, numRxnMinorZeroed := 0, nPhase := pub.nPhase,
             formulaMatrix := fm,
             wtSpecies := CopyPrefix(w.wtSpecies, pub.wtSpecies, ns),
             charge := CopyPrefix(w.charge, pub.charge, ns),
             speciesUnknownType := types, iest := iest, soln := soln, gai := gai);
  }

  /** Lines 553-571: the element goals, copied when supplied, otherwise the
      abundances of the estimate in the formula matrix, mole numbers and
      unknown types just imported; fails, leaving the goals alone, when
      there is neither. */
  method ImportGoals(gai: seq<real>, pub: VcsProb, fm: seq<seq<real>>, soln: seq<real>, types: seq<int>)
    returns (ok: bool, gai': seq<real>)
    requires pub.Shaped() && pub.ne <= |gai| && pub.ne <= |fm| && pub.nspecies <= |soln| && pub.nspecies <= |types|
    requires forall j :: 0 <= j < pub.ne ==> pub.nspecies <= |fm[j]|
    requires forall j, i :: 0 <= j < pub.ne && 0 <= i < pub.nspecies ==> fm[j][i] == pub.formulaMatrix[j][i]
    requires |pub.w| != 0 ==> soln[..pub.nspecies] == pub.w[..pub.nspecies]
    requires types[..pub.nspecies] == pub.speciesUnknownType[..pub.nspecies]
    ensures |gai'| == |gai|
    ensures ok <==> pub.HasAbundanceGoals()
    ensures |pub.gai| != 0 ==> gai' == CopyPrefix(gai, pub.gai, pub.ne)
    ensures |pub.gai| == 0 && pub.EstimateFlag() == 0 ==>
      gai'[..pub.ne] == AbundanceTargets(pub.formulaMatrix, pub.w, pub.speciesUnknownType, pub.nspecies, pub.ne) &&
      gai'[pub.ne..] == gai[pub.ne..]
    ensures !ok ==> gai' == gai
  {
    var ns, ne := pub.nspecies, pub.ne;
    gai', ok := gai, true;
    if |pub.gai| != 0 {
      gai' := CopyPrefix(gai, pub.gai, ne);
    } else if pub.EstimateFlag() == 0 {
      gai' := ElementAbundances(gai, fm, soln, types, ns, ne);
      forall j | 0 <= j < ne
        ensures gai'[j] == Abundance(pub.formulaMatrix[j], pub.w, pub.speciesUnknownType, ns)
      {
        assert fm[j][..ns] == pub.formulaMatrix[j][..ns];
        AbundanceCongruence(fm[j], pub.formulaMatrix[j], soln, pub.w, types, pub.speciesUnknownType, ns);
      }
    } else {
      ok := false;
    }
  }

  /** Lines 578-624, the conditions part (ConditionsImported). */
  method ImportConditions(w: Workspace, pub: VcsProb) returns (w': Workspace)
    requires w.Valid() && pub.Shaped() && w.Fits(pub.nspecies, pub.ne, pub.nPhase)
    ensures w' == w.(temperature := w'.temperature, pressure := w'.pressure, tPhInertMoles := w'.tPhInertMoles,
                     unitsFormat := w'.unitsFormat, tolmaj := w'.tolmaj, tolmin := w'.tolmin,
                     tolmaj2 := w'.tolmaj2, tolmin2 := w'.tolmin2, ind := w'.ind, indEl := w'.indEl,
                     spStatus := w'.spStatus)
    ensures Room(w, w', pub) && ConditionsImported(w, w', pub)
  {
    var inert := CopyInertMoles(w.tPhInertMoles, pub.phases, pub.nPhase);
    var ind := IdentityPrefix(w.ind, pub.nspecies);
    var indEl := IdentityPrefix(w.indEl, pub.ne);
    var status := FillPrefix(w.spStatus, pub.nspecies, SpeciesMajor);
    w' := w.(temperature := if pub.temperature > 0.0 then pub.temperature else DefaultTemperature,
             pressure := if pub.pressure > 0.0 then pub.pressure else DefaultPressure,
             tPhInertMoles := inert, unitsFormat := pub.unitsFormat,
             tolmaj := pub.tolmaj, tolmin := pub.tolmin,
             tolmaj2 := SecondaryTolFactor * pub.tolmaj, tolmin2 := SecondaryTolFactor * pub.tolmin,
             ind := ind, indEl := indEl, spStatus := status);
  }

  /** Lines 625-663, the phase-map part (PhaseMapImported). A supplied map
      must name phases in range and give each phase its declared species
      count; without one the problem must have a single phase. Fails
      exactly when the map is not acceptable. */
  method ImportPhaseMap(w: Workspace, pub: VcsProb) returns (ok: bool, w': Workspace)
    requires w.Valid() && pub.Shaped() && w.Fits(pub.nspecies, pub.ne, pub.nPhase)
    ensures w' == w.(phaseID := w'.phaseID, indPhSp := w'.indPhSp)
    ensures Room(w, w', pub)
    ensures ok <==> pub.PhaseMapValid()
    ensures ok ==> PhaseMapImported(w, w', pub)
  {
    var ns, nph := pub.nspecies, pub.nPhase;
    if |pub.phaseID| != 0 {
      var m, pid, slots, counts := MapSpeciesToPhases(pub.phaseID, ns, nph, w.phaseID, w.indPhSp);
      w' := w.(phaseID := pid, indPhSp := slots);
      if m < ns {
        return false, w';
      }
      ok := PhaseCountsMatch(counts, pub.phases, nph);
    } else if nph == 1 {
      var pid, slots := SinglePhaseMap(w.phaseID, w.indPhSp, ns);
      w' := w.(phaseID := pid, indPhSp := slots);
      ok := true;
    } else {
      w' := w;
      ok := false;
    }
  }

  /** Lines 664-685, the element part (ElementsImported); aborts when a
      name starting "cn_" belongs to an element not declared
      charge-neutrality. */
  method ImportElements(w: Workspace, pub: VcsProb) returns (aborted: bool, w': Workspace)
    requires w.Valid() && pub.Shaped() && w.Fits(pub.nspecies, pub.ne, pub.nPhase) && w.numElemConstraints == pub.ne
    ensures w' == w.(elName := w'.elName, elType := w'.elType, elActive := w'.elActive)
    ensures Room(w, w', pub)
    ensures aborted <==> CnConflict(pub.elName, pub.elType, pub.ne)
    ensures !aborted ==> ElementsImported(w, w', pub)
  {
    var ne := pub.ne;
    var types0 := Resize(w.elType, ne, ElemTypeAbsPos);
    var active0 := Resize(w.elActive, ne, 1);
    var names, types, active;
    aborted, names, types, active := CopyElements(w.elName, types0, active0, pub.elName, pub.elType, pub.elActive, ne);
    if aborted {
      w' := w.(elType := types0, elActive := active0);
    } else {
      w' := w.(elName := names, elType := types, elActive := active);
    }
  }

  /** Lines 686-752, the phase part (PhasesImported). */
  method ImportPhases(w: Workspace, pub: VcsProb) returns (w': Workspace)
    requires w.Valid() && pub.Shaped() && w.Fits(pub.nspecies, pub.ne, pub.nPhase)
    ensures w' == w.(spName := w'.spName, phases := w'.phases, phaseActConvention := w'.phaseActConvention,
                     specActConvention := w'.specActConvention, title := w'.title, vol := w'.vol,
                     volPM := w'.volPM)
    ensures Room(w, w', pub) && PhasesImported(w, w', pub)
  {
    var nph := pub.nPhase;
    var phases := CopyPrefix(w.phases, pub.phases, nph);
    var phaseConv, specConv := AssignActivityConventions(phases, nph, w.phaseActConvention, w.specActConvention);
    w' := w.(spName := CopyPrefix(w.spName, pub.spName, pub.nspecies),
             phases := phases, phaseActConvention := phaseConv, specActConvention := specConv,
             title := if |pub.title| == 0 then UnspecifiedTitle else pub.title,
             vol := pub.vol);
    if |w'.volPM| != 0 {
      w' := w'.(volPM := CopyPrefix(w'.volPM, pub.volPM, pub.nspecies));
    }
  }

  /** The five stages, each relating the workspace before it to the one after,
      together establish the whole import against the workspace at the start. */
  lemma StagesCompose(w: Workspace, w1: Workspace, w2: Workspace, w3: Workspace, w4: Workspace, w5: Workspace, pub: VcsProb)
    requires w1 == w.(numElemConstraints := w1.numElemConstraints, numSpeciesTot := w1.numSpeciesTot,
                     numSpeciesRdc := w1.numSpeciesRdc, numComponents := w1.numComponents,
                     numRxnTot := w1.numRxnTot, numRxnRdc := w1.numRxnRdc,
                     numRxnMinorZeroed := w1.numRxnMinorZeroed, nPhase := w1.nPhase,
                     formulaMatrix := w1.formulaMatrix, wtSpecies := w1.wtSpecies, charge := w1.charge,
                     speciesUnknownType := w1.speciesUnknownType, iest := w1.iest, soln := w1.soln, gai := w1.gai)
    requires Room(w, w1, pub) && SpeciesImported(w, w1, pub)
    requires w2 == w1.(temperature := w2.temperature, pressure := w2.pressure, tPhInertMoles := w2.tPhInertMoles,
                     unitsFormat := w2.unitsFormat, tolmaj := w2.tolmaj, tolmin := w2.tolmin,
                     tolmaj2 := w2.tolmaj2, tolmin2 := w2.tolmin2, ind := w2.ind, indEl := w2.indEl,
                     spStatus := w2.spStatus)
    requires Room(w1, w2, pub) && ConditionsImported(w1, w2, pub)
    requires w3 == w2.(phaseID := w3.phaseID, indPhSp := w3.indPhSp)
    requires Room(w2, w3, pub) && PhaseMapImported(w2, w3, pub)
    requires w4 == w3.(elName := w4.elName, elType := w4.elType, elActive := w4.elActive)
    requires Room(w3, w4, pub) && ElementsImported(w3, w4, pub)
    requires w5 == w4.(spName := w5.spName, phases := w5.phases, phaseActConvention := w5.phaseActConvention,
                     specActConvention := w5.specActConvention, title := w5.title, vol := w5.vol,
                     volPM := w5.volPM)
    requires Room(w4, w5, pub) && PhasesImported(w4, w5, pub)
    ensures FullyImported(w, w5, pub)
  {
    SpeciesImportKept(w, w1, w, w5, pub);
    ConditionsImportKept(w1, w2, w, w5, pub);
    ElementsImportKept(w3, w4, w, w5, pub);
    PhasesImportKept(w4, w5, w, pub);
  }

  /** A full import with a mole-number estimate, exported straight back
      (vcs_prob_update's mole numbers over the identity arrangement the
      import sets up), gives the caller's estimate back for every species
      but the interfacial voltages, which are exported as zero. */
  lemma {:induction false} ImportExportRoundTrip(w: Workspace, w': Workspace, pub: VcsProb)
    requires FullyImported(w, w', pub) && |pub.w| != 0
    ensures pub.nspecies <= |w'.ind| && pub.nspecies <= |pub.speciesUnknownType|
    ensures forall i :: 0 <= i < pub.nspecies ==>
      ExportMoles(w'.soln, w'.ind[..pub.nspecies], pub.speciesUnknownType)[i] ==
        if pub.speciesUnknownType[i] != SpeciesTypeInterfacialVoltage then pub.w[i] else 0.0
  {
    var n := pub.nspecies;
    var p := w'.ind[..n];
    assert p == Identity(n);
    IdentityIsPermutation(n);
    forall i | 0 <= i < n
      ensures ExportMoles(w'.soln, p, pub.speciesUnknownType)[i] ==
        if pub.speciesUnknownType[i] != SpeciesTypeInterfacialVoltage then pub.w[i] else 0.0
    {
      SearchInverts(p, i);
    }
  }

  /** Lines 468-752: the stages in order, stopping at the first that fails.
      Succeeds exactly when the goals are available, the phase map is
      acceptable and no "cn_" name conflicts; aborts on a conflict. */
  method ImportAll(w: Workspace, pub: VcsProb) returns (r: Outcome, w': Workspace)
    requires w.Valid() && pub.Shaped() && w.Fits(pub.nspecies, pub.ne, pub.nPhase)
    ensures Room(w, w', pub)
    ensures w'.wt == w.wt && w'.gibbsSpecies == w.gibbsSpecies
    ensures r == Returned(VcsSuccess) <==> Importable(pub) && !CnConflict(pub.elName, pub.elType, pub.ne)
    ensures r == Aborted <==> Importable(pub) && CnConflict(pub.elName, pub.elType, pub.ne)
    ensures r == Returned(VcsSuccess) || r == Returned(VcsPubBad) || r == Aborted
    ensures r == Returned(VcsSuccess) ==> FullyImported(w, w', pub)
  {
    var ok, w1 := ImportSpecies(w, pub);
    if !ok {
      return Returned(VcsPubBad), w1;
    }
    var w2 := ImportConditions(w1, pub);
    var w3;
    ok, w3 := ImportPhaseMap(w2, pub);
    if !ok {
      return Returned(VcsPubBad), w3;
    }
    var aborted, w4 := ImportElements(w3, pub);
    if aborted {
      return Aborted, w4;
    }
    w' := ImportPhases(w4, pub);
    StagesCompose(w, w1, w2, w3, w4, w', pub);
    r := Returned(VcsSuccess);
  }
}
