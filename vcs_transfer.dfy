/** The index loops of VCS_SOLVE's transfer routines. Each method runs one
    loop of the source over the buffers it is given and returns the buffers
    it wrote, proved against the functions of VcsSpec; the workspace methods
    in module Solve call them in source order and store the results. */
module VcsTransfer {
  import opened VcsDefs
  import opened VcsSpec

  // ---------------------------------------------------------------------
  // Full import (vcs_prob_specifyFully)
  // ---------------------------------------------------------------------

  /** Lines 501-505: the formula matrix entries of the first ne elements and
      ns species are copied; every other entry keeps its value. */
  method CopyFormulaMatrix(dst: seq<seq<real>>, src: seq<seq<real>>, ns: nat, ne: nat)
    returns (fm: seq<seq<real>>)
    requires ne <= |dst| && ne <= |src|
    requires forall j :: 0 <= j < ne ==> ns <= |dst[j]| && ns <= |src[j]|
    ensures |fm| == |dst|
    ensures forall j :: 0 <= j < |dst| ==> |fm[j]| == |dst[j]|
    ensures forall j, i :: 0 <= j < ne && 0 <= i < ns ==> fm[j][i] == src[j][i]
    ensures forall j, i :: 0 <= j < ne && ns <= i < |dst[j]| ==> fm[j][i] == dst[j][i]
    ensures forall j :: ne <= j < |dst| ==> fm[j] == dst[j]
  {
    fm := dst;
    var i := 0;
    while i < ns
      invariant 0 <= i <= ns
      invariant |fm| == |dst|
      invariant forall j :: 0 <= j < |dst| ==> |fm[j]| == |dst[j]|
      invariant forall j, i' :: 0 <= j < ne && 0 <= i' < i ==> fm[j][i'] == src[j][i']
      invariant forall j, i' :: 0 <= j < ne && i <= i' < |dst[j]| ==> fm[j][i'] == dst[j][i']
      invariant forall j :: ne <= j < |dst| ==> fm[j] == dst[j]
    {
      var j := 0;
      while j < ne
        invariant 0 <= j <= ne
        invariant |fm| == |dst|
        invariant forall j' :: 0 <= j' < |dst| ==> |fm[j']| == |dst[j']|
        invariant forall j', i' :: 0 <= j' < ne && 0 <= i' < i ==> fm[j'][i'] == src[j'][i']
        invariant forall j' :: 0 <= j' < j ==> fm[j'][i] == src[j'][i]
        invariant forall j', i' :: 0 <= j' < ne && i < i' < |dst[j']| ==> fm[j'][i'] == dst[j'][i']
        invariant forall j' :: j <= j' < ne ==> fm[j'][i] == dst[j'][i]
        invariant forall j' :: ne <= j' < |dst| ==> fm[j'] == dst[j']
      {
        fm := fm[j := fm[j][i := src[j][i]]];
        j := j + 1;
      }
      i := i + 1;
    }
  }

  /** Lines 561-568: the target of each of the first ne elements is the
      formula-matrix dot product with the mole numbers over the non-voltage
      species; the targets of other elements are untouched. */
  method ElementAbundances(gai: seq<real>, fm: seq<seq<real>>, soln: seq<real>, types: seq<int>,
                           ns: nat, ne: nat)
    returns (g: seq<real>)
    requires ne <= |gai| && ne <= |fm| && ns <= |soln| && ns <= |types|
    requires forall j :: 0 <= j < ne ==> ns <= |fm[j]|
    ensures |g| == |gai|
    ensures forall j :: 0 <= j < ne ==> g[j] == Abundance(fm[j], soln, types, ns)
    ensures forall j :: ne <= j < |gai| ==> g[j] == gai[j]
  {
    g := gai;
    var j := 0;
    while j < ne
      invariant 0 <= j <= ne && |g| == |gai|
      invariant forall j' :: 0 <= j' < j ==> g[j'] == Abundance(fm[j'], soln, types, ns)
      invariant forall j' :: ne <= j' < |gai| ==> g[j'] == gai[j']
    {
      g := g[j := 0.0];
      var k := 0;
      while k < ns
        invariant 0 <= k <= ns && |g| == |gai|
        invariant g[j] == Abundance(fm[j], soln, types, k)
        invariant forall j' :: 0 <= j' < j ==> g[j'] == Abundance(fm[j'], soln, types, ns)
        invariant forall j' :: ne <= j' < |gai| ==> g[j'] == gai[j']
      {
        if types[k] != SpeciesTypeInterfacialVoltage {
          g := g[j := g[j] + fm[j][k] * soln[k]];
        }
        k := k + 1;
      }
      j := j + 1;
    }
  }

  /** Lines 593-596: each of the first nph phases' inert moles. */
  method CopyInertMoles(inert: seq<real>, pubPhases: seq<VolPhase>, nph: nat) returns (r: seq<real>)
    requires nph <= |inert| && nph <= |pubPhases|
    ensures |r| == |inert|
    ensures forall iph :: 0 <= iph < nph ==> r[iph] == pubPhases[iph].tMolesInert
    ensures forall iph :: nph <= iph < |inert| ==> r[iph] == inert[iph]
  {
    r := inert;
    var iph := 0;
    while iph < nph
      invariant 0 <= iph <= nph && |r| == |inert|
      invariant forall i :: 0 <= i < iph ==> r[i] == pubPhases[i].tMolesInert
      invariant forall i :: iph <= i < |inert| ==> r[i] == inert[i]
    {
      r := r[iph := pubPhases[iph].tMolesInert];
      iph := iph + 1;
    }
  }

  /** Lines 614 and 619: the first n entries become 0, 1, ..., n-1. */
  method IdentityPrefix(s: seq<int>, n: nat) returns (r: seq<int>)
    requires n <= |s|
    ensures |r| == |s|
    ensures r[..n] == Identity(n)
    ensures forall i :: n <= i < |s| ==> r[i] == s[i]
  {
    r := s;
    var i := 0;
    while i < n
      invariant 0 <= i <= n && |r| == |s|
      invariant forall k :: 0 <= k < i ==> r[k] == k
      invariant forall k :: i <= k < |s| ==> r[k] == s[k]
    {
      r := r[i := i];
      i := i + 1;
    }
  }

  /** Line 624: the first n entries become v. */
  method FillPrefix(s: seq<int>, n: nat, v: int) returns (r: seq<int>)
    requires n <= |s|
    ensures |r| == |s|
    ensures forall i :: 0 <= i < n ==> r[i] == v
    ensures forall i :: n <= i < |s| ==> r[i] == s[i]
  {
    r := s;
    var i := 0;
    while i < n
      invariant 0 <= i <= n && |r| == |s|
      invariant forall k :: 0 <= k < i ==> r[k] == v
      invariant forall k :: i <= k < |s| ==> r[k] == s[k]
    {
      r := r[i := v];
      i := i + 1;
    }
  }

  /** Lines 630-643: walks the supplied species to phase map, storing each
      species' phase and phase-local slot and counting the species of each
      phase, and stops at the first phase id outside [0, nph). `m` is where
      it stopped (ns when every id is in range); the counts cover the
      species before m. */
  method MapSpeciesToPhases(pubPid: seq<int>, ns: nat, nph: nat, pid0: seq<int>, slots0: seq<int>)
    returns (m: nat, pid: seq<int>, slots: seq<int>, counts: seq<int>)
    requires ns <= |pubPid| && ns <= |pid0| && ns <= |slots0|
    ensures m == FirstBadPhase(pubPid, ns, nph)
    ensures |pid| == |pid0| && |slots| == |slots0| && |counts| == nph
    ensures forall k :: 0 <= k < m ==> pid[k] == pubPid[k] && slots[k] == PhaseSlot(pubPid, k)
    ensures forall k :: m <= k < |pid0| ==> pid[k] == pid0[k]
    ensures forall k :: m <= k < |slots0| ==> slots[k] == slots0[k]
    ensures forall iph :: 0 <= iph < nph ==> counts[iph] == CountInPhase(pubPid, m, iph)
  {
    counts := seq(nph, _ => 0);
    pid, slots := pid0, slots0;
    m := 0;
    while m < ns
      invariant 0 <= m <= ns
      invariant |pid| == |pid0| && |slots| == |slots0| && |counts| == nph
      invariant forall k :: 0 <= k < m ==> 0 <= pubPid[k] < nph
      invariant forall k :: 0 <= k < m ==> pid[k] == pubPid[k] && slots[k] == PhaseSlot(pubPid, k)
      invariant forall k :: m <= k < |pid0| ==> pid[k] == pid0[k]
      invariant forall k :: m <= k < |slots0| ==> slots[k] == slots0[k]
      invariant forall iph :: 0 <= iph < nph ==> counts[iph] == CountInPhase(pubPid, m, iph)
    {
      var iph := pubPid[m];
      if iph < 0 || iph >= nph {
        FirstBadPhaseAt(pubPid, ns, nph, m);
        return;
      }
      pid := pid[m := iph];
      slots := slots[m := counts[iph]];
      counts := counts[iph := counts[iph] + 1];
      m := m + 1;
    }
    FirstBadPhaseAt(pubPid, ns, nph, ns);
  }

  /** FirstBadPhase is the only index with an in-range prefix and an
      out-of-range entry (or the end). */
  lemma FirstBadPhaseAt(pid: seq<int>, n: nat, nph: int, m: nat)
    requires m <= n <= |pid|
    requires forall k :: 0 <= k < m ==> 0 <= pid[k] < nph
    requires m < n ==> !(0 <= pid[m] < nph)
    ensures FirstBadPhase(pid, n, nph) == m
  {
  }

  /** Lines 644-651: every one of the first nph phases holds exactly the
      number of species it declares. */
  method PhaseCountsMatch(counts: seq<int>, pubPhases: seq<VolPhase>, nph: nat) returns (ok: bool)
    requires nph <= |counts| && nph <= |pubPhases|
    ensures ok <==> forall iph :: 0 <= iph < nph ==> counts[iph] == pubPhases[iph].nVolSpecies
  {
    var iph := 0;
    while iph < nph
      invariant 0 <= iph <= nph
      invariant forall i :: 0 <= i < iph ==> counts[i] == pubPhases[i].nVolSpecies
    {
      if counts[iph] != pubPhases[iph].nVolSpecies {
        return false;
      }
      iph := iph + 1;
    }
    return true;
  }

  /** Lines 653-657: with one phase and no map, every species goes to phase
      0 in slot k. */
  method SinglePhaseMap(pid0: seq<int>, slots0: seq<int>, ns: nat) returns (pid: seq<int>, slots: seq<int>)
    requires ns <= |pid0| && ns <= |slots0|
    ensures |pid| == |pid0| && |slots| == |slots0|
    ensures forall k :: 0 <= k < ns ==> pid[k] == 0 && slots[k] == k
    ensures forall k :: 0 <= k < ns ==> slots[k] == PhaseSlot(pid[..ns], k)
    ensures forall k :: ns <= k < |pid0| ==> pid[k] == pid0[k]
    ensures forall k :: ns <= k < |slots0| ==> slots[k] == slots0[k]
  {
    pid, slots := pid0, slots0;
    var k := 0;
    while k < ns
      invariant 0 <= k <= ns && |pid| == |pid0| && |slots| == |slots0|
      invariant forall j :: 0 <= j < k ==> pid[j] == 0 && slots[j] == j
      invariant forall j :: k <= j < |pid0| ==> pid[j] == pid0[j]
      invariant forall j :: k <= j < |slots0| ==> slots[j] == slots0[j]
    {
      pid := pid[k := 0];
      slots := slots[k := k];
      k := k + 1;
    }
    forall j | 0 <= j < ns
      ensures slots[j] == PhaseSlot(pid[..ns], j)
    {
      SinglePhaseSlots(pid[..ns], j);
    }
  }

  /** Lines 673-684: element names, types and active flags of the first ne
      elements are copied; a name opening with "cn_" makes the type
      charge-neutrality, and such an element declared with another type
      aborts. */
  method CopyElements(names0: seq<string>, types0: seq<int>, active0: seq<int>,
                      pubNames: seq<string>, pubTypes: seq<int>, pubActive: seq<int>, ne: nat)
    returns (aborted: bool, names: seq<string>, types: seq<int>, active: seq<int>)
    requires ne <= |names0| && ne <= |types0| && ne <= |active0|
    requires ne <= |pubNames| && ne <= |pubTypes| && ne <= |pubActive|
    ensures aborted <==> CnConflict(pubNames, pubTypes, ne)
    ensures !aborted ==> |names| == |names0| && |types| == |types0| && |active| == |active0|
    ensures !aborted ==> forall i :: 0 <= i < ne ==>
              names[i] == pubNames[i] && types[i] == pubTypes[i] && active[i] == pubActive[i]
    ensures !aborted ==> forall i :: 0 <= i < ne && HasCnPrefix(names[i]) ==>
              types[i] == ElemTypeChargeNeutrality
    ensures !aborted ==> names[ne..] == names0[ne..] && types[ne..] == types0[ne..] && active[ne..] == active0[ne..]
  {
    names, types, active := names0, types0, active0;
    var i := 0;
    while i < ne
      invariant 0 <= i <= ne
      invariant |names| == |names0| && |types| == |types0| && |active| == |active0|
      invariant !CnConflict(pubNames, pubTypes, i)
      invariant forall k :: 0 <= k < i ==>
                  names[k] == pubNames[k] && types[k] == pubTypes[k] && active[k] == pubActive[k]
      invariant names[i..] == names0[i..] && types[i..] == types0[i..] && active[i..] == active0[i..]
    {
      names := names[i := pubNames[i]];
      types := types[i := pubTypes[i]];
      active := active[i := pubActive[i]];
      if HasCnPrefix(names[i]) {
        types := types[i := ElemTypeChargeNeutrality];
        if pubTypes[i] != ElemTypeChargeNeutrality {
          assert CnConflict(pubNames, pubTypes, ne);
          return true, names, types, active;
        }
      }
      assert !CnConflict(pubNames, pubTypes, i + 1);
      i := i + 1;
    }
    aborted := false;
  }

  /** Lines 714-735: every phase's activity convention is recorded; for a
      phase on a non-default convention, each species in slot 1 and above
      (slot 0 is the solvent) takes that convention, a later phase writing
      over an earlier one (ConventionMarks, with LastMarkWins and
      UnmarkedKept). The reference log-molality offset written beside it is
      not part of this model. */
  method AssignActivityConventions(phases: seq<VolPhase>, nph: nat, phaseAct: seq<int>, specAct: seq<int>)
    returns (phaseAct': seq<int>, specAct': seq<int>)
    requires nph <= |phases| && nph <= |phaseAct|
    requires forall iph :: 0 <= iph < nph ==> PubPhaseShape(phases[iph], |specAct|)
    ensures |phaseAct'| == |phaseAct|
    ensures forall iph :: 0 <= iph < nph ==> phaseAct'[iph] == phases[iph].activityConvention
    ensures forall iph :: nph <= iph < |phaseAct| ==> phaseAct'[iph] == phaseAct[iph]
    ensures specAct' == ConventionMarks(phases, nph, specAct)
  {
    phaseAct', specAct' := phaseAct, specAct;
    var iph := 0;
    while iph < nph
      invariant 0 <= iph <= nph
      invariant |phaseAct'| == |phaseAct|
      invariant forall i :: 0 <= i < iph ==> phaseAct'[i] == phases[i].activityConvention
      invariant forall i :: iph <= i < |phaseAct| ==> phaseAct'[i] == phaseAct[i]
      invariant specAct' == ConventionMarks(phases, iph, specAct)
    {
      var ph := phases[iph];
      assert PubPhaseShape(ph, |specAct|);
      phaseAct' := phaseAct'[iph := ph.activityConvention];
      if ph.activityConvention != 0 {
        ghost var base := specAct';
        var k := 1;
        while k < ph.nVolSpecies
          invariant 1 <= k && (k <= ph.nVolSpecies || k == 1)
          invariant k <= ph.nVolSpecies ==> specAct' == MarkSlots(ph, k, base)
          invariant ph.nVolSpecies < k ==> specAct' == base
        {
          var kspec := ph.indSpecies[k];
          specAct' := specAct'[kspec := ph.activityConvention];
          k := k + 1;
        }
        assert specAct' == MarkSlots(ph, ph.nVolSpecies, base);
      }
      iph := iph + 1;
    }
  }

  // ---------------------------------------------------------------------
  // Incremental respecify (vcs_prob_specify)
  // ---------------------------------------------------------------------

  /** Lines 790-795: internal slot k of the mole numbers, mole fractions and
      chemical potentials takes the external entry ind[k]. */
  method GatherSpecies(soln: seq<real>, wt: seq<real>, gibbs: seq<real>,
                       w: seq<real>, mf: seq<real>, pubGibbs: seq<real>, ind: seq<int>, n: nat)
    returns (soln': seq<real>, wt': seq<real>, gibbs': seq<real>)
    requires n <= |soln| && n <= |wt| && n <= |gibbs| && n <= |ind|
    requires forall k :: 0 <= k < n ==> 0 <= ind[k] < |w| && ind[k] < |mf| && ind[k] < |pubGibbs|
    ensures |soln'| == |soln| && |wt'| == |wt| && |gibbs'| == |gibbs|
    ensures soln'[..n] == Gather(w, ind[..n]) && soln'[n..] == soln[n..]
    ensures wt'[..n] == Gather(mf, ind[..n]) && wt'[n..] == wt[n..]
    ensures gibbs'[..n] == Gather(pubGibbs, ind[..n]) && gibbs'[n..] == gibbs[n..]
  {
    soln', wt', gibbs' := soln, wt, gibbs;
    var kspec := 0;
    while kspec < n
      invariant 0 <= kspec <= n
      invariant |soln'| == |soln| && |wt'| == |wt| && |gibbs'| == |gibbs|
      invariant forall k :: 0 <= k < kspec ==>
                  soln'[k] == w[ind[k]] && wt'[k] == mf[ind[k]] && gibbs'[k] == pubGibbs[ind[k]]
      invariant soln'[kspec..] == soln[kspec..] && wt'[kspec..] == wt[kspec..] && gibbs'[kspec..] == gibbs[kspec..]
    {
      var k := ind[kspec];
      soln' := soln'[kspec := w[k]];
      wt' := wt'[kspec := mf[k]];
      gibbs' := gibbs'[kspec := pubGibbs[k]];
      kspec := kspec + 1;
    }
  }

  /** Lines 800-803: internal element i's abundance target takes the external
      entry IndEl[i]. */
  method GatherElements(gai: seq<real>, pubGai: seq<real>, indEl: seq<int>, ne: nat) returns (g: seq<real>)
    requires ne <= |gai| && ne <= |indEl|
    requires forall i :: 0 <= i < ne ==> 0 <= indEl[i] < |pubGai|
    ensures |g| == |gai|
    ensures g[..ne] == Gather(pubGai, indEl[..ne]) && g[ne..] == gai[ne..]
  {
    g := gai;
    var i := 0;
    while i < ne
      invariant 0 <= i <= ne && |g| == |gai|
      invariant forall k :: 0 <= k < i ==> g[k] == pubGai[indEl[k]]
      invariant g[i..] == gai[i..]
    {
      g := g[i := pubGai[indEl[i]]];
      i := i + 1;
    }
  }

  /** Lines 824-882: each of the first nph stored phases is checked against
      the supplied one and updated whatever the checks say. `bad` reports a
      topology mismatch; `statusChange` reports a change of inert moles (it
      decides whether vcs_SSPhase runs, which is not part of this model). */
  method RespecifyPhases(phases: seq<VolPhase>, inert: seq<real>, pubPhases: seq<VolPhase>, nph: nat)
    returns (bad: bool, statusChange: bool, phases': seq<VolPhase>, inert': seq<real>)
    requires nph <= |phases| && nph <= |inert| && nph <= |pubPhases|
    ensures bad <==> exists iph :: 0 <= iph < nph && PhaseMismatch(phases[iph], pubPhases[iph])
    ensures statusChange <==> exists iph :: 0 <= iph < nph && phases[iph].tMolesInert != pubPhases[iph].tMolesInert
    ensures |phases'| == |phases| && |inert'| == |inert|
    ensures forall iph :: 0 <= iph < nph ==>
              phases'[iph] == RespecifiedPhase(phases[iph], pubPhases[iph]) &&
              inert'[iph] == pubPhases[iph].tMolesInert
    ensures forall iph :: nph <= iph < |phases| ==> phases'[iph] == phases[iph]
    ensures forall iph :: nph <= iph < |inert| ==> inert'[iph] == inert[iph]
  {
    bad, statusChange := false, false;
    phases', inert' := phases, inert;
    var iph := 0;
    while iph < nph
      invariant 0 <= iph <= nph
      invariant |phases'| == |phases| && |inert'| == |inert|
      invariant bad == AnyMismatch(phases, pubPhases, iph)
      invariant statusChange == AnyInertChange(phases, pubPhases, iph)
      invariant forall i :: 0 <= i < iph ==>
                  phases'[i] == RespecifiedPhase(phases[i], pubPhases[i]) && inert'[i] == pubPhases[i].tMolesInert
      invariant forall i :: iph <= i < |phases| ==> phases'[i] == phases[i]
      invariant forall i :: iph <= i < |inert| ==> inert'[i] == inert[i]
    {
      assert phases'[iph] == phases[iph];
      var phaseBad, phaseChange, vPhase := RespecifyPhase(phases[iph], pubPhases[iph]);
      bad := bad || phaseBad;
      statusChange := statusChange || phaseChange;
      inert' := inert'[iph := pubPhases[iph].tMolesInert];
      phases' := phases'[iph := vPhase];
      iph := iph + 1;
    }
    AnyMismatchIsSome(phases, pubPhases, nph);
    AnyInertChangeIsSome(phases, pubPhases, nph);
  }

  /** Lines 826-880 for one phase: the checks in the source's order, with
      the stored phase updated as they go. */
  method RespecifyPhase(vPhase: VolPhase, pubPhase: VolPhase) returns (bad: bool, statusChange: bool, vPhase': VolPhase)
    ensures bad <==> PhaseMismatch(vPhase, pubPhase)
    ensures statusChange <==> vPhase.tMolesInert != pubPhase.tMolesInert
    ensures vPhase' == RespecifiedPhase(vPhase, pubPhase)
  {
    bad, statusChange := false, false;
    vPhase' := vPhase;
    if vPhase'.vpId != pubPhase.vpId { bad := true; }
    if vPhase'.singleSpecies != pubPhase.singleSpecies { bad := true; }
    if vPhase'.gasPhase != pubPhase.gasPhase { bad := true; }
    vPhase' := vPhase'.(eqnState := pubPhase.eqnState);
    if vPhase'.nVolSpecies != pubPhase.nVolSpecies { bad := true; }
    if vPhase'.phaseName == pubPhase.phaseName { bad := true; }
    if vPhase'.tMolesInert != pubPhase.tMolesInert { statusChange := true; }
    vPhase' := vPhase'.(tMolesInert := pubPhase.tMolesInert);
    if vPhase'.tMolesInert > 0.0 {
      vPhase' := vPhase'.(existence := ExistenceWithInerts, singleSpecies := false);
    }
    vPhase' := vPhase'.(electricPotential := pubPhase.electricPotential);
  }

  // ---------------------------------------------------------------------
  // Result export (vcs_prob_update)
  // ---------------------------------------------------------------------

  /** Lines 915-919: the internal slot of external species i, found by
      linear search of ind: the first slot holding i, or the last slot when
      none does. */
  method FindSpecies(ind: seq<int>, n: nat, i: int) returns (k1: nat)
    requires 0 < n <= |ind|
    ensures k1 < n
    ensures i in ind[..n] ==> ind[k1] == i && i !in ind[..k1]
    ensures i !in ind[..n] ==> k1 == n - 1
    ensures k1 == SearchSlot(ind[..n], i)
  {
    k1 := 0;
    var j := 0;
    while j < n
      invariant 0 <= j <= n
      invariant i !in ind[..j]
      invariant j > 0 ==> k1 == j - 1
    {
      k1 := j;
      if ind[j] == i {
        assert ind[..n][k1] == i && ind[..n][..k1] == ind[..k1];
        return;
      }
      assert ind[..j + 1] == ind[..j] + [ind[j]];
      j := j + 1;
    }
    assert ind[..n] == ind[..j];
  }

  /** Lines 910-932: external entry i takes the internal slot the search
      finds for it, for mole numbers (0 for a voltage pseudo-species, by its
      external unknown type), mole fractions, chemical potentials and partial
      molar volumes. */
  method ScatterSpecies(w: seq<real>, mf: seq<real>, pubGibbs: seq<real>, pubVolPM: seq<real>,
                        soln: seq<real>, wt: seq<real>, gibbs: seq<real>, volPM: seq<real>,
                        ind: seq<int>, types: seq<int>, n: nat)
    returns (w': seq<real>, mf': seq<real>, pubGibbs': seq<real>, pubVolPM': seq<real>)
    requires n <= |w| && n <= |mf| && n <= |pubGibbs| && n <= |pubVolPM| && n <= |types|
    requires n <= |soln| && n <= |wt| && n <= |gibbs| && n <= |volPM| && n <= |ind|
    ensures |w'| == |w| && |mf'| == |mf| && |pubGibbs'| == |pubGibbs| && |pubVolPM'| == |pubVolPM|
    ensures w'[..n] == ExportMoles(soln, ind[..n], types) && w'[n..] == w[n..]
    ensures mf'[..n] == Scatter(wt, ind[..n]) && mf'[n..] == mf[n..]
    ensures pubGibbs'[..n] == Scatter(gibbs, ind[..n]) && pubGibbs'[n..] == pubGibbs[n..]
    ensures pubVolPM'[..n] == Scatter(volPM, ind[..n]) && pubVolPM'[n..] == pubVolPM[n..]
  {
    w', mf', pubGibbs', pubVolPM' := w, mf, pubGibbs, pubVolPM;
    var i := 0;
    while i < n
      invariant 0 <= i <= n
      invariant |w'| == |w| && |mf'| == |mf| && |pubGibbs'| == |pubGibbs| && |pubVolPM'| == |pubVolPM|
      invariant forall k :: 0 <= k < i ==>
                  w'[k] == (if types[k] != SpeciesTypeInterfacialVoltage then soln[SearchSlot(ind[..n], k)] else 0.0) &&
                  mf'[k] == wt[SearchSlot(ind[..n], k)] &&
                  pubGibbs'[k] == gibbs[SearchSlot(ind[..n], k)] &&
                  pubVolPM'[k] == volPM[SearchSlot(ind[..n], k)]
      invariant w'[i..] == w[i..] && mf'[i..] == mf[i..]
      invariant pubGibbs'[i..] == pubGibbs[i..] && pubVolPM'[i..] == pubVolPM[i..]
    {
      var k1 := FindSpecies(ind, n, i);
      if types[i] != SpeciesTypeInterfacialVoltage {
        w' := w'[i := soln[k1]];
      } else {
        w' := w'[i := 0.0];
      }
      mf' := mf'[i := wt[k1]];
      pubGibbs' := pubGibbs'[i := gibbs[k1]];
      pubVolPM' := pubVolPM'[i := volPM[k1]];
      i := i + 1;
    }
  }

  /** Lines 941-983 for one phase: the external phase takes the internal
      phase's existence, inert moles, total moles, potential, mole fractions
      and per-slot data, and the consistency checks are made; `ok` is false
      exactly when one of them fails (the source then aborts). */
  method ExportPhase(pubPh: VolPhase, vPh: VolPhase, w: seq<real>, mf: seq<real>, soln: seq<real>)
    returns (ok: bool, exported: VolPhase)
    requires PubPhaseShape(pubPh, |w|) && PubPhaseShape(pubPh, |mf|)
    requires ExportShape(pubPh, vPh, |soln|)
    ensures ok <==> PhaseConsistent(pubPh, vPh, w, mf, soln)
    ensures ok ==> exported == ExportedPhase(pubPh, vPh)
  {
    var n := pubPh.nVolSpecies;
    exported := pubPh.(existence := vPh.existence, tMolesInert := vPh.tMolesInert,
                       totalMoles := vPh.totalMoles, electricPotential := vPh.electricPotential,
                       moleFractions := vPh.moleFractions);
    var sumMoles := vPh.tMolesInert;
    var props := pubPh.props;
    var k := 0;
    while k < n
      invariant 0 <= k <= n && |props| == |pubPh.props|
      invariant sumMoles == vPh.tMolesInert + PhaseMoles(w, pubPh, k)
      invariant 0 <= pubPh.phiVarIndex < k ==> soln[vPh.indSpecies[pubPh.phiVarIndex]] == vPh.electricPotential
      invariant forall k' :: 0 <= k' < k ==> mf[pubPh.indSpecies[k']] == vPh.moleFractions[k']
      invariant forall k' :: 0 <= k' < k ==> props[k'] == vPh.props[k']
      invariant forall k' :: k <= k' < |props| ==> props[k'] == pubPh.props[k']
    {
      var kT := pubPh.indSpecies[k];
      props := props[k := vPh.props[k]];
      if pubPh.phiVarIndex == k {
        var k1 := vPh.indSpecies[k];
        if soln[k1] != vPh.electricPotential {
          return false, exported;
        }
      }
      if mf[kT] != vPh.moleFractions[k] {
        return false, exported;
      }
      if pubPh.speciesUnknownType[k] != SpeciesTypeInterfacialVoltage {
        sumMoles := sumMoles + w[kT];
      }
      k := k + 1;
    }
    assert props == ExportedPhase(pubPh, vPh).props;
    exported := exported.(props := props);
    ok := sumMoles == vPh.totalMoles;
  }

  /** Lines 938-985: the phases are exported in order; `ok` is false exactly
      when some phase fails its consistency checks (the source aborts at the
      first one). */
  method ExportPhases(pubPhases: seq<VolPhase>, phases: seq<VolPhase>, nph: nat,
                      w: seq<real>, mf: seq<real>, soln: seq<real>)
    returns (ok: bool, exported: seq<VolPhase>)
    requires nph <= |pubPhases| && nph <= |phases|
    requires forall iph {:trigger pubPhases[iph]} :: 0 <= iph < nph ==>
               PubPhaseShape(pubPhases[iph], |w|) && PubPhaseShape(pubPhases[iph], |mf|) &&
               ExportShape(pubPhases[iph], phases[iph], |soln|)
    ensures ok <==> forall iph :: 0 <= iph < nph ==> PhaseConsistent(pubPhases[iph], phases[iph], w, mf, soln)
    ensures ok ==> |exported| == |pubPhases|
    ensures ok ==> forall iph :: 0 <= iph < nph ==> exported[iph] == ExportedPhase(pubPhases[iph], phases[iph])
    ensures ok ==> forall iph :: nph <= iph < |pubPhases| ==> exported[iph] == pubPhases[iph]
  {
    exported := pubPhases;
    var iph := 0;
    while iph < nph
      invariant 0 <= iph <= nph && |exported| == |pubPhases|
      invariant forall i :: 0 <= i < iph ==> PhaseConsistent(pubPhases[i], phases[i], w, mf, soln)
      invariant forall i :: 0 <= i < iph ==> exported[i] == ExportedPhase(pubPhases[i], phases[i])
      invariant forall i :: iph <= i < |pubPhases| ==> exported[i] == pubPhases[i]
    {
      var phaseOk, e := ExportPhase(pubPhases[iph], phases[iph], w, mf, soln);
      if !phaseOk {
        return false, exported;
      }
      exported := exported[iph := e];
      iph := iph + 1;
    }
    ok := true;
  }
}
