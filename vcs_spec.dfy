/** Pure specification of the bookkeeping layer: the species and element
    permutations and the search that inverts them, the gather and scatter
    transfers built on them, the element-abundance target, the species to
    phase map, and the per-phase rules of respecify and export. The loops of
    the solver are proved against these functions; the lemmas state what the
    functions promise. */
module VcsSpec {
  import opened VcsDefs

  // ---------------------------------------------------------------------
  // Containers
  // ---------------------------------------------------------------------

  /** std::vector::resize(n, fill): keeps the first min(|s|, n) entries and
      fills any new ones. */
  function Resize<T>(s: seq<T>, n: nat, fill: T): (r: seq<T>)
    ensures |r| == n
    ensures forall i :: 0 <= i < n && i < |s| ==> r[i] == s[i]
    ensures forall i :: |s| <= i < n ==> r[i] == fill
  {
    if n <= |s| then s[..n] else s + seq(n - |s|, _ => fill)
  }

  /** Copy of the first n entries of src over dst (vcs_vdcopy, vcs_icopy). */
  function CopyPrefix<T>(dst: seq<T>, src: seq<T>, n: nat): (r: seq<T>)
    requires n <= |dst| && n <= |src|
    ensures |r| == |dst|
    ensures forall i :: 0 <= i < n ==> r[i] == src[i]
    ensures forall i :: n <= i < |dst| ==> r[i] == dst[i]
  {
    src[..n] + dst[n..]
  }

  /** n zeros (vcs_dzero). */
  function Zeros(n: nat): (r: seq<real>)
    ensures |r| == n
    ensures forall i :: 0 <= i < n ==> r[i] == 0.0
  {
    seq(n, _ => 0.0)
  }

  /** A table resized to ne rows of ns entries, each row as std::vector::resize
      leaves it, new entries 0. */
  function ResizeRows(t: seq<seq<real>>, ne: nat, ns: nat): (r: seq<seq<real>>)
    ensures |r| == ne
    ensures forall j :: 0 <= j < ne ==> |r[j]| == ns
    ensures forall j, i :: 0 <= j < |t| && j < ne && 0 <= i < |t[j]| && i < ns ==> r[j][i] == t[j][i]
  {
    var r := seq(ne, j requires 0 <= j < ne => Resize(if j < |t| then t[j] else [], ns, 0.0));
    forall j | 0 <= j < ne
      ensures |r[j]| == ns
    {
      assert r[j] == Resize(if j < |t| then t[j] else [], ns, 0.0);
    }
    forall j, i | 0 <= j < |t| && j < ne && 0 <= i < |t[j]| && i < ns
      ensures r[j][i] == t[j][i]
    {
      assert r[j] == Resize(t[j], ns, 0.0);
    }
    r
  }

  // ---------------------------------------------------------------------
  // Permutations
  // ---------------------------------------------------------------------

  /** The identity arrangement 0, 1, ..., n-1. */
  function Identity(n: nat): (r: seq<int>)
    ensures |r| == n
    ensures forall i :: 0 <= i < n ==> r[i] == i
  {
    seq(n, i => i)
  }

  /** p arranges [0, |p|): every entry is in range and no two entries agree. */
  ghost predicate IsPermutation(p: seq<int>)
  {
    (forall k :: 0 <= k < |p| ==> 0 <= p[k] < |p|) &&
    (forall j, k :: 0 <= j < k < |p| ==> p[j] != p[k])
  }

  lemma IdentityIsPermutation(n: nat)
    ensures IsPermutation(Identity(n))
  {
  }

  /** The values of p[..n] form a set of n elements when they are distinct. */
  lemma {:induction false} DistinctImageSize(p: seq<int>, n: nat)
    requires n <= |p|
    requires forall j, k :: 0 <= j < k < n ==> p[j] != p[k]
    ensures |set k | 0 <= k < n :: p[k]| == n
  {
    if n > 0 {
      DistinctImageSize(p, n - 1);
      var prev := set k | 0 <= k < n - 1 :: p[k];
      assert (set k | 0 <= k < n :: p[k]) == prev + {p[n - 1]};
      assert p[n - 1] !in prev;
    }
  }

  /** Pigeonhole: a permutation takes every value of its range. */
  lemma PermutationCovers(p: seq<int>, v: int)
    requires IsPermutation(p)
    requires 0 <= v < |p|
    ensures v in p
  {
    var ident := Identity(|p|);
    var image := set k | 0 <= k < |p| :: p[k];
    var range := set k | 0 <= k < |p| :: ident[k];
    DistinctImageSize(p, |p|);
    DistinctImageSize(ident, |p|);
    forall x | x in image
      ensures x in range
    {
      var k :| 0 <= k < |p| && x == p[k];
      assert ident[p[k]] == x;
    }
    assert range == image + (range - image);
    assert |range - image| == 0;
    assert ident[v] in range;
    assert v in image;
  }

  /** The position the export search (the inner loop at lines 915-919)
      settles on: the first k with p[k] == v, or the last position when v
      does not occur at all. */
  function SearchSlot(p: seq<int>, v: int): (k: nat)
    requires |p| > 0
    ensures k < |p|
    ensures v in p ==> p[k] == v && v !in p[..k]
    ensures v !in p ==> k == |p| - 1
  {
    if p[0] == v || |p| == 1 then 0
    else
      var k' := SearchSlot(p[1..], v);
      assert p[1..][..k'] == p[1..k' + 1];
      assert p[..k' + 1] == [p[0]] + p[1..k' + 1];
      1 + k'
  }

  /** On a permutation the search finds the slot holding each value ... */
  lemma SearchFinds(p: seq<int>, v: int)
    requires IsPermutation(p)
    requires 0 <= v < |p|
    ensures p[SearchSlot(p, v)] == v
  {
    PermutationCovers(p, v);
  }

  /** ... and it inverts p. */
  lemma SearchInverts(p: seq<int>, k: nat)
    requires IsPermutation(p)
    requires k < |p|
    ensures SearchSlot(p, p[k]) == k
  {
    assert p[k] in p;
  }

  // ---------------------------------------------------------------------
  // Transfers between external and internal order
  // ---------------------------------------------------------------------

  /** Respecify's transfer: internal slot k takes the external entry p[k]. */
  function Gather<T>(src: seq<T>, p: seq<int>): (r: seq<T>)
    requires forall k :: 0 <= k < |p| ==> 0 <= p[k] < |src|
    ensures |r| == |p|
    ensures forall k :: 0 <= k < |p| ==> r[k] == src[p[k]]
  {
    seq(|p|, k requires 0 <= k < |p| => src[p[k]])
  }

  /** Export's transfer: external entry i takes the internal slot the search
      finds for i. */
  function Scatter<T>(vals: seq<T>, p: seq<int>): (r: seq<T>)
    requires |p| <= |vals|
    ensures |r| == |p|
    ensures forall i :: 0 <= i < |p| ==> r[i] == vals[SearchSlot(p, i)]
  {
    seq(|p|, i requires 0 <= i < |p| => vals[SearchSlot(p, i)])
  }

  /** Export's transfer of mole numbers: as Scatter, but a voltage
      pseudo-species (by its external unknown type) exports 0. */
  function ExportMoles(soln: seq<real>, p: seq<int>, types: seq<int>): (r: seq<real>)
    requires |p| <= |soln| && |p| <= |types|
    ensures |r| == |p|
    ensures forall i :: 0 <= i < |p| && types[i] == SpeciesTypeInterfacialVoltage ==> r[i] == 0.0
    ensures forall i :: 0 <= i < |p| && types[i] != SpeciesTypeInterfacialVoltage ==>
              r[i] == soln[SearchSlot(p, i)]
  {
    seq(|p|, i requires 0 <= i < |p| =>
      if types[i] != SpeciesTypeInterfacialVoltage then soln[SearchSlot(p, i)] else 0.0)
  }

  /** Respecify followed by export gives the external values back. */
  lemma ScatterGather<T>(src: seq<T>, p: seq<int>)
    requires IsPermutation(p)
    requires |p| <= |src|
    ensures Scatter(Gather(src, p), p) == src[..|p|]
  {
    forall i | 0 <= i < |p|
      ensures Scatter(Gather(src, p), p)[i] == src[i]
    {
      SearchFinds(p, i);
    }
  }

  /** Export followed by respecify gives the internal values back. */
  lemma GatherScatter<T>(vals: seq<T>, p: seq<int>)
    requires IsPermutation(p)
    requires |p| == |vals|
    ensures Gather(Scatter(vals, p), p) == vals
  {
    forall k | 0 <= k < |p|
      ensures Gather(Scatter(vals, p), p)[k] == vals[k]
    {
      SearchInverts(p, k);
    }
  }

  /** The mole-number round trip: respecify then export reproduces every
      non-voltage mole number and zeroes the voltage pseudo-species. */
  lemma MolesRoundTrip(w: seq<real>, p: seq<int>, types: seq<int>)
    requires IsPermutation(p)
    requires |p| <= |w| && |p| <= |types|
    ensures forall i :: 0 <= i < |p| ==>
      ExportMoles(Gather(w, p), p, types)[i] ==
        if types[i] != SpeciesTypeInterfacialVoltage then w[i] else 0.0
  {
    forall i | 0 <= i < |p|
      ensures ExportMoles(Gather(w, p), p, types)[i] ==
        if types[i] != SpeciesTypeInterfacialVoltage then w[i] else 0.0
    {
      SearchFinds(p, i);
    }
  }

  // ---------------------------------------------------------------------
  // Element abundance target
  // ---------------------------------------------------------------------

  /** Abundance of one element implied by the first n mole numbers: the sum
      of row[k] * soln[k] over the non-voltage species k < n. */
  function Abundance(row: seq<real>, soln: seq<real>, types: seq<int>, n: nat): real
    requires n <= |row| && n <= |soln| && n <= |types|
  {
    if n == 0 then 0.0
    else
      Abundance(row, soln, types, n - 1) +
      (if types[n - 1] != SpeciesTypeInterfacialVoltage then row[n - 1] * soln[n - 1] else 0.0)
  }

  /** The abundance target reads only the first n formula coefficients,
      unknown types and mole numbers, and not the mole numbers recorded for
      voltage pseudo-species. */
  lemma {:induction false} AbundanceCongruence(row: seq<real>, row': seq<real>, soln: seq<real>, soln': seq<real>,
                                               types: seq<int>, types': seq<int>, n: nat)
    requires n <= |row| && n <= |row'| && n <= |soln| && n <= |soln'| && n <= |types| && n <= |types'|
    requires row[..n] == row'[..n] && types[..n] == types'[..n]
    requires forall k :: 0 <= k < n && types[k] != SpeciesTypeInterfacialVoltage ==> soln[k] == soln'[k]
    ensures Abundance(row, soln, types, n) == Abundance(row', soln', types', n)
  {
    if n > 0 {
      assert row[..n - 1] == row[..n][..n - 1] && row'[..n - 1] == row'[..n][..n - 1];
      assert types[..n - 1] == types[..n][..n - 1] && types'[..n - 1] == types'[..n][..n - 1];
      assert row[n - 1] == row[..n][n - 1] && types[n - 1] == types[..n][n - 1];
      AbundanceCongruence(row, row', soln, soln', types, types', n - 1);
    }
  }

  /** The abundance is additive over a split of the mole numbers. */
  lemma {:induction false} AbundanceAdditive(row: seq<real>, a: seq<real>, b: seq<real>, c: seq<real>,
                                             types: seq<int>, n: nat)
    requires n <= |row| && n <= |a| && n <= |b| && n <= |c| && n <= |types|
    requires forall k :: 0 <= k < n ==> c[k] == a[k] + b[k]
    ensures Abundance(row, c, types, n) == Abundance(row, a, types, n) + Abundance(row, b, types, n)
  {
    if n > 0 {
      AbundanceAdditive(row, a, b, c, types, n - 1);
    }
  }

  /** The targets of the first ne elements. */
  function AbundanceTargets(fm: seq<seq<real>>, soln: seq<real>, types: seq<int>, ns: nat, ne: nat): (r: seq<real>)
    requires ne <= |fm| && ns <= |soln| && ns <= |types|
    requires forall j :: 0 <= j < ne ==> ns <= |fm[j]|
    ensures |r| == ne
  {
    seq(ne, j requires 0 <= j < ne => Abundance(fm[j], soln, types, ns))
  }

  /** One element X with coefficients [1, 1, 1] over three mole-number
      species, estimate [1, 1, 1]: the derived target is 3. */
  lemma AbundanceOfThreeUnitSpecies()
    ensures Abundance([1.0, 1.0, 1.0], [1.0, 1.0, 1.0], [SpeciesTypeMolNum, SpeciesTypeMolNum, SpeciesTypeMolNum], 3) == 3.0
  {
    var row, est, types := [1.0, 1.0, 1.0], [1.0, 1.0, 1.0], [SpeciesTypeMolNum, SpeciesTypeMolNum, SpeciesTypeMolNum];
    assert Abundance(row, est, types, 1) == 1.0;
    assert Abundance(row, est, types, 2) == 2.0;
  }

  // ---------------------------------------------------------------------
  // Species to phase map
  // ---------------------------------------------------------------------

  /** Number of species among the first n assigned to phase iph. */
  function CountInPhase(pid: seq<int>, n: nat, iph: int): (c: nat)
    requires n <= |pid|
    ensures c <= n
  {
    if n == 0 then 0 else CountInPhase(pid, n - 1, iph) + (if pid[n - 1] == iph then 1 else 0)
  }

  /** Phase-local slot of species k: the number of earlier species in its phase. */
  function PhaseSlot(pid: seq<int>, k: nat): nat
    requires k < |pid|
  {
    CountInPhase(pid, k, pid[k])
  }

  /** Index of the first of the n species whose phase is outside [0, nph),
      or n when there is none. */
  function FirstBadPhase(pid: seq<int>, n: nat, nph: int): (m: nat)
    requires n <= |pid|
    ensures m <= n
    ensures forall k :: 0 <= k < m ==> 0 <= pid[k] < nph
    ensures m < n ==> !(0 <= pid[m] < nph)
  {
    if n == 0 then 0
    else
      var m' := FirstBadPhase(pid, n - 1, nph);
      if m' < n - 1 then m' else if 0 <= pid[n - 1] < nph then n else n - 1
  }

  lemma {:induction false} CountMonotone(pid: seq<int>, m: nat, n: nat, iph: int)
    requires m <= n <= |pid|
    ensures CountInPhase(pid, m, iph) <= CountInPhase(pid, n, iph)
  {
    if m < n {
      CountMonotone(pid, m, n - 1, iph);
    }
  }

  /** Two species of one phase get different slots, in species order. */
  lemma PhaseSlotsIncrease(pid: seq<int>, j: nat, k: nat)
    requires j < k < |pid|
    requires pid[j] == pid[k]
    ensures PhaseSlot(pid, j) < PhaseSlot(pid, k)
  {
    CountMonotone(pid, j + 1, k, pid[k]);
  }

  /** A species' slot is below the number of species its phase holds. */
  lemma PhaseSlotBelowCount(pid: seq<int>, n: nat, k: nat)
    requires k < n <= |pid|
    ensures PhaseSlot(pid, k) < CountInPhase(pid, n, pid[k])
  {
    CountMonotone(pid, k + 1, n, pid[k]);
  }

  /** With every species in phase 0 the slot of species k is k. */
  lemma {:induction false} SinglePhaseCount(pid: seq<int>, n: nat)
    requires n <= |pid|
    requires forall k :: 0 <= k < n ==> pid[k] == 0
    ensures CountInPhase(pid, n, 0) == n
  {
    if n > 0 {
      SinglePhaseCount(pid, n - 1);
    }
  }

  lemma SinglePhaseSlots(pid: seq<int>, k: nat)
    requires k < |pid|
    requires forall j :: 0 <= j <= k ==> pid[j] == 0
    ensures PhaseSlot(pid, k) == k
  {
    SinglePhaseCount(pid, k);
  }

  /** Total over the phases below nph of the species counted in each. */
  function SumOfCounts(pid: seq<int>, n: nat, nph: nat): nat
    requires n <= |pid|
  {
    if nph == 0 then 0 else SumOfCounts(pid, n, nph - 1) + CountInPhase(pid, n, nph - 1)
  }

  lemma {:induction false} SumOfCountsStep(pid: seq<int>, n: nat, nph: nat)
    requires 0 < n <= |pid|
    ensures SumOfCounts(pid, n, nph) ==
      SumOfCounts(pid, n - 1, nph) + (if 0 <= pid[n - 1] < nph then 1 else 0)
  {
    if nph > 0 {
      SumOfCountsStep(pid, n, nph - 1);
    }
  }

  /** When every phase id is in range the per-phase counts add up to the
      number of species: the phases partition the species. */
  lemma {:induction false} CountsPartitionSpecies(pid: seq<int>, n: nat, nph: nat)
    requires n <= |pid|
    requires forall k :: 0 <= k < n ==> 0 <= pid[k] < nph
    ensures SumOfCounts(pid, n, nph) == n
  {
    if n == 0 {
      if nph > 0 { CountsZero(pid, nph); }
    } else {
      CountsPartitionSpecies(pid, n - 1, nph);
      SumOfCountsStep(pid, n, nph);
    }
  }

  lemma {:induction false} CountsZero(pid: seq<int>, nph: nat)
    ensures SumOfCounts(pid, 0, nph) == 0
  {
    if nph > 0 {
      CountsZero(pid, nph - 1);
    }
  }

  // ---------------------------------------------------------------------
  // Element constraints
  // ---------------------------------------------------------------------

  /** strncmp(name, "cn_", 3) == 0: the name opens with "cn_". */
  predicate HasCnPrefix(name: string)
  {
    |name| >= 3 && name[..3] == "cn_"
  }

  /** Some element among the first ne is named "cn_..." without being
      declared a charge-neutrality constraint. */
  predicate CnConflict(names: seq<string>, types: seq<int>, ne: nat)
    requires ne <= |names| && ne <= |types|
  {
    exists i :: 0 <= i < ne && HasCnPrefix(names[i]) && types[i] != ElemTypeChargeNeutrality
  }

  // ---------------------------------------------------------------------
  // Activity conventions
  // ---------------------------------------------------------------------

  /** The species marks after one phase's solute loop has reached slot n:
      the species in slots 1..n-1 carry the phase's convention, written in
      slot order. */
  ghost function MarkSlots(ph: VolPhase, n: nat, marks: seq<int>): (r: seq<int>)
    requires n <= ph.nVolSpecies && PubPhaseShape(ph, |marks|)
    ensures |r| == |marks|
  {
    if n <= 1 then marks else MarkSlots(ph, n - 1, marks)[ph.indSpecies[n - 1] := ph.activityConvention]
  }

  /** The species marks after the first nph phases: each phase on a
      non-default convention marks its species after the solvent, later
      phases writing over earlier ones. */
  ghost function ConventionMarks(phases: seq<VolPhase>, nph: nat, marks: seq<int>): (r: seq<int>)
    requires nph <= |phases|
    requires forall iph :: 0 <= iph < nph ==> PubPhaseShape(phases[iph], |marks|)
    ensures |r| == |marks|
  {
    if nph == 0 then marks
    else
      var m := ConventionMarks(phases, nph - 1, marks);
      var ph := phases[nph - 1];
      assert PubPhaseShape(ph, |marks|);
      if ph.activityConvention != 0 then MarkSlots(ph, ph.nVolSpecies, m) else m
  }

  /** Phase ph is on a non-default convention and lists species s after its
      solvent. */
  predicate MarksSpecies(ph: VolPhase, s: int)
  {
    ph.activityConvention != 0 &&
    exists k :: 1 <= k < ph.nVolSpecies && k < |ph.indSpecies| && ph.indSpecies[k] == s
  }

  /** After slot n, a species listed in slots 1..n-1 has the phase's
      convention and any other keeps its mark. */
  lemma {:induction false} MarkSlotsAt(ph: VolPhase, n: nat, marks: seq<int>, s: nat)
    requires n <= ph.nVolSpecies && PubPhaseShape(ph, |marks|) && s < |marks|
    ensures (exists k :: 1 <= k < n && ph.indSpecies[k] == s) ==> MarkSlots(ph, n, marks)[s] == ph.activityConvention
    ensures (forall k :: 1 <= k < n ==> ph.indSpecies[k] != s) ==> MarkSlots(ph, n, marks)[s] == marks[s]
  {
    if n > 1 {
      MarkSlotsAt(ph, n - 1, marks, s);
    }
  }

  /** A species takes the convention of the last phase that marks it. */
  lemma {:induction false} LastMarkWins(phases: seq<VolPhase>, nph: nat, marks: seq<int>, s: nat, iph: nat)
    requires nph <= |phases|
    requires forall i :: 0 <= i < nph ==> PubPhaseShape(phases[i], |marks|)
    requires s < |marks| && iph < nph && MarksSpecies(phases[iph], s)
    requires forall j :: iph < j < nph ==> !MarksSpecies(phases[j], s)
    ensures ConventionMarks(phases, nph, marks)[s] == phases[iph].activityConvention
  {
    var ph := phases[nph - 1];
    var m := ConventionMarks(phases, nph - 1, marks);
    if iph == nph - 1 {
      MarkSlotsAt(ph, ph.nVolSpecies, m, s);
    } else {
      LastMarkWins(phases, nph - 1, marks, s, iph);
      if ph.activityConvention != 0 {
        MarkSlotsAt(ph, ph.nVolSpecies, m, s);
      }
    }
  }

  /** A species no phase marks keeps the mark it had. */
  lemma {:induction false} UnmarkedKept(phases: seq<VolPhase>, nph: nat, marks: seq<int>, s: nat)
    requires nph <= |phases|
    requires forall i :: 0 <= i < nph ==> PubPhaseShape(phases[i], |marks|)
    requires s < |marks| && forall j :: 0 <= j < nph ==> !MarksSpecies(phases[j], s)
    ensures ConventionMarks(phases, nph, marks)[s] == marks[s]
  {
    if nph > 0 {
      var ph := phases[nph - 1];
      UnmarkedKept(phases, nph - 1, marks, s);
      if ph.activityConvention != 0 {
        MarkSlotsAt(ph, ph.nVolSpecies, ConventionMarks(phases, nph - 1, marks), s);
      }
    }
  }

  // ---------------------------------------------------------------------
  // Phases under respecify and export
  // ---------------------------------------------------------------------

  /** The topology checks of respecify (lines 828-862) as written: a change
      of id, single-species flag, gas-phase flag or species count, or a phase
      name EQUAL to the stored one, flags the phase. */
  predicate PhaseMismatch(mine: VolPhase, theirs: VolPhase)
  {
    mine.vpId != theirs.vpId ||
    mine.singleSpecies != theirs.singleSpecies ||
    mine.gasPhase != theirs.gasPhase ||
    mine.nVolSpecies != theirs.nVolSpecies ||
    mine.phaseName == theirs.phaseName
  }

  /** The stored phase after respecify: new equation-of-state tag, inert
      moles and potential; inert moles force existence and clear the
      single-species flag. */
  function RespecifiedPhase(mine: VolPhase, theirs: VolPhase): (r: VolPhase)
    ensures r.eqnState == theirs.eqnState && r.tMolesInert == theirs.tMolesInert
    ensures r.electricPotential == theirs.electricPotential
    ensures theirs.tMolesInert > 0.0 ==> r.existence == ExistenceWithInerts && !r.singleSpecies
    ensures theirs.tMolesInert <= 0.0 ==> r.existence == mine.existence && r.singleSpecies == mine.singleSpecies
    ensures r.(eqnState := mine.eqnState, tMolesInert := mine.tMolesInert,
               electricPotential := mine.electricPotential, existence := mine.existence,
               singleSpecies := mine.singleSpecies) == mine
  {
    var p := mine.(eqnState := theirs.eqnState, tMolesInert := theirs.tMolesInert);
    var q := if theirs.tMolesInert > 0.0 then p.(existence := ExistenceWithInerts, singleSpecies := false) else p;
    q.(electricPotential := theirs.electricPotential)
  }

  /** Respecifying a phase from an identical copy of itself is flagged: the
      name check fires on equal names. */
  lemma UnchangedPhaseIsFlagged(p: VolPhase)
    ensures PhaseMismatch(p, p)
  {
  }

  /** One of the first n stored phases fails the check against its supplied
      counterpart, found by scanning the phases in order. */
  predicate AnyMismatch(phases: seq<VolPhase>, pubPhases: seq<VolPhase>, n: nat)
    requires n <= |phases| && n <= |pubPhases|
  {
    n > 0 && (AnyMismatch(phases, pubPhases, n - 1) || PhaseMismatch(phases[n - 1], pubPhases[n - 1]))
  }

  /** The scan flags exactly when some phase in range mismatches. */
  lemma {:induction false} AnyMismatchIsSome(phases: seq<VolPhase>, pubPhases: seq<VolPhase>, n: nat)
    requires n <= |phases| && n <= |pubPhases|
    ensures AnyMismatch(phases, pubPhases, n) <==> exists i :: 0 <= i < n && PhaseMismatch(phases[i], pubPhases[i])
  {
    if n > 0 {
      AnyMismatchIsSome(phases, pubPhases, n - 1);
    }
  }

  /** One of the first n stored phases holds other inert moles than its
      supplied counterpart. */
  predicate AnyInertChange(phases: seq<VolPhase>, pubPhases: seq<VolPhase>, n: nat)
    requires n <= |phases| && n <= |pubPhases|
  {
    n > 0 && (AnyInertChange(phases, pubPhases, n - 1) || phases[n - 1].tMolesInert != pubPhases[n - 1].tMolesInert)
  }

  /** The scan reports a change exactly when some phase in range changes. */
  lemma {:induction false} AnyInertChangeIsSome(phases: seq<VolPhase>, pubPhases: seq<VolPhase>, n: nat)
    requires n <= |phases| && n <= |pubPhases|
    ensures AnyInertChange(phases, pubPhases, n) <==>
            exists i :: 0 <= i < n && phases[i].tMolesInert != pubPhases[i].tMolesInert
  {
    if n > 0 {
      AnyInertChangeIsSome(phases, pubPhases, n - 1);
    }
  }

  /** The slots of a phase that export reads are in range. */
  ghost predicate PubPhaseShape(ph: VolPhase, ns: int)
  {
    0 <= ph.nVolSpecies &&
    ph.nVolSpecies <= |ph.indSpecies| && ph.nVolSpecies <= |ph.speciesUnknownType| &&
    ph.nVolSpecies <= |ph.props| &&
    forall k :: 0 <= k < ph.nVolSpecies ==> 0 <= ph.indSpecies[k] < ns
  }

  /** Moles of the first n slots of a phase, read from the external vector w
      through the phase's external indices, voltage slots excluded. */
  function PhaseMoles(w: seq<real>, ph: VolPhase, n: nat): real
    requires n <= |ph.indSpecies| && n <= |ph.speciesUnknownType|
    requires forall k :: 0 <= k < n ==> 0 <= ph.indSpecies[k] < |w|
  {
    if n == 0 then 0.0
    else
      PhaseMoles(w, ph, n - 1) +
      (if ph.speciesUnknownType[n - 1] != SpeciesTypeInterfacialVoltage then w[ph.indSpecies[n - 1]] else 0.0)
  }

  /** The internal phase's moles read from soln through the internal indices. */
  function InternalPhaseMoles(soln: seq<real>, ph: VolPhase, n: nat): real
    requires n <= |ph.indSpecies| && n <= |ph.speciesUnknownType|
    requires forall k :: 0 <= k < n ==> 0 <= ph.indSpecies[k] < |soln|
  {
    if n == 0 then 0.0
    else
      InternalPhaseMoles(soln, ph, n - 1) +
      (if ph.speciesUnknownType[n - 1] != SpeciesTypeInterfacialVoltage then soln[ph.indSpecies[n - 1]] else 0.0)
  }

  /** The consistency checks export enforces on one phase (lines 959-983):
      the potential unknown matches the phase potential, every slot's
      exported mole fraction matches the phase's own, and inert moles plus
      the non-voltage exported moles equal the phase total (for phases of the
      shape export reads). */
  ghost predicate PhaseConsistent(pubPh: VolPhase, vPh: VolPhase, w: seq<real>, mf: seq<real>, soln: seq<real>)
  {
    PubPhaseShape(pubPh, |w|) && PubPhaseShape(pubPh, |mf|) && ExportShape(pubPh, vPh, |soln|) &&
    (0 <= pubPh.phiVarIndex < pubPh.nVolSpecies ==>
       soln[vPh.indSpecies[pubPh.phiVarIndex]] == vPh.electricPotential) &&
    (forall k :: 0 <= k < pubPh.nVolSpecies ==> mf[pubPh.indSpecies[k]] == vPh.moleFractions[k]) &&
    vPh.tMolesInert + PhaseMoles(w, pubPh, pubPh.nVolSpecies) == vPh.totalMoles
  }

  /** What export needs of the internal phase matching an external one. */
  ghost predicate ExportShape(pubPh: VolPhase, vPh: VolPhase, nsoln: int)
  {
    pubPh.nVolSpecies <= |vPh.moleFractions| && pubPh.nVolSpecies <= |vPh.props| &&
    (0 <= pubPh.phiVarIndex < pubPh.nVolSpecies ==>
       pubPh.phiVarIndex < |vPh.indSpecies| && 0 <= vPh.indSpecies[pubPh.phiVarIndex] < nsoln)
  }

  /** A phase after vcs_tmoles() has recomputed its totals. */
  function WithTotals(ph: VolPhase, t: PhaseTotals): (r: VolPhase)
    ensures r.totalMoles == t.totalMoles && r.moleFractions == t.moleFractions
    ensures r.(totalMoles := ph.totalMoles, moleFractions := ph.moleFractions) == ph
  {
    ph.(totalMoles := t.totalMoles, moleFractions := t.moleFractions)
  }

  /** vcs_tmoles() over the first nph phases; the totals themselves come from
      the solver, which is not part of this model. */
  function ApplyTotals(phases: seq<VolPhase>, tm: seq<PhaseTotals>, nph: nat): (r: seq<VolPhase>)
    requires nph <= |phases| && nph <= |tm|
    ensures |r| == |phases|
    ensures forall iph :: 0 <= iph < nph ==> r[iph] == WithTotals(phases[iph], tm[iph])
    ensures forall iph :: nph <= iph < |phases| ==> r[iph] == phases[iph]
  {
    seq(|phases|, iph requires 0 <= iph < |phases| => if iph < nph then WithTotals(phases[iph], tm[iph]) else phases[iph])
  }

  /** The external phase after export: the internal phase's state, and the
      per-slot data of each of its first nVolSpecies slots (a slot the
      internal phase has no data for, which export never reaches on phases
      of matching shape, keeps its own). */
  function ExportedPhase(pubPh: VolPhase, vPh: VolPhase): (r: VolPhase)
    ensures r.existence == vPh.existence && r.tMolesInert == vPh.tMolesInert
    ensures r.totalMoles == vPh.totalMoles && r.electricPotential == vPh.electricPotential
    ensures r.moleFractions == vPh.moleFractions
    ensures |r.props| == |pubPh.props|
    ensures forall k :: 0 <= k < |pubPh.props| && k < pubPh.nVolSpecies && k < |vPh.props| ==>
              r.props[k] == vPh.props[k]
    ensures forall k :: 0 <= k < |pubPh.props| && (pubPh.nVolSpecies <= k || |vPh.props| <= k) ==>
              r.props[k] == pubPh.props[k]
    ensures r.(existence := pubPh.existence, tMolesInert := pubPh.tMolesInert,
               totalMoles := pubPh.totalMoles, electricPotential := pubPh.electricPotential,
               moleFractions := pubPh.moleFractions, props := pubPh.props) == pubPh
  {
    pubPh.(existence := vPh.existence, tMolesInert := vPh.tMolesInert,
           totalMoles := vPh.totalMoles, electricPotential := vPh.electricPotential,
           moleFractions := vPh.moleFractions,
           props := seq(|pubPh.props|, k requires 0 <= k < |pubPh.props| =>
                        if k < pubPh.nVolSpecies && k < |vPh.props| then vPh.props[k] else pubPh.props[k]))
  }

  /** Export's mass-balance check sees exactly the internal phase moles: when
      the internal slots hold the same species (found by the export search)
      with the same unknown types, the moles exported through the external
      indices add up to the moles the internal phase holds. */
  lemma {:induction false} ExportKeepsPhaseMoles(soln: seq<real>, ind: seq<int>, types: seq<int>,
                                                 pubPh: VolPhase, vPh: VolPhase, n: nat)
    requires |ind| <= |soln| && |ind| <= |types|
    requires n <= |pubPh.indSpecies| && n <= |pubPh.speciesUnknownType|
    requires n <= |vPh.indSpecies| && n <= |vPh.speciesUnknownType|
    requires forall k :: 0 <= k < n ==> 0 <= pubPh.indSpecies[k] < |ind|
    requires forall k :: 0 <= k < n ==> vPh.indSpecies[k] == SearchSlot(ind, pubPh.indSpecies[k])
    requires forall k :: 0 <= k < n ==> 0 <= vPh.indSpecies[k] < |ind|
    requires forall k :: 0 <= k < n ==>
               pubPh.speciesUnknownType[k] == types[pubPh.indSpecies[k]] == vPh.speciesUnknownType[k]
    ensures PhaseMoles(ExportMoles(soln, ind, types), pubPh, n) == InternalPhaseMoles(soln, vPh, n)
  {
    if n > 0 {
      ExportKeepsPhaseMoles(soln, ind, types, pubPh, vPh, n - 1);
    }
  }

  // ---------------------------------------------------------------------
  // Workspace sizing
  // ---------------------------------------------------------------------

  /** The three sizes InitSizes compares: species capacity, element count, phase capacity. */
  datatype Sizes = Sizes(nSpecies0: int, nElements: int, nPhase0: int)

  /** What InitSizes does: keep the workspace when it is in use and the sizes
      repeat; otherwise store the requested sizes and either reject them
      (a non-positive size) or reallocate. */
  datatype SizeAction = KeepSizes | RejectSizes | Reallocate

  function InitSizesAction(cur: Sizes, req: Sizes): (a: SizeAction)
    ensures a == KeepSizes <==> cur.nSpecies0 != 0 && cur == req
    ensures a == RejectSizes <==>
      !(cur.nSpecies0 != 0 && cur == req) &&
      (req.nSpecies0 <= 0 || req.nElements <= 0 || req.nPhase0 <= 0)
  {
    if cur.nSpecies0 != 0 && cur == req then KeepSizes
    else if req.nSpecies0 <= 0 || req.nElements <= 0 || req.nPhase0 <= 0 then RejectSizes
    else Reallocate
  }

  /** Sizes recorded after InitSizes: a rejected request is recorded too,
      because the sizes are stored before they are checked. */
  function SizesAfter(cur: Sizes, req: Sizes): (s: Sizes)
    ensures InitSizesAction(cur, req) == KeepSizes ==> s == cur
    ensures InitSizesAction(cur, req) != KeepSizes ==> s == req
  {
    if InitSizesAction(cur, req) == KeepSizes then cur else req
  }

  /** Repeating a request is a no-op once it has been accepted. */
  lemma InitSizesIdempotent(cur: Sizes, req: Sizes)
    requires InitSizesAction(cur, req) != RejectSizes
    ensures InitSizesAction(SizesAfter(cur, req), req) == KeepSizes
  {
  }

  /** As written, a rejected request with a non-zero species size is kept
      silently when repeated: the second call finds the stored sizes equal. */
  lemma RepeatedRejectIsKept(req: Sizes)
    requires req.nSpecies0 != 0
    requires req.nSpecies0 <= 0 || req.nElements <= 0 || req.nPhase0 <= 0
    ensures InitSizesAction(Sizes(0, 0, 0), req) == RejectSizes
    ensures InitSizesAction(SizesAfter(Sizes(0, 0, 0), req), req) == KeepSizes
  {
  }
}
