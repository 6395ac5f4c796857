/** States of real runs at which the solver does less than its comments promise. */
module Counterexamples {
  import opened Options
  import opened Versions
  import opened Ranges
  import opened Terms
  import opened Clauses
  import opened Trails
  import opened Propagation
  import opened Decisions
  import opened Selections
  import opened Analysis
  import opened Walk
  import opened Scenarios

  /** A provider given by its version lists and dependency lists. */
  function Offers(versions: map<PackageId, seq<Version>>,
                  dependencies: map<(PackageId, Version), seq<Dependency>>): Provider {
    Provider(
      (pkg: PackageId) => Some(if pkg in versions then versions[pkg] else []),
      (pkg: PackageId, v: Version) => Some(if (pkg, v) in dependencies then dependencies[(pkg, v)] else []))
  }

  /* ------------------------------------------------- a decision blamed on its own */

  const ALPHA: PackageId := 1
  const MISSING: PackageId := 2

  /** Alpha 2.0.0 needs a package that has no versions; alpha 1.0.0 needs nothing and
      may or may not exist. */
  function AlphaProvider(versions: seq<Version>): Provider {
    Offers(map[ALPHA := versions], map[(ALPHA, V2) := [Dependency(MISSING, Any())]])
  }

  const ALPHA_NEEDS: seq<Dependency> := [Dependency(ALPHA, Any())]

  /** The run: require alpha, decide the root, decide alpha 2.0.0, derive the missing package. */
  const ALPHA_TRAIL: Trail :=
    [Requirement(Dependency(ALPHA, Any())), Decision(ROOT, V1, 1), Decision(ALPHA, V2, 2),
     Derived(Term(MISSING, Any(), false), 0, 2)]

  /** Recorded: alpha's dependency, "no version of the missing package", their resolvent. */
  const ALPHA_CLAUSES: seq<Clause> :=
    [Clause(DependencyTerms(ALPHA, V2, Dependency(MISSING, Any())), DependencyReason, []),
     Clause([Term(MISSING, Any(), true)], NoVersionsReason, []),
     Clause([Term(ALPHA, Exact(V2), true)], InternalReason, [1, 0])]

  const ALPHA_SOLUTION: Model := map[ROOT := V1, ALPHA := V1]

  const ALPHA_ORIGINS: seq<Origin> :=
    [FromDependency(ALPHA, V2, 0), FromNoVersions(MISSING, Any(), ALPHA_TRAIL, {0}), FromResolution(1, 0, 0, 1)]

  lemma AlphaRun()
    ensures RunOk(ALPHA_TRAIL, 2, ALPHA_NEEDS, ALPHA_CLAUSES)
  {
    hide RunOk, StateOf;
    AtStart(ALPHA_TRAIL, ALPHA_NEEDS, ALPHA_CLAUSES);
    AfterRequirement(ALPHA_TRAIL, 0, ALPHA_NEEDS, ALPHA_CLAUSES);
    assert ALPHA_NEEDS[..1] == ALPHA_NEEDS;
    AfterRootDecision(ALPHA_TRAIL, 1, ALPHA_NEEDS, ALPHA_CLAUSES);
    AnyContainsAll(V2);
    AfterDecision(ALPHA_TRAIL, 2, 0, V2, 1, ALPHA_NEEDS, ALPHA_CLAUSES);
    EntrySatisfies(ALPHA_TRAIL[..3], 2, ALPHA_CLAUSES[0].terms[0]);
    UnseenIsOpen(ALPHA_TRAIL[..3], ALPHA_CLAUSES[0].terms[1]);
    AfterDerivation(ALPHA_TRAIL, 3, 0, 1, 2, ALPHA_NEEDS, ALPHA_CLAUSES);
    assert ALPHA_TRAIL[..4] == ALPHA_TRAIL;
  }

  lemma AlphaResolvent()
    ensures Resolvent(ALPHA_CLAUSES[1].terms, ALPHA_CLAUSES[0].terms, MISSING) == ALPHA_CLAUSES[2].terms
  {
    hide Exact, Any;
    var left := ALPHA_CLAUSES[1].terms;
    var right := ALPHA_CLAUSES[0].terms;
    assert left[..0] == [] && right[..1] == [right[0]] && right[..1][..0] == [];
    assert Without(left, MISSING) == [];
    assert Without(right[..1], MISSING) == [right[0]];
  }

  /** A required package for which the provider lists nothing is out of versions. */
  lemma NothingListed(p: Provider, trail: Trail, clauses: seq<Clause>, attached: set<nat>, pkg: PackageId, i: nat)
    requires p.versions(pkg) == Some([]) && i < |trail| && trail[i].pkg == pkg && trail[i].positive
    requires forall j :: 0 <= j < |trail| && j != i ==> trail[j].pkg != pkg
    ensures OutOfVersions(p, trail, clauses, attached, pkg, trail[i].range)
  {
    SoleRange(trail, pkg, i);
  }

  lemma AlphaClausesOk(versions: seq<Version>)
    ensures ClausesProper(ALPHA_CLAUSES) && NoVersionsHold(AlphaProvider(versions), ALPHA_CLAUSES)
    ensures OriginsOk(AlphaProvider(versions), ROOT, V1, ALPHA_CLAUSES, ALPHA_ORIGINS)
  {
    hide Resolvent, Escapes, OutOfVersions;
    AlphaResolvent();
    SatisfierLeavesNoEscape(ALPHA_CLAUSES[1].terms, ALPHA_CLAUSES[0].terms, 0, 1);
    assert AlphaProvider(versions).versions(MISSING) == Some([]);
    NothingListed(AlphaProvider(versions), ALPHA_TRAIL, ALPHA_CLAUSES[..1], {0}, MISSING, 3);
  }

  lemma AlphaExit()
    ensures GiveUpOk(ALPHA_TRAIL, ALPHA_CLAUSES, ROOT, RootLevel(2, 2, 0))
    ensures forall n :: !SettledAtRoot(ALPHA_TRAIL, ALPHA_CLAUSES[2].terms, n)
  {
    hide StateOf;
    var t := ALPHA_CLAUSES[2].terms[0];
    FirstUnique(ALPHA_TRAIL, t, 2);
    EntrySatisfies(ALPHA_TRAIL, 2, t);
    forall n: nat ensures !SettledAtRoot(ALPHA_TRAIL, ALPHA_CLAUSES[2].terms, n) {
      if n <= 2 {
        AlphaOpen(n);
      } else {
        assert ALPHA_TRAIL[2].level == 2;
      }
    }
  }

  lemma AlphaOpen(n: nat)
    requires n <= 2
    ensures StateOf(ALPHA_TRAIL[..n], ALPHA_CLAUSES[2].terms[0]) != Satisfied
  {
    if n == 0 {
      assert ALPHA_TRAIL[..n] == [];
    } else {
      SoleRange(ALPHA_TRAIL[..n], ALPHA, 0);
    }
  }

  /** A decision blamed on its own at the root-level exit: the no-versions clause
      holds, the state is sound, and yet alpha 1.0.0 is a solution. */
  lemma BlamedDecisionIsNotProof()
    ensures RunOk(ALPHA_TRAIL, 2, ALPHA_NEEDS, ALPHA_CLAUSES) && ClausesProper(ALPHA_CLAUSES)
    ensures NoVersionsHold(AlphaProvider([V2, V1]), ALPHA_CLAUSES)
    ensures OriginsOk(AlphaProvider([V2, V1]), ROOT, V1, ALPHA_CLAUSES, ALPHA_ORIGINS)
    ensures GiveUpOk(ALPHA_TRAIL, ALPHA_CLAUSES, ROOT, RootLevel(2, 2, 0))
    ensures IsSolution(ALPHA_SOLUTION, AlphaProvider([V2, V1]), ROOT, V1, ALPHA_NEEDS)
  {
    hide RunOk, OriginsOk, StateOf, NoVersionsHold, GiveUpOk;
    AlphaRun();
    AlphaClausesOk([V2, V1]);
    AlphaExit();
    AnyContainsAll(V1);
    assert AlphaProvider([V2, V1]).versions(ALPHA) == Some([V2, V1]);
    assert V1 in [V2, V1];
  }

  /** Without alpha 1.0.0 the same state gives the right answer.  So no condition on
      trail, clauses and exit can tell right from wrong here: outside the condition
      on the root entries the answer is neither proved nor refuted. */
  lemma SameStateRightAnswer()
    ensures RunOk(ALPHA_TRAIL, 2, ALPHA_NEEDS, ALPHA_CLAUSES) && ClausesProper(ALPHA_CLAUSES)
    ensures NoVersionsHold(AlphaProvider([V2]), ALPHA_CLAUSES)
    ensures OriginsOk(AlphaProvider([V2]), ROOT, V1, ALPHA_CLAUSES, ALPHA_ORIGINS)
    ensures GiveUpOk(ALPHA_TRAIL, ALPHA_CLAUSES, ROOT, RootLevel(2, 2, 0))
    ensures forall n :: !SettledAtRoot(ALPHA_TRAIL, ALPHA_CLAUSES[2].terms, n)
    ensures forall m :: !IsSolution(m, AlphaProvider([V2]), ROOT, V1, ALPHA_NEEDS)
  {
    hide RunOk, OriginsOk, StateOf, NoVersionsHold, GiveUpOk, SettledAtRoot;
    AlphaRun();
    AlphaClausesOk([V2]);
    AlphaExit();
    forall m ensures !IsSolution(m, AlphaProvider([V2]), ROOT, V1, ALPHA_NEEDS) {
      NoAlphaSolution(m);
    }
  }

  lemma NoAlphaSolution(m: Model)
    ensures !IsSolution(m, AlphaProvider([V2]), ROOT, V1, ALPHA_NEEDS)
  {
    var p := AlphaProvider([V2]);
    if ALPHA !in m {
      assert !Meets(m, ALPHA_NEEDS[0]);
    } else if m[ALPHA] != V2 {
      assert p.versions(ALPHA) == Some([V2]);
    } else if MISSING !in m {
      assert !Meets(m, p.dependencies(ALPHA, V2).value[0]);
      assert !DependenciesMet(m, p.dependencies(ALPHA, m[ALPHA]));
    } else {
      assert p.versions(MISSING) == Some([]);
    }
  }

  /* --------------------------------- a decision blamed for what the root entries force */

  function AtMost(v: Version): Range {
    Range(UNBOUNDED, Bound(v, true, false), false)
  }

  /** The root needs p up to 1.0.0; p 1.0.0 needs a package without versions. */
  function PinchProvider(): Provider {
    Offers(map[P := [V1]], map[(ROOT, V1) := [Dependency(P, AtMost(V1))], (P, V1) := [Dependency(MISSING, Any())]])
  }

  const PINCH_NEEDS: seq<Dependency> := [Dependency(P, AtLeast(V1))]

  const PINCH_CLAUSES: seq<Clause> :=
    [Clause(DependencyTerms(ROOT, V1, Dependency(P, AtMost(V1))), DependencyReason, []),
     Clause(DependencyTerms(P, V1, Dependency(MISSING, Any())), DependencyReason, []),
     Clause([Term(MISSING, Any(), true)], NoVersionsReason, []),
     Clause([Term(P, Exact(V1), true)], InternalReason, [2, 1])]

  const PINCH_ORIGINS: seq<Origin> :=
    [FromDependency(ROOT, V1, 0), FromDependency(P, V1, 0), FromNoVersions(MISSING, Any(), PINCH_TRAIL, {0, 1}),
     FromResolution(2, 1, 0, 1)]

  /** P from 1.0.0 on and up to 1.0.0 before p was decided. */
  const PINCH_TRAIL: Trail :=
    [Requirement(Dependency(P, AtLeast(V1))), Decision(ROOT, V1, 1), Derived(Term(P, AtMost(V1), false), 0, 1),
     Decision(P, V1, 2), Derived(Term(MISSING, Any(), false), 1, 2)]

  lemma PinchRange()
    ensures Positive(PINCH_TRAIL[..2], P) == Some(AtLeast(V1))
    ensures Positive(PINCH_TRAIL[..3], P) == Some(Intersect(AtLeast(V1), AtMost(V1)))
  {
    hide Intersect;
    SoleRange(PINCH_TRAIL[..2], P, 0);
    assert PINCH_TRAIL[..3] == PINCH_TRAIL[..2] + [PINCH_TRAIL[2]];
    PositiveAppend(PINCH_TRAIL[..2], PINCH_TRAIL[2], P);
  }

  lemma PinchOpen()
    ensures StateOf(PINCH_TRAIL[..2], PINCH_CLAUSES[0].terms[1]) == Inconclusive
  {
    PinchRange();
  }

  lemma PinchSettled()
    ensures StateOf(PINCH_TRAIL[..3], PINCH_CLAUSES[3].terms[0]) == Satisfied
    ensures Contains(Intersect(AtLeast(V1), AtMost(V1)), V1)
  {
    PinchRange();
  }

  lemma PinchRun()
    ensures RunOk(PINCH_TRAIL, 2, PINCH_NEEDS, PINCH_CLAUSES)
  {
    hide RunOk, StateOf, Contains, Intersect;
    AtStart(PINCH_TRAIL, PINCH_NEEDS, PINCH_CLAUSES);
    AfterRequirement(PINCH_TRAIL, 0, PINCH_NEEDS, PINCH_CLAUSES);
    assert PINCH_NEEDS[..1] == PINCH_NEEDS;
    AfterRootDecision(PINCH_TRAIL, 1, PINCH_NEEDS, PINCH_CLAUSES);
    EntrySatisfies(PINCH_TRAIL[..2], 1, PINCH_CLAUSES[0].terms[0]);
    PinchOpen();
    AfterDerivation(PINCH_TRAIL, 2, 0, 1, 1, PINCH_NEEDS, PINCH_CLAUSES);
    PinchRange();
    PinchSettled();
    AfterDecisionIn(PINCH_TRAIL, 3, V1, 1, Intersect(AtLeast(V1), AtMost(V1)), PINCH_NEEDS, PINCH_CLAUSES);
    EntrySatisfies(PINCH_TRAIL[..4], 3, PINCH_CLAUSES[1].terms[0]);
    UnseenIsOpen(PINCH_TRAIL[..4], PINCH_CLAUSES[1].terms[1]);
    AfterDerivation(PINCH_TRAIL, 4, 1, 1, 2, PINCH_NEEDS, PINCH_CLAUSES);
    assert PINCH_TRAIL[..5] == PINCH_TRAIL;
  }

  lemma PinchClausesOk()
    ensures ClausesProper(PINCH_CLAUSES) && NoVersionsHold(PinchProvider(), PINCH_CLAUSES)
    ensures OriginsOk(PinchProvider(), ROOT, V1, PINCH_CLAUSES, PINCH_ORIGINS)
  {
    hide Resolvent, Escapes, OutOfVersions;
    PinchResolvent();
    SatisfierLeavesNoEscape(PINCH_CLAUSES[2].terms, PINCH_CLAUSES[1].terms, 0, 1);
    assert PinchProvider().versions(MISSING) == Some([]);
    NothingListed(PinchProvider(), PINCH_TRAIL, PINCH_CLAUSES[..2], {0, 1}, MISSING, 4);
  }

  lemma PinchResolvent()
    ensures Resolvent(PINCH_CLAUSES[2].terms, PINCH_CLAUSES[1].terms, MISSING) == PINCH_CLAUSES[3].terms
  {
    hide Exact, Any;
    var left := PINCH_CLAUSES[2].terms;
    var right := PINCH_CLAUSES[1].terms;
    assert left[..0] == [] && right[..1] == [right[0]] && right[..1][..0] == [];
    assert Without(left, MISSING) == [];
    assert Without(right[..1], MISSING) == [right[0]];
  }

  /** The exit blames a decision above the root, and the answer is proved right all the
      same: the condition is on the root entries, not on the exit. */
  lemma ProvenDespiteTheExit()
    ensures RunOk(PINCH_TRAIL, 2, PINCH_NEEDS, PINCH_CLAUSES) && ClausesProper(PINCH_CLAUSES)
    ensures OriginsOk(PinchProvider(), ROOT, V1, PINCH_CLAUSES, PINCH_ORIGINS)
    ensures GiveUpOk(PINCH_TRAIL, PINCH_CLAUSES, ROOT, RootLevel(3, 3, 0))
    ensures !BlamesRoot(PINCH_TRAIL, 2, RootLevel(3, 3, 0))
    ensures Proven(PinchProvider(), PINCH_TRAIL, PINCH_CLAUSES, 3, 3)
  {
    hide RunOk, OriginsOk, StateOf, NoVersionsHold, RestsOnTrue;
    PinchRun();
    PinchClausesOk();
    PinchSettled();
    FirstUnique(PINCH_TRAIL, PINCH_CLAUSES[3].terms[0], 3);
    EntrySatisfies(PINCH_TRAIL, 3, PINCH_CLAUSES[3].terms[0]);
    AllRestOnTrue(PinchProvider(), PINCH_CLAUSES, 3);
    AllRestOnTrue(PinchProvider(), PINCH_CLAUSES, 0);
  }

  /* ------------------------------------------ a no-versions clause that is not true */

  const D: PackageId := 2
  const Q: PackageId := 3

  /** Alpha 2.0.0 needs d 1.0.0, every q needs d 2.0.0, alpha 1.0.0 needs nothing. */
  function ClashProvider(): Provider {
    Offers(map[ALPHA := [V2, V1], D := [V2, V1], Q := [V2, V1]],
           map[(ALPHA, V2) := [Dependency(D, Exact(V1))],
               (Q, V2) := [Dependency(D, Exact(V2))],
               (Q, V1) := [Dependency(D, Exact(V2))]])
  }

  const CLASH_NEEDS: seq<Dependency> := [Dependency(ALPHA, Any()), Dependency(Q, Any())]

  const CLASH_CLAUSES: seq<Clause> :=
    [Clause(DependencyTerms(ALPHA, V2, Dependency(D, Exact(V1))), DependencyReason, []),
     Clause(DependencyTerms(Q, V2, Dependency(D, Exact(V2))), DependencyReason, []),
     Clause(DependencyTerms(Q, V1, Dependency(D, Exact(V2))), DependencyReason, []),
     Clause([Term(Q, Any(), true)], NoVersionsReason, [])]

  const CLASH_SOLUTION: Model := map[ROOT := V1, ALPHA := V1, D := V2, Q := V2]

  const CLASH_ORIGINS: seq<Origin> :=
    [FromDependency(ALPHA, V2, 0), FromDependency(Q, V2, 0), FromDependency(Q, V1, 0),
     FromNoVersions(Q, Any(), CLASH_TRAIL, {0, 1, 2})]

  /** The run: alpha 2.0.0 forces d 1.0.0; both versions of q were tried and undone. */
  const CLASH_TRAIL: Trail :=
    [Requirement(Dependency(ALPHA, Any())), Requirement(Dependency(Q, Any())), Decision(ROOT, V1, 1),
     Decision(ALPHA, V2, 2), Derived(Term(D, Exact(V1), false), 0, 2), Decision(D, V1, 3),
     Derived(Term(Q, Exact(V2), true), 1, 3), Derived(Term(Q, Exact(V1), true), 2, 3)]

  lemma ClashRunToDecisions()
    ensures RunOk(CLASH_TRAIL[..6], 3, CLASH_NEEDS, CLASH_CLAUSES)
  {
    hide RunOk, StateOf, Contains;
    AtStart(CLASH_TRAIL, CLASH_NEEDS, CLASH_CLAUSES);
    AfterRequirement(CLASH_TRAIL, 0, CLASH_NEEDS, CLASH_CLAUSES);
    AfterRequirement(CLASH_TRAIL, 1, CLASH_NEEDS, CLASH_CLAUSES);
    assert CLASH_NEEDS[..2] == CLASH_NEEDS;
    AfterRootDecision(CLASH_TRAIL, 2, CLASH_NEEDS, CLASH_CLAUSES);
    AnyContainsAll(V2);
    AfterDecision(CLASH_TRAIL, 3, 0, V2, 1, CLASH_NEEDS, CLASH_CLAUSES);
    EntrySatisfies(CLASH_TRAIL[..4], 3, CLASH_CLAUSES[0].terms[0]);
    UnseenIsOpen(CLASH_TRAIL[..4], CLASH_CLAUSES[0].terms[1]);
    AfterDerivation(CLASH_TRAIL, 4, 0, 1, 2, CLASH_NEEDS, CLASH_CLAUSES);
    ExactContainsOne(V1, V1);
    AfterDecision(CLASH_TRAIL, 5, 4, V1, 2, CLASH_NEEDS, CLASH_CLAUSES);
  }

  lemma ClashRun()
    ensures RunOk(CLASH_TRAIL, 3, CLASH_NEEDS, CLASH_CLAUSES)
  {
    hide RunOk, StateOf, Contains;
    ClashRunToDecisions();
    ClashOpen(6, CLASH_CLAUSES[1].terms[0]);
    EntrySatisfies(CLASH_TRAIL[..6], 4, CLASH_CLAUSES[1].terms[1]);
    AfterDerivation(CLASH_TRAIL, 6, 1, 0, 3, CLASH_NEEDS, CLASH_CLAUSES);
    ClashOpen(7, CLASH_CLAUSES[2].terms[0]);
    EntrySatisfies(CLASH_TRAIL[..7], 4, CLASH_CLAUSES[2].terms[1]);
    AfterDerivation(CLASH_TRAIL, 7, 2, 0, 3, CLASH_NEEDS, CLASH_CLAUSES);
    assert CLASH_TRAIL[..8] == CLASH_TRAIL;
  }

  lemma ClashOpen(n: nat, t: Term)
    requires (n == 6 && t == Term(Q, Exact(V2), true)) || (n == 7 && t == Term(Q, Exact(V1), true))
    ensures StateOf(CLASH_TRAIL[..n], t) == Inconclusive
  {
    SoleRange(CLASH_TRAIL[..n], Q, 1);
    assert forall i :: 0 <= i < n ==> !Overlaps(CLASH_TRAIL[..n][i], t);
  }

  lemma ClashSolution()
    ensures IsSolution(CLASH_SOLUTION, ClashProvider(), ROOT, V1, CLASH_NEEDS)
  {
    hide Contains, Any, Exact;
    AnyContainsAll(V1);
    AnyContainsAll(V2);
    ExactContainsOne(V2, V2);
    assert V1 in [V2, V1] && V2 in [V2, V1];
    forall pkg | pkg in CLASH_SOLUTION && pkg != ROOT ensures ClashProvider().versions(pkg) == Some([V2, V1]) {
    }
  }

  /** Both versions of q are forbidden on the trail. */
  lemma ClashOut()
    ensures OutOfVersions(ClashProvider(), CLASH_TRAIL, CLASH_CLAUSES[..3], {0, 1, 2}, Q, Any())
  {
    hide Contains, Any, Exact, Clashes;
    SoleRange(CLASH_TRAIL, Q, 1);
    assert ClashProvider().versions(Q) == Some([V2, V1]);
    ExactContainsOne(V2, V2);
    ExactContainsOne(V1, V1);
    assert Forbids(CLASH_TRAIL[6], Q, V2) && Forbids(CLASH_TRAIL[7], Q, V1);
  }

  lemma ClashOriginsOk()
    ensures OriginsOk(ClashProvider(), ROOT, V1, CLASH_CLAUSES, CLASH_ORIGINS)
  {
    hide OutOfVersions;
    ClashOut();
  }

  /** A no-versions clause says that no version is left on the current trail.  Taken
      for a fact about the provider it is the one unsound step: the conflict is with
      root entries only, and alpha 1.0.0 with d 2.0.0 and q 2.0.0 is a solution. */
  lemma NoVersionsIsNotProof()
    ensures RunOk(CLASH_TRAIL, 3, CLASH_NEEDS, CLASH_CLAUSES) && ClausesProper(CLASH_CLAUSES)
    ensures OriginsOk(ClashProvider(), ROOT, V1, CLASH_CLAUSES, CLASH_ORIGINS)
    ensures GiveUpOk(CLASH_TRAIL, CLASH_CLAUSES, ROOT, RootLevel(3, 1, 0))
    ensures SettledAtRoot(CLASH_TRAIL, CLASH_CLAUSES[3].terms, 2)
    ensures !RestsOnTrue(ClashProvider(), CLASH_CLAUSES, 3)
    ensures IsSolution(CLASH_SOLUTION, ClashProvider(), ROOT, V1, CLASH_NEEDS)
  {
    hide RunOk, StateOf, IsSolution, OriginsOk;
    ClashRun();
    ClashSolution();
    ClashOriginsOk();
    FirstUnique(CLASH_TRAIL, Term(Q, Any(), true), 1);
    EntrySatisfies(CLASH_TRAIL, 1, Term(Q, Any(), true));
    EntrySatisfies(CLASH_TRAIL[..2], 1, Term(Q, Any(), true));
    AnyContainsAll(V2);
    assert V2 in ClashProvider().versions(Q).value && ClashProvider().versions(Q) == Some([V2, V1]);
    var terms := CLASH_CLAUSES[3].terms;
    assert !NoneOffered(ClashProvider().versions(terms[0].pkg), terms[0].range);
    assert !NoVersionsHolds(ClashProvider(), terms);
  }

  /* --------------------------------------------------- a conflict without satisfier */

  const BETA: PackageId := 2

  function AtLeast(v: Version): Range {
    Range(Bound(v, true, false), UNBOUNDED, false)
  }

  function Below(v: Version): Range {
    Range(UNBOUNDED, Bound(v, false, false), false)
  }

  const V3 := Version(3, 0, 0)
  const V05 := Version(0, 5, 0)
  const V04 := Version(0, 4, 0)

  /** Beta needs q below 2.0.0, alpha 2.0.0 needs q from 1.0.0 on, alpha 1.0.0 needs
      nothing, and q has no version between. */
  function GapProvider(): Provider {
    Offers(map[ALPHA := [V2, V1], BETA := [V1], Q := [V3, V05, V04]],
           map[(BETA, V1) := [Dependency(Q, Below(V2))], (ALPHA, V2) := [Dependency(Q, AtLeast(V1))]])
  }

  const GAP_NEEDS: seq<Dependency> := [Dependency(ALPHA, Any()), Dependency(BETA, Any())]

  const GAP_CLAUSES: seq<Clause> :=
    [Clause(DependencyTerms(BETA, V1, Dependency(Q, Below(V2))), DependencyReason, []),
     Clause(DependencyTerms(ALPHA, V2, Dependency(Q, AtLeast(V1))), DependencyReason, []),
     Clause([Term(Q, Intersect(Below(V2), AtLeast(V1)), true)], NoVersionsReason, [])]

  const GAP_SOLUTION: Model := map[ROOT := V1, ALPHA := V1, BETA := V1, Q := V05]

  const GAP_ORIGINS: seq<Origin> :=
    [FromDependency(BETA, V1, 0), FromDependency(ALPHA, V2, 0),
     FromNoVersions(Q, Intersect(Below(V2), AtLeast(V1)), GAP_TRAIL, {0, 1})]

  const GAP_TRAIL: Trail :=
    [Requirement(Dependency(ALPHA, Any())), Requirement(Dependency(BETA, Any())), Decision(ROOT, V1, 1),
     Decision(BETA, V1, 2), Derived(Term(Q, Below(V2), false), 0, 2), Decision(ALPHA, V2, 3),
     Derived(Term(Q, AtLeast(V1), false), 1, 3)]

  lemma GapRun()
    ensures RunOk(GAP_TRAIL, 3, GAP_NEEDS, GAP_CLAUSES)
  {
    hide RunOk, StateOf, Contains;
    AtStart(GAP_TRAIL, GAP_NEEDS, GAP_CLAUSES);
    AfterRequirement(GAP_TRAIL, 0, GAP_NEEDS, GAP_CLAUSES);
    AfterRequirement(GAP_TRAIL, 1, GAP_NEEDS, GAP_CLAUSES);
    assert GAP_NEEDS[..2] == GAP_NEEDS;
    AfterRootDecision(GAP_TRAIL, 2, GAP_NEEDS, GAP_CLAUSES);
    AnyContainsAll(V1);
    AfterDecision(GAP_TRAIL, 3, 1, V1, 1, GAP_NEEDS, GAP_CLAUSES);
    EntrySatisfies(GAP_TRAIL[..4], 3, GAP_CLAUSES[0].terms[0]);
    UnseenIsOpen(GAP_TRAIL[..4], GAP_CLAUSES[0].terms[1]);
    AfterDerivation(GAP_TRAIL, 4, 0, 1, 2, GAP_NEEDS, GAP_CLAUSES);
    AnyContainsAll(V2);
    AfterDecision(GAP_TRAIL, 5, 0, V2, 2, GAP_NEEDS, GAP_CLAUSES);
    EntrySatisfies(GAP_TRAIL[..6], 5, GAP_CLAUSES[1].terms[0]);
    GapOpen();
    AfterDerivation(GAP_TRAIL, 6, 1, 1, 3, GAP_NEEDS, GAP_CLAUSES);
    assert GAP_TRAIL[..7] == GAP_TRAIL;
  }

  lemma GapOpen()
    ensures StateOf(GAP_TRAIL[..6], Term(Q, AtLeast(V1), false)) == Inconclusive
  {
    SoleRange(GAP_TRAIL[..6], Q, 4);
  }

  lemma GapSatisfied()
    ensures StateOf(GAP_TRAIL, GAP_CLAUSES[2].terms[0]) == Satisfied
  {
    GapCombined();
  }

  lemma GapSolution()
    ensures IsSolution(GAP_SOLUTION, GapProvider(), ROOT, V1, GAP_NEEDS)
  {
    hide Any;
    AnyContainsAll(V1);
    assert Contains(Below(V2), V05);
    assert V1 in [V2, V1] && V1 in [V1] && V05 in [V3, V05, V04];
    assert GapProvider().versions(ALPHA) == Some([V2, V1]);
    assert GapProvider().versions(BETA) == Some([V1]);
    assert GapProvider().versions(Q) == Some([V3, V05, V04]);
  }

  /** No version of q is in the combined range. */
  lemma GapOut()
    ensures OutOfVersions(GapProvider(), GAP_TRAIL, GAP_CLAUSES[..2], {0, 1}, Q, Intersect(Below(V2), AtLeast(V1)))
  {
    hide Clashes;
    GapCombined();
    assert GapProvider().versions(Q) == Some([V3, V05, V04]);
    forall v | v in [V3, V05, V04] ensures !Contains(Intersect(Below(V2), AtLeast(V1)), v) {
      IntersectIsConjunction(Below(V2), AtLeast(V1), v);
    }
  }

  lemma GapCombined()
    ensures Positive(GAP_TRAIL, Q) == Some(Intersect(Below(V2), AtLeast(V1)))
  {
    hide Intersect;
    SoleRange(GAP_TRAIL[..6], Q, 4);
    assert GAP_TRAIL == GAP_TRAIL[..6] + [GAP_TRAIL[6]];
    PositiveAppend(GAP_TRAIL[..6], GAP_TRAIL[6], Q);
  }

  lemma GapClausesOk()
    ensures ClausesProper(GAP_CLAUSES) && NoVersionsHold(GapProvider(), GAP_CLAUSES)
    ensures OriginsOk(GapProvider(), ROOT, V1, GAP_CLAUSES, GAP_ORIGINS)
  {
    hide OutOfVersions;
    GapOut();
    assert GapProvider().versions(Q) == Some([V3, V05, V04]);
    forall v | v in [V3, V05, V04] ensures !Contains(Intersect(Below(V2), AtLeast(V1)), v) {
      IntersectIsConjunction(Below(V2), AtLeast(V1), v);
    }
    assert NoVersionsHolds(GapProvider(), GAP_CLAUSES[2].terms);
  }

  /** Where no single entry settles the last clause the answer can be wrong, even with
      true no-versions clauses: alpha 1.0.0, beta 1.0.0 and q 0.5.0 are a solution. */
  lemma NoSatisfierIsNotProof()
    ensures RunOk(GAP_TRAIL, 3, GAP_NEEDS, GAP_CLAUSES)
    ensures ClausesProper(GAP_CLAUSES) && NoVersionsHold(GapProvider(), GAP_CLAUSES)
    ensures OriginsOk(GapProvider(), ROOT, V1, GAP_CLAUSES, GAP_ORIGINS)
    ensures GiveUpOk(GAP_TRAIL, GAP_CLAUSES, ROOT, NoSatisfier(2)) && !OneCarriesBoth(GAP_TRAIL, Q)
    ensures IsSolution(GAP_SOLUTION, GapProvider(), ROOT, V1, GAP_NEEDS)
  {
    hide RunOk, StateOf, IsSolution, ClausesProper, NoVersionsHold, OriginsOk;
    GapRun();
    GapClausesOk();
    GapSolution();
    GapSatisfied();
    FirstUnique(GAP_TRAIL, GAP_CLAUSES[2].terms[0], 7);
    GapBounds();
  }

  lemma GapBounds()
    ensures !OneCarriesBoth(GAP_TRAIL, Q)
  {
    GapCombined();
  }

  /* -------------------------------------------------- a round that undoes nothing */

  const P: PackageId := 1

  /** P 2.0.0 needs beta 1.0.0, which needs p below 2.0.0; p 1.0.0 needs nothing. */
  function LoopProvider(): Provider {
    Offers(map[P := [V2, V1], BETA := [V1]],
           map[(P, V2) := [Dependency(BETA, Exact(V1))], (BETA, V1) := [Dependency(P, Below(V2))]])
  }

  const LOOP_NEEDS: seq<Dependency> := [Dependency(P, Any())]

  const LOOP_CLAUSES: seq<Clause> :=
    [Clause(DependencyTerms(P, V2, Dependency(BETA, Exact(V1))), DependencyReason, []),
     Clause(DependencyTerms(BETA, V1, Dependency(P, Below(V2))), DependencyReason, [])]

  const LOOP_SOLUTION: Model := map[ROOT := V1, P := V1]

  const LOOP_ORIGINS: seq<Origin> := [FromDependency(P, V2, 0), FromDependency(BETA, V1, 0)]

  /** Beta 1.0.0 had been decided, recorded its dependency and been undone. */
  const LOOP_TRAIL: Trail :=
    [Requirement(Dependency(P, Any())), Decision(ROOT, V1, 1), Decision(P, V2, 2),
     Derived(Term(BETA, Exact(V1), false), 0, 2)]

  lemma LoopRun()
    ensures RunOk(LOOP_TRAIL, 2, LOOP_NEEDS, LOOP_CLAUSES)
  {
    hide RunOk, StateOf, Contains;
    AtStart(LOOP_TRAIL, LOOP_NEEDS, LOOP_CLAUSES);
    AfterRequirement(LOOP_TRAIL, 0, LOOP_NEEDS, LOOP_CLAUSES);
    assert LOOP_NEEDS[..1] == LOOP_NEEDS;
    AfterRootDecision(LOOP_TRAIL, 1, LOOP_NEEDS, LOOP_CLAUSES);
    AnyContainsAll(V2);
    AfterDecision(LOOP_TRAIL, 2, 0, V2, 1, LOOP_NEEDS, LOOP_CLAUSES);
    EntrySatisfies(LOOP_TRAIL[..3], 2, LOOP_CLAUSES[0].terms[0]);
    UnseenIsOpen(LOOP_TRAIL[..3], LOOP_CLAUSES[0].terms[1]);
    AfterDerivation(LOOP_TRAIL, 3, 0, 1, 2, LOOP_NEEDS, LOOP_CLAUSES);
    assert LOOP_TRAIL[..4] == LOOP_TRAIL;
  }

  lemma LoopSolution()
    ensures IsSolution(LOOP_SOLUTION, LoopProvider(), ROOT, V1, LOOP_NEEDS)
  {
    AnyContainsAll(V1);
    assert LoopProvider().versions(P) == Some([V2, V1]) && V1 in [V2, V1];
  }

  /** The second clause is in conflict at level 2; its satisfier was derived at level
      2 and the other term settled at level 2, so analysis stops and jumps back to
      level 2: nothing is undone and the conflict stays, though p 1.0.0 would do. */
  lemma StuckRound()
    ensures RunOk(LOOP_TRAIL, 2, LOOP_NEEDS, LOOP_CLAUSES) && ClausesProper(LOOP_CLAUSES)
    ensures OriginsOk(LoopProvider(), ROOT, V1, LOOP_CLAUSES, LOOP_ORIGINS)
    ensures Stuck(LOOP_TRAIL, LOOP_CLAUSES, {0, 1}, 2)
    ensures IsSolution(LOOP_SOLUTION, LoopProvider(), ROOT, V1, LOOP_NEEDS)
  {
    hide RunOk, StateOf, IsSolution, StopsFor;
    LoopRun();
    LoopSolution();
    LoopStates();
    LoopStops();
    forall k, t | k in {0, 1} && k < |LOOP_CLAUSES| ensures !UnitAt(LOOP_TRAIL, LOOP_CLAUSES[k].terms, t) {
      assert k == 0 || k == 1;
    }
    assert ConflictAt(LOOP_TRAIL, LOOP_CLAUSES, {0, 1}, 1);
    forall k: nat | ConflictAt(LOOP_TRAIL, LOOP_CLAUSES, {0, 1}, k) ensures k == 1 {
      assert k == 0 || k == 1;
    }
  }

  /** The first clause is settled, the second in conflict. */
  lemma LoopStates()
    ensures StateOf(LOOP_TRAIL, LOOP_CLAUSES[0].terms[0]) == Satisfied
    ensures StateOf(LOOP_TRAIL, LOOP_CLAUSES[0].terms[1]) == Contradicted
    ensures StateOf(LOOP_TRAIL, LOOP_CLAUSES[1].terms[0]) == Satisfied
    ensures StateOf(LOOP_TRAIL, LOOP_CLAUSES[1].terms[1]) == Satisfied
  {
    EntrySatisfies(LOOP_TRAIL, 2, LOOP_CLAUSES[0].terms[0]);
    SoleRange(LOOP_TRAIL, BETA, 3);
    EntrySatisfies(LOOP_TRAIL, 3, LOOP_CLAUSES[1].terms[0]);
    EntrySatisfies(LOOP_TRAIL, 2, LOOP_CLAUSES[1].terms[1]);
  }

  lemma LoopStops()
    ensures StopsFor(LOOP_TRAIL, LOOP_CLAUSES[1].terms, 2)
  {
    var terms := LOOP_CLAUSES[1].terms;
    FirstUnique(LOOP_TRAIL, terms[0], 3);
    FirstUnique(LOOP_TRAIL, terms[1], 2);
    LoopLevel();
    assert StopsAbove(LOOP_TRAIL, terms, 3, 0, 2);
  }

  lemma LoopLevel()
    ensures LastLevel(LOOP_TRAIL, LOOP_CLAUSES[1].terms[1]) == 2
  {
    assert LOOP_TRAIL[..3][..2] == LOOP_TRAIL[..2];
    assert LastLevel(LOOP_TRAIL[..3], LOOP_CLAUSES[1].terms[1]) == 2;
  }

  /* --------------------------------------------- a contradictory root requirement */

  /** A root requirement on the root package that excludes the root version: the
      final state is quiet and fully decided, but reports the required version. */
  lemma ContradictoryRootRequirement()
    ensures var requirements := [Dependency(ROOT, Exact(V2))];
            var trail := [Requirement(requirements[0]), Decision(ROOT, V1, 1)];
            && RunOk(trail, 1, requirements, []) && !RootFits(requirements, ROOT, V1)
            && Quiescent(trail, [], {}) && AllDecided(trail, ROOT)
            && Selected(trail, ROOT) == Some(V2)
  {
    hide RunOk, Contains;
    var requirements := [Dependency(ROOT, Exact(V2))];
    var trail := [Requirement(requirements[0]), Decision(ROOT, V1, 1)];
    AtStart(trail, requirements, []);
    AfterRequirement(trail, 0, requirements, []);
    assert requirements[..1] == requirements && trail[..2] == trail;
    AfterRootDecision(trail, 1, requirements, []);
    ExactContainsOne(V2, V1);
    assert requirements[0].pkg == ROOT;
    assert trail[..1][..0] == [] && Selected(trail[..1], ROOT) == Some(V2);
    forall p: PackageId | p != ROOT ensures Positive(trail, p).None? {
      Unseen(trail, p);
    }
  }
}
