/** Building the states of a run entry by entry. */
module Scenarios {
  import opened Options
  import opened Versions
  import opened Ranges
  import opened Terms
  import opened Clauses
  import opened Trails
  import opened Propagation

  const V1 := Version(1, 0, 0)
  const V2 := Version(2, 0, 0)
  const ROOT: PackageId := 0

  /** A state the solver may pass through: what it keeps about trail and reasons. */
  ghost predicate RunOk(trail: Trail, level: nat, requirements: seq<Dependency>, clauses: seq<Clause>) {
    TrailOk(trail, level, ROOT, V1, requirements) && AllJustified(trail, clauses)
  }

  lemma AtStart(trail: Trail, requirements: seq<Dependency>, clauses: seq<Clause>)
    ensures RunOk(trail[..0], 0, requirements[..0], clauses)
  {
    assert trail[..0] == [] && requirements[..0] == [];
  }

  lemma AfterRequirement(trail: Trail, n: nat, requirements: seq<Dependency>, clauses: seq<Clause>)
    requires n < |trail| && n < |requirements| && trail[n] == Requirement(requirements[n])
    requires RunOk(trail[..n], 0, requirements[..n], clauses) && Proper(requirements[n].range)
    requires forall i :: 0 <= i < n ==> trail[i].pkg != trail[n].pkg
    ensures RunOk(trail[..n + 1], 0, requirements[..n + 1], clauses)
  {
    Unseen(trail[..n], trail[n].pkg);
    assert trail[..n + 1] == trail[..n] + [trail[n]];
    assert requirements[..n + 1] == requirements[..n] + [requirements[n]];
    RequiringKeepsTrail(trail[..n], ROOT, V1, requirements[..n], requirements[n]);
    JustifiedAppend(trail[..n], trail[n], clauses, 0);
  }

  lemma AfterRootDecision(trail: Trail, n: nat, requirements: seq<Dependency>, clauses: seq<Clause>)
    requires n < |trail| && trail[n] == Decision(ROOT, V1, 1) && RunOk(trail[..n], 0, requirements, clauses)
    ensures RunOk(trail[..n + 1], 1, requirements, clauses)
  {
    assert trail[..n + 1] == trail[..n] + [trail[n]];
    NothingDecided(trail[..n], ROOT, V1, requirements);
    DecidingKeepsTrail(trail[..n], 0, ROOT, V1, requirements, ROOT, V1);
    JustifiedAppend(trail[..n], trail[n], clauses, 0);
  }

  /** Deciding a package that has no negative entry and no decision. */
  lemma AfterDecisionIn(trail: Trail, n: nat, v: Version, level: nat, required: Range,
                        requirements: seq<Dependency>, clauses: seq<Clause>)
    requires n < |trail| && trail[n].pkg != ROOT && level >= 1
    requires trail[n] == Decision(trail[n].pkg, v, level + 1) && RunOk(trail[..n], level, requirements, clauses)
    requires Positive(trail[..n], trail[n].pkg) == Some(required) && Contains(required, v)
    requires forall j :: 0 <= j < n && trail[j].pkg == trail[n].pkg ==> trail[j].positive && !trail[j].decided
    ensures RunOk(trail[..n + 1], level + 1, requirements, clauses)
  {
    hide TrailOk, AllJustified, Contains;
    assert trail[..n + 1] == trail[..n] + [trail[n]];
    assert Permitted(trail[..n], trail[n].pkg, v);
    DecidingKeepsTrail(trail[..n], level, ROOT, V1, requirements, trail[n].pkg, v);
    JustifiedAppend(trail[..n], trail[n], clauses, 0);
  }

  /** ... with one positive entry. */
  lemma AfterDecision(trail: Trail, n: nat, i: nat, v: Version, level: nat,
                      requirements: seq<Dependency>, clauses: seq<Clause>)
    requires i < n < |trail| && trail[n].pkg == trail[i].pkg != ROOT && level >= 1
    requires trail[n] == Decision(trail[i].pkg, v, level + 1) && RunOk(trail[..n], level, requirements, clauses)
    requires trail[i].positive && !trail[i].decided && Contains(trail[i].range, v)
    requires forall j :: 0 <= j < n && j != i ==> trail[j].pkg != trail[n].pkg
    ensures RunOk(trail[..n + 1], level + 1, requirements, clauses)
  {
    hide RunOk, Contains;
    SoleRange(trail[..n], trail[n].pkg, i);
    AfterDecisionIn(trail, n, v, level, trail[i].range, requirements, clauses);
  }

  lemma AfterDerivation(trail: Trail, n: nat, k: nat, t: nat, level: nat,
                        requirements: seq<Dependency>, clauses: seq<Clause>)
    requires n < |trail| && k < |clauses| && t < |clauses[k].terms| && level >= 1
    requires trail[n] == Derived(clauses[k].terms[t], k, level) && RunOk(trail[..n], level, requirements, clauses)
    requires UnitAt(trail[..n], clauses[k].terms, t) && Proper(clauses[k].terms[t].range)
    ensures RunOk(trail[..n + 1], level, requirements, clauses)
  {
    hide TrailOk, AllJustified, StateOf;
    assert trail[..n + 1] == trail[..n] + [trail[n]];
    DerivingKeepsTrail(trail[..n], level, ROOT, V1, requirements, clauses[k].terms[t], k);
    JustifiedAppend(trail[..n], trail[n], clauses, t);
  }

  /* ------------------------------------------------------------------- verdicts */

  lemma Unseen(trail: Trail, pkg: PackageId)
    requires forall i :: 0 <= i < |trail| ==> trail[i].pkg != pkg
    ensures Positive(trail, pkg).None?
  {
    if Positive(trail, pkg).Some? {
      PositiveNeedsEntry(trail, pkg);
    }
  }

  /** A negative term on a package without entries is inconclusive. */
  lemma UnseenIsOpen(trail: Trail, t: Term)
    requires !t.positive && forall i :: 0 <= i < |trail| ==> trail[i].pkg != t.pkg
    ensures StateOf(trail, t) == Inconclusive
  {
    Unseen(trail, t.pkg);
  }

  lemma {:induction false} SoleRange(trail: Trail, pkg: PackageId, i: nat)
    requires i < |trail| && trail[i].pkg == pkg && trail[i].positive
    requires forall j :: 0 <= j < |trail| && j != i && trail[j].positive ==> trail[j].pkg != pkg
    ensures Positive(trail, pkg) == Some(trail[i].range)
  {
    var n := |trail| - 1;
    if i < n {
      SoleRange(trail[..n], pkg, i);
    } else {
      NoPositive(trail[..n], pkg);
    }
  }

  lemma {:induction false} NoPositive(trail: Trail, pkg: PackageId)
    requires forall j :: 0 <= j < |trail| && trail[j].positive ==> trail[j].pkg != pkg
    ensures Positive(trail, pkg).None?
  {
    if trail != [] {
      NoPositive(trail[..|trail| - 1], pkg);
    }
  }
}
