/** Incompatibilities ("clauses"): lists of terms that must not all hold, where
    they come from, and why every valid selection of versions breaks them. */
module Clauses {
  import opened Options
  import opened Versions
  import opened Ranges
  import opened Terms

  datatype Dependency = Dependency(pkg: PackageId, range: Range)

  /** The dependency provider as a deterministic function; None is its error return. */
  datatype Provider = Provider(
    versions: PackageId -> Option<seq<Version>>,
    dependencies: (PackageId, Version) -> Option<seq<Dependency>>)

  datatype Reason = DependencyReason | NoVersionsReason | InternalReason

  datatype Clause = Clause(terms: seq<Term>, reason: Reason, causes: seq<nat>)

  /** The provider's side of the bargain: only proper ranges. */
  ghost predicate ProviderOk(p: Provider) {
    forall pkg, v :: DependenciesOk(p.dependencies(pkg, v))
  }

  ghost predicate DependenciesOk(ds: Option<seq<Dependency>>) {
    ds.Some? ==> forall j :: 0 <= j < |ds.value| ==> Proper(ds.value[j].range)
  }

  function DependencyTerms(pkg: PackageId, v: Version, d: Dependency): seq<Term> {
    [Term(pkg, Exact(v), true), Term(d.pkg, d.range, false)]
  }

  ghost predicate ClausesProper(clauses: seq<Clause>) {
    forall k :: 0 <= k < |clauses| ==> TermsProper(clauses[k].terms)
  }

  ghost predicate TermsProper(terms: seq<Term>) {
    forall t :: 0 <= t < |terms| ==> Proper(terms[t].range)
  }

  /* --------------------------------------------------------------- solutions */

  /** What the user of the solver wants: a complete, consistent selection. */
  ghost predicate IsSolution(m: Model, p: Provider, root: PackageId, rootVersion: Version,
                             requirements: seq<Dependency>)
  {
    && root in m && m[root] == rootVersion
    && (forall r :: 0 <= r < |requirements| ==> Meets(m, requirements[r]))
    && (forall pkg :: pkg in m ==>
          && (pkg != root ==> p.versions(pkg).Some? && m[pkg] in p.versions(pkg).value)
          && DependenciesMet(m, p.dependencies(pkg, m[pkg])))
  }

  predicate Meets(m: Model, d: Dependency) {
    d.pkg in m && Contains(d.range, m[d.pkg])
  }

  ghost predicate DependenciesMet(m: Model, ds: Option<seq<Dependency>>) {
    ds.Some? && forall j :: 0 <= j < |ds.value| ==> Meets(m, ds.value[j])
  }

  /** A model breaks a clause when one of its terms fails. */
  ghost predicate Breaks(m: Model, terms: seq<Term>) {
    exists t :: 0 <= t < |terms| && !Holds(m, terms[t])
  }

  /* -------------------------------------------------------------- resolution */

  /** The terms that do not concern a package, in order. */
  function Without(terms: seq<Term>, pkg: PackageId): seq<Term> {
    if terms == [] then []
    else
      var last := terms[|terms| - 1];
      Without(terms[..|terms| - 1], pkg) + if last.pkg == pkg then [] else [last]
  }

  function Resolvent(left: seq<Term>, right: seq<Term>, pkg: PackageId): seq<Term> {
    Without(left, pkg) + Without(right, pkg)
  }

  lemma {:induction false} WithoutConcat(a: seq<Term>, b: seq<Term>, pkg: PackageId)
    ensures Without(a + b, pkg) == Without(a, pkg) + Without(b, pkg)
  {
    if b == [] {
      assert a + b == a;
    } else {
      var n := |b| - 1;
      assert (a + b)[..|a| + n] == a + b[..n];
      WithoutConcat(a, b[..n], pkg);
    }
  }

  /** The terms of both sides in order, left before right: what is left of each piece
      of the two lists stays in its place. */
  lemma ResolventInOrder(left: seq<Term>, right: seq<Term>, pkg: PackageId, before: seq<Term>, t: Term, after: seq<Term>)
    requires left + right == before + [t] + after
    ensures Resolvent(left, right, pkg) ==
            Without(before, pkg) + (if t.pkg == pkg then [] else [t]) + Without(after, pkg)
  {
    WithoutConcat(left, right, pkg);
    WithoutConcat(before + [t], after, pkg);
    WithoutConcat(before, [t], pkg);
    assert [t][..0] == [];
  }

  lemma {:induction false} WithoutMembers(terms: seq<Term>, pkg: PackageId)
    ensures forall t :: t in Without(terms, pkg) <==> t in terms && t.pkg != pkg
  {
    if terms != [] {
      var n := |terms| - 1;
      WithoutMembers(terms[..n], pkg);
      assert terms == terms[..n] + [terms[n]];
    }
  }

  lemma ResolventMembers(left: seq<Term>, right: seq<Term>, pkg: PackageId)
    ensures forall t :: t in Resolvent(left, right, pkg) <==> (t in left || t in right) && t.pkg != pkg
  {
    WithoutMembers(left, pkg);
    WithoutMembers(right, pkg);
  }

  lemma BreaksByMember(m: Model, terms: seq<Term>, t: Term)
    requires t in terms && !Holds(m, t)
    ensures Breaks(m, terms)
  {
  }

  /** Some choice for one package makes both sides fail on that package at once.
      None stands for not selecting the package. */
  ghost predicate Escapes(left: seq<Term>, right: seq<Term>, pkg: PackageId, choice: Option<Version>) {
    exists t, u :: t in left && t.pkg == pkg && u in right && u.pkg == pkg &&
                   !HoldsFor(choice, t) && !HoldsFor(choice, u)
  }

  predicate HoldsFor(choice: Option<Version>, t: Term) {
    t.positive == (choice.Some? && Contains(t.range, choice.value))
  }

  ghost predicate Follows(left: seq<Term>, right: seq<Term>, pkg: PackageId) {
    forall m :: Breaks(m, left) && Breaks(m, right) ==> Breaks(m, Resolvent(left, right, pkg))
  }

  function Choice(m: Model, pkg: PackageId): Option<Version> {
    if pkg in m then Some(m[pkg]) else None
  }

  /** Dropping every term on the eliminated package is sound when no choice for
      that package escapes both sides. */
  lemma ResolutionSound(left: seq<Term>, right: seq<Term>, pkg: PackageId, m: Model)
    requires !Escapes(left, right, pkg, Choice(m, pkg))
    requires Breaks(m, left) && Breaks(m, right)
    ensures Breaks(m, Resolvent(left, right, pkg))
  {
    ResolventMembers(left, right, pkg);
    var i :| 0 <= i < |left| && !Holds(m, left[i]);
    var j :| 0 <= j < |right| && !Holds(m, right[j]);
    assert left[i].pkg == pkg ==> !HoldsFor(Choice(m, pkg), left[i]);
    assert right[j].pkg == pkg ==> !HoldsFor(Choice(m, pkg), right[j]);
    BreaksByMember(m, Resolvent(left, right, pkg), if left[i].pkg != pkg then left[i] else right[j]);
  }

  /** A model that escapes both sides breaks both, but not what is left of them. */
  lemma EscapeBreaksBoth(left: seq<Term>, right: seq<Term>, pkg: PackageId, m: Model)
    requires Escapes(left, right, pkg, Choice(m, pkg))
    ensures Breaks(m, left) && Breaks(m, right)
  {
    var t, u :| t in left && t.pkg == pkg && u in right && u.pkg == pkg &&
                !HoldsFor(Choice(m, pkg), t) && !HoldsFor(Choice(m, pkg), u);
    BreaksByMember(m, left, t);
    BreaksByMember(m, right, u);
  }

  lemma OtherPackagesStay(left: seq<Term>, right: seq<Term>, pkg: PackageId, rest: Model, m: Model)
    requires !Breaks(rest, Resolvent(left, right, pkg))
    requires forall q :: q != pkg ==> Choice(m, q) == Choice(rest, q)
    ensures !Breaks(m, Resolvent(left, right, pkg))
  {
    var resolvent := Resolvent(left, right, pkg);
    ResolventMembers(left, right, pkg);
    forall k | 0 <= k < |resolvent| ensures Holds(m, resolvent[k]) {
      assert resolvent[k] in resolvent;
      assert Holds(rest, resolvent[k]);
      assert Choice(m, resolvent[k].pkg) == Choice(rest, resolvent[k].pkg);
    }
  }

  /** ... and only then, whenever the remaining terms can hold together. */
  lemma ResolutionSoundIff(left: seq<Term>, right: seq<Term>, pkg: PackageId, rest: Model)
    requires !Breaks(rest, Resolvent(left, right, pkg))
    ensures Follows(left, right, pkg) <==> forall choice :: !Escapes(left, right, pkg, choice)
  {
    hide Breaks, Escapes, Resolvent;
    if forall choice :: !Escapes(left, right, pkg, choice) {
      forall m | Breaks(m, left) && Breaks(m, right)
        ensures Breaks(m, Resolvent(left, right, pkg))
      {
        ResolutionSound(left, right, pkg, m);
      }
    } else {
      var choice :| Escapes(left, right, pkg, choice);
      var m := if choice.Some? then rest[pkg := choice.value] else rest - {pkg};
      assert Choice(m, pkg) == choice;
      EscapeBreaksBoth(left, right, pkg, m);
      OtherPackagesStay(left, right, pkg, rest, m);
    }
  }

  /** One term a side on the package, linked by a satisfier, leaves no escape. */
  lemma SatisfierLeavesNoEscape(left: seq<Term>, right: seq<Term>, i: nat, j: nat)
    requires i < |left| && j < |right| && left[i].pkg == right[j].pkg
    requires OnlyTermOn(left, i) && OnlyTermOn(right, j)
    requires Settles(Negated(right[j]), left[i])
    requires !left[i].range.isEmpty && !right[j].range.isEmpty
    ensures forall choice :: !Escapes(left, right, left[i].pkg, choice)
  {
    forall choice ensures HoldsFor(choice, right[j]) || HoldsFor(choice, left[i]) {
      var m: Model := if choice.Some? then map[left[i].pkg := choice.value] else map[];
      assert forall t: Term :: t.pkg == left[i].pkg ==> (Holds(m, t) <==> HoldsFor(choice, t));
      if !Holds(m, right[j]) {
        SettlesIsSound(m, Negated(right[j]), left[i]);
      }
    }
  }

  ghost predicate OnlyTermOn(terms: seq<Term>, i: nat)
    requires i < |terms|
  {
    forall k :: 0 <= k < |terms| && terms[k].pkg == terms[i].pkg ==> k == i
  }
}
