/** The backwards walk of conflict analysis: the shape of recorded clauses, why a
    resolution loses nothing, why the walk ends, and when a conflict has a satisfier. */
module Walk {
  import opened Options
  import opened Versions
  import opened Ranges
  import opened Terms
  import opened Clauses
  import opened Trails
  import opened Propagation
  import opened Selections
  import opened Analysis

  /* ------------------------------------------------- the shape of recorded clauses */

  ghost predicate OneNegative(terms: seq<Term>) {
    forall a, b :: a in terms && b in terms && !a.positive && !b.positive ==> a == b
  }

  /** Positive terms name one version each. */
  ghost predicate ExactPositives(terms: seq<Term>) {
    forall t :: t in terms && t.positive ==> t.range == Exact(t.range.lower.v)
  }

  ghost predicate WellShaped(terms: seq<Term>) {
    OneNegative(terms) && (|terms| >= 2 ==> ExactPositives(terms))
  }

  /** Every clause ever recorded has at most one negative term, and its positive
      terms are exact unless it is a no-versions clause, which has one term. */
  lemma {:induction false} RecordedShape(p: Provider, root: PackageId, rootVersion: Version,
                                         clauses: seq<Clause>, origins: seq<Origin>, k: nat)
    requires OriginsOk(p, root, rootVersion, clauses, origins) && k < |clauses|
    ensures OneNegative(clauses[k].terms)
    ensures if clauses[k].reason.NoVersionsReason? then |clauses[k].terms| == 1 else ExactPositives(clauses[k].terms)
    decreases k
  {
    assert OriginOk(p, root, rootVersion, clauses, k, origins[k]);
    match origins[k]
    case FromDependency(_, _, _) =>
    case FromNoVersions(_, _, _, _) =>
    case FromResolution(l, r, t, u) =>
      RecordedShape(p, root, rootVersion, clauses, origins, l);
      RecordedShape(p, root, rootVersion, clauses, origins, r);
      ResolventShape(clauses[l].terms, clauses[r].terms, t, u);
  }

  /** The satisfier links a positive with a negative term, or two negative ones, so
      one of the negative terms goes. */
  lemma ResolventShape(left: seq<Term>, right: seq<Term>, t: nat, u: nat)
    requires WellShaped(left) && WellShaped(right)
    requires t < |left| && u < |right| && left[t].pkg == right[u].pkg
    requires Settles(Negated(right[u]), left[t])
    ensures OneNegative(Resolvent(left, right, left[t].pkg))
    ensures ExactPositives(Resolvent(left, right, left[t].pkg))
  {
    var pkg := left[t].pkg;
    ResolventMembers(left, right, pkg);
    assert left[t] in left && right[u] in right;
    forall a | a in Resolvent(left, right, pkg) && a.positive ensures a.range == Exact(a.range.lower.v) {
      assert a in left ==> |left| >= 2;
      assert a in right ==> |right| >= 2;
    }
  }

  /* --------------------------------------------------------------- stepping back */

  /** Some entry carries the lower bound of the combined range, some entry the upper. */
  lemma {:induction false} BoundsFromEntries(trail: Trail, pkg: PackageId)
    requires Positive(trail, pkg).Some? && !Positive(trail, pkg).value.isEmpty
    ensures exists i :: CarriesLow(trail, pkg, i)
    ensures exists i :: CarriesHigh(trail, pkg, i)
  {
    var n := |trail| - 1;
    var init := trail[..n];
    if trail[n].pkg == pkg && trail[n].positive && Positive(init, pkg).None? {
      assert CarriesLow(trail, pkg, n) && CarriesHigh(trail, pkg, n);
    } else {
      BoundsFromEntries(init, pkg);
      var i :| CarriesLow(init, pkg, i);
      var j :| CarriesHigh(init, pkg, j);
      assert CarriesLow(trail, pkg, i) || CarriesLow(trail, pkg, n);
      assert CarriesHigh(trail, pkg, j) || CarriesHigh(trail, pkg, n);
    }
  }

  ghost predicate CarriesLow(trail: Trail, pkg: PackageId, i: int) {
    && 0 <= i < |trail| && trail[i].pkg == pkg && trail[i].positive && !trail[i].range.isEmpty
    && Positive(trail, pkg).Some? && LowKey(trail[i].range) == LowKey(Positive(trail, pkg).value)
  }

  ghost predicate CarriesHigh(trail: Trail, pkg: PackageId, i: int) {
    && 0 <= i < |trail| && trail[i].pkg == pkg && trail[i].positive && !trail[i].range.isEmpty
    && Positive(trail, pkg).Some? && HighKey(trail[i].range) == HighKey(Positive(trail, pkg).value)
  }

  /** Intervals: where a proper combined range misses a forbidden range, one entry
      alone misses it already. */
  lemma NegativeIsSettled(trail: Trail, term: Term)
    requires !term.positive && Proper(term.range) && StateOf(trail, term) == Satisfied
    requires Positive(trail, term.pkg).Some? && Proper(Positive(trail, term.pkg).value)
    ensures First(trail, term) < |trail|
  {
    hide First;
    BoundsFromEntries(trail, term.pkg);
    var i :| CarriesLow(trail, term.pkg, i);
    var j :| CarriesHigh(trail, term.pkg, j);
    assert Settles(Fact(trail[i]), term) || Settles(Fact(trail[j]), term);
  }

  /** Nothing is derived on a package any more once it is down to one version. */
  lemma NothingDerivedAtPoint(trail: Trail, clauses: seq<Clause>, n: nat, j: nat, v: Version)
    requires AllJustified(trail, clauses) && RangesProper(trail)
    requires n <= j < |trail| && PointAt(trail[..n], trail[j].pkg, v)
    ensures trail[j].cause.None?
  {
    if trail[j].cause.Some? {
      assert Justified(trail[..j], trail[j], clauses);
      var t: nat :| Explains(trail[..j], trail[j], clauses[trail[j].cause.value].terms, t);
      assert trail[..j][..n] == trail[..n];
      PointStays(trail[..j], n, trail[j].pkg, v);
      PointIsConclusive(trail[..j], clauses[trail[j].cause.value].terms[t], v);
    }
  }

  /** A term is settled below an index, or where the walk stops anyway: nowhere, or
      at an entry without a cause. */
  ghost predicate WithinReach(trail: Trail, t: Term, bound: nat) {
    var i := First(trail, t);
    i < bound || i == |trail| || trail[i].cause.None?
  }

  ghost predicate AllWithinReach(trail: Trail, terms: seq<Term>, bound: nat) {
    forall u :: 0 <= u < |terms| ==> WithinReach(trail, terms[u], bound)
  }

  lemma EverythingWithinReach(trail: Trail, terms: seq<Term>)
    ensures AllWithinReach(trail, terms, |trail|)
  {
  }

  lemma CausedIsBelow(trail: Trail, terms: seq<Term>, i: nat, t: nat, bound: nat)
    requires AllWithinReach(trail, terms, bound) && SatisfierAt(trail, terms, i, t)
    requires i < |trail| && trail[i].cause.Some?
    ensures i < bound
  {
    assert WithinReach(trail, terms[t], bound);
  }

  lemma FirstInPrefix(trail: Trail, n: nat, t: Term)
    requires n <= |trail| && First(trail[..n], t) < n
    ensures First(trail, t) == First(trail[..n], t)
  {
    FirstUnique(trail, t, First(trail[..n], t));
  }

  lemma FirstOnPackage(trail: Trail, t: Term)
    requires First(trail, t) < |trail|
    ensures trail[First(trail, t)].pkg == t.pkg
  {
  }

  /** A satisfied term has its package down to one version, or is negative and
      misses a proper combined range. */
  lemma PointOrProper(trail: Trail, t: Term, v: Version)
    requires RangesProper(trail) && StateOf(trail, t) == Satisfied
    requires t.positive ==> t.range == Exact(v)
    ensures PointAt(trail, t.pkg, v) ||
            (!t.positive && Positive(trail, t.pkg).Some? && Proper(Positive(trail, t.pkg).value))
  {
    PositiveHonest(trail, t.pkg);
  }

  /** What a prefix satisfies is within reach of that prefix. */
  lemma SatisfiedIsWithinReach(trail: Trail, clauses: seq<Clause>, n: nat, t: Term)
    requires AllJustified(trail, clauses) && RangesProper(trail) && n <= |trail|
    requires StateOf(trail[..n], t) == Satisfied && Proper(t.range)
    requires t.positive ==> t.range == Exact(t.range.lower.v)
    ensures WithinReach(trail, t, n)
  {
    hide First, AllJustified, StateOf, Settles, PointAt;
    var v := if t.positive then t.range.lower.v else ZERO;
    var i := First(trail, t);
    PointOrProper(trail[..n], t, v);
    if PointAt(trail[..n], t.pkg, v) {
      if n <= i < |trail| {
        FirstOnPackage(trail, t);
        NothingDerivedAtPoint(trail, clauses, n, i, v);
      }
    } else {
      NegativeIsSettled(trail[..n], t);
      FirstInPrefix(trail, n, t);
    }
  }

  /** Everything left after a resolution is within reach of the satisfier. */
  lemma StepBack(trail: Trail, clauses: seq<Clause>, left: seq<Term>, i: nat, t: nat)
    requires AllJustified(trail, clauses) && RangesProper(trail) && SatisfierAt(trail, left, i, t)
    requires trail[i].cause.Some? && trail[i].cause.value < |clauses|
    requires var right := clauses[trail[i].cause.value].terms; TermsProper(right) && WellShaped(right)
    ensures AllWithinReach(trail, Resolvent(left, clauses[trail[i].cause.value].terms, left[t].pkg), i)
  {
    hide First, StateOf, Settles;
    var right := clauses[trail[i].cause.value].terms;
    var resolvent := Resolvent(left, right, left[t].pkg);
    assert Justified(trail[..i], trail[i], clauses);
    var u :| Explains(trail[..i], trail[i], right, u);
    SatisfierFacts(trail, left, i, t);
    ResolventMembers(left, right, left[t].pkg);
    forall k | 0 <= k < |resolvent| ensures WithinReach(trail, resolvent[k], i) {
      assert resolvent[k] in resolvent;
      if resolvent[k] in left {
        var x :| 0 <= x < |left| && left[x] == resolvent[k];
        SettledElsewhere(trail, resolvent[k], i);
      } else {
        var y :| 0 <= y < |right| && right[y] == resolvent[k];
        assert y != u;
        SatisfiedIsWithinReach(trail, clauses, i, right[y]);
      }
    }
  }

  lemma SettledElsewhere(trail: Trail, t: Term, i: nat)
    requires i < |trail| && First(trail, t) <= i && trail[i].pkg != t.pkg
    ensures First(trail, t) < i
  {
  }

  /** The walk moves strictly back: the next satisfier is an earlier entry, or a
      decision, at which the walk stops. */
  lemma AnalysisStepsBack(trail: Trail, level: nat, root: PackageId, rootVersion: Version,
                          requirements: seq<Dependency>, p: Provider, clauses: seq<Clause>, origins: seq<Origin>,
                          left: seq<Term>, i: nat, t: nat, i': nat, t': nat)
    requires TrailOk(trail, level, root, rootVersion, requirements) && AllJustified(trail, clauses)
    requires OriginsOk(p, root, rootVersion, clauses, origins) && ClausesProper(clauses)
    requires SatisfierAt(trail, left, i, t)
    requires trail[i].cause.Some? && trail[i].cause.value < |clauses|
    requires SatisfierAt(trail, Resolvent(left, clauses[trail[i].cause.value].terms, left[t].pkg), i', t')
    ensures i' < i || trail[i'].decided
  {
    hide First, StateOf, OriginsOk, AllJustified, Resolvent;
    var k := trail[i].cause.value;
    LayeredRanges(trail, level, root, rootVersion);
    RecordedShape(p, root, rootVersion, clauses, origins, k);
    StepBack(trail, clauses, left, i, t);
    var resolvent := Resolvent(left, clauses[k].terms, left[t].pkg);
    assert WithinReach(trail, resolvent[t'], i);
    assert WellKinded(trail[i]) && WellKinded(trail[i']);
    assert i' >= i ==> trail[i'].level >= trail[i].level >= 1;
  }

  /* ---------------------------------------------------------- resolutions are sound */

  lemma {:induction false} SatisfiedStays(trail: Trail, n: nat, t: Term)
    requires n <= |trail| && StateOf(trail[..n], t) == Satisfied
    ensures StateOf(trail, t) == Satisfied
  {
    hide StateOf;
    if n < |trail| {
      var m := |trail| - 1;
      assert trail[..m][..n] == trail[..n] && trail == trail[..m] + [trail[m]];
      SatisfiedStays(trail[..m], n, t);
      StateSettles(trail[..m], trail[m], t);
    } else {
      assert trail[..n] == trail;
    }
  }

  /** The walk goes from conflict to conflict. */
  lemma ResolventSatisfied(trail: Trail, left: seq<Term>, right: seq<Term>, n: nat, u: nat)
    requires n <= |trail| && AllSatisfied(trail, left) && UnitAt(trail[..n], right, u)
    ensures AllSatisfied(trail, Resolvent(left, right, right[u].pkg))
  {
    hide StateOf;
    var resolvent := Resolvent(left, right, right[u].pkg);
    ResolventMembers(left, right, right[u].pkg);
    forall k | 0 <= k < |resolvent| ensures StateOf(trail, resolvent[k]) == Satisfied {
      assert resolvent[k] in resolvent;
      if resolvent[k] !in left {
        var y :| 0 <= y < |right| && right[y] == resolvent[k];
        assert y != u;
        SatisfiedStays(trail, n, right[y]);
      }
    }
  }

  /** Nothing is ever derived about the root package. */
  lemma DerivedIsNotRoot(trail: Trail, level: nat, root: PackageId, rootVersion: Version,
                         requirements: seq<Dependency>, clauses: seq<Clause>, i: nat)
    requires TrailOk(trail, level, root, rootVersion, requirements) && AllJustified(trail, clauses)
    requires i < |trail| && trail[i].cause.Some?
    ensures trail[i].pkg != root
  {
    var r := |requirements|;
    assert WellKinded(trail[i]) && trail[i].level <= level;
    RootDecisionFollows(trail, level, root, rootVersion, requirements);
    assert i > r;
    LayeredRanges(trail, level, root, rootVersion);
    PointByEntry(trail[..i], r, rootVersion);
    if trail[i].pkg == root {
      NothingDerivedAtPoint(trail, clauses, i, i, rootVersion);
    }
  }

  /** Beside the open term of a clause no positive one concerns the same package. */
  lemma BesideOpenTerm(before: Trail, terms: seq<Term>, u: nat, y: nat)
    requires RangesProper(before) && UnitAt(before, terms, u) && WellShaped(terms)
    requires y < |terms| && y != u && terms[y].pkg == terms[u].pkg
    ensures !terms[y].positive
  {
    if terms[y].positive {
      assert terms[y] in terms;
      PointIsConclusive(before, terms[u], terms[y].range.lower.v);
    }
  }

  lemma NegativeOpenIsAlone(before: Trail, terms: seq<Term>, u: nat, y: nat)
    requires RangesProper(before) && UnitAt(before, terms, u) && WellShaped(terms) && !terms[u].positive
    requires y < |terms| && terms[y].pkg == terms[u].pkg
    ensures y == u
  {
    assert terms[y] in terms && terms[u] in terms;
  }

  /** A positive term settled before a package's open term concerns another package. */
  lemma SettledBeforeOpenTerm(trail: Trail, i: nat, t: Term, open: Term)
    requires RangesProper(trail) && i <= |trail| && First(trail, t) < i
    requires StateOf(trail[..i], open) == Inconclusive && open.pkg == t.pkg
    requires t.positive ==> t.range == Exact(t.range.lower.v)
    ensures !t.positive
  {
    if t.positive {
      var f := First(trail, t);
      assert trail[..i][f] == trail[f];
      PointByEntry(trail[..i], f, t.range.lower.v);
      PointIsConclusive(trail[..i], open, t.range.lower.v);
    }
  }

  /** The satisfier of one clause and the open term of its cause: what a resolution
      of the walk has in hand. */
  ghost predicate Linked(trail: Trail, left: seq<Term>, right: seq<Term>, i: nat, t: nat, u: nat) {
    && SatisfierAt(trail, left, i, t) && AllSatisfied(trail, left)
    && Explains(trail[..i], trail[i], right, u)
    && RangesProper(trail) && TermsProper(left) && TermsProper(right)
    && WellShaped(left) && WellShaped(right)
    && Positive(trail, trail[i].pkg).Some? && Proper(Positive(trail, trail[i].pkg).value)
  }

  lemma LinkedFacts(trail: Trail, left: seq<Term>, right: seq<Term>, i: nat, t: nat, u: nat)
    requires Linked(trail, left, right, i, t, u)
    ensures i < |trail| && t < |left| && u < |right| && left[t].pkg == right[u].pkg == trail[i].pkg
    ensures Fact(trail[i]) == Negated(right[u]) && Settles(Fact(trail[i]), left[t])
    ensures Proper(left[t].range) && Proper(right[u].range)
    ensures StateOf(trail[..i], right[u]) == Inconclusive && StateOf(trail, left[t]) == Satisfied
    ensures RangesProper(trail) && RangesProper(trail[..i])
    ensures Positive(trail, left[t].pkg).Some? && Proper(Positive(trail, left[t].pkg).value)
    ensures UnitAt(trail[..i], right, u) && WellShaped(right)
  {
  }

  lemma LinkedLeft(trail: Trail, left: seq<Term>, right: seq<Term>, i: nat, t: nat, u: nat, x: nat)
    requires Linked(trail, left, right, i, t, u) && t < |left| && x < |left|
    ensures Proper(left[x].range) && StateOf(trail, left[x]) == Satisfied
    ensures First(trail, left[x]) <= i == First(trail, left[t])
    ensures First(trail, left[x]) == i ==> i < |trail| && Settles(Fact(trail[i]), left[x])
    ensures First(trail, left[x]) < i && left[x].positive ==> left[x].range == Exact(left[x].range.lower.v)
    ensures First(trail, left[x]) < i && left[t].positive ==> left[t].range == Exact(left[t].range.lower.v)
    ensures left[x].positive || left[t].positive || left[x] == left[t]
  {
    hide StateOf, Settles, Exact;
    assert left[x] in left && left[t] in left;
    assert First(trail, left[x]) < i ==> x != t && |left| >= 2;
  }

  lemma LinkedRight(trail: Trail, left: seq<Term>, right: seq<Term>, i: nat, t: nat, u: nat, y: nat)
    requires Linked(trail, left, right, i, t, u) && u < |right| && y < |right| && y != u
    ensures StateOf(trail[..i], right[y]) == Satisfied
    ensures right[u].positive ==> right[u].range == Exact(right[u].range.lower.v)
  {
    hide StateOf, Settles, Exact;
    assert right[u] in right;
  }

  /** The satisfier is positive: where it holds, so does each term of the left side. */
  lemma PositiveLink(trail: Trail, left: seq<Term>, right: seq<Term>, i: nat, t: nat, u: nat, x: nat, c: Version)
    requires Linked(trail, left, right, i, t, u) && t < |left| && u < |right| && !right[u].positive
    requires x < |left| && left[x].pkg == left[t].pkg && Contains(right[u].range, c)
    ensures left[x].positive == Contains(left[x].range, c)
  {
    hide *;
    LinkedFacts(trail, left, right, i, t, u);
    LinkedLeft(trail, left, right, i, t, u, x);
    var fact := Fact(trail[i]);
    if First(trail, left[x]) == i {
      SettledContains(fact, right[u], left[x], c);
    } else {
      SettledBeforeOpenTerm(trail, i, left[x], right[u]);
      SettledContains(fact, right[u], left[t], c);
      PositiveSettles(fact, right[u], left[t]);
      ExactContainsOne(left[t].range.lower.v, c);
      SatisfiedPoint(trail, left[t], left[x], c);
    }
  }

  /** A positive fact settles a term that holds wherever the fact does. */
  lemma SettledContains(fact: Term, u: Term, t: Term, c: Version)
    requires fact == Negated(u) && Settles(fact, t) && !u.positive
    requires Contains(u.range, c) && Proper(t.range)
    ensures t.positive == Contains(t.range, c)
  {
    IntersectIsConjunction(u.range, t.range, c);
  }

  /** Two facts of opposite sign on the sides of a resolution. */
  lemma PositiveSettles(fact: Term, u: Term, t: Term)
    requires fact == Negated(u) && Settles(fact, t)
    ensures u.positive ==> !t.positive && Subset(t.range, u.range)
  {
  }

  /** Where a combined range is down to one version, satisfied negative terms miss it. */
  lemma SatisfiedPoint(trail: Trail, t: Term, x: Term, c: Version)
    requires t.pkg == x.pkg && t.positive && !x.positive && t.range == Exact(c)
    requires StateOf(trail, t) == Satisfied && StateOf(trail, x) == Satisfied
    requires Positive(trail, t.pkg).Some? && Proper(Positive(trail, t.pkg).value)
    ensures !Contains(x.range, c)
  {
    IntersectIsConjunction(Positive(trail, t.pkg).value, x.range, c);
  }

  /** The satisfier is negative: the left side has one term on the package ... */
  lemma NegativeLinkLeft(trail: Trail, left: seq<Term>, right: seq<Term>, i: nat, t: nat, u: nat, x: nat)
    requires Linked(trail, left, right, i, t, u) && t < |left| && u < |right| && right[u].positive
    requires x < |left| && left[x].pkg == left[t].pkg
    ensures left[x] == left[t] && !left[x].positive
  {
    hide *;
    LinkedFacts(trail, left, right, i, t, u);
    LinkedLeft(trail, left, right, i, t, u, x);
    PositiveSettles(Fact(trail[i]), right[u], left[t]);
    if First(trail, left[x]) == i {
      PositiveSettles(Fact(trail[i]), right[u], left[x]);
    } else {
      SettledBeforeOpenTerm(trail, i, left[x], right[u]);
    }
  }

  /** ... and where it fails every term of the right side holds. */
  lemma NegativeLinkRight(trail: Trail, left: seq<Term>, right: seq<Term>, i: nat, t: nat, u: nat, y: nat, c: Version)
    requires Linked(trail, left, right, i, t, u) && t < |left| && u < |right| && right[u].positive
    requires y < |right| && right[y].pkg == right[u].pkg && Contains(left[t].range, c)
    ensures right[y].positive == Contains(right[y].range, c)
  {
    hide *;
    LinkedFacts(trail, left, right, i, t, u);
    PositiveSettles(Fact(trail[i]), right[u], left[t]);
    ProperUnflagged(right[u].range);
    SubsetMembers(left[t].range, right[u].range, c);
    if y != u {
      LinkedRight(trail, left, right, i, t, u, y);
      BesideOpenTerm(trail[..i], right, u, y);
      ExactContainsOne(right[u].range.lower.v, c);
      OpenPoint(trail[..i], right[u], right[y], c);
    }
  }

  lemma ProperUnflagged(r: Range)
    requires Proper(r)
    ensures !r.isEmpty
  {
  }

  lemma OpenPoint(before: Trail, u: Term, y: Term, c: Version)
    requires u.pkg == y.pkg && u.positive && !y.positive && u.range == Exact(c)
    requires StateOf(before, u) == Inconclusive && StateOf(before, y) == Satisfied
    ensures !Contains(y.range, c)
  {
    hide Intersect, Contains, Exact, Overlapped, Subset;
    MeetsExact(Positive(before, u.pkg).value, c);
    IntersectIsConjunction(Positive(before, u.pkg).value, y.range, c);
  }

  lemma HoldsForChoice(choice: Option<Version>, t: Term)
    ensures HoldsFor(choice, t) <==> if choice.Some? then t.positive == Contains(t.range, choice.value) else !t.positive
  {
  }

  lemma PairHolds(trail: Trail, left: seq<Term>, right: seq<Term>, i: nat, t: nat, u: nat, x: nat, y: nat,
                  choice: Option<Version>)
    requires Linked(trail, left, right, i, t, u) && t < |left| && u < |right|
    requires x < |left| && left[x].pkg == left[t].pkg
    requires y < |right| && right[y].pkg == left[t].pkg
    ensures HoldsFor(choice, left[x]) || HoldsFor(choice, right[y])
  {
    hide *;
    LinkedFacts(trail, left, right, i, t, u);
    HoldsForChoice(choice, left[x]);
    HoldsForChoice(choice, right[y]);
    if right[u].positive {
      NegativeLinkLeft(trail, left, right, i, t, u, x);
      if choice.Some? && Contains(left[t].range, choice.value) {
        NegativeLinkRight(trail, left, right, i, t, u, y, choice.value);
      }
    } else {
      NegativeOpenIsAlone(trail[..i], right, u, y);
      if choice.Some? && Contains(right[u].range, choice.value) {
        PositiveLink(trail, left, right, i, t, u, x, choice.value);
      }
    }
  }

  /** No resolution of the walk loses anything: no choice for the eliminated package
      fails a dropped term on both sides. */
  lemma EliminationLeavesNoEscape(trail: Trail, left: seq<Term>, right: seq<Term>, i: nat, t: nat, u: nat)
    requires Linked(trail, left, right, i, t, u) && t < |left| && u < |right|
    ensures forall choice :: !Escapes(left, right, left[t].pkg, choice)
  {
    LinkedFacts(trail, left, right, i, t, u);
    hide Linked, Settles, WellShaped, HoldsFor, StateOf;
    forall choice, a, b | a in left && a.pkg == left[t].pkg && b in right && b.pkg == left[t].pkg
      ensures HoldsFor(choice, a) || HoldsFor(choice, b)
    {
      var x: nat :| x < |left| && left[x] == a;
      var y: nat :| y < |right| && right[y] == b;
      PairHolds(trail, left, right, i, t, u, x, y, choice);
    }
  }

  lemma LinkFromState(p: Provider, trail: Trail, level: nat, root: PackageId, rootVersion: Version,
                      requirements: seq<Dependency>, clauses: seq<Clause>, origins: seq<Origin>,
                      left: nat, i: nat, t: nat)
    returns (u: nat)
    requires TrailOk(trail, level, root, rootVersion, requirements) && AllJustified(trail, clauses)
    requires OriginsOk(p, root, rootVersion, clauses, origins) && ClausesProper(clauses)
    requires left < |clauses| && AllSatisfied(trail, clauses[left].terms)
    requires SatisfierAt(trail, clauses[left].terms, i, t) && trail[i].cause.Some?
    ensures trail[i].cause.value < |clauses|
    ensures Linked(trail, clauses[left].terms, clauses[trail[i].cause.value].terms, i, t, u)
  {
    hide StateOf, First, OriginsOk, RangesProper, Settles;
    assert Justified(trail[..i], trail[i], clauses);
    var right := trail[i].cause.value;
    u :| Explains(trail[..i], trail[i], clauses[right].terms, u);
    LayeredRanges(trail, level, root, rootVersion);
    RecordedShape(p, root, rootVersion, clauses, origins, left);
    RecordedShape(p, root, rootVersion, clauses, origins, right);
    DerivedIsNotRoot(trail, level, root, rootVersion, requirements, clauses, i);
    SatisfierFacts(trail, clauses[left].terms, i, t);
    SatisfiedNeedsRange(trail, clauses[left].terms[t]);
  }

  lemma SatisfiedNeedsRange(trail: Trail, t: Term)
    requires StateOf(trail, t) == Satisfied
    ensures Positive(trail, t.pkg).Some?
  {
  }

  /** One resolution of the walk: the resolvent is proper and still in conflict, its
      origin is on record and loses nothing, and it is within reach of the satisfier. */
  lemma ResolutionStep(p: Provider, trail: Trail, level: nat, root: PackageId, rootVersion: Version,
                       requirements: seq<Dependency>, clauses: seq<Clause>, origins: seq<Origin>,
                       left: nat, i: nat, t: nat, terms: seq<Term>)
    returns (o: Origin)
    requires TrailOk(trail, level, root, rootVersion, requirements) && AllJustified(trail, clauses)
    requires OriginsOk(p, root, rootVersion, clauses, origins) && ClausesProper(clauses)
    requires left < |clauses| && AllSatisfied(trail, clauses[left].terms)
    requires SatisfierAt(trail, clauses[left].terms, i, t) && i < |trail| && t < |clauses[left].terms|
    requires trail[i].cause.Some? && trail[i].cause.value < |clauses|
    requires terms == Resolvent(clauses[left].terms, clauses[trail[i].cause.value].terms, clauses[left].terms[t].pkg)
    ensures var c := Clause(terms, InternalReason, [left, trail[i].cause.value]);
            ClausesProper(clauses + [c]) && OriginsOk(p, root, rootVersion, clauses + [c], origins + [o])
    ensures AllSatisfied(trail, terms) && AllWithinReach(trail, terms, i)
  {
    hide StateOf, First, OriginsOk, RangesProper, Settles, TrailOk, SatisfierAt, AllJustified;
    var right := trail[i].cause.value;
    var u := LinkFromState(p, trail, level, root, rootVersion, requirements, clauses, origins, left, i, t);
    LinkedFacts(trail, clauses[left].terms, clauses[right].terms, i, t, u);
    EliminationLeavesNoEscape(trail, clauses[left].terms, clauses[right].terms, i, t, u);
    StepBack(trail, clauses, clauses[left].terms, i, t);
    ResolventSatisfied(trail, clauses[left].terms, clauses[right].terms, i, u);
    o := FromResolution(left, right, t, u);
    OriginsAppend(p, root, rootVersion, clauses, origins, Clause(terms, InternalReason, [left, right]), o);
    ResolventProper(clauses, left, right, clauses[left].terms[t].pkg, Clause(terms, InternalReason, [left, right]));
  }

  lemma ResolventProper(clauses: seq<Clause>, left: nat, right: nat, pkg: PackageId, c: Clause)
    requires ClausesProper(clauses) && left < |clauses| && right < |clauses|
    requires c.terms == Resolvent(clauses[left].terms, clauses[right].terms, pkg)
    ensures ClausesProper(clauses + [c])
  {
    hide Proper;
    ResolventMembers(clauses[left].terms, clauses[right].terms, pkg);
    assert TermsProper(clauses[left].terms) && TermsProper(clauses[right].terms);
    forall k | 0 <= k < |c.terms| ensures Proper(c.terms[k].range) {
      assert c.terms[k] in c.terms;
    }
  }

  /* ---------------------------------------------------- when there is a satisfier */

  lemma ExactByKeys(r: Range, v: Version)
    requires Proper(r) && Subset(r, Exact(v))
    ensures IsExact(r)
  {
    RankBound(v);
  }

  lemma SamePoint(r: Range, e: Range, v: Version)
    requires Proper(r) && Subset(r, Exact(v)) && Subset(r, e) && IsExact(e)
    ensures Subset(e, Exact(v))
  {
  }

  lemma SettledFirst(trail: Trail, t: Term, i: nat)
    requires i < |trail| && Settles(Fact(trail[i]), t)
    ensures First(trail, t) < |trail|
  {
    hide Settles;
  }

  /** A satisfied exact term is settled by one entry exactly when its package has an
      exact entry. */
  lemma PositiveIsSettled(trail: Trail, t: Term, v: Version)
    requires RangesProper(trail) && StateOf(trail, t) == Satisfied && t.positive && t.range == Exact(v)
    requires Positive(trail, t.pkg).Some? && Proper(Positive(trail, t.pkg).value)
    ensures First(trail, t) < |trail| <==> Selected(trail, t.pkg).Some?
  {
    hide First, Subset, Exact, IsExact, Proper, Selected;
    SelectedIsOneOf(trail, t.pkg);
    if First(trail, t) < |trail| {
      var i := First(trail, t);
      ExactByKeys(trail[i].range, v);
      assert Names(trail[i], t.pkg);
    }
    if Selected(trail, t.pkg).Some? {
      var i: nat :| i < |trail| && Names(trail[i], t.pkg);
      PositiveWithin(trail, t.pkg, i);
      SamePoint(Positive(trail, t.pkg).value, trail[i].range, v);
      SettledFirst(trail, t, i);
    }
  }

  /** The root decision settles the positive terms on the root package. */
  lemma RootIsSettled(trail: Trail, level: nat, root: PackageId, rootVersion: Version,
                      requirements: seq<Dependency>, t: Term)
    requires TrailOk(trail, level, root, rootVersion, requirements) && level >= 1
    requires t == Term(root, Exact(rootVersion), true)
    ensures First(trail, t) < |trail| && Selected(trail, root).Some?
  {
    hide First, Selected;
    var r := |requirements|;
    RootDecisionFollows(trail, level, root, rootVersion, requirements);
    SettledFirst(trail, t, r);
    SelectedIsOneOf(trail, root);
    assert Names(trail[r], root);
  }

  /** The root version, or one requirement on the root package, lies outside a range.
      Where no requirement excludes the root version, satisfied terms see to that. */
  ghost predicate MissedAtRoot(requirements: seq<Dependency>, root: PackageId, rootVersion: Version, range: Range) {
    !Contains(range, rootVersion) || exists r :: RequirementMisses(requirements, r, root, range)
  }

  ghost predicate RequirementMisses(requirements: seq<Dependency>, r: int, root: PackageId, range: Range) {
    0 <= r < |requirements| && requirements[r].pkg == root && Intersect(requirements[r].range, range).isEmpty
  }

  lemma NegativeRootIsSettled(trail: Trail, level: nat, root: PackageId, rootVersion: Version,
                              requirements: seq<Dependency>, clauses: seq<Clause>, t: Term)
    requires TrailOk(trail, level, root, rootVersion, requirements) && level >= 1 && AllJustified(trail, clauses)
    requires t.pkg == root && !t.positive && Proper(t.range)
    ensures First(trail, t) < |trail| <==> MissedAtRoot(requirements, root, rootVersion, t.range)
  {
    hide First, Contains, Exact, AllJustified;
    var n := |requirements|;
    RootDecisionFollows(trail, level, root, rootVersion, requirements);
    MissesExact(t.range, rootVersion);
    if First(trail, t) < |trail| {
      var i := First(trail, t);
      if trail[i].cause.Some? {
        DerivedIsNotRoot(trail, level, root, rootVersion, requirements, clauses, i);
      }
      assert WellKinded(trail[i]);
      assert i < n ==> RequirementMisses(requirements, i, root, t.range);
    }
    if !Contains(t.range, rootVersion) {
      SettledFirst(trail, t, n);
    } else if exists r :: RequirementMisses(requirements, r, root, t.range) {
      var r: int :| RequirementMisses(requirements, r, root, t.range);
      SettledFirst(trail, t, r);
    }
  }

  lemma MissesExact(r: Range, v: Version)
    requires Proper(r)
    ensures Intersect(Exact(v), r).isEmpty <==> !Contains(r, v)
  {
    hide Intersect, Contains;
  }

  /** A positive entry of the package at least as tight as a range at one end. */
  ghost predicate ReachesLow(trail: Trail, t: Term, i: int) {
    0 <= i < |trail| && trail[i].pkg == t.pkg && trail[i].positive && LowKey(trail[i].range) >= LowKey(t.range)
  }

  ghost predicate ReachesHigh(trail: Trail, t: Term, i: int) {
    0 <= i < |trail| && trail[i].pkg == t.pkg && trail[i].positive && HighKey(trail[i].range) <= HighKey(t.range)
  }

  ghost predicate OneReachesBoth(trail: Trail, t: Term) {
    exists i :: ReachesLow(trail, t, i) && ReachesHigh(trail, t, i)
  }

  /** A satisfied positive term has an entry for each of its bounds, and is settled
      by a single entry exactly when one entry serves for both. */
  lemma BothBoundsExact(trail: Trail, t: Term)
    requires RangesProper(trail) && t.positive && StateOf(trail, t) == Satisfied
    requires Positive(trail, t.pkg).Some? && Proper(Positive(trail, t.pkg).value)
    ensures exists i :: ReachesLow(trail, t, i)
    ensures exists i :: ReachesHigh(trail, t, i)
    ensures First(trail, t) < |trail| <==> OneReachesBoth(trail, t)
  {
    hide First;
    BoundsFromEntries(trail, t.pkg);
    var i :| CarriesLow(trail, t.pkg, i);
    var j :| CarriesHigh(trail, t.pkg, j);
    assert ReachesLow(trail, t, i) && ReachesHigh(trail, t, j);
    if First(trail, t) < |trail| {
      assert ReachesLow(trail, t, First(trail, t)) && ReachesHigh(trail, t, First(trail, t));
    }
    if OneReachesBoth(trail, t) {
      var b: int :| ReachesLow(trail, t, b) && ReachesHigh(trail, t, b);
      SettledFirst(trail, t, b);
    }
  }

  /** One entry carries both bounds of a package's combined range. */
  ghost predicate OneCarriesBoth(trail: Trail, pkg: PackageId) {
    exists i :: CarriesLow(trail, pkg, i) && CarriesHigh(trail, pkg, i)
  }

  /** The no-versions clause recorded for a package without candidates: it names the
      combined range, so it has a satisfier exactly when one entry is that range. */
  lemma FreshNoVersionsExact(trail: Trail, level: nat, root: PackageId, rootVersion: Version,
                             requirements: seq<Dependency>, t: Term)
    requires TrailOk(trail, level, root, rootVersion, requirements) && t.pkg != root
    requires t.positive && Positive(trail, t.pkg) == Some(t.range)
    ensures SettledBelow(trail, [t], |trail|) <==> OneCarriesBoth(trail, t.pkg)
  {
    hide First, StateOf;
    LayeredRanges(trail, level, root, rootVersion);
    InRangeIsSatisfied(trail, t);
    BothBoundsExact(trail, t);
    forall i | 0 <= i < |trail| && trail[i].pkg == t.pkg && trail[i].positive
      ensures ReachesLow(trail, t, i) <==> CarriesLow(trail, t.pkg, i)
      ensures ReachesHigh(trail, t, i) <==> CarriesHigh(trail, t.pkg, i)
    {
      PositiveWithin(trail, t.pkg, i);
    }
    assert OneReachesBoth(trail, t) <==> OneCarriesBoth(trail, t.pkg);
    assert SettledBelow(trail, [t], |trail|) <==> First(trail, [t][0]) < |trail|;
  }

  lemma InRangeIsSatisfied(trail: Trail, t: Term)
    requires t.positive && Positive(trail, t.pkg) == Some(t.range)
    ensures StateOf(trail, t) == Satisfied
  {
  }

  /** What a term needs to be settled by a single entry once it is satisfied. */
  ghost predicate SingleEntryFor(trail: Trail, root: PackageId, rootVersion: Version,
                                 requirements: seq<Dependency>, t: Term) {
    if !t.positive then t.pkg == root ==> MissedAtRoot(requirements, root, rootVersion, t.range)
    else if t.range == Exact(t.range.lower.v) then Selected(trail, t.pkg).Some?
    else OneReachesBoth(trail, t)
  }

  /** A conflict has a satisfier if and only if the package of each exact positive
      term has an exact entry on the trail, one entry serves for both bounds of each
      other positive term, and the root package misses each negative term on it. */
  lemma SatisfierExact(p: Provider, trail: Trail, level: nat, root: PackageId, rootVersion: Version,
                       requirements: seq<Dependency>, clauses: seq<Clause>, origins: seq<Origin>, k: nat)
    requires TrailOk(trail, level, root, rootVersion, requirements) && level >= 1 && AllJustified(trail, clauses)
    requires OriginsOk(p, root, rootVersion, clauses, origins) && ClausesProper(clauses)
    requires k < |clauses| && AllSatisfied(trail, clauses[k].terms)
    ensures SettledBelow(trail, clauses[k].terms, |trail|) <==>
            forall u :: 0 <= u < |clauses[k].terms| ==>
              SingleEntryFor(trail, root, rootVersion, requirements, clauses[k].terms[u])
  {
    hide First, SingleEntryFor, TrailOk, AllJustified, OriginsOk, StateOf;
    var terms := clauses[k].terms;
    forall u | 0 <= u < |terms|
      ensures First(trail, terms[u]) < |trail| <==> SingleEntryFor(trail, root, rootVersion, requirements, terms[u])
    {
      SatisfierExactAt(p, trail, level, root, rootVersion, requirements, clauses, origins, k, u);
    }
  }

  lemma SatisfierExactAt(p: Provider, trail: Trail, level: nat, root: PackageId, rootVersion: Version,
                         requirements: seq<Dependency>, clauses: seq<Clause>, origins: seq<Origin>, k: nat, u: nat)
    requires TrailOk(trail, level, root, rootVersion, requirements) && level >= 1 && AllJustified(trail, clauses)
    requires OriginsOk(p, root, rootVersion, clauses, origins) && ClausesProper(clauses)
    requires k < |clauses| && u < |clauses[k].terms| && StateOf(trail, clauses[k].terms[u]) == Satisfied
    ensures First(trail, clauses[k].terms[u]) < |trail| <==>
            SingleEntryFor(trail, root, rootVersion, requirements, clauses[k].terms[u])
  {
    hide First, Selected, StateOf, OriginsOk, RangesProper, MissedAtRoot, AllJustified, Exact, OneReachesBoth;
    LayeredRanges(trail, level, root, rootVersion);
    var t := clauses[k].terms[u];
    assert t in clauses[k].terms && TermsProper(clauses[k].terms);
    SatisfiedNeedsRange(trail, t);
    if t.positive && t.pkg == root {
      PositiveRootTerms(p, root, rootVersion, clauses, origins, k, t);
      RootIsSettled(trail, level, root, rootVersion, requirements, t);
      ExactBound(rootVersion);
    } else if t.positive && t.range == Exact(t.range.lower.v) {
      PositiveIsSettled(trail, t, t.range.lower.v);
    } else if t.positive {
      BothBoundsExact(trail, t);
    } else if t.pkg == root {
      NegativeRootIsSettled(trail, level, root, rootVersion, requirements, clauses, t);
    } else {
      NegativeIsSettled(trail, t);
    }
  }

  lemma ExactBound(v: Version)
    ensures Exact(v).lower.v == v
  {
  }

  /* ------------------------------------------------------------- the whole walk */

  /** Analysis goes on past a satisfier that was derived at a level of its own. */
  ghost predicate Continues(trail: Trail, terms: seq<Term>, i: nat) {
    && i < |trail| && !trail[i].decided && trail[i].cause.Some?
    && exists previous :: PreviousLevel(trail, terms, trail[i].pkg, previous) && previous != trail[i].level
  }

  /** Analysis stops at a decision, or where another term was settled at the same level. */
  ghost predicate StopsAt(trail: Trail, terms: seq<Term>, i: nat, t: nat, previous: nat) {
    && SatisfierAt(trail, terms, i, t)
    && PreviousLevel(trail, terms, trail[i].pkg, previous)
    && (trail[i].decided || trail[i].level == previous)
  }

  /** A recorded clause is its predecessor resolved with the cause of the predecessor's satisfier. */
  ghost predicate WalkStep(trail: Trail, clauses: seq<Clause>, from: nat, k: nat) {
    && from < |clauses| && k < |clauses|
    && exists i, t :: ResolvesAt(trail, clauses, from, k, i, t)
  }

  ghost predicate ResolvesAt(trail: Trail, clauses: seq<Clause>, from: nat, k: nat, i: nat, t: nat)
    requires from < |clauses| && k < |clauses|
  {
    && SatisfierAt(trail, clauses[from].terms, i, t) && Continues(trail, clauses[from].terms, i)
    && trail[i].cause.value < |clauses|
    && clauses[k] == Clause(
         Resolvent(clauses[from].terms, clauses[trail[i].cause.value].terms, clauses[from].terms[t].pkg),
         InternalReason, [from, trail[i].cause.value])
  }

  function Predecessor(start: nat, conflict: nat, k: nat): nat {
    if k <= start then conflict else k - 1
  }

  /** The clauses recorded by one analysis, from the conflict to the clause it ends on. */
  ghost predicate WalkOk(trail: Trail, clauses: seq<Clause>, start: nat, conflict: nat, last: nat) {
    && start <= |clauses|
    && last == (if |clauses| == start then conflict else |clauses| - 1)
    && forall k: nat :: start <= k < |clauses| ==> WalkStep(trail, clauses, Predecessor(start, conflict, k), k)
  }

  lemma WalkStarts(trail: Trail, clauses: seq<Clause>, conflict: nat)
    ensures WalkOk(trail, clauses, |clauses|, conflict, conflict)
  {
  }

  lemma WalkContinues(trail: Trail, clauses: seq<Clause>, start: nat, conflict: nat, last: nat,
                      i: nat, t: nat, previous: nat, c: Clause)
    requires WalkOk(trail, clauses, start, conflict, last) && last < |clauses|
    requires SatisfierAt(trail, clauses[last].terms, i, t)
    requires i < |trail| && t < |clauses[last].terms|
    requires PreviousLevel(trail, clauses[last].terms, trail[i].pkg, previous)
    requires !trail[i].decided && previous != trail[i].level && trail[i].cause.Some?
    requires trail[i].cause.value < |clauses|
    requires c == Clause(
      Resolvent(clauses[last].terms, clauses[trail[i].cause.value].terms, clauses[last].terms[t].pkg),
      InternalReason, [last, trail[i].cause.value])
    ensures WalkOk(trail, clauses + [c], start, conflict, |clauses|)
  {
    var next := clauses + [c];
    forall k: nat | start <= k < |next| ensures WalkStep(trail, next, Predecessor(start, conflict, k), k) {
      var from := Predecessor(start, conflict, k);
      if k < |clauses| {
        assert WalkStep(trail, clauses, from, k);
        var i', t' :| ResolvesAt(trail, clauses, from, k, i', t');
        assert ResolvesAt(trail, next, from, k, i', t');
      } else {
        assert ResolvesAt(trail, next, from, k, i, t);
      }
    }
  }

  lemma StopsHere(trail: Trail, terms: seq<Term>, i: nat, t: nat, previous: nat)
    requires SatisfierAt(trail, terms, i, t) && i < |trail|
    requires PreviousLevel(trail, terms, trail[i].pkg, previous)
    requires trail[i].decided || trail[i].level == previous
    ensures StopsAt(trail, terms, i, t, previous)
  {
  }

  /* ------------------------------------------------------- what an analysis ends on */

  lemma SatisfierUnique(trail: Trail, terms: seq<Term>, i: nat, t: nat, i': nat, t': nat)
    requires SatisfierAt(trail, terms, i, t) && SatisfierAt(trail, terms, i', t')
    ensures i == i' && t == t'
  {
    hide First;
    assert First(trail, terms[t]) == i && First(trail, terms[t']) == i';
  }

  lemma PreviousUnique(trail: Trail, terms: seq<Term>, skip: PackageId, l: nat, l': nat)
    requires PreviousLevel(trail, terms, skip, l) && PreviousLevel(trail, terms, skip, l')
    ensures l == l'
  {
  }

  /** The walk resolves on from these terms. */
  ghost predicate GoesOn(trail: Trail, root: PackageId, terms: seq<Term>, i: nat, t: nat) {
    !IsRootFailure(terms, root) && SatisfierAt(trail, terms, i, t) && Continues(trail, terms, i)
  }

  ghost predicate GoesOnSomewhere(trail: Trail, root: PackageId, terms: seq<Term>) {
    exists i: nat, t: nat :: GoesOn(trail, root, terms, i, t)
  }

  ghost predicate StopsAbove(trail: Trail, terms: seq<Term>, i: nat, t: nat, level: nat) {
    level >= 1 && StopsAt(trail, terms, i, t, level)
  }

  /** The walk stops at these terms with a level to go back to. */
  ghost predicate StopsFor(trail: Trail, terms: seq<Term>, level: nat) {
    exists i: nat, t: nat :: StopsAbove(trail, terms, i, t, level)
  }

  ghost predicate Learns(trail: Trail, terms: seq<Term>) {
    exists level: nat :: StopsFor(trail, terms, level)
  }

  /** The target level is a function of the trail and the terms. */
  lemma StopsForUnique(trail: Trail, terms: seq<Term>, l: nat, l': nat)
    requires StopsFor(trail, terms, l) && StopsFor(trail, terms, l')
    ensures l == l'
  {
    hide SatisfierAt, PreviousLevel;
    var i: nat, t: nat :| StopsAbove(trail, terms, i, t, l);
    var i': nat, t': nat :| StopsAbove(trail, terms, i', t', l');
    SatisfierUnique(trail, terms, i, t, i', t');
    InTrail(trail, terms, i, t);
    PreviousUnique(trail, terms, trail[i].pkg, l, l');
  }

  lemma StopsTell(trail: Trail, terms: seq<Term>, l: nat)
    requires StopsFor(trail, terms, l)
    ensures Learns(trail, terms)
    ensures forall l' :: StopsFor(trail, terms, l') ==> l' == l
  {
    hide StopsFor;
    forall l' | StopsFor(trail, terms, l') ensures l' == l {
      StopsForUnique(trail, terms, l, l');
    }
  }

  lemma InTrail(trail: Trail, terms: seq<Term>, i: nat, t: nat)
    requires SatisfierAt(trail, terms, i, t)
    ensures i < |trail| && t < |terms|
  {
  }

  /** No analysis both stops and goes on. */
  lemma GoesOnOrLearns(trail: Trail, root: PackageId, terms: seq<Term>, i: nat, t: nat)
    requires GoesOn(trail, root, terms, i, t)
    ensures !Learns(trail, terms)
  {
    hide SatisfierAt, PreviousLevel, IsRootFailure;
    forall l: nat, i': nat, t': nat | StopsAt(trail, terms, i', t', l) ensures false {
      SatisfierUnique(trail, terms, i, t, i', t');
      var previous :| PreviousLevel(trail, terms, trail[i].pkg, previous) && previous != trail[i].level;
      PreviousUnique(trail, terms, trail[i].pkg, l, previous);
    }
  }

  /* How each way out of one look at a clause shows in these terms. */

  lemma EndsAtRootFailure(trail: Trail, root: PackageId, terms: seq<Term>)
    requires IsRootFailure(terms, root)
    ensures !GoesOnSomewhere(trail, root, terms) && !Learns(trail, terms)
  {
    hide First, LastLevel;
  }

  lemma EndsUnsettled(trail: Trail, root: PackageId, terms: seq<Term>)
    requires terms == [] || !SettledBelow(trail, terms, |trail|)
    ensures !GoesOnSomewhere(trail, root, terms) && !Learns(trail, terms)
  {
    hide First, LastLevel;
  }

  lemma EndsAtStop(trail: Trail, root: PackageId, terms: seq<Term>, i: nat, t: nat, previous: nat)
    requires SatisfierAt(trail, terms, i, t) && i < |trail|
    requires PreviousLevel(trail, terms, trail[i].pkg, previous)
    requires trail[i].decided || previous == trail[i].level
    ensures !GoesOnSomewhere(trail, root, terms)
    ensures previous >= 1 ==> StopsFor(trail, terms, previous)
    ensures previous < 1 ==> !Learns(trail, terms)
  {
    hide SatisfierAt, PreviousLevel, IsRootFailure;
    forall i': nat, t': nat ensures !GoesOn(trail, root, terms, i', t') {
      if GoesOn(trail, root, terms, i', t') {
        SatisfierUnique(trail, terms, i, t, i', t');
        var other :| PreviousLevel(trail, terms, trail[i].pkg, other) && other != trail[i].level;
        PreviousUnique(trail, terms, trail[i].pkg, previous, other);
      }
    }
    if previous >= 1 {
      assert StopsAbove(trail, terms, i, t, previous);
    } else {
      forall l: nat, i': nat, t': nat ensures !StopsAbove(trail, terms, i', t', l) {
        if StopsAbove(trail, terms, i', t', l) {
          SatisfierUnique(trail, terms, i, t, i', t');
          PreviousUnique(trail, terms, trail[i].pkg, previous, l);
        }
      }
    }
  }

  lemma EndsAtRequirement(trail: Trail, root: PackageId, terms: seq<Term>, i: nat, t: nat, previous: nat)
    requires SatisfierAt(trail, terms, i, t) && i < |trail|
    requires PreviousLevel(trail, terms, trail[i].pkg, previous)
    requires !trail[i].decided && previous != trail[i].level && trail[i].cause.None?
    ensures !GoesOnSomewhere(trail, root, terms) && !Learns(trail, terms)
  {
    hide SatisfierAt, PreviousLevel, IsRootFailure;
    forall i': nat, t': nat ensures !GoesOn(trail, root, terms, i', t') {
      if GoesOn(trail, root, terms, i', t') {
        SatisfierUnique(trail, terms, i, t, i', t');
      }
    }
    forall l: nat, i': nat, t': nat ensures !StopsAbove(trail, terms, i', t', l) {
      if StopsAbove(trail, terms, i', t', l) {
        SatisfierUnique(trail, terms, i, t, i', t');
        PreviousUnique(trail, terms, trail[i].pkg, previous, l);
      }
    }
  }

  lemma WalkGoesOn(trail: Trail, root: PackageId, terms: seq<Term>, i: nat, t: nat, previous: nat)
    requires !IsRootFailure(terms, root) && SatisfierAt(trail, terms, i, t) && i < |trail|
    requires PreviousLevel(trail, terms, trail[i].pkg, previous)
    requires !trail[i].decided && previous != trail[i].level && trail[i].cause.Some?
    ensures GoesOn(trail, root, terms, i, t)
  {
  }

  /** The terms an analysis ends on: a function of the trail and the recorded clauses. */
  ghost function WalkEnd(trail: Trail, clauses: seq<Clause>, root: PackageId, terms: seq<Term>, fuel: nat): seq<Term>
    decreases fuel
  {
    if fuel > 0 && GoesOnSomewhere(trail, root, terms) then
      var i: nat, t: nat :| GoesOn(trail, root, terms, i, t);
      if trail[i].cause.value < |clauses| then
        WalkEnd(trail, clauses, root, Resolvent(terms, clauses[trail[i].cause.value].terms, terms[t].pkg), fuel - 1)
      else terms
    else terms
  }

  /** ... from a recorded clause, with as many resolutions as the walk can make. */
  ghost function Ending(trail: Trail, clauses: seq<Clause>, root: PackageId, k: nat): seq<Term>
    requires k < |clauses|
  {
    WalkEnd(trail, clauses, root, clauses[k].terms, |trail|)
  }

  lemma EndingIs(trail: Trail, clauses: seq<Clause>, root: PackageId, k: nat)
    requires k < |clauses|
    ensures Ending(trail, clauses, root, k) == WalkEnd(trail, clauses, root, clauses[k].terms, |trail|)
  {
  }

  /** A conflict whose analysis stops at once ends where it starts. */
  lemma LearnsAtLevel(trail: Trail, root: PackageId, clauses: seq<Clause>, k: nat, level: nat)
    requires k < |clauses|
    ensures StopsFor(trail, clauses[k].terms, level) ==> Learns(trail, clauses[k].terms)
    ensures Learns(trail, clauses[k].terms) ==> Ending(trail, clauses, root, k) == clauses[k].terms
  {
    hide GoesOn, StopsFor;
    var terms := clauses[k].terms;
    if Learns(trail, terms) {
      forall i: nat, t: nat ensures !GoesOn(trail, root, terms, i, t) {
        if GoesOn(trail, root, terms, i, t) {
          GoesOnOrLearns(trail, root, terms, i, t);
        }
      }
      WalkEndHere(trail, clauses, root, terms, |trail|);
    }
  }

  lemma WalkEndStep(trail: Trail, clauses: seq<Clause>, root: PackageId, terms: seq<Term>, fuel: nat, i: nat, t: nat)
    requires fuel > 0 && GoesOn(trail, root, terms, i, t) && i < |trail| && t < |terms|
    requires trail[i].cause.Some? && trail[i].cause.value < |clauses|
    ensures WalkEnd(trail, clauses, root, terms, fuel) ==
            WalkEnd(trail, clauses, root, Resolvent(terms, clauses[trail[i].cause.value].terms, terms[t].pkg), fuel - 1)
  {
    hide SatisfierAt, Continues, IsRootFailure, Resolvent;
    forall i': nat, t': nat | GoesOn(trail, root, terms, i', t') ensures i' == i && t' == t {
      SatisfierUnique(trail, terms, i, t, i', t');
    }
    assert GoesOnSomewhere(trail, root, terms);
  }

  lemma WalkEndHere(trail: Trail, clauses: seq<Clause>, root: PackageId, terms: seq<Term>, fuel: nat)
    requires !GoesOnSomewhere(trail, root, terms)
    ensures WalkEnd(trail, clauses, root, terms, fuel) == terms
  {
  }

  /* ---------------------------------------------------------------- stuck for good */

  /** A conflict stays one on every longer trail. */
  lemma ConflictPersists(before: Trail, after: Trail, clauses: seq<Clause>, attached: set<nat>, k: nat)
    requires ConflictAt(before, clauses, attached, k) && before <= after
    ensures ConflictAt(after, clauses, attached, k)
  {
    hide StateOf;
    assert after[..|before|] == before;
    forall t | 0 <= t < |clauses[k].terms| ensures StateOf(after, clauses[k].terms[t]) == Satisfied {
      SatisfiedStays(after, |before|, clauses[k].terms[t]);
    }
  }

  /** So propagation can only end quietly where nothing was in conflict before. */
  lemma QuietFromStart(before: Trail, after: Trail, clauses: seq<Clause>, attached: set<nat>, level: nat)
    requires Quiescent(after, clauses, attached) && DerivedFrom(before, after, level)
    ensures forall k :: !ConflictAt(before, clauses, attached, k)
  {
    hide StateOf;
    forall k ensures !ConflictAt(before, clauses, attached, k) {
      if k in attached {
        assert !NeedsAction(after, clauses, k);
      }
      if ConflictAt(before, clauses, attached, k) {
        ConflictPersists(before, after, clauses, attached, k);
      }
    }
  }

  /** No attached clause is unit. */
  ghost predicate NoUnits(trail: Trail, clauses: seq<Clause>, attached: set<nat>) {
    forall k, t :: k in attached && k < |clauses| ==> !UnitAt(trail, clauses[k].terms, t)
  }

  lemma UnitFound(trail: Trail, clauses: seq<Clause>, attached: set<nat>, k: nat, t: nat)
    requires k in attached && k < |clauses| && UnitAt(trail, clauses[k].terms, t)
    ensures !NoUnits(trail, clauses, attached)
  {
  }

  /** Some clause is in conflict, nothing can be derived, and analysis of every
      conflict stops at once with the current level as its target. */
  ghost predicate Stuck(trail: Trail, clauses: seq<Clause>, attached: set<nat>, level: nat) {
    && NoUnits(trail, clauses, attached)
    && (exists k: nat :: ConflictAt(trail, clauses, attached, k))
    && (forall k: nat :: ConflictAt(trail, clauses, attached, k) ==> StopsFor(trail, clauses[k].terms, level))
  }

  lemma StuckParts(trail: Trail, clauses: seq<Clause>, attached: set<nat>, level: nat)
    requires Stuck(trail, clauses, attached, level)
    ensures NoUnits(trail, clauses, attached)
    ensures exists k: nat :: ConflictAt(trail, clauses, attached, k)
    ensures forall k: nat :: ConflictAt(trail, clauses, attached, k) ==>
      k < |clauses| && StopsFor(trail, clauses[k].terms, level)
  {
    hide NoUnits, StopsFor;
  }
}
