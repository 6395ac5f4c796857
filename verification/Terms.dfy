/** Terms, assignments and the trail: what a trail says about a term, and what
    term and trail mean for a finished selection of versions. */
module Terms {
  import opened Options
  import opened Versions
  import opened Ranges

  type PackageId = nat

  /** Positive: "a version inside the range is selected".  Negative: the opposite. */
  datatype Term = Term(pkg: PackageId, range: Range, positive: bool)

  /** `cause` is the index of the clause a derived assignment came from. */
  datatype Assignment = Assignment(
    pkg: PackageId, range: Range, positive: bool,
    decided: bool, level: nat, cause: Option<nat>)

  type Trail = seq<Assignment>

  datatype TermState = Satisfied | Contradicted | Inconclusive

  function Fact(a: Assignment): Term {
    Term(a.pkg, a.range, a.positive)
  }

  function Negated(t: Term): Term {
    t.(positive := !t.positive)
  }

  /** The intersection, in trail order, of all positive ranges of a package. */
  function Positive(trail: Trail, pkg: PackageId): Option<Range> {
    if trail == [] then None
    else
      var rest := Positive(trail[..|trail| - 1], pkg);
      var a := trail[|trail| - 1];
      if a.pkg != pkg || !a.positive then rest
      else if rest.None? then Some(a.range)
      else Some(Intersect(rest.value, a.range))
  }

  /** Some negative assignment forbids a part of the term's range. */
  ghost predicate Overlapped(trail: Trail, term: Term) {
    exists i :: 0 <= i < |trail| && Overlaps(trail[i], term)
  }

  predicate Overlaps(a: Assignment, term: Term) {
    a.pkg == term.pkg && !a.positive && !Intersect(term.range, a.range).isEmpty
  }

  ghost function StateOf(trail: Trail, term: Term): TermState {
    Judge(Positive(trail, term.pkg), term, Overlapped(trail, term))
  }

  /** The verdict on a term from the combined positive range of its package and
      from whether a negative assignment touches it. */
  function Judge(positive: Option<Range>, term: Term, overlapped: bool): TermState {
    if term.positive then
      if positive.Some? then
        if Subset(positive.value, term.range) then Satisfied
        else if Intersect(positive.value, term.range).isEmpty || overlapped then Contradicted
        else Inconclusive
      else if overlapped then Contradicted
      else Inconclusive
    else if positive.Some? then
      if Intersect(positive.value, term.range).isEmpty then Satisfied
      else if Subset(positive.value, term.range) then Contradicted
      else Inconclusive
    else Inconclusive
  }

  /** Appending one assignment. */
  lemma PositiveAppend(trail: Trail, a: Assignment, pkg: PackageId)
    ensures Positive(trail + [a], pkg) ==
            if a.pkg != pkg || !a.positive then Positive(trail, pkg)
            else if Positive(trail, pkg).None? then Some(a.range)
            else Some(Intersect(Positive(trail, pkg).value, a.range))
  {
    assert (trail + [a])[..|trail|] == trail;
  }

  lemma OverlappedAppend(trail: Trail, a: Assignment, term: Term)
    ensures Overlapped(trail + [a], term) <==> Overlapped(trail, term) || Overlaps(a, term)
  {
    var next := trail + [a];
    if Overlapped(trail, term) {
      var i :| 0 <= i < |trail| && Overlaps(trail[i], term);
      assert Overlaps(next[i], term);
    }
    if Overlaps(a, term) {
      assert Overlaps(next[|trail|], term);
    }
    if Overlapped(next, term) {
      var i :| 0 <= i < |next| && Overlaps(next[i], term);
      assert i < |trail| ==> next[i] == trail[i];
    }
  }

  /** A package's terms depend on that package's assignments only. */
  lemma StateLocal(trail: Trail, a: Assignment, term: Term)
    requires a.pkg != term.pkg
    ensures StateOf(trail + [a], term) == StateOf(trail, term)
  {
    PositiveAppend(trail, a, term.pkg);
    OverlappedAppend(trail, a, term);
  }

  /** On a growing trail no term becomes inconclusive again, and a satisfied one
      stays satisfied. */
  lemma StateSettles(trail: Trail, a: Assignment, term: Term)
    ensures StateOf(trail, term) != Inconclusive ==> StateOf(trail + [a], term) != Inconclusive
    ensures StateOf(trail, term) == Satisfied ==> StateOf(trail + [a], term) == Satisfied
  {
    PositiveAppend(trail, a, term.pkg);
    OverlappedAppend(trail, a, term);
    var p := Positive(trail, term.pkg);
    if p.Some? {
      NarrowingKeeps(p.value, a.range, term.range);
    }
  }

  /** Recording the negation of an inconclusive term contradicts it exactly when
      its range is proper.  This is what propagation relies on to end. */
  lemma NegationContradicts(trail: Trail, term: Term, a: Assignment)
    requires StateOf(trail, term) == Inconclusive
    requires Fact(a) == Negated(term)
    ensures term.positive ==>
              (StateOf(trail + [a], term) == Contradicted <==> Proper(term.range))
    ensures Proper(term.range) ==> StateOf(trail + [a], term) == Contradicted
  {
    PositiveAppend(trail, a, term.pkg);
    OverlappedAppend(trail, a, term);
  }

  /* ---------------------------------------------------------------- meaning */

  /** A selection of versions. */
  type Model = map<PackageId, Version>

  predicate Holds(m: Model, t: Term) {
    t.positive == (t.pkg in m && Contains(t.range, m[t.pkg]))
  }

  ghost predicate Agrees(m: Model, trail: Trail) {
    forall i :: 0 <= i < |trail| ==> Holds(m, Fact(trail[i]))
  }

  /** A model that agrees with a trail selects inside every combined range. */
  lemma {:induction false} AgreeingModelInRange(m: Model, trail: Trail, pkg: PackageId)
    requires Agrees(m, trail) && Positive(trail, pkg).Some?
    ensures pkg in m && Contains(Positive(trail, pkg).value, m[pkg])
  {
    var n := |trail| - 1;
    var init := trail[..n];
    assert Agrees(m, init);
    assert Holds(m, Fact(trail[n]));
    if Positive(init, pkg).Some? {
      AgreeingModelInRange(m, init, pkg);
      IntersectIsConjunction(Positive(init, pkg).value, trail[n].range, m[pkg]);
    }
  }

  /** The verdict "satisfied" is sound: the term holds in every agreeing model. */
  lemma SatisfiedIsSound(m: Model, trail: Trail, term: Term)
    requires Agrees(m, trail) && StateOf(trail, term) == Satisfied
    requires !term.range.isEmpty
    ensures Holds(m, term)
  {
    AgreeingModelInRange(m, trail, term.pkg);
    var r := Positive(trail, term.pkg).value;
    IntersectIsConjunction(r, term.range, m[term.pkg]);
  }

  /* ------------------------------------------------- satisfaction by one step */

  /** One recorded fact alone satisfies a term: the test of conflict analysis. */
  predicate Settles(fact: Term, t: Term) {
    fact.pkg == t.pkg &&
    if t.positive then fact.positive && Subset(fact.range, t.range)
    else if fact.positive then Intersect(fact.range, t.range).isEmpty
    else Subset(t.range, fact.range)
  }

  lemma SettlesIsSound(m: Model, fact: Term, t: Term)
    requires Settles(fact, t) && Holds(m, fact)
    requires !t.range.isEmpty && !fact.range.isEmpty
    ensures Holds(m, t)
  {
    if fact.positive {
      IntersectIsConjunction(fact.range, t.range, m[t.pkg]);
    }
  }

  /* -------------------------------------------------- verdicts by position */

  /** A position of the order of versions and of the gaps between them. */
  predicate At(r: Range, position: int) {
    !r.isEmpty && LowKey(r) <= position <= HighKey(r)
  }

  /** What a term says of a package at a position, or not selected at all. */
  predicate TrueAt(t: Term, place: Option<int>) {
    t.positive == (place.Some? && At(t.range, place.value))
  }

  /** A fact settles a term exactly when the term is true wherever the fact is. */
  lemma SettlesExact(fact: Term, t: Term)
    requires fact.pkg == t.pkg && Proper(fact.range) && Proper(t.range)
    ensures Settles(fact, t) <==> forall place :: TrueAt(fact, place) ==> TrueAt(t, place)
  {
    if Settles(fact, t) {
      forall place | TrueAt(fact, place) ensures TrueAt(t, place) {
        if place.Some? && fact.positive && !t.positive {
          assert At(fact.range, place.value) && At(t.range, place.value) ==> !Intersect(fact.range, t.range).isEmpty;
        }
      }
    } else {
      var place := Unsettling(fact, t);
      assert TrueAt(fact, place) && !TrueAt(t, place);
    }
  }

  /** A place where a fact holds and a term it does not settle fails. */
  function Unsettling(fact: Term, t: Term): Option<int> {
    if !fact.positive then
      if t.positive then None
      else if LowKey(t.range) < LowKey(fact.range) || LowKey(t.range) > HighKey(fact.range) then Some(LowKey(t.range))
      else Some(HighKey(t.range))
    else if t.positive then
      if LowKey(fact.range) < LowKey(t.range) then Some(LowKey(fact.range))
      else Some(HighKey(fact.range))
    else if LowKey(fact.range) < LowKey(t.range) then Some(LowKey(t.range))
    else Some(LowKey(fact.range))
  }

  /** The verdict in terms of positions: satisfied when the combined range decides for
      the term everywhere; contradicted when it decides against it everywhere, or when a
      forbidden range has a position in common with a positive term. */
  lemma VerdictExact(trail: Trail, term: Term)
    requires Proper(term.range) && (forall i :: 0 <= i < |trail| ==> Proper(trail[i].range))
    requires Positive(trail, term.pkg).Some? ==> Proper(Positive(trail, term.pkg).value)
    ensures StateOf(trail, term) == Satisfied <==> DecidesFor(Positive(trail, term.pkg), term)
    ensures StateOf(trail, term) == Contradicted <==>
            !DecidesFor(Positive(trail, term.pkg), term) &&
            (DecidesFor(Positive(trail, term.pkg), Negated(term)) || (term.positive && Touches(trail, term)))
  {
    hide Overlapped;
    TouchesExact(trail, term);
    if Positive(trail, term.pkg).Some? {
      var r := Positive(trail, term.pkg).value;
      SettlesExact(Term(term.pkg, r, true), term);
      SettlesExact(Term(term.pkg, r, true), Negated(term));
      assert forall place: Option<int> :: TrueAt(Term(term.pkg, r, true), place) <==> place.Some? && At(r, place.value);
    }
  }

  ghost predicate DecidesFor(combined: Option<Range>, t: Term) {
    combined.Some? && forall p :: At(combined.value, p) ==> TrueAt(t, Some(p))
  }

  ghost predicate Touches(trail: Trail, term: Term) {
    exists i, p :: 0 <= i < |trail| && trail[i].pkg == term.pkg && !trail[i].positive &&
                   At(trail[i].range, p) && At(term.range, p)
  }

  lemma TouchesExact(trail: Trail, term: Term)
    requires Proper(term.range) && (forall i :: 0 <= i < |trail| ==> Proper(trail[i].range))
    ensures Overlapped(trail, term) <==> Touches(trail, term)
  {
    if Overlapped(trail, term) {
      var i :| 0 <= i < |trail| && Overlaps(trail[i], term);
      var p := LowKey(Intersect(term.range, trail[i].range));
      assert At(trail[i].range, p) && At(term.range, p);
    }
    if Touches(trail, term) {
      var i, p :| 0 <= i < |trail| && trail[i].pkg == term.pkg && !trail[i].positive &&
                  At(trail[i].range, p) && At(term.range, p);
      assert Overlaps(trail[i], term);
    }
  }
}
