/** The range algebra of the solver: intervals of versions with open, closed or
    missing ends and a separate emptiness flag.

    Every operation is characterised by the two integer "keys" of a range.  A
    version of rank r sits at position 2r; an inclusive bound sits on its
    version, an exclusive one half a step inside it, a missing one beyond all
    versions.  In these terms a range is a plain interval of integers. */
module Ranges {
  import opened Versions

  datatype Bound = Bound(v: Version, inclusive: bool, unbounded: bool)

  datatype Range = Range(lower: Bound, upper: Bound, isEmpty: bool)

  const ZERO := Version(0, 0, 0)
  const LAST := Version(0xFFFF, 0xFFFF, 0xFFFF)
  const UNBOUNDED := Bound(ZERO, false, true)
  const TOP: int := 0x4_0000_0000_0000

  function LowKeyOf(b: Bound): int {
    if b.unbounded then -1 else 2 * Rank(b.v) + if b.inclusive then 0 else 1
  }

  function HighKeyOf(b: Bound): int {
    if b.unbounded then TOP else 2 * Rank(b.v) - if b.inclusive then 0 else 1
  }

  function LowKey(r: Range): int {
    LowKeyOf(r.lower)
  }

  function HighKey(r: Range): int {
    HighKeyOf(r.upper)
  }

  /** Well formed and non-empty: what callers and the provider must supply. */
  predicate Proper(r: Range) {
    !r.isEmpty && LowKey(r) <= HighKey(r)
  }

  function Any(): Range {
    Range(UNBOUNDED, UNBOUNDED, false)
  }

  function Exact(v: Version): Range {
    Range(Bound(v, true, false), Bound(v, true, false), false)
  }

  lemma AnyContainsAll(v: Version)
    ensures Contains(Any(), v)
  {
  }

  lemma ExactContainsOne(v: Version, w: Version)
    ensures Contains(Exact(v), w) <==> w == v
  {
    if Contains(Exact(v), w) { RankInjective(w, v); }
  }

  /** Overlapping a single version is containing it. */
  lemma MeetsExact(r: Range, v: Version)
    ensures !Intersect(r, Exact(v)).isEmpty <==> Contains(r, v)
  {
    hide Intersect, Contains;
  }

  predicate IsExact(r: Range) {
    !r.lower.unbounded && !r.upper.unbounded &&
    r.lower.inclusive && r.upper.inclusive &&
    Compare(r.lower.v, r.upper.v) == 0
  }

  /** Both ends move with 16-bit arithmetic, as the source casts the successor. */
  function UntilNextMinor(v: Version): Range {
    Range(Bound(v, true, false),
          Bound(Version(v.major, (v.minor + 1) % 0x1_0000, 0), false, false), false)
  }

  function UntilNextMajor(v: Version): Range {
    Range(Bound(v, true, false),
          Bound(Version((v.major + 1) % 0x1_0000, 0, 0), false, false), false)
  }

  predicate Contains(r: Range, v: Version)
    ensures Contains(r, v) <==> !r.isEmpty && LowKey(r) <= 2 * Rank(v) <= HighKey(r)
  {
    && !r.isEmpty
    && (r.lower.unbounded ||
        var c := Compare(v, r.lower.v);
        c >= 0 && (c == 0 ==> r.lower.inclusive))
    && (r.upper.unbounded ||
        var c := Compare(v, r.upper.v);
        c <= 0 && (c == 0 ==> r.upper.inclusive))
  }

  /** The more restrictive of two lower bounds. */
  function MaxLower(a: Bound, b: Bound): (r: Bound)
    ensures LowKeyOf(r) == if LowKeyOf(a) >= LowKeyOf(b) then LowKeyOf(a) else LowKeyOf(b)
    ensures r.unbounded <==> a.unbounded && b.unbounded
  {
    if a.unbounded then b
    else if b.unbounded then a
    else
      var c := Compare(a.v, b.v);
      if c > 0 then a
      else if c < 0 then b
      else Bound(a.v, a.inclusive && b.inclusive, false)
  }

  /** The more restrictive of two upper bounds. */
  function MinUpper(a: Bound, b: Bound): (r: Bound)
    ensures HighKeyOf(r) == if HighKeyOf(a) <= HighKeyOf(b) then HighKeyOf(a) else HighKeyOf(b)
    ensures r.unbounded <==> a.unbounded && b.unbounded
  {
    if a.unbounded then b
    else if b.unbounded then a
    else
      var c := Compare(a.v, b.v);
      if c < 0 then a
      else if c > 0 then b
      else Bound(a.v, a.inclusive && b.inclusive, false)
  }

  /** Whether no integer position lies between two bounds. */
  predicate Inverted(lower: Bound, upper: Bound)
    ensures Inverted(lower, upper) <==> LowKeyOf(lower) > HighKeyOf(upper)
  {
    !lower.unbounded && !upper.unbounded &&
    var c := Compare(lower.v, upper.v);
    c > 0 || (c == 0 && (!lower.inclusive || !upper.inclusive))
  }

  /** The flag of the result tells the truth about the keys of the result. */
  function Intersect(a: Range, b: Range): (r: Range)
    ensures a.isEmpty || b.isEmpty ==> r.isEmpty
    ensures !a.isEmpty && !b.isEmpty ==>
      && LowKey(r) == (if LowKey(a) >= LowKey(b) then LowKey(a) else LowKey(b))
      && HighKey(r) == (if HighKey(a) <= HighKey(b) then HighKey(a) else HighKey(b))
      && (r.isEmpty <==> LowKey(r) > HighKey(r))
  {
    if a.isEmpty || b.isEmpty then Any().(isEmpty := true)
    else
      var lower := MaxLower(a.lower, b.lower);
      var upper := MinUpper(a.upper, b.upper);
      Range(lower, upper, Inverted(lower, upper))
  }

  predicate LowerAtLeast(a: Bound, b: Bound) {
    b.unbounded ||
    (!a.unbounded &&
     var c := Compare(a.v, b.v);
     c > 0 || (c == 0 && (b.inclusive || !a.inclusive)))
  }

  predicate UpperAtMost(a: Bound, b: Bound) {
    b.unbounded ||
    (!a.unbounded &&
     var c := Compare(a.v, b.v);
     c < 0 || (c == 0 && (b.inclusive || !a.inclusive)))
  }

  /** The flag of b is not looked at, exactly as in the source. */
  predicate Subset(a: Range, b: Range)
    ensures Subset(a, b) <==> a.isEmpty || (LowKey(a) >= LowKey(b) && HighKey(a) <= HighKey(b))
  {
    a.isEmpty || (LowerAtLeast(a.lower, b.lower) && UpperAtMost(a.upper, b.upper))
  }

  /** Intersection is exact on every pair of ranges, inverted and flagged ones included. */
  lemma IntersectIsConjunction(a: Range, b: Range, v: Version)
    ensures Contains(Intersect(a, b), v) <==> Contains(a, v) && Contains(b, v)
  {
    assert Contains(Intersect(a, b), v) <==> 
      !Intersect(a, b).isEmpty && LowKey(Intersect(a, b)) <= 2 * Rank(v) <= HighKey(Intersect(a, b));
  }

  lemma ExactMeetsAny(v: Version)
    ensures !Intersect(Any(), Exact(v)).isEmpty
  {
  }

  /** Subset against a range that is not flagged empty implies containment of members. */
  lemma SubsetMembers(a: Range, b: Range, v: Version)
    requires Subset(a, b) && !b.isEmpty && Contains(a, v)
    ensures Contains(b, v)
  {
  }

  /** Narrowing the left side further never breaks a subset or an empty overlap. */
  lemma NarrowingKeeps(a: Range, c: Range, b: Range)
    ensures Subset(a, b) ==> Subset(Intersect(a, c), b)
    ensures Intersect(a, b).isEmpty ==> Intersect(Intersect(a, c), b).isEmpty
  {
  }

  predicate ClosedBounds(r: Range) {
    && !r.lower.unbounded && r.lower.inclusive
    && !r.upper.unbounded && r.upper.inclusive
  }

  /** Subset says what containment of members says, against every unflagged range. */
  ghost predicate SubsetIsContainment(a: Range) {
    forall b: Range :: !b.isEmpty ==> (Subset(a, b) <==> WithinMembers(a, b))
  }

  ghost predicate WithinMembers(a: Range, b: Range) {
    forall v :: Contains(a, v) ==> Contains(b, v)
  }

  /** A range that holds every member of one with an open or missing bound, tighter
      at that bound: the next version, the least or the greatest one. */
  function Tightened(a: Range): Range {
    if a.lower.unbounded then Range(Bound(ZERO, true, false), a.upper, false)
    else if !a.lower.inclusive && a.lower.v == LAST then Exact(ZERO)
    else if !a.lower.inclusive then Range(Bound(AtRank(Rank(a.lower.v) + 1), true, false), a.upper, false)
    else if a.upper.unbounded then Range(a.lower, Bound(LAST, true, false), false)
    else if Rank(a.upper.v) == 0 then Exact(LAST)
    else Range(a.lower, Bound(AtRank(Rank(a.upper.v) - 1), true, false), false)
  }

  lemma TightenedKeepsMembers(a: Range, v: Version)
    requires !ClosedBounds(a) && Contains(a, v)
    ensures Contains(Tightened(a), v)
  {
    hide Contains, Compare, AtRank, Rank;
    RankBound(v);
    RankBound(ZERO);
    RankBound(LAST);
    if !a.lower.unbounded { RankBound(a.lower.v); }
    if !a.upper.unbounded { RankBound(a.upper.v); }
  }

  lemma TightenedIsTighter(a: Range)
    requires !ClosedBounds(a) && Proper(a)
    ensures !Tightened(a).isEmpty && !Subset(a, Tightened(a))
  {
    hide Subset, Compare, AtRank, Rank;
    RankBound(ZERO);
    RankBound(LAST);
    if !a.lower.unbounded { RankBound(a.lower.v); }
    if !a.upper.unbounded { RankBound(a.upper.v); }
  }

  /** The subset test compares bounds, not members: on the discrete order of
      versions it is complete for a range exactly when both bounds are closed. */
  lemma SubsetExact(a: Range)
    requires Proper(a)
    ensures SubsetIsContainment(a) <==> ClosedBounds(a)
  {
    hide Subset, Contains, Compare, Tightened;
    if ClosedBounds(a) {
      forall b: Range | !b.isEmpty ensures Subset(a, b) <==> WithinMembers(a, b) {
        if WithinMembers(a, b) {
          assert Contains(a, a.lower.v) && Contains(a, a.upper.v);
        }
      }
    } else {
      forall v | Contains(a, v) ensures Contains(Tightened(a), v) {
        TightenedKeepsMembers(a, v);
      }
      TightenedIsTighter(a);
      assert !Subset(a, Tightened(a)) && WithinMembers(a, Tightened(a));
    }
  }

  /** The next-minor range holds exactly the later patches of the same minor
      version, if and only if the 16-bit successor does not wrap. */
  lemma NextMinorExact(v: Version)
    ensures (forall w :: Contains(UntilNextMinor(v), w) <==>
                           w.major == v.major && w.minor == v.minor && w.patch >= v.patch)
            <==> v.minor != 0xFFFF
  {
    if v.minor == 0xFFFF {
      assert !Contains(UntilNextMinor(v), v);
    }
  }

  /** The next-major range holds exactly the later versions of the same major
      version, if and only if the 16-bit successor does not wrap. */
  lemma NextMajorExact(v: Version)
    ensures (forall w :: Contains(UntilNextMajor(v), w) <==>
                           w.major == v.major && Rank(w) >= Rank(v))
            <==> v.major != 0xFFFF
  {
    if v.major == 0xFFFF {
      assert !Contains(UntilNextMajor(v), v);
    }
  }
}
