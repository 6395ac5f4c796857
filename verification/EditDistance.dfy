/** The optimal-string-alignment distance: a three-row dynamic program against its
    recursive definition, and that definition against edit scripts. */
module EditDistance {

  function Min(x: nat, y: nat): nat { if x < y then x else y }

  /** Distance between the first i characters of a and the first j of b. */
  function Osa(a: string, b: string, i: nat, j: nat): nat
    requires i <= |a| && j <= |b|
    decreases i + j
  {
    if i == 0 then j
    else if j == 0 then i
    else
      var swap := Swappable(a, b, i, j);
      Cell(Osa(a, b, i - 1, j) + 1, Osa(a, b, i, j - 1) + 1, Osa(a, b, i - 1, j - 1) + Mismatch(a[i - 1], b[j - 1]),
           swap, if swap then Osa(a, b, i - 2, j - 2) + 1 else 0)
  }

  function Mismatch(x: char, y: char): nat { if x == y then 0 else 1 }

  /** The cheapest way into a cell of the table. */
  function Cell(deletion: nat, insertion: nat, substitution: nat, swap: bool, transposition: nat): (best: nat)
    ensures best <= deletion && best <= insertion && best <= substitution && (swap ==> best <= transposition)
    ensures best == deletion || best == insertion || best == substitution || (swap && best == transposition)
  {
    var best := Min(Min(deletion, insertion), substitution);
    if swap then Min(best, transposition) else best
  }

  predicate Swappable(a: string, b: string, i: nat, j: nat)
    requires i <= |a| && j <= |b|
  {
    i > 1 && j > 1 && a[i - 1] == b[j - 2] && a[i - 2] == b[j - 1]
  }

  function Distance(a: string, b: string): nat {
    Osa(a, b, |a|, |b|)
  }

  /** The definition, one level deep. */
  lemma OsaUnfold(a: string, b: string, i: nat, j: nat)
    requires i <= |a| && j <= |b|
    ensures i == 0 ==> Osa(a, b, i, j) == j
    ensures j == 0 ==> Osa(a, b, i, j) == i
    ensures i > 0 && j > 0 ==>
      var swap := Swappable(a, b, i, j);
      Osa(a, b, i, j) ==
      Cell(Osa(a, b, i - 1, j) + 1, Osa(a, b, i, j - 1) + 1, Osa(a, b, i - 1, j - 1) + Mismatch(a[i - 1], b[j - 1]),
           swap, if swap then Osa(a, b, i - 2, j - 2) + 1 else 0)
  {
    hide Cell, Mismatch;
  }

  /** Three buffers that change roles after every row. */
  method OsaDistance(a: string, b: string) returns (distance: nat)
    ensures distance == Distance(a, b)
  {
    if |a| == 0 { return |b|; }
    if |b| == 0 { return |a|; }
    var prev := new nat[|b| + 1](_ => 0);
    var curr := new nat[|b| + 1](_ => 0);
    var prev2 := new nat[|b| + 1](_ => 0);
    for j := 0 to |b| + 1
      invariant forall l :: 0 <= l < j ==> prev[l] == l
    {
      prev[j] := j;
    }
    for i := 1 to |a| + 1
      invariant prev.Length == curr.Length == prev2.Length == |b| + 1
      invariant prev != curr && curr != prev2 && prev2 != prev
      invariant fresh(prev) && fresh(curr) && fresh(prev2)
      invariant forall l :: 0 <= l <= |b| ==> prev[l] == Osa(a, b, i - 1, l)
      invariant i > 1 ==> forall l :: 0 <= l <= |b| ==> prev2[l] == Osa(a, b, i - 2, l)
    {
      FillRow(a, b, i, prev, curr, prev2);
      prev2, prev, curr := prev, curr, prev2;
    }
    distance := prev[|b|];
  }

  /** One row of the table, from the two rows before it. */
  method FillRow(a: string, b: string, i: nat, prev: array<nat>, curr: array<nat>, prev2: array<nat>)
    requires 1 <= i <= |a| && prev.Length == curr.Length == prev2.Length == |b| + 1
    requires prev != curr && curr != prev2
    requires forall l :: 0 <= l <= |b| ==> prev[l] == Osa(a, b, i - 1, l)
    requires i > 1 ==> forall l :: 0 <= l <= |b| ==> prev2[l] == Osa(a, b, i - 2, l)
    modifies curr
    ensures forall l :: 0 <= l <= |b| ==> curr[l] == Osa(a, b, i, l)
  {
    hide Osa;
    OsaUnfold(a, b, i, 0);
    curr[0] := i;
    for j := 1 to |b| + 1
      invariant forall l :: 0 <= l < j ==> curr[l] == Osa(a, b, i, l)
    {
      var best := FillCell(a, b, i, j, prev, curr, prev2);
      curr[j] := best;
    }
  }

  method FillCell(a: string, b: string, i: nat, j: nat, prev: array<nat>, curr: array<nat>, prev2: array<nat>)
    returns (best: nat)
    requires 1 <= i <= |a| && 1 <= j <= |b| && prev.Length == curr.Length == prev2.Length == |b| + 1
    requires prev[j] == Osa(a, b, i - 1, j) && prev[j - 1] == Osa(a, b, i - 1, j - 1)
    requires curr[j - 1] == Osa(a, b, i, j - 1)
    requires i > 1 && j > 1 ==> prev2[j - 2] == Osa(a, b, i - 2, j - 2)
    ensures best == Osa(a, b, i, j)
  {
    hide Osa;
    OsaUnfold(a, b, i, j);
    var cost := if a[i - 1] == b[j - 1] then 0 else 1;
    var deletion := prev[j] + 1;
    var insertion := curr[j - 1] + 1;
    var substitution := prev[j - 1] + cost;
    best := deletion;
    if insertion < best { best := insertion; }
    if substitution < best { best := substitution; }
    if i > 1 && j > 1 && a[i - 1] == b[j - 2] && a[i - 2] == b[j - 1] {
      var transposition := prev2[j - 2] + 1;
      if transposition < best { best := transposition; }
    }
  }

  /* ------------------------------------------------------------- as a distance */

  lemma CellSymmetric(d: nat, i: nat, s: nat, swap: bool, t: nat)
    ensures Cell(d, i, s, swap, t) == Cell(i, d, s, swap, t)
  {
  }

  lemma {:induction false} OsaSymmetric(a: string, b: string, i: nat, j: nat)
    requires i <= |a| && j <= |b|
    ensures Osa(a, b, i, j) == Osa(b, a, j, i)
    decreases i + j
  {
    hide Osa, Cell;
    OsaUnfold(a, b, i, j);
    OsaUnfold(b, a, j, i);
    if i > 0 && j > 0 {
      OsaSymmetric(a, b, i - 1, j);
      OsaSymmetric(a, b, i, j - 1);
      OsaSymmetric(a, b, i - 1, j - 1);
      var swap := Swappable(a, b, i, j);
      if swap { OsaSymmetric(a, b, i - 2, j - 2); }
      CellSymmetric(Osa(a, b, i - 1, j) + 1, Osa(a, b, i, j - 1) + 1,
                    Osa(a, b, i - 1, j - 1) + Mismatch(a[i - 1], b[j - 1]),
                    swap, if swap then Osa(a, b, i - 2, j - 2) + 1 else 0);
    }
  }

  /** Between the difference of the lengths and the longer length. */
  lemma {:induction false} OsaBounds(a: string, b: string, i: nat, j: nat)
    requires i <= |a| && j <= |b|
    ensures i - j <= Osa(a, b, i, j) && j - i <= Osa(a, b, i, j)
    ensures Osa(a, b, i, j) <= if i < j then j else i
    decreases i + j
  {
    hide Osa, Cell;
    OsaUnfold(a, b, i, j);
    if i > 0 && j > 0 {
      OsaBounds(a, b, i - 1, j);
      OsaBounds(a, b, i, j - 1);
      OsaBounds(a, b, i - 1, j - 1);
      if Swappable(a, b, i, j) { OsaBounds(a, b, i - 2, j - 2); }
    }
  }

  lemma {:induction false} OsaZero(a: string, b: string, i: nat, j: nat)
    requires i <= |a| && j <= |b|
    ensures Osa(a, b, i, j) == 0 <==> a[..i] == b[..j]
    decreases i + j
  {
    hide Osa, Cell;
    OsaUnfold(a, b, i, j);
    if i > 0 && j > 0 {
      OsaZero(a, b, i - 1, j - 1);
      assert a[..i] == a[..i - 1] + [a[i - 1]];
      assert b[..j] == b[..j - 1] + [b[j - 1]];
      if a[..i] == b[..j] {
        assert i == j && a[i - 1] == a[..i][i - 1] == b[..j][j - 1] == b[j - 1];
        assert a[..i - 1] == a[..i][..i - 1] == b[..j][..j - 1] == b[..j - 1];
      }
    }
  }

  /** Symmetric, zero exactly on equal strings, and bounded by the lengths. */
  lemma DistanceLaws(a: string, b: string)
    ensures Distance(a, b) == Distance(b, a)
    ensures Distance(a, b) == 0 <==> a == b
    ensures |a| - |b| <= Distance(a, b) && |b| - |a| <= Distance(a, b)
    ensures Distance(a, b) <= if |a| < |b| then |b| else |a|
  {
    OsaSymmetric(a, b, |a|, |b|);
    OsaBounds(a, b, |a|, |b|);
    OsaZero(a, b, |a|, |b|);
    assert a[..|a|] == a && b[..|b|] == b;
  }

  /* ---------------------------------------------------------------- edit scripts */

  datatype Edit = Keep | Replace | Delete | Insert | Swap

  /** A script turns the first i characters of a into the first j of b, editing no
      position twice. */
  predicate Turns(script: seq<Edit>, a: string, b: string, i: nat, j: nat)
    requires i <= |a| && j <= |b|
    decreases |script|
  {
    if script == [] then i == 0 && j == 0
    else
      var n := |script| - 1;
      match script[n]
      case Keep => i > 0 && j > 0 && a[i - 1] == b[j - 1] && Turns(script[..n], a, b, i - 1, j - 1)
      case Replace => i > 0 && j > 0 && Turns(script[..n], a, b, i - 1, j - 1)
      case Delete => i > 0 && Turns(script[..n], a, b, i - 1, j)
      case Insert => j > 0 && Turns(script[..n], a, b, i, j - 1)
      case Swap => Swappable(a, b, i, j) && Turns(script[..n], a, b, i - 2, j - 2)
  }

  function Cost(script: seq<Edit>): nat {
    if script == [] then 0
    else Cost(script[..|script| - 1]) + if script[|script| - 1] == Keep then 0 else 1
  }

  /** No script is cheaper than the distance. */
  lemma {:induction false} NoCheaperScript(script: seq<Edit>, a: string, b: string, i: nat, j: nat)
    requires i <= |a| && j <= |b| && Turns(script, a, b, i, j)
    ensures Osa(a, b, i, j) <= Cost(script)
    decreases |script|
  {
    hide Osa, Cell;
    OsaUnfold(a, b, i, j);
    if script != [] {
      var n := |script| - 1;
      match script[n] {
        case Keep => NoCheaperScript(script[..n], a, b, i - 1, j - 1);
        case Replace => NoCheaperScript(script[..n], a, b, i - 1, j - 1);
        case Delete => NoCheaperScript(script[..n], a, b, i - 1, j); OsaUnfold(a, b, i - 1, j);
        case Insert => NoCheaperScript(script[..n], a, b, i, j - 1); OsaUnfold(a, b, i, j - 1);
        case Swap => NoCheaperScript(script[..n], a, b, i - 2, j - 2);
      }
    }
  }

  /** Some script costs exactly the distance. */
  lemma {:induction false} BestScript(a: string, b: string, i: nat, j: nat) returns (script: seq<Edit>)
    requires i <= |a| && j <= |b|
    ensures Turns(script, a, b, i, j) && Cost(script) == Osa(a, b, i, j)
    decreases i + j
  {
    hide Osa, Cell;
    OsaUnfold(a, b, i, j);
    if i == 0 && j == 0 {
      script := [];
    } else {
      var init, last;
      if i == 0 || (j > 0 && Osa(a, b, i, j) == Osa(a, b, i, j - 1) + 1) {
        init := BestScript(a, b, i, j - 1);
        OsaUnfold(a, b, i, j - 1);
        last := Insert;
      } else if j == 0 || Osa(a, b, i, j) == Osa(a, b, i - 1, j) + 1 {
        init := BestScript(a, b, i - 1, j);
        OsaUnfold(a, b, i - 1, j);
        last := Delete;
      } else if Swappable(a, b, i, j) && Osa(a, b, i, j) == Osa(a, b, i - 2, j - 2) + 1 {
        init := BestScript(a, b, i - 2, j - 2);
        last := Swap;
      } else {
        init := BestScript(a, b, i - 1, j - 1);
        last := if a[i - 1] == b[j - 1] then Keep else Replace;
      }
      script := init + [last];
      assert script[..|script| - 1] == init;
    }
  }
}
