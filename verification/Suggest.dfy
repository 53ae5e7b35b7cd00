/** "Did you mean ...?": the bounded edit distance and the best-match search of
    `crates/core/leek-diagnostics/src/suggest.rs`.

    The reference definition is the least cost over all alignments of the two
    byte strings; the two-row dynamic program with its length cut-off and its
    row-minimum early exit is proved to compute it whenever it fits the budget. */
module Suggest {
  import opened Options
  import opened ByteStrings

  type Text = seq<byte>

  // ---- The reference: alignments and their cost ----

  /** One column of an alignment of two strings. */
  datatype Column = Pair(x: byte, y: byte) | Delete(x: byte) | Insert(y: byte)

  ghost function Upper(cols: seq<Column>): Text {
    if cols == [] then []
    else Upper(cols[..|cols| - 1]) + match cols[|cols| - 1] {
      case Pair(x, _) => [x]
      case Delete(x) => [x]
      case Insert(_) => []
    }
  }

  ghost function Lower(cols: seq<Column>): Text {
    if cols == [] then []
    else Lower(cols[..|cols| - 1]) + match cols[|cols| - 1] {
      case Pair(_, y) => [y]
      case Delete(_) => []
      case Insert(y) => [y]
    }
  }

  ghost function Cost(cols: seq<Column>): nat {
    if cols == [] then 0
    else Cost(cols[..|cols| - 1]) + match cols[|cols| - 1] {
      case Pair(x, y) => if x == y then 0 else 1
      case _ => 1
    }
  }

  ghost predicate Aligns(cols: seq<Column>, a: Text, b: Text) {
    Upper(cols) == a && Lower(cols) == b
  }

  /** `d` is the least cost of an alignment of `a` and `b`. */
  ghost predicate IsEditDistance(a: Text, b: Text, d: nat) {
    && (exists cols :: Aligns(cols, a, b) && Cost(cols) == d)
    && (forall cols :: Aligns(cols, a, b) ==> d <= Cost(cols))
  }

  // ---- The recurrence the dynamic program tabulates ----

  function Mismatch(x: byte, y: byte): nat { if x == y then 0 else 1 }

  function Min(x: nat, y: nat): nat { if x <= y then x else y }

  /** Distance of the prefixes `a[..i]` and `b[..j]`. */
  ghost function Dist(a: Text, b: Text, i: nat, j: nat): nat
    requires i <= |a| && j <= |b|
  {
    if i == 0 then j
    else if j == 0 then i
    else Min(Min(Dist(a, b, i, j - 1) + 1, Dist(a, b, i - 1, j) + 1),
             Dist(a, b, i - 1, j - 1) + Mismatch(a[i - 1], b[j - 1]))
  }

  ghost function Distance(a: Text, b: Text): nat { Dist(a, b, |a|, |b|) }

  /** Appending one column. */
  lemma Snoc(cols: seq<Column>, c: Column)
    ensures Upper(cols + [c]) == Upper(cols) + if c.Insert? then [] else [c.x]
    ensures Lower(cols + [c]) == Lower(cols) + if c.Delete? then [] else [c.y]
    ensures Cost(cols + [c]) == Cost(cols) + if c.Pair? && c.x == c.y then 0 else 1
  {
    assert (cols + [c])[..|cols + [c]| - 1] == cols;
  }

  /** An optimal alignment of the two prefixes. */
  ghost function Witness(a: Text, b: Text, i: nat, j: nat): (cols: seq<Column>)
    requires i <= |a| && j <= |b|
  {
    if i == 0 && j == 0 then []
    else if i == 0 then Witness(a, b, 0, j - 1) + [Insert(b[j - 1])]
    else if j == 0 then Witness(a, b, i - 1, 0) + [Delete(a[i - 1])]
    else if Dist(a, b, i, j) == Dist(a, b, i, j - 1) + 1 then Witness(a, b, i, j - 1) + [Insert(b[j - 1])]
    else if Dist(a, b, i, j) == Dist(a, b, i - 1, j) + 1 then Witness(a, b, i - 1, j) + [Delete(a[i - 1])]
    else Witness(a, b, i - 1, j - 1) + [Pair(a[i - 1], b[j - 1])]
  }

  lemma EmptyAligns()
    ensures Aligns([], [], []) && Cost([]) == 0
  {}

  lemma {:induction false} WitnessAligns(a: Text, b: Text, i: nat, j: nat)
    requires i <= |a| && j <= |b|
    ensures Aligns(Witness(a, b, i, j), a[..i], b[..j])
    ensures Cost(Witness(a, b, i, j)) == Dist(a, b, i, j)
    decreases i + j
  {
    EmptyAligns();
    hide Upper, Lower, Cost;
    if i > 0 { assert a[..i] == a[..i - 1] + [a[i - 1]]; }
    if j > 0 { assert b[..j] == b[..j - 1] + [b[j - 1]]; }
    if i == 0 && j == 0 {
    } else if i == 0 || (j > 0 && Dist(a, b, i, j) == Dist(a, b, i, j - 1) + 1) {
      WitnessAligns(a, b, i, j - 1);
      Snoc(Witness(a, b, i, j - 1), Insert(b[j - 1]));
    } else if j == 0 || Dist(a, b, i, j) == Dist(a, b, i - 1, j) + 1 {
      WitnessAligns(a, b, i - 1, j);
      Snoc(Witness(a, b, i - 1, j), Delete(a[i - 1]));
    } else {
      WitnessAligns(a, b, i - 1, j - 1);
      Snoc(Witness(a, b, i - 1, j - 1), Pair(a[i - 1], b[j - 1]));
    }
  }

  lemma {:induction false} NoCheaperAlignment(a: Text, b: Text, i: nat, j: nat, cols: seq<Column>)
    requires i <= |a| && j <= |b|
    requires Aligns(cols, a[..i], b[..j])
    ensures Dist(a, b, i, j) <= Cost(cols)
    decreases |cols|
  {
    EmptyAligns();
    hide Upper, Lower, Cost;
    if cols == [] {
    } else {
      var front, last := cols[..|cols| - 1], cols[|cols| - 1];
      assert cols == front + [last];
      Snoc(front, last);
      match last {
        case Pair(x, y) =>
          assert Upper(front) == a[..i - 1] && x == a[..i][i - 1];
          assert Lower(front) == b[..j - 1] && y == b[..j][j - 1];
          NoCheaperAlignment(a, b, i - 1, j - 1, front);
        case Delete(x) =>
          assert Upper(front) == a[..i - 1];
          NoCheaperAlignment(a, b, i - 1, j, front);
          NeighboursDifferByOne(a, b, i, j);
        case Insert(y) =>
          assert Lower(front) == b[..j - 1];
          NoCheaperAlignment(a, b, i, j - 1, front);
          NeighboursDifferByOne(a, b, i, j);
      }
    }
  }

  lemma NeighboursDifferByOne(a: Text, b: Text, i: nat, j: nat)
    requires i <= |a| && j <= |b|
    ensures i > 0 ==> Dist(a, b, i, j) <= Dist(a, b, i - 1, j) + 1
    ensures j > 0 ==> Dist(a, b, i, j) <= Dist(a, b, i, j - 1) + 1
  {}

  /** The recurrence computes the minimum over all alignments. */
  lemma DistanceIsMinimal(a: Text, b: Text)
    ensures IsEditDistance(a, b, Distance(a, b))
  {
    assert a[..|a|] == a && b[..|b|] == b;
    WitnessAligns(a, b, |a|, |b|);
    forall cols | Aligns(cols, a, b) ensures Distance(a, b) <= Cost(cols) {
      NoCheaperAlignment(a, b, |a|, |b|, cols);
    }
  }

  // ---- What the two cut-offs rely on ----

  function AbsDiff(m: nat, n: nat): nat { if m <= n then n - m else m - n }

  /** The length difference bounds the distance from below. */
  lemma {:induction false} LengthBound(a: Text, b: Text, i: nat, j: nat)
    requires i <= |a| && j <= |b|
    ensures AbsDiff(i, j) <= Dist(a, b, i, j)
    decreases i + j
  {
    if i > 0 && j > 0 {
      LengthBound(a, b, i, j - 1);
      LengthBound(a, b, i - 1, j);
      LengthBound(a, b, i - 1, j - 1);
    }
  }

  /** Every entry of row `i` is above `max`. */
  ghost predicate RowAbove(a: Text, b: Text, i: nat, max: nat)
    requires i <= |a|
  {
    forall j: nat :: j <= |b| ==> Dist(a, b, i, j) > max
  }

  lemma {:induction false} NextRowAbove(a: Text, b: Text, i: nat, max: nat, j: nat)
    requires i < |a| && j <= |b| && RowAbove(a, b, i, max)
    ensures Dist(a, b, i + 1, j) > max
    decreases j
  {
    assert Dist(a, b, i, j) > max;
    if j == 0 {
    } else {
      NextRowAbove(a, b, i, max, j - 1);
      assert Dist(a, b, i, j - 1) > max;
    }
  }

  /** Row minima never decrease, so a row above the budget keeps all later ones above it. */
  lemma {:induction false} RowsStayAbove(a: Text, b: Text, i: nat, max: nat)
    requires i <= |a| && RowAbove(a, b, i, max)
    ensures Distance(a, b) > max
    decreases |a| - i
  {
    if i < |a| {
      var next := i + 1;
      forall j: nat | j <= |b| ensures Dist(a, b, next, j) > max {
        NextRowAbove(a, b, i, max, j);
      }
      RowsStayAbove(a, b, next, max);
    }
  }

  // ---- The two-row dynamic program ----

  /** The first `n` cells of `row` are the first `n` entries of row `i`. */
  ghost predicate HoldsRow(a: Text, b: Text, i: nat, row: array<nat>, n: nat)
    requires i <= |a| && n <= |b| + 1 == row.Length
    reads row
  {
    forall j: nat :: j < n ==> row[j] == Dist(a, b, i, j)
  }

  /** The inner loop: fill `curr` with row `i` from row `i - 1` and find its minimum. */
  method FillRow(a: Text, b: Text, i: nat, prev: array<nat>, curr: array<nat>) returns (rowMin: nat)
    requires 1 <= i <= |a| && prev != curr && prev.Length == curr.Length == |b| + 1
    requires HoldsRow(a, b, i - 1, prev, |b| + 1)
    modifies curr
    ensures HoldsRow(a, b, i, curr, |b| + 1)
    ensures forall max: nat :: rowMin > max ==> RowAbove(a, b, i, max)
  {
    curr[0] := i;
    rowMin := curr[0];
    var j := 1;
    while j <= |b|
      invariant 1 <= j <= |b| + 1
      invariant HoldsRow(a, b, i - 1, prev, |b| + 1)
      invariant HoldsRow(a, b, i, curr, j)
      invariant forall k: nat :: k < j ==> rowMin <= Dist(a, b, i, k)
    {
      var cost := Mismatch(a[i - 1], b[j - 1]);
      curr[j] := Min(Min(curr[j - 1] + 1, prev[j] + 1), prev[j - 1] + cost);
      assert curr[j] == Dist(a, b, i, j);
      rowMin := Min(rowMin, curr[j]);
      j := j + 1;
    }
  }

  /** `levenshtein`: exact within the budget, above the budget otherwise. */
  method Levenshtein(a: Text, b: Text, max: nat) returns (d: nat)
    ensures Distance(a, b) <= max ==> d == Distance(a, b)
    ensures Distance(a, b) > max ==> d > max
  {
    var m, n := |a|, |b|;
    LengthBound(a, b, m, n);
    if AbsDiff(m, n) > max {
      return max + 1;
    }
    if m == 0 {
      return n;
    }
    if n == 0 {
      return m;
    }
    var prev := new nat[n + 1](j => j);
    var curr := new nat[n + 1](_ => 0);
    var i := 1;
    while i <= m
      invariant 1 <= i <= m + 1
      invariant prev != curr && prev.Length == curr.Length == n + 1
      invariant fresh(prev) && fresh(curr)
      invariant HoldsRow(a, b, i - 1, prev, n + 1)
    {
      var rowMin := FillRow(a, b, i, prev, curr);
      if rowMin > max {
        RowsStayAbove(a, b, i, max);
        return max + 1;
      }
      prev, curr := curr, prev;
      i := i + 1;
    }
    return prev[n];
  }

  // ---- Best match ----

  function Budget(needle: Text): nat {
    var third := (if |needle| > 1 then |needle| else 1) / 3;
    if third > 1 then third else 1
  }

  /** The budget is the largest number that fits three times into the needle, and at least one. */
  lemma BudgetIsAThird(needle: Text)
    ensures Budget(needle) >= 1 && |needle| < 3 * (Budget(needle) + 1)
    ensures Budget(needle) > 1 ==> 3 * Budget(needle) <= |needle|
  {}

  /** Candidate `i` may be suggested: it is another word within the true distance budget. */
  ghost predicate Eligible(needle: Text, candidates: seq<Text>, i: nat)
    requires i < |candidates|
  {
    candidates[i] != needle && Distance(needle, candidates[i]) <= Budget(needle)
  }

  /** Candidate `i` is the first of the closest eligible ones among the first `n`. */
  ghost predicate FirstClosest(needle: Text, candidates: seq<Text>, n: nat, i: nat)
    requires i < n <= |candidates|
  {
    && Eligible(needle, candidates, i)
    && (forall k: nat :: k < n && Eligible(needle, candidates, k) ==>
          Distance(needle, candidates[i]) <= Distance(needle, candidates[k]))
    && (forall k: nat :: k < i && Eligible(needle, candidates, k) ==>
          Distance(needle, candidates[i]) < Distance(needle, candidates[k]))
  }

  /** `best_match`, answering with the position of the chosen candidate. */
  method BestMatch(needle: Text, candidates: seq<Text>) returns (best: Option<nat>)
    ensures best == None <==>
            needle == [] || forall i: nat :: i < |candidates| ==> !Eligible(needle, candidates, i)
    ensures best.Some? ==>
              best.value < |candidates| && FirstClosest(needle, candidates, |candidates|, best.value)
  {
    if needle == [] {
      return None;
    }
    var budget := Budget(needle);
    best := None;
    var bestDistance := 0;
    for i := 0 to |candidates|
      invariant best == None ==> forall k: nat :: k < i ==> !Eligible(needle, candidates, k)
      invariant best.Some? ==>
                  best.value < i && FirstClosest(needle, candidates, i, best.value)
                  && bestDistance == Distance(needle, candidates[best.value])
    {
      if candidates[i] == needle {
        continue;
      }
      var d := Levenshtein(needle, candidates[i], budget);
      if d <= budget && (best == None || d < bestDistance) {
        best, bestDistance := Some(i), d;
      }
    }
  }
}
