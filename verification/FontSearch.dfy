/** The ternary search for the font size that puts a dragged corner nearest the cursor. The
    measured distance is an arbitrary function of the font size. */
module FontSearch {

  const FONT_MIN := 8.0
  const FONT_MAX := 200.0

  datatype Bracket = Bracket(lo: real, hi: real)

  /** One round: drop the outer third on the side of the larger distance, the left one on ties. */
  function Narrow(distance: real -> real, b: Bracket): Bracket {
    if LeftCloser(distance, b) then Bracket(b.lo, b.hi - Third(b)) else Bracket(b.lo + Third(b), b.hi)
  }

  function Third(b: Bracket): real {
    (b.hi - b.lo) / 3.0
  }

  predicate LeftCloser(distance: real -> real, b: Bracket) {
    distance(b.lo + Third(b)) < distance(b.hi - Third(b))
  }

  function Middle(b: Bracket): real {
    (b.lo + b.hi) / 2.0
  }

  function Rounds(distance: real -> real, n: nat): Bracket {
    if n == 0 then Bracket(FONT_MIN, FONT_MAX) else Narrow(distance, Rounds(distance, n - 1))
  }

  function Width(n: nat): real {
    if n == 0 then FONT_MAX - FONT_MIN else Width(n - 1) * 2.0 / 3.0
  }

  /** Every round keeps two thirds of the bracket, inside the previous one. */
  lemma {:induction false} BracketWidth(distance: real -> real, n: nat)
    ensures var b := Rounds(distance, n);
            FONT_MIN <= b.lo <= b.hi <= FONT_MAX && b.hi - b.lo == Width(n) > 0.0
  {
    if n > 0 {
      BracketWidth(distance, n - 1);
    }
  }

  /** The width first reaches half a pixel at round 15. */
  lemma WidthAt15(n: nat)
    ensures n <= 14 ==> Width(n) > 0.5
    ensures n == 15 ==> Width(n) <= 0.5
  {
    assert Width(5) == 192.0 * 32.0 / 243.0;
    assert Width(10) == 192.0 * 1024.0 / 59049.0;
    assert Width(14) == 192.0 * 16384.0 / 4782969.0;
    if n <= 14 {
      WidthShrinks(n, 14);
    }
  }

  lemma {:induction false} WidthShrinks(m: nat, n: nat)
    requires m <= n
    ensures 0.0 < Width(n) <= Width(m)
    decreases n
  {
    if n > 0 {
      WidthShrinks(if m < n then m else n - 1, n - 1);
    }
  }

  lemma StopsAt15(distance: real -> real, n: nat)
    requires n <= 15
    ensures Rounds(distance, n).hi - Rounds(distance, n).lo > 0.5 <==> n < 15
  {
    BracketWidth(distance, n);
    WidthAt15(n);
  }

  /** One round of the search. */
  method Round(distance: real -> real, lo: real, hi: real) returns (b: Bracket)
    ensures b == Narrow(distance, Bracket(lo, hi))
  {
    var m1 := lo + (hi - lo) / 3.0;
    var m2 := hi - (hi - lo) / 3.0;
    if distance(m1) < distance(m2) {
      b := Bracket(lo, m2);
    } else {
      b := Bracket(m1, hi);
    }
  }

  /** The loop stops by width after exactly 15 rounds, whatever the distance, so its cap of 32
      rounds is never reached. */
  method SolveFontSize(distance: real -> real) returns (size: real, rounds: nat)
    ensures rounds == 15
    ensures size == Middle(Rounds(distance, rounds))
  {
    var b := Bracket(FONT_MIN, FONT_MAX);
    var i := 0;
    while i < 32 && b.hi - b.lo > 0.5
      invariant 0 <= i <= 15
      invariant b == Rounds(distance, i)
      decreases 32 - i
    {
      StopsAt15(distance, i);
      b := Round(distance, b.lo, b.hi);
      i := i + 1;
    }
    StopsAt15(distance, i);
    size, rounds := (b.lo + b.hi) / 2.0, i;
  }

  // ---------- how far the answer can be from the minimiser ----------

  predicate InRange(size: real) {
    FONT_MIN <= size <= FONT_MAX
  }

  /** No size in the range is nearer. */
  ghost predicate Nearest(distance: real -> real, best: real) {
    InRange(best) && forall size :: InRange(size) ==> distance(best) <= distance(size)
  }

  predicate Contains(b: Bracket, size: real) {
    b.lo <= size <= b.hi
  }

  /** Two sizes on one side of `best` whose comparison points away from it lie close together:
      at most `left` apart below it, at most `right` apart above it. */
  predicate Misleads(distance: real -> real, best: real, left: real, right: real, a: real, b: real) {
    FONT_MIN <= a < b <= FONT_MAX ==>
      && (b <= best && distance(a) < distance(b) ==> b - a <= left)
      && (best <= a && distance(a) >= distance(b) ==> b - a <= right)
  }

  ghost predicate MisleadsWithin(distance: real -> real, best: real, left: real, right: real) {
    && FONT_MIN <= best <= FONT_MAX
    && forall a, b :: Misleads(distance, best, left, right, a, b)
  }

  /** The bracket contains `best`, or has just passed it. */
  predicate Near(b: Bracket, best: real, left: real, right: real) {
    || Contains(b, best)
    || (b.hi <= best && best - b.lo <= 3.0 * left)
    || (best <= b.lo && b.hi - best <= 3.0 * right)
  }

  lemma NarrowStaysNear(distance: real -> real, best: real, left: real, right: real, b: Bracket)
    requires Misleads(distance, best, left, right, b.lo + Third(b), b.hi - Third(b))
    requires FONT_MIN <= b.lo < b.hi <= FONT_MAX && Near(b, best, left, right)
    ensures Near(Narrow(distance, b), best, left, right)
  {
    assert b.hi - b.lo == 3.0 * Third(b);
  }

  /** A round drops `best` only when the two points it compares mislead, and then their spacing
      bounds how far the bracket can be from `best` ever after. */
  lemma {:induction false} BracketNear(distance: real -> real, best: real, left: real, right: real, n: nat)
    requires MisleadsWithin(distance, best, left, right)
    ensures Near(Rounds(distance, n), best, left, right)
  {
    if n > 0 {
      BracketNear(distance, best, left, right, n - 1);
      BracketWidth(distance, n - 1);
      NarrowStaysNear(distance, best, left, right, Rounds(distance, n - 1));
    }
  }

  /** Once the loop has stopped by width, the answer is within a quarter pixel of `best`, or
      within three times the misleading spacing on the side that misled. */
  lemma AnswerNear(distance: real -> real, best: real, left: real, right: real, n: nat)
    requires MisleadsWithin(distance, best, left, right) && Width(n) <= 0.5
    ensures var size := Middle(Rounds(distance, n));
            || -0.25 <= size - best <= 0.25
            || 0.0 <= best - size <= 3.0 * left
            || 0.0 <= size - best <= 3.0 * right
  {
    BracketNear(distance, best, left, right, n);
    BracketWidth(distance, n);
  }

  /** The distance never increases up to `best` and never decreases after it, and sizes after
      `best` at the same distance are at most `ties` apart. */
  ghost predicate Valley(distance: real -> real, best: real, ties: real) {
    && FONT_MIN <= best <= FONT_MAX
    && (forall a, b :: FONT_MIN <= a <= b <= best ==> distance(a) >= distance(b))
    && (forall a, b :: best <= a <= b <= FONT_MAX ==> distance(a) <= distance(b))
    && (forall a, b :: best <= a <= b <= FONT_MAX && distance(a) == distance(b) ==> b - a <= ties)
  }

  lemma ValleyMisleads(distance: real -> real, best: real, ties: real)
    requires Valley(distance, best, ties)
    ensures MisleadsWithin(distance, best, 0.0, ties)
  {
    forall a, b
      ensures Misleads(distance, best, 0.0, ties, a, b)
    {
    }
  }

  /** In a valley every bracket contains the minimiser, or starts after it and ends within
      three times the longest tie. */
  lemma BracketHolds(distance: real -> real, best: real, ties: real, n: nat)
    requires Valley(distance, best, ties)
    ensures var b := Rounds(distance, n);
            Contains(b, best) || (best <= b.lo && b.hi - best <= 3.0 * ties)
  {
    ValleyMisleads(distance, best, ties);
    BracketNear(distance, best, 0.0, ties, n);
    BracketWidth(distance, n);
  }

  /** In a valley the answer is within a quarter pixel of the minimiser, or after it by at most
      three times the longest tie; without ties, always within a quarter pixel. */
  lemma WithinQuarterPixel(distance: real -> real, best: real, ties: real, n: nat)
    requires Valley(distance, best, ties) && Width(n) <= 0.5
    ensures var size := Middle(Rounds(distance, n));
            || -0.25 <= size - best <= 0.25
            || (ties > 0.0 && best <= size <= best + 3.0 * ties)
  {
    BracketHolds(distance, best, ties, n);
    BracketWidth(distance, n);
  }

  lemma BracketInRange(distance: real -> real, n: nat)
    ensures var b := Rounds(distance, n); FONT_MIN <= b.lo <= b.hi <= FONT_MAX
  {
    BracketWidth(distance, n);
  }

  /** The distances order the sizes of the search range alike, as a distance and its square do. */
  ghost predicate OrderAlike(d: real -> real, e: real -> real) {
    forall a, b :: InRange(a) && InRange(b) ==> (d(a) < d(b) <==> e(a) < e(b))
  }

  lemma NarrowAlike(d: real -> real, e: real -> real, b: Bracket)
    requires OrderAlike(d, e) && FONT_MIN <= b.lo <= b.hi <= FONT_MAX
    ensures Narrow(d, b) == Narrow(e, b)
  {
    assert InRange(b.lo + Third(b)) && InRange(b.hi - Third(b));
  }

  lemma RoundsStep(distance: real -> real, n: nat, b: Bracket)
    requires Rounds(distance, n) == b
    ensures Rounds(distance, n + 1) == Narrow(distance, b)
  {
  }

  /** Distances that order sizes alike are searched alike. */
  lemma {:induction false} SameOrderSameRounds(d: real -> real, e: real -> real, n: nat)
    requires OrderAlike(d, e)
    ensures Rounds(d, n) == Rounds(e, n)
  {
    if n > 0 {
      var m: nat := n - 1;
      var b := Rounds(d, m);
      SameOrderSameRounds(d, e, m);
      BracketInRange(d, m);
      NarrowAlike(d, e, b);
      RoundsStep(d, m, b);
      RoundsStep(e, m, b);
    }
  }

  lemma NarrowInside(distance: real -> real, b: Bracket)
    requires b.lo <= b.hi
    ensures b.lo <= Narrow(distance, b).lo <= Narrow(distance, b).hi <= b.hi
  {
  }

  lemma {:induction false} RoundsNest(distance: real -> real, m: nat, n: nat)
    requires m <= n
    ensures var outer, inner := Rounds(distance, m), Rounds(distance, n);
            outer.lo <= inner.lo <= inner.hi <= outer.hi
    decreases n
  {
    if m == n {
      BracketInRange(distance, n);
    } else {
      var b := Rounds(distance, n - 1);
      BracketInRange(distance, n - 1);
      RoundsNest(distance, m, n - 1);
      NarrowInside(distance, b);
      RoundsStep(distance, n - 1, b);
    }
  }
}
