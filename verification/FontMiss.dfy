/** A drag on which the search misses the promised half pixel by more than five. */
module FontMiss {

  import opened FontSearch
  import opened FontFit

  /** One line, half as wide per pixel as its font size; the cursor lies off the corner's line. */
  const LINE := Lines(0.5, 1)
  const DRAG := Drag(1.0, 1.0, 0.0, 0.0, 116.0, 32.0)

  /** The squared distance for a text measured `width` by `height`, padding excluded. */
  function Score(width: int, height: int): int {
    (width - 92) * (width - 92) + (height - 16) * (height - 16)
  }

  function ScoreAt(size: real): int {
    Score(Ceil(0.5 * size), Ceil(1.3 * size))
  }

  function Scores(): real -> real {
    size => ScoreAt(size) as real
  }

  lemma WholeGap(size: real)
    ensures var p := Gap(DRAG, Bounds(LINE, size));
            p.x == (Ceil(0.5 * size) - 92) as real && p.y == (Ceil(1.3 * size) - 16) as real
  {
    assert 1 as real * (size * LINE_HEIGHT_MULTIPLIER) == 1.3 * size;
  }

  lemma WholeSquare(p: Vector, x: int, y: int)
    requires p.x == x as real && p.y == y as real
    ensures Dot(p, p) == (x * x + y * y) as real
  {
  }

  lemma ScoreIsSquare(hypot: Vector -> real, size: real)
    requires IsHypot(hypot)
    ensures var d := DistanceAtFont(hypot, DRAG, LINE)(size);
            d >= 0.0 && d * d == Scores()(size)
  {
    WholeGap(size);
    WholeSquare(Gap(DRAG, Bounds(LINE, size)), Ceil(0.5 * size) - 92, Ceil(1.3 * size) - 16);
  }

  lemma ScoreOrder(hypot: Vector -> real, a: real, b: real)
    requires IsHypot(hypot)
    ensures var d := DistanceAtFont(hypot, DRAG, LINE); d(a) < d(b) <==> ScoreAt(a) < ScoreAt(b)
  {
    var d := DistanceAtFont(hypot, DRAG, LINE);
    ScoreIsSquare(hypot, a);
    ScoreIsSquare(hypot, b);
    SquareOrder(d(b), d(a));
  }

  predicate Measures(size: real, width: int, height: int) {
    && (width - 1) as real < 0.5 * size <= width as real
    && (height - 1) as real < 1.3 * size <= height as real
  }

  lemma MeasuredScore(size: real, width: int, height: int)
    requires Measures(size, width, height)
    ensures Scores()(size) == Score(width, height) as real
  {
    assert Ceil(0.5 * size) == width && Ceil(1.3 * size) == height;
  }

  /** One round, given the measured sizes at the two points it compares. */
  lemma ScoreRound(n: nat, b: Bracket, w1: int, h1: int, w2: int, h2: int)
    requires Rounds(Scores(), n) == b
    requires Measures(b.lo + Third(b), w1, h1) && Measures(b.hi - Third(b), w2, h2)
    ensures Rounds(Scores(), n + 1) ==
            if Score(w1, h1) < Score(w2, h2) then Bracket(b.lo, b.hi - Third(b)) else Bracket(b.lo + Third(b), b.hi)
  {
    MeasuredScore(b.lo + Third(b), w1, h1);
    MeasuredScore(b.hi - Third(b), w2, h2);
    RoundBy(Scores(), n, b, Score(w1, h1) as real, Score(w2, h2) as real);
  }

  lemma RoundBy(distance: real -> real, n: nat, b: Bracket, left: real, right: real)
    requires Rounds(distance, n) == b
    requires distance(b.lo + Third(b)) == left && distance(b.hi - Third(b)) == right
    ensures Rounds(distance, n + 1) ==
            if left < right then Bracket(b.lo, b.hi - Third(b)) else Bracket(b.lo + Third(b), b.hi)
  {
    assert LeftCloser(distance, b) <==> left < right;
  }

  /** The first nine rounds; the ninth drops the best sizes. */
  lemma NineRounds(n: nat)
    requires Rounds(Scores(), n) == Bracket(8.0, 200.0)
    ensures Rounds(Scores(), n + 9) == Bracket(53336.0 / 2187.0, 192776.0 / 6561.0)
  {
    ScoreRound(n, Bracket(8.0, 200.0), 36, 94, 68, 177);
    ScoreRound(n + 1, Bracket(8.0, 136.0), 26, 66, 47, 122);
    ScoreRound(n + 2, Bracket(8.0, 280.0 / 3.0), 19, 48, 33, 85);
    ScoreRound(n + 3, Bracket(8.0, 584.0 / 9.0), 14, 36, 23, 60);
    ScoreRound(n + 4, Bracket(8.0, 1240.0 / 27.0), 11, 27, 17, 44);
    ScoreRound(n + 5, Bracket(1672.0 / 81.0, 1240.0 / 27.0), 15, 38, 19, 49);
    ScoreRound(n + 6, Bracket(1672.0 / 81.0, 9112.0 / 243.0), 14, 35, 16, 42);
    ScoreRound(n + 7, Bracket(1672.0 / 81.0, 23240.0 / 729.0), 13, 32, 15, 37);
    ScoreRound(n + 8, Bracket(53336.0 / 2187.0, 23240.0 / 729.0), 14, 35, 15, 39);
  }

  /** Up to 35 the width is far short of the cursor, or short of it while the height is far past. */
  lemma WorseBelow(size: real)
    requires FONT_MIN <= size <= 35.0
    ensures ScoreAt(size) > 6290
  {
    var w, h := Ceil(0.5 * size), Ceil(1.3 * size);
    assert 4 <= w <= 18;
    var x, y := 92 - w, h - 16;
    assert Score(w, h) == x * x + y * y;
    if w <= 12 {
      Squares(x, 80);
    } else {
      assert h >= 2 * w + w / 2 - 1;
    }
  }

  lemma Squares(x: int, bound: int)
    requires x >= bound >= 0
    ensures x * x >= bound * bound
  {
    assert x * x - bound * bound == (x - bound) * (x + bound);
  }

  lemma AnswerBelow30(first: nat, n: nat)
    requires Rounds(Scores(), first) == Bracket(8.0, 200.0) && n >= first + 9
    ensures Middle(Rounds(Scores(), n)) < 30.0
  {
    NineRounds(first);
    RoundsNest(Scores(), first + 9, n);
  }

  lemma BestAbove35(hypot: Vector -> real, size: real)
    requires IsHypot(hypot) && FONT_MIN <= size <= 35.0
    ensures DistanceAtFont(hypot, DRAG, LINE)(size) > DistanceAtFont(hypot, DRAG, LINE)(36.1)
  {
    WorseBelow(size);
    MeasuredScore(36.1, 19, 47);
    ScoreOrder(hypot, 36.1, size);
  }

  /** Once nine rounds are done the answer is below 30, but every size up to 35 is farther from
      the cursor than 36.1 is: the nearest size is more than five pixels away. */
  lemma MissesByFive(hypot: Vector -> real, n: nat)
    requires IsHypot(hypot) && n >= 9
    ensures var distance := DistanceAtFont(hypot, DRAG, LINE);
            && Middle(Rounds(distance, n)) < 30.0
            && (forall size :: FONT_MIN <= size <= 35.0 ==> distance(size) > distance(36.1))
            && (forall best :: Nearest(distance, best) ==> best - Middle(Rounds(distance, n)) > 5.0)
  {
    var distance := DistanceAtFont(hypot, DRAG, LINE);
    forall a, b
      ensures distance(a) < distance(b) <==> Scores()(a) < Scores()(b)
    {
      ScoreOrder(hypot, a, b);
    }
    SameOrderSameRounds(distance, Scores(), n);
    AnswerBelow30(0, n);
    forall size | FONT_MIN <= size <= 35.0
      ensures distance(size) > distance(36.1)
    {
      BestAbove35(hypot, size);
    }
    assert InRange(36.1);
  }
}
