/** Cosine similarity over the reals, and the choice a compaction settles on. */
module Compact {
  import opened Entries
  import opened Vectors

  // ---------- sums ----------

  function Dot(a: Vector, b: Vector): real
    requires |a| == |b|
  {
    if a == [] then 0.0 else
      var n := |a| - 1;
      Dot(a[..n], b[..n]) + a[n] * b[n]
  }

  /** The squared length of x*a - y*b, term by term. */
  function Residual(a: Vector, b: Vector, x: real, y: real): real
    requires |a| == |b|
  {
    if a == [] then 0.0 else
      var n := |a| - 1;
      Residual(a[..n], b[..n], x, y) + Square(Term(a, b, x, y, n))
  }

  function Square(t: real): real {
    t * t
  }

  function Expanded(x: real, y: real, p: real, d: real, q: real): real {
    Square(x) * p - 2.0 * (x * y) * d + Square(y) * q
  }

  lemma SquareExpands(x: real, p: real, y: real, q: real)
    ensures Square(x * p - y * q) == Expanded(x, y, p * p, p * q, q * q)
  {
    var u, v := x * p, y * q;
    assert Square(u - v) == u * u - 2.0 * (u * v) + v * v;
    assert u * u == Square(x) * (p * p);
    assert v * v == Square(y) * (q * q);
    assert u * v == (x * y) * (p * q);
  }

  lemma ExpandedAdds(x: real, y: real, p: real, d: real, q: real, p1: real, d1: real, q1: real)
    ensures Expanded(x, y, p + p1, d + d1, q + q1) == Expanded(x, y, p, d, q) + Expanded(x, y, p1, d1, q1)
  {
    Distributes(Square(x), p, p1);
    Distributes(2.0 * (x * y), d, d1);
    Distributes(Square(y), q, q1);
  }

  lemma ExpandStep(x: real, y: real, r: real, p: real, d: real, q: real, s: real, t: real, u: real,
                   r1: real, p1: real, d1: real, q1: real)
    requires r == Expanded(x, y, p, d, q) && u == x * s - y * t
    requires r1 == r + Square(u) && p1 == p + s * s && d1 == d + s * t && q1 == q + t * t
    ensures r1 == Expanded(x, y, p1, d1, q1)
  {
    SquareExpands(x, s, y, t);
    ExpandedAdds(x, y, p, d, q, s * s, s * t, t * t);
  }

  lemma {:induction false} ResidualExpands(a: Vector, b: Vector, x: real, y: real)
    requires |a| == |b|
    ensures Residual(a, b, x, y) == Expanded(x, y, Dot(a, a), Dot(a, b), Dot(b, b))
  {
    if a != [] {
      var n := |a| - 1;
      var a1, b1 := a[..n], b[..n];
      ResidualExpands(a1, b1, x, y);
      ExpandStep(x, y, Residual(a1, b1, x, y), Dot(a1, a1), Dot(a1, b1), Dot(b1, b1), a[n], b[n], Term(a, b, x, y, n),
                 Residual(a, b, x, y), Dot(a, a), Dot(a, b), Dot(b, b));
    }
  }

  lemma Distributes(k: real, s: real, t: real)
    ensures k * (s + t) == k * s + k * t
  {}

  /** One coordinate of x*a - y*b. */
  function Term(a: Vector, b: Vector, x: real, y: real, i: nat): real
    requires |a| == |b| && i < |a|
  {
    x * a[i] - y * b[i]
  }

  /** x*a and y*b are the same vector. */
  predicate Parallel(a: Vector, b: Vector, x: real, y: real)
    requires |a| == |b|
  {
    forall i: nat | i < |a| :: Term(a, b, x, y, i) == 0.0
  }

  lemma ParallelSnoc(a: Vector, b: Vector, x: real, y: real, n: nat)
    requires |a| == |b| == n + 1
    ensures Parallel(a, b, x, y) <==> Parallel(a[..n], b[..n], x, y) && Term(a, b, x, y, n) == 0.0
  {
    assert forall i: nat | i < n :: Term(a, b, x, y, i) == Term(a[..n], b[..n], x, y, i);
  }

  /** A sum of squares is zero only when every term is. */
  lemma {:induction false} ResidualSign(a: Vector, b: Vector, x: real, y: real)
    requires |a| == |b|
    ensures Residual(a, b, x, y) >= 0.0
    ensures Residual(a, b, x, y) == 0.0 <==> Parallel(a, b, x, y)
  {
    if a != [] {
      var n := |a| - 1;
      ResidualSign(a[..n], b[..n], x, y);
      SquareSign(Term(a, b, x, y, n));
      ParallelSnoc(a, b, x, y, n);
    }
  }

  lemma SquareSign(t: real)
    ensures Square(t) >= 0.0 && (Square(t) == 0.0 <==> t == 0.0)
  {
    if t < 0.0 {
      calc { Square(t); == t * t; == (-t) * (-t); > { ScaleSign(-t, -t); } 0.0; }
    } else if t > 0.0 {
      calc { Square(t); == t * t; > { ScaleSign(t, t); } 0.0; }
    } else {
      assert t == 0.0 && Square(0.0) == 0.0;
    }
  }

  lemma ScaleSign(p: real, x: real)
    requires p > 0.0
    ensures p * x > 0.0 <==> x > 0.0
    ensures p * x < 0.0 <==> x < 0.0
  {}

  lemma SquareOrder(x: real, y: real)
    requires 0.0 <= x < y
    ensures Square(x) < Square(y)
  {
    ScaleSign(y - x, y + x);
    Distributes(y - x, y, x);
    assert (y - x) * y == y * y - x * y && (y - x) * x == y * x - x * x;
  }

  predicate AllZero(v: Vector) {
    forall i | 0 <= i < |v| :: v[i] == 0.0
  }

  lemma NormSign(v: Vector)
    ensures Dot(v, v) >= 0.0 && (Dot(v, v) == 0.0 <==> AllZero(v))
  {
    ResidualExpands(v, v, 1.0, 0.0);
    ResidualSign(v, v, 1.0, 0.0);
    assert Residual(v, v, 1.0, 0.0) == Dot(v, v);
    assert forall i: nat | i < |v| :: Term(v, v, 1.0, 0.0, i) == v[i];
  }

  /** The residual of b on a measures how far Cauchy-Schwarz is from equality. */
  lemma Gap(a: Vector, b: Vector, d: real, p: real, q: real, r: real)
    requires |a| == |b| && d == Dot(a, b) && p == Dot(a, a) && q == Dot(b, b) && r == Residual(a, b, d, p)
    requires p > 0.0 && r >= 0.0
    ensures Square(d) <= p * q && (r == 0.0 <==> Square(d) == p * q)
  {
    ResidualExpands(a, b, d, p);
    Discriminant(d, p, q, r);
  }

  /** Cauchy-Schwarz, with its case of equality: one vector is a multiple of the other. */
  lemma CauchySchwarz(a: Vector, b: Vector, d: real, p: real, q: real)
    requires |a| == |b| && d == Dot(a, b) && p == Dot(a, a) && q == Dot(b, b)
    ensures Square(d) <= p * q
    ensures !AllZero(a) ==> (Square(d) == p * q <==> Parallel(a, b, d, p))
  {
    NormSign(a);
    if AllZero(a) {
      ZeroDot(a, b);
    } else {
      ResidualSign(a, b, d, p);
      Gap(a, b, d, p, q, Residual(a, b, d, p));
    }
  }

  lemma {:induction false} ZeroDot(a: Vector, b: Vector)
    requires |a| == |b| && AllZero(a)
    ensures Dot(a, b) == 0.0 && Dot(a, a) == 0.0
  {
    if a != [] { ZeroDot(a[..|a| - 1], b[..|a| - 1]); }
  }

  lemma Discriminant(d: real, p: real, q: real, r: real)
    requires p > 0.0 && r >= 0.0 && r == Expanded(d, p, p, d, q)
    ensures Square(d) <= p * q && (r == 0.0 <==> Square(d) == p * q)
  {
    assert (d * p) * d == Square(d) * p;
    assert Square(p) * q == p * (p * q);
    assert r == p * (p * q - Square(d));
    ScaleSign(p, p * q - Square(d));
  }

  // ---------- cosine similarity ----------

  /** What the model assumes of `math.Sqrt`. */
  ghost predicate SquareRoot(sqrt: real -> real) {
    forall x :: x >= 0.0 ==> sqrt(x) >= 0.0 && Square(sqrt(x)) == x
  }

  lemma RootsArePositive(sqrt: real -> real, p: real, q: real)
    requires SquareRoot(sqrt) && p > 0.0 && q > 0.0
    ensures sqrt(p) * sqrt(q) > 0.0 && Square(sqrt(p) * sqrt(q)) == p * q
  {
    var s, t := sqrt(p), sqrt(q);
    assert Square(s) == p && Square(t) == q;
    assert s != 0.0 && t != 0.0;
    assert Square(s * t) == Square(s) * Square(t);
  }

  predicate Comparable(a: Vector, b: Vector) {
    |a| == |b| && !AllZero(a) && !AllZero(b)
  }

  ghost function Cosine(sqrt: real -> real, a: Vector, b: Vector): real
    requires Comparable(a, b) && SquareRoot(sqrt)
  {
    NormSign(a); NormSign(b);
    RootsArePositive(sqrt, Dot(a, a), Dot(b, b));
    Dot(a, b) / (sqrt(Dot(a, a)) * sqrt(Dot(b, b)))
  }

  lemma DotSnoc(a: Vector, b: Vector, i: nat)
    requires i < |a| == |b|
    ensures Dot(a[..i + 1], b[..i + 1]) == Dot(a[..i], b[..i]) + a[i] * b[i]
  {
    assert a[..i + 1][..i] == a[..i] && b[..i + 1][..i] == b[..i];
  }

  /** The three accumulators of the one loop. */
  method Sums(v1: Vector, v2: Vector) returns (dot: real, normA: real, normB: real)
    requires |v1| == |v2|
    ensures dot == Dot(v1, v2) && normA == Dot(v1, v1) && normB == Dot(v2, v2)
  {
    dot, normA, normB := 0.0, 0.0, 0.0;
    for i := 0 to |v1|
      invariant dot == Dot(v1[..i], v2[..i])
      invariant normA == Dot(v1[..i], v1[..i])
      invariant normB == Dot(v2[..i], v2[..i])
    {
      DotSnoc(v1, v2, i);
      DotSnoc(v1, v1, i);
      DotSnoc(v2, v2, i);
      dot := dot + v1[i] * v2[i];
      normA := normA + v1[i] * v1[i];
      normB := normB + v2[i] * v2[i];
    }
    assert v1[..|v1|] == v1 && v2[..|v2|] == v2;
  }

  /** An error exactly for vectors of different lengths, empty ones and zero ones. */
  method CosineSimilarity(sqrt: real -> real, v1: Vector, v2: Vector) returns (r: Option<real>)
    requires SquareRoot(sqrt)
    ensures r.Some? <==> Comparable(v1, v2)
    ensures r.Some? ==> r.value == Cosine(sqrt, v1, v2)
  {
    if |v1| != |v2| { return None; }
    if |v1| == 0 { return None; }
    var dot, normA, normB := Sums(v1, v2);
    NormSign(v1);
    NormSign(v2);
    if normA == 0.0 || normB == 0.0 { return None; }
    RootsArePositive(sqrt, normA, normB);
    r := Some(dot / (sqrt(normA) * sqrt(normB)));
  }

  /** The similarity lies in [-1, 1], and is 1 exactly when the second vector is a positive multiple of the first. */
  lemma CosineBound(sqrt: real -> real, a: Vector, b: Vector)
    requires Comparable(a, b) && SquareRoot(sqrt)
    ensures -1.0 <= Cosine(sqrt, a, b) <= 1.0
    ensures Cosine(sqrt, a, b) == 1.0 <==>
              Dot(a, b) > 0.0 && Parallel(a, b, Dot(a, b), Dot(a, a))
  {
    NormSign(a);
    NormSign(b);
    CosineBoundOf(sqrt, a, b, Dot(a, b), Dot(a, a), Dot(b, b), Cosine(sqrt, a, b));
  }

  lemma CosineBoundOf(sqrt: real -> real, a: Vector, b: Vector, d: real, p: real, q: real, z: real)
    requires SquareRoot(sqrt) && |a| == |b| && !AllZero(a) && d == Dot(a, b) && p == Dot(a, a) && q == Dot(b, b)
    requires p > 0.0 && q > 0.0 && sqrt(p) * sqrt(q) != 0.0 && z == d / (sqrt(p) * sqrt(q))
    ensures -1.0 <= z <= 1.0 && (z == 1.0 <==> d > 0.0 && Parallel(a, b, d, p))
  {
    RootsArePositive(sqrt, p, q);
    BoundFrom(a, b, d, p, q, sqrt(p) * sqrt(q), z);
  }

  lemma BoundFrom(a: Vector, b: Vector, d: real, p: real, q: real, m: real, z: real)
    requires |a| == |b| && !AllZero(a) && d == Dot(a, b) && p == Dot(a, a) && q == Dot(b, b)
    requires m > 0.0 && Square(m) == p * q && z == d / m
    ensures -1.0 <= z <= 1.0 && (z == 1.0 <==> d > 0.0 && Parallel(a, b, d, p))
  {
    CauchySchwarz(a, b, d, p, q);
    Quotient(d, m);
  }

  lemma Quotient(d: real, m: real)
    requires m > 0.0 && Square(d) <= Square(m)
    ensures -1.0 <= d / m <= 1.0
    ensures d / m == 1.0 <==> d > 0.0 && Square(d) == Square(m)
  {
    if m < d { SquareOrder(m, d); }
    assert Square(-d) == Square(d);
    if m < -d { SquareOrder(m, -d); }
    assert -m <= d <= m;
    if 0.0 < d < m { SquareOrder(d, m); }
    Ratio(d, m, d / m);
  }

  lemma Ratio(d: real, m: real, z: real)
    requires m > 0.0 && z * m == d && -m <= d <= m
    ensures -1.0 <= z <= 1.0 && (z == 1.0 <==> d == m)
  {
    assert m * (z - 1.0) == d - m && m * (z + 1.0) == d + m;
    ScaleSign(m, z - 1.0);
    ScaleSign(m, z + 1.0);
  }

  // ---------- choosing ----------

  datatype Choice = Choice(text: string, message: string, index: int, finishReason: string)

  function Content(c: Choice): string {
    if c.message != "" then c.message else c.text
  }

  predicate IsZero(c: Choice) {
    Content(c) == "" && c.index == 0 && c.finishReason == ""
  }

  /** A choice that was embedded and could be compared with the original. */
  predicate Scored(embed: string -> Option<Vector>, original: Vector, c: Choice) {
    embed(Content(c)).Some? && Comparable(original, embed(Content(c)).value)
  }

  ghost function Score(sqrt: real -> real, embed: string -> Option<Vector>, original: Vector, c: Choice): real
    requires SquareRoot(sqrt) && Scored(embed, original, c)
  {
    Cosine(sqrt, original, embed(Content(c)).value)
  }

  /** The choices before the first one that fails; none when the original has no usable embedding. */
  ghost function Usable(embed: string -> Option<Vector>, original: Option<Vector>, choices: seq<Choice>): (n: nat)
    ensures n <= |choices|
    ensures n > 0 ==> original.Some?
    ensures original.Some? ==> forall i | 0 <= i < n :: Scored(embed, original.value, choices[i])
    ensures original.Some? && n < |choices| && original.value != [] ==> !Scored(embed, original.value, choices[n])
  {
    if original.None? || original.value == [] || choices == [] then 0
    else
      var m := Usable(embed, original, choices[..|choices| - 1]);
      if m == |choices| - 1 && Scored(embed, original.value, choices[m]) then m + 1 else m
  }

  /** The first of the highest-scoring usable choices, and better than -1. */
  ghost predicate Winner(sqrt: real -> real, embed: string -> Option<Vector>, original: Option<Vector>, choices: seq<Choice>, i: int)
    requires SquareRoot(sqrt)
  {
    var n := Usable(embed, original, choices);
    && 0 <= i < n && Score(sqrt, embed, original.value, choices[i]) > -1.0
    && (forall j | 0 <= j < n ::
          Score(sqrt, embed, original.value, choices[j]) <= Score(sqrt, embed, original.value, choices[i]))
    && (forall j | 0 <= j < i ::
          Score(sqrt, embed, original.value, choices[j]) < Score(sqrt, embed, original.value, choices[i]))
  }

  /** What the loop holds after i usable choices. */
  ghost predicate BestSoFar(sqrt: real -> real, embed: string -> Option<Vector>, original: Vector, choices: seq<Choice>, i: nat,
                            highest: real, best: int)
    requires SquareRoot(sqrt) && i <= |choices| && forall j | 0 <= j < i :: Scored(embed, original, choices[j])
  {
    && -1 <= best < i
    && (best == -1 ==> highest == -1.0)
    && (best >= 0 ==> highest > -1.0 && highest == Score(sqrt, embed, original, choices[best]))
    && (forall j | 0 <= j < i :: Score(sqrt, embed, original, choices[j]) <= highest)
    && (forall j | 0 <= j < best :: Score(sqrt, embed, original, choices[j]) < highest)
  }

  lemma BestStep(sqrt: real -> real, embed: string -> Option<Vector>, original: Vector, choices: seq<Choice>, i: nat,
                 highest: real, best: int, similarity: real)
    requires SquareRoot(sqrt) && i < |choices| && forall j | 0 <= j <= i :: Scored(embed, original, choices[j])
    requires BestSoFar(sqrt, embed, original, choices, i, highest, best)
    requires similarity == Score(sqrt, embed, original, choices[i])
    ensures if similarity > highest then BestSoFar(sqrt, embed, original, choices, i + 1, similarity, i)
            else BestSoFar(sqrt, embed, original, choices, i + 1, highest, best)
  {}

  lemma BestWins(sqrt: real -> real, embed: string -> Option<Vector>, original: Vector, choices: seq<Choice>, i: nat,
                 highest: real, best: int)
    requires SquareRoot(sqrt) && i <= |choices| && i == Usable(embed, Some(original), choices)
    requires BestSoFar(sqrt, embed, original, choices, i, highest, best)
    ensures if best == -1 then forall j :: !Winner(sqrt, embed, Some(original), choices, j)
            else Winner(sqrt, embed, Some(original), choices, best)
  {}

  /** The comparison loop: stops at the first choice that cannot be embedded or compared. */
  method MostSimilar(sqrt: real -> real, embed: string -> Option<Vector>, original: Vector, choices: seq<Choice>)
    returns (best: int)
    requires SquareRoot(sqrt) && original != []
    ensures best == -1 ==> forall i :: !Winner(sqrt, embed, Some(original), choices, i)
    ensures best != -1 ==> Winner(sqrt, embed, Some(original), choices, best)
  {
    best := -1;
    var highest := -1.0;
    ghost var n := Usable(embed, Some(original), choices);
    for i := 0 to |choices|
      invariant i <= n && BestSoFar(sqrt, embed, original, choices, i, highest, best)
    {
      var embedding := embed(Content(choices[i]));
      if embedding.None? {
        assert n == i;
        BestWins(sqrt, embed, original, choices, i, highest, best);
        return;
      }
      var similarity := CosineSimilarity(sqrt, original, embedding.value);
      if similarity.None? {
        assert n == i;
        BestWins(sqrt, embed, original, choices, i, highest, best);
        return;
      }
      assert i < n;
      BestStep(sqrt, embed, original, choices, i, highest, best, similarity.value);
      if similarity.value > highest {
        highest, best := similarity.value, i;
      }
    }
    BestWins(sqrt, embed, original, choices, n, highest, best);
  }

  /** The choice's message is its text, or its plain text when the message is blank. */
  predicate Says(c: Choice, s: string) {
    if c.message == "" then s == c.text else s == c.message
  }

  predicate Empty(c: Choice) {
    Says(c, "") && c.index == 0 && c.finishReason == ""
  }

  method Compact(sqrt: real -> real, embed: string -> Option<Vector>, input: string, choices: seq<Choice>) returns (r: string)
    requires SquareRoot(sqrt)
    ensures choices == [] ==> r == input
    ensures forall i | Winner(sqrt, embed, embed(input), choices, i) && !Empty(choices[i]) :: Says(choices[i], r)
    ensures choices != [] && (forall i | Winner(sqrt, embed, embed(input), choices, i) :: Empty(choices[i])) ==>
              Says(choices[|choices| - 1], r)
  {
    if |choices| == 0 { return input; }
    var best := -1;
    var original := embed(input);
    if original.Some? && |original.value| > 0 {
      best := MostSimilar(sqrt, embed, original.value, choices);
    }
    if best == -1 || IsZero(choices[best]) {
      best := |choices| - 1;
    }
    r := Content(choices[best]);
  }

  /** There is at most one winner, and there is one exactly when some usable choice beats -1. */
  lemma WinnerIff(sqrt: real -> real, embed: string -> Option<Vector>, original: Option<Vector>, choices: seq<Choice>)
    requires SquareRoot(sqrt)
    ensures forall i, j | Winner(sqrt, embed, original, choices, i) && Winner(sqrt, embed, original, choices, j) :: i == j
    ensures (exists i :: Winner(sqrt, embed, original, choices, i)) <==>
              exists j | 0 <= j < Usable(embed, original, choices) :: Score(sqrt, embed, original.value, choices[j]) > -1.0
  {
    var n := Usable(embed, original, choices);
    if j :| 0 <= j < n && Score(sqrt, embed, original.value, choices[j]) > -1.0 {
      var best := FirstHighest(sqrt, embed, original, choices, n);
      assert Winner(sqrt, embed, original, choices, best);
    }
  }

  lemma {:induction false} FirstHighest(sqrt: real -> real, embed: string -> Option<Vector>, original: Option<Vector>,
                                        choices: seq<Choice>, n: nat)
    returns (best: nat)
    requires SquareRoot(sqrt) && 0 < n <= Usable(embed, original, choices)
    ensures best < n
    ensures forall j | 0 <= j < n ::
              Score(sqrt, embed, original.value, choices[j]) <= Score(sqrt, embed, original.value, choices[best])
    ensures forall j | 0 <= j < best ::
              Score(sqrt, embed, original.value, choices[j]) < Score(sqrt, embed, original.value, choices[best])
    decreases n
  {
    best := 0;
    if n > 1 {
      best := FirstHighest(sqrt, embed, original, choices, n - 1);
      if Score(sqrt, embed, original.value, choices[n - 1]) > Score(sqrt, embed, original.value, choices[best]) {
        best := n - 1;
      }
    }
  }

  /** Nothing beats a perfect score: the first usable choice embedded in the original's direction wins. */
  lemma PerfectChoiceWins(sqrt: real -> real, embed: string -> Option<Vector>, original: Option<Vector>, choices: seq<Choice>, i: nat)
    requires SquareRoot(sqrt) && i < Usable(embed, original, choices)
    requires Score(sqrt, embed, original.value, choices[i]) == 1.0
    requires forall j | 0 <= j < i :: Score(sqrt, embed, original.value, choices[j]) != 1.0
    ensures Winner(sqrt, embed, original, choices, i)
  {
    forall j | 0 <= j < Usable(embed, original, choices) ensures Score(sqrt, embed, original.value, choices[j]) <= 1.0 {
      CosineBound(sqrt, original.value, embed(Content(choices[j])).value);
    }
  }
}
