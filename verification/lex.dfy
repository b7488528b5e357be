/** The lexicographic order on equal-length integer sequences, the reference
    ordering that dates and versions are compared against. */
module Lex {

  /** `xs` is equal to or after `ys`: the first position where they differ
      holds the larger value in `xs`. */
  predicate LexGe(xs: seq<int>, ys: seq<int>)
    requires |xs| == |ys|
    decreases |xs|
  {
    |xs| == 0 || xs[0] > ys[0] || (xs[0] == ys[0] && LexGe(xs[1..], ys[1..]))
  }

  lemma {:induction false} LexGeReflexive(xs: seq<int>)
    ensures LexGe(xs, xs)
    decreases |xs|
  {
    if |xs| > 0 {
      LexGeReflexive(xs[1..]);
    }
  }

  lemma {:induction false} LexGeTotal(xs: seq<int>, ys: seq<int>)
    requires |xs| == |ys|
    ensures LexGe(xs, ys) || LexGe(ys, xs)
    decreases |xs|
  {
    if |xs| > 0 && xs[0] == ys[0] {
      LexGeTotal(xs[1..], ys[1..]);
    }
  }

  lemma {:induction false} LexGeAntisymmetric(xs: seq<int>, ys: seq<int>)
    requires |xs| == |ys|
    ensures LexGe(xs, ys) && LexGe(ys, xs) <==> xs == ys
    decreases |xs|
  {
    if xs == ys {
      LexGeReflexive(xs);
    } else if |xs| > 0 && xs[0] == ys[0] {
      LexGeAntisymmetric(xs[1..], ys[1..]);
      assert xs == [xs[0]] + xs[1..] && ys == [ys[0]] + ys[1..];
    }
  }

  lemma {:induction false} LexGeTransitive(xs: seq<int>, ys: seq<int>, zs: seq<int>)
    requires |xs| == |ys| == |zs|
    requires LexGe(xs, ys) && LexGe(ys, zs)
    ensures LexGe(xs, zs)
    decreases |xs|
  {
    if |xs| > 0 && xs[0] == ys[0] == zs[0] {
      LexGeTransitive(xs[1..], ys[1..], zs[1..]);
    }
  }

  /** The order on triples, spelled out. */
  lemma LexGeTriple(x0: int, x1: int, x2: int, y0: int, y1: int, y2: int)
    ensures LexGe([x0, x1, x2], [y0, y1, y2])
        <==> x0 > y0 || (x0 == y0 && (x1 > y1 || (x1 == y1 && x2 >= y2)))
  {
    assert [x0, x1, x2][1..] == [x1, x2] && [y0, y1, y2][1..] == [y1, y2];
    assert [x1, x2][1..] == [x2] && [y1, y2][1..] == [y2];
    assert [x2][1..] == [] && [y2][1..] == [];
    assert LexGe([x2], [y2]) <==> x2 >= y2;
    assert LexGe([x1, x2], [y1, y2]) <==> x1 > y1 || (x1 == y1 && x2 >= y2);
  }
}
