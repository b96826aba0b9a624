/**
 Lexicographic ordering of strings, as Python's `<` on `str` compares them:
 character by character, a proper prefix ordered before its extensions.
 Day keys are compared with this ordering.
 */
module TextOrder {

  /** True iff `a` sorts strictly before `b`. */
  predicate LexLess(a: string, b: string)
    decreases |a|
  {
    |b| > 0 && (|a| == 0 || a[0] < b[0] || (a[0] == b[0] && LexLess(a[1..], b[1..])))
  }

  /** No string sorts before itself. */
  lemma {:induction false} LexIrreflexive(a: string)
    ensures !LexLess(a, a)
    decreases |a|
  {
    if |a| > 0 {
      LexIrreflexive(a[1..]);
    }
  }

  /** Two strings in the ordering are different strings. */
  lemma LexLessDistinct(a: string, b: string)
    requires LexLess(a, b)
    ensures a != b
  {
    if a == b {
      LexIrreflexive(a);
    }
  }

  /** A strict difference between two equally long strings survives any suffixes. */
  lemma {:induction false} LexExtend(a: string, b: string, s: string, t: string)
    requires |a| == |b|
    requires LexLess(a, b)
    ensures LexLess(a + s, b + t)
    decreases |a|
  {
    assert (a + s)[0] == a[0] && (b + t)[0] == b[0];
    if a[0] == b[0] && !(a[0] < b[0]) {
      assert (a + s)[1..] == a[1..] + s;
      assert (b + t)[1..] == b[1..] + t;
      LexExtend(a[1..], b[1..], s, t);
    }
  }

  /** A common prefix does not change how two strings compare. */
  lemma {:induction false} LexPrefix(p: string, a: string, b: string)
    requires LexLess(a, b)
    ensures LexLess(p + a, p + b)
    decreases |p|
  {
    if |p| > 0 {
      assert (p + a)[1..] == p[1..] + a;
      assert (p + b)[1..] == p[1..] + b;
      LexPrefix(p[1..], a, b);
    } else {
      assert p + a == a && p + b == b;
    }
  }

  /** Equal prefixes followed by a smaller then a larger character. */
  lemma LexAtPosition(p: string, x: char, y: char, s: string, t: string)
    requires x < y
    ensures LexLess(p + [x] + s, p + [y] + t)
  {
    assert LexLess([x], [y]);
    LexExtend([x], [y], s, t);
    LexPrefix(p, [x] + s, [y] + t);
    assert p + [x] + s == p + ([x] + s);
    assert p + [y] + t == p + ([y] + t);
  }
}
