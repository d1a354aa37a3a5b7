/**
  Lexicographic order on sequences of character codes: the order JavaScript's
  `<` and `>=` give two strings whose characters are all single UTF-16 code
  units. A proper prefix sorts before the longer sequence.
*/
module LexOrder {

  /** `x` sorts strictly before `y`. */
  predicate Less(x: seq<int>, y: seq<int>)
    decreases |x|
  {
    |y| > 0 && (|x| == 0 || x[0] < y[0] || (x[0] == y[0] && Less(x[1..], y[1..])))
  }

  /** No sequence sorts before itself. */
  lemma {:induction false} LessIrreflexive(x: seq<int>)
    ensures !Less(x, x)
    decreases |x|
  {
    if |x| > 0 {
      LessIrreflexive(x[1..]);
    }
  }

  /** The order is transitive. */
  lemma {:induction false} LessTransitive(x: seq<int>, y: seq<int>, z: seq<int>)
    requires Less(x, y) && Less(y, z)
    ensures Less(x, z)
    decreases |x|
  {
    if |x| > 0 && x[0] == y[0] && y[0] == z[0] {
      LessTransitive(x[1..], y[1..], z[1..]);
    }
  }

  /** The order is total: of two different sequences one sorts first. */
  lemma {:induction false} LessTotal(x: seq<int>, y: seq<int>)
    requires x != y
    ensures Less(x, y) || Less(y, x)
    decreases |x|
  {
    if |x| > 0 && |y| > 0 && x[0] == y[0] {
      assert x == [x[0]] + x[1..] && y == [y[0]] + y[1..];
      LessTotal(x[1..], y[1..]);
    }
  }

  /** A proper prefix sorts before the longer sequence. */
  lemma {:induction false} ProperPrefixLess(p: seq<int>, x: seq<int>)
    requires |p| < |x| && p == x[..|p|]
    ensures Less(p, x)
    decreases |p|
  {
    if |p| > 0 {
      ProperPrefixLess(p[1..], x[1..]);
    }
  }

  /** Putting the same prefix in front of two sequences keeps their order. */
  lemma {:induction false} LessCommonPrefix(p: seq<int>, x: seq<int>, y: seq<int>)
    requires Less(x, y)
    ensures Less(p + x, p + y)
    decreases |p|
  {
    if |p| > 0 {
      assert (p + x)[1..] == p[1..] + x;
      assert (p + y)[1..] == p[1..] + y;
      LessCommonPrefix(p[1..], x, y);
    } else {
      assert p + x == x && p + y == y;
    }
  }
}
