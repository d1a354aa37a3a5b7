/**
  The fractional-index key generator of index.js: given a lower bound `a` and
  an optional upper bound `b`, build a key that sorts strictly between them.

  Keys are sequences of character codes drawn from the contiguous alphabet
  `[zero, upperLimit)`. A key never ends in the `zero` digit, and keys compare
  by plain lexicographic order (LexOrder.Less).
*/
module FractionalIndexing {
  import opened Wrappers
  import opened LexOrder

  /** A digit alphabet: the codes `zero .. upperLimit - 1`. */
  datatype Alphabet = Alphabet(zero: int, upperLimit: int) {
    /** At least two digits, so that an open-ended interval has room for a midpoint. */
    predicate Valid() {
      zero + 1 < upperLimit
    }
  }

  /** The configuration the library ships: the printable ASCII range, base 95. */
  const Base95 := Alphabet(32, 127)

  /** The alternative configuration left commented out: the digits '0' to '9'. */
  const Base10 := Alphabet(48, 58)

  type Key = seq<int>

  /** The two ways a call fails; both are thrown exceptions in index.js. */
  datatype Error = OrderingViolation | TrailingZero

  /** Every character of `s` is a digit of the alphabet. */
  predicate InAlphabet(alpha: Alphabet, s: seq<int>) {
    forall i | 0 <= i < |s| :: alpha.zero <= s[i] < alpha.upperLimit
  }

  /** `s` ends in the zero digit: the check `s.slice(-1) === ZERO`, never true of "". */
  predicate EndsInZero(alpha: Alphabet, s: seq<int>) {
    |s| > 0 && s[|s| - 1] == alpha.zero
  }

  /** A key the generator may return: non-empty, in the alphabet, no trailing zero. */
  predicate IsKey(alpha: Alphabet, k: seq<int>) {
    |k| > 0 && InAlphabet(alpha, k) && !EndsInZero(alpha, k)
  }

  /**
    The bounds a call accepts without throwing. A valid upper bound is never
    empty, which is why the code's `b !== null` and `if (b)` agree past the checks.
  */
  predicate ValidBounds(alpha: Alphabet, a: Key, b: Option<Key>)
    ensures ValidBounds(alpha, a, b) && b.Some? ==> |b.value| > 0 && a != b.value
  {
    // The ensures needs `a != b.value`, which follows from Less(a, b.value) only through irreflexivity.
    LessIrreflexive(a);
    && (b.Some? ==> Less(a, b.value))
    && !EndsInZero(alpha, a)
    && (b.Some? ==> !EndsInZero(alpha, b.value))
  }

  /** JavaScript's `s.slice(n)` for `n >= 0`: drops `n` characters, clamping at the end. */
  function SliceFrom(s: seq<int>, n: nat): (r: seq<int>)
    ensures |r| == if n <= |s| then |s| - n else 0
    ensures forall i | 0 <= i < |r| :: r[i] == s[n + i]
  {
    if n <= |s| then s[n..] else []
  }

  /**
    The digit of `a` at position `i`, with `a` padded by zero digits
    (`a.charAt(i) || ZERO`): always a digit of the alphabet.
  */
  function PadAt(alpha: Alphabet, a: Key, i: nat): (d: int)
    ensures alpha.Valid() && InAlphabet(alpha, a) ==> alpha.zero <= d < alpha.upperLimit
  {
    if i < |a| then a[i] else alpha.zero
  }

  /**
    The scan of index.js that counts how far the zero-padded `a` and `b` agree,
    started at position `n`: the end of the run of agreeing positions from `n`.
  */
  function CommonPrefixFrom(alpha: Alphabet, a: Key, b: Key, n: nat): (r: nat)
    requires n <= |b|
    ensures n <= r <= |b|
    ensures forall i | n <= i < r :: PadAt(alpha, a, i) == b[i]
    ensures r < |b| ==> PadAt(alpha, a, r) != b[r]
    decreases |b| - n
  {
    if n < |b| && PadAt(alpha, a, n) == b[n] then CommonPrefixFrom(alpha, a, b, n + 1) else n
  }

  /** The length of the longest common prefix of the zero-padded `a` and `b`. */
  function CommonPrefixLength(alpha: Alphabet, a: Key, b: Key): (r: nat)
    ensures r <= |b|
    ensures forall i | 0 <= i < r :: PadAt(alpha, a, i) == b[i]
    ensures r < |b| ==> PadAt(alpha, a, r) != b[r]
  {
    CommonPrefixFrom(alpha, a, b, 0)
  }

  /**
    The counting loop of index.js, written as the loop it is and checked against
    CommonPrefixLength, the recursive form that Midpoint uses (a function cannot
    call a method).
  */
  method ScanCommonPrefix(alpha: Alphabet, a: Key, b: Key) returns (n: nat)
    ensures n <= |b|
    ensures forall i | 0 <= i < n :: PadAt(alpha, a, i) == b[i]
    ensures n < |b| ==> PadAt(alpha, a, n) != b[n]
    ensures n == CommonPrefixLength(alpha, a, b)
  {
    n := 0;
    while n < |b| && PadAt(alpha, a, n) == b[n]
      invariant n <= |b|
      invariant CommonPrefixFrom(alpha, a, b, n) == CommonPrefixLength(alpha, a, b)
      decreases |b| - n
    {
      n := n + 1;
    }
  }

  /**
    The midpoint of two digits at least two apart, rounding a half up
    (`Math.round(0.5 * (lo + hi))`): strictly between them, and as close to the
    middle as an integer can be.
  */
  function MidDigit(lo: int, hi: int): (d: int)
    requires lo + 1 < hi
    ensures lo < d < hi
    ensures d - lo == hi - d || d - lo == hi - d + 1
  {
    (lo + hi + 1) / 2
  }

  /** The first digit of the lower bound, or zero when it is empty (`a ? a.charCodeAt(0) : ZERO`). */
  function LeadA(alpha: Alphabet, a: Key): (d: int)
    ensures d == PadAt(alpha, a, 0)
    ensures alpha.Valid() && InAlphabet(alpha, a) ==> alpha.zero <= d < alpha.upperLimit
  {
    if |a| > 0 then a[0] else alpha.zero
  }

  /**
    The first digit of the upper bound, or `upperLimit` when it is absent
    (`b !== null ? b.charCodeAt(0) : UPPER_LIMIT`): `upperLimit` is a sentinel
    above every digit, reached exactly when there is no upper bound.
  */
  function LeadB(alpha: Alphabet, b: Option<Key>): (d: int)
    requires b.Some? ==> |b.value| > 0
    ensures alpha.Valid() && (b.Some? ==> InAlphabet(alpha, b.value)) ==>
      alpha.zero <= d <= alpha.upperLimit && (d == alpha.upperLimit <==> b.None?)
  {
    if b.Some? then b.value[0] else alpha.upperLimit
  }

  /**
    `fractionalIndex(a, b)` once `a` is a string: validate, strip the common
    prefix, then take the midpoint digit, `b`'s first digit, or carry `a`'s first
    digit and recurse on the rest of `a` with no upper bound.
  */
  function Midpoint(alpha: Alphabet, a: Key, b: Option<Key>): (r: Result<Key, Error>)
    requires alpha.Valid()
    requires InAlphabet(alpha, a)
    requires b.Some? ==> InAlphabet(alpha, b.value)
    ensures r.Ok? ==> IsKey(alpha, r.value)
    decreases |a| + (if b.Some? then |b.value| + 1 else 0)
  {
    if b.Some? && !Less(a, b.value) then
      Err(OrderingViolation)
    else if EndsInZero(alpha, a) || (b.Some? && EndsInZero(alpha, b.value)) then
      Err(TrailingZero)
    else
      var n := if b.Some? && |b.value| > 0 then CommonPrefixLength(alpha, a, b.value) else 0;
      if n > 0 then
        var rest := Midpoint(alpha, SliceFrom(a, n), Some(b.value[n..]));
        match rest
        case Err(e) => Err(e)
        case Ok(k) => PrependKey(alpha, b.value[..n], k); Ok(b.value[..n] + k)
      else
        var digitA := LeadA(alpha, a);
        var digitB := LeadB(alpha, b);
        if digitB - digitA > 1 then
          Ok([MidDigit(digitA, digitB)])
        else if b.Some? && |b.value| > 1 then
          Ok(b.value[..1])
        else
          var rest := Midpoint(alpha, SliceFrom(a, 1), None);
          match rest
          case Err(e) => Err(e)
          case Ok(k) => PrependKey(alpha, [digitA], k); Ok([digitA] + k)
  }

  /** Digits of the alphabet put in front of a key give a key. */
  lemma PrependKey(alpha: Alphabet, p: seq<int>, k: Key)
    requires InAlphabet(alpha, p) && IsKey(alpha, k)
    ensures IsKey(alpha, p + k)
  {
    assert (p + k)[|p + k| - 1] == k[|k| - 1];
  }

  /**
    The top-level call: a `null` lower bound is read as the empty string, then
    the call either fails for the reason the bounds are bad, or returns a key
    strictly between them that is itself a valid bound for later calls.
  */
  function FractionalIndex(alpha: Alphabet, a: Option<Key>, b: Option<Key>): (r: Result<Key, Error>)
    requires alpha.Valid()
    requires a.Some? ==> InAlphabet(alpha, a.value)
    requires b.Some? ==> InAlphabet(alpha, b.value)
    ensures var lo := if a.Some? then a.value else [];
      && (r == Err(OrderingViolation) <==> b.Some? && !Less(lo, b.value))
      && (r == Err(TrailingZero) <==>
            (b.Some? ==> Less(lo, b.value)) && (EndsInZero(alpha, lo) || (b.Some? && EndsInZero(alpha, b.value))))
      && (r.Ok? <==> ValidBounds(alpha, lo, b))
      && (r.Ok? ==> IsKey(alpha, r.value) && Less(lo, r.value) && (b.Some? ==> Less(r.value, b.value)))
  {
    var lo := if a.Some? then a.value else [];
    MidpointFailsExactly(alpha, lo, b);
    if ValidBounds(alpha, lo, b) then
      MidpointBetween(alpha, lo, b);
      Midpoint(alpha, lo, b)
    else
      Midpoint(alpha, lo, b)
  }

  /**
    After stripping a common prefix of length `n` from the zero-padded `a` and
    from `b`, something of `b` is left, and the rest of `a` still sorts before it.
  */
  lemma {:induction false} ElisionRemainder(alpha: Alphabet, a: Key, b: Key, n: nat)
    requires Less(a, b) && !EndsInZero(alpha, b)
    requires n <= |b|
    requires forall i | 0 <= i < n :: PadAt(alpha, a, i) == b[i]
    ensures n < |b|
    ensures Less(SliceFrom(a, n), b[n..])
    decreases n
  {
    if n > 0 {
      if |a| == 0 {
        assert PadAt(alpha, a, n - 1) == b[n - 1];
      } else {
        assert PadAt(alpha, a, 0) == b[0];
        forall i | 0 <= i < n - 1
          ensures PadAt(alpha, a[1..], i) == b[1..][i]
        {
          assert PadAt(alpha, a, i + 1) == b[i + 1];
        }
        ElisionRemainder(alpha, a[1..], b[1..], n - 1);
        assert SliceFrom(a[1..], n - 1) == SliceFrom(a, n);
        assert b[1..][n - 1..] == b[n..];
      }
    }
  }

  /**
    Dropping `n` characters (`s.slice(n)`) keeps the last character: the rest
    ends in zero exactly when something is left and `s` itself ends in zero.
  */
  lemma SliceEndsInZero(alpha: Alphabet, s: seq<int>, n: nat)
    ensures EndsInZero(alpha, SliceFrom(s, n)) <==> n < |s| && EndsInZero(alpha, s)
  {
  }

  /**
    If the zero-padded `a` agrees with `p`, and what follows `p` in `a` sorts
    before `x`, then `a` sorts before `p + x`.
  */
  lemma {:induction false} PaddedPrefixLess(alpha: Alphabet, a: Key, p: Key, x: Key)
    requires forall i | 0 <= i < |p| :: PadAt(alpha, a, i) == p[i]
    requires Less(SliceFrom(a, |p|), x)
    ensures Less(a, p + x)
    decreases |p|
  {
    if |p| == 0 {
      assert p + x == x;
    } else if |a| > 0 {
      assert PadAt(alpha, a, 0) == p[0];
      forall i | 0 <= i < |p| - 1
        ensures PadAt(alpha, a[1..], i) == p[1..][i]
      {
        assert PadAt(alpha, a, i + 1) == p[i + 1];
      }
      assert SliceFrom(a[1..], |p| - 1) == SliceFrom(a, |p|);
      PaddedPrefixLess(alpha, a[1..], p[1..], x);
      assert (p + x)[1..] == p[1..] + x;
    }
  }

  /** With valid bounds the call succeeds and its key sorts strictly between them. */
  lemma {:induction false} MidpointBetween(alpha: Alphabet, a: Key, b: Option<Key>)
    requires alpha.Valid()
    requires InAlphabet(alpha, a)
    requires b.Some? ==> InAlphabet(alpha, b.value)
    requires ValidBounds(alpha, a, b)
    ensures Midpoint(alpha, a, b).Ok?
    ensures Less(a, Midpoint(alpha, a, b).value)
    ensures b.Some? ==> Less(Midpoint(alpha, a, b).value, b.value)
    decreases |a| + (if b.Some? then |b.value| + 1 else 0)
  {
    var n := if b.Some? && |b.value| > 0 then CommonPrefixLength(alpha, a, b.value) else 0;
    if n > 0 {
      var bv := b.value;
      ElisionRemainder(alpha, a, bv, n);
      var a', b' := SliceFrom(a, n), bv[n..];
      SliceEndsInZero(alpha, a, n);
      SliceEndsInZero(alpha, bv, n);
      MidpointBetween(alpha, a', Some(b'));
      var k := Midpoint(alpha, a', Some(b')).value;
      assert Midpoint(alpha, a, b) == Ok(bv[..n] + k);
      PaddedPrefixLess(alpha, a, bv[..n], k);
      LessCommonPrefix(bv[..n], k, b');
      assert bv[..n] + b' == bv;
    } else {
      var digitA := LeadA(alpha, a);
      var digitB := LeadB(alpha, b);
      if b.Some? {
        assert PadAt(alpha, a, 0) != b.value[0];
        assert digitA < digitB;
      }
      if digitB - digitA <= 1 && b.Some? && |b.value| > 1 {
        ProperPrefixLess(b.value[..1], b.value);
      }
      if digitB - digitA <= 1 && !(b.Some? && |b.value| > 1) {
        var a' := SliceFrom(a, 1);
        SliceEndsInZero(alpha, a, 1);
        MidpointBetween(alpha, a', None);
        var k := Midpoint(alpha, a', None).value;
        assert Midpoint(alpha, a, b) == Ok([digitA] + k);
        if |a| > 0 {
          assert a[1..] == a';
          assert ([digitA] + k)[1..] == k;
        }
      }
    }
  }

  /**
    The call fails exactly when the bounds are invalid, with the ordering error
    taking precedence over the trailing-zero error.
  */
  lemma MidpointFailsExactly(alpha: Alphabet, a: Key, b: Option<Key>)
    requires alpha.Valid()
    requires InAlphabet(alpha, a)
    requires b.Some? ==> InAlphabet(alpha, b.value)
    ensures Midpoint(alpha, a, b) == Err(OrderingViolation) <==> b.Some? && !Less(a, b.value)
    ensures Midpoint(alpha, a, b) == Err(TrailingZero) <==>
      (b.Some? ==> Less(a, b.value)) && (EndsInZero(alpha, a) || (b.Some? && EndsInZero(alpha, b.value)))
    ensures Midpoint(alpha, a, b).Ok? <==> ValidBounds(alpha, a, b)
  {
    if ValidBounds(alpha, a, b) {
      MidpointBetween(alpha, a, b);
    }
  }

  /**
    When the zero-padded `a` and `b` agree on their first `n` characters, the key
    begins with those `n` characters of `b`.
  */
  lemma MidpointKeepsCommonPrefix(alpha: Alphabet, a: Key, b: Key, n: nat)
    requires alpha.Valid()
    requires InAlphabet(alpha, a) && InAlphabet(alpha, b)
    requires ValidBounds(alpha, a, Some(b))
    requires n <= |b|
    requires forall i | 0 <= i < n :: PadAt(alpha, a, i) == b[i]
    ensures Midpoint(alpha, a, Some(b)).Ok?
    ensures |Midpoint(alpha, a, Some(b)).value| >= n
    ensures Midpoint(alpha, a, Some(b)).value[..n] == b[..n]
  {
    MidpointBetween(alpha, a, Some(b));
    if n > 0 {
      var m := CommonPrefixLength(alpha, a, b);
      assert m >= n;
      var k := Midpoint(alpha, SliceFrom(a, m), Some(b[m..])).value;
      assert Midpoint(alpha, a, Some(b)).value == b[..m] + k;
      assert (b[..m] + k)[..n] == b[..n];
    }
  }

  /**
    When the leading digits (zero for an empty `a`, `upperLimit` for an absent
    `b`) are at least two apart, the key is the single midpoint digit.
  */
  lemma MidpointGap(alpha: Alphabet, a: Key, b: Option<Key>)
    requires alpha.Valid()
    requires InAlphabet(alpha, a)
    requires b.Some? ==> InAlphabet(alpha, b.value)
    requires ValidBounds(alpha, a, b)
    requires b.Some? ==> |b.value| > 0
    requires LeadA(alpha, a) + 1 < LeadB(alpha, b)
    ensures Midpoint(alpha, a, b) == Ok([MidDigit(LeadA(alpha, a), LeadB(alpha, b))])
  {
  }
}
