/**
  Concrete calls: a selection of the calls the repository's tests make, and
  the worked example in the comments of index.js, computed on the model.
*/
module Examples {
  import opened Wrappers
  import opened FractionalIndexing

  /** The character codes of an ASCII string, as the model's keys. */
  function Codes(s: string): (k: Key)
    ensures |k| == |s|
    ensures forall i | 0 <= i < |s| :: k[i] == s[i] as int
  {
    if |s| == 0 then [] else [s[0] as int] + Codes(s[1..])
  }

  /** Equal bounds and reversed bounds are rejected with the ordering error. */
  lemma OrderingRejected()
    ensures FractionalIndex(Base95, Some(Codes("2")), Some(Codes("1"))) == Err(OrderingViolation)
    ensures FractionalIndex(Base95, Some(Codes("11")), Some(Codes("1"))) == Err(OrderingViolation)
    ensures FractionalIndex(Base95, Some(Codes("")), Some(Codes(""))) == Err(OrderingViolation)
    ensures FractionalIndex(Base95, Some(Codes("1")), Some(Codes("1"))) == Err(OrderingViolation)
    ensures FractionalIndex(Base95, Some(Codes("555")), Some(Codes("555"))) == Err(OrderingViolation)
  {
  }

  /** A bound ending in the zero digit (a space in base 95) is rejected. */
  lemma TrailingZeroRejected()
    ensures FractionalIndex(Base95, Some(Codes("1 ")), None) == Err(TrailingZero)
    ensures FractionalIndex(Base95, None, Some(Codes("1 "))) == Err(TrailingZero)
  {
  }

  /** The first key of an empty list is the middle digit: code 80 ('P') in base 95, '5' in base 10. */
  lemma FirstKey()
    ensures FractionalIndex(Base95, None, None) == Ok([80])
    ensures FractionalIndex(Base10, None, None) == Ok(Codes("5"))
  {
    assert Codes("5") == [53];
  }

  /** Between "49" and "5" in base 10 the carry path yields "4", then "9", then the middle digit. */
  lemma CarryExample()
    ensures FractionalIndex(Base10, Some(Codes("49")), Some(Codes("5"))) == Ok(Codes("495"))
  {
    assert Codes("49") == [52, 57] && Codes("5") == [53] && Codes("495") == [52, 57, 53];
    assert Midpoint(Base10, [], None) == Ok([53]);
    assert SliceFrom([57], 1) == [];
    assert [57] + [53] == [57, 53] && [52] + [57, 53] == [52, 57, 53];
    assert Midpoint(Base10, [57], None) == Ok([57, 53]);
    assert CommonPrefixLength(Base10, [52, 57], [53]) == 0;
    assert SliceFrom([52, 57], 1) == [57];
  }

  /**
    Between "001" and "001002" in base 95 the common prefix "001" is kept and the
    rest is the midpoint of the empty string and "002": code 40, '('.
  */
  lemma PrefixExample()
    ensures FractionalIndex(Base95, Some(Codes("001")), Some(Codes("001002"))) == Ok(Codes("001("))
  {
    assert Codes("001") == [48, 48, 49] && Codes("001002") == [48, 48, 49, 48, 48, 50];
    assert Codes("001(") == [48, 48, 49, 40];
    PrefixStep();
  }

  /** The same call on the character codes written out. */
  lemma PrefixStep()
    ensures Midpoint(Base95, [48, 48, 49], Some([48, 48, 49, 48, 48, 50])) == Ok([48, 48, 49, 40])
  {
    var a: Key, b: Key := [48, 48, 49], [48, 48, 49, 48, 48, 50];
    assert CommonPrefixLength(Base95, a, b) == 3 by {
      assert CommonPrefixFrom(Base95, a, b, 3) == 3;
    }
    assert SliceFrom(a, 3) == [] && b[3..] == [48, 48, 50] && b[..3] == a;
    assert CommonPrefixLength(Base95, [], [48, 48, 50]) == 0;
    assert Midpoint(Base95, [], Some([48, 48, 50])) == Ok([40]);
    assert a + [40] == [48, 48, 49, 40];
  }

  /** Inserting before "1" in base 95: the gap between ' ' (32) and '1' (49) takes ')' (40.5 rounds up to 41). */
  lemma BeforeOneExample()
    ensures FractionalIndex(Base95, None, Some(Codes("1"))) == Ok(Codes(")"))
  {
    assert Codes("1") == [49] && Codes(")") == [41];
    assert CommonPrefixLength(Base95, [], [49]) == 0;
  }

  /** Between "O" and "OO" in base 95: padding "O" with a space leaves the gap ' '..'O', whose midpoint is '8'. */
  lemma PaddingExample()
    ensures FractionalIndex(Base95, Some(Codes("O")), Some(Codes("OO"))) == Ok(Codes("O8"))
  {
    assert Codes("O") == [79] && Codes("OO") == [79, 79] && Codes("O8") == [79, 56];
    assert CommonPrefixLength(Base95, [79], [79, 79]) == 1 by {
      assert CommonPrefixFrom(Base95, [79], [79, 79], 1) == 1;
    }
    assert SliceFrom([79], 1) == [] && [79, 79][1..] == [79] && [79, 79][..1] == [79];
    assert CommonPrefixLength(Base95, [], [79]) == 0;
    assert Midpoint(Base95, [], Some([79])) == Ok([56]);
    assert [79] + [56] == [79, 56];
    assert Midpoint(Base95, [79], Some([79, 79])) == Ok([79, 56]);
  }
}
