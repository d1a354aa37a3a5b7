/**
  What the keys are for: an item moves or is inserted by giving it one new key
  made from its new neighbours, and the list stays sorted without renumbering.
*/
module ListOrdering {
  import opened Wrappers
  import opened LexOrder
  import opened FractionalIndexing

  /** The keys of a list, in list order, sort strictly increasing. */
  predicate StrictlySorted(keys: seq<Key>) {
    forall i, j | 0 <= i < j < |keys| :: Less(keys[i], keys[j])
  }

  /** Every key of the list was produced by the generator (non-empty, in the alphabet, no trailing zero). */
  predicate AllKeys(alpha: Alphabet, keys: seq<Key>) {
    forall i | 0 <= i < |keys| :: IsKey(alpha, keys[i])
  }

  /** The key before position `i`, or no lower bound at the start of the list. */
  function Before(keys: seq<Key>, i: nat): Option<Key>
    requires i <= |keys|
  {
    if i == 0 then None else Some(keys[i - 1])
  }

  /** The key at position `i`, or no upper bound at the end of the list. */
  function After(keys: seq<Key>, i: nat): Option<Key>
    requires i <= |keys|
  {
    if i == |keys| then None else Some(keys[i])
  }

  /**
    Generating a key from the neighbours of position `i` of a sorted list of
    generated keys always succeeds, and putting that key at position `i` leaves
    the list sorted.
  */
  lemma InsertKeepsSorted(alpha: Alphabet, keys: seq<Key>, i: nat)
    requires alpha.Valid()
    requires AllKeys(alpha, keys) && StrictlySorted(keys)
    requires i <= |keys|
    ensures FractionalIndex(alpha, Before(keys, i), After(keys, i)).Ok?
    ensures var k := FractionalIndex(alpha, Before(keys, i), After(keys, i)).value;
      IsKey(alpha, k) && StrictlySorted(keys[..i] + [k] + keys[i..])
  {
    var r := FractionalIndex(alpha, Before(keys, i), After(keys, i));
    var lo: Key := if i == 0 then [] else keys[i - 1];
    if i < |keys| {
      assert Less(lo, keys[i]);
    }
    assert ValidBounds(alpha, lo, After(keys, i));
    InsertBetweenSorted(keys, i, r.value);
  }

  /**
    A key that sorts strictly between the neighbours of position `i` of a
    sorted list can be put at position `i`, and the list stays sorted.
  */
  lemma InsertBetweenSorted(keys: seq<Key>, i: nat, k: Key)
    requires StrictlySorted(keys)
    requires i <= |keys|
    requires i > 0 ==> Less(keys[i - 1], k)
    requires i < |keys| ==> Less(k, keys[i])
    ensures StrictlySorted(keys[..i] + [k] + keys[i..])
  {
    var s := keys[..i] + [k] + keys[i..];
    forall x, y | 0 <= x < y < |s|
      ensures Less(s[x], s[y])
    {
      if x < i && y == i {
        assert s[x] == keys[x] && s[y] == k;
        if x < i - 1 {
          LessTransitive(keys[x], keys[i - 1], k);
        }
      } else if x == i && i < y {
        assert s[x] == k && s[y] == keys[y - 1];
        if y - 1 > i {
          LessTransitive(k, keys[i], keys[y - 1]);
        }
      } else if x < i && i < y {
        assert s[x] == keys[x] && s[y] == keys[y - 1];
      } else if i < x {
        assert s[x] == keys[x - 1] && s[y] == keys[y - 1];
      } else {
        assert s[x] == keys[x] && s[y] == keys[y];
      }
    }
  }

  /** The keys of `count` items appended one after another at the end of a list whose last key is `last`. */
  function AppendKeys(alpha: Alphabet, last: Key, count: nat): (r: seq<Key>)
    requires alpha.Valid() && InAlphabet(alpha, last)
    ensures |r| <= count
    decreases count
  {
    if count == 0 then []
    else
      match FractionalIndex(alpha, Some(last), None)
      case Err(_) => []
      case Ok(k) => [k] + AppendKeys(alpha, k, count - 1)
  }

  /**
    Appending repeatedly at the end never fails and gives keys that keep
    increasing, each after the previous last key.
  */
  lemma {:induction false} AppendKeysIncrease(alpha: Alphabet, last: Key, count: nat)
    requires alpha.Valid() && InAlphabet(alpha, last) && !EndsInZero(alpha, last)
    ensures var r := AppendKeys(alpha, last, count);
      && |r| == count
      && AllKeys(alpha, r)
      && StrictlySorted([last] + r)
    decreases count
  {
    if count > 0 {
      var k := FractionalIndex(alpha, Some(last), None).value;
      AppendKeysIncrease(alpha, k, count - 1);
      var rest := AppendKeys(alpha, k, count - 1);
      var s := [last] + ([k] + rest);
      assert AppendKeys(alpha, last, count) == [k] + rest;
      forall x, y | 0 <= x < y < |s|
        ensures Less(s[x], s[y])
      {
        if x == 0 && y > 1 {
          assert s[y] == ([k] + rest)[y - 1] && ([k] + rest)[0] == k;
          LessTransitive(last, k, s[y]);
        } else if x > 0 {
          assert s[x] == ([k] + rest)[x - 1] && s[y] == ([k] + rest)[y - 1];
        }
      }
    }
  }
}
