# Fractional index keys, modelled in Dafny

The library computes order keys for the items of a list. To move or insert an item, it gives that one item a new key between the keys of its new neighbours. No other key changes. Keys are strings over a contiguous alphabet of character codes `[ZERO, UPPER_LIMIT)`, and they are compared as plain strings. The library ships base 95 (printable ASCII, `ZERO` = 32, the space). A base-10 alphabet (`'0'`..`'9'`) is left commented out in the source. The whole library is `fractionalIndex(a, b)` in index.js. It returns a key strictly between the lower bound `a` (null or a string) and the upper bound `b` (null or a string).

The model:

- `wrappers.dfy` (`Wrappers`): `Option` for a null bound, `Result` for a call that throws.
- `lex_order.dfy` (`LexOrder`): `Less`, lexicographic order on sequences of character codes. It is the order JavaScript's string `<` and `>=` give when every character is one code unit. A proper prefix sorts first.
- `fractional_index.dfy` (`FractionalIndexing`): the alphabet as a parameter `Alphabet(zero, upperLimit)`, with the constants `Base95` and `Base10`. Also:
  - `FractionalIndex`, the public call, which reads a null `a` as the empty key.
  - `Midpoint`, the recursive function itself.
  - `CommonPrefixFrom`/`CommonPrefixLength` and the loop `ScanCommonPrefix`, for the common-prefix scan.
  - `MidDigit`, for the rounded midpoint.
  - The lemmas about all of these.
- `examples.dfy` (`Examples`): a selection of the calls the repository's tests make, computed on the model: all seven calls that must fail, plus four calls that return a key. It also has the `"49"`/`"5"` example from the comments. The tests assert that each key lies strictly between its bounds, and `MidpointBetween` proves that for every input.
- `list_ordering.dfy` (`ListOrdering`): what the keys are for. Inserting a generated key between two neighbours keeps a sorted list sorted. Appending again and again gives increasing keys.

Keys are `seq<int>` of character codes. Thrown errors become `Err(OrderingViolation)` (`a >= b`) and `Err(TrailingZero)` (a bound ends in the zero digit). The ordering check comes first, as in the code.

Points where the code is followed literally:

- The code tests the upper bound in two ways: `if (b)` (index.js:41, 45, 65) and `b !== null` (index.js:36, 59). The model keeps each test as written: "present and non-empty" for the first, "present" for the second. The two agree on every input that gets past the ordering check, because an empty `b` is always rejected there.
- A lower bound `""` is accepted, and means the same as `null`. The code only rejects an empty *upper* bound.
- Errors from the recursive calls propagate, as a JavaScript throw does. `MidpointFailsExactly` proves that no recursive call fails when the top-level bounds are valid.

## Model

| member | source | states |
|---|---|---|
| FractionalIndexing.FractionalIndex | index.js:25-77 | A null lower bound means the empty key. The call fails with the ordering error exactly when `b` is present and `a` does not sort before it. It fails with the trailing-zero error exactly when the order is fine and `a`, or a present `b`, ends in the zero digit. Otherwise it returns a canonical key `k` with `a < k`, and `k < b` when `b` is present |
| FractionalIndexing.Midpoint | index.js:28-77 | Every key it returns is non-empty, uses only digits of the alphabet, and does not end in the zero digit, so it is a valid bound for later calls |
| FractionalIndexing.MidpointBetween | index.js:45-76 | For valid bounds, the call succeeds, `a < k`, and `k < b` when `b` is present |
| FractionalIndexing.MidpointFailsExactly | index.js:36-44 | Fails with the ordering error iff `b` is present and `a >= b`. Fails with the trailing-zero error iff the order is fine and a bound ends in the zero digit. Succeeds iff the bounds are valid |
| FractionalIndexing.MidpointKeepsCommonPrefix | index.js:45-55 | If the zero-padded `a` and `b` agree on their first `n` characters, the key begins with those `n` characters of `b` |
| FractionalIndexing.MidpointGap | index.js:57-62 | If the leading digits are at least two apart, the key is the single rounded midpoint digit. The leading digits are zero for an empty `a` and `UPPER_LIMIT` for an absent `b` |
| FractionalIndexing.MidDigit | index.js:61 | `Math.round(0.5 * (lo + hi))` lies strictly between `lo` and `hi`. It is the exact middle, or half a step above it when `lo + hi` is odd (a half rounds up) |
| FractionalIndexing.ElisionRemainder | index.js:46-48 | While the zero-padded `a` matches `b`, `b` never runs out. What is left of `a` still sorts before what is left of `b`, so the recursive call gets valid bounds |
| FractionalIndexing.SliceEndsInZero | index.js:39-54 | `EndsInZero` is the check `s.slice(-1) === ZERO`, which is false for "". Dropping `n` characters, as `s.slice(n)` does, gives a string that ends in zero exactly when something is left and `s` ends in zero. So the rests passed to the recursive calls pass the trailing-zero check whenever the bounds did |
| FractionalIndexing.ValidBounds | index.js:36-44 | The bounds that get past both checks. A valid upper bound is non-empty and differs from `a`, so past the checks `b !== null` and `if (b)` agree |
| FractionalIndexing.PadAt | index.js:50 | `a.charAt(i) \|\| ZERO`, the digit of `a` at `i` padded with zero digits, is always a digit of the alphabet when `a` is |
| FractionalIndexing.SliceFrom | index.js:54 | `s.slice(n)` for `n >= 0` (also the `a.slice(1)` of index.js:74): the result keeps the characters of `s` from `n` on, and is empty when `n` is past the end |
| FractionalIndexing.LeadA | index.js:58 | `digitA` is the zero-padded first digit of `a`, and it is a digit of the alphabet |
| FractionalIndexing.LeadB | index.js:59 | `digitB` lies between zero and `UPPER_LIMIT`. It equals `UPPER_LIMIT` exactly when `b` is null: the test is `b !== null`, not `if (b)` |
| FractionalIndexing.CommonPrefixFrom | index.js:49-52 | The scan from position `n` stops at `r <= len(b)`. The zero-padded `a` equals `b` on `[n, r)`, and differs from it at `r` unless `r = len(b)` |
| FractionalIndexing.CommonPrefixLength | index.js:49-52 | The longest run from position 0 on which the zero-padded `a` equals `b` |
| FractionalIndexing.ScanCommonPrefix | index.js:49-52 | The `while` loop returns the length of the longest common prefix of the zero-padded `a` and `b`, and that length equals `CommonPrefixLength` |
| LexOrder.LessIrreflexive | index.js:36 | No key sorts before itself, so equal bounds fail the `a >= b` check. `ValidBounds` uses it to show a valid `b` differs from `a` |
| LexOrder.LessTransitive | index.js:36 | String order is transitive |
| LexOrder.LessTotal | index.js:36 | A stand-alone fact about the order: of two different keys one sorts first. So reading `a >= b` as "not `a < b`" is JavaScript's meaning |
| LexOrder.ProperPrefixLess | index.js:65-66 | A proper prefix sorts before the longer key. `MidpointBetween` uses it to show that `b`'s first digit alone sorts before `b` |
| LexOrder.LessCommonPrefix | index.js:54 | Putting the same prefix in front of two keys keeps their order |
| Examples.OrderingRejected | index.test.js:14-23 | ("2","1"), ("11","1"), ("",""), ("1","1") and ("555","555") fail with the ordering error |
| Examples.TrailingZeroRejected | index.test.js:25-28 | ("1 ", null) and (null, "1 ") fail with the trailing-zero error in base 95 |
| Examples.FirstKey | index.test.js:30-32 | (null, null) gives the single middle digit: code 80 in base 95, "5" in base 10 |
| Examples.CarryExample | index.js:68-74 | In base 10, ("49", "5") gives exactly "495" |
| Examples.PrefixExample | index.test.js:56 | In base 95, ("001", "001002") keeps the prefix "001" and adds the midpoint of ' ' and '0', giving "001(" |
| Examples.BeforeOneExample | index.test.js:38 | In base 95, (null, "1") gives ")": code 41, the midpoint 40.5 rounded up |
| Examples.PaddingExample | index.test.js:59 | In base 95, ("O", "OO") gives "O8": "O" padded with a space matches the first "O", and the midpoint of ' ' and 'O' follows |
| ListOrdering.InsertKeepsSorted | index.js:7-11 | In a sorted list of generated keys, asking for a key between the neighbours of any position succeeds. The list with that key inserted there is still sorted |
| ListOrdering.AppendKeys | index.test.js:45-52 | The keys made by inserting `count` items one after another at the end of a list. There are at most `count` of them; `AppendKeysIncrease` shows there are exactly `count` |
| ListOrdering.AppendKeysIncrease | index.test.js:45-52 | Repeated insertion at the end of a list never fails, and each new key sorts after the previous last key |

## Left out

- Module export wiring (index.js:79-82). Attaching `ZERO`/`UPPER_LIMIT` to the function and `module.exports` are packaging with no behaviour. The alphabet is a parameter of every member instead.
- Exception objects and message texts (index.js:37, 43). Each throw is an error variant of `Result`. The message strings are not modelled.
- Floating point. `Math.round(0.5 * (digitA + digitB))` on two non-negative integer codes is `(digitA + digitB + 1) / 2` on integers.
- Characters outside the alphabet, and UTF-16. The code assumes every character of `a` and `b` is a digit of the alphabet and never checks. The model requires it of the caller. Strings are sequences of character codes, so there are no surrogate pairs and no Unicode.
- Determinism needs no lemma: `FractionalIndex` is a Dafny function, so equal arguments give equal results.
