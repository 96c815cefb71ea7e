# First recurring character and streaming average

A Dafny model of two small Python 3 scripts:

- `check_rec_character.py`: `checker(string)` scans a string from left to
  right, records every character it has seen in a dictionary `tracker`, and
  returns the first character that is already in `tracker`, or `None` when no
  character repeats.
- `streamingaverage.py`: `streaming_avg(yielder(li))` consumes the values of
  a list in order, keeping only a count `n` and a running `average` updated by
  `average*(1-1/n) + newval/n`, and reports the average after every value.

Module `RecurringCharacter` holds the scan as the method `Checker` (a `while`
loop over the string, `tracker` as a `map<char, int>` whose values are all 1,
and the early return), a reference definition `FirstRecurring`, and lemmas
that characterise the answer: the smallest index whose character occurred
before, `None` exactly for strings of pairwise distinct characters.

Module `StreamingAverage` holds the running-mean loop as the method
`StreamingAvg` over `real`, specified by `Sum` and `Mean`, with lemmas on the
update rule (a convex combination that turns the mean of a prefix into the
mean of the prefix extended by one value), on the bounds of the mean, and on
its independence of the order of the values. `Wrappers` defines `Option`.

The Python `streaming_avg` returns nothing; what it reports is one printed
line per value with the current average. The model returns those averages as
`trace` (entry `k` is the average after `k + 1` values), together with the
final `n` and `average`.

Before any value there is no mean; `streaming_avg` still starts `average`
at 0 and prints nothing for an empty input, and `StreamingAvg([])` returns
`n == 0`, `average == 0.0` and `trace == []`.

## Model

| member | source | states |
|---|---|---|
| `RecurringCharacter.Checker` | check_rec_character.py:4-16 | the scan returns exactly `FirstRecurring(s)`; it returns `None` iff the characters are pairwise distinct; a returned `c` is `s[j]` for the smallest `j` whose character occurs in `s[..j]`; strings of length at most 1 give `None`; loop invariant: `tracker`'s keys are the characters of `s[..i]` |
| `RecurringCharacter.FirstRecurringNoneIffDistinct` | check_rec_character.py:9-16 | the answer is `None` exactly when no character occurs twice |
| `RecurringCharacter.FirstRecurringIsFirstRepeat` | check_rec_character.py:9-14 | the answer is `Some(c)` exactly when `c` sits at the smallest index that repeats an earlier character (both directions) |
| `RecurringCharacter.FirstRecurringExtends` | check_rec_character.py:10-12 | once a prefix has a repeat, the answer for the whole string is the prefix's, which justifies the early return |
| `RecurringCharacter.OccursTwice` | check_rec_character.py:9-12 | a returned character occurs at two different positions |
| `RecurringCharacter.PrefixBeforeFirstRepeatDistinct` | check_rec_character.py:9-14 | the part of the string before the first repeat has no duplicates |
| `RecurringCharacter.ShortStringHasNone` | check_rec_character.py:9-16 | the empty string and one-character strings give `None` |
| `RecurringCharacter.AbbaYieldsB` | check_rec_character.py:9-14 | "abba" gives 'b' (first repeat at index 2), not 'a' |
| `StreamingAverage.StreamingAvg` | streamingaverage.py:5-19 | after the loop `n` is the number of values; for no values `average` stays 0; otherwise it is the mean of all values; the average reported after `k + 1` values is the mean of that prefix, lies between its minimum and maximum, and the first one is the first value |
| `StreamingAverage.MinIsMin` | streamingaverage.py:12-18 | the minimum used in the bounds of the running average is an element of the values and no value is smaller |
| `StreamingAverage.MaxIsMax` | streamingaverage.py:12-18 | the maximum used in the bounds of the running average is an element of the values and no value is larger |
| `StreamingAverage.Update` | streamingaverage.py:18 | the update rule; the new average lies between the old average and the new value (further properties in `UpdateIsConvex`, `UpdateBetween`, `UpdateExtendsMean`) |
| `StreamingAverage.UpdateIsConvex` | streamingaverage.py:18 | the weights `1 - 1/n` and `1/n` lie in [0, 1] and sum to 1 |
| `StreamingAverage.UpdateBetween` | streamingaverage.py:18 | an update of a value and an average both in `[lo, hi]` stays in `[lo, hi]` |
| `StreamingAverage.UpdateExtendsMean` | streamingaverage.py:16-18 | updating the mean of `vs` with `v` under count `|vs| + 1` gives the mean of `vs + [v]` |
| `StreamingAverage.MeanWithinRange` | streamingaverage.py:12-18 | the mean lies between the minimum and the maximum of the values |
| `StreamingAverage.SumPermutation` | streamingaverage.py:12-18 | the sum of the values does not depend on their order |
| `StreamingAverage.MeanOrderIndependent` | streamingaverage.py:12-18 | over reals, the final mean does not depend on the order of the values |
| `StreamingAverage.MeansOfOneTwoThree` | streamingaverage.py:12-18 | the values 1, 2, 3 give the averages 1, 1.5, 2 |
| `StreamingAverage.MeansOfTenMinusTen` | streamingaverage.py:12-18 | the values 10, -10 give the averages 10, 0 |

## Left out

- `deco.py` (`be_polite`): a wrapper whose only behaviour is printing before delegating; it has no state or logic.
- The `TypeError` for a non-string argument (check_rec_character.py:6-7): `Checker` takes a `string`, so the type rules out that branch for values that are not strings.
- Checker: two kinds of Python input are not represented. A Python `str` may hold lone surrogates (U+D800 to U+DFFF, which `sys.argv` produces for undecodable bytes), while a Dafny `char` is a Unicode scalar value, so such strings cannot be given to the model. An instance of a `str` subclass fails the exact test `type(string) != str` (check_rec_character.py:6) and raises `TypeError`, whereas the model answers for the same characters. On every string Dafny can represent, the scan is the same.
- The `print` calls (check_rec_character.py:11,15; streamingaverage.py:19): the printed averages are returned as `trace`; the text of the lines is not modelled.
- `sleep(.5)` (streamingaverage.py:20): pacing only.
- The `__main__` blocks (argument count check, `sys.argv`, `int(...)` conversion, `exit()`): command-line glue.
- StreamingAvg: computes over exact `real`, not IEEE doubles, so rounding of `1/n` and `newval/n` is not modelled, nor is the range of doubles: Python raises `OverflowError` at streamingaverage.py:18 when the first value is an integer too large for a float and a second value follows, or when the integer quotient `newval/n` is too large for a float; float results beyond the range become inf or nan; the model has no bound; the Python integer start `average = 0` and the integer first value are the same numbers as reals.
- The generator `yielder` (streamingaverage.py:5-7): its suspension between elements is not modelled; the loop walks the sequence in order, which is all that is observable.
