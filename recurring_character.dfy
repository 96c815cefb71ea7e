/**
  The first-recurring-character finder of check_rec_character.py.

  `Checker` scans a string from left to right, remembering every character it
  has seen in a dictionary `tracker`, and returns the first character that is
  already in `tracker`, or `None` when no character repeats.
*/
module RecurringCharacter {
  import opened Wrappers

  /** No character occurs twice in `s`. */
  predicate Distinct(s: string) {
    forall i, j :: 0 <= i < j < |s| ==> s[i] != s[j]
  }

  /** The character at index `j` already occurs among `s[..j]`. */
  predicate RepeatsAt(s: string, j: int) {
    0 <= j < |s| && s[j] in s[..j]
  }

  /** `j` is the smallest index at which `s` repeats a character. */
  predicate IsFirstRepeat(s: string, j: int) {
    RepeatsAt(s, j) && forall k :: 0 <= k < j ==> !RepeatsAt(s, k)
  }

  /**
    Reference definition of the answer, by recursion on the last character:
    the first repeat of `s` is the first repeat of `s` without its last
    character, if there is one; otherwise it is the last character, if that
    character occurred before.
  */
  function FirstRecurring(s: string): Option<char>
    decreases |s|
  {
    if |s| == 0 then None
    else
      match FirstRecurring(s[..|s| - 1])
      case Some(c) => Some(c)
      case None => if s[|s| - 1] in s[..|s| - 1] then Some(s[|s| - 1]) else None
  }

  /** A string repeats nowhere exactly when its characters are pairwise distinct. */
  lemma DistinctIffNoRepeat(s: string)
    ensures Distinct(s) <==> forall j :: 0 <= j < |s| ==> !RepeatsAt(s, j)
  {
    if !Distinct(s) {
      var i, j :| 0 <= i < j < |s| && s[i] == s[j];
      assert s[..j][i] == s[j];
      assert RepeatsAt(s, j);
    }
  }

  /** `FirstRecurring` finds nothing exactly when the characters are pairwise distinct. */
  lemma {:induction false} FirstRecurringNoneIffDistinct(s: string)
    ensures FirstRecurring(s) == None <==> Distinct(s)
    decreases |s|
  {
    if |s| > 0 {
      var p := s[..|s| - 1];
      FirstRecurringNoneIffDistinct(p);
      if Distinct(s) {
        assert Distinct(p) by {
          forall i, j | 0 <= i < j < |p| ensures p[i] != p[j] {
            assert p[i] == s[i] && p[j] == s[j];
          }
        }
        assert s[|s| - 1] !in p by {
          forall i | 0 <= i < |p| ensures p[i] != s[|s| - 1] {
            assert p[i] == s[i];
          }
        }
      } else {
        var i, j :| 0 <= i < j < |s| && s[i] == s[j];
        if j == |s| - 1 {
          assert p[i] == s[j];
        } else {
          assert p[i] == p[j];
        }
      }
    }
  }

  /** Taking a prefix of a prefix. */
  lemma PrefixOfPrefix(s: string, i: int, k: int)
    requires 0 <= k <= i <= |s|
    ensures s[..i][..k] == s[..k]
  {
  }

  /**
    `FirstRecurring` returns `c` exactly when `c` is the character at the
    smallest index that repeats an earlier character.
  */
  lemma {:induction false} FirstRecurringIsFirstRepeat(s: string, c: char)
    ensures FirstRecurring(s) == Some(c) <==> exists j :: IsFirstRepeat(s, j) && s[j] == c
    decreases |s|
  {
    if |s| > 0 {
      var n := |s| - 1;
      var p := s[..n];
      FirstRecurringIsFirstRepeat(p, c);
      // Repeats in the prefix are repeats in s at the same index, and back.
      forall k | 0 <= k < n ensures RepeatsAt(p, k) <==> RepeatsAt(s, k) {
        PrefixOfPrefix(s, n, k);
        assert p[k] == s[k];
      }
      match FirstRecurring(p)
      case Some(d) =>
        FirstRecurringIsFirstRepeat(p, d);
        var j :| IsFirstRepeat(p, j) && p[j] == d;
        assert IsFirstRepeat(s, j);
        // The first repeat of s is at j, and its character is d.
        forall jj | IsFirstRepeat(s, jj) ensures jj == j {
        }
      case None =>
        FirstRecurringNoneIffDistinct(p);
        DistinctIffNoRepeat(p);
        assert forall k :: 0 <= k < n ==> !RepeatsAt(s, k);
        if exists j :: IsFirstRepeat(s, j) && s[j] == c {
          var j :| IsFirstRepeat(s, j) && s[j] == c;
          assert j == n;
        }
        if s[n] in p && s[n] == c {
          assert IsFirstRepeat(s, n);
        }
    }
  }

  /** Extending a string after its first repeat does not change the answer. */
  lemma {:induction false} FirstRecurringExtends(s: string, i: int)
    requires 0 <= i <= |s|
    requires FirstRecurring(s[..i]).Some?
    ensures FirstRecurring(s) == FirstRecurring(s[..i])
    decreases |s| - i
  {
    if i < |s| {
      PrefixOfPrefix(s, i + 1, i);
      FirstRecurringExtends(s, i + 1);
    } else {
      assert s[..i] == s;
    }
  }

  /** The character returned occurs at two different positions of the string. */
  lemma OccursTwice(s: string, c: char)
    requires FirstRecurring(s) == Some(c)
    ensures exists i, j :: 0 <= i < j < |s| && s[i] == c && s[j] == c
  {
    FirstRecurringIsFirstRepeat(s, c);
    var j :| IsFirstRepeat(s, j) && s[j] == c;
    var i :| 0 <= i < j && s[..j][i] == c;
    assert s[i] == c;
  }

  /** The part of the string before the first repeat has no duplicates. */
  lemma PrefixBeforeFirstRepeatDistinct(s: string, j: int)
    requires IsFirstRepeat(s, j)
    ensures Distinct(s[..j])
  {
    var p := s[..j];
    forall k | 0 <= k < j ensures !RepeatsAt(p, k) {
      PrefixOfPrefix(s, j, k);
      assert !RepeatsAt(s, k);
    }
    DistinctIffNoRepeat(p);
  }

  /** A string of at most one character has no recurring character. */
  lemma ShortStringHasNone(s: string)
    requires |s| <= 1
    ensures FirstRecurring(s) == None
  {
    if |s| == 1 {
      assert s[..0] == [];
    }
  }

  /** "abba" repeats 'b' first (at index 2), not 'a' (at index 3). */
  lemma AbbaYieldsB()
    ensures FirstRecurring("abba") == Some('b')
  {
    assert "abba"[..3][..2] == "ab";
    assert "abba"[..3][..2][..1] == "a";
    assert "abba"[..3][..2][..1][..0] == "";
  }

  /**
    The scan of check_rec_character.py. The `for` loop over the string is the
    `while` loop over `i`; `tracker` maps every character seen so far to 1.
    Values that are not strings cannot be passed, because the parameter has
    type `string`; `str` subclasses, which the source rejects with a
    `TypeError`, are not told apart.
  */
  method Checker(s: string) returns (r: Option<char>)
    ensures r == FirstRecurring(s)
    ensures r == None <==> Distinct(s)
    ensures r.Some? ==> exists j :: IsFirstRepeat(s, j) && s[j] == r.value
    ensures |s| <= 1 ==> r == None
  {
    var tracker: map<char, int> := map[];
    var i := 0;
    while i < |s|
      invariant 0 <= i <= |s|
      invariant tracker.Keys == set k | 0 <= k < i :: s[k]
      invariant forall c :: c in tracker ==> tracker[c] == 1
      invariant FirstRecurring(s[..i]) == None
    {
      var c := s[i];
      PrefixOfPrefix(s, i + 1, i);
      if c in tracker {
        var k :| 0 <= k < i && s[k] == c;
        assert s[..i][k] == c;
        assert FirstRecurring(s[..i + 1]) == Some(c);
        FirstRecurringExtends(s, i + 1);
        r := Some(c);
        Characterise(s, r);
        return;
      } else {
        assert c !in s[..i];
        tracker := tracker[c := 1];
      }
      i := i + 1;
    }
    assert s[..i] == s;
    r := None;
    Characterise(s, r);
  }

  /** The properties of the answer that `Checker` states, from the lemmas above. */
  lemma Characterise(s: string, r: Option<char>)
    requires r == FirstRecurring(s)
    ensures r == None <==> Distinct(s)
    ensures r.Some? ==> exists j :: IsFirstRepeat(s, j) && s[j] == r.value
    ensures |s| <= 1 ==> r == None
  {
    FirstRecurringNoneIffDistinct(s);
    if r.Some? {
      FirstRecurringIsFirstRepeat(s, r.value);
    }
    if |s| <= 1 {
      ShortStringHasNone(s);
    }
  }
}
