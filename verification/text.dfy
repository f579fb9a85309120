/**
  The string operations the app relies on: `indexOf`, `contains` and
  `replace` of the Kotlin standard library, over `seq<char>`.

  Case-insensitive comparison folds ASCII letters only; the rest of
  Unicode case mapping is not modelled.
 */
module Text {

  /** ASCII lower-casing: 'A'..'Z' become 'a'..'z', every other char is kept. */
  function LowerAscii(c: char): char
  {
    if 'A' <= c <= 'Z' then (c as int - 'A' as int + 'a' as int) as char else c
  }

  /** Lower-cases every character of `s`. */
  function LowerAll(s: string): (r: string)
    ensures |r| == |s|
    ensures forall k :: 0 <= k < |s| ==> r[k] == LowerAscii(s[k])
  {
    seq(|s|, k requires 0 <= k < |s| => LowerAscii(s[k]))
  }

  /** `Char.equals(other, ignoreCase)`: equal chars, or equal up to case when `ignoreCase`. */
  predicate CharEquals(a: char, b: char, ignoreCase: bool)
  {
    a == b || (ignoreCase && LowerAscii(a) == LowerAscii(b))
  }

  /** The whole of `q` occurs in `s` starting at index `i`. */
  predicate RegionMatches(s: string, i: int, q: string, ignoreCase: bool)
  {
    && 0 <= i
    && i + |q| <= |s|
    && forall k :: 0 <= k < |q| ==> CharEquals(s[i + k], q[k], ignoreCase)
  }

  /**
    `s.indexOf(q, from, ignoreCase)` for a start index within `s`: the
    lowest index at or after `from` where `q` occurs, or -1 when there is
    none.
   */
  function IndexOf(s: string, q: string, from: nat, ignoreCase: bool): (r: int)
    requires from <= |s|
    ensures r == -1 || from <= r
    ensures r >= 0 ==> RegionMatches(s, r, q, ignoreCase)
    ensures r >= 0 ==> forall j :: from <= j < r ==> !RegionMatches(s, j, q, ignoreCase)
    ensures r == -1 <==> forall j :: from <= j ==> !RegionMatches(s, j, q, ignoreCase)
    decreases |s| - from
  {
    if from + |q| > |s| then -1
    else if RegionMatches(s, from, q, ignoreCase) then from
    else IndexOf(s, q, from + 1, ignoreCase)
  }

  /** `s.contains(q, ignoreCase)`: `q` occurs somewhere in `s`. */
  function Contains(s: string, q: string, ignoreCase: bool): (r: bool)
    ensures r <==> exists i :: 0 <= i <= |s| && RegionMatches(s, i, q, ignoreCase)
  {
    IndexOf(s, q, 0, ignoreCase) >= 0
  }

  /** Every string contains the empty string, the empty one included. */
  lemma ContainsEmpty(s: string, ignoreCase: bool)
    ensures Contains(s, "", ignoreCase)
  {
    assert RegionMatches(s, 0, "", ignoreCase);
  }

  /** A case-insensitive search does not depend on the case of the query. */
  lemma ContainsIgnoresQueryCase(s: string, q1: string, q2: string)
    requires LowerAll(q1) == LowerAll(q2)
    ensures Contains(s, q1, true) <==> Contains(s, q2, true)
  {
    forall i | 0 <= i <= |s|
      ensures RegionMatches(s, i, q1, true) <==> RegionMatches(s, i, q2, true)
    {
      assert |q1| == |q2| by {
        assert |LowerAll(q1)| == |LowerAll(q2)|;
      }
      forall k | 0 <= k < |q1|
        ensures LowerAscii(q1[k]) == LowerAscii(q2[k])
      {
        assert LowerAll(q1)[k] == LowerAll(q2)[k];
      }
    }
    if Contains(s, q1, true) {
      var i :| 0 <= i <= |s| && RegionMatches(s, i, q1, true);
      assert RegionMatches(s, i, q2, true);
    }
    if Contains(s, q2, true) {
      var i :| 0 <= i <= |s| && RegionMatches(s, i, q2, true);
      assert RegionMatches(s, i, q1, true);
    }
  }

  /**
    `s.replace(oldValue, newValue)`: every occurrence of `oldValue`, found
    left to right without overlap, replaced by `newValue`.
   */
  function ReplaceAll(s: string, oldValue: string, newValue: string): (r: string)
    requires |oldValue| > 0
    ensures !Contains(s, oldValue, false) ==> r == s
    ensures |newValue| <= |oldValue| ==> |r| <= |s|
    decreases |s|
  {
    if |s| == 0 then ""
    else if RegionMatches(s, 0, oldValue, false) then newValue + ReplaceAll(s[|oldValue|..], oldValue, newValue)
    else
      ContainsInTail(s, oldValue);
      assert s == [s[0]] + s[1..];
      [s[0]] + ReplaceAll(s[1..], oldValue, newValue)
  }

  /** An exact match of `p` at `i` in `s` is one at `i - 1` in `s[1..]`. */
  lemma RegionMatchesInTail(s: string, p: string, i: int)
    requires |s| > 0 && i >= 1
    ensures RegionMatches(s, i, p, false) <==> RegionMatches(s[1..], i - 1, p, false)
  {
    if RegionMatches(s, i, p, false) {
      forall k | 0 <= k < |p| ensures s[1..][i - 1 + k] == p[k] {
        assert s[i + k] == p[k];
      }
    }
    if RegionMatches(s[1..], i - 1, p, false) {
      forall k | 0 <= k < |p| ensures s[i + k] == p[k] {
        assert s[1..][i - 1 + k] == p[k];
      }
    }
  }

  /** An occurrence in the tail of `s` is an occurrence in `s`. */
  lemma ContainsInTail(s: string, p: string)
    requires |s| > 0
    ensures Contains(s[1..], p, false) ==> Contains(s, p, false)
  {
    if Contains(s[1..], p, false) {
      var i :| 0 <= i <= |s[1..]| && RegionMatches(s[1..], i, p, false);
      RegionMatchesInTail(s, p, i + 1);
    }
  }

  /** Replacing by a strictly shorter value shortens every string that holds `oldValue`. */
  lemma {:induction false} ReplaceShortens(s: string, oldValue: string, newValue: string)
    requires |oldValue| > 0 && |newValue| < |oldValue|
    requires Contains(s, oldValue, false)
    ensures |ReplaceAll(s, oldValue, newValue)| < |s|
    decreases |s|
  {
    if !RegionMatches(s, 0, oldValue, false) {
      var i :| 0 <= i <= |s| && RegionMatches(s, i, oldValue, false);
      assert i >= 1;
      RegionMatchesInTail(s, oldValue, i);
      assert Contains(s[1..], oldValue, false);
      ReplaceShortens(s[1..], oldValue, newValue);
    }
  }

  /** At a match, `replace` emits the replacement and resumes after the match. */
  lemma ReplaceAtMatch(s: string, oldValue: string, newValue: string, k: nat)
    requires |oldValue| > 0
    requires RegionMatches(s, k, oldValue, false)
    ensures ReplaceAll(s[k..], oldValue, newValue) == newValue + ReplaceAll(s[k + |oldValue|..], oldValue, newValue)
  {
    assert RegionMatches(s[k..], 0, oldValue, false) by {
      forall m | 0 <= m < |oldValue| ensures s[k..][m] == oldValue[m] {
        assert s[k + m] == oldValue[m];
      }
    }
    assert s[k..][|oldValue|..] == s[k + |oldValue|..];
  }

  /** Where no match starts, `replace` copies the character and moves on. */
  lemma ReplaceCopiesChar(s: string, oldValue: string, newValue: string, i: nat)
    requires |oldValue| > 0
    requires i < |s|
    requires !RegionMatches(s, i, oldValue, false)
    ensures ReplaceAll(s[i..], oldValue, newValue) == [s[i]] + ReplaceAll(s[i + 1..], oldValue, newValue)
  {
    assert !RegionMatches(s[i..], 0, oldValue, false) by {
      if RegionMatches(s[i..], 0, oldValue, false) {
        assert false;
      }
    }
    assert s[i..][1..] == s[i + 1..];
  }

  /** Taking the first character out of a slice that heads a concatenation. */
  lemma SliceFirstOut(s: string, i: nat, k: nat, b: string, c: string)
    requires i < k <= |s|
    ensures s[i..k] + b + c == [s[i]] + (s[i + 1..k] + b + c)
  {
    assert s[i..k] == [s[i]] + s[i + 1..k];
  }

  /**
    Replacing ahead of the first match: when `oldValue` first occurs at `k`
    at or after `i`, the text from `i` up to `k` is copied and the match is
    replaced.
   */
  lemma {:induction false} ReplaceUpToMatch(s: string, oldValue: string, newValue: string, i: nat, k: nat)
    requires |oldValue| > 0
    requires i <= k
    requires RegionMatches(s, k, oldValue, false)
    requires forall j :: i <= j < k ==> !RegionMatches(s, j, oldValue, false)
    ensures ReplaceAll(s[i..], oldValue, newValue)
         == s[i..k] + newValue + ReplaceAll(s[k + |oldValue|..], oldValue, newValue)
    decreases k - i
  {
    ReplaceAtMatch(s, oldValue, newValue, k);
    if i == k {
      assert s[i..k] + newValue == newValue;
    } else {
      ReplaceCopiesChar(s, oldValue, newValue, i);
      ReplaceUpToMatch(s, oldValue, newValue, i + 1, k);
      SliceFirstOut(s, i, k, newValue, ReplaceAll(s[k + |oldValue|..], oldValue, newValue));
    }
  }

  /** A match in a suffix of `s` is a match in `s`, shifted by where the suffix starts. */
  lemma RegionMatchesInSuffix(s: string, i: nat, j: int, p: string)
    requires i <= |s|
    requires RegionMatches(s[i..], j, p, false)
    ensures RegionMatches(s, i + j, p, false)
  {
    forall m | 0 <= m < |p| ensures s[i + j + m] == p[m] {
      assert s[i..][j + m] == p[m];
    }
  }

  /** With no match at or after `i`, the rest of the string is copied unchanged. */
  lemma ReplaceAfterLastMatch(s: string, oldValue: string, newValue: string, i: nat)
    requires |oldValue| > 0
    requires i <= |s|
    requires forall j :: i <= j ==> !RegionMatches(s, j, oldValue, false)
    ensures ReplaceAll(s[i..], oldValue, newValue) == s[i..]
  {
    if Contains(s[i..], oldValue, false) {
      var j :| 0 <= j <= |s[i..]| && RegionMatches(s[i..], j, oldValue, false);
      RegionMatchesInSuffix(s, i, j, oldValue);
      assert false;
    }
  }

  /** One step of the replace loop: what `indexOf` finds from `i` decides how the rest of the string is replaced. */
  lemma ReplaceFromIndex(s: string, oldValue: string, newValue: string, i: nat, k: int)
    requires |oldValue| > 0
    requires i <= |s|
    requires k == IndexOf(s, oldValue, i, false)
    ensures k == -1 ==> ReplaceAll(s[i..], oldValue, newValue) == s[i..]
    ensures k >= 0 ==> i <= k && k + |oldValue| <= |s|
    ensures k >= 0 ==> ReplaceAll(s[i..], oldValue, newValue)
                       == (s[i..k] + newValue) + ReplaceAll(s[k + |oldValue|..], oldValue, newValue)
  {
    if k == -1 {
      ReplaceAfterLastMatch(s, oldValue, newValue, i);
    } else {
      ReplaceUpToMatch(s, oldValue, newValue, i, k);
    }
  }

  /** One turn of the replace loop keeps its invariant: the copied prefix plus the replacement of the rest is the whole replacement. */
  lemma ReplaceStep(s: string, oldValue: string, newValue: string, out: string, i: nat, k: int)
    requires |oldValue| > 0
    requires i <= |s|
    requires k == IndexOf(s, oldValue, i, false) && k >= 0
    ensures i <= k && k + |oldValue| <= |s|
    ensures out + ReplaceAll(s[i..], oldValue, newValue) == ReplaceAll(s, oldValue, newValue) ==>
              (out + (s[i..k] + newValue)) + ReplaceAll(s[k + |oldValue|..], oldValue, newValue)
              == ReplaceAll(s, oldValue, newValue)
  {
    ReplaceFromIndex(s, oldValue, newValue, i, k);
    var copied := s[i..k] + newValue;
    var tail := ReplaceAll(s[k + |oldValue|..], oldValue, newValue);
    assert out + (copied + tail) == (out + copied) + tail;
  }

  /**
    The replace loop of the Kotlin standard library: search with `indexOf`,
    copy the text before the match, append the replacement, resume the
    search after the match. It computes exactly `ReplaceAll`.
   */
  method Replace(s: string, oldValue: string, newValue: string) returns (out: string)
    requires |oldValue| > 0
    ensures out == ReplaceAll(s, oldValue, newValue)
  {
    out := "";
    var i: nat := 0;
    var k := IndexOf(s, oldValue, 0, false);
    assert s[0..] == s;
    while k >= 0
      invariant i <= |s|
      invariant k == IndexOf(s, oldValue, i, false)
      invariant out + ReplaceAll(s[i..], oldValue, newValue) == ReplaceAll(s, oldValue, newValue)
      decreases |s| - i
    {
      ReplaceStep(s, oldValue, newValue, out, i, k);
      var copied := s[i..k] + newValue;
      var next := k + |oldValue|;
      assert (out + copied) + ReplaceAll(s[next..], oldValue, newValue) == ReplaceAll(s, oldValue, newValue);
      out := out + copied;
      i := next;
      k := IndexOf(s, oldValue, i, false);
    }
    ReplaceFromIndex(s, oldValue, newValue, i, k);
    out := out + s[i..];
  }

  /**
    `w` can never line up with `newValue`: at every offset of `w` the two
    disagree on some common position, so no suffix of `w` is a prefix of
    `newValue` and `newValue` is a prefix of no suffix of `w`.
   */
  ghost predicate NeverAligns(w: string, newValue: string)
  {
    forall i :: 0 <= i < |w| ==> !(w[i..] <= newValue) && !(newValue <= w[i..])
  }

  /** A non-empty `w` that never lines up with `newValue` does not begin any text that begins with `newValue`. */
  lemma NeverAlignedIsNoPrefix(w: string, newValue: string, x: string)
    requires |w| > 0
    requires NeverAligns(w, newValue)
    ensures !(w <= newValue + x)
  {
    assert w[0..] == w;
    if |w| <= |newValue| {
      assert (newValue + x)[..|w|] == newValue[..|w|];
    } else {
      assert (newValue + x)[..|newValue|] == newValue;
    }
  }

  /**
    When `w` never lines up with the replacement, a prefix `w` of the output
    comes straight from the input: it was not produced by a replacement.
   */
  lemma {:induction false} PrefixOfReplaceIsFromInput(t: string, oldValue: string, newValue: string, w: string)
    requires |oldValue| > 0
    requires NeverAligns(w, newValue)
    requires w <= ReplaceAll(t, oldValue, newValue)
    ensures w <= t
    decreases |t|
  {
    if |w| > 0 && |t| > 0 {
      var rest := if RegionMatches(t, 0, oldValue, false) then t[|oldValue|..] else t[1..];
      if RegionMatches(t, 0, oldValue, false) {
        NeverAlignedIsNoPrefix(w, newValue, ReplaceAll(rest, oldValue, newValue));
        assert false;
      } else {
        assert w[0] == t[0];
        assert w[1..] <= ReplaceAll(rest, oldValue, newValue);
        assert NeverAligns(w[1..], newValue) by {
          forall i | 0 <= i < |w[1..]|
            ensures !(w[1..][i..] <= newValue) && !(newValue <= w[1..][i..])
          {
            assert w[1..][i..] == w[i + 1..];
          }
        }
        PrefixOfReplaceIsFromInput(rest, oldValue, newValue, w[1..]);
      }
    }
  }

  /**
    If the replacement never starts a new occurrence of `oldValue` (it does
    not contain the first char of `oldValue`, and the rest of `oldValue`
    never lines up with it), the output holds no occurrence of `oldValue`.
   */
  lemma {:induction false} ReplaceLeavesNoOccurrence(s: string, oldValue: string, newValue: string)
    requires |oldValue| > 0
    requires forall k :: 0 <= k < |newValue| ==> newValue[k] != oldValue[0]
    requires NeverAligns(oldValue[1..], newValue)
    ensures !Contains(ReplaceAll(s, oldValue, newValue), oldValue, false)
    decreases |s|
  {
    var o := ReplaceAll(s, oldValue, newValue);
    if |s| > 0 {
      if RegionMatches(s, 0, oldValue, false) {
        var rest := s[|oldValue|..];
        ReplaceLeavesNoOccurrence(rest, oldValue, newValue);
        assert o == newValue + ReplaceAll(rest, oldValue, newValue);
        if Contains(o, oldValue, false) {
          var i :| 0 <= i <= |o| && RegionMatches(o, i, oldValue, false);
          if i < |newValue| {
            assert false;
          } else {
            var tail := ReplaceAll(rest, oldValue, newValue);
            forall m | 0 <= m < |oldValue| ensures tail[i - |newValue| + m] == oldValue[m] {
              assert o[i + m] == oldValue[m];
            }
            assert RegionMatches(tail, i - |newValue|, oldValue, false);
          }
          assert false;
        }
      } else {
        var tail := ReplaceAll(s[1..], oldValue, newValue);
        ReplaceLeavesNoOccurrence(s[1..], oldValue, newValue);
        assert o == [s[0]] + tail;
        if Contains(o, oldValue, false) {
          var i :| 0 <= i <= |o| && RegionMatches(o, i, oldValue, false);
          if i == 0 {
            assert s[0] == o[0 + 0] == oldValue[0];
            assert oldValue[1..] <= tail by {
              forall m | 0 <= m < |oldValue| - 1 ensures tail[m] == oldValue[1..][m] {
                assert o[0 + (m + 1)] == oldValue[m + 1];
              }
            }
            PrefixOfReplaceIsFromInput(s[1..], oldValue, newValue, oldValue[1..]);
          } else {
            assert o[1..] == tail;
            RegionMatchesInTail(o, oldValue, i);
          }
          assert false;
        }
      }
    }
  }
}
