/**
 * Literal global replacement on strings, as Rust's `str::replace` performs it:
 * the pattern's occurrences are found left to right and do not overlap; each
 * one is replaced by the replacement text, and the text between them is kept.
 * The pattern is never empty here (every placeholder starts with '%').
 */
module StrReplace {

  /** `pat` occurs in `s` starting at position `j`. */
  predicate OccursAt(s: string, pat: string, j: int)
  {
    0 <= j && j + |pat| <= |s| && s[j..j + |pat|] == pat
  }

  /** `pat` occurs somewhere in `s`. */
  predicate Occurs(s: string, pat: string)
  {
    exists j :: 0 <= j <= |s| - |pat| && OccursAt(s, pat, j)
  }

  /** `s` begins with `pat`. */
  predicate StartsWith(s: string, pat: string)
  {
    |pat| <= |s| && s[..|pat|] == pat
  }

  /** Every non-overlapping occurrence of `pat` in `s`, scanning left to right, replaced by `rep`. */
  function ReplaceAll(s: string, pat: string, rep: string): string
    requires |pat| > 0
    decreases |s|
  {
    if |s| == 0 then s
    else if StartsWith(s, pat) then rep + ReplaceAll(s[|pat|..], pat, rep)
    else [s[0]] + ReplaceAll(s[1..], pat, rep)
  }

  /** The number of occurrences ReplaceAll replaces: matches found scanning left to right, without overlap. */
  function Count(s: string, pat: string): nat
    requires |pat| > 0
    decreases |s|
  {
    if |s| == 0 then 0
    else if StartsWith(s, pat) then 1 + Count(s[|pat|..], pat)
    else Count(s[1..], pat)
  }

  /** An occurrence at position j + 1 of `s` is an occurrence at position j of `s[1..]`, and back. */
  lemma OccursAtTail(s: string, pat: string, j: int)
    requires |s| > 0 && 0 <= j
    ensures OccursAt(s[1..], pat, j) <==> OccursAt(s, pat, j + 1)
  {
    if 0 <= j && j + 1 + |pat| <= |s| {
      assert s[1..][j..j + |pat|] == s[j + 1..j + 1 + |pat|];
    }
  }

  /** Each replaced occurrence changes the length by |rep| - |pat|, and nothing else does. */
  lemma {:induction false} ReplaceAllLength(s: string, pat: string, rep: string)
    requires |pat| > 0
    ensures |ReplaceAll(s, pat, rep)| == |s| + Count(s, pat) * (|rep| - |pat|)
    decreases |s|
  {
    if |s| == 0 {
    } else if StartsWith(s, pat) {
      var t := s[|pat|..];
      var d, n := |rep| - |pat|, Count(t, pat);
      ReplaceAllLength(t, pat, rep);
      assert |ReplaceAll(s, pat, rep)| == |rep| + |t| + n * d;
      assert |s| == |pat| + |t| && Count(s, pat) == 1 + n;
      Distribute(n, d);
    } else {
      ReplaceAllLength(s[1..], pat, rep);
    }
  }

  /** Scanning finds at least one match exactly when the pattern occurs somewhere. */
  lemma {:induction false} CountPositiveIff(s: string, pat: string)
    requires |pat| > 0
    ensures Count(s, pat) > 0 <==> Occurs(s, pat)
    decreases |s|
  {
    if |s| == 0 {
      assert !Occurs(s, pat) by {
        forall j ensures !OccursAt(s, pat, j) { }
      }
    } else if StartsWith(s, pat) {
      assert OccursAt(s, pat, 0);
    } else {
      CountPositiveIff(s[1..], pat);
      if Occurs(s, pat) {
        var j :| 0 <= j && OccursAt(s, pat, j);
        assert j != 0;
        OccursAtTail(s, pat, j - 1);
      }
      if Occurs(s[1..], pat) {
        var j :| 0 <= j && OccursAt(s[1..], pat, j);
        OccursAtTail(s, pat, j);
      }
    }
  }

  /** Replacing a pattern by itself changes nothing. */
  lemma {:induction false} ReplaceWithItself(s: string, pat: string)
    requires |pat| > 0
    ensures ReplaceAll(s, pat, pat) == s
    decreases |s|
  {
    if |s| == 0 {
    } else if StartsWith(s, pat) {
      ReplaceWithItself(s[|pat|..], pat);
      assert s == s[..|pat|] + s[|pat|..];
    } else {
      ReplaceWithItself(s[1..], pat);
      assert s == [s[0]] + s[1..];
    }
  }

  /** A match at the front is replaced, and scanning resumes right after it. */
  lemma ReplaceAfterMatch(t: string, pat: string, rep: string)
    requires |pat| > 0
    ensures ReplaceAll(pat + t, pat, rep) == rep + ReplaceAll(t, pat, rep)
  {
    assert (pat + t)[..|pat|] == pat && (pat + t)[|pat|..] == t;
  }

  /** Text holding no character that can begin the pattern is copied as it is, and scanning goes on after it. */
  lemma {:induction false} ReplaceAfterPlain(u: string, t: string, pat: string, rep: string)
    requires |pat| > 0
    requires forall i :: 0 <= i < |u| ==> u[i] != pat[0]
    ensures ReplaceAll(u + t, pat, rep) == u + ReplaceAll(t, pat, rep)
    decreases |u|
  {
    if |u| > 0 {
      var s := u + t;
      assert s[0] == u[0];
      assert !StartsWith(s, pat) by {
        if |pat| <= |s| { assert s[..|pat|][0] == s[0]; }
      }
      assert s[1..] == u[1..] + t;
      ReplaceAfterPlain(u[1..], t, pat, rep);
      assert u == [u[0]] + u[1..];
    } else {
      assert u + t == t;
    }
  }

  /** A string missing one of the pattern's characters cannot hold the pattern. */
  lemma AbsentCharNoOccurrence(s: string, pat: string, k: nat)
    requires k < |pat|
    requires forall i :: 0 <= i < |s| ==> s[i] != pat[k]
    ensures !Occurs(s, pat)
  {
    forall j | 0 <= j <= |s| - |pat|
      ensures !OccursAt(s, pat, j)
    {
      assert s[j..j + |pat|][k] == s[j + k];
    }
  }

  /** No character of `pat` after the first equals its first: occurrences of `pat` cannot overlap. */
  predicate NoSelfOverlap(pat: string)
  {
    forall k :: 0 < k < |pat| ==> pat[k] != pat[0]
  }

  /**
   * When `x` begins with a pattern that cannot overlap itself, no match of the
   * scan over `u + x` straddles the boundary, so the two parts are replaced separately.
   */
  lemma {:induction false} ReplaceConcat(u: string, x: string, pat: string, rep: string)
    requires |pat| > 0 && NoSelfOverlap(pat) && StartsWith(x, pat)
    ensures ReplaceAll(u + x, pat, rep) == ReplaceAll(u, pat, rep) + ReplaceAll(x, pat, rep)
    decreases |u|
  {
    var s := u + x;
    if |u| == 0 {
      assert s == x;
    } else if StartsWith(u, pat) {
      assert s[..|pat|] == u[..|pat|];
      assert s[|pat|..] == u[|pat|..] + x;
      ReplaceConcat(u[|pat|..], x, pat, rep);
    } else {
      assert !StartsWith(s, pat) by {
        if |pat| <= |u| {
          assert s[..|pat|] == u[..|pat|];
        } else if |pat| <= |s| {
          assert s[..|pat|][|u|] == x[0] == x[..|pat|][0] == pat[0] != pat[|u|];
        }
      }
      assert s[1..] == u[1..] + x;
      ReplaceConcat(u[1..], x, pat, rep);
    }
  }

  /**
   * Global replacement: for a pattern that cannot overlap itself, an occurrence
   * anywhere in the string is replaced, with the text on each side of it
   * replaced on its own.
   */
  lemma EveryOccurrenceReplaced(u: string, w: string, pat: string, rep: string)
    requires |pat| > 0 && NoSelfOverlap(pat)
    ensures ReplaceAll(u + pat + w, pat, rep) == ReplaceAll(u, pat, rep) + rep + ReplaceAll(w, pat, rep)
  {
    assert (pat + w)[..|pat|] == pat;
    assert u + pat + w == u + (pat + w);
    ReplaceConcat(u, pat + w, pat, rep);
    ReplaceAfterMatch(w, pat, rep);
  }

  /** A pattern that overlaps itself is matched leftmost first, and the overlapped copy is left alone. */
  lemma ExampleOverlappingPattern()
    ensures ReplaceAll("%a%a%a", "%a%a", "X") == "X%a"
  {
    assert "%a%a%a" == "%a%a" + "%a";
    ReplaceAfterMatch("%a", "%a%a", "X");
    assert !Occurs("%a", "%a%a");
    ReplaceUnchangedIff("%a", "%a%a", "X");
  }

  /** Two matches separated by, and followed by, text that cannot begin the pattern. */
  lemma ReplaceTwoMatches(pat: string, rep: string, mid: string, tail: string)
    requires |pat| > 0
    requires forall i :: 0 <= i < |mid| ==> mid[i] != pat[0]
    requires forall i :: 0 <= i < |tail| ==> tail[i] != pat[0]
    ensures ReplaceAll(pat + (mid + (pat + tail)), pat, rep) == rep + (mid + (rep + tail))
  {
    assert tail == tail + "";
    ReplaceAfterPlain(tail, "", pat, rep);
    ReplaceAfterMatch(tail, pat, rep);
    ReplaceAfterPlain(mid, pat + tail, pat, rep);
    ReplaceAfterMatch(mid + (pat + tail), pat, rep);
  }

  /** When scanning finds no match, the string comes back unchanged. */
  lemma {:induction false} ReplaceWithoutMatch(s: string, pat: string, rep: string)
    requires |pat| > 0 && Count(s, pat) == 0
    ensures ReplaceAll(s, pat, rep) == s
    decreases |s|
  {
    if |s| > 0 {
      ReplaceWithoutMatch(s[1..], pat, rep);
      assert s == [s[0]] + s[1..];
    }
  }

  /** With a replacement as long as the pattern but different from it, any occurrence changes the string. */
  lemma {:induction false} ReplaceSameLengthChanges(s: string, pat: string, rep: string)
    requires |pat| > 0 && |rep| == |pat| && rep != pat
    requires Occurs(s, pat)
    ensures ReplaceAll(s, pat, rep) != s
    decreases |s|
  {
    var j :| 0 <= j && OccursAt(s, pat, j);
    if StartsWith(s, pat) {
      var r := ReplaceAll(s, pat, rep);
      assert r[..|pat|] == rep;
    } else {
      assert j != 0;
      OccursAtTail(s, pat, j - 1);
      ReplaceSameLengthChanges(s[1..], pat, rep);
      var r := ReplaceAll(s, pat, rep);
      assert r[1..] == ReplaceAll(s[1..], pat, rep);
    }
  }

  /**
   * The replacement leaves the string unchanged exactly when the pattern does
   * not occur in it, or the replacement text is the pattern itself.
   */
  lemma ReplaceUnchangedIff(s: string, pat: string, rep: string)
    requires |pat| > 0
    ensures ReplaceAll(s, pat, rep) == s <==> !Occurs(s, pat) || rep == pat
  {
    if rep == pat {
      ReplaceWithItself(s, pat);
    } else if !Occurs(s, pat) {
      CountPositiveIff(s, pat);
      ReplaceWithoutMatch(s, pat, rep);
    } else if |rep| == |pat| {
      ReplaceSameLengthChanges(s, pat, rep);
    } else {
      CountPositiveIff(s, pat);
      ReplaceAllLength(s, pat, rep);
      NonzeroProduct(Count(s, pat), |rep| - |pat|);
    }
  }

  lemma Distribute(n: int, d: int)
    ensures (1 + n) * d == d + n * d
  {
  }

  lemma NonzeroProduct(c: int, d: int)
    requires c > 0 && d != 0
    ensures c * d != 0
  {
  }
}
