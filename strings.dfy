/**
 * The two string operations of Rust's standard library that the navigator
 * relies on: `str::replace` (literal, left to right, non-overlapping) and
 * `str::split` on a single character.
 */
module Strings {

  /** `pat` occurs in `s` starting at index `i`. */
  predicate OccursAt(s: string, pat: string, i: nat) {
    i + |pat| <= |s| && s[i..i + |pat|] == pat
  }

  ghost predicate Contains(s: string, pat: string) {
    exists i: nat :: OccursAt(s, pat, i)
  }

  /** No character of `rep` appears anywhere in `pat`. */
  predicate SharesNoChar(rep: string, pat: string) {
    forall i :: 0 <= i < |rep| ==> rep[i] !in pat
  }

  /**
   * `s.replace(pat, rep)`: scan `s` from the left; wherever `pat` starts,
   * emit `rep` and continue after the match, otherwise copy one character.
   */
  function ReplaceAll(s: string, pat: string, rep: string): string
    requires |pat| > 0
    decreases |s|
  {
    if |s| < |pat| then s
    else if s[..|pat|] == pat then rep + ReplaceAll(s[|pat|..], pat, rep)
    else [s[0]] + ReplaceAll(s[1..], pat, rep)
  }

  /** Occurrences in a suffix are the occurrences in the whole text, shifted. */
  lemma OccursShift(s: string, k: nat, pat: string, i: nat)
    requires k <= |s|
    ensures OccursAt(s[k..], pat, i) <==> OccursAt(s, pat, k + i)
  {
    if k + i + |pat| <= |s| {
      assert s[k..][i..i + |pat|] == s[k + i..k + i + |pat|];
    }
  }

  /** A text in which `pat` never occurs is returned unchanged. */
  lemma {:induction false} ReplaceAbsent(s: string, pat: string, rep: string)
    requires |pat| > 0 && !Contains(s, pat)
    ensures ReplaceAll(s, pat, rep) == s
    decreases |s|
  {
    if |s| >= |pat| {
      assert !OccursAt(s, pat, 0);
      forall i: nat ensures !OccursAt(s[1..], pat, i) {
        OccursShift(s, 1, pat, i);
      }
      ReplaceAbsent(s[1..], pat, rep);
    }
  }

  /**
   * As long as the output shows no character of `rep`, it is a verbatim
   * copy of the input: then the first `m` characters agree.
   */
  lemma {:induction false} ReplaceCopiesPrefix(s: string, pat: string, rep: string, m: nat)
    requires |pat| > 0 && |rep| > 0
    requires m <= |ReplaceAll(s, pat, rep)|
    ensures (forall i :: 0 <= i < m ==> ReplaceAll(s, pat, rep)[i] !in rep) ==>
              m <= |s| && ReplaceAll(s, pat, rep)[..m] == s[..m]
    decreases |s|
  {
    var r := ReplaceAll(s, pat, rep);
    if |s| >= |pat| && m > 0 {
      if s[..|pat|] == pat {
        assert r[0] == rep[0];
      } else {
        var r' := ReplaceAll(s[1..], pat, rep);
        assert r == [s[0]] + r';
        ReplaceCopiesPrefix(s[1..], pat, rep, m - 1);
        if forall i :: 0 <= i < m ==> r[i] !in rep {
          forall i | 0 <= i < m - 1 ensures r'[i] !in rep {
            assert r'[i] == r[i + 1];
          }
          assert r[..m] == [s[0]] + r'[..m - 1];
          assert s[..m] == [s[0]] + s[1..][..m - 1];
        }
      }
    }
  }

  /**
   * Replacing every `pat` by `rep` keeps away any pattern `q` that the
   * input lacks, as long as `q` shares no character with `rep`.
   */
  lemma {:induction false} ReplaceKeepsAbsent(s: string, pat: string, rep: string, q: string)
    requires |pat| > 0 && |rep| > 0 && |q| > 0
    requires SharesNoChar(rep, q) && !Contains(s, q)
    ensures !Contains(ReplaceAll(s, pat, rep), q)
    decreases |s|
  {
    var r := ReplaceAll(s, pat, rep);
    if |s| >= |pat| {
      var matched := s[..|pat|] == pat;
      var skip := if matched then |pat| else 1;
      var head := if matched then rep else [s[0]];
      var t := s[skip..];
      forall i: nat ensures !OccursAt(t, q, i) { OccursShift(s, skip, pat, i); OccursShift(s, skip, q, i); }
      ReplaceKeepsAbsent(t, pat, rep, q);
      assert r == head + ReplaceAll(t, pat, rep);
      assert (head + ReplaceAll(t, pat, rep))[|head|..] == ReplaceAll(t, pat, rep);
      forall k: nat ensures !OccursAt(r, q, k) {
        if k >= |head| {
          OccursShift(r, |head|, q, k - |head|);
        } else if matched {
          if k + |q| <= |r| {
            assert r[k..k + |q|][0] == rep[k];
          }
        } else if |q| <= |r| {
          ReplaceCopiesPrefix(s, pat, rep, |q|);
          forall i | 0 <= i < |q| ensures q[i] !in rep {
            assert forall j :: 0 <= j < |rep| ==> rep[j] != q[i];
          }
          assert !OccursAt(s, q, 0);
        }
      }
    }
  }

  /**
   * Replacing every `pat` by a non-empty `rep` that shares no character
   * with `pat` leaves no occurrence of `pat` behind.
   */
  lemma {:induction false} ReplaceRemovesPattern(s: string, pat: string, rep: string)
    requires |pat| > 0 && |rep| > 0 && SharesNoChar(rep, pat)
    ensures !Contains(ReplaceAll(s, pat, rep), pat)
    decreases |s|
  {
    var r := ReplaceAll(s, pat, rep);
    if |s| >= |pat| {
      var matched := s[..|pat|] == pat;
      var skip := if matched then |pat| else 1;
      var head := if matched then rep else [s[0]];
      var t := s[skip..];
      ReplaceRemovesPattern(t, pat, rep);
      assert r == head + ReplaceAll(t, pat, rep);
      assert (head + ReplaceAll(t, pat, rep))[|head|..] == ReplaceAll(t, pat, rep);
      forall k: nat ensures !OccursAt(r, pat, k) {
        if k >= |head| {
          OccursShift(r, |head|, pat, k - |head|);
        } else if matched {
          if k + |pat| <= |r| {
            assert r[k..k + |pat|][0] == rep[k];
          }
        } else if |pat| <= |r| {
          ReplaceCopiesPrefix(s, pat, rep, |pat|);
          forall i | 0 <= i < |pat| ensures pat[i] !in rep {
            assert forall j :: 0 <= j < |rep| ==> rep[j] != pat[i];
          }
        }
      }
    }
  }

  /** A prefix in which no occurrence of `pat` starts is copied as it is. */
  lemma {:induction false} ReplaceSkipsPrefix(a: string, b: string, pat: string, rep: string)
    requires |pat| > 0
    requires forall i: nat :: i < |a| ==> !OccursAt(a + b, pat, i)
    ensures ReplaceAll(a + b, pat, rep) == a + ReplaceAll(b, pat, rep)
    decreases |a|
  {
    if |a| > 0 {
      var s := a + b;
      var a' := a[1..];
      assert s[1..] == a' + b;
      forall i: nat | i < |a'| ensures !OccursAt(a' + b, pat, i) {
        assert !OccursAt(s, pat, 1 + i);
        OccursShift(s, 1, pat, i);
      }
      ReplaceSkipsPrefix(a', b, pat, rep);
      assert a == [a[0]] + a';
      if |s| >= |pat| {
        assert !OccursAt(s, pat, 0);
        assert ReplaceAll(s, pat, rep) == [s[0]] + ReplaceAll(s[1..], pat, rep);
        assert [s[0]] + (a' + ReplaceAll(b, pat, rep)) == a + ReplaceAll(b, pat, rep);
      } else {
        assert |b| < |pat| && ReplaceAll(b, pat, rep) == b;
      }
    } else {
      assert a + b == b;
    }
  }

  /** No occurrence of `pat` starts inside a text that lacks the first character of `pat`. */
  lemma OpenerMissing(a: string, b: string, pat: string)
    requires |pat| > 0 && pat[0] !in a
    ensures forall i: nat :: i < |a| ==> !OccursAt(a + b, pat, i)
  {
    forall i: nat | i < |a| ensures !OccursAt(a + b, pat, i) {
      if i + |pat| <= |a + b| {
        assert (a + b)[i..i + |pat|][0] == a[i];
      }
    }
  }

  /** A match at the front is replaced, and the scan resumes after it. */
  lemma ReplaceAtMatch(b: string, pat: string, rep: string)
    requires |pat| > 0
    ensures ReplaceAll(pat + b, pat, rep) == rep + ReplaceAll(b, pat, rep)
  {
    assert (pat + b)[..|pat|] == pat;
    assert (pat + b)[|pat|..] == b;
  }

  /**
   * `s.split(sep)`: the pieces between separators, in order; an empty text
   * gives one empty piece, and adjacent separators give empty pieces.
   */
  function Split(s: string, sep: char): (parts: seq<string>)
    ensures |parts| > 0
    ensures forall i :: 0 <= i < |parts| ==> sep !in parts[i]
  {
    if |s| == 0 then [""]
    else
      var rest := Split(s[1..], sep);
      if s[0] == sep then [""] + rest
      else [[s[0]] + rest[0]] + rest[1..]
  }

  /** The pieces joined back with `sep` between them. */
  function Join(parts: seq<string>, sep: char): string
    requires |parts| > 0
  {
    if |parts| == 1 then parts[0] else parts[0] + [sep] + Join(parts[1..], sep)
  }

  /** Splitting loses nothing: the separators put back give the original text. */
  lemma {:induction false} JoinSplit(s: string, sep: char)
    ensures Join(Split(s, sep), sep) == s
  {
    if |s| > 0 {
      var rest := Split(s[1..], sep);
      JoinSplit(s[1..], sep);
      if s[0] != sep {
        var parts := Split(s, sep);
        assert parts[1..] == rest[1..];
        if |rest| == 1 {
          assert parts == [[s[0]] + rest[0]];
        } else {
          assert Join(rest, sep) == rest[0] + [sep] + Join(rest[1..], sep);
        }
      } else {
        assert Split(s, sep)[1..] == rest;
      }
    }
  }

  /** A text without the separator is a single piece. */
  lemma {:induction false} SplitWithoutSeparator(s: string, sep: char)
    requires sep !in s
    ensures Split(s, sep) == [s]
  {
    if |s| > 0 {
      assert forall j :: 0 <= j < |s[1..]| ==> s[1..][j] == s[j + 1];
      SplitWithoutSeparator(s[1..], sep);
      assert [s[0]] + s[1..] == s;
    }
  }
}
