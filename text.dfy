/** The string operations the handlers use: ASCII lower-casing (`str.lower`),
    decimal rendering of integers (`str(n)`), substring search (`in`) and
    Python's `str.replace`, which replaces every non-overlapping occurrence
    from left to right. */
module Text {

  function LowerChar(c: char): char
  {
    if 'A' <= c <= 'Z' then (c as int + 32) as char else c
  }

  /** `s.lower()` restricted to ASCII letters. */
  function Lower(s: string): string
  {
    seq(|s|, i requires 0 <= i < |s| => LowerChar(s[i]))
  }

  /** `s` holds no upper-case ASCII letter. */
  predicate IsLower(s: string)
  {
    forall i :: 0 <= i < |s| ==> !('A' <= s[i] <= 'Z')
  }

  /** Lower-casing leaves a string without upper-case letters as it is. */
  lemma LowerFixed(s: string)
    requires IsLower(s)
    ensures Lower(s) == s
  {
  }

  /** Lower-casing gives a lower-case string, so doing it twice is doing it once. */
  lemma LowerIdempotent(s: string)
    ensures IsLower(Lower(s))
    ensures Lower(Lower(s)) == Lower(s)
  {
    LowerFixed(Lower(s));
  }

  predicate IsDigit(c: char)
  {
    '0' <= c <= '9'
  }

  function Digit(d: nat): char
    requires d < 10
  {
    ('0' as int + d) as char
  }

  /** `str(n)` of a non-negative integer: its decimal digits, most significant first. */
  function NatToString(n: nat): (s: string)
    ensures |s| > 0
    ensures forall i :: 0 <= i < |s| ==> IsDigit(s[i])
    decreases n
  {
    if n < 10 then [Digit(n)] else NatToString(n / 10) + [Digit(n % 10)]
  }

  /** `str(n)` of any integer. */
  function IntToString(n: int): (s: string)
    ensures |s| > 0
    ensures s[0] == '-' || IsDigit(s[0])
  {
    if n < 0 then "-" + NatToString(-n) else NatToString(n)
  }

  /** The number a string of decimal digits denotes. */
  function DigitsValue(s: string): nat
    requires forall i :: 0 <= i < |s| ==> IsDigit(s[i])
    decreases |s|
  {
    if s == [] then 0
    else
      var last := s[|s| - 1];
      assert IsDigit(last);
      DigitsValue(s[..|s| - 1]) * 10 + (last as int - '0' as int)
  }

  /** Reading the rendered digits back gives the number. */
  lemma {:induction false} NatToStringRoundTrip(n: nat)
    ensures DigitsValue(NatToString(n)) == n
    decreases n
  {
    var s := NatToString(n);
    if n >= 10 {
      assert s[..|s| - 1] == NatToString(n / 10);
      NatToStringRoundTrip(n / 10);
    }
  }

  /** `pat` occurs in `s` at position `i`. */
  predicate OccursAt(s: string, pat: string, i: int)
  {
    0 <= i && i + |pat| <= |s| && s[i..i + |pat|] == pat
  }

  /** `pat in s`. */
  predicate Contains(s: string, pat: string)
  {
    exists i :: 0 <= i <= |s| && OccursAt(s, pat, i)
  }

  /** Placed `k` characters into `x`, `y` disagrees with `x` somewhere they overlap. */
  predicate Disagree(x: string, y: string, k: nat)
  {
    exists j :: 0 <= j < |y| && k + j < |x| && x[k + j] != y[j]
  }

  /** No proper suffix of `x` agrees with `y` where the two overlap: text
      ending inside a copy of `x` cannot begin `y`. */
  predicate NoSuffixOverlap(x: string, y: string)
  {
    forall k :: 0 < k < |x| ==> Disagree(x, y, k)
  }

  /** It is enough that the first character of `y` appears in `x` only at its start. */
  lemma FirstCharOnlyAtStart(x: string, y: string)
    requires |y| > 0
    requires forall k :: 1 <= k < |x| ==> x[k] != y[0]
    ensures NoSuffixOverlap(x, y)
  {
    forall k | 0 < k < |x|
      ensures Disagree(x, y, k)
    {
      assert x[k + 0] != y[0];
    }
  }

  /** `s.replace(pat, rep)`: scanning left to right, each occurrence of `pat`
      is replaced by `rep` and scanning resumes after it. */
  function ReplaceAll(s: string, pat: string, rep: string): (r: string)
    requires |pat| > 0
    ensures |pat| == |rep| ==> |r| == |s|
    decreases |s|
  {
    if |s| < |pat| then s
    else if s[..|pat|] == pat then rep + ReplaceAll(s[|pat|..], pat, rep)
    else [s[0]] + ReplaceAll(s[1..], pat, rep)
  }

  /** An occurrence in the tail of `s` is an occurrence in `s`, one further on. */
  lemma OccursInTail(s: string, pat: string, j: int)
    requires |s| > 0 && 0 <= j
    ensures OccursAt(s[1..], pat, j) <==> OccursAt(s, pat, j + 1)
  {
    if j + |pat| <= |s| - 1 {
      assert s[1..][j..j + |pat|] == s[j + 1..j + 1 + |pat|];
    }
  }

  /** Without an occurrence, replacing changes nothing. */
  lemma {:induction false} ReplaceAllAbsent(s: string, pat: string, rep: string)
    requires |pat| > 0 && !Contains(s, pat)
    ensures ReplaceAll(s, pat, rep) == s
    decreases |s|
  {
    if |s| >= |pat| {
      assert !OccursAt(s, pat, 0);
      assert s[..|pat|] != pat;
      if Contains(s[1..], pat) {
        var j :| 0 <= j && OccursAt(s[1..], pat, j);
        OccursInTail(s, pat, j);
        assert false;
      }
      ReplaceAllAbsent(s[1..], pat, rep);
      assert [s[0]] + s[1..] == s;
    }
  }

  /** When `rep` differs from `pat` but has its length, a string containing
      `pat` is changed by the replacement. */
  lemma {:induction false} ReplaceAllChanges(s: string, pat: string, rep: string)
    requires |pat| > 0 && |rep| == |pat| && rep != pat
    requires Contains(s, pat)
    ensures ReplaceAll(s, pat, rep) != s
    decreases |s|
  {
    var r := ReplaceAll(s, pat, rep);
    var i :| 0 <= i && OccursAt(s, pat, i);
    if s[..|pat|] == pat {
      assert r[..|pat|] == rep;
      assert s[..|pat|] == pat;
    } else {
      assert i != 0;
      OccursInTail(s, pat, i - 1);
      ReplaceAllChanges(s[1..], pat, rep);
      assert r[1..] == ReplaceAll(s[1..], pat, rep);
    }
  }

  // The sequence identities the lemmas below rely on are proved apart from
  // any call of `ReplaceAll`, whose unfolding makes them costly to find.

  /** `r` begins with `s[..i]` followed by `rep`. */
  predicate ReplacedAt(s: string, r: string, rep: string, i: nat)
  {
    i <= |s| && i + |rep| <= |r| && r[..i] == s[..i] && r[i..i + |rep|] == rep
  }

  /** The first `m` characters of `r` are those of `s`, or a shorter prefix of
      `s` is followed by `rep` in `r`, or `r` is all of `s` and shorter than `m`. */
  predicate CopiedPrefix(s: string, r: string, rep: string, m: nat)
  {
    || (|r| < m && r == s)
    || (m <= |s| && m <= |r| && r[..m] == s[..m])
    || (exists i :: 0 <= i < m && ReplacedAt(s, r, rep, i))
  }

  lemma PrefixStep(s: string, r: string, t: string, rep: string, m: nat)
    requires 0 < m && |s| > 0 && r == [s[0]] + t
    requires CopiedPrefix(s[1..], t, rep, m - 1)
    ensures CopiedPrefix(s, r, rep, m)
  {
    if |t| < m - 1 && t == s[1..] {
      assert r == s;
    } else if m - 1 <= |s| - 1 && m - 1 <= |t| && t[..m - 1] == s[1..][..m - 1] {
      assert r[..m] == [s[0]] + t[..m - 1];
      assert s[..m] == [s[0]] + s[1..][..m - 1];
    } else {
      var i :| 0 <= i < m - 1 && ReplacedAt(s[1..], t, rep, i);
      assert r[..i + 1] == [s[0]] + t[..i];
      assert s[..i + 1] == [s[0]] + s[1..][..i];
      assert r[i + 1..i + 1 + |rep|] == t[i..i + |rep|];
      assert ReplacedAt(s, r, rep, i + 1);
    }
  }

  lemma NoneAfterReplacement(r: string, rep: string, t: string, pat: string)
    requires 0 < |pat| <= |rep|
    requires rep[..|pat|] != pat
    requires NoSuffixOverlap(rep, pat)
    requires r == rep + t && !Contains(t, pat)
    ensures !Contains(r, pat)
  {
    forall j | 0 <= j <= |r|
      ensures !OccursAt(r, pat, j)
    {
      if j + |pat| <= |r| {
        if j == 0 {
          assert r[..|pat|] == rep[..|pat|];
        } else if j < |rep| {
          assert Disagree(rep, pat, j);
          var m :| 0 <= m < |pat| && j + m < |rep| && rep[j + m] != pat[m];
          assert r[j..j + |pat|][m] == rep[j + m];
        } else {
          assert t[j - |rep|..j - |rep| + |pat|] == r[j..j + |pat|];
          assert !OccursAt(t, pat, j - |rep|);
        }
      }
    }
  }

  lemma NoneAfterCopy(r: string, c: char, t: string, pat: string)
    requires |pat| > 0 && r == [c] + t && !Contains(t, pat) && !OccursAt(r, pat, 0)
    ensures !Contains(r, pat)
  {
    forall j | 0 <= j <= |r|
      ensures !OccursAt(r, pat, j)
    {
      if 0 < j && j + |pat| <= |r| {
        assert t[j - 1..j - 1 + |pat|] == r[j..j + |pat|];
        assert !OccursAt(t, pat, j - 1);
      }
    }
  }

  lemma StartFromTail(s: string, r: string, t: string, pat: string, rep: string)
    requires 0 < |pat| <= |s| && s[..|pat|] != pat && r == [s[0]] + t
    requires NoSuffixOverlap(pat, rep)
    requires CopiedPrefix(s[1..], t, rep, |pat| - 1)
    ensures !OccursAt(r, pat, 0)
  {
    var m := |pat| - 1;
    if |t| < m && t == s[1..] {
      // cannot happen: s[1..] has at least m characters
    } else if m <= |s| - 1 && m <= |t| && t[..m] == s[1..][..m] {
      assert r[..|pat|] == [s[0]] + t[..m];
      assert s[..|pat|] == [s[0]] + s[1..][..m];
    } else {
      var i :| 0 <= i < m && ReplacedAt(s[1..], t, rep, i);
      var k := i + 1;
      assert Disagree(pat, rep, k);
      var j :| 0 <= j < |rep| && k + j < |pat| && pat[k + j] != rep[j];
      assert r[k + j] == t[i + j] == t[i..i + |rep|][j];
      if |pat| <= |r| {
        assert r[0..|pat|][k + j] == r[k + j];
      }
    }
  }

  lemma ConsFront(u: string, pat: string, v: string, rep: string, x: string)
    requires |u| > 0
    ensures (u + pat + v)[0] == u[0]
    ensures (u + pat + v)[1..] == u[1..] + pat + v
    ensures [u[0]] + (u[1..] + rep + x) == u + rep + x
  {
    assert (u + pat + v)[1..] == u[1..] + pat + v;
    assert [u[0]] + (u[1..] + rep + x) == u + rep + x;
  }

  lemma EmptyFront(u: string, pat: string, v: string, rep: string, x: string)
    requires u == []
    ensures u + pat + v == pat + v
    ensures (pat + v)[..|pat|] == pat && (pat + v)[|pat|..] == v
    ensures u + rep + x == rep + x
  {
    assert (pat + v)[..|pat|] == pat;
    assert (pat + v)[|pat|..] == v;
  }

  /** Where the first character of `s` cannot start `pat`, it is copied and
      the rest is replaced. */
  lemma ReplaceAllCons(s: string, pat: string, rep: string)
    requires |pat| > 0 && |s| >= |pat| && s[0] != pat[0]
    ensures ReplaceAll(s, pat, rep) == [s[0]] + ReplaceAll(s[1..], pat, rep)
  {
    assert s[..|pat|][0] != pat[0];
  }

  /** The result of a replacement begins with the input's own first `m`
      characters unless a replacement comes earlier, in which case it begins
      with the input up to that point followed by `rep`. */
  lemma {:induction false} ReplaceAllPrefix(s: string, pat: string, rep: string, m: nat)
    requires |pat| > 0
    ensures CopiedPrefix(s, ReplaceAll(s, pat, rep), rep, m)
    decreases |s|
  {
    var r := ReplaceAll(s, pat, rep);
    if |s| < |pat| {
      assert r == s;
      if m <= |s| {
        assert r[..m] == s[..m];
      }
    } else if m == 0 {
      assert r[..0] == s[..0];
    } else if s[..|pat|] == pat {
      assert r[0..|rep|] == rep;
      assert ReplacedAt(s, r, rep, 0);
    } else {
      ReplaceAllPrefix(s[1..], pat, rep, m - 1);
      PrefixStep(s, r, ReplaceAll(s[1..], pat, rep), rep, m);
    }
  }

  /** No occurrence of `pat` survives the replacement when `rep` cannot
      start or complete a new one: `rep` does not begin with `pat`, no text
      ending inside `rep` can begin `pat`, and no text ending inside `pat`
      can begin `rep`. */
  lemma {:induction false} ReplaceAllLeavesNone(s: string, pat: string, rep: string)
    requires 0 < |pat| <= |rep|
    requires rep[..|pat|] != pat
    requires NoSuffixOverlap(rep, pat) && NoSuffixOverlap(pat, rep)
    ensures !Contains(ReplaceAll(s, pat, rep), pat)
    decreases |s|
  {
    var r := ReplaceAll(s, pat, rep);
    if |s| < |pat| {
      assert r == s;
    } else if s[..|pat|] == pat {
      ReplaceAllLeavesNone(s[|pat|..], pat, rep);
      NoneAfterReplacement(r, rep, ReplaceAll(s[|pat|..], pat, rep), pat);
    } else {
      var t := ReplaceAll(s[1..], pat, rep);
      ReplaceAllLeavesNone(s[1..], pat, rep);
      ReplaceAllPrefix(s[1..], pat, rep, |pat| - 1);
      StartFromTail(s, r, t, pat, rep);
      NoneAfterCopy(r, s[0], t, pat);
    }
  }

  /** A string in which the first character of `pat` never appears is left
      as it is. */
  lemma {:induction false} ReplaceAllFree(u: string, pat: string, rep: string)
    requires |pat| > 0
    requires forall k :: 0 <= k < |u| ==> u[k] != pat[0]
    ensures ReplaceAll(u, pat, rep) == u
    decreases |u|
  {
    if |u| >= |pat| {
      ReplaceAllCons(u, pat, rep);
      ReplaceAllFree(u[1..], pat, rep);
      assert [u[0]] + u[1..] == u;
    }
  }

  /** Text free of the first character of `pat`, then `pat`: the text is
      kept, that occurrence becomes `rep`, and replacement goes on after it. */
  lemma {:induction false} ReplaceAllAfterFree(u: string, pat: string, rep: string, v: string)
    requires |pat| > 0
    requires forall k :: 0 <= k < |u| ==> u[k] != pat[0]
    ensures ReplaceAll(u + pat + v, pat, rep) == u + rep + ReplaceAll(v, pat, rep)
    decreases |u|
  {
    if u == [] {
      EmptyFront(u, pat, v, rep, ReplaceAll(v, pat, rep));
    } else {
      ConsFront(u, pat, v, rep, ReplaceAll(v, pat, rep));
      ReplaceAllCons(u + pat + v, pat, rep);
      ReplaceAllAfterFree(u[1..], pat, rep, v);
    }
  }
}
