/** The string operations of Python that the handlers use to build keys and text. */
module Text {
  predicate IsDigit(c: char) {
    '0' <= c <= '9'
  }

  function LowerChar(c: char): char {
    if 'A' <= c <= 'Z' then (c as int + 32) as char else c
  }

  /** `s.lower()` on ASCII letters; other characters are left as they are. */
  function Lower(s: string): (r: string)
    ensures |r| == |s| && forall i :: 0 <= i < |s| ==> r[i] == LowerChar(s[i])
  {
    if s == [] then [] else [LowerChar(s[0])] + Lower(s[1..])
  }

  /** The last piece of `s.split(sep)`: the text after the last `sep`, or all of `s`
      when `sep` does not occur. */
  function AfterLast(s: string, sep: char): string {
    if s == [] then []
    else if s[|s| - 1] == sep then []
    else AfterLast(s[..|s| - 1], sep) + [s[|s| - 1]]
  }

  /** The last piece is a suffix of `s` free of `sep`, and it is either all of `s` or
      preceded by a `sep`: it is the text after the last separator. */
  lemma {:induction false} AfterLastIsLastPiece(s: string, sep: char)
    ensures sep !in AfterLast(s, sep)
    ensures |AfterLast(s, sep)| <= |s|
    ensures s[|s| - |AfterLast(s, sep)|..] == AfterLast(s, sep)
    ensures |AfterLast(s, sep)| < |s| ==> s[|s| - |AfterLast(s, sep)| - 1] == sep
  {
    if s != [] && s[|s| - 1] != sep {
      var p := s[..|s| - 1];
      AfterLastIsLastPiece(p, sep);
      var t := AfterLast(p, sep);
      assert AfterLast(s, sep) == t + [s[|s| - 1]];
      assert s[|s| - |t| - 1..] == p[|p| - |t|..] + [s[|s| - 1]];
    }
  }

  /** `s.replace(pat, rep)`: every occurrence of `pat`, scanning left to right without
      overlaps, is replaced by `rep`. */
  function ReplaceAll(s: string, pat: string, rep: string): string
    requires pat != []
    decreases |s|
  {
    if |s| < |pat| then s
    else if s[..|pat|] == pat then rep + ReplaceAll(s[|pat|..], pat, rep)
    else [s[0]] + ReplaceAll(s[1..], pat, rep)
  }

  /** Replacing a pattern by itself changes nothing. */
  lemma {:induction false} ReplaceBySelf(s: string, pat: string)
    requires pat != []
    ensures ReplaceAll(s, pat, pat) == s
    decreases |s|
  {
    if |s| < |pat| {
    } else if s[..|pat|] == pat {
      ReplaceBySelf(s[|pat|..], pat);
      assert s == pat + s[|pat|..];
    } else {
      ReplaceBySelf(s[1..], pat);
      assert s == [s[0]] + s[1..];
    }
  }

  /** `pat` occurs in `s` starting at index `i`. */
  predicate OccursAt(s: string, pat: string, i: int) {
    0 <= i && i + |pat| <= |s| && s[i..i + |pat|] == pat
  }

  /** A string in which `pat` does not occur is left as it is. */
  lemma {:induction false} ReplaceAbsent(s: string, pat: string, rep: string)
    requires pat != []
    requires forall i :: !OccursAt(s, pat, i)
    ensures ReplaceAll(s, pat, rep) == s
    decreases |s|
  {
    if |s| >= |pat| {
      assert !OccursAt(s, pat, 0);
      forall i ensures !OccursAt(s[1..], pat, i) {
        if OccursAt(s[1..], pat, i) {
          assert s[1..][i..i + |pat|] == s[i + 1..i + 1 + |pat|];
          assert OccursAt(s, pat, i + 1);
        }
      }
      ReplaceAbsent(s[1..], pat, rep);
      assert s == [s[0]] + s[1..];
    }
  }

  /** A match of `pat` at the front of `a + pat` with `a` shorter than `pat` would put
      `pat[0]` at a later place of `pat`. */
  lemma NoStraddle(a: string, pat: string)
    requires 0 < |a| < |pat| && pat[0] !in pat[1..]
    ensures (a + pat)[..|pat|] != pat
  {
    assert (a + pat)[|a|] == pat[0] && pat[1..][|a| - 1] == pat[|a|];
  }

  /** When the first character of `pat` does not occur again in `pat`, no occurrence can
      straddle a final `pat`, so a string ending in `pat` ends in `rep` afterwards. */
  lemma {:induction false} ReplaceFinal(a: string, pat: string, rep: string)
    requires pat != [] && pat[0] !in pat[1..]
    ensures ReplaceAll(a + pat, pat, rep) == ReplaceAll(a, pat, rep) + rep
    decreases |a|, 1
  {
    var s := a + pat;
    if a == [] {
      assert s == pat;
      assert s[..|pat|] == pat && s[|pat|..] == [];
    } else if |a| < |pat| {
      ReplaceFinalShort(a, pat, rep);
    } else if a[..|pat|] == pat {
      ReplaceFinalMatch(a, pat, rep);
    } else {
      ReplaceFinalSkip(a, pat, rep);
    }
  }

  /** `ReplaceFinal` when `a` is shorter than `pat`: `a` is copied, then `pat` replaced. */
  lemma {:induction false} ReplaceFinalShort(a: string, pat: string, rep: string)
    requires 0 < |a| < |pat| && pat[0] !in pat[1..]
    ensures ReplaceAll(a + pat, pat, rep) == ReplaceAll(a, pat, rep) + rep
    decreases |a|, 0
  {
    var s := a + pat;
    NoStraddle(a, pat);
    calc {
      ReplaceAll(s, pat, rep);
      [s[0]] + ReplaceAll(s[1..], pat, rep);
      { assert s[1..] == a[1..] + pat; }
      [a[0]] + ReplaceAll(a[1..] + pat, pat, rep);
      { ReplaceFinal(a[1..], pat, rep); }
      [a[0]] + (ReplaceAll(a[1..], pat, rep) + rep);
      [a[0]] + (a[1..] + rep);
      { assert a == [a[0]] + a[1..]; }
      a + rep;
    }
  }

  /** `ReplaceFinal` when `a` starts with `pat`. */
  lemma {:induction false} ReplaceFinalMatch(a: string, pat: string, rep: string)
    requires pat != [] && pat[0] !in pat[1..] && |pat| <= |a| && a[..|pat|] == pat
    ensures ReplaceAll(a + pat, pat, rep) == ReplaceAll(a, pat, rep) + rep
    decreases |a|, 0
  {
    var s := a + pat;
    assert s[..|pat|] == a[..|pat|];
    calc {
      ReplaceAll(s, pat, rep);
      rep + ReplaceAll(s[|pat|..], pat, rep);
      { assert s[|pat|..] == a[|pat|..] + pat; }
      rep + ReplaceAll(a[|pat|..] + pat, pat, rep);
      { ReplaceFinal(a[|pat|..], pat, rep); }
      rep + (ReplaceAll(a[|pat|..], pat, rep) + rep);
      ReplaceAll(a, pat, rep) + rep;
    }
  }

  /** `ReplaceFinal` when `a` is at least as long as `pat` and does not start with it. */
  lemma {:induction false} ReplaceFinalSkip(a: string, pat: string, rep: string)
    requires pat != [] && pat[0] !in pat[1..] && |pat| <= |a| && a[..|pat|] != pat
    ensures ReplaceAll(a + pat, pat, rep) == ReplaceAll(a, pat, rep) + rep
    decreases |a|, 0
  {
    var s := a + pat;
    assert s[..|pat|] == a[..|pat|];
    calc {
      ReplaceAll(s, pat, rep);
      [s[0]] + ReplaceAll(s[1..], pat, rep);
      { assert s[1..] == a[1..] + pat; }
      [a[0]] + ReplaceAll(a[1..] + pat, pat, rep);
      { ReplaceFinal(a[1..], pat, rep); }
      [a[0]] + (ReplaceAll(a[1..], pat, rep) + rep);
      ReplaceAll(a, pat, rep) + rep;
    }
  }

  function DigitChar(d: nat): char
    requires d < 10
  {
    ('0' as int + d) as char
  }

  /** The decimal digits of a natural number, most significant first. */
  function NatToString(n: nat): string
  {
    if n < 10 then [DigitChar(n)] else NatToString(n / 10) + [DigitChar(n % 10)]
  }

  /** `str(n)` for a Python int. */
  function IntToString(n: int): string {
    if n < 0 then "-" + NatToString(-n) else NatToString(n)
  }
}
