/**
 * String helpers with the meaning Python gives them: decimal rendering of
 * integers (`str`, the `02d` format), `str.replace` with a non-empty pattern
 * and `os.path.basename`.
 */
module Text {

  predicate IsDigit(c: char) { '0' <= c <= '9' }

  predicate AllDigits(s: string) { forall i :: 0 <= i < |s| ==> IsDigit(s[i]) }

  /** The value of a string of decimal digits, read most significant first. */
  function DigitsValue(s: string): nat
    requires AllDigits(s)
  {
    if s == [] then 0
    else 10 * DigitsValue(s[..|s| - 1]) + (s[|s| - 1] as int - '0' as int)
  }

  function Digit(d: nat): (c: char)
    requires d < 10
    ensures IsDigit(c) && c as int - '0' as int == d
  {
    "0123456789"[d]
  }

  lemma DigitsValueSnoc(s: string, c: char)
    requires AllDigits(s) && IsDigit(c)
    ensures AllDigits(s + [c])
    ensures DigitsValue(s + [c]) == 10 * DigitsValue(s) + (c as int - '0' as int)
  {
    assert (s + [c])[..|s + [c]| - 1] == s;
  }

  /** Python `str(n)` for `n >= 0`: shortest decimal digits, no leading zero. */
  function NatToString(n: nat): (s: string)
    ensures |s| >= 1 && AllDigits(s)
    ensures DigitsValue(s) == n
    ensures |s| > 1 ==> s[0] != '0'
    ensures n < 10 <==> |s| == 1
  {
    if n < 10 then [Digit(n)]
    else
      var prefix := NatToString(n / 10);
      DigitsValueSnoc(prefix, Digit(n % 10));
      prefix + [Digit(n % 10)]
  }

  /** Python `str(n)` for any integer. */
  function IntToString(n: int): (s: string)
    ensures n >= 0 ==> |s| >= 1 && AllDigits(s) && DigitsValue(s) == n && (|s| > 1 ==> s[0] != '0')
    ensures n < 0 ==> |s| >= 2 && s[0] == '-' && AllDigits(s[1..]) && DigitsValue(s[1..]) == -n && (|s| > 2 ==> s[1] != '0')
  {
    if n < 0 then
      var digits := NatToString(-n);
      assert ("-" + digits)[1..] == digits;
      "-" + digits
    else NatToString(n)
  }

  /**
   * Python's `f'{n:02d}'`: a non-negative value is padded with zeros to two
   * digits; a negative value keeps its sign and, being at least two
   * characters already, gets no padding.
   */
  function Pad2(n: int): (s: string)
    ensures n >= 0 ==> |s| >= 2 && AllDigits(s) && DigitsValue(s) == n
    ensures 0 <= n < 100 ==> |s| == 2
    ensures n >= 10 ==> s[0] != '0'
    ensures n < 0 ==> s == IntToString(n)
  {
    if 0 <= n < 10 then
      assert DigitsValue(['0', Digit(n)]) == 10 * DigitsValue(['0']) + n by {
        DigitsValueSnoc(['0'], Digit(n));
        assert ['0'] + [Digit(n)] == ['0', Digit(n)];
      }
      ['0', Digit(n)]
    else
      IntToString(n)
  }

  /** `pat` occurs in `s` at position `i`. */
  predicate OccursAt(s: string, pat: string, i: nat)
  {
    i + |pat| <= |s| && s[i..i + |pat|] == pat
  }

  predicate Occurs(s: string, pat: string)
  {
    exists i: nat | i <= |s| :: OccursAt(s, pat, i)
  }

  /** No proper suffix of `pat` is also a prefix of it, so two occurrences never overlap. */
  predicate Unbordered(pat: string)
  {
    forall k :: 0 < k < |pat| ==> pat[k..] != pat[..|pat| - k]
  }

  /**
   * Python `s.replace(pat, rep)` for a non-empty `pat`: scan from the left,
   * replace each occurrence and resume after it.
   */
  function ReplaceAll(s: string, pat: string, rep: string): string
    requires |pat| > 0
    decreases |s|
  {
    if |s| < |pat| then s
    else if s[..|pat|] == pat then rep + ReplaceAll(s[|pat|..], pat, rep)
    else [s[0]] + ReplaceAll(s[1..], pat, rep)
  }

  /** Replacing by something shorter never lengthens the string. */
  lemma {:induction false} ReplaceAllNoLonger(s: string, pat: string, rep: string)
    requires |rep| < |pat|
    ensures |ReplaceAll(s, pat, rep)| <= |s|
    decreases |s|
  {
    if |s| < |pat| {
    } else if s[..|pat|] == pat {
      ReplaceAllNoLonger(s[|pat|..], pat, rep);
    } else {
      ReplaceAllNoLonger(s[1..], pat, rep);
    }
  }

  /**
   * With a shorter replacement, `replace` leaves a string unchanged exactly
   * when the pattern does not occur in it.
   */
  lemma {:induction false} ReplaceAllIdentity(s: string, pat: string, rep: string)
    requires |rep| < |pat|
    ensures ReplaceAll(s, pat, rep) == s <==> !Occurs(s, pat)
    decreases |s|
  {
    if |s| < |pat| {
      forall i: nat ensures !OccursAt(s, pat, i) { }
    } else if s[..|pat|] == pat {
      assert OccursAt(s, pat, 0);
      ReplaceAllNoLonger(s[|pat|..], pat, rep);
    } else {
      ReplaceAllIdentity(s[1..], pat, rep);
      if Occurs(s, pat) {
        var i: nat :| i <= |s| && OccursAt(s, pat, i);
        ShiftOccurrence(s, pat, i);
      } else {
        forall i: nat ensures !OccursAt(s[1..], pat, i) {
          if OccursAt(s[1..], pat, i) {
            assert s[i + 1..i + 1 + |pat|] == s[1..][i..i + |pat|];
            assert OccursAt(s, pat, i + 1);
          }
        }
      }
    }
  }

  /** An occurrence that is not at the front is an occurrence in the tail. */
  lemma ShiftOccurrence(s: string, pat: string, i: nat)
    requires |s| > 0 && OccursAt(s, pat, i) && i > 0
    ensures Occurs(s[1..], pat)
  {
    assert s[1..][i - 1..i - 1 + |pat|] == s[i..i + |pat|];
    assert OccursAt(s[1..], pat, i - 1);
  }

  /**
   * An unbordered pattern at the end of a string is always replaced, and the
   * scan of the part before it is not disturbed.
   */
  lemma {:induction false} ReplaceAllSuffix(p: string, pat: string, rep: string)
    requires |pat| > 0 && Unbordered(pat)
    ensures ReplaceAll(p + pat, pat, rep) == ReplaceAll(p, pat, rep) + rep
    decreases |p|
  {
    var s := p + pat;
    if p == [] {
      assert s == pat && s[..|pat|] == pat && s[|pat|..] == [];
    } else if |p| < |pat| {
      NoEarlyMatch(p, pat);
      assert s[1..] == p[1..] + pat;
      ReplaceAllSuffix(p[1..], pat, rep);
    } else if p[..|pat|] == pat {
      assert s[..|pat|] == pat;
      assert s[|pat|..] == p[|pat|..] + pat;
      ReplaceAllSuffix(p[|pat|..], pat, rep);
    } else {
      assert s[..|pat|] == p[..|pat|];
      SkipFront(p, pat, rep);
      ReplaceAllSuffix(p[1..], pat, rep);
    }
  }

  /** Without a match at the front, `replace` keeps the first character and scans on. */
  lemma SkipFront(p: string, pat: string, rep: string)
    requires 0 < |p| && 0 < |pat| && (p + pat)[..|pat|] != pat
    ensures ReplaceAll(p + pat, pat, rep) == [p[0]] + ReplaceAll(p[1..] + pat, pat, rep)
  {
    assert (p + pat)[1..] == p[1..] + pat;
  }

  /** A match cannot start inside a prefix shorter than an unbordered pattern. */
  lemma NoEarlyMatch(p: string, pat: string)
    requires 0 < |p| < |pat| && Unbordered(pat)
    ensures (p + pat)[..|pat|] != pat
  {
    var k := |p|;
    assert pat[k..] != pat[..|pat| - k];
    assert (p + pat)[..|pat|][k..] == pat[..|pat| - k];
  }

  /** Python `os.path.basename`: the part after the last `/`. */
  function Basename(p: string): string
  {
    if p == [] then []
    else if p[|p| - 1] == '/' then []
    else Basename(p[..|p| - 1]) + [p[|p| - 1]]
  }

  /**
   * The basename is the longest suffix without a slash: a suffix, free of
   * slashes, and either the whole path or preceded by a slash.
   */
  lemma {:induction false} BasenameIsLastSegment(p: string)
    ensures var b := Basename(p);
      |b| <= |p| && b == p[|p| - |b|..] && '/' !in b &&
      (|b| < |p| ==> p[|p| - |b| - 1] == '/')
  {
    if p != [] && p[|p| - 1] != '/' {
      var init := p[..|p| - 1];
      BasenameIsLastSegment(init);
      var b0 := Basename(init);
      assert Basename(p) == b0 + [p[|p| - 1]];
      assert p[|p| - |b0| - 1..] == init[|init| - |b0|..] + [p[|p| - 1]];
    }
  }

  /** The basename of `dir + "/" + name` is `name` when `name` holds no slash. */
  lemma {:induction false} BasenameOfJoin(dir: string, name: string)
    requires '/' !in name
    ensures Basename(dir + "/" + name) == name
    decreases |name|
  {
    var p := dir + "/" + name;
    if name != [] {
      var init := name[..|name| - 1];
      assert p[..|p| - 1] == dir + "/" + init;
      assert p[|p| - 1] == name[|name| - 1];
      BasenameOfJoin(dir, init);
      assert init + [name[|name| - 1]] == name;
    }
  }
}
