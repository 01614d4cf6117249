/** Longest palindromic substring by Manacher's algorithm
    (src/com/encoder/core/PalindromeFinder.java).

    The input is interleaved with separators, "aba" becoming "#a#b#a#", so
    that every palindrome of the input, odd or even, has a centre in the
    interleaved array `t`. `P[c]` is then filled with the largest radius of
    a palindrome of `t` centred at `c`, reusing the radius of the mirror
    centre inside the rightmost palindrome found so far, and the leftmost
    largest radius is mapped back to a substring of the input. */
module PalindromeFinder {

  /** `w` reads the same forwards and backwards. */
  predicate IsPalindrome(w: string)
  {
    forall k :: 0 <= k < |w| ==> w[k] == w[|w| - 1 - k]
  }

  /** The `len` symbols of `s` from `start` on form a palindrome. */
  predicate PalindromeAt(s: string, start: int, len: int)
  {
    0 <= start && 0 <= len && start + len <= |s| && IsPalindrome(s[start..start + len])
  }

  /** `s[start..start + len]` is a longest palindromic substring of `s`, and
      no palindrome of that length starts further left. */
  ghost predicate IsLeftmostLongest(s: string, start: int, len: int)
  {
    && PalindromeAt(s, start, len)
    && (forall a, l :: PalindromeAt(s, a, l) ==> l <= len)
    && (forall a :: 0 <= a < start ==> !PalindromeAt(s, a, len))
  }

  /** `t` is `s` with a '#' before, between and after its symbols. */
  predicate IsInterleaving(t: seq<char>, s: string)
  {
    |t| == 2 * |s| + 1 && forall k :: 0 <= k < |t| ==> t[k] == if k % 2 == 0 then '#' else s[k / 2]
  }

  /** `t[c - r..c + r + 1]` lies inside `t` and is a palindrome centred at
      `c`. */
  predicate PalRadius(t: seq<char>, c: int, r: int)
  {
    0 <= r && 0 <= c - r && c + r < |t| && forall j :: c - r <= j <= c + r ==> t[j] == t[2 * c - j]
  }

  /** `r` is a radius the expansion stops at: a palindrome of radius `r`
      is centred at `c`, and the symbols just beyond its ends are outside
      `t` or differ. */
  predicate MaxRadius(t: seq<char>, c: int, r: int)
  {
    PalRadius(t, c, r) && (c - r - 1 < 0 || c + r + 1 >= |t| || t[c - r - 1] != t[c + r + 1])
  }

  /** Every smaller radius is a palindrome too. */
  lemma PalRadiusShrink(t: seq<char>, c: int, r: int)
    requires PalRadius(t, c, r)
    ensures forall q :: 0 <= q <= r ==> PalRadius(t, c, q)
  {
  }

  /** The radius the expansion stops at is the largest one. */
  lemma MaxRadiusIsLargest(t: seq<char>, c: int, r: int, q: int)
    requires MaxRadius(t, c, r) && PalRadius(t, c, q)
    ensures q <= r
  {
    PalRadiusShrink(t, c, q);
  }

  /** Mirror seeding. Inside the palindrome of radius `R - C` centred at
      `C`, the radius of the mirror centre `2 * C - i`, cut at the
      right boundary `R`, is a palindrome radius at `i` too. */
  lemma {:induction false} MirrorSeed(t: seq<char>, C: int, R: int, i: int, mirrorRadius: int)
    requires PalRadius(t, C, R - C) && C < i < R
    requires PalRadius(t, 2 * C - i, mirrorRadius)
    ensures 0 <= 2 * C - i < C
    ensures PalRadius(t, i, if R - i < mirrorRadius then R - i else mirrorRadius)
  {
    var seed := if R - i < mirrorRadius then R - i else mirrorRadius;
    var m := 2 * C - i;
    forall j | i - seed <= j <= i + seed
      ensures t[j] == t[2 * i - j]
    {
      // both j and 2i - j lie inside the palindrome centred at C
      assert t[j] == t[2 * C - j];
      assert t[2 * i - j] == t[2 * C - (2 * i - j)];
      // and their reflections about C are reflections of each other about m
      assert m - mirrorRadius <= 2 * C - j <= m + mirrorRadius;
      assert t[2 * C - j] == t[2 * m - (2 * C - j)];
    }
  }

  /** One step of the expansion: matching symbols just beyond both ends
      grow the radius by one. */
  lemma ExpandStep(t: seq<char>, c: int, r: int)
    requires PalRadius(t, c, r) && 0 <= c - 1 - r && c + 1 + r < |t| && t[c + 1 + r] == t[c - 1 - r]
    ensures PalRadius(t, c, r + 1)
  {
  }

  /** At a centre of odd parity in the offset `c - r` (a palindrome ending
      on an input symbol) the radius can always grow by one: the two
      symbols beyond its ends are both separators. */
  lemma OddRadiusGrows(s: string, t: seq<char>, c: int, r: int)
    requires IsInterleaving(t, s) && PalRadius(t, c, r) && (c - r) % 2 == 1
    ensures PalRadius(t, c, r + 1)
  {
    assert t[c - r - 1] == '#' && t[c + r + 1] == '#';
  }

  /** The radius the expansion stops at covers whole input symbols: the
      palindrome of `t` starts and ends on a separator. */
  lemma MaxRadiusParity(s: string, t: seq<char>, c: int, r: int)
    requires IsInterleaving(t, s) && MaxRadius(t, c, r)
    ensures (c - r) % 2 == 0
  {
    if (c - r) % 2 == 1 {
      OddRadiusGrows(s, t, c, r);
      assert false;
    }
  }

  /** A palindrome `s[a..b]` is a palindrome of `t` of radius `b - a`
      centred at `a + b`. */
  lemma SubstringToRadius(s: string, t: seq<char>, a: int, len: int)
    requires IsInterleaving(t, s) && PalindromeAt(s, a, len)
    ensures PalRadius(t, 2 * a + len, len)
  {
    var w := s[a..a + len];
    var c := 2 * a + len;
    forall j | c - len <= j <= c + len
      ensures t[j] == t[2 * c - j]
    {
      if j % 2 == 1 {
        var k := j / 2;
        assert t[j] == s[k] == w[k - a];
        assert w[k - a] == w[len - 1 - (k - a)];
        assert t[2 * c - j] == s[(2 * c - j) / 2];
      }
    }
  }

  /** Conversely, a palindrome of `t` starting on a separator is a
      palindrome of `s` of the radius' length. */
  lemma RadiusToSubstring(s: string, t: seq<char>, c: int, r: int)
    requires IsInterleaving(t, s) && PalRadius(t, c, r) && (c - r) % 2 == 0
    ensures PalindromeAt(s, (c - r) / 2, r)
  {
    var a := (c - r) / 2;
    var w := s[a..a + r];
    forall k | 0 <= k < r
      ensures w[k] == w[r - 1 - k]
    {
      var j := c - r + 2 * k + 1;
      assert t[j] == s[a + k];
      assert t[2 * c - j] == s[a + r - 1 - k];
    }
  }

  /** A palindrome of `s` of length `len >= 1` starting at `a` bounds the
      radius the expansion stops at, at the centre `2 * a + len`. */
  lemma CenterCovers(s: string, t: seq<char>, p: seq<int>, a: int, len: int)
    requires IsInterleaving(t, s) && |p| == |t|
    requires forall k :: 0 <= k < |t| - 1 ==> MaxRadius(t, k, p[k])
    requires 0 <= a && 1 <= len
    ensures PalindromeAt(s, a, len) ==> 1 <= 2 * a + len < |t| - 1 && len <= p[2 * a + len]
  {
    if PalindromeAt(s, a, len) {
      SubstringToRadius(s, t, a, len);
      MaxRadiusIsLargest(t, 2 * a + len, p[2 * a + len], len);
    }
  }

  /** The leftmost largest radius among the inner centres of `t` maps back
      to the leftmost longest palindromic substring of `s`. */
  lemma Selection(s: string, t: seq<char>, p: seq<int>, centerIndex: int, maxLen: int)
    requires IsInterleaving(t, s) && |p| == |t|
    requires forall k :: 0 <= k < |t| - 1 ==> MaxRadius(t, k, p[k])
    requires 1 <= centerIndex < |t| - 1 && maxLen == p[centerIndex]
    requires forall k :: 1 <= k < |t| - 1 ==> p[k] <= maxLen
    requires forall k :: 1 <= k < centerIndex ==> p[k] < maxLen
    ensures (centerIndex - maxLen) % 2 == 0
    ensures IsLeftmostLongest(s, (centerIndex - maxLen) / 2, maxLen)
  {
    assert PalRadius(t, 1, 1);
    MaxRadiusIsLargest(t, 1, p[1], 1);
    MaxRadiusParity(s, t, centerIndex, maxLen);
    RadiusToSubstring(s, t, centerIndex, maxLen);
    var start := (centerIndex - maxLen) / 2;
    assert 2 * start + maxLen == centerIndex;
    forall a, l | PalindromeAt(s, a, l)
      ensures l <= maxLen
    {
      if l >= 1 {
        CenterCovers(s, t, p, a, l);
      }
    }
    forall a | 0 <= a < start
      ensures !PalindromeAt(s, a, maxLen)
    {
      CenterCovers(s, t, p, a, maxLen);
    }
  }

  /** The interleaving loop: `s[k]` at index `2 * k + 1` and '#' at every
      even index. */
  method Interleave(s: string) returns (t: array<char>)
    ensures fresh(t) && IsInterleaving(t[..], s)
  {
    t := new char[|s| * 2 + 1];
    for i := 0 to |s|
      modifies t
      invariant forall k :: 0 <= k < i ==> t[2 * k] == '#' && t[2 * k + 1] == s[k]
    {
      t[i * 2] := '#';
      t[i * 2 + 1] := s[i];
    }
    t[t.Length - 1] := '#';
    forall k | 0 <= k < t.Length
      ensures t[k] == if k % 2 == 0 then '#' else s[k / 2]
    {
      if k < t.Length - 1 {
        var j := k / 2;
        assert t[2 * j] == '#' && t[2 * j + 1] == s[j];
        assert k == 2 * j || k == 2 * j + 1;
      }
    }
  }

  /** The expansion loop at centre `i`: the radius grows while the
      symbols just beyond both ends lie inside `t` and match. */
  method Expand(t: array<char>, P: array<int>, i: int)
    requires P.Length == t.Length && 0 <= i < t.Length && PalRadius(t[..], i, P[i])
    modifies P
    ensures MaxRadius(t[..], i, P[i])
    ensures forall k :: 0 <= k < P.Length && k != i ==> P[k] == old(P[k])
  {
    while i + 1 + P[i] < t.Length && i - 1 - P[i] >= 0 && t[i + 1 + P[i]] == t[i - 1 - P[i]]
      invariant PalRadius(t[..], i, P[i])
      invariant forall k :: 0 <= k < P.Length && k != i ==> P[k] == old(P[k])
      decreases t.Length - P[i]
    {
      ExpandStep(t[..], i, P[i]);
      P[i] := P[i] + 1;
    }
  }

  /** The centre loop: for every inner centre `i` the radius is seeded from
      the mirror centre when `i` lies inside the rightmost palindrome found
      so far (centre `C`, right boundary `R`), then expanded. Every radius
      it leaves is the largest at its centre. */
  method Radii(t: array<char>) returns (P: array<int>)
    requires t.Length >= 2
    ensures fresh(P) && P.Length == t.Length
    ensures forall k :: 0 <= k < t.Length - 1 ==> MaxRadius(t[..], k, P[k])
  {
    ghost var ts := t[..];
    P := new int[t.Length](_ => 0);
    var C, R := 0, 0;
    for i := 1 to t.Length - 1
      modifies P
      invariant 0 <= C < i && R == C + P[C] && R < t.Length
      invariant forall k :: 0 <= k < i ==> MaxRadius(ts, k, P[k])
    {
      var mirror := 2 * C - i;
      if R > i {
        MirrorSeed(ts, C, R, i, P[mirror]);
      }
      P[i] := if R > i then (if R - i < P[mirror] then R - i else P[mirror]) else 0;

      Expand(t, P, i);

      if i + P[i] > R {
        C := i;
        R := i + P[i];
      }
    }
  }

  /** The maximum scan: the first inner centre whose radius exceeds every
      radius before it and is not exceeded after it, or centre 0 with
      length 0 when no inner radius is positive. */
  method LeftmostMax(P: array<int>) returns (maxLen: int, centerIndex: int)
    requires P.Length >= 2
    ensures forall k :: 1 <= k < P.Length - 1 ==> P[k] <= maxLen
    ensures centerIndex == 0 ==> maxLen == 0
    ensures centerIndex != 0 ==>
      1 <= centerIndex < P.Length - 1 && maxLen == P[centerIndex] && forall k :: 1 <= k < centerIndex ==> P[k] < maxLen
    ensures centerIndex != 0 ==> maxLen > 0
  {
    maxLen := 0;
    centerIndex := 0;
    for i := 1 to P.Length - 1
      invariant forall k :: 1 <= k < i ==> P[k] <= maxLen
      invariant centerIndex == 0 ==> maxLen == 0
      invariant centerIndex != 0 ==>
        1 <= centerIndex < i && maxLen == P[centerIndex] && forall k :: 1 <= k < centerIndex ==> P[k] < maxLen
      invariant centerIndex != 0 ==> maxLen > 0
    {
      if P[i] > maxLen {
        maxLen := P[i];
        centerIndex := i;
      }
    }
  }

  /** With a nonempty input, the first inner centre (the first input
      symbol) has a positive radius. */
  lemma FirstRadiusPositive(s: string, t: seq<char>, p: seq<int>)
    requires IsInterleaving(t, s) && s != [] && |p| == |t|
    requires MaxRadius(t, 1, p[1])
    ensures p[1] >= 1
  {
    assert PalRadius(t, 1, 1);
    MaxRadiusIsLargest(t, 1, p[1], 1);
  }

  /** `findLongestPalindrome`: the empty string for empty input, otherwise
      the leftmost of the longest palindromic substrings. The three phases
      of the source's single method are the three methods above. */
  method FindLongestPalindrome(s: string) returns (r: string)
    ensures s == [] ==> r == []
    ensures s != [] ==> exists start :: IsLeftmostLongest(s, start, |r|) && r == s[start..start + |r|]
  {
    if s == [] {
      return [];
    }
    var t := Interleave(s);
    var P := Radii(t);
    var maxLen, centerIndex := LeftmostMax(P);
    FirstRadiusPositive(s, t[..], P[..]);
    Selection(s, t[..], P[..], centerIndex, maxLen);
    var start := (centerIndex - maxLen) / 2;
    r := s[start..start + maxLen];
    assert |r| == maxLen;
    assert IsLeftmostLongest(s, start, |r|) && r == s[start..start + |r|];
  }

  /** A longest palindrome is unique once the leftmost is chosen. */
  lemma LeftmostLongestUnique(s: string, start: int, len: int, start': int, len': int)
    requires IsLeftmostLongest(s, start, len) && IsLeftmostLongest(s, start', len')
    ensures start == start' && len == len'
  {
  }

  /** Every symbol on its own is a palindrome, so a nonempty input has a
      nonempty longest palindrome. */
  lemma LongestIsNonempty(s: string, start: int, len: int)
    requires s != [] && IsLeftmostLongest(s, start, len)
    ensures len >= 1
  {
    assert PalindromeAt(s, 0, 1);
  }

  /** A window with a mismatched pair of symbols is no palindrome. */
  lemma Mismatch(s: string, a: int, l: int, pos: int)
    requires 0 <= a <= pos < a + l <= |s| && s[pos] != s[2 * a + l - 1 - pos]
    ensures !PalindromeAt(s, a, l)
  {
    var w := s[a..a + l];
    assert w[pos - a] == s[pos] && w[l - 1 - (pos - a)] == s[2 * a + l - 1 - pos];
  }

  /** On "010011000000001" the palindrome "1000000001" (from index 5) is
      the leftmost longest. */
  lemma ExampleLeftmostLongest()
    ensures IsLeftmostLongest("010011000000001", 5, 10)
  {
    var s := "010011000000001";
    assert s[5..15] == "1000000001";
    assert forall j :: 6 <= j < 14 ==> s[j] == '0';
    forall a, l | 10 <= l && !(a == 5 && l == 10)
      ensures !PalindromeAt(s, a, l)
    {
      // an input '1' whose mirror position in the window holds a '0'
      if 0 <= a && a + l <= |s| {
        if a == 0 && l == 10 {
          Mismatch(s, a, l, 1);
        } else if a == 4 && l == 11 {
          Mismatch(s, a, l, 5);
        } else {
          Mismatch(s, a, l, 4);
        }
      }
    }
  }

  /** The result of `findLongestPalindrome` on the two sample inputs: "0"
      gives "0" and "010011000000001" gives "1000000001", the leftmost of
      its longest palindromes. */
  lemma FindLongestPalindromeExamples(r0: string, r1: string)
    requires exists start :: IsLeftmostLongest("0", start, |r0|) && r0 == "0"[start..start + |r0|]
    requires exists start ::
      IsLeftmostLongest("010011000000001", start, |r1|) && r1 == "010011000000001"[start..start + |r1|]
    ensures r0 == "0" && r1 == "1000000001"
  {
    assert IsLeftmostLongest("0", 0, 1) by {
      assert "0"[0..1] == "0";
    }
    var start0 :| IsLeftmostLongest("0", start0, |r0|) && r0 == "0"[start0..start0 + |r0|];
    LeftmostLongestUnique("0", start0, |r0|, 0, 1);
    ExampleLeftmostLongest();
    var start1 :| IsLeftmostLongest("010011000000001", start1, |r1|)
      && r1 == "010011000000001"[start1..start1 + |r1|];
    LeftmostLongestUnique("010011000000001", start1, |r1|, 5, 10);
    assert "010011000000001"[5..15] == "1000000001";
  }
}
