/** Symbol-string helpers shared by the line encoder and the scramblers.
    Symbol streams are Java strings, modelled as `string` (a `seq<char>`). */
module Bits {

  /** Number of occurrences of `c` in `s`. */
  function Count(s: string, c: char): nat
  {
    if s == [] then 0 else (if s[0] == c then 1 else 0) + Count(s[1..], c)
  }

  /** Counting over the first `i + 1` symbols is counting the first symbol
      and then the first `i` symbols after it. */
  lemma CountPrefix(s: string, i: int, c: char)
    requires 0 <= i < |s|
    ensures Count(s[..i + 1], c) == (if s[0] == c then 1 else 0) + Count(s[1..][..i], c)
  {
    assert s[..i + 1][0] == s[0];
    assert s[..i + 1][1..] == s[1..][..i];
  }

  /** Counting over a concatenation adds the counts of its parts. */
  lemma {:induction false} CountAppend(a: string, b: string, c: char)
    ensures Count(a + b, c) == Count(a, c) + Count(b, c)
  {
    if a != [] {
      assert (a + b)[0] == a[0] && (a + b)[1..] == a[1..] + b;
      CountAppend(a[1..], b, c);
    } else {
      assert a + b == b;
    }
  }

  /** `n` literal '0' symbols. */
  function Zeros(n: nat): string
  {
    seq(n, _ => '0')
  }

  /** A run of zeros splits anywhere into two runs of zeros. */
  lemma ZerosAdd(m: nat, n: nat)
    ensures Zeros(m + n) == Zeros(m) + Zeros(n)
  {
  }

  /** A bit stream in the sense of the front ends: only '0' and '1'. */
  predicate IsBinary(s: string)
  {
    forall k :: 0 <= k < |s| ==> s[k] == '0' || s[k] == '1'
  }

  /** A stretch of input the scramblers read as zeros: it holds no '1'. */
  predicate NoMark(w: string)
  {
    forall k :: 0 <= k < |w| ==> w[k] != '1'
  }

  /** A stretch without a '1' counts no '1'. */
  lemma {:induction false} NoMarkCount(w: string)
    requires NoMark(w)
    ensures Count(w, '1') == 0
  {
    if w != [] {
      NoMarkTail(w);
      NoMarkCount(w[1..]);
    }
  }

  /** The `n` symbols of `s` from index `i` on hold no '1'. */
  predicate RunAt(s: string, i: int, n: nat)
  {
    0 <= i && i + n <= |s| && NoMark(s[i..i + n])
  }

  /** Fewer than `n` symbols followed by a '1' or by the end: the first `n`
      symbols are not a run. */
  lemma MarkAhead(w: string, data: string, n: nat)
    requires |w| < n && (data == [] || data[0] == '1')
    ensures !(|w + data| >= n && NoMark((w + data)[..n]))
  {
    if |w + data| >= n {
      assert (w + data)[..n][|w|] == data[0];
    }
  }

  /** Dropping the first symbol of a stretch without '1' leaves one. */
  lemma NoMarkTail(w: string)
    requires w != [] && NoMark(w)
    ensures NoMark(w[1..])
  {
    forall k | 0 <= k < |w[1..]| ensures w[1..][k] != '1' {
      assert w[1..][k] == w[k + 1];
    }
  }

  /** `s` holds `n` consecutive symbols none of which is a '1'. */
  ghost predicate HasRun(s: string, n: nat)
  {
    exists i :: RunAt(s, i, n)
  }

  /** A stream without a run of `n` keeps none when its first symbol is
      dropped, and does not start with one. */
  lemma NoRunTail(s: string, n: nat)
    requires s != [] && !HasRun(s, n)
    ensures !HasRun(s[1..], n) && !(|s| >= n && NoMark(s[..n]))
  {
    if |s| >= n {
      assert !RunAt(s, 0, n) && s[0..0 + n] == s[..n];
    }
    forall i | RunAt(s[1..], i, n) ensures RunAt(s, i + 1, n) {
      assert s[1..][i..i + n] == s[i + 1..i + 1 + n];
    }
  }

  /** The `n` symbols of `s` from index `i` on are all literal '0'. */
  predicate ZeroRunAt(s: string, i: int, n: nat)
  {
    0 <= i && i + n <= |s| && forall k :: i <= k < i + n ==> s[k] == '0'
  }

  /** `s` holds `n` consecutive '0' symbols. */
  ghost predicate HasZeroRun(s: string, n: nat)
  {
    exists i :: ZeroRunAt(s, i, n)
  }

  /** A window that starts at or after `m` lies inside `s[m..]`, so it is
      no zero run when `s[m..]` holds none. */
  lemma NoZeroRunSuffix(s: string, m: nat, n: nat)
    requires m <= |s| && !HasZeroRun(s[m..], n)
    ensures forall i :: m <= i && i + n <= |s| ==> !ZeroRunAt(s, i, n)
  {
    forall i | m <= i && i + n <= |s| ensures !ZeroRunAt(s, i, n) {
      assert !ZeroRunAt(s[m..], i - m, n);
      var k :| i - m <= k < i - m + n && s[m..][k] != '0';
      assert s[k + m] == s[m..][k];
    }
  }

  /** Every symbol of `s` is one a scrambler emits: '0', '+' or '-'. */
  predicate IsSigned(s: string)
  {
    forall k :: 0 <= k < |s| ==> s[k] == '0' || s[k] == '+' || s[k] == '-'
  }
}
