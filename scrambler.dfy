/** Zero-run substitution ahead of AMI: B8ZS and HDB3
    (src/com/encoder/core/Scrambler.java).

    Both scramblers scan the input left to right, append to an output
    buffer and, when a run of 8 (B8ZS) or 4 (HDB3) zeros is complete, cut
    the zeros just appended off the buffer and append a substitution
    pattern. A '1' is emitted as the next alternating polarity, '+' or '-';
    any other symbol is read as a zero.

    The scan is modelled by a state record and a step function; the methods
    run the Java loops and are proved to return what the scan computes. An
    independent definition by zero runs (`...ByRuns`), which looks ahead
    instead of backtracking, is proved equal to the scan; the properties are
    proved about whichever of the two states them most directly. */
module Scrambler {
  import opened Bits

  /** The polarity a '1' takes after a pulse of polarity `p`. */
  function Flip(p: char): char
  {
    if p == '-' then '+' else '-'
  }

  predicate IsPolarity(p: char)
  {
    p == '+' || p == '-'
  }

  /** The last `n` symbols of `out` are '0'. */
  predicate EndsInZeros(out: string, n: nat)
  {
    n <= |out| && forall k :: |out| - n <= k < |out| ==> out[k] == '0'
  }

  // ================================================================= B8ZS

  /** The eight symbols that replace a run of eight zeros, chosen by the
      polarity of the last pulse. */
  function B8zsPattern(lastPolarity: char): (pattern: string)
    requires IsPolarity(lastPolarity)
    ensures pattern == "000" + [Flip(lastPolarity), lastPolarity, '0', lastPolarity, Flip(lastPolarity)]
  {
    if lastPolarity == '-' then "000+-0-+" else "000-+0+-"
  }

  /** The pattern holds four pulses, two of each polarity, so it adds no
      direct-current component. */
  lemma B8zsPatternBalanced(lastPolarity: char)
    requires IsPolarity(lastPolarity)
    ensures var pattern := B8zsPattern(lastPolarity);
      |pattern| - Count(pattern, '0') == 4 && Count(pattern, '+') == 2 && Count(pattern, '-') == 2
  {
    if lastPolarity == '-' {
      assert Count("000+-0-+", '0') == 4;
      assert Count("000+-0-+", '+') == 2;
      assert Count("000+-0-+", '-') == 2;
    } else {
      assert Count("000-+0+-", '0') == 4;
      assert Count("000-+0+-", '+') == 2;
      assert Count("000-+0+-", '-') == 2;
    }
  }

  /** The locals of the B8ZS loop: the output buffer, the polarity of the
      last '1' and the number of zeros appended since the last '1' or
      substitution. */
  datatype B8zsState = B8zsState(out: string, lastPolarity: char, zeroCount: nat)

  /** What every turn of the loop keeps: fewer than eight pending zeros,
      all of them at the end of the buffer, and a polarity sign. */
  predicate B8zsInvariant(s: B8zsState)
  {
    s.zeroCount < 8 && EndsInZeros(s.out, s.zeroCount) && IsPolarity(s.lastPolarity)
  }

  /** One turn of the B8ZS loop on symbol `bit`. The buffer grows by one
      symbol, and the invariant guarantees that a substitution cuts off
      only the eight zeros appended since the last '1' or substitution. */
  function B8zsStep(s: B8zsState, bit: char): (r: B8zsState)
    requires B8zsInvariant(s)
    ensures B8zsInvariant(r) && |r.out| == |s.out| + 1
    ensures bit != '1' && s.zeroCount == 7 ==>
      EndsInZeros(s.out + ['0'], 8) && r.lastPolarity == s.lastPolarity && r.zeroCount == 0
  {
    if bit == '1' then
      var p := Flip(s.lastPolarity);
      B8zsState(s.out + [p], p, 0)
    else
      var out := s.out + ['0'];
      if s.zeroCount + 1 == 8 then
        B8zsState(out[..|out| - 8] + B8zsPattern(s.lastPolarity), s.lastPolarity, 0)
      else
        B8zsState(out, s.lastPolarity, s.zeroCount + 1)
  }

  /** The scan of `data` from state `s`. */
  function B8zsFrom(data: string, s: B8zsState): (r: B8zsState)
    requires B8zsInvariant(s)
    ensures B8zsInvariant(r) && |r.out| == |s.out| + |data|
    decreases |data|
  {
    if data == [] then s else B8zsFrom(data[1..], B8zsStep(s, data[0]))
  }

  /** The loop starts with an empty buffer, as if the last pulse was
      negative. */
  const B8zsStart := B8zsState([], '-', 0)

  /** The string `b8zs` returns; it has the input's length. */
  function B8zsScrambled(data: string): (r: string)
    ensures |r| == |data|
  {
    B8zsFrom(data, B8zsStart).out
  }

  method B8zs(data: string) returns (scrambled: string)
    ensures scrambled == B8zsScrambled(data)
  {
    scrambled := [];
    var lastPolarity := '-';
    var zeroCount: nat := 0;
    for i := 0 to |data|
      invariant B8zsInvariant(B8zsState(scrambled, lastPolarity, zeroCount))
      invariant B8zsFrom(data[i..], B8zsState(scrambled, lastPolarity, zeroCount)) == B8zsFrom(data, B8zsStart)
    {
      ghost var before := B8zsState(scrambled, lastPolarity, zeroCount);
      assert data[i..][0] == data[i] && data[i..][1..] == data[i + 1..];
      var bit := data[i];
      if bit == '1' {
        zeroCount := 0;
        lastPolarity := if lastPolarity == '-' then '+' else '-';
        scrambled := scrambled + [lastPolarity];
      } else {
        zeroCount := zeroCount + 1;
        scrambled := scrambled + ['0'];
        if zeroCount == 8 {
          scrambled := scrambled[..|scrambled| - 8];
          if lastPolarity == '-' {
            scrambled := scrambled + "000+-0-+";
          } else {
            scrambled := scrambled + "000-+0+-";
          }
          zeroCount := 0;
        }
      }
      assert B8zsState(scrambled, lastPolarity, zeroCount) == B8zsStep(before, bit);
    }
  }

  /** B8ZS by zero runs, from the polarity `lastPolarity` of the last pulse:
      eight symbols without a '1' become the pattern, a '1' becomes the next
      polarity, anything else a '0'. */
  function B8zsByRuns(data: string, lastPolarity: char): (r: string)
    requires IsPolarity(lastPolarity)
    ensures |r| == |data|
    decreases |data|
  {
    if data == [] then []
    else if |data| >= 8 && NoMark(data[..8]) then B8zsPattern(lastPolarity) + B8zsByRuns(data[8..], lastPolarity)
    else if data[0] == '1' then [Flip(lastPolarity)] + B8zsByRuns(data[1..], Flip(lastPolarity))
    else ['0'] + B8zsByRuns(data[1..], lastPolarity)
  }

  /** A '1' that does not start a run is emitted as the next polarity. */
  lemma B8zsByRunsMark(data: string, lastPolarity: char)
    requires IsPolarity(lastPolarity) && data != [] && data[0] == '1'
    ensures B8zsByRuns(data, lastPolarity) == [Flip(lastPolarity)] + B8zsByRuns(data[1..], Flip(lastPolarity))
  {
    if |data| >= 8 {
      assert data[..8][0] == '1';
    }
  }

  /** A symbol other than '1' that does not start a run is a literal zero. */
  lemma B8zsByRunsLiteral(data: string, lastPolarity: char)
    requires IsPolarity(lastPolarity) && data != [] && data[0] != '1'
    requires !(|data| >= 8 && NoMark(data[..8]))
    ensures B8zsByRuns(data, lastPolarity) == ['0'] + B8zsByRuns(data[1..], lastPolarity)
  {
  }

  /** Fewer than eight zeros followed by a '1' or by the end of the input
      stay literal zeros. */
  lemma {:induction false} B8zsByRunsShortRun(w: string, data: string, lastPolarity: char)
    requires IsPolarity(lastPolarity) && NoMark(w) && |w| < 8
    requires data == [] || data[0] == '1'
    ensures B8zsByRuns(w + data, lastPolarity) == Zeros(|w|) + B8zsByRuns(data, lastPolarity)
  {
    if w == [] {
      assert w + data == data;
    } else {
      var x, rest := w + data, B8zsByRuns(data, lastPolarity);
      calc {
        B8zsByRuns(x, lastPolarity);
        { MarkAhead(w, data, 8);
          assert x[0] == w[0];
          B8zsByRunsLiteral(x, lastPolarity); }
        ['0'] + B8zsByRuns(x[1..], lastPolarity);
        { assert x[1..] == w[1..] + data;
          NoMarkTail(w);
          B8zsByRunsShortRun(w[1..], data, lastPolarity); }
        ['0'] + (Zeros(|w| - 1) + rest);
        { assert ['0'] + Zeros(|w| - 1) == Zeros(|w|); }
        Zeros(|w|) + rest;
      }
    }
  }

  /** The part of the buffer before the pending zeros. */
  function B8zsSettled(s: B8zsState): string
    requires B8zsInvariant(s)
  {
    s.out[..|s.out| - s.zeroCount]
  }

  /** The buffer is what was settled before the pending zeros, then the
      pending zeros. */
  lemma B8zsKeptSplit(s: B8zsState)
    requires B8zsInvariant(s)
    ensures s.out == B8zsSettled(s) + Zeros(s.zeroCount)
  {
  }

  /** The scan of `data` from `s` ends in the settled buffer followed by the
      definition by runs of the pending zeros `pending` and `data`. */
  predicate B8zsAgrees(data: string, s: B8zsState, pending: string)
    requires B8zsInvariant(s)
  {
    B8zsFrom(data, s).out == B8zsSettled(s) + B8zsByRuns(pending + data, s.lastPolarity)
  }

  /** At the end of the input the pending zeros stay literal zeros. */
  lemma B8zsEndCase(s: B8zsState, pending: string)
    requires B8zsInvariant(s) && |pending| == s.zeroCount && NoMark(pending)
    ensures B8zsAgrees([], s, pending)
  {
    B8zsByRunsShortRun(pending, [], s.lastPolarity);
    B8zsKeptSplit(s);
    assert pending + [] == pending;
  }

  /** A '1' settles the pending zeros as literal zeros. */
  lemma B8zsMarkCase(data: string, s: B8zsState, pending: string)
    requires B8zsInvariant(s) && |pending| == s.zeroCount && NoMark(pending)
    requires data != [] && data[0] == '1'
    requires B8zsAgrees(data[1..], B8zsStep(s, data[0]), [])
    ensures B8zsAgrees(data, s, pending)
  {
    var p := Flip(s.lastPolarity);
    var next := B8zsStep(s, data[0]);
    assert next == B8zsState(s.out + [p], p, 0);
    var rest := B8zsByRuns(data[1..], p);
    assert B8zsFrom(data[1..], next).out == next.out + rest by {
      assert B8zsSettled(next) == next.out;
      assert [] + data[1..] == data[1..];
    }
    calc {
      B8zsSettled(s) + B8zsByRuns(pending + data, s.lastPolarity);
      { B8zsByRunsShortRun(pending, data, s.lastPolarity); }
      B8zsSettled(s) + (Zeros(s.zeroCount) + B8zsByRuns(data, s.lastPolarity));
      { B8zsByRunsMark(data, s.lastPolarity); }
      B8zsSettled(s) + (Zeros(s.zeroCount) + ([p] + rest));
      { B8zsKeptSplit(s); }
      (s.out + [p]) + rest;
    }
  }

  /** A zero before the eighth only joins the pending zeros. */
  lemma B8zsZeroCase(data: string, s: B8zsState, pending: string)
    requires B8zsInvariant(s) && |pending| == s.zeroCount && NoMark(pending)
    requires data != [] && data[0] != '1' && s.zeroCount < 7
    requires B8zsAgrees(data[1..], B8zsStep(s, data[0]), pending + [data[0]])
    ensures B8zsAgrees(data, s, pending)
  {
    var next := B8zsStep(s, data[0]);
    assert (pending + [data[0]]) + data[1..] == pending + data;
    assert B8zsSettled(next) == B8zsSettled(s);
  }

  /** The eighth zero in the scan: the pending zeros and this one are cut
      off and the pattern appended; the polarity stays. */
  lemma B8zsRunStep(s: B8zsState, bit: char)
    requires B8zsInvariant(s) && bit != '1' && s.zeroCount == 7
    ensures B8zsStep(s, bit) == B8zsState(B8zsSettled(s) + B8zsPattern(s.lastPolarity), s.lastPolarity, 0)
  {
    var out := s.out + ['0'];
    assert out[..|out| - 8] == B8zsSettled(s);
  }

  /** Seven pending zeros and one more symbol other than '1' are a run. */
  lemma B8zsByRunsRunAhead(pending: string, data: string, lastPolarity: char)
    requires IsPolarity(lastPolarity) && |pending| == 7 && NoMark(pending)
    requires data != [] && data[0] != '1'
    ensures B8zsByRuns(pending + data, lastPolarity) == B8zsPattern(lastPolarity) + B8zsByRuns(data[1..], lastPolarity)
  {
    var x := pending + data;
    assert x[..8] == pending + [data[0]];
    assert x[8..] == data[1..];
  }

  /** The eighth zero turns the pending zeros into the pattern. */
  lemma B8zsRunCase(data: string, s: B8zsState, pending: string)
    requires B8zsInvariant(s) && |pending| == s.zeroCount && NoMark(pending)
    requires data != [] && data[0] != '1' && s.zeroCount == 7
    requires B8zsAgrees(data[1..], B8zsStep(s, data[0]), [])
    ensures B8zsAgrees(data, s, pending)
  {
    var next := B8zsStep(s, data[0]);
    B8zsRunStep(s, data[0]);
    B8zsByRunsRunAhead(pending, data, s.lastPolarity);
    assert B8zsFrom(data[1..], next).out == next.out + B8zsByRuns(data[1..], s.lastPolarity) by {
      assert B8zsSettled(next) == next.out;
      assert [] + data[1..] == data[1..];
    }
  }

  /** The scan from any reachable state agrees with the definition by runs
      read from the start of the pending zeros `pending`. */
  lemma {:induction false} B8zsFromByRuns(data: string, s: B8zsState, pending: string)
    requires B8zsInvariant(s) && |pending| == s.zeroCount && NoMark(pending)
    ensures B8zsAgrees(data, s, pending)
    decreases |data|
  {
    if data == [] {
      B8zsEndCase(s, pending);
    } else if data[0] == '1' {
      B8zsFromByRuns(data[1..], B8zsStep(s, data[0]), []);
      B8zsMarkCase(data, s, pending);
    } else if s.zeroCount < 7 {
      B8zsFromByRuns(data[1..], B8zsStep(s, data[0]), pending + [data[0]]);
      B8zsZeroCase(data, s, pending);
    } else {
      B8zsFromByRuns(data[1..], B8zsStep(s, data[0]), []);
      B8zsRunCase(data, s, pending);
    }
  }

  /** The backtracking scan and the definition by runs give the same
      string. */
  lemma B8zsScrambledByRuns(data: string)
    ensures B8zsScrambled(data) == B8zsByRuns(data, '-')
  {
    B8zsFromByRuns(data, B8zsStart, []);
    assert [] + data == data;
    assert B8zsSettled(B8zsStart) == [];
  }

  /** The definition by runs emits only '0', '+' and '-'. */
  lemma {:induction false} B8zsByRunsSigned(data: string, lastPolarity: char)
    requires IsPolarity(lastPolarity)
    ensures IsSigned(B8zsByRuns(data, lastPolarity))
    decreases |data|
  {
    if data != [] {
      var r := B8zsByRuns(data, lastPolarity);
      if |data| >= 8 && NoMark(data[..8]) {
        var pattern, rest := B8zsPattern(lastPolarity), B8zsByRuns(data[8..], lastPolarity);
        B8zsByRunsSigned(data[8..], lastPolarity);
        assert r == pattern + rest;
        forall k | 0 <= k < |r| ensures r[k] == '0' || r[k] == '+' || r[k] == '-' {
          if k >= 8 {
            assert r[k] == rest[k - 8];
          }
        }
      } else {
        var p := if data[0] == '1' then Flip(lastPolarity) else lastPolarity;
        var rest := B8zsByRuns(data[1..], p);
        B8zsByRunsSigned(data[1..], p);
        assert r == [r[0]] + rest;
        forall k | 1 <= k < |r| ensures r[k] == rest[k - 1] {
        }
      }
    }
  }

  /** The output holds no '1': every symbol is '0', '+' or '-'. */
  lemma B8zsScrambledSigned(data: string)
    ensures IsSigned(B8zsScrambled(data))
  {
    B8zsScrambledByRuns(data);
    B8zsByRunsSigned(data, '-');
  }

  /** Every input '1' is emitted as a pulse: no substitution window holds
      a '1'. */
  lemma {:induction false} B8zsByRunsPulses(data: string, lastPolarity: char)
    requires IsPolarity(lastPolarity)
    ensures forall j :: 0 <= j < |data| && data[j] == '1' ==> B8zsByRuns(data, lastPolarity)[j] != '0'
    decreases |data|
  {
    if data != [] {
      var r := B8zsByRuns(data, lastPolarity);
      if |data| >= 8 && NoMark(data[..8]) {
        var pattern := B8zsPattern(lastPolarity);
        B8zsByRunsPulses(data[8..], lastPolarity);
        assert forall j :: 0 <= j < 8 ==> data[..8][j] == data[j];
        forall j | 8 <= j < |data| && data[j] == '1' ensures r[j] != '0' {
          assert data[8..][j - 8] == data[j];
        }
      } else {
        if data[0] == '1' {
          B8zsByRunsPulses(data[1..], Flip(lastPolarity));
        } else {
          B8zsByRunsPulses(data[1..], lastPolarity);
        }
        forall j | 1 <= j < |data| && data[j] == '1' ensures r[j] != '0' {
          assert data[1..][j - 1] == data[j];
        }
      }
    }
  }

  /** Every '1' of `data` is emitted in `out` as a pulse, alternating and
      starting with the polarity after `lastPolarity`: the polarity depends
      only on how many '1's precede it. */
  predicate PulsesAlternate(data: string, out: string, lastPolarity: char)
    requires |out| == |data|
  {
    forall j :: 0 <= j < |data| && data[j] == '1' ==>
      out[j] == if Count(data[..j], '1') % 2 == 0 then Flip(lastPolarity) else lastPolarity
  }

  /** Symbols without a '1' at the front, however they are emitted, leave
      the alternation of the rest unchanged. */
  lemma PulsesAlternateSkip(data: string, out: string, lastPolarity: char, m: nat)
    requires |out| == |data| && m <= |data| && NoMark(data[..m])
    requires PulsesAlternate(data[m..], out[m..], lastPolarity)
    ensures PulsesAlternate(data, out, lastPolarity)
  {
    NoMarkCount(data[..m]);
    forall j | 0 <= j < |data| && data[j] == '1'
      ensures out[j] == if Count(data[..j], '1') % 2 == 0 then Flip(lastPolarity) else lastPolarity
    {
      if j >= m {
        assert data[..j] == data[..m] + data[m..][..j - m];
        CountAppend(data[..m], data[m..][..j - m], '1');
        assert data[m..][j - m] == data[j] && out[m..][j - m] == out[j];
      }
    }
  }

  /** A leading '1' emitted as the next polarity starts the alternation of
      the rest from that polarity. */
  lemma PulsesAlternateMark(data: string, out: string, lastPolarity: char)
    requires IsPolarity(lastPolarity) && |out| == |data| && data != [] && data[0] == '1'
    requires out[0] == Flip(lastPolarity)
    requires PulsesAlternate(data[1..], out[1..], Flip(lastPolarity))
    ensures PulsesAlternate(data, out, lastPolarity)
  {
    forall j | 1 <= j < |data| && data[j] == '1'
      ensures out[j] == if Count(data[..j], '1') % 2 == 0 then Flip(lastPolarity) else lastPolarity
    {
      CountPrefix(data, j - 1, '1');
      assert data[..j - 1 + 1] == data[..j];
      assert Count(data[..j], '1') == 1 + Count(data[1..][..j - 1], '1');
      assert data[1..][j - 1] == data[j] && out[1..][j - 1] == out[j];
    }
  }

  /** A substitution never changes the polarity, so on every input, runs
      or not, the '1's become pulses that alternate from the polarity
      after `lastPolarity`. */
  lemma {:induction false} B8zsByRunsAlternates(data: string, lastPolarity: char)
    requires IsPolarity(lastPolarity)
    ensures PulsesAlternate(data, B8zsByRuns(data, lastPolarity), lastPolarity)
    decreases |data|
  {
    if data != [] {
      var r := B8zsByRuns(data, lastPolarity);
      if |data| >= 8 && NoMark(data[..8]) {
        B8zsByRunsAlternates(data[8..], lastPolarity);
        assert r[8..] == B8zsByRuns(data[8..], lastPolarity);
        PulsesAlternateSkip(data, r, lastPolarity, 8);
      } else if data[0] == '1' {
        B8zsByRunsMark(data, lastPolarity);
        B8zsByRunsAlternates(data[1..], Flip(lastPolarity));
        PulsesAlternateMark(data, r, lastPolarity);
      } else {
        B8zsByRunsLiteral(data, lastPolarity);
        B8zsByRunsAlternates(data[1..], lastPolarity);
        assert data[..1][0] == data[0];
        PulsesAlternateSkip(data, r, lastPolarity, 1);
      }
    }
  }

  /** On every input, B8ZS turns the '1's into '+' and '-', alternating
      and starting with '+': substitutions leave the alternation intact. */
  lemma B8zsScrambledAlternates(data: string)
    ensures forall j :: 0 <= j < |data| && data[j] == '1' ==>
      B8zsScrambled(data)[j] == if Count(data[..j], '1') % 2 == 0 then '+' else '-'
  {
    B8zsScrambledByRuns(data);
    B8zsByRunsAlternates(data, '-');
    assert PulsesAlternate(data, B8zsScrambled(data), '-');
  }

  /** The definition by runs never emits 8 consecutive '0's. */
  lemma {:induction false} B8zsByRunsNoZeroRun(data: string, lastPolarity: char)
    requires IsPolarity(lastPolarity)
    ensures !HasZeroRun(B8zsByRuns(data, lastPolarity), 8)
    decreases |data|
  {
    if data != [] {
      var r := B8zsByRuns(data, lastPolarity);
      if |data| >= 8 && NoMark(data[..8]) {
        var pattern := B8zsPattern(lastPolarity);
        B8zsByRunsNoZeroRun(data[8..], lastPolarity);
        assert r[8..] == B8zsByRuns(data[8..], lastPolarity) && r[7] == pattern[7] != '0';
        NoZeroRunSuffix(r, 8, 8);
      } else {
        var p := if data[0] == '1' then Flip(lastPolarity) else lastPolarity;
        B8zsByRunsNoZeroRun(data[1..], p);
        assert r[1..] == B8zsByRuns(data[1..], p);
        NoZeroRunSuffix(r, 1, 8);
        if |r| >= 8 {
          B8zsByRunsPulses(data, lastPolarity);
          var j :| 0 <= j < 8 && data[..8][j] == '1';
          assert r[j] != '0';
        }
      }
    }
  }

  /** The point of the substitution: the scrambled stream never holds 8
      consecutive '0's, however long the input's zero runs. */
  lemma B8zsScrambledNoZeroRun(data: string)
    ensures !HasZeroRun(B8zsScrambled(data), 8)
  {
    B8zsScrambledByRuns(data);
    B8zsByRunsNoZeroRun(data, '-');
  }

  /** `out` is `data` with every '1' replaced by a pulse, alternating and
      starting with the polarity after `lastPolarity`, and every other
      symbol by '0'. */
  predicate Alternates(data: string, out: string, lastPolarity: char)
  {
    |out| == |data| && PulsesAlternate(data, out, lastPolarity) &&
    forall i :: 0 <= i < |data| && data[i] != '1' ==> out[i] == '0'
  }

  /** Alternation extends by one symbol at the front: the first symbol is
      emitted against `lastPolarity` and the rest against the polarity
      after it. */
  lemma AlternatesCons(data: string, out: string, lastPolarity: char)
    requires IsPolarity(lastPolarity) && data != [] && |out| == |data|
    requires out[0] == if data[0] == '1' then Flip(lastPolarity) else '0'
    requires Alternates(data[1..], out[1..], if data[0] == '1' then Flip(lastPolarity) else lastPolarity)
    ensures Alternates(data, out, lastPolarity)
  {
    if data[0] == '1' {
      PulsesAlternateMark(data, out, lastPolarity);
    } else {
      assert data[..1][0] == data[0];
      PulsesAlternateSkip(data, out, lastPolarity, 1);
    }
    forall i | 1 <= i < |data| && data[i] != '1' ensures out[i] == '0' {
      assert out[i] == out[1..][i - 1] && data[1..][i - 1] == data[i];
    }
  }

  /** Where no substitution happens, a '1' becomes '+' after an even
      number of earlier '1's and '-' after an odd number (alternating,
      starting from the polarity after `lastPolarity`), and every other
      symbol becomes '0'. */
  lemma {:induction false} B8zsByRunsUnsubstituted(data: string, lastPolarity: char)
    requires IsPolarity(lastPolarity) && !HasRun(data, 8)
    ensures Alternates(data, B8zsByRuns(data, lastPolarity), lastPolarity)
    decreases |data|
  {
    if data != [] {
      NoRunTail(data, 8);
      var p := if data[0] == '1' then Flip(lastPolarity) else lastPolarity;
      B8zsByRunsUnsubstituted(data[1..], p);
      if data[0] == '1' {
        B8zsByRunsMark(data, lastPolarity);
      } else {
        B8zsByRunsLiteral(data, lastPolarity);
      }
      AlternatesCons(data, B8zsByRuns(data, lastPolarity), lastPolarity);
    }
  }

  /** With no run of eight zeros in the input, B8ZS only turns the '1's
      into '+' and '-', alternating and starting with '+'. */
  lemma B8zsScrambledUnsubstituted(data: string)
    requires !HasRun(data, 8)
    ensures forall i :: 0 <= i < |data| ==>
      B8zsScrambled(data)[i] ==
        if data[i] != '1' then '0' else if Count(data[..i], '1') % 2 == 0 then '+' else '-'
  {
    B8zsScrambledByRuns(data);
    B8zsByRunsUnsubstituted(data, '-');
    assert Alternates(data, B8zsScrambled(data), '-');
  }

  /** A trailing run of fewer than eight zeros, after a '1' or at the start,
      stays literal zeros. */
  lemma B8zsShortTail(data: string, k: nat)
    requires data == [] || data[|data| - 1] == '1'
    requires k < 8
    ensures B8zsScrambled(data + Zeros(k)) == B8zsScrambled(data) + Zeros(k)
  {
    B8zsFromAppend(data, Zeros(k), B8zsStart);
    var s := B8zsFrom(data, B8zsStart);
    if data != [] {
      var front := data[..|data| - 1];
      assert data == front + ['1'];
      B8zsFromAppend(front, ['1'], B8zsStart);
      assert s.zeroCount == 0;
    }
    B8zsFromByRuns(Zeros(k), s, []);
    B8zsByRunsShortRun(Zeros(k), [], s.lastPolarity);
    assert [] + Zeros(k) == Zeros(k) + [];
  }

  /** Scanning `x` then `y` is scanning `x + y`. */
  lemma {:induction false} B8zsFromAppend(x: string, y: string, s: B8zsState)
    requires B8zsInvariant(s)
    ensures B8zsFrom(x + y, s) == B8zsFrom(y, B8zsFrom(x, s))
    decreases |x|
  {
    if x == [] {
      assert x + y == y;
    } else {
      assert (x + y)[0] == x[0] && (x + y)[1..] == x[1..] + y;
      B8zsFromAppend(x[1..], y, B8zsStep(s, x[0]));
    }
  }

  /** Eight zeros become "000+-0-+": the last pulse is taken to be
      negative. */
  lemma B8zsEightZeros()
    ensures B8zsScrambled("00000000") == "000+-0-+"
  {
    var eight := "00000000";
    assert NoMark(eight[..8]) && eight[8..] == [];
    B8zsScrambledByRuns(eight);
  }

  /** A run of eight zeros at the front of the input is replaced by the
      pattern, and the rest is read with the polarity unchanged. */
  lemma B8zsByRunsRun(data: string, lastPolarity: char)
    requires IsPolarity(lastPolarity)
    ensures B8zsByRuns(Zeros(8) + data, lastPolarity) == B8zsPattern(lastPolarity) + B8zsByRuns(data, lastPolarity)
  {
    var x := Zeros(8) + data;
    assert x[..8] == Zeros(8) && x[8..] == data;
  }

  /** Sixteen zeros become the pattern twice: a substitution leaves the
      polarity unchanged and starts a fresh run; whatever follows is read
      with the polarity unchanged. */
  lemma B8zsByRunsTwoRuns(data: string, lastPolarity: char)
    requires IsPolarity(lastPolarity)
    ensures B8zsByRuns(Zeros(16) + data, lastPolarity)
      == B8zsPattern(lastPolarity) + B8zsPattern(lastPolarity) + B8zsByRuns(data, lastPolarity)
  {
    ZerosAdd(8, 8);
    assert Zeros(16) + data == Zeros(8) + (Zeros(8) + data);
    B8zsByRunsRun(Zeros(8) + data, lastPolarity);
    B8zsByRunsRun(data, lastPolarity);
  }

  /** From the start, sixteen zeros become "000+-0-+" twice, and so does
      any input that begins with sixteen zeros. */
  lemma B8zsSixteenZeros(data: string)
    ensures B8zsScrambled(Zeros(16) + data) == "000+-0-+000+-0-+" + B8zsByRuns(data, '-')
  {
    B8zsScrambledByRuns(Zeros(16) + data);
    B8zsByRunsTwoRuns(data, '-');
  }

  // ================================================================= HDB3

  /** The four symbols that replace a run of four zeros and the polarity
      after them (ITU-T G.703 Annex A): after an odd number of '1's since
      the last substitution, "000V" with V the last pulse's polarity; after
      an even number, "B00V" with B and V both the opposite polarity. */
  function Hdb3Substitution(lastPolarity: char, oddOnes: bool): (sub: (string, char))
    requires IsPolarity(lastPolarity)
    ensures |sub.0| == 4 && sub.0[1] == '0' && sub.0[2] == '0' && sub.0[3] == sub.1
    ensures oddOnes ==> sub.0[0] == '0' && sub.1 == lastPolarity
    ensures !oddOnes ==> sub.0[0] == sub.1 && sub.1 == Flip(lastPolarity)
  {
    if oddOnes then
      if lastPolarity == '-' then ("000-", '-') else ("000+", '+')
    else
      if lastPolarity == '-' then ("+00+", '+') else ("-00-", '-')
  }

  /** The locals of the HDB3 loop: as for B8ZS, plus the number of '1's
      since the last substitution. */
  datatype Hdb3State = Hdb3State(out: string, lastPolarity: char, zeroCount: nat, onesSinceLastSub: nat)

  predicate Hdb3Invariant(s: Hdb3State)
  {
    s.zeroCount < 4 && EndsInZeros(s.out, s.zeroCount) && IsPolarity(s.lastPolarity)
  }

  /** One turn of the HDB3 loop on symbol `bit`. */
  function Hdb3Step(s: Hdb3State, bit: char): (r: Hdb3State)
    requires Hdb3Invariant(s)
    ensures Hdb3Invariant(r) && |r.out| == |s.out| + 1
    ensures bit != '1' && s.zeroCount == 3 ==>
      EndsInZeros(s.out + ['0'], 4) && r.zeroCount == 0 && r.onesSinceLastSub == 0
  {
    if bit == '1' then
      var p := Flip(s.lastPolarity);
      Hdb3State(s.out + [p], p, 0, s.onesSinceLastSub + 1)
    else
      var out := s.out + ['0'];
      if s.zeroCount + 1 == 4 then
        var sub := Hdb3Substitution(s.lastPolarity, s.onesSinceLastSub % 2 == 1);
        Hdb3State(out[..|out| - 4] + sub.0, sub.1, 0, 0)
      else
        Hdb3State(out, s.lastPolarity, s.zeroCount + 1, s.onesSinceLastSub)
  }

  function Hdb3From(data: string, s: Hdb3State): (r: Hdb3State)
    requires Hdb3Invariant(s)
    ensures Hdb3Invariant(r) && |r.out| == |s.out| + |data|
    decreases |data|
  {
    if data == [] then s else Hdb3From(data[1..], Hdb3Step(s, data[0]))
  }

  const Hdb3Start := Hdb3State([], '-', 0, 0)

  /** The string `hdb3` returns; it has the input's length. */
  function Hdb3Scrambled(data: string): (r: string)
    ensures |r| == |data|
  {
    Hdb3From(data, Hdb3Start).out
  }

  method Hdb3(data: string) returns (scrambled: string)
    ensures scrambled == Hdb3Scrambled(data)
  {
    scrambled := [];
    var lastPolarity := '-';
    var zeroCount: nat := 0;
    var onesSinceLastSub: nat := 0;
    for i := 0 to |data|
      invariant Hdb3Invariant(Hdb3State(scrambled, lastPolarity, zeroCount, onesSinceLastSub))
      invariant Hdb3From(data[i..], Hdb3State(scrambled, lastPolarity, zeroCount, onesSinceLastSub))
        == Hdb3From(data, Hdb3Start)
    {
      ghost var before := Hdb3State(scrambled, lastPolarity, zeroCount, onesSinceLastSub);
      assert data[i..][0] == data[i] && data[i..][1..] == data[i + 1..];
      var bit := data[i];
      if bit == '1' {
        zeroCount := 0;
        onesSinceLastSub := onesSinceLastSub + 1;
        lastPolarity := if lastPolarity == '-' then '+' else '-';
        scrambled := scrambled + [lastPolarity];
      } else {
        zeroCount := zeroCount + 1;
        scrambled := scrambled + ['0'];
        if zeroCount == 4 {
          scrambled := scrambled[..|scrambled| - 4];
          if onesSinceLastSub % 2 == 1 {
            if lastPolarity == '-' {
              scrambled := scrambled + "000-";
              lastPolarity := '-';
            } else {
              scrambled := scrambled + "000+";
              lastPolarity := '+';
            }
          } else {
            if lastPolarity == '-' {
              scrambled := scrambled + "+00+";
              lastPolarity := '+';
            } else {
              scrambled := scrambled + "-00-";
              lastPolarity := '-';
            }
          }
          zeroCount := 0;
          onesSinceLastSub := 0;
        }
      }
      assert Hdb3State(scrambled, lastPolarity, zeroCount, onesSinceLastSub) == Hdb3Step(before, bit);
    }
  }

  /** HDB3 by zero runs, from the polarity of the last pulse and the parity
      of the '1's since the last substitution. */
  function Hdb3ByRuns(data: string, lastPolarity: char, oddOnes: bool): (r: string)
    requires IsPolarity(lastPolarity)
    ensures |r| == |data|
    decreases |data|
  {
    if data == [] then []
    else if |data| >= 4 && NoMark(data[..4]) then
      var sub := Hdb3Substitution(lastPolarity, oddOnes);
      sub.0 + Hdb3ByRuns(data[4..], sub.1, false)
    else if data[0] == '1' then [Flip(lastPolarity)] + Hdb3ByRuns(data[1..], Flip(lastPolarity), !oddOnes)
    else ['0'] + Hdb3ByRuns(data[1..], lastPolarity, oddOnes)
  }

  /** A symbol other than '1' that does not start a run is a literal zero. */
  lemma Hdb3ByRunsLiteral(data: string, lastPolarity: char, oddOnes: bool)
    requires IsPolarity(lastPolarity) && data != [] && data[0] != '1'
    requires !(|data| >= 4 && NoMark(data[..4]))
    ensures Hdb3ByRuns(data, lastPolarity, oddOnes) == ['0'] + Hdb3ByRuns(data[1..], lastPolarity, oddOnes)
  {
  }

  /** A '1' that does not start a run is emitted as the next polarity and
      flips the parity. */
  lemma Hdb3ByRunsMark(data: string, lastPolarity: char, oddOnes: bool)
    requires IsPolarity(lastPolarity) && data != [] && data[0] == '1'
    ensures Hdb3ByRuns(data, lastPolarity, oddOnes)
      == [Flip(lastPolarity)] + Hdb3ByRuns(data[1..], Flip(lastPolarity), !oddOnes)
  {
    if |data| >= 4 {
      assert data[..4][0] == '1';
    }
  }

  /** Fewer than four zeros followed by a '1' or by the end of the input
      stay literal zeros. */
  lemma {:induction false} Hdb3ByRunsShortRun(w: string, data: string, lastPolarity: char, oddOnes: bool)
    requires IsPolarity(lastPolarity) && NoMark(w) && |w| < 4
    requires data == [] || data[0] == '1'
    ensures Hdb3ByRuns(w + data, lastPolarity, oddOnes) == Zeros(|w|) + Hdb3ByRuns(data, lastPolarity, oddOnes)
  {
    if w == [] {
      assert w + data == data;
    } else {
      var x, rest := w + data, Hdb3ByRuns(data, lastPolarity, oddOnes);
      calc {
        Hdb3ByRuns(x, lastPolarity, oddOnes);
        { MarkAhead(w, data, 4);
          assert x[0] == w[0];
          Hdb3ByRunsLiteral(x, lastPolarity, oddOnes); }
        ['0'] + Hdb3ByRuns(x[1..], lastPolarity, oddOnes);
        { assert x[1..] == w[1..] + data;
          NoMarkTail(w);
          Hdb3ByRunsShortRun(w[1..], data, lastPolarity, oddOnes); }
        ['0'] + (Zeros(|w| - 1) + rest);
        { assert ['0'] + Zeros(|w| - 1) == Zeros(|w|); }
        Zeros(|w|) + rest;
      }
    }
  }

  /** The part of the buffer before the pending zeros. */
  function Hdb3Settled(s: Hdb3State): string
    requires Hdb3Invariant(s)
  {
    s.out[..|s.out| - s.zeroCount]
  }

  /** The scan of `data` from `s` ends in the settled buffer followed by the
      definition by runs of the pending zeros `pending` and `data`. */
  predicate Hdb3Agrees(data: string, s: Hdb3State, pending: string)
    requires Hdb3Invariant(s)
  {
    Hdb3From(data, s).out == Hdb3Settled(s) + Hdb3ByRuns(pending + data, s.lastPolarity, s.onesSinceLastSub % 2 == 1)
  }

  /** At the end of the input the pending zeros stay literal zeros. */
  lemma Hdb3EndCase(s: Hdb3State, pending: string)
    requires Hdb3Invariant(s) && |pending| == s.zeroCount && NoMark(pending)
    ensures Hdb3Agrees([], s, pending)
  {
    Hdb3ByRunsShortRun(pending, [], s.lastPolarity, s.onesSinceLastSub % 2 == 1);
    assert s.out == Hdb3Settled(s) + Zeros(s.zeroCount);
    assert pending + [] == pending;
  }

  /** A '1' settles the pending zeros as literal zeros. */
  lemma Hdb3MarkCase(data: string, s: Hdb3State, pending: string)
    requires Hdb3Invariant(s) && |pending| == s.zeroCount && NoMark(pending)
    requires data != [] && data[0] == '1'
    requires Hdb3Agrees(data[1..], Hdb3Step(s, data[0]), [])
    ensures Hdb3Agrees(data, s, pending)
  {
    var odd := s.onesSinceLastSub % 2 == 1;
    var p := Flip(s.lastPolarity);
    var next := Hdb3Step(s, data[0]);
    assert next == Hdb3State(s.out + [p], p, 0, s.onesSinceLastSub + 1);
    assert (next.onesSinceLastSub % 2 == 1) == !odd;
    var rest := Hdb3ByRuns(data[1..], p, !odd);
    assert Hdb3From(data[1..], next).out == next.out + rest by {
      assert Hdb3Settled(next) == next.out;
      assert [] + data[1..] == data[1..];
    }
    calc {
      Hdb3Settled(s) + Hdb3ByRuns(pending + data, s.lastPolarity, odd);
      { Hdb3ByRunsShortRun(pending, data, s.lastPolarity, odd); }
      Hdb3Settled(s) + (Zeros(s.zeroCount) + Hdb3ByRuns(data, s.lastPolarity, odd));
      { Hdb3ByRunsMark(data, s.lastPolarity, odd); }
      Hdb3Settled(s) + (Zeros(s.zeroCount) + ([p] + rest));
      { assert s.out == Hdb3Settled(s) + Zeros(s.zeroCount); }
      (s.out + [p]) + rest;
    }
  }

  /** A zero before the fourth only joins the pending zeros. */
  lemma Hdb3ZeroCase(data: string, s: Hdb3State, pending: string)
    requires Hdb3Invariant(s) && |pending| == s.zeroCount && NoMark(pending)
    requires data != [] && data[0] != '1' && s.zeroCount < 3
    requires Hdb3Agrees(data[1..], Hdb3Step(s, data[0]), pending + [data[0]])
    ensures Hdb3Agrees(data, s, pending)
  {
    var next := Hdb3Step(s, data[0]);
    assert (pending + [data[0]]) + data[1..] == pending + data;
    assert Hdb3Settled(next) == Hdb3Settled(s);
  }

  /** The fourth zero in the scan: the pending zeros and this one are cut
      off and the substitution appended. */
  lemma Hdb3RunStep(s: Hdb3State, bit: char)
    requires Hdb3Invariant(s) && bit != '1' && s.zeroCount == 3
    ensures var sub := Hdb3Substitution(s.lastPolarity, s.onesSinceLastSub % 2 == 1);
      Hdb3Step(s, bit) == Hdb3State(Hdb3Settled(s) + sub.0, sub.1, 0, 0)
  {
    var out := s.out + ['0'];
    assert out[..|out| - 4] == Hdb3Settled(s);
  }

  /** Three pending zeros and one more symbol other than '1' are a run. */
  lemma Hdb3ByRunsRunAhead(pending: string, data: string, lastPolarity: char, oddOnes: bool)
    requires IsPolarity(lastPolarity) && |pending| == 3 && NoMark(pending)
    requires data != [] && data[0] != '1'
    ensures var sub := Hdb3Substitution(lastPolarity, oddOnes);
      Hdb3ByRuns(pending + data, lastPolarity, oddOnes) == sub.0 + Hdb3ByRuns(data[1..], sub.1, false)
  {
    var x := pending + data;
    assert x[..4] == pending + [data[0]];
    assert x[4..] == data[1..];
  }

  /** The fourth zero turns the pending zeros into the substitution. */
  lemma Hdb3RunCase(data: string, s: Hdb3State, pending: string)
    requires Hdb3Invariant(s) && |pending| == s.zeroCount && NoMark(pending)
    requires data != [] && data[0] != '1' && s.zeroCount == 3
    requires Hdb3Agrees(data[1..], Hdb3Step(s, data[0]), [])
    ensures Hdb3Agrees(data, s, pending)
  {
    var odd := s.onesSinceLastSub % 2 == 1;
    var sub := Hdb3Substitution(s.lastPolarity, odd);
    var next := Hdb3Step(s, data[0]);
    Hdb3RunStep(s, data[0]);
    Hdb3ByRunsRunAhead(pending, data, s.lastPolarity, odd);
    assert Hdb3From(data[1..], next).out == next.out + Hdb3ByRuns(data[1..], sub.1, false) by {
      assert Hdb3Settled(next) == next.out;
      assert [] + data[1..] == data[1..];
    }
  }

  lemma {:induction false} Hdb3FromByRuns(data: string, s: Hdb3State, pending: string)
    requires Hdb3Invariant(s) && |pending| == s.zeroCount && NoMark(pending)
    ensures Hdb3Agrees(data, s, pending)
    decreases |data|
  {
    if data == [] {
      Hdb3EndCase(s, pending);
    } else if data[0] == '1' {
      Hdb3FromByRuns(data[1..], Hdb3Step(s, data[0]), []);
      Hdb3MarkCase(data, s, pending);
    } else if s.zeroCount < 3 {
      Hdb3FromByRuns(data[1..], Hdb3Step(s, data[0]), pending + [data[0]]);
      Hdb3ZeroCase(data, s, pending);
    } else {
      Hdb3FromByRuns(data[1..], Hdb3Step(s, data[0]), []);
      Hdb3RunCase(data, s, pending);
    }
  }

  lemma Hdb3ScrambledByRuns(data: string)
    ensures Hdb3Scrambled(data) == Hdb3ByRuns(data, '-', false)
  {
    Hdb3FromByRuns(data, Hdb3Start, []);
    assert [] + data == data;
    assert Hdb3Settled(Hdb3Start) == [];
  }

  /** The definition by runs emits only '0', '+' and '-'. */
  lemma {:induction false} Hdb3ByRunsSigned(data: string, lastPolarity: char, oddOnes: bool)
    requires IsPolarity(lastPolarity)
    ensures IsSigned(Hdb3ByRuns(data, lastPolarity, oddOnes))
    decreases |data|
  {
    if data != [] {
      var r := Hdb3ByRuns(data, lastPolarity, oddOnes);
      if |data| >= 4 && NoMark(data[..4]) {
        var sub := Hdb3Substitution(lastPolarity, oddOnes);
        var rest := Hdb3ByRuns(data[4..], sub.1, false);
        Hdb3ByRunsSigned(data[4..], sub.1, false);
        assert r == sub.0 + rest;
        forall k | 0 <= k < |r| ensures r[k] == '0' || r[k] == '+' || r[k] == '-' {
          if k >= 4 {
            assert r[k] == rest[k - 4];
          }
        }
      } else {
        var p := if data[0] == '1' then Flip(lastPolarity) else lastPolarity;
        var odd := if data[0] == '1' then !oddOnes else oddOnes;
        var rest := Hdb3ByRuns(data[1..], p, odd);
        Hdb3ByRunsSigned(data[1..], p, odd);
        assert r == [r[0]] + rest;
        forall k | 1 <= k < |r| ensures r[k] == rest[k - 1] {
        }
      }
    }
  }

  /** The output holds no '1': every symbol is '0', '+' or '-'. */
  lemma Hdb3ScrambledSigned(data: string)
    ensures IsSigned(Hdb3Scrambled(data))
  {
    Hdb3ScrambledByRuns(data);
    Hdb3ByRunsSigned(data, '-', false);
  }

  /** Every input '1' is emitted as a pulse: no substitution window holds
      a '1'. */
  lemma {:induction false} Hdb3ByRunsPulses(data: string, lastPolarity: char, oddOnes: bool)
    requires IsPolarity(lastPolarity)
    ensures forall j :: 0 <= j < |data| && data[j] == '1' ==> Hdb3ByRuns(data, lastPolarity, oddOnes)[j] != '0'
    decreases |data|
  {
    if data != [] {
      var r := Hdb3ByRuns(data, lastPolarity, oddOnes);
      if |data| >= 4 && NoMark(data[..4]) {
        var sub := Hdb3Substitution(lastPolarity, oddOnes);
        var pattern := sub.0;
        Hdb3ByRunsPulses(data[4..], sub.1, false);
        assert forall j :: 0 <= j < 4 ==> data[..4][j] == data[j];
        forall j | 4 <= j < |data| && data[j] == '1' ensures r[j] != '0' {
          assert data[4..][j - 4] == data[j];
        }
      } else {
        if data[0] == '1' {
          Hdb3ByRunsPulses(data[1..], Flip(lastPolarity), !oddOnes);
        } else {
          Hdb3ByRunsPulses(data[1..], lastPolarity, oddOnes);
        }
        forall j | 1 <= j < |data| && data[j] == '1' ensures r[j] != '0' {
          assert data[1..][j - 1] == data[j];
        }
      }
    }
  }

  /** The polarity of the last pulse in `w`, reading `w` from the front
      with `lastPolarity` as the pulse before it: every symbol other than
      '0' is a pulse. */
  function LastPulseFrom(w: string, lastPolarity: char): char
  {
    if w == [] then lastPolarity
    else LastPulseFrom(w[1..], if w[0] != '0' then w[0] else lastPolarity)
  }

  /** Reading a concatenation reads the second part from the last pulse of
      the first. */
  lemma {:induction false} LastPulseAppend(a: string, b: string, lastPolarity: char)
    ensures LastPulseFrom(a + b, lastPolarity) == LastPulseFrom(b, LastPulseFrom(a, lastPolarity))
  {
    if a != [] {
      assert (a + b)[0] == a[0] && (a + b)[1..] == a[1..] + b;
      LastPulseAppend(a[1..], b, if a[0] != '0' then a[0] else lastPolarity);
    } else {
      assert a + b == b;
    }
  }

  /** A stretch ending in a pulse has that pulse as its last one. */
  lemma LastPulseEnd(w: string, lastPolarity: char)
    requires w != [] && w[|w| - 1] != '0'
    ensures LastPulseFrom(w, lastPolarity) == w[|w| - 1]
  {
    var init, c := w[..|w| - 1], w[|w| - 1];
    assert w == init + [c];
    LastPulseAppend(init, [c], lastPolarity);
    assert [c][1..] == [];
  }

  /** Every '1' of `data` is emitted in `out` as the polarity opposite to
      the last pulse emitted before it, substitutions included. */
  predicate PulsesFollow(data: string, out: string, lastPolarity: char)
    requires |out| == |data|
  {
    forall j :: 0 <= j < |data| && data[j] == '1' ==> out[j] == Flip(LastPulseFrom(out[..j], lastPolarity))
  }

  /** Following holds for a whole stream when it holds for a prefix and for
      the rest, read from the prefix's last pulse. */
  lemma PulsesFollowSplit(data: string, out: string, lastPolarity: char, m: nat)
    requires |out| == |data| && m <= |data|
    requires PulsesFollow(data[..m], out[..m], lastPolarity)
    requires PulsesFollow(data[m..], out[m..], LastPulseFrom(out[..m], lastPolarity))
    ensures PulsesFollow(data, out, lastPolarity)
  {
    forall j | 0 <= j < |data| && data[j] == '1'
      ensures out[j] == Flip(LastPulseFrom(out[..j], lastPolarity))
    {
      if j < m {
        assert data[..m][j] == data[j] && out[..m][j] == out[j] && out[..m][..j] == out[..j];
      } else {
        assert out[..j] == out[..m] + out[m..][..j - m];
        LastPulseAppend(out[..m], out[m..][..j - m], lastPolarity);
        assert data[m..][j - m] == data[j] && out[m..][j - m] == out[j];
      }
    }
  }

  /** On every input, each '1' becomes the polarity opposite to the last
      pulse emitted before it. The substitution's V repeats a polarity, so
      after B00V the next '1' is opposite to V, not to the '1' before the
      run. */
  lemma {:induction false} Hdb3ByRunsFollow(data: string, lastPolarity: char, oddOnes: bool)
    requires IsPolarity(lastPolarity)
    ensures PulsesFollow(data, Hdb3ByRuns(data, lastPolarity, oddOnes), lastPolarity)
    decreases |data|
  {
    if data != [] {
      var r := Hdb3ByRuns(data, lastPolarity, oddOnes);
      if |data| >= 4 && NoMark(data[..4]) {
        var sub := Hdb3Substitution(lastPolarity, oddOnes);
        Hdb3ByRunsFollow(data[4..], sub.1, false);
        assert r[..4] == sub.0 && r[4..] == Hdb3ByRuns(data[4..], sub.1, false);
        LastPulseEnd(sub.0, lastPolarity);
        PulsesFollowSplit(data, r, lastPolarity, 4);
      } else if data[0] == '1' {
        Hdb3ByRunsMark(data, lastPolarity, oddOnes);
        Hdb3ByRunsFollow(data[1..], Flip(lastPolarity), !oddOnes);
        assert r[..1] == [Flip(lastPolarity)] && r[..1][..0] == [];
        assert LastPulseFrom(r[..1], lastPolarity) == Flip(lastPolarity);
        PulsesFollowSplit(data, r, lastPolarity, 1);
      } else {
        Hdb3ByRunsLiteral(data, lastPolarity, oddOnes);
        Hdb3ByRunsFollow(data[1..], lastPolarity, oddOnes);
        assert r[..1] == ['0'] && data[..1][0] == data[0];
        assert LastPulseFrom(r[..1], lastPolarity) == lastPolarity;
        PulsesFollowSplit(data, r, lastPolarity, 1);
      }
    }
  }

  /** On every input, hdb3 turns each '1' into the polarity opposite to the
      last pulse it has emitted, counting the pulses of the substitutions,
      with '-' as the pulse before the first. */
  lemma Hdb3ScrambledFollow(data: string)
    ensures forall j :: 0 <= j < |data| && data[j] == '1' ==>
      Hdb3Scrambled(data)[j] == Flip(LastPulseFrom(Hdb3Scrambled(data)[..j], '-'))
  {
    Hdb3ScrambledByRuns(data);
    Hdb3ByRunsFollow(data, '-', false);
    assert PulsesFollow(data, Hdb3Scrambled(data), '-');
  }

  /** The definition by runs never emits 4 consecutive '0's. */
  lemma {:induction false} Hdb3ByRunsNoZeroRun(data: string, lastPolarity: char, oddOnes: bool)
    requires IsPolarity(lastPolarity)
    ensures !HasZeroRun(Hdb3ByRuns(data, lastPolarity, oddOnes), 4)
    decreases |data|
  {
    if data != [] {
      var r := Hdb3ByRuns(data, lastPolarity, oddOnes);
      if |data| >= 4 && NoMark(data[..4]) {
        var sub := Hdb3Substitution(lastPolarity, oddOnes);
        Hdb3ByRunsNoZeroRun(data[4..], sub.1, false);
        assert r[4..] == Hdb3ByRuns(data[4..], sub.1, false) && r[3] == sub.0[3] != '0';
        NoZeroRunSuffix(r, 4, 4);
      } else {
        var p := if data[0] == '1' then Flip(lastPolarity) else lastPolarity;
        var odd := if data[0] == '1' then !oddOnes else oddOnes;
        Hdb3ByRunsNoZeroRun(data[1..], p, odd);
        assert r[1..] == Hdb3ByRuns(data[1..], p, odd);
        NoZeroRunSuffix(r, 1, 4);
        if |r| >= 4 {
          Hdb3ByRunsPulses(data, lastPolarity, oddOnes);
          var j :| 0 <= j < 4 && data[..4][j] == '1';
          assert r[j] != '0';
        }
      }
    }
  }

  /** The point of the substitution: the scrambled stream never holds 4
      consecutive '0's, however long the input's zero runs. */
  lemma Hdb3ScrambledNoZeroRun(data: string)
    ensures !HasZeroRun(Hdb3Scrambled(data), 4)
  {
    Hdb3ScrambledByRuns(data);
    Hdb3ByRunsNoZeroRun(data, '-', false);
  }

  /** Where no substitution happens, HDB3 alternates the '1's exactly like
      B8ZS, whatever the parity of the count. */
  lemma {:induction false} Hdb3ByRunsUnsubstituted(data: string, lastPolarity: char, oddOnes: bool)
    requires IsPolarity(lastPolarity) && !HasRun(data, 4)
    ensures Alternates(data, Hdb3ByRuns(data, lastPolarity, oddOnes), lastPolarity)
    decreases |data|
  {
    if data != [] {
      NoRunTail(data, 4);
      var p := if data[0] == '1' then Flip(lastPolarity) else lastPolarity;
      var odd := if data[0] == '1' then !oddOnes else oddOnes;
      Hdb3ByRunsUnsubstituted(data[1..], p, odd);
      if data[0] == '1' {
        Hdb3ByRunsMark(data, lastPolarity, oddOnes);
      } else {
        Hdb3ByRunsLiteral(data, lastPolarity, oddOnes);
      }
      AlternatesCons(data, Hdb3ByRuns(data, lastPolarity, oddOnes), lastPolarity);
    }
  }

  /** With no run of four zeros in the input, HDB3 only turns the '1's
      into '+' and '-', alternating and starting with '+'. */
  lemma Hdb3ScrambledUnsubstituted(data: string)
    requires !HasRun(data, 4)
    ensures forall i :: 0 <= i < |data| ==>
      Hdb3Scrambled(data)[i] ==
        if data[i] != '1' then '0' else if Count(data[..i], '1') % 2 == 0 then '+' else '-'
  {
    Hdb3ScrambledByRuns(data);
    Hdb3ByRunsUnsubstituted(data, '-', false);
    assert Alternates(data, Hdb3Scrambled(data), '-');
  }

  lemma {:induction false} Hdb3FromAppend(x: string, y: string, s: Hdb3State)
    requires Hdb3Invariant(s)
    ensures Hdb3From(x + y, s) == Hdb3From(y, Hdb3From(x, s))
    decreases |x|
  {
    if x == [] {
      assert x + y == y;
    } else {
      assert (x + y)[0] == x[0] && (x + y)[1..] == x[1..] + y;
      Hdb3FromAppend(x[1..], y, Hdb3Step(s, x[0]));
    }
  }

  /** A trailing run of fewer than four zeros, after a '1' or at the start,
      stays literal zeros. */
  lemma Hdb3ShortTail(data: string, k: nat)
    requires data == [] || data[|data| - 1] == '1'
    requires k < 4
    ensures Hdb3Scrambled(data + Zeros(k)) == Hdb3Scrambled(data) + Zeros(k)
  {
    Hdb3FromAppend(data, Zeros(k), Hdb3Start);
    var s := Hdb3From(data, Hdb3Start);
    if data != [] {
      var front := data[..|data| - 1];
      assert data == front + ['1'];
      Hdb3FromAppend(front, ['1'], Hdb3Start);
      assert s.zeroCount == 0;
    }
    Hdb3FromByRuns(Zeros(k), s, []);
    Hdb3ByRunsShortRun(Zeros(k), [], s.lastPolarity, s.onesSinceLastSub % 2 == 1);
    assert [] + Zeros(k) == Zeros(k) + [];
  }

  /** A run of four zeros at the front of the input is replaced by the
      substitution, and the rest is read with its polarity and an even
      count. */
  lemma Hdb3ByRunsRun(data: string, lastPolarity: char, oddOnes: bool)
    requires IsPolarity(lastPolarity)
    ensures var sub := Hdb3Substitution(lastPolarity, oddOnes);
      Hdb3ByRuns(Zeros(4) + data, lastPolarity, oddOnes) == sub.0 + Hdb3ByRuns(data, sub.1, false)
  {
    var x := Zeros(4) + data;
    assert x[..4] == Zeros(4) && x[4..] == data;
  }

  /** "0000" becomes "+00+": after an even number of '1's (none) the run
      becomes B00V. */
  lemma Hdb3ExampleEven()
    ensures Hdb3Scrambled(Zeros(4)) == "+00+"
  {
    Hdb3ScrambledByRuns(Zeros(4));
    assert Zeros(4) + [] == Zeros(4);
    Hdb3ByRunsRun([], '-', false);
  }

  /** "10000" becomes "+000+": after an odd number of '1's the run becomes
      000V, V repeating the last pulse's polarity. */
  lemma Hdb3ExampleOdd()
    ensures Hdb3Scrambled("1" + Zeros(4)) == "+000+"
  {
    Hdb3ScrambledByRuns("1" + Zeros(4));
    Hdb3ByRunsMark("1" + Zeros(4), '-', false);
    assert ("1" + Zeros(4))[1..] == Zeros(4) + [];
    Hdb3ByRunsRun([], '+', true);
  }

  /** "110000" becomes "+-+00+": two '1's are an even count again. */
  lemma Hdb3ExampleTwoOnes()
    ensures Hdb3Scrambled("11" + Zeros(4)) == "+-+00+"
  {
    Hdb3ScrambledByRuns("11" + Zeros(4));
    Hdb3ByRunsMark("11" + Zeros(4), '-', false);
    assert ("11" + Zeros(4))[1..] == "1" + Zeros(4);
    Hdb3ByRunsMark("1" + Zeros(4), '+', true);
    assert ("1" + Zeros(4))[1..] == Zeros(4) + [];
    Hdb3ByRunsRun([], '-', false);
  }
}
