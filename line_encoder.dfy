/** Line encoding of a symbol string into signal levels under one of five
    schemes (src/com/encoder/core/LineEncoder.java).

    The Java levels are `Double`s that only ever take the values -1.0, 0.0
    and +1.0; here a level is the integer -1, 0 or +1.

    Each scheme has a specification function that reads the input front to
    back, threading the scheme's state through a parameter (`...From`), and a
    method that runs the Java loop and is proved to return that function's
    value. The lemmas state what the levels mean, position by position. */
module LineEncoder {
  import opened Bits

  /** The closed set of schemes the encoder dispatches on. */
  datatype Scheme = NrzL | NrzI | Manchester | DiffManchester | Ami

  // ---------------------------------------------------------------- NRZ-L

  /** NRZ-L: '0' is high, anything else is low; no memory. */
  function NrzLLevels(data: string): seq<int>
  {
    if data == [] then []
    else [if data[0] == '0' then 1 else -1] + NrzLLevels(data[1..])
  }

  method EncodeNrzL(data: string) returns (levels: seq<int>)
    ensures levels == NrzLLevels(data)
  {
    levels := [];
    for i := 0 to |data|
      invariant levels + NrzLLevels(data[i..]) == NrzLLevels(data)
    {
      var bit := data[i];
      NrzLStep(data, i, levels);
      levels := levels + [if bit == '0' then 1 else -1];
    }
  }

  /** One turn of the NRZ-L loop: symbol i appends its level. */
  lemma NrzLStep(data: string, i: int, levels: seq<int>)
    requires 0 <= i < |data|
    requires levels + NrzLLevels(data[i..]) == NrzLLevels(data)
    ensures (levels + [if data[i] == '0' then 1 else -1]) + NrzLLevels(data[i + 1..]) == NrzLLevels(data)
  {
    assert data[i..][0] == data[i] && data[i..][1..] == data[i + 1..];
  }

  /** One level per symbol: +1 exactly for '0'. */
  lemma {:induction false} NrzLLevelsAt(data: string)
    ensures |NrzLLevels(data)| == |data|
    ensures forall i :: 0 <= i < |data| ==>
      NrzLLevels(data)[i] == if data[i] == '0' then 1 else -1
  {
    if data != [] {
      NrzLLevelsAt(data[1..]);
    }
  }

  // ---------------------------------------------------------------- NRZ-I

  /** NRZ-I from current level `level`: a '1' inverts the level, anything
      else holds it; the level after the symbol is emitted. */
  function NrzIFrom(data: string, level: int): seq<int>
  {
    if data == [] then []
    else
      var next := if data[0] == '1' then -level else level;
      [next] + NrzIFrom(data[1..], next)
  }

  /** NRZ-I starts high. */
  function NrzILevels(data: string): seq<int>
  {
    NrzIFrom(data, 1)
  }

  method EncodeNrzI(data: string) returns (levels: seq<int>)
    ensures levels == NrzILevels(data)
  {
    levels := [];
    var currentLevel := 1;
    for i := 0 to |data|
      invariant levels + NrzIFrom(data[i..], currentLevel) == NrzILevels(data)
    {
      var bit := data[i];
      ghost var before, level := levels, currentLevel;
      if bit == '1' {
        currentLevel := -currentLevel;
      }
      levels := levels + [currentLevel];
      NrzIStep(data, i, level, before, currentLevel, levels);
    }
  }

  /** One turn of the NRZ-I loop: symbol i updates the level and appends
      it. */
  lemma NrzIStep(data: string, i: int, level: int, levels: seq<int>, next: int, levels': seq<int>)
    requires 0 <= i < |data|
    requires levels + NrzIFrom(data[i..], level) == NrzILevels(data)
    requires next == (if data[i] == '1' then -level else level) && levels' == levels + [next]
    ensures levels' + NrzIFrom(data[i + 1..], next) == NrzILevels(data)
  {
    assert NrzIFrom(data[i..], level) == [next] + NrzIFrom(data[i + 1..], next) by {
      assert data[i..][0] == data[i] && data[i..][1..] == data[i + 1..];
    }
    assert levels' + NrzIFrom(data[i + 1..], next) == levels + ([next] + NrzIFrom(data[i + 1..], next));
  }

  /** From any starting level, level i is the starting level when
      data[..i+1] holds an even number of '1's, and its negation otherwise. */
  lemma {:induction false} NrzIFromAt(data: string, level: int)
    ensures |NrzIFrom(data, level)| == |data|
    ensures forall i :: 0 <= i < |data| ==>
      NrzIFrom(data, level)[i] == if Count(data[..i + 1], '1') % 2 == 0 then level else -level
  {
    if data != [] {
      var next := if data[0] == '1' then -level else level;
      var r, rest := NrzIFrom(data, level), NrzIFrom(data[1..], next);
      NrzIFromAt(data[1..], next);
      assert r == [next] + rest;
      forall i | 0 <= i < |data|
        ensures r[i] == if Count(data[..i + 1], '1') % 2 == 0 then level else -level
      {
        CountPrefix(data, i, '1');
        var before := Count(data[1..][..i], '1');
        assert r[i] == if before % 2 == 0 then next else -next by {
          if i > 0 {
            assert r[i] == rest[i - 1];
            assert data[1..][..i] == data[1..][..i - 1 + 1];
          } else {
            assert data[1..][..i] == [];
          }
        }
      }
    }
  }

  /** NRZ-I: one level per symbol, each +1 or -1, and +1 exactly when the
      symbols up to and including this one hold an even number of '1's. */
  lemma NrzILevelsAt(data: string)
    ensures |NrzILevels(data)| == |data|
    ensures forall i :: 0 <= i < |data| ==>
      (NrzILevels(data)[i] == 1 || NrzILevels(data)[i] == -1) &&
      (NrzILevels(data)[i] == 1 <==> Count(data[..i + 1], '1') % 2 == 0)
  {
    NrzIFromAt(data, 1);
  }

  // ----------------------------------------------------------- Manchester

  /** The two levels of one Manchester symbol: '0' is high-to-low,
      anything else low-to-high. */
  function ManchesterPair(c: char): seq<int>
  {
    if c == '0' then [1, -1] else [-1, 1]
  }

  /** Manchester: each symbol emits its pair. */
  function ManchesterLevels(data: string): seq<int>
  {
    if data == [] then []
    else ManchesterPair(data[0]) + ManchesterLevels(data[1..])
  }

  method EncodeManchester(data: string) returns (levels: seq<int>)
    ensures levels == ManchesterLevels(data)
  {
    levels := [];
    for i := 0 to |data|
      invariant levels + ManchesterLevels(data[i..]) == ManchesterLevels(data)
    {
      var bit := data[i];
      ghost var before := levels;
      if bit == '0' {
        levels := levels + [1];
        levels := levels + [-1];
      } else {
        levels := levels + [-1];
        levels := levels + [1];
      }
      assert levels == before + ManchesterPair(bit);
      ManchesterStep(data, i, before);
    }
  }

  /** One turn of the Manchester loop: symbol i appends its two levels. */
  lemma ManchesterStep(data: string, i: int, levels: seq<int>)
    requires 0 <= i < |data|
    requires levels + ManchesterLevels(data[i..]) == ManchesterLevels(data)
    ensures (levels + ManchesterPair(data[i])) + ManchesterLevels(data[i + 1..]) == ManchesterLevels(data)
  {
    var pair, rest := ManchesterPair(data[i]), ManchesterLevels(data[i + 1..]);
    ManchesterLevelsDrop(data, i);
    assert (levels + pair) + rest == levels + (pair + rest);
  }

  /** The levels from symbol i on are its pair and then the levels from
      symbol i + 1 on. */
  lemma ManchesterLevelsDrop(data: string, i: int)
    requires 0 <= i < |data|
    ensures ManchesterLevels(data[i..]) == ManchesterPair(data[i]) + ManchesterLevels(data[i + 1..])
  {
    assert data[i..][0] == data[i] && data[i..][1..] == data[i + 1..];
  }

  /** Two levels per symbol; symbol i gives (+1,-1) for '0' and (-1,+1)
      otherwise, so every pair has its mid-bit transition. */
  lemma {:induction false} ManchesterLevelsAt(data: string)
    ensures |ManchesterLevels(data)| == 2 * |data|
    ensures forall i :: 0 <= i < |data| ==>
      ManchesterLevels(data)[2 * i] == (if data[i] == '0' then 1 else -1) &&
      ManchesterLevels(data)[2 * i + 1] == -ManchesterLevels(data)[2 * i]
  {
    if data != [] {
      ManchesterLevelsAt(data[1..]);
      var r, pair, rest := ManchesterLevels(data), ManchesterPair(data[0]), ManchesterLevels(data[1..]);
      assert r == pair + rest;
      assert |pair| == 2 && pair[0] == (if data[0] == '0' then 1 else -1) && pair[1] == -pair[0];
      forall i | 1 <= i < |data|
        ensures r[2 * i] == rest[2 * (i - 1)] && r[2 * i + 1] == rest[2 * (i - 1) + 1]
        ensures data[i] == data[1..][i - 1]
      {
      }
    }
  }

  /** Every Manchester level is +1 or -1. */
  lemma ManchesterLevelsSigned(data: string)
    ensures forall k :: 0 <= k < |ManchesterLevels(data)| ==>
      ManchesterLevels(data)[k] == 1 || ManchesterLevels(data)[k] == -1
  {
    ManchesterLevelsAt(data);
    var r := ManchesterLevels(data);
    forall k | 0 <= k < |r| ensures r[k] == 1 || r[k] == -1 {
      var i := k / 2;
      assert r[2 * i] == 1 || r[2 * i] == -1;
      assert k == 2 * i || k == 2 * i + 1;
    }
  }

  // ---------------------------------------------- Differential Manchester

  /** Differential Manchester from current level `level`: a '0' inverts the
      level at the start of the symbol, anything else keeps it; the level is
      then emitted, inverted at mid-symbol and emitted again. */
  function DiffManchesterFrom(data: string, level: int): seq<int>
  {
    if data == [] then []
    else
      var start := if data[0] == '0' then -level else level;
      [start, -start] + DiffManchesterFrom(data[1..], -start)
  }

  /** Differential Manchester starts high. */
  function DiffManchesterLevels(data: string): seq<int>
  {
    DiffManchesterFrom(data, 1)
  }

  method EncodeDiffManchester(data: string) returns (levels: seq<int>)
    ensures levels == DiffManchesterLevels(data)
  {
    levels := [];
    var currentLevel := 1;
    for i := 0 to |data|
      invariant levels + DiffManchesterFrom(data[i..], currentLevel) == DiffManchesterLevels(data)
    {
      var bit := data[i];
      ghost var before, level := levels, currentLevel;
      if bit == '0' {
        currentLevel := -currentLevel;
      }
      levels := levels + [currentLevel];
      currentLevel := -currentLevel;
      levels := levels + [currentLevel];
      DiffManchesterStep(data, i, level, before, -currentLevel, levels);
    }
  }

  /** One turn of the differential Manchester loop: symbol i sets the start
      level and appends it and its inversion (`levels'`), leaving the
      inversion as the current level. */
  lemma DiffManchesterStep(data: string, i: int, level: int, levels: seq<int>, start: int, levels': seq<int>)
    requires 0 <= i < |data|
    requires levels + DiffManchesterFrom(data[i..], level) == DiffManchesterLevels(data)
    requires start == if data[i] == '0' then -level else level
    requires levels' == levels + [start] + [-start]
    ensures levels' + DiffManchesterFrom(data[i + 1..], -start) == DiffManchesterLevels(data)
  {
    assert data[i..][0] == data[i] && data[i..][1..] == data[i + 1..];
    assert levels' == levels + [start, -start];
  }

  /** From a starting level of +1 or -1: two levels per symbol, each +1 or
      -1; the second level of every pair is the negation of the first; and
      the first level is the starting level inverted exactly for '0'. */
  lemma {:induction false} DiffManchesterFromShape(data: string, level: int)
    requires level == 1 || level == -1
    ensures |DiffManchesterFrom(data, level)| == 2 * |data|
    ensures forall k :: 0 <= k < |DiffManchesterFrom(data, level)| ==>
      DiffManchesterFrom(data, level)[k] == 1 || DiffManchesterFrom(data, level)[k] == -1
    ensures forall k :: 0 <= k < |DiffManchesterFrom(data, level)| && k % 2 == 1 ==>
      DiffManchesterFrom(data, level)[k] == -DiffManchesterFrom(data, level)[k - 1]
    ensures data != [] ==>
      DiffManchesterFrom(data, level)[0] == if data[0] == '0' then -level else level
  {
    if data != [] {
      var start := if data[0] == '0' then -level else level;
      var r, rest := DiffManchesterFrom(data, level), DiffManchesterFrom(data[1..], -start);
      DiffManchesterFromShape(data[1..], -start);
      assert r == [start, -start] + rest;
      forall k | 2 <= k < |r|
        ensures r[k] == rest[k - 2]
      {
      }
    }
  }

  /** At every symbol boundary after the first, the level changes exactly
      when the next symbol is '0'. */
  lemma {:induction false} DiffManchesterFromTransitions(data: string, level: int)
    requires level == 1 || level == -1
    ensures |DiffManchesterFrom(data, level)| == 2 * |data|
    ensures forall i :: 0 < i < |data| ==>
      (DiffManchesterFrom(data, level)[2 * i] != DiffManchesterFrom(data, level)[2 * i - 1] <==> data[i] == '0')
  {
    DiffManchesterFromShape(data, level);
    if data != [] {
      var start := if data[0] == '0' then -level else level;
      var r, rest := DiffManchesterFrom(data, level), DiffManchesterFrom(data[1..], -start);
      DiffManchesterFromTransitions(data[1..], -start);
      DiffManchesterFromShape(data[1..], -start);
      assert r == [start, -start] + rest;
      forall i | 0 < i < |data|
        ensures r[2 * i] != r[2 * i - 1] <==> data[i] == '0'
      {
        assert data[i] == data[1..][i - 1];
        assert r[2 * i] == rest[2 * (i - 1)];
        if i > 1 {
          assert r[2 * i - 1] == rest[2 * (i - 1) - 1];
        }
      }
    }
  }

  /** Differential Manchester: two levels per symbol, each +1 or -1, always
      a mid-symbol transition; the first pair is (-1,+1) for '0' and (+1,-1)
      otherwise; for i > 0 level 2i differs from level 2i-1 exactly when
      symbol i is '0'. */
  lemma DiffManchesterLevelsAt(data: string)
    ensures |DiffManchesterLevels(data)| == 2 * |data|
    ensures forall k :: 0 <= k < |DiffManchesterLevels(data)| ==>
      DiffManchesterLevels(data)[k] == 1 || DiffManchesterLevels(data)[k] == -1
    ensures forall k :: 0 <= k < |DiffManchesterLevels(data)| && k % 2 == 1 ==>
      DiffManchesterLevels(data)[k] == -DiffManchesterLevels(data)[k - 1]
    ensures data != [] ==>
      DiffManchesterLevels(data)[..2] == if data[0] == '0' then [-1, 1] else [1, -1]
    ensures forall i :: 0 < i < |data| ==>
      (DiffManchesterLevels(data)[2 * i] != DiffManchesterLevels(data)[2 * i - 1] <==> data[i] == '0')
  {
    DiffManchesterFromShape(data, 1);
    DiffManchesterFromTransitions(data, 1);
    var r := DiffManchesterLevels(data);
    if data != [] {
      assert r[1] == -r[0];
    }
  }

  // ------------------------------------------------------------------ AMI

  /** The AMI alphabet: '0', '1' and the scramblers' forced-polarity
      markers '+' and '-'. */
  predicate IsAmiSymbol(c: char)
  {
    c == '0' || c == '1' || c == '+' || c == '-'
  }

  /** The levels one symbol emits given the "last pulse positive" flag: a
      '1' alternates against the last pulse, '+' and '-' force the
      polarity, '0' is zero and any other symbol emits nothing. */
  function AmiEmit(c: char, lastPositive: bool): seq<int>
  {
    if c == '0' then [0]
    else if c == '1' then (if lastPositive then [-1] else [1])
    else if c == '+' then [1]
    else if c == '-' then [-1]
    else []
  }

  /** The flag after one symbol. */
  function AmiNext(c: char, lastPositive: bool): bool
  {
    if c == '1' then !lastPositive
    else if c == '+' then true
    else if c == '-' then false
    else lastPositive
  }

  /** AMI from a given "last pulse positive" flag. */
  function AmiFrom(data: string, lastPositive: bool): seq<int>
  {
    if data == [] then []
    else
      AmiEmit(data[0], lastPositive) + AmiFrom(data[1..], AmiNext(data[0], lastPositive))
  }

  /** The flag after reading all of `data`. */
  function AmiAfter(data: string, lastPositive: bool): bool
  {
    if data == [] then lastPositive else AmiAfter(data[1..], AmiNext(data[0], lastPositive))
  }

  /** AMI starts as if the last pulse was negative, so the first '1' is +1. */
  function AmiLevels(data: string): seq<int>
  {
    AmiFrom(data, false)
  }

  /** One turn of the AMI loop: symbol i appends its levels and updates
      the flag. */
  lemma AmiFromStep(data: string, i: int, lastPositive: bool, levels: seq<int>)
    requires 0 <= i < |data|
    requires levels + AmiFrom(data[i..], lastPositive) == AmiLevels(data)
    ensures (levels + AmiEmit(data[i], lastPositive)) + AmiFrom(data[i + 1..], AmiNext(data[i], lastPositive))
      == AmiLevels(data)
  {
    assert data[i..][0] == data[i] && data[i..][1..] == data[i + 1..];
  }

  method EncodeAmi(data: string) returns (levels: seq<int>)
    ensures levels == AmiLevels(data)
  {
    levels := [];
    var isLastPulsePositive := false;
    for i := 0 to |data|
      invariant levels + AmiFrom(data[i..], isLastPulsePositive) == AmiLevels(data)
    {
      var bit := data[i];
      AmiFromStep(data, i, isLastPulsePositive, levels);
      if bit == '0' {
        levels := levels + [0];
      } else if bit == '1' {
        if isLastPulsePositive {
          levels := levels + [-1];
          isLastPulsePositive := false;
        } else {
          levels := levels + [1];
          isLastPulsePositive := true;
        }
      } else if bit == '+' {
        levels := levels + [1];
        isLastPulsePositive := true;
      } else if bit == '-' {
        levels := levels + [-1];
        isLastPulsePositive := false;
      }
    }
  }

  /** Reading `x` then `y` is reading `x + y`: the flag threads through. */
  lemma {:induction false} AmiFromAppend(x: string, y: string, lastPositive: bool)
    ensures AmiFrom(x + y, lastPositive) == AmiFrom(x, lastPositive) + AmiFrom(y, AmiAfter(x, lastPositive))
    ensures AmiAfter(x + y, lastPositive) == AmiAfter(y, AmiAfter(x, lastPositive))
  {
    if x != [] {
      var emitted, next := AmiEmit(x[0], lastPositive), AmiNext(x[0], lastPositive);
      assert (x + y)[0] == x[0];
      assert (x + y)[1..] == x[1..] + y;
      AmiFromAppend(x[1..], y, next);
      calc {
        AmiFrom(x + y, lastPositive);
        emitted + AmiFrom(x[1..] + y, next);
        emitted + (AmiFrom(x[1..], next) + AmiFrom(y, AmiAfter(x[1..], next)));
        (emitted + AmiFrom(x[1..], next)) + AmiFrom(y, AmiAfter(x[1..], next));
        AmiFrom(x, lastPositive) + AmiFrom(y, AmiAfter(x, lastPositive));
      }
    } else {
      assert x + y == y;
    }
  }

  /** A symbol in front of `y` emits its levels and hands its flag on. */
  lemma AmiFromCons(c: char, y: string, lastPositive: bool)
    ensures AmiFrom([c] + y, lastPositive) == AmiEmit(c, lastPositive) + AmiFrom(y, AmiNext(c, lastPositive))
  {
    assert ([c] + y)[0] == c && ([c] + y)[1..] == y;
  }

  /** Symbol `c` at any position of the input acts on the flag left by
      the symbols before it. */
  lemma AmiAt(x: string, c: char, y: string)
    ensures AmiLevels(x + [c] + y) ==
      AmiLevels(x) + AmiEmit(c, AmiAfter(x, false)) + AmiFrom(y, AmiNext(c, AmiAfter(x, false)))
  {
    var flag := AmiAfter(x, false);
    calc {
      AmiLevels(x + [c] + y);
      { assert x + [c] + y == x + ([c] + y); }
      AmiFrom(x + ([c] + y), false);
      { AmiFromAppend(x, [c] + y, false); }
      AmiLevels(x) + AmiFrom([c] + y, flag);
      { AmiFromCons(c, y, flag); }
      AmiLevels(x) + (AmiEmit(c, flag) + AmiFrom(y, AmiNext(c, flag)));
    }
  }

  /** The per-symbol rules, at any position of the input: '0' gives 0; '1'
      gives the opposite of the last pulse; '+' gives +1 and '-' gives -1
      and set the flag accordingly; anything else gives nothing and keeps
      the flag. */
  lemma AmiSymbolRules(x: string, c: char, y: string)
    ensures c == '0' ==> AmiLevels(x + [c] + y) == AmiLevels(x) + [0] + AmiFrom(y, AmiAfter(x, false))
    ensures c == '1' ==>
      AmiLevels(x + [c] + y) == AmiLevels(x) + [if AmiAfter(x, false) then -1 else 1] + AmiFrom(y, !AmiAfter(x, false))
    ensures c == '+' ==> AmiLevels(x + [c] + y) == AmiLevels(x) + [1] + AmiFrom(y, true)
    ensures c == '-' ==> AmiLevels(x + [c] + y) == AmiLevels(x) + [-1] + AmiFrom(y, false)
    ensures !IsAmiSymbol(c) ==> AmiLevels(x + [c] + y) == AmiLevels(x) + AmiFrom(y, AmiAfter(x, false))
  {
    AmiAt(x, c, y);
  }

  /** The level the AMI flag stands for: +1 when the last pulse was
      positive, -1 otherwise. */
  function FlagLevel(lastPositive: bool): (r: int)
    ensures r == 1 || r == -1
    ensures (r == 1) == lastPositive
  {
    if lastPositive then 1 else -1
  }

  /** The last non-zero level of `levels`, or `last` when there is none. */
  function LastPulseLevel(levels: seq<int>, last: int): int
  {
    if levels == [] then last
    else LastPulseLevel(levels[1..], if levels[0] != 0 then levels[0] else last)
  }

  /** The last pulse of `a + b` is the last pulse of `b`, counted from the
      last pulse of `a`. */
  lemma {:induction false} LastPulseLevelAppend(a: seq<int>, b: seq<int>, last: int)
    ensures LastPulseLevel(a + b, last) == LastPulseLevel(b, LastPulseLevel(a, last))
  {
    if a == [] {
      assert a + b == b;
    } else {
      assert (a + b)[0] == a[0] && (a + b)[1..] == a[1..] + b;
      LastPulseLevelAppend(a[1..], b, if a[0] != 0 then a[0] else last);
    }
  }

  /** One symbol's levels move the last pulse exactly as it moves the flag. */
  lemma AmiEmitLastPulse(c: char, lastPositive: bool)
    ensures LastPulseLevel(AmiEmit(c, lastPositive), FlagLevel(lastPositive)) == FlagLevel(AmiNext(c, lastPositive))
  {
    var e := AmiEmit(c, lastPositive);
    assert e == [] || (|e| == 1 && e[1..] == []);
  }

  /** The AMI flag is exactly the sign of the last non-zero level emitted:
      after reading `x` from flag `lastPositive`, the last pulse (or the
      flag's own level if no pulse was emitted) is +1 if and only if the
      flag says positive. */
  lemma {:induction false} AmiAfterIsLastPulse(x: string, lastPositive: bool)
    ensures LastPulseLevel(AmiFrom(x, lastPositive), FlagLevel(lastPositive)) == FlagLevel(AmiAfter(x, lastPositive))
    ensures AmiAfter(x, lastPositive) == (LastPulseLevel(AmiFrom(x, lastPositive), FlagLevel(lastPositive)) == 1)
  {
    if x != [] {
      var next := AmiNext(x[0], lastPositive);
      assert x == [x[0]] + x[1..];
      AmiFromCons(x[0], x[1..], lastPositive);
      LastPulseLevelAppend(AmiEmit(x[0], lastPositive), AmiFrom(x[1..], next), FlagLevel(lastPositive));
      AmiEmitLastPulse(x[0], lastPositive);
      AmiAfterIsLastPulse(x[1..], next);
    }
  }

  /** A '1' anywhere in the input is a pulse opposite to the last non-zero
      level emitted before it (or +1 when there was none), and the symbols
      after it continue from that pulse. */
  lemma AmiOneOppositeLastPulse(x: string, y: string)
    ensures var last := LastPulseLevel(AmiLevels(x), -1);
      (last == 1 || last == -1) &&
      AmiLevels(x + ['1'] + y) == AmiLevels(x) + [-last] + AmiFrom(y, last == -1)
  {
    AmiAt(x, '1', y);
    AmiAfterIsLastPulse(x, false);
  }

  /** Every AMI level is -1, 0 or +1, there is at most one per symbol, and
      exactly one per symbol if and only if every symbol is in the AMI
      alphabet: symbols outside it are dropped. */
  lemma {:induction false} AmiFromLength(data: string, lastPositive: bool)
    ensures |AmiFrom(data, lastPositive)| <= |data|
    ensures |AmiFrom(data, lastPositive)| == |data| <==> forall k :: 0 <= k < |data| ==> IsAmiSymbol(data[k])
    ensures forall k :: 0 <= k < |AmiFrom(data, lastPositive)| ==> -1 <= AmiFrom(data, lastPositive)[k] <= 1
  {
    if data != [] {
      var emitted, next := AmiEmit(data[0], lastPositive), AmiNext(data[0], lastPositive);
      AmiFromLength(data[1..], next);
      var r, rest := AmiFrom(data, lastPositive), AmiFrom(data[1..], next);
      assert r == emitted + rest;
      assert |emitted| == if IsAmiSymbol(data[0]) then 1 else 0;
      if forall k :: 0 <= k < |data| ==> IsAmiSymbol(data[k]) {
        assert forall k :: 0 <= k < |data[1..]| ==> IsAmiSymbol(data[1..][k]) by {
          forall k | 0 <= k < |data[1..]| ensures IsAmiSymbol(data[1..][k]) {
            assert data[1..][k] == data[k + 1];
          }
        }
      }
      if |r| == |data| {
        forall k | 0 <= k < |data| ensures IsAmiSymbol(data[k]) {
          if k > 0 {
            assert data[k] == data[1..][k - 1];
          }
        }
      }
      forall k | 0 <= k < |r| ensures -1 <= r[k] <= 1 {
        if k >= |emitted| {
          assert r[k] == rest[k - |emitted|];
        }
      }
    }
  }

  /** `levels` is the AMI of the bit stream `data` from the flag
      `lastPositive`: 0 for '0', and for '1' a pulse that is +1 exactly when
      the parity of the earlier '1's matches the flag. */
  predicate AmiAlternates(data: string, levels: seq<int>, lastPositive: bool)
  {
    |levels| == |data| &&
    forall i :: 0 <= i < |data| ==>
      levels[i] == if data[i] == '0' then 0 else if (Count(data[..i], '1') % 2 == 1) == lastPositive then 1 else -1
  }

  /** The AMI alternation extends by one bit at the front. */
  lemma AmiAlternatesCons(data: string, levels: seq<int>, lastPositive: bool)
    requires data != [] && (data[0] == '0' || data[0] == '1') && |levels| == |data|
    requires levels[0] == if data[0] == '0' then 0 else if lastPositive then -1 else 1
    requires AmiAlternates(data[1..], levels[1..], AmiNext(data[0], lastPositive))
    ensures AmiAlternates(data, levels, lastPositive)
  {
    forall i | 1 <= i < |data|
      ensures levels[i] ==
        if data[i] == '0' then 0 else if (Count(data[..i], '1') % 2 == 1) == lastPositive then 1 else -1
    {
      CountPrefix(data, i - 1, '1');
      assert data[..i - 1 + 1] == data[..i];
      assert levels[i] == levels[1..][i - 1] && data[1..][i - 1] == data[i];
    }
  }

  /** On a bit stream, AMI gives one level per bit: 0 for '0', and for '1'
      a pulse that alternates, the pulse after an even number of earlier
      '1's being +1 when starting as if the last pulse was negative. */
  lemma {:induction false} AmiFromBinaryAt(data: string, lastPositive: bool)
    requires IsBinary(data)
    ensures AmiAlternates(data, AmiFrom(data, lastPositive), lastPositive)
  {
    if data != [] {
      var next := AmiNext(data[0], lastPositive);
      assert IsBinary(data[1..]) by {
        forall k | 0 <= k < |data[1..]| ensures data[1..][k] == '0' || data[1..][k] == '1' {
          assert data[1..][k] == data[k + 1];
        }
      }
      AmiFromBinaryAt(data[1..], next);
      var r := AmiFrom(data, lastPositive);
      assert r == AmiEmit(data[0], lastPositive) + AmiFrom(data[1..], next);
      assert r[1..] == AmiFrom(data[1..], next);
      AmiAlternatesCons(data, r, lastPositive);
    }
  }

  /** AMI of a bit stream: level i is 0 for '0'; for '1' it is +1 exactly
      when an even number of '1's precede it, so pulses alternate and the
      first is +1. */
  lemma AmiLevelsBinaryAt(data: string)
    requires IsBinary(data)
    ensures |AmiLevels(data)| == |data|
    ensures forall i :: 0 <= i < |data| ==>
      AmiLevels(data)[i] == if data[i] == '0' then 0 else if Count(data[..i], '1') % 2 == 0 then 1 else -1
  {
    AmiFromBinaryAt(data, false);
    assert AmiAlternates(data, AmiLevels(data), false);
  }

  /** On a scrambled stream (only '0', '+' and '-') AMI gives one level
      per symbol and follows the forced polarities, whatever the flag:
      0 for '0', +1 for '+' and -1 for '-'. */
  lemma {:induction false} AmiFromSignedAt(data: string, lastPositive: bool)
    requires IsSigned(data)
    ensures |AmiFrom(data, lastPositive)| == |data|
    ensures forall i :: 0 <= i < |data| ==>
      AmiFrom(data, lastPositive)[i] == if data[i] == '0' then 0 else if data[i] == '+' then 1 else -1
  {
    if data != [] {
      var next := AmiNext(data[0], lastPositive);
      assert IsSigned(data[1..]) by {
        forall k | 0 <= k < |data[1..]| ensures data[1..][k] == data[k + 1] {
        }
      }
      AmiFromSignedAt(data[1..], next);
      forall i | 1 <= i < |data|
        ensures AmiFrom(data, lastPositive)[i] == if data[i] == '0' then 0 else if data[i] == '+' then 1 else -1
      {
        assert data[1..][i - 1] == data[i];
      }
    }
  }

  // ------------------------------------------------------------- Dispatch

  /** The levels `encode` returns for `scheme`. */
  function EncodedLevels(data: string, scheme: Scheme): seq<int>
  {
    match scheme
    case NrzL => NrzLLevels(data)
    case NrzI => NrzILevels(data)
    case Manchester => ManchesterLevels(data)
    case DiffManchester => DiffManchesterLevels(data)
    case Ami => AmiLevels(data)
  }

  method Encode(data: string, scheme: Scheme) returns (levels: seq<int>)
    ensures levels == EncodedLevels(data, scheme)
  {
    match scheme {
      case NrzL => levels := EncodeNrzL(data);
      case NrzI => levels := EncodeNrzI(data);
      case Manchester => levels := EncodeManchester(data);
      case DiffManchester => levels := EncodeDiffManchester(data);
      case Ami => levels := EncodeAmi(data);
    }
  }

  /** For every scheme: empty input gives no levels; every level is -1, 0
      or +1, and only AMI uses 0; the number of levels is one per symbol for
      NRZ-L and NRZ-I, two for the Manchester schemes and at most one for
      AMI. */
  lemma EncodedLevelsShape(data: string, scheme: Scheme)
    ensures data == [] ==> EncodedLevels(data, scheme) == []
    ensures forall k :: 0 <= k < |EncodedLevels(data, scheme)| ==> -1 <= EncodedLevels(data, scheme)[k] <= 1
    ensures scheme != Ami ==>
      forall k :: 0 <= k < |EncodedLevels(data, scheme)| ==>
        EncodedLevels(data, scheme)[k] == 1 || EncodedLevels(data, scheme)[k] == -1
    ensures |EncodedLevels(data, scheme)| ==
      match scheme
      case NrzL => |data|
      case NrzI => |data|
      case Manchester => 2 * |data|
      case DiffManchester => 2 * |data|
      case Ami => |AmiLevels(data)|
    ensures |AmiLevels(data)| <= |data|
  {
    AmiFromLength(data, false);
    match scheme {
      case NrzL => NrzLLevelsAt(data);
      case NrzI => NrzILevelsAt(data);
      case Manchester =>
        ManchesterLevelsAt(data);
        ManchesterLevelsSigned(data);
      case DiffManchester => DiffManchesterLevelsAt(data);
      case Ami =>
    }
  }

  /** The examples: NRZ-I of "1111" is [-1,+1,-1,+1] and AMI of "1011" is
      [+1,0,-1,+1]. */
  lemma EncodingExamples()
    ensures NrzILevels("1111") == [-1, 1, -1, 1]
    ensures AmiLevels("1011") == [1, 0, -1, 1]
  {
    NrzILevelsAt("1111");
    assert "1111"[..1] == "1" && "1111"[..2] == "11" && "1111"[..3] == "111";
    assert Count("1", '1') == 1 && Count("11", '1') == 2 && Count("111", '1') == 3 && Count("1111", '1') == 4;
    AmiLevelsBinaryAt("1011");
    assert "1011"[..2] == "10" && "1011"[..3] == "101";
    assert Count("", '1') == 0 && Count("10", '1') == 1 && Count("101", '1') == 2;
  }
}
