/** The signal chain a scrambler feeds: the scrambled stream is handed to
    the AMI encoder, which reads '+' and '-' as pulses of forced polarity.
    B8ZS and HDB3 are transparent where they substitute nothing: the
    scrambler's alternation of '+' and '-' is the one AMI gives the '1's. */
module Pipeline {
  import opened Bits
  import opened LineEncoder
  import opened Scrambler

  /** Whatever the input, every scrambled symbol is one AMI encodes, so the
      AMI signal of a scrambled stream has one level per input symbol. */
  lemma ScrambledAmiLength(data: string)
    ensures |AmiLevels(B8zsScrambled(data))| == |data|
    ensures |AmiLevels(Hdb3Scrambled(data))| == |data|
  {
    B8zsScrambledSigned(data);
    AmiFromSignedAt(B8zsScrambled(data), false);
    Hdb3ScrambledSigned(data);
    AmiFromSignedAt(Hdb3Scrambled(data), false);
  }

  /** A bit stream without eight consecutive zeros gives the same AMI
      signal with and without B8ZS. */
  lemma B8zsThenAmi(bits: string)
    requires IsBinary(bits) && !HasRun(bits, 8)
    ensures AmiLevels(B8zsScrambled(bits)) == AmiLevels(bits)
  {
    var scrambled := B8zsScrambled(bits);
    B8zsScrambledSigned(bits);
    B8zsScrambledUnsubstituted(bits);
    AmiFromSignedAt(scrambled, false);
    AmiLevelsBinaryAt(bits);
  }

  /** A bit stream without four consecutive zeros gives the same AMI
      signal with and without HDB3. */
  lemma Hdb3ThenAmi(bits: string)
    requires IsBinary(bits) && !HasRun(bits, 4)
    ensures AmiLevels(Hdb3Scrambled(bits)) == AmiLevels(bits)
  {
    var scrambled := Hdb3Scrambled(bits);
    Hdb3ScrambledSigned(bits);
    Hdb3ScrambledUnsubstituted(bits);
    AmiFromSignedAt(scrambled, false);
    AmiLevelsBinaryAt(bits);
  }
}
