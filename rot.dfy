/** `Ciphers.Rot`: ROT-n over the 95 printable ASCII characters, codes 32
    (space) to 126 (`~`); every other character is copied unchanged. */
module RotCipher {
  import opened CSharpInt

  const Start: int := 32
  const End: int := 126
  const Range: int := End - Start + 1

  predicate IsPrintable(c: char) { Start <= c as int <= End }

  /** The `effectiveShift` of the source: `(shift * direction) % 95`, moved
      into 0..94. */
  function EffectiveShift(shift: int32, encrypt: bool): (e: int)
    ensures 0 <= e < Range
  {
    Normalize(Directed(shift, encrypt), Range)
  }

  function RotChar(c: char, e: int): char
    requires 0 <= e < Range
  {
    if IsPrintable(c) then ((c as int - Start + e) % Range + Start) as char else c
  }

  /** What `Rot(input, shift, encrypt)` returns. */
  function RotText(input: string, shift: int32, encrypt: bool): string
  {
    var e := EffectiveShift(shift, encrypt);
    seq(|input|, i requires 0 <= i < |input| => RotChar(input[i], e))
  }

  /** The source's loop, character by character into a `StringBuilder`. */
  method Rot(input: string, shift: int32, encrypt: bool) returns (r: string)
    ensures r == RotText(input, shift, encrypt)
  {
    if |input| == 0 {
      return input;
    }
    var direction := if encrypt then 1 else -1;
    var effectiveShift := Rem(Wrap(shift * direction), Range);
    if effectiveShift < 0 {
      effectiveShift := effectiveShift + Range;
    }
    assert effectiveShift == EffectiveShift(shift, encrypt);
    var result := "";
    var i := 0;
    while i < |input|
      invariant 0 <= i <= |input|
      invariant |result| == i
      invariant forall j :: 0 <= j < i ==> result[j] == RotChar(input[j], effectiveShift)
    {
      var asciiCode := input[i] as int;
      if asciiCode >= Start && asciiCode <= End {
        var newCode := (asciiCode - Start + effectiveShift) % Range + Start;
        result := result + [newCode as char];
      } else {
        result := result + [input[i]];
      }
      i := i + 1;
    }
    r := result;
  }

  /** Printable characters stay printable; the others are left as they are. */
  lemma RotKeepsClasses(input: string, shift: int32, encrypt: bool, i: int)
    requires 0 <= i < |input|
    ensures |RotText(input, shift, encrypt)| == |input|
    ensures IsPrintable(RotText(input, shift, encrypt)[i]) <==> IsPrintable(input[i])
    ensures !IsPrintable(input[i]) ==> RotText(input, shift, encrypt)[i] == input[i]
  {
  }

  /** For every key except `int.MinValue` the two shifts cancel modulo 95. */
  lemma ShiftsCancel(shift: int32)
    requires shift != MinInt32
    ensures (EffectiveShift(shift, true) + EffectiveShift(shift, false)) % Range == 0
  {
    NegatedResidues(shift, Range);
  }

  /** Decryption undoes encryption, for every text and every key but one. */
  lemma RotRoundTrip(input: string, shift: int32)
    requires shift != MinInt32
    ensures RotText(RotText(input, shift, false), shift, true) == input
    ensures RotText(RotText(input, shift, true), shift, false) == input
  {
    var e, f := EffectiveShift(shift, true), EffectiveShift(shift, false);
    ShiftsCancel(shift);
    assert (f + e) % Range == 0;
    var back := RotText(RotText(input, shift, true), shift, false);
    var forth := RotText(RotText(input, shift, false), shift, true);
    forall i | 0 <= i < |input|
      ensures back[i] == input[i] && forth[i] == input[i]
    {
      if IsPrintable(input[i]) {
        RotateBack(input[i] as int - Start, e, f, Range);
        RotateBack(input[i] as int - Start, f, e, Range);
      }
    }
  }

  /** For `int.MinValue` the decrypting key is `int.MinValue` again, so both
      directions shift by 92 and "A" comes back as ";". */
  lemma RotMinValueCounterexample()
    ensures EffectiveShift(MinInt32, true) == 92 && EffectiveShift(MinInt32, false) == 92
    ensures RotText(RotText("A", MinInt32, true), MinInt32, false) == ";"
  {
    ModUnique(MinInt32, Range, -22605092, 92);
    var once := RotText("A", MinInt32, true);
    assert once == ">";
  }

  // The evidently intended cipher: the key is negated without wrap-around.

  function FixedShift(shift: int, encrypt: bool): (e: int)
    ensures 0 <= e < Range
  {
    (if encrypt then shift else -shift) % Range
  }

  /** The corrected cipher. */
  function RotFixed(input: string, shift: int, encrypt: bool): (r: string)
    ensures |r| == |input|
  {
    var e := FixedShift(shift, encrypt);
    seq(|input|, i requires 0 <= i < |input| => RotChar(input[i], e))
  }

  /** With the correction the round trip holds for every key. */
  lemma RotFixedRoundTrip(input: string, shift: int)
    ensures RotFixed(RotFixed(input, shift, true), shift, false) == input
  {
    var e, f := FixedShift(shift, true), FixedShift(shift, false);
    NegatedResidues(shift, Range);
    var back := RotFixed(RotFixed(input, shift, true), shift, false);
    forall i | 0 <= i < |input|
      ensures back[i] == input[i]
    {
      if IsPrintable(input[i]) {
        RotateBack(input[i] as int - Start, e, f, Range);
      }
    }
  }

  /** On the keys where the source is right, the correction changes nothing. */
  lemma RotFixedAgrees(input: string, shift: int32, encrypt: bool)
    requires shift != MinInt32
    ensures RotFixed(input, shift, encrypt) == RotText(input, shift, encrypt)
  {
  }
}
