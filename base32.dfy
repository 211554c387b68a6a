/** `Ciphers.Base32Encode`, `Ciphers.Base32Decode` and the nested helpers
    `Base32.ToBase32String` and `Base32.FromBase32String`, as written: the
    encoder emits one character more than the groups when the byte count is
    a multiple of five, and the decoder packs the characters in pairs into
    single bytes instead of cutting the bit stream into bytes. */
module Base32 {
  import opened Failures
  import opened CSharpInt
  import opened Text
  import opened Bits
  import opened Base32Blocks
  import opened Base32Rfc

  /** The C# cast `(byte)x`. */
  function Low8(x: nat): (b: byte)
    ensures x < 256 ==> b == x
  {
    x % 256
  }

  // ----- The encoder -----

  /** The characters `ToBase32String` has appended after `i` bytes: one for
      every group whose bits all lie in those bytes. */
  function Emitted(i: nat): nat
  {
    8 * i / 5
  }

  /** `bitsRemaining` after `i` bytes: the bits still missing from the group
      under construction. */
  function BitsRemaining(i: nat): (br: nat)
    ensures 1 <= br <= 5
  {
    match i % 5
    case 0 => 5
    case 1 => 2
    case 2 => 4
    case 3 => 1
    case _ => 3
  }

  /** `nextChar` after `i` bytes: the group under construction, holding the
      bits of those bytes it covers. */
  function Partial(s: seq<byte>, i: nat): (q: nat)
    requires i <= |s|
    ensures q < 32
  {
    Quintet(s[..i], Emitted(i))
  }

  /** What `ToBase32String` returns: the empty string for no bytes,
      otherwise the characters of the complete groups and then, always, the
      group under construction. */
  function AsWrittenEncoding(s: seq<byte>): (r: string)
    ensures AllBase32(r) && '=' !in r
  {
    if |s| == 0 then "" else Chars(s, Emitted(|s|) + 1)
  }

  /** The source's loop: each byte completes one or two groups, and the
      final group is appended whatever `bitsRemaining` is, since it is never
      zero. */
  method ToBase32String(input: array<byte>) returns (r: string)
    ensures r == AsWrittenEncoding(input[..])
  {
    if input.Length == 0 {
      return "";
    }
    ghost var s := input[..];
    var result: string := "";
    var nextChar: byte, bitsRemaining: nat := 0, 5;
    var index := 0;
    while index < input.Length
      invariant 0 <= index <= input.Length
      invariant bitsRemaining == BitsRemaining(index)
      invariant nextChar == Partial(s, index)
      invariant result == Chars(s, Emitted(index))
    {
      result, nextChar, bitsRemaining := AppendByte(s, index, input[index], result, nextChar, bitsRemaining);
      index := index + 1;
    }
    EncodeLast(s, index, bitsRemaining, nextChar, result);
    if bitsRemaining > 0 {
      result := result + [Base32Chars[nextChar]];
    }
    return result;
  }

  /** The body of the source's loop for byte `i`: it completes the group
      under construction, then the next one too when fewer than four bits
      were missing, and starts the following group with the bits left over.
      The characters of the completed groups are appended to `result`. */
  method AppendByte(ghost s: seq<byte>, ghost i: nat, b: byte, result: string, nextChar: byte, bitsRemaining: nat)
    returns (text: string, next: byte, br: nat)
    requires i < |s| && b == s[i] && bitsRemaining == BitsRemaining(i) && nextChar == Partial(s, i)
    requires result == Chars(s, Emitted(i))
    ensures text == Chars(s, Emitted(i + 1)) && next == Partial(s, i + 1) && br == BitsRemaining(i + 1)
  {
    EncodeTurn(s, i, b, bitsRemaining, nextChar, result);
    text, next, br := result, nextChar, bitsRemaining;
    next := Low8(Or(next, Shr(b, 8 - br)));
    text := text + [Base32Chars[next]];
    if br < 4 {
      next := Low8(And(Shr(b, 3 - br), 31));
      text := text + [Base32Chars[next]];
      br := br + 5;
    }
    br := br - 3;
    next := Low8(And(Shl(b, br), 31));
  }

  /** What one turn of the encoder loop does with byte `i`: the first
      character it appends is group `Emitted(i)`, the second (when
      `bitsRemaining < 4`) the next group, and it leaves `bitsRemaining`
      and `nextChar` as they are meant to be after byte `i + 1`. */
  predicate EncoderStep(s: seq<byte>, i: nat)
    requires i < |s|
  {
    var br := BitsRemaining(i);
    && Or(Partial(s, i), Shr(s[i], 8 - br)) == Quintet(s, Emitted(i))
    && (br < 4 ==> And(Shr(s[i], 3 - br), 31) == Quintet(s, Emitted(i) + 1))
    && Emitted(i + 1) == Emitted(i) + (if br < 4 then 2 else 1)
    && BitsRemaining(i + 1) == (if br < 4 then br + 5 else br) - 3
    && And(Shl(s[i], BitsRemaining(i + 1)), 31) == Partial(s, i + 1)
  }

  /** The same, for the values the loop holds: the characters appended to
      `text` are the next groups, and the state is that after byte `i + 1`. */
  lemma EncodeTurn(s: seq<byte>, i: nat, b: byte, br: nat, x: nat, text: string)
    requires i < |s| && b == s[i] && br == BitsRemaining(i) && x == Partial(s, i)
    requires text == Chars(s, Emitted(i))
    ensures |Base32Chars| == 32 && br <= 8 && Low8(Or(x, Shr(b, 8 - br))) < 32
    ensures br < 4 ==> Low8(And(Shr(b, 3 - br), 31)) < 32
    ensures var t := text + [Base32Chars[Low8(Or(x, Shr(b, 8 - br)))]];
      if br < 4 then
        t + [Base32Chars[Low8(And(Shr(b, 3 - br), 31))]] == Chars(s, Emitted(i + 1)) && br + 5 - 3 == BitsRemaining(i + 1)
      else
        t == Chars(s, Emitted(i + 1)) && br - 3 == BitsRemaining(i + 1)
    ensures Low8(And(Shl(b, BitsRemaining(i + 1)), 31)) == Partial(s, i + 1)
  {
    EncodeStep(s, i);
    var e := Emitted(i);
    AppendGroup(s, e, text, Quintet(s, e));
    if br < 4 {
      AppendGroup(s, e + 1, Chars(s, e + 1), Quintet(s, e + 1));
    }
  }

  /** After the last byte the group under construction is appended, since
      `bitsRemaining` is never zero. */
  lemma EncodeLast(s: seq<byte>, n: nat, br: nat, x: nat, text: string)
    requires 0 < n == |s| && br == BitsRemaining(n) && x == Partial(s, n)
    requires text == Chars(s, Emitted(n))
    ensures br > 0 && |Base32Chars| == 32 && x < 32
    ensures text + [Base32Chars[x]] == AsWrittenEncoding(s)
  {
    assert s[..n] == s;
    AppendGroup(s, Emitted(n), text, x);
  }

  /** Every turn of the loop does so. */
  lemma EncodeStep(s: seq<byte>, i: nat)
    requires i < |s|
    ensures EncoderStep(s, i)
  {
    var m, r := i / 5, i % 5;
    assert i == 5 * m + r;
    if r == 0 {
      StepFirst(s, i, m);
    } else if r == 1 {
      StepSecond(s, i, m);
    } else if r == 2 {
      StepThird(s, i, m);
    } else if r == 3 {
      StepFourth(s, i, m);
    } else {
      StepFifth(s, i, m);
    }
  }

  lemma StepFirst(s: seq<byte>, i: nat, m: nat)
    requires i == 5 * m && i < |s|
    ensures EncoderStep(s, i)
  {
    EmittedAt(m);
    ModUnique(5 * m, 5, m, 0);
    ModUnique(5 * m + 1, 5, m, 1);
    assert BitsRemaining(i) == 5 && BitsRemaining(i + 1) == 2;
    assert Emitted(i) == 8 * m && Emitted(i + 1) == 8 * m + 1;
    FirstByte(s, m);
  }

  lemma StepSecond(s: seq<byte>, i: nat, m: nat)
    requires i == 5 * m + 1 && i < |s|
    ensures EncoderStep(s, i)
  {
    EmittedAt(m);
    ModUnique(5 * m + 1, 5, m, 1);
    ModUnique(5 * m + 2, 5, m, 2);
    assert BitsRemaining(i) == 2 && BitsRemaining(i + 1) == 4;
    assert Emitted(i) == 8 * m + 1 && Emitted(i + 1) == 8 * m + 3;
    SecondByte(s, m);
  }

  lemma StepThird(s: seq<byte>, i: nat, m: nat)
    requires i == 5 * m + 2 && i < |s|
    ensures EncoderStep(s, i)
  {
    EmittedAt(m);
    ModUnique(5 * m + 2, 5, m, 2);
    ModUnique(5 * m + 3, 5, m, 3);
    assert BitsRemaining(i) == 4 && BitsRemaining(i + 1) == 1;
    assert Emitted(i) == 8 * m + 3 && Emitted(i + 1) == 8 * m + 4;
    ThirdByte(s, m);
  }

  lemma StepFourth(s: seq<byte>, i: nat, m: nat)
    requires i == 5 * m + 3 && i < |s|
    ensures EncoderStep(s, i)
  {
    EmittedAt(m);
    ModUnique(5 * m + 3, 5, m, 3);
    ModUnique(5 * m + 4, 5, m, 4);
    assert BitsRemaining(i) == 1 && BitsRemaining(i + 1) == 3;
    assert Emitted(i) == 8 * m + 4 && Emitted(i + 1) == 8 * m + 6;
    FourthByte(s, m);
  }

  lemma StepFifth(s: seq<byte>, i: nat, m: nat)
    requires i == 5 * m + 4 && i < |s|
    ensures EncoderStep(s, i)
  {
    EmittedAt(m);
    ModUnique(5 * m + 4, 5, m, 4);
    ModUnique(5 * m + 5, 5, m + 1, 0);
    assert BitsRemaining(i) == 3 && BitsRemaining(i + 1) == 5;
    assert Emitted(i) == 8 * m + 6 && Emitted(i + 1) == 8 * m + 8;
    FifthByte(s, m);
  }

  /** The characters emitted after each byte of a block of five. */
  lemma EmittedAt(m: nat)
    ensures Emitted(5 * m) == 8 * m && Emitted(5 * m + 1) == 8 * m + 1
    ensures Emitted(5 * m + 2) == 8 * m + 3 && Emitted(5 * m + 3) == 8 * m + 4
    ensures Emitted(5 * m + 4) == 8 * m + 6 && Emitted(5 * m + 5) == 8 * m + 8
  {
    ModUnique(8 * (5 * m), 5, 8 * m, 0);
    ModUnique(8 * (5 * m + 1), 5, 8 * m + 1, 3);
    ModUnique(8 * (5 * m + 2), 5, 8 * m + 3, 1);
    ModUnique(8 * (5 * m + 3), 5, 8 * m + 4, 4);
    ModUnique(8 * (5 * m + 4), 5, 8 * m + 6, 2);
    ModUnique(8 * (5 * m + 5), 5, 8 * m + 8, 0);
  }

  /** Byte 0 of a block: its top five bits are group 0, its low three bits
      start group 1. */
  lemma FirstByte(s: seq<byte>, m: nat)
    requires 5 * m < |s|
    ensures Or(Partial(s, 5 * m), Shr(s[5 * m], 3)) == Quintet(s, 8 * m)
    ensures And(Shl(s[5 * m], 2), 31) == Partial(s, 5 * m + 1)
  {
    PartialFirst(s, m);
    PartialSecond(s, m);
    FirstBits(s[5 * m]);
    QuintetAt(s, m, 0);
  }

  /** Byte 1 of a block: it completes group 1, fills group 2, and starts
      group 3 with its last bit. */
  lemma SecondByte(s: seq<byte>, m: nat)
    requires 5 * m + 1 < |s|
    ensures Or(Partial(s, 5 * m + 1), Shr(s[5 * m + 1], 6)) == Quintet(s, 8 * m + 1)
    ensures And(Shr(s[5 * m + 1], 1), 31) == Quintet(s, 8 * m + 2)
    ensures And(Shl(s[5 * m + 1], 4), 31) == Partial(s, 5 * m + 2)
  {
    PartialSecond(s, m);
    PartialThird(s, m);
    SecondBits((s[5 * m] % 8) * 4, s[5 * m + 1]);
    QuintetAt(s, m, 1);
    QuintetAt(s, m, 2);
  }

  /** Byte 2 of a block: it completes group 3 and starts group 4. */
  lemma ThirdByte(s: seq<byte>, m: nat)
    requires 5 * m + 2 < |s|
    ensures Or(Partial(s, 5 * m + 2), Shr(s[5 * m + 2], 4)) == Quintet(s, 8 * m + 3)
    ensures And(Shl(s[5 * m + 2], 1), 31) == Partial(s, 5 * m + 3)
  {
    PartialThird(s, m);
    PartialFourth(s, m);
    ThirdBits((s[5 * m + 1] % 2) * 16, s[5 * m + 2]);
    QuintetAt(s, m, 3);
  }

  /** Byte 3 of a block: it completes group 4, fills group 5, and starts
      group 6 with its last two bits. */
  lemma FourthByte(s: seq<byte>, m: nat)
    requires 5 * m + 3 < |s|
    ensures Or(Partial(s, 5 * m + 3), Shr(s[5 * m + 3], 7)) == Quintet(s, 8 * m + 4)
    ensures And(Shr(s[5 * m + 3], 2), 31) == Quintet(s, 8 * m + 5)
    ensures And(Shl(s[5 * m + 3], 3), 31) == Partial(s, 5 * m + 4)
  {
    PartialFourth(s, m);
    PartialFifth(s, m);
    FourthBits((s[5 * m + 2] % 16) * 2, s[5 * m + 3]);
    QuintetAt(s, m, 4);
    QuintetAt(s, m, 5);
  }

  /** Byte 4 of a block: it completes group 6 and fills group 7, leaving
      nothing for the next group. */
  lemma FifthByte(s: seq<byte>, m: nat)
    requires 5 * m + 4 < |s|
    ensures Or(Partial(s, 5 * m + 4), Shr(s[5 * m + 4], 5)) == Quintet(s, 8 * m + 6)
    ensures And(Shr(s[5 * m + 4], 0), 31) == Quintet(s, 8 * m + 7)
    ensures And(Shl(s[5 * m + 4], 5), 31) == Partial(s, 5 * m + 5)
  {
    PartialFifth(s, m);
    PartialFirst(s, m + 1);
    FifthBits((s[5 * m + 3] % 4) * 8, s[5 * m + 4]);
    QuintetAt(s, m, 6);
    QuintetAt(s, m, 7);
  }

  /** The group under construction at the start of a block is empty. */
  lemma PartialFirst(s: seq<byte>, m: nat)
    requires 5 * m <= |s|
    ensures Partial(s, 5 * m) == 0
  {
    EmittedAt(m);
    QuintetAt(s[..5 * m], m, 0);
  }

  /** After byte 0 of a block, group 1 holds its low three bits. */
  lemma PartialSecond(s: seq<byte>, m: nat)
    requires 5 * m + 1 <= |s|
    ensures Partial(s, 5 * m + 1) == (s[5 * m] % 8) * 4
  {
    EmittedAt(m);
    QuintetAt(s[..5 * m + 1], m, 1);
  }

  /** After byte 1, group 3 holds its last bit. */
  lemma PartialThird(s: seq<byte>, m: nat)
    requires 5 * m + 2 <= |s|
    ensures Partial(s, 5 * m + 2) == (s[5 * m + 1] % 2) * 16
  {
    EmittedAt(m);
    QuintetAt(s[..5 * m + 2], m, 3);
  }

  /** After byte 2, group 4 holds its low four bits. */
  lemma PartialFourth(s: seq<byte>, m: nat)
    requires 5 * m + 3 <= |s|
    ensures Partial(s, 5 * m + 3) == (s[5 * m + 2] % 16) * 2
  {
    EmittedAt(m);
    QuintetAt(s[..5 * m + 3], m, 4);
  }

  /** After byte 3, group 6 holds its low two bits. */
  lemma PartialFifth(s: seq<byte>, m: nat)
    requires 5 * m + 4 <= |s|
    ensures Partial(s, 5 * m + 4) == (s[5 * m + 3] % 4) * 8
  {
    EmittedAt(m);
    QuintetAt(s[..5 * m + 4], m, 6);
  }

  /** The shifts and masks the encoder applies to byte 0 of a block. */
  lemma FirstBits(b: nat)
    requires b < 256
    ensures Or(0, Shr(b, 3)) == b / 8
    ensures And(Shl(b, 2), 31) == (b % 8) * 4
  {
    Pow2Values();
    AndLowBits(b * 4, 5);
    ModUnique(b * 4, 32, b / 8, (b % 8) * 4);
  }

  /** ... to byte 1, after the group built from byte 0. */
  lemma SecondBits(a: nat, b: nat)
    requires a < 32 && a % 4 == 0 && b < 256
    ensures Or(a, Shr(b, 6)) == a + b / 64
    ensures And(Shr(b, 1), 31) == (b / 2) % 32
    ensures And(Shl(b, 4), 31) == (b % 2) * 16
  {
    Pow2Values();
    OrDisjoint(a, b / 64, 2);
    AndLowBits(b / 2, 5);
    AndLowBits(b * 16, 5);
    ModUnique(b * 16, 32, b / 2, (b % 2) * 16);
  }

  /** ... to byte 2. */
  lemma ThirdBits(a: nat, b: nat)
    requires a < 32 && a % 16 == 0 && b < 256
    ensures Or(a, Shr(b, 4)) == a + b / 16
    ensures And(Shl(b, 1), 31) == (b % 16) * 2
  {
    Pow2Values();
    OrDisjoint(a, b / 16, 4);
    AndLowBits(b * 2, 5);
    ModUnique(b * 2, 32, b / 16, (b % 16) * 2);
  }

  /** ... to byte 3. */
  lemma FourthBits(a: nat, b: nat)
    requires a < 32 && a % 2 == 0 && b < 256
    ensures Or(a, Shr(b, 7)) == a + b / 128
    ensures And(Shr(b, 2), 31) == (b / 4) % 32
    ensures And(Shl(b, 3), 31) == (b % 4) * 8
  {
    Pow2Values();
    OrDisjoint(a, b / 128, 1);
    AndLowBits(b / 4, 5);
    AndLowBits(b * 8, 5);
    ModUnique(b * 8, 32, b / 4, (b % 4) * 8);
  }

  /** ... to byte 4. */
  lemma FifthBits(a: nat, b: nat)
    requires a < 32 && a % 8 == 0 && b < 256
    ensures Or(a, Shr(b, 5)) == a + b / 32
    ensures And(Shr(b, 0), 31) == b % 32
    ensures And(Shl(b, 5), 31) == 0
  {
    Pow2Values();
    OrDisjoint(a, b / 32, 3);
    AndLowBits(b, 5);
    AndLowBits(b * 32, 5);
    ModUnique(b * 32, 32, b, 0);
  }

  // ----- The decoder -----

  /** The byte the decoder writes for the characters `2 * i` and `2 * i + 1`
      of `t`: the low three bits of the first group above the five bits of
      the second. */
  function PairByte(t: string, i: nat): (b: byte)
    requires AllBase32(t) && 2 * i + 1 < |t|
  {
    (IndexOf(t[2 * i]) % 8) * 32 + IndexOf(t[2 * i + 1])
  }

  /** The contents of `result` after the decoder's loop has consumed the
      first `k` characters of `t`: one byte for every pair consumed, zeros
      after them. */
  function Decoded(t: string, k: nat): (bs: seq<byte>)
    requires AllBase32(t) && k <= |t|
    ensures |bs| == |t| * 5 / 8
  {
    seq(|t| * 5 / 8, i requires 0 <= i < |t| * 5 / 8 => if i < k / 2 then PairByte(t, i) else 0)
  }

  /** What `FromBase32String` returns: no bytes for the empty string; once
      trimmed and upper-cased, a format error for a character outside the
      alphabet; otherwise the pair bytes of the whole text. */
  function FromBase32Text(base32: string): Result<seq<byte>>
  {
    if |base32| == 0 then Ok([])
    else
      var t := ToUpper(Trim(base32));
      if !AllBase32(t) then Fail(InvalidFormat) else Ok(Decoded(t, |t|))
  }

  /** The source's two loops over the characters: the check against the
      alphabet, then the bit buffer that writes a byte whenever it holds at
      least eight bits.  `bitsLeft` only ever takes the values 8 and 3, so
      `shift` is always zero and every byte comes from two characters. */
  method FromBase32String(base32: string) returns (r: Result<seq<byte>>)
    ensures r == FromBase32Text(base32)
  {
    if |base32| == 0 {
      return Ok([]);
    }
    var text := ToUpper(Trim(base32));
    var valid := CheckAlphabet(text);
    if !valid {
      return Fail(InvalidFormat);
    }
    var byteCount := |text| * 5 / 8;
    var result := new byte[byteCount](_ => 0);
    var buffer: nat, bitsLeft: nat, resultIndex: nat := 0, 8, 0;
    var k := 0;
    while k < |text|
      invariant 0 <= k <= |text|
      invariant bitsLeft == if k % 2 == 0 then 8 else 3
      invariant buffer == if k % 2 == 0 then 0 else IndexOf(text[k - 1])
      invariant resultIndex == k / 2
      invariant result[..] == Decoded(text, k)
    {
      buffer, bitsLeft, resultIndex := ShiftIn(result, text, k, IndexOf(text[k]), buffer, bitsLeft, resultIndex);
      k := k + 1;
    }
    return Ok(result[..]);
  }

  /** The source's first loop: every character must be in the alphabet; the
      first one that is not ends the check. */
  method CheckAlphabet(text: string) returns (valid: bool)
    ensures valid <==> AllBase32(text)
  {
    var k := 0;
    while k < |text|
      invariant 0 <= k <= |text|
      invariant forall j :: 0 <= j < k ==> IsBase32(text[j])
    {
      var c := text[k];
      AlphabetContains(c);
      if c !in Base32Chars {
        return false;
      }
      assert IsBase32(text[k]);
      k := k + 1;
    }
    return true;
  }

  /** The body of the source's second loop for character `k`, of group
      value `value`: the first character of a pair goes into the buffer,
      the second completes ten bits, of which the low eight are written to
      `result[resultIndex]`, and empties it. */
  method ShiftIn(result: array<byte>, ghost t: string, ghost k: nat, value: nat, buffer: nat, bitsLeft: nat, resultIndex: nat)
    returns (newBuffer: nat, newBitsLeft: nat, newIndex: nat)
    modifies result
    requires AllBase32(t) && k < |t| && value == IndexOf(t[k])
    requires bitsLeft == (if k % 2 == 0 then 8 else 3) && resultIndex == k / 2
    requires buffer == if k % 2 == 0 then 0 else IndexOf(t[k - 1])
    requires result[..] == Decoded(t, k)
    ensures newBitsLeft == (if (k + 1) % 2 == 0 then 8 else 3) && newIndex == (k + 1) / 2
    ensures newBuffer == if (k + 1) % 2 == 0 then 0 else IndexOf(t[k])
    ensures result[..] == Decoded(t, k + 1)
  {
    DecodedStep(t, k);
    newBuffer, newBitsLeft, newIndex := buffer, bitsLeft, resultIndex;
    if newBitsLeft > 5 {
      assert k % 2 == 0 && newBuffer == 0;
      FirstOfPair(value);
      newBuffer := Or(Shl(newBuffer, 5), value);
      newBitsLeft := newBitsLeft - 5;
    } else {
      assert k % 2 == 1 && newBuffer == IndexOf(t[k - 1]) && newBitsLeft == 3;
      SecondOfPair(newBuffer, value);
      PairAt(t, k);
      newBuffer := Or(Shl(newBuffer, 5), value);
      var shift := newBitsLeft + 5 - 8;
      assert shift == 0;
      ghost var before := result[..];
      var b := Low8(And(Shr(newBuffer, shift), 0xFF));
      assert b == PairByte(t, k / 2);
      result[newIndex] := b;
      assert result[..] == before[newIndex := b];
      newIndex := newIndex + 1;
      newBuffer := And(newBuffer, Pow2(shift) - 1);
      newBitsLeft := 8 - shift;
    }
  }

  /** The pair that ends at an odd character `k` starts at `k - 1`. */
  lemma PairAt(t: string, k: nat)
    requires AllBase32(t) && k < |t| && k % 2 == 1
    ensures PairByte(t, k / 2) == (IndexOf(t[k - 1]) % 8) * 32 + IndexOf(t[k])
  {
    assert 2 * (k / 2) == k - 1;
  }

  /** The first character of a pair goes into the empty buffer unchanged. */
  lemma FirstOfPair(v: nat)
    requires v < 32
    ensures Or(Shl(0, 5), v) == v
  {
  }

  /** The second character of a pair completes ten bits, of which the byte
      keeps the low eight, and the buffer is emptied. */
  lemma SecondOfPair(v: nat, w: nat)
    requires v < 32 && w < 32
    ensures Or(Shl(v, 5), w) == v * 32 + w
    ensures Low8(And(Shr(v * 32 + w, 0), 0xFF)) == (v % 8) * 32 + w
    ensures And(v * 32 + w, Pow2(0) - 1) == 0
  {
    assert Or(Shl(v, 5), w) == v * 32 + w by {
      Pow2Values();
      ModUnique(v * 32, 32, v, 0);
      OrDisjoint(v * 32, w, 5);
    }
    LowByteOfPair(v, w);
  }

  lemma LowByteOfPair(v: nat, w: nat)
    requires v < 32 && w < 32
    ensures Low8(And(Shr(v * 32 + w, 0), 0xFF)) == (v % 8) * 32 + w
  {
    var x := v * 32 + w;
    assert Shr(x, 0) == x;
    assert And(x, 0xFF) == x % 256 by {
      Pow2Values();
      AndLowBits(x, 8);
    }
    ModUnique(x, 256, v / 8, (v % 8) * 32 + w);
  }

  /** The byte of the pair that ends at character `k` lies inside the array. */
  lemma PairIndex(k: nat, n: nat)
    requires k % 2 == 1 && k < n
    ensures k / 2 < n * 5 / 8
  {
  }

  /** Consuming character `k` writes the byte of its pair when it ends one. */
  lemma DecodedStep(t: string, k: nat)
    requires AllBase32(t) && k < |t|
    ensures k % 2 == 0 ==> (k + 1) % 2 == 1 && (k + 1) / 2 == k / 2 && Decoded(t, k + 1) == Decoded(t, k)
    ensures k % 2 == 1 ==> (k + 1) % 2 == 0 && (k + 1) / 2 == k / 2 + 1
    ensures k % 2 == 1 ==> k / 2 < |t| * 5 / 8 && Decoded(t, k + 1) == Decoded(t, k)[k / 2 := PairByte(t, k / 2)]
  {
    if k % 2 == 1 {
      PairIndex(k, |t|);
      assert (k + 1) / 2 == k / 2 + 1;
    } else {
      assert (k + 1) / 2 == k / 2;
    }
  }

  // ----- Ciphers.Base32Encode and Ciphers.Base32Decode -----

  /** `Base32Encode`, given the UTF-8 bytes of the text (empty exactly when
      the text is). */
  method Base32Encode(bytes: seq<byte>) returns (r: string)
    ensures r == AsWrittenEncoding(bytes)
  {
    if |bytes| == 0 {
      return "";
    }
    var input := new byte[|bytes|](i requires 0 <= i < |bytes| => bytes[i]);
    assert input[..] == bytes;
    r := ToBase32String(input);
  }

  /** What `Base32Decode` returns, as bytes: blank text is refused before
      `FromBase32String` sees it. */
  function Base32DecodeText(input: string): Result<seq<byte>>
  {
    if IsBlank(input) then Fail(EmptyInput) else FromBase32Text(input)
  }

  method Base32Decode(input: string) returns (r: Result<seq<byte>>)
    ensures r == Base32DecodeText(input)
  {
    if IsBlank(input) {
      return Fail(EmptyInput);
    }
    r := FromBase32String(input);
  }

  // ----- Properties -----

  /** The encoder appends one character more than the `charCount` capacity
      it computes, `ceil(8n / 5)`, exactly when the byte count is a multiple
      of five. */
  lemma EncodingLength(n: nat)
    requires n > 0
    ensures Emitted(n) + 1 == GroupCount(n) + (if n % 5 == 0 then 1 else 0)
  {
    var m, r := n / 5, n % 5;
    assert n == 5 * m + r;
    if r == 0 {
      ModUnique(8 * n, 5, 8 * m, 0);
      ModUnique(8 * n + 4, 5, 8 * m, 4);
    } else if r == 1 {
      ModUnique(8 * n, 5, 8 * m + 1, 3);
      ModUnique(8 * n + 4, 5, 8 * m + 2, 2);
    } else if r == 2 {
      ModUnique(8 * n, 5, 8 * m + 3, 1);
      ModUnique(8 * n + 4, 5, 8 * m + 4, 0);
    } else if r == 3 {
      ModUnique(8 * n, 5, 8 * m + 4, 4);
      ModUnique(8 * n + 4, 5, 8 * m + 5, 3);
    } else {
      ModUnique(8 * n, 5, 8 * m + 6, 2);
      ModUnique(8 * n + 4, 5, 8 * m + 7, 1);
    }
  }

  /** The encoding is that of section 6 of RFC 4648 without `=` padding,
      followed by an extra `A` (a group of zero bits) when the byte count
      is a multiple of five. */
  lemma EncodingIsRfcPlusA(s: seq<byte>)
    requires |s| > 0
    ensures AsWrittenEncoding(s) == RfcEncode(s) + (if |s| % 5 == 0 then "A" else "")
  {
    var n := |s|;
    EncodingLength(n);
    if n % 5 == 0 {
      var g := GroupCount(n);
      CharsSnoc(s, g);
      QuintetPastEnd(s, g);
      assert Symbol(0) == 'A';
    } else {
      assert RfcEncode(s) + "" == RfcEncode(s);
    }
  }

  /** Text whose trimmed form holds `=` is refused: padding is not
      accepted. */
  lemma PaddingRejected(base32: string)
    requires '=' in Trim(base32)
    ensures FromBase32Text(base32) == Fail(InvalidFormat)
    ensures Base32DecodeText(base32) == Fail(InvalidFormat)
  {
    var trimmed := Trim(base32);
    var i :| 0 <= i < |trimmed| && trimmed[i] == '=';
    var t := ToUpper(trimmed);
    assert t[i] == '=' && !IsBase32(t[i]);
    assert !IsBlank(base32) by {
      if IsBlank(base32) {
        TrimStartBlank(base32);
      }
    }
  }

  /** The decoded bytes: for each pair of characters `((v0 & 7) << 5) | v1`
      of their group values, and zero in the rest of the `len * 5 / 8`
      bytes. */
  lemma DecodedBytes(base32: string)
    requires FromBase32Text(base32).Ok? && |base32| > 0
    ensures var t := ToUpper(Trim(base32)); var bs := FromBase32Text(base32).value;
      && |bs| == |t| * 5 / 8
      && (forall i :: 0 <= i < |t| / 2 ==> bs[i] == Or(Shl(And(IndexOf(t[2 * i]), 7), 5), IndexOf(t[2 * i + 1])))
      && (forall i :: |t| / 2 <= i < |bs| ==> bs[i] == 0)
  {
    var t := ToUpper(Trim(base32));
    forall i | 0 <= i < |t| / 2
      ensures Decoded(t, |t|)[i] == Or(Shl(And(IndexOf(t[2 * i]), 7), 5), IndexOf(t[2 * i + 1]))
    {
      PairBits(IndexOf(t[2 * i]), IndexOf(t[2 * i + 1]));
    }
  }

  /** `((v & 7) << 5) | w` in arithmetic. */
  lemma PairBits(v: nat, w: nat)
    requires v < 32 && w < 32
    ensures Or(Shl(And(v, 7), 5), w) == (v % 8) * 32 + w
  {
    Pow2Values();
    AndLowBits(v, 3);
    ModUnique((v % 8) * 32, 32, v % 8, 0);
    OrDisjoint((v % 8) * 32, w, 5);
  }

  /** The encoder's output for the byte `0x66` (the letter `f`) is `MY`. */
  lemma EncodeLetterF(s: seq<byte>)
    requires s == [0x66]
    ensures AsWrittenEncoding(s) == "MY"
  {
    assert Emitted(1) == 1;
    assert Quintet(s, 0) == 12 && Quintet(s, 1) == 24;
    assert Symbol(12) == 'M' && Symbol(24) == 'Y';
    assert Chars(s, 2) == [Symbol(Quintet(s, 0)), Symbol(Quintet(s, 1))];
  }

  /** The decoder turns `MY` into the single byte `0x98`. */
  lemma DecodeMY(t: string)
    requires t == "MY"
    ensures FromBase32Text(t) == Ok([0x98])
  {
    assert IsBase32(t[0]) && IsBase32(t[1]);
    TrimUntouched(t);
    ToUpperKeeps(t);
    assert IndexOf('M') == 12 && IndexOf('Y') == 24;
    assert Decoded(t, 2) == [PairByte(t, 0)];
  }

  /** Hence decoding what was encoded does not give the bytes back. */
  lemma RoundTripFails(s: seq<byte>)
    requires s == [0x66]
    ensures FromBase32Text(AsWrittenEncoding(s)) == Ok([0x98]) != Ok(s)
  {
    EncodeLetterF(s);
    DecodeMY(AsWrittenEncoding(s));
  }
}
