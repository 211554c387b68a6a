/** `Ciphers.BinaryEncode` and `Ciphers.BinaryDecode`, over the bytes of the
    text: every byte becomes eight binary digits, most significant first, and
    the groups are separated by single spaces. */
module BinaryCodec {
  import opened Failures
  import opened CSharpInt
  import opened Text
  import opened Decimal

  predicate IsBit(c: char) { c == '0' || c == '1' }

  predicate IsBits(s: string)
  {
    forall i :: 0 <= i < |s| ==> IsBit(s[i])
  }

  /** The number a string of binary digits denotes, most significant digit
      first (`Convert.ToByte(s, 2)` once the digits are checked); it is below
      two to the number of digits. */
  function BinaryValue(s: string): (v: nat)
    requires IsBits(s)
    ensures v < Pow2(|s|)
  {
    if |s| == 0 then 0
    else 2 * BinaryValue(s[..|s| - 1]) + (if s[|s| - 1] == '1' then 1 else 0)
  }

  /** `Convert.ToString(n, 2)`: the binary digits of `n` without leading zeros. */
  function ToBinary(n: nat): (s: string)
    ensures |s| >= 1 && IsBits(s)
    ensures BinaryValue(s) == n
    ensures |s| > 1 ==> s[0] == '1'
  {
    var last := if n % 2 == 1 then '1' else '0';
    if n < 2 then
      [last]
    else
      var head := ToBinary(n / 2);
      var s := head + [last];
      assert s[..|s| - 1] == head;
      s
  }

  /** `PadLeft(width, c)`. */
  function PadLeft(s: string, width: nat, c: char): (r: string)
    ensures |r| == if |s| >= width then |s| else width
    ensures s <= r[|r| - |s|..] && forall i :: 0 <= i < |r| - |s| ==> r[i] == c
  {
    if |s| >= width then s else seq(width - |s|, _ => c) + s
  }

  /** One byte: `Convert.ToString(b, 2).PadLeft(8, '0')`, eight binary
      digits that read back as the byte. */
  function ByteBits(b: byte): (s: string)
    ensures |s| == 8 && IsBits(s) && BinaryValue(s) == b
  {
    var digits := ToBinary(b);
    Pow2Eight();
    ToBinaryLength(b, 8);
    var zeros := seq(8 - |digits|, _ => '0');
    LeadingZeros(zeros, digits);
    var s := PadLeft(digits, 8, '0');
    assert s == zeros + digits;
    s
  }

  lemma Pow2Eight()
    ensures Pow2(8) == 256
  {
  }

  /** `Convert.ToString` needs no more than `k` digits below `2^k`. */
  lemma {:induction false} ToBinaryLength(n: nat, k: nat)
    requires k >= 1 && n < Pow2(k)
    ensures |ToBinary(n)| <= k
  {
    if n >= 2 {
      assert k > 1 && Pow2(k) == 2 * Pow2(k - 1);
      ToBinaryLength(n / 2, k - 1);
      assert |ToBinary(n)| == |ToBinary(n / 2)| + 1;
    }
  }

  /** Leading zeros do not change the value of binary digits. */
  lemma {:induction false} LeadingZeros(z: string, s: string)
    requires forall i :: 0 <= i < |z| ==> z[i] == '0'
    requires IsBits(s)
    ensures IsBits(z + s) && BinaryValue(z + s) == BinaryValue(s)
  {
    if |s| == 0 {
      assert z + s == z;
      if |z| > 0 {
        LeadingZeros(z[..|z| - 1], "");
        assert z[..|z| - 1] + "" == z[..|z| - 1];
      }
    } else {
      var t := z + s;
      assert t[..|t| - 1] == z + s[..|s| - 1];
      LeadingZeros(z, s[..|s| - 1]);
    }
  }

  /** The byte groups of `BinaryEncode`. */
  function Groups(bytes: seq<byte>): (g: seq<string>)
    ensures |g| == |bytes|
  {
    seq(|bytes|, i requires 0 <= i < |bytes| => ByteBits(bytes[i]))
  }

  /** `BinaryEncode`, given the bytes of the text: the text is empty exactly
      for no bytes, and otherwise splits at its spaces into eight-bit groups,
      one per byte. */
  function BinaryEncode(bytes: seq<byte>): (r: string)
    ensures r == "" <==> |bytes| == 0
    ensures |bytes| > 0 ==> SplitNonEmpty(r, " ") == Groups(bytes)
  {
    if |bytes| == 0 then ""
    else
      GroupsSplit(bytes);
      Join(Groups(bytes), " ")
  }

  /** A token `BinaryDecode` accepts: exactly eight characters `0` or `1`. */
  predicate IsByteToken(t: string)
  {
    |t| == 8 && IsBits(t)
  }

  /** What `BinaryDecode` returns, as bytes: blank input is refused, any token
      that is not eight binary digits is a format error, and otherwise every
      token is one byte. */
  function BinaryDecodeText(input: string): Result<seq<byte>>
  {
    if IsBlank(input) then Fail(EmptyInput)
    else
      var tokens := SplitNonEmpty(input, " ");
      if !AllByteTokens(tokens) then Fail(InvalidFormat) else Ok(TokenValues(tokens))
  }

  predicate AllByteTokens(tokens: seq<string>)
  {
    forall k :: 0 <= k < |tokens| ==> IsByteToken(tokens[k])
  }

  /** `Convert.ToByte(token, 2)` of every token. */
  function TokenValues(tokens: seq<string>): (bs: seq<byte>)
    requires AllByteTokens(tokens)
    ensures |bs| == |tokens|
  {
    seq(|tokens|, k requires 0 <= k < |tokens| => BinaryValue(tokens[k]) as byte)
  }

  /** The source's validation loop over the tokens, then their conversion. */
  method BinaryDecode(input: string) returns (r: Result<seq<byte>>)
    ensures r == BinaryDecodeText(input)
  {
    if IsBlank(input) {
      return Fail(EmptyInput);
    }
    var binaryStrings := SplitNonEmpty(input, " ");
    var k := 0;
    while k < |binaryStrings|
      invariant 0 <= k <= |binaryStrings|
      invariant forall j :: 0 <= j < k ==> IsByteToken(binaryStrings[j])
    {
      var binary := binaryStrings[k];
      if |binary| != 8 || !IsBits(binary) {
        assert !IsByteToken(binaryStrings[k]);
        return Fail(InvalidFormat);
      }
      k := k + 1;
    }
    var bytes := [];
    k := 0;
    while k < |binaryStrings|
      invariant 0 <= k <= |binaryStrings|
      invariant |bytes| == k
      invariant forall j :: 0 <= j < k ==> bytes[j] == BinaryValue(binaryStrings[j]) as byte
    {
      bytes := bytes + [BinaryValue(binaryStrings[k]) as byte];
      k := k + 1;
    }
    assert bytes == TokenValues(binaryStrings);
    r := Ok(bytes);
  }

  /** Decoding what was encoded gives the bytes back, for every non-empty
      byte sequence. */
  lemma BinaryRoundTrip(bytes: seq<byte>)
    requires |bytes| > 0
    ensures BinaryDecodeText(BinaryEncode(bytes)) == Ok(bytes)
  {
    GroupsSplit(bytes);
    GroupValues(bytes);
  }

  /** Every group is a byte token whose value is its byte. */
  lemma GroupValues(bytes: seq<byte>)
    ensures AllByteTokens(Groups(bytes)) && TokenValues(Groups(bytes)) == bytes
  {
    var groups := Groups(bytes);
    assert forall k :: 0 <= k < |groups| ==> groups[k] == ByteBits(bytes[k]);
    assert TokenValues(groups) == bytes;
  }

  /** The encoding is not blank, and its tokens are the byte groups. */
  lemma GroupsSplit(bytes: seq<byte>)
    requires |bytes| > 0
    ensures !IsBlank(Join(Groups(bytes), " "))
    ensures SplitNonEmpty(Join(Groups(bytes), " "), " ") == Groups(bytes)
  {
    GroupValues(bytes);
    TokensSplit(Groups(bytes));
  }

  /** Byte tokens joined by spaces split back into themselves. */
  lemma TokensSplit(groups: seq<string>)
    requires |groups| > 0 && AllByteTokens(groups)
    ensures !IsBlank(Join(groups, " "))
    ensures SplitNonEmpty(Join(groups, " "), " ") == groups
  {
    var text := Join(groups, " ");
    assert forall k :: 0 <= k < |groups| ==> groups[k] != [] by {
      forall k | 0 <= k < |groups| ensures groups[k] != [] {
        assert IsByteToken(groups[k]);
      }
    }
    assert forall k, i :: 0 <= k < |groups| && 0 <= i < |groups[k]| ==> groups[k][i] != ' ' by {
      forall k, i | 0 <= k < |groups| && 0 <= i < |groups[k]| ensures groups[k][i] != ' ' {
        assert IsByteToken(groups[k]);
        assert IsBit(groups[k][i]);
      }
    }
    SplitNonEmptyJoin(groups, ' ');
    assert !IsBlank(text) by {
      JoinEnds(groups, " ");
      assert IsByteToken(groups[0]);
      assert text[0] == groups[0][0];
    }
  }

  /** Every character of the encoding is a binary digit or a space. */
  lemma BinaryEncodeAlphabet(bytes: seq<byte>)
    ensures forall i :: 0 <= i < |BinaryEncode(bytes)| ==> BinaryEncode(bytes)[i] in {'0', '1', ' '}
  {
    if |bytes| > 0 {
      GroupValues(bytes);
      TokensAlphabet(Groups(bytes));
    }
  }

  lemma TokensAlphabet(groups: seq<string>)
    requires AllByteTokens(groups)
    ensures forall i :: 0 <= i < |Join(groups, " ")| ==> Join(groups, " ")[i] in {'0', '1', ' '}
  {
    assert forall k, i :: 0 <= k < |groups| && 0 <= i < |groups[k]| ==> groups[k][i] in {'0', '1', ' '} by {
      forall k, i | 0 <= k < |groups| && 0 <= i < |groups[k]| ensures groups[k][i] in {'0', '1', ' '} {
        assert IsByteToken(groups[k]);
        assert IsBit(groups[k][i]);
      }
    }
    JoinChars(groups, " ", {'0', '1', ' '});
  }

  /** A text whose last group is not eight binary digits is refused. */
  lemma RejectsLastGroup(a: string, t: string)
    requires t != [] && !IsByteToken(t) && !IsWhiteSpace(t[0])
    requires forall i :: 0 <= i < |t| ==> t[i] != ' '
    ensures BinaryDecodeText(a + " " + t) == Fail(InvalidFormat)
  {
    var input := a + " " + t;
    assert input == a + [' '] + t;
    SplitNonEmptyConcat(a, ' ', t);
    SplitGlue(t, "", " ");
    assert t + "" == t;
    assert SplitNonEmpty(t, " ") == [t];
    var tokens := SplitNonEmpty(input, " ");
    assert tokens[|tokens| - 1] == t;
    assert !IsBlank(input) by { assert input[|a| + 1] == t[0]; }
  }

  /** A group of three digits is refused, and so is blank text. */
  lemma BinaryDecodeErrors()
    ensures BinaryDecodeText("0100 0001 001") == Fail(InvalidFormat)
    ensures BinaryDecodeText("  ") == Fail(EmptyInput)
  {
    assert "0100 0001 001" == "0100 0001" + " " + "001";
    RejectsLastGroup("0100 0001", "001");
  }

  /** Eight digits are fixed by their value. */
  lemma {:induction false} BitsDetermined(s: string, t: string)
    requires IsBits(s) && IsBits(t) && |s| == |t| && BinaryValue(s) == BinaryValue(t)
    ensures s == t
  {
    if |s| > 0 {
      var s', t' := s[..|s| - 1], t[..|t| - 1];
      BitsDetermined(s', t');
      assert s == s' + [s[|s| - 1]] && t == t' + [t[|t| - 1]];
    }
  }
}
