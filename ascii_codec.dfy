/** `Ciphers.AsciiEncode` and `Ciphers.AsciiDecode`: every character as the
    decimal number of its ASCII byte, separated by single spaces. */
module AsciiCodec {
  import opened Failures
  import opened CSharpInt
  import opened Text
  import opened Decimal

  /** `Encoding.ASCII.GetBytes` on one character: characters above U+007F
      are replaced by `?` (63). */
  function AsciiByte(c: char): (b: byte)
    ensures b < 128
    ensures c as int < 128 ==> b as int == c as int
    ensures c as int >= 128 ==> b == 63
  {
    if c as int < 128 then (c as int) as byte else 63
  }

  /** `Encoding.ASCII.GetString` on one byte: bytes above 0x7F come back
      as `?`. */
  function AsciiChar(b: byte): (c: char)
    ensures b < 128 ==> c as int == b as int
    ensures b >= 128 ==> c == '?'
  {
    if b < 128 then (b as int) as char else '?'
  }

  /** What the ASCII encoder keeps of a text: characters outside ASCII
      become `?`. */
  function AsciiOnly(s: string): (r: string)
    ensures |r| == |s|
  {
    seq(|s|, i requires 0 <= i < |s| => if s[i] as int < 128 then s[i] else '?')
  }

  /** The decimal tokens of the encoding, one per character. */
  function Codes(s: string): (ts: seq<string>)
    ensures |ts| == |s|
  {
    seq(|s|, i requires 0 <= i < |s| => NatToString(AsciiByte(s[i])))
  }

  /** `AsciiEncode(input)`: the text is empty exactly for empty input, and
      otherwise splits at its spaces into the decimal codes, one per
      character. */
  function AsciiEncode(input: string): (r: string)
    ensures r == "" <==> |input| == 0
    ensures |input| > 0 ==> SplitNonEmpty(r, " ") == Codes(input)
  {
    if |input| == 0 then ""
    else
      CodesSplit(input);
      Join(Codes(input), " ")
  }

  /** `numbers.Select(n => byte.Parse(n)).ToArray()`: the tokens read one
      after the other, the first one that fails deciding the exception. */
  function ParseBytes(tokens: seq<string>): (r: Result<seq<byte>>)
    ensures r.Fail? ==> r.error == InvalidFormat || r.error == Overflow
    ensures r.Ok? ==> |r.value| == |tokens|
  {
    if |tokens| == 0 then Ok([])
    else
      match ParseByte(tokens[0])
      case Fail(e) => Fail(e)
      case Ok(b) =>
        match ParseBytes(tokens[1..])
        case Fail(e) => Fail(e)
        case Ok(rest) => Ok([b] + rest)
  }

  /** When every token is a byte, the result is those bytes in order. */
  lemma {:induction false} ParseBytesOk(tokens: seq<string>)
    requires forall k :: 0 <= k < |tokens| ==> ParseByte(tokens[k]).Ok?
    ensures ParseBytes(tokens).Ok? && |ParseBytes(tokens).value| == |tokens|
    ensures forall k :: 0 <= k < |tokens| ==> ParseByte(tokens[k]) == Ok(ParseBytes(tokens).value[k])
  {
    if |tokens| > 0 {
      var tail := tokens[1..];
      assert forall k :: 0 <= k < |tail| ==> tail[k] == tokens[k + 1];
      ParseBytesOk(tail);
      var rest := ParseBytes(tail).value;
      var b := ParseByte(tokens[0]).value;
      assert ParseBytes(tokens) == Ok([b] + rest);
      forall k | 0 <= k < |tokens|
        ensures ParseByte(tokens[k]) == Ok(([b] + rest)[k])
      {
        if k > 0 {
          assert tokens[k] == tail[k - 1];
        }
      }
    }
  }

  /** Otherwise the first token that is not a byte gives the error. */
  lemma {:induction false} ParseBytesFail(tokens: seq<string>, k: int)
    requires 0 <= k < |tokens| && ParseByte(tokens[k]).Fail?
    requires forall j :: 0 <= j < k ==> ParseByte(tokens[j]).Ok?
    ensures ParseBytes(tokens) == Fail(ParseByte(tokens[k]).error)
  {
    if k > 0 {
      var tail := tokens[1..];
      assert forall j :: 0 <= j < |tail| ==> tail[j] == tokens[j + 1];
      ParseBytesFail(tail, k - 1);
    }
  }

  /** `Encoding.ASCII.GetString(bytes)`. */
  function AsciiString(bytes: seq<byte>): (s: string)
    ensures |s| == |bytes|
  {
    seq(|bytes|, i requires 0 <= i < |bytes| => AsciiChar(bytes[i]))
  }

  /** `GetString` after `GetBytes` keeps ASCII and turns the rest into `?`. */
  lemma StringOfBytes(s: string)
    ensures AsciiString(AsciiBytes(s)) == AsciiOnly(s)
  {
  }

  /** `AsciiDecode(input)`: blank input is refused; a token that is not a
      number is a format error; a number outside 0..255 escapes as the
      overflow error, since only `FormatException` is caught. */
  function AsciiDecode(input: string): (r: Result<string>)
    ensures IsBlank(input) ==> r == Fail(EmptyInput)
    ensures r.Ok? ==> |r.value| == |SplitNonEmpty(input, " ")|
    ensures r.Ok? ==> forall k :: 0 <= k < |r.value| ==> r.value[k] as int < 128
  {
    if IsBlank(input) then Fail(EmptyInput)
    else
      match ParseBytes(SplitNonEmpty(input, " "))
      case Fail(e) => Fail(e)
      case Ok(bytes) => Ok(AsciiString(bytes))
  }

  /** `Encoding.ASCII.GetBytes(s)`. */
  function AsciiBytes(s: string): (bs: seq<byte>)
    ensures |bs| == |s|
  {
    seq(|s|, i requires 0 <= i < |s| => AsciiByte(s[i]))
  }

  /** Decoding what was encoded gives the text back, with the characters
      outside ASCII turned into `?`. */
  lemma AsciiRoundTrip(s: string)
    requires |s| > 0
    ensures AsciiDecode(AsciiEncode(s)) == Ok(AsciiOnly(s))
  {
    CodesSplit(s);
    ParseCodes(s);
    StringOfBytes(s);
  }

  /** The codes read back as the bytes of the text. */
  lemma ParseCodes(s: string)
    ensures ParseBytes(Codes(s)) == Ok(AsciiBytes(s))
  {
    var codes := Codes(s);
    forall k | 0 <= k < |s|
      ensures ParseByte(codes[k]) == Ok(AsciiByte(s[k]))
    {
      ParseCode(s[k]);
    }
    ParseBytesOk(codes);
    var r := ParseBytes(codes).value;
    assert forall k :: 0 <= k < |s| ==> r[k] == AsciiBytes(s)[k];
    assert r == AsciiBytes(s);
  }

  /** The token of one character reads back as its byte. */
  lemma ParseCode(c: char)
    ensures ParseByte(NatToString(AsciiByte(c))) == Ok(AsciiByte(c))
  {
    var b := AsciiByte(c);
    ParseDigits(NatToString(b));
  }

  /** The encoding is not blank, and its tokens are the codes. */
  lemma CodesSplit(s: string)
    requires |s| > 0
    ensures !IsBlank(Join(Codes(s), " "))
    ensures SplitNonEmpty(Join(Codes(s), " "), " ") == Codes(s)
  {
    var codes := Codes(s);
    var text := Join(codes, " ");
    forall k | 0 <= k < |codes| ensures codes[k] != [] && IsDigits(codes[k]) {
    }
    assert forall k, i :: 0 <= k < |codes| && 0 <= i < |codes[k]| ==> codes[k][i] != ' ';
    SplitNonEmptyJoin(codes, ' ');
    JoinEnds(codes, " ");
    assert !IsWhiteSpace(text[0]) by { assert text[0] == codes[0][0]; }
  }

  /** Every character of the encoding is a decimal digit or a space. */
  lemma AsciiEncodeAlphabet(s: string)
    ensures forall i :: 0 <= i < |AsciiEncode(s)| ==> AsciiEncode(s)[i] in "0123456789 "
  {
    if |s| > 0 {
      var codes := Codes(s);
      var alphabet := set c | c in "0123456789 ";
      forall k, i | 0 <= k < |codes| && 0 <= i < |codes[k]| ensures codes[k][i] in alphabet {
        assert IsDigit(codes[k][i]);
      }
      JoinChars(codes, " ", alphabet);
    }
  }

  /** Only blank input is refused as empty; every other failure is a token
      that is not a number or a number outside 0..255. */
  lemma AsciiDecodeErrors(input: string)
    ensures AsciiDecode(input) == Fail(EmptyInput) <==> IsBlank(input)
    ensures AsciiDecode(input).Fail? && !IsBlank(input) ==>
      AsciiDecode(input).error == InvalidFormat || AsciiDecode(input).error == Overflow
  {
  }

  /** The first token that is not a byte decides the error: a number above
      255 escapes as an overflow, anything else that is not a number is a
      format error. */
  lemma DecodeFailsAt(input: string, k: int)
    requires !IsBlank(input)
    requires 0 <= k < |SplitNonEmpty(input, " ")| && ParseByte(SplitNonEmpty(input, " ")[k]).Fail?
    requires forall j :: 0 <= j < k ==> ParseByte(SplitNonEmpty(input, " ")[j]).Ok?
    ensures AsciiDecode(input) == Fail(ParseByte(SplitNonEmpty(input, " ")[k]).error)
  {
    ParseBytesFail(SplitNonEmpty(input, " "), k);
  }

  /** A single token is read as itself. */
  lemma OneToken(a: string)
    requires a != [] && !IsWhiteSpace(a[0]) && ' ' !in a
    ensures !IsBlank(a) && SplitNonEmpty(a, " ") == [a]
  {
    SplitGlue(a, "", " ");
    assert a + "" == a;
  }

  /** A number above 255 is an overflow, not a format error. */
  lemma OverflowExample(b: string)
    requires b == "300"
    ensures AsciiDecode(b) == Fail(Overflow)
  {
    assert !IsWhiteSpace(b[0]) && ' ' !in b;
    OneToken(b);
    ParseThreeHundred(b);
    DecodeFailsAt(b, 0);
  }

  /** Text that is not a number is a format error. */
  lemma FormatExample(b: string)
    requires b == "x"
    ensures AsciiDecode(b) == Fail(InvalidFormat)
  {
    assert !IsWhiteSpace(b[0]) && ' ' !in b;
    OneToken(b);
    assert ParseByte(b) == Fail(InvalidFormat) by { ParseRejects(b, 0); }
    DecodeFailsAt(b, 0);
  }

  lemma ParseThreeHundred(b: string)
    requires b == "300"
    ensures ParseByte(b) == Fail(Overflow)
  {
    assert b[..1] == "3" && b[..2] == "30";
    assert Value(b[..1]) == 3;
    assert Value(b[..2]) == 30;
    ParseDigits(b);
  }

  /** `AsciiEncode("AB")` is `"65 66"`. */
  lemma EncodeExample(input: string)
    requires input == "AB"
    ensures AsciiEncode(input) == "65 66"
  {
    EncodeLetters();
    assert input == ['A', 'B'];
  }

  lemma EncodeLetters()
    ensures AsciiEncode(['A', 'B']) == "65 66"
  {
    EncodeTwoChars('A', 'B');
    assert NatToString(65) == "65" && NatToString(66) == "66";
  }

  /** Two characters encode to their two codes. */
  lemma EncodeTwoChars(x: char, y: char)
    ensures AsciiEncode([x, y]) == NatToString(AsciiByte(x)) + " " + NatToString(AsciiByte(y))
  {
    assert Codes([x, y]) == [NatToString(AsciiByte(x)), NatToString(AsciiByte(y))];
    JoinCons(NatToString(AsciiByte(x)), [NatToString(AsciiByte(y))], " ");
  }

  /** Blank input is refused. */
  lemma DecodeBlankExample()
    ensures AsciiDecode(" \t") == Fail(EmptyInput)
  {
  }
}
