/** `Ciphers.A1Z26Encode` and `Ciphers.A1Z26Decode`: letters as their
    position in the Latin alphabet (A = 1 ... Z = 26), joined by hyphens. */
module A1Z26Cipher {
  import opened Failures
  import opened Text
  import opened Tables
  import opened Decimal
  import opened CSharpInt

  /** The token one character of the upper-cased text becomes: the position
      of a Latin letter, the position of the transliteration of a Russian
      letter (the apostrophe of Ъ and Ь gives -25), or the character itself. */
  function Token(c: char): (t: string)
    ensures |t| >= 1
  {
    if 'A' <= c <= 'Z' then IntToString(c as int - 'A' as int + 1)
    else if Translit(c).Some? then IntToString(ToUpperChar(Translit(c).value) as int - 'A' as int + 1)
    else [c]
  }

  function Tokens(u: string): (ts: seq<string>)
    ensures |ts| == |u|
  {
    seq(|u|, i requires 0 <= i < |u| => Token(u[i]))
  }

  /** What `A1Z26Encode(input)` returns. */
  function A1Z26EncodeText(input: string): string
  {
    if |input| == 0 then "" else Join(Tokens(ToUpper(input)), "-")
  }

  /** The source's loop over the upper-cased text, collecting tokens in a list. */
  method A1Z26Encode(input: string) returns (r: string)
    ensures r == A1Z26EncodeText(input)
  {
    if |input| == 0 {
      return "";
    }
    var upper := ToUpper(input);
    var result: seq<string> := [];
    var i := 0;
    while i < |upper|
      invariant 0 <= i <= |upper|
      invariant result == Tokens(upper)[..i]
    {
      var token := EncodeChar(upper[i]);
      PrefixSnoc(Tokens(upper), i);
      result := result + [token];
      i := i + 1;
    }
    assert result == Tokens(upper);
    r := Join(result, "-");
  }

  /** The body of the source's loop: the token of one character. */
  method EncodeChar(c: char) returns (token: string)
    ensures token == Token(c)
  {
    if 'A' <= c <= 'Z' {
      token := IntToString(c as int - 'A' as int + 1);
    } else if Translit(c).Some? {
      var latin := Translit(c).value;
      token := IntToString(ToUpperChar(latin) as int - 'A' as int + 1);
    } else {
      token := [c];
    }
  }

  /** One hyphen-separated part of the input: a number from 1 to 26 becomes
      its letter, anything else is kept as it is. */
  function Piece(part: string): string
  {
    match TryParseInt32(part)
    case Some(num) => if 1 <= num <= 26 then [('A' as int + num - 1) as char] else part
    case None => part
  }

  /** The pieces of all parts, one after the other, with nothing between them. */
  function DecodeParts(parts: seq<string>): string
  {
    if |parts| == 0 then "" else DecodeParts(parts[..|parts| - 1]) + Piece(parts[|parts| - 1])
  }

  /** What `A1Z26Decode(input)` returns; it never throws. */
  function A1Z26DecodeText(input: string): string
  {
    if IsBlank(input) then "" else DecodeParts(SplitNonEmpty(input, "-"))
  }

  /** The source's loop over the parts, appending to a `StringBuilder`. */
  method A1Z26Decode(input: string) returns (r: string)
    ensures r == A1Z26DecodeText(input)
  {
    if IsBlank(input) {
      return "";
    }
    var parts := SplitNonEmpty(input, "-");
    var result := "";
    var k := 0;
    while k < |parts|
      invariant 0 <= k <= |parts|
      invariant result == DecodeParts(parts[..k])
    {
      var part := parts[k];
      var parsed := TryParseInt32(part);
      DecodeTurn(parts, k, result, parsed);
      if parsed.Some? && parsed.value >= 1 && parsed.value <= 26 {
        result := result + [('A' as int + parsed.value - 1) as char];
      } else {
        result := result + part;
      }
      k := k + 1;
    }
    assert parts[..k] == parts;
    r := result;
  }

  /** One turn of the decoder's loop appends the piece of part `k`. */
  lemma DecodeTurn(parts: seq<string>, k: nat, result: string, parsed: Option<int32>)
    requires k < |parts| && result == DecodeParts(parts[..k]) && parsed == TryParseInt32(parts[k])
    ensures parsed.Some? && 1 <= parsed.value <= 26 ==> DecodeParts(parts[..k + 1]) == result + [('A' as int + parsed.value - 1) as char]
    ensures !(parsed.Some? && 1 <= parsed.value <= 26) ==> DecodeParts(parts[..k + 1]) == result + parts[k]
  {
    assert parts[..k + 1][..k] == parts[..k];
  }

  /** The token of a Latin capital is its position, in digits. */
  lemma LetterToken(c: char)
    requires IsLatinUpper(c)
    ensures Token(c) == NatToString(c as int - 'A' as int + 1)
    ensures Piece(Token(c)) == [c]
  {
    var n := c as int - 'A' as int + 1;
    var t := NatToString(n);
    assert Token(c) == IntToString(n) == t;
    ParseToString(n);
    assert TryParseInt32(t) == Some(n);
    assert ('A' as int + n - 1) as char == c;
    PieceOfNumber(t, n);
  }

  /** A part that parses as a number from 1 to 26 is replaced by its letter. */
  lemma PieceOfNumber(t: string, n: int)
    requires TryParseInt32(t) == Some(n) && 1 <= n <= 26
    ensures Piece(t) == [('A' as int + n - 1) as char]
  {
  }

  /** Decoding the tokens of upper-case Latin text gives the text back. */
  lemma {:induction false} DecodeTokens(u: string)
    requires forall i :: 0 <= i < |u| ==> IsLatinUpper(u[i])
    ensures DecodeParts(Tokens(u)) == u
  {
    if |u| > 0 {
      var n := |u| - 1;
      assert Tokens(u)[..n] == Tokens(u[..n]);
      DecodeTokens(u[..n]);
      LetterToken(u[n]);
      LastSplit(u);
    }
  }

  lemma LastSplit(u: string)
    requires |u| > 0
    ensures u[..|u| - 1] + [u[|u| - 1]] == u
  {
  }

  /** Decoding undoes encoding for text made of Latin letters, up to case. */
  lemma A1Z26RoundTrip(s: string)
    requires forall i :: 0 <= i < |s| ==> IsLatinLower(s[i]) || IsLatinUpper(s[i])
    ensures A1Z26DecodeText(A1Z26EncodeText(s)) == ToUpper(s)
  {
    if |s| > 0 {
      var u := ToUpper(s);
      assert forall i :: 0 <= i < |u| ==> IsLatinUpper(u[i]);
      TokensSplitBack(u);
      DecodeTokens(u);
    }
  }

  /** The joined tokens of a text of Latin capitals split back into those
      tokens, and the joined text is not blank. */
  lemma TokensSplitBack(u: string)
    requires |u| > 0 && forall i :: 0 <= i < |u| ==> IsLatinUpper(u[i])
    ensures SplitNonEmpty(Join(Tokens(u), "-"), "-") == Tokens(u) && !IsBlank(Join(Tokens(u), "-"))
  {
    var tokens := Tokens(u);
    var text := Join(tokens, "-");
    forall k | 0 <= k < |tokens|
      ensures tokens[k] != [] && IsDigits(tokens[k])
    {
      LetterToken(u[k]);
    }
    assert forall k, i :: 0 <= k < |tokens| && 0 <= i < |tokens[k]| ==> tokens[k][i] != '-';
    SplitNonEmptyJoin(tokens, '-');
    JoinEnds(tokens, "-");
    assert !IsWhiteSpace(text[0]) by { assert text[0] == tokens[0][0]; }
  }

  /** Two parts decode to their two pieces side by side: no separator is put
      back between them. */
  lemma DecodeTwoParts(a: string, b: string)
    requires a != [] && b != [] && !IsWhiteSpace(a[0])
    requires '-' !in a && '-' !in b
    ensures A1Z26DecodeText(a + "-" + b) == Piece(a) + Piece(b)
  {
    var input := a + "-" + b;
    assert input == a + ['-'] + b;
    SplitNonEmptyConcat(a, '-', b);
    SplitGlue(a, "", "-");
    SplitGlue(b, "", "-");
    assert a + "" == a && b + "" == b;
    assert SplitNonEmpty(a, "-") == [a];
    assert SplitNonEmpty(b, "-") == [b];
    assert SplitNonEmpty(input, "-") == [a, b];
    DecodePair(a, b);
    assert !IsBlank(input) by { assert input[0] == a[0]; }
  }

  lemma DecodePair(a: string, b: string)
    ensures DecodeParts([a, b]) == Piece(a) + Piece(b)
  {
    assert [a, b][..1] == [a];
    assert [a][..0] == [];
    assert DecodeParts([a]) == "" + Piece(a);
    assert "" + Piece(a) == Piece(a);
  }

  lemma EncodeExample(input: string)
    requires input == "AB"
    ensures A1Z26EncodeText(input) == "1-2"
  {
    assert Token('A') == "1" && Token('B') == "2";
    EncodeTwo('A', 'B');
    assert input == ['A', 'B'];
  }

  lemma PieceOne()
    ensures Piece("1") == "A"
  {
    PieceOfDigit('1');
    assert "1" == ['1'];
  }

  /** A one-digit part other than `0` is its letter. */
  lemma PieceOfDigit(d: char)
    requires '1' <= d <= '9'
    ensures Piece([d]) == [('A' as int + (d as int - '0' as int) - 1) as char]
  {
    var t := [d];
    assert t[..0] == [];
    assert Value(t) == d as int - '0' as int;
    ParseDigits(t);
    PieceOfNumber(t, d as int - '0' as int);
  }

  lemma PieceTwentyFive()
    ensures Piece("25") == "Y"
  {
    ParseDigits("25");
    PieceOfNumber("25", 25);
  }

  lemma PieceNinetyNine()
    ensures Piece("99") == "99"
  {
    ParseDigits("99");
  }

  /** A number outside 1..26 is copied, and glued to the letter before it. */
  lemma DecodeOutOfRangeExample(input: string)
    requires input == "1-99"
    ensures A1Z26DecodeText(input) == "A99"
  {
    DecodeOneNinetyNine();
    assert input == "1" + "-" + "99";
  }

  lemma DecodeOneNinetyNine()
    ensures A1Z26DecodeText("1" + "-" + "99") == "A99"
  {
    DecodeOneNinetyNineParts();
    PiecesOneNinetyNine();
  }

  lemma DecodeOneNinetyNineParts()
    ensures A1Z26DecodeText("1" + "-" + "99") == Piece("1") + Piece("99")
  {
    DecodeTwoParts("1", "99");
  }

  lemma PiecesOneNinetyNine()
    ensures Piece("1") + Piece("99") == "A99"
  {
    PieceOne();
    PieceNinetyNine();
  }

  /** Blank input decodes to the empty string instead of throwing. */
  lemma DecodeBlankExample()
    ensures A1Z26DecodeText(" \t ") == ""
  {
  }

  /** `Ъ` becomes the token `-25` ... */
  lemma HardSignEncodeExample(input: string)
    requires input == "Ъ"
    ensures A1Z26EncodeText(input) == "-25"
  {
    SignTokens();
    assert ToUpper(input) == input;
    assert Tokens(input) == ["-25"];
  }

  /** A small soft sign is upper-cased to `Ь` before the lookup, so it
      encodes like the hard sign. */
  lemma SoftSignEncodeExample(input: string)
    requires input == "ь"
    ensures A1Z26EncodeText(input) == "-25"
  {
    SignTokens();
    assert ToUpper(input) == "Ь";
    assert Tokens(ToUpper(input)) == ["-25"];
  }

  /** ... which the decoder reads back as `Y`: the hyphen is taken for a
      separator. */
  lemma HardSignDecodeExample(code: string)
    requires code == "-25"
    ensures A1Z26DecodeText(code) == "Y"
  {
    DecodeMinusTwentyFive();
    assert code == "-" + "25";
  }

  lemma DecodeMinusTwentyFive()
    ensures A1Z26DecodeText("-" + "25") == "Y"
  {
    LeadingHyphen("25");
    PieceTwentyFive();
  }

  /** The hard and the soft sign both transliterate to `'`, whose distance
      from `A` is -25. */
  lemma SignTokens()
    ensures Token('Ъ') == "-25" && Token('Ь') == "-25"
  {
    assert Translit('Ъ') == Some('\'') && Translit('Ь') == Some('\'');
    assert IntToString(-25) == "-" + NatToString(25);
    assert NatToString(25) == "25";
  }

  lemma LeadingHyphen(b: string)
    requires b != [] && '-' !in b
    ensures A1Z26DecodeText("-" + b) == Piece(b)
  {
    var input := "-" + b;
    assert SplitNonEmpty(input, "-") == [b] by {
      assert input == "" + ['-'] + b;
      SplitNonEmptyConcat("", '-', b);
      SplitGlue(b, "", "-");
      assert b + "" == b;
      assert Split("", "-") == [""];
    }
    assert DecodeParts([b]) == Piece(b) by {
      assert [b][..0] == [];
      assert "" + Piece(b) == Piece(b);
    }
    assert !IsBlank(input) by {
      assert !IsWhiteSpace(input[0]);
    }
  }

  /** Two characters without lower-case forms encode to their two tokens. */
  lemma EncodeTwo(x: char, y: char)
    requires ToUpperChar(x) == x && ToUpperChar(y) == y
    ensures A1Z26EncodeText([x, y]) == Token(x) + "-" + Token(y)
  {
    assert ToUpper([x, y]) == [x, y];
    assert Tokens([x, y]) == [Token(x), Token(y)];
    JoinCons(Token(x), [Token(y)], "-");
  }

  /** Digits in the text are indistinguishable from letters once encoded. */
  lemma DigitsCollide(digit: string, letters: string)
    requires digit == "A1" && letters == "AA"
    ensures A1Z26EncodeText(digit) == A1Z26EncodeText(letters) == "1-1"
  {
    EncodeDigitExample(digit);
    EncodeLettersExample(letters);
  }

  lemma EncodeDigitExample(input: string)
    requires input == "A1"
    ensures A1Z26EncodeText(input) == "1-1"
  {
    DigitOneToken();
    EncodeTwo('A', '1');
    assert input == ['A', '1'];
  }

  lemma DigitOneToken()
    ensures Token('A') == "1" && Token('1') == "1"
  {
    assert Translit('1') == None;
    assert NatToString(1) == "1";
  }

  lemma EncodeLettersExample(input: string)
    requires input == "AA"
    ensures A1Z26EncodeText(input) == "1-1"
  {
    assert Token('A') == "1";
    EncodeTwo('A', 'A');
    assert input == ['A', 'A'];
  }
}
