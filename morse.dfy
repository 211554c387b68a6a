/** `Ciphers.MorseEncode` and `Ciphers.MorseDecode`.  Letters are separated
    by one space; the space character has the code `/`, so words end up
    separated by " / ". */
module Morse {
  import opened Failures
  import opened Text
  import opened Tables

  // ---------------------------------------------------------------- encoding

  /** The token one character contributes: its own code (after upper-casing),
      else the code of its transliteration, else "?".  A transliteration
      without a code (the apostrophe of Ъ, Ь, ъ, ь) makes the indexer
      `MorseMap[...]` throw; these four signs are the only characters that
      fail. */
  function EncodeChar(c: char): (r: Result<string>)
    ensures r.Fail? <==> c in "ЪЬъь"
    ensures r.Fail? ==> r.error == KeyNotFound
  {
    TranslitCode(c);
    KeysInRange(ToUpperChar(c));
    var u := ToUpperChar(c);
    if Code(u).Some? then Ok(Code(u).value)
    else if Translit(c).Some? then
      var latin := ToUpperChar(Translit(c).value);
      if Code(latin).Some? then Ok(Code(latin).value) else Fail(KeyNotFound)
    else Ok("?")
  }

  /** A transliteration has a code exactly when it is not the apostrophe of
      one of the four signs. */
  lemma TranslitCode(c: char)
    ensures Translit(c).Some? ==> (Code(ToUpperChar(Translit(c).value)).Some? <==> c !in "ЪЬъь")
  {
    if Translit(c).Some? {
      TranslitShape(c);
      KeysInRange(ToUpperChar(Translit(c).value));
    }
  }

  /** What `MorseEncode(input)` returns: the tokens of the characters joined
      by single spaces, or the exception of the first character that has none. */
  function MorseEncodeText(input: string): Result<string>
  {
    if |input| == 0 then Ok("")
    else if exists i :: 0 <= i < |input| && EncodeChar(input[i]).Fail? then Fail(KeyNotFound)
    else Ok(Join(seq(|input|, i requires 0 <= i < |input| => EncodeChar(input[i]).value), " "))
  }

  /** The text the `StringBuilder` holds: each token followed by a space. */
  function Spaced(tokens: seq<string>): string
  {
    if |tokens| == 0 then "" else Spaced(tokens[..|tokens| - 1]) + tokens[|tokens| - 1] + " "
  }

  /** The source's loop, which appends `token + " "` and trims at the end. */
  method MorseEncode(input: string) returns (r: Result<string>)
    ensures r == MorseEncodeText(input)
  {
    if |input| == 0 {
      return Ok("");
    }
    var result := "";
    var tokens: seq<string> := [];
    var i := 0;
    while i < |input|
      invariant 0 <= i <= |input|
      invariant |tokens| == i && TokensOf(input, tokens)
      invariant result == Spaced(tokens)
    {
      var c := input[i];
      var token: string;
      var u := ToUpperChar(c);
      if Code(u).Some? {
        token := Code(u).value;
      } else if Translit(c).Some? {
        var latin := Translit(c).value;
        if Code(ToUpperChar(latin)).None? {
          assert EncodeChar(input[i]).Fail?;
          return Fail(KeyNotFound);
        }
        token := Code(ToUpperChar(latin)).value;
      } else {
        token := "?";
      }
      assert EncodeChar(c) == Ok(token);
      TokensOfSnoc(input, tokens, token);
      assert (tokens + [token])[..i] == tokens;
      result := result + token + " ";
      tokens := tokens + [token];
      i := i + 1;
    }
    EncodedAll(input, tokens);
    r := Ok(Trim(result));
  }

  /** `tokens` are the tokens of the first `|tokens|` characters of `input`. */
  predicate TokensOf(input: string, tokens: seq<string>)
  {
    |tokens| <= |input| && forall j :: 0 <= j < |tokens| ==> EncodeChar(input[j]) == Ok(tokens[j])
  }

  lemma TokensOfSnoc(input: string, tokens: seq<string>, token: string)
    requires TokensOf(input, tokens) && |tokens| < |input|
    requires EncodeChar(input[|tokens|]) == Ok(token)
    ensures TokensOf(input, tokens + [token])
  {
    var next := tokens + [token];
    forall j | 0 <= j < |next| ensures EncodeChar(input[j]) == Ok(next[j]) {
      if j < |tokens| {
        assert next[j] == tokens[j];
      }
    }
  }

  /** When every character has a token, the trimmed builder text is the result. */
  lemma EncodedAll(input: string, tokens: seq<string>)
    requires |input| > 0 && |tokens| == |input| && TokensOf(input, tokens)
    ensures MorseEncodeText(input) == Ok(Trim(Spaced(tokens)))
  {
    assert tokens == seq(|input|, i requires 0 <= i < |input| => EncodeChar(input[i]).value);
    TokensShape(input, tokens);
    SpacedTrim(tokens);
  }

  /** Every token is a code from the table or "?". */
  lemma EncodeCharShape(c: char)
    requires EncodeChar(c).Ok?
    ensures var t := EncodeChar(c).value;
      t == "?" || exists d :: Code(d) == Some(t)
  {
  }

  /** No token is empty, and none starts or ends with white space. */
  lemma TokensShape(input: string, tokens: seq<string>)
    requires |tokens| == |input|
    requires forall j :: 0 <= j < |input| ==> EncodeChar(input[j]) == Ok(tokens[j])
    ensures forall j :: 0 <= j < |tokens| ==>
      (tokens[j] != [] && !IsWhiteSpace(tokens[j][0]) && !IsWhiteSpace(tokens[j][|tokens[j]| - 1]))
  {
    forall j | 0 <= j < |tokens|
      ensures tokens[j] != [] && !IsWhiteSpace(tokens[j][0]) && !IsWhiteSpace(tokens[j][|tokens[j]| - 1])
    {
      var c := input[j];
      if Code(ToUpperChar(c)).Some? {
        CodeShape(ToUpperChar(c));
      } else if Translit(c).Some? {
        CodeShape(ToUpperChar(Translit(c).value));
      }
    }
  }

  /** The tokens with a space after each are the join of the tokens and one
      more space. */
  lemma {:induction false} SpacedJoin(tokens: seq<string>)
    requires |tokens| >= 1
    ensures Spaced(tokens) == Join(tokens, " ") + " "
  {
    var n := |tokens|;
    var init := tokens[..n - 1];
    if n == 1 {
      assert Spaced(init) == "";
      assert "" + tokens[0] + " " == tokens[0] + " ";
    } else {
      SpacedJoin(init);
      assert init + [tokens[n - 1]] == tokens;
      JoinSnoc(init, tokens[n - 1], " ");
    }
  }

  /** ... so trimming the builder's text gives the join. */
  lemma SpacedTrim(tokens: seq<string>)
    requires |tokens| >= 1
    requires forall j :: 0 <= j < |tokens| ==>
      (tokens[j] != [] && !IsWhiteSpace(tokens[j][0]) && !IsWhiteSpace(tokens[j][|tokens[j]| - 1]))
    ensures Trim(Spaced(tokens)) == Join(tokens, " ")
  {
    SpacedJoin(tokens);
    JoinEnds(tokens, " ");
    TrimTrailingSpace(Join(tokens, " "));
  }

  lemma EncodeExample()
    ensures MorseEncodeText("SOS") == Ok("... --- ...")
  {
    var input := "SOS";
    assert input[0] == 'S' && input[1] == 'O' && input[2] == 'S';
    assert EncodeChar('S') == Ok("...") && EncodeChar('O') == Ok("---");
    var tokens := seq(3, i requires 0 <= i < 3 => EncodeChar(input[i]).value);
    assert forall i :: 0 <= i < |input| ==> EncodeChar(input[i]).Ok?;
    assert tokens == ["...", "---", "..."];
    JoinCons("...", ["---", "..."], " ");
    JoinCons("---", ["..."], " ");
    assert Join(["..."], " ") == "...";
    assert "..." + " " + ("---" + " " + "...") == "... --- ...";
  }

  /** Ъ is in `TranslitMap`, but its transliteration, an apostrophe, is not in
      `MorseMap`: the indexer throws instead of emitting "?". */
  lemma EncodeHardSignCounterexample()
    ensures EncodeChar('Ъ') == Fail(KeyNotFound)
    ensures MorseEncodeText("Ъ") == Fail(KeyNotFound)
  {
    assert "Ъ"[0] == 'Ъ';
  }

  /** The small soft sign goes the same way: upper-cased it is `Ь`, which
      has no code, and its transliteration `'` has none either. */
  lemma EncodeSoftSignCounterexample()
    ensures EncodeChar('ь') == Fail(KeyNotFound)
    ensures MorseEncodeText("ь") == Fail(KeyNotFound)
  {
    assert "ь"[0] == 'ь';
  }

  /** The evidently intended token: a transliteration without a code falls
      back to "?" like any other unknown character. */
  function EncodeCharFixed(c: char): (t: string)
    ensures EncodeChar(c).Ok? ==> t == EncodeChar(c).value
    ensures t == "?" || exists d :: Code(d) == Some(t)
  {
    var u := ToUpperChar(c);
    if Code(u).Some? then Code(u).value
    else if Translit(c).Some? && Code(ToUpperChar(Translit(c).value)).Some? then
      Code(ToUpperChar(Translit(c).value)).value
    else "?"
  }

  /** The corrected encoder never throws. */
  function MorseEncodeFixed(input: string): (r: string)
  {
    if |input| == 0 then ""
    else Join(seq(|input|, i requires 0 <= i < |input| => EncodeCharFixed(input[i])), " ")
  }

  /** It agrees with the source wherever the source returns. */
  lemma MorseEncodeFixedAgrees(input: string)
    requires MorseEncodeText(input).Ok?
    ensures MorseEncodeFixed(input) == MorseEncodeText(input).value
  {
    if |input| > 0 {
      var a := seq(|input|, i requires 0 <= i < |input| => EncodeChar(input[i]).value);
      var b := seq(|input|, i requires 0 <= i < |input| => EncodeCharFixed(input[i]));
      forall i | 0 <= i < |input| ensures a[i] == b[i] {
        assert EncodeChar(input[i]).Ok?;
      }
      assert a == b;
    }
  }

  /** ... and it turns the hard sign into "?". */
  lemma MorseEncodeFixedHardSign()
    ensures MorseEncodeFixed("Ъ") == "?"
  {
    assert "Ъ"[0] == 'Ъ';
    assert seq(1, i requires 0 <= i < 1 => EncodeCharFixed("Ъ"[i])) == ["?"];
  }

  // ---------------------------------------------------------------- decoding

  /** The characters that may appear in Morse text. */
  predicate IsMorseSymbol(c: char) { c == '.' || c == '-' || c == ' ' || c == '/' }

  /** The source's format check: after removing spaces and slashes only dots
      and dashes may remain. */
  predicate PassesCheck(input: string)
  {
    var test := Remove(Remove(input, ' '), '/');
    forall i :: 0 <= i < |test| ==> test[i] == '.' || test[i] == '-'
  }

  /** The check accepts exactly the texts made of dots, dashes, spaces and slashes. */
  lemma PassesCheckExact(input: string)
    ensures PassesCheck(input) <==> forall i :: 0 <= i < |input| ==> IsMorseSymbol(input[i])
  {
    var once := Remove(input, ' ');
    var test := Remove(once, '/');
    if PassesCheck(input) {
      forall i | 0 <= i < |input| ensures IsMorseSymbol(input[i]) {
        var x := input[i];
        if x != ' ' && x != '/' {
          RemoveChars(input, ' ', x);
          RemoveChars(once, '/', x);
        }
      }
    } else {
      var k :| 0 <= k < |test| && test[k] != '.' && test[k] != '-';
      var x := test[k];
      RemoveChars(once, '/', x);
      RemoveChars(input, ' ', x);
      var j :| 0 <= j < |input| && input[j] == x;
    }
  }

  /** A letter token: its character, or '?' when it is nobody's code. */
  function DecodeToken(token: string): char
  {
    if Decode(token).Some? then Decode(token).value else '?'
  }

  function DecodeLetters(tokens: seq<string>): (r: string)
    ensures |r| == |tokens|
  {
    seq(|tokens|, i requires 0 <= i < |tokens| => DecodeToken(tokens[i]))
  }

  /** The builder's text after the words `words`: the letters of each word
      followed by a space. */
  function DecodeWords(words: seq<string>): string
  {
    if |words| == 0 then ""
    else DecodeWords(words[..|words| - 1]) + DecodeLetters(SplitNonEmpty(words[|words| - 1], " ")) + " "
  }

  /** What `MorseDecode(input)` returns. */
  function MorseDecodeText(input: string): Result<string>
  {
    if IsBlank(input) then Fail(EmptyInput)
    else if !PassesCheck(input) then Fail(InvalidFormat)
    else Ok(Trim(DecodeWords(Split(input, " / "))))
  }

  /** The source's two nested loops over words and letters. */
  method MorseDecode(input: string) returns (r: Result<string>)
    ensures r == MorseDecodeText(input)
  {
    if IsBlank(input) {
      return Fail(EmptyInput);
    }
    var testString := Remove(Remove(input, ' '), '/');
    if !(forall i :: 0 <= i < |testString| ==> testString[i] == '.' || testString[i] == '-') {
      return Fail(InvalidFormat);
    }
    var words := Split(input, " / ");
    var result := "";
    var w := 0;
    while w < |words|
      invariant 0 <= w <= |words|
      invariant result == DecodeWords(words[..w])
    {
      var letters := SplitNonEmpty(words[w], " ");
      var l := 0;
      while l < |letters|
        invariant 0 <= l <= |letters|
        invariant result == DecodeWords(words[..w]) + DecodeLetters(letters[..l])
      {
        var letter := letters[l];
        DecodeLettersSnoc(letters, l);
        if Decode(letter).Some? {
          result := result + [Decode(letter).value];
        } else {
          result := result + ['?'];
        }
        l := l + 1;
      }
      assert letters[..l] == letters;
      assert words[..w + 1][..w] == words[..w];
      result := result + " ";
      w := w + 1;
    }
    assert words[..w] == words;
    r := Ok(Trim(result));
  }

  lemma DecodeLettersSnoc(letters: seq<string>, l: int)
    requires 0 <= l < |letters|
    ensures DecodeLetters(letters[..l + 1]) == DecodeLetters(letters[..l]) + [DecodeToken(letters[l])]
  {
  }

  lemma DecodeLettersConcat(a: seq<string>, b: seq<string>)
    ensures DecodeLetters(a + b) == DecodeLetters(a) + DecodeLetters(b)
  {
  }

  lemma SlashAlone()
    ensures SplitNonEmpty("/", " ") == ["/"]
    ensures DecodeLetters(["/"]) == " "
  {
    var slash := "/";
    assert slash[0] == '/' && slash[1..] == "";
    assert !(" " <= slash);
    assert Split("", " ") == [""];
    assert Split(slash, " ") == [['/'] + Split("", " ")[0]] + Split("", " ")[1..];
    assert ['/'] + Split("", " ")[0] == slash;
    assert Split(slash, " ") == [slash];
    assert RemoveEmpty([slash]) == [slash] + RemoveEmpty([]);
    DecodeCode(' ');
  }

  /** The word separator " / " decodes like the letter `/` between two spaces:
      the word loop gives the letters of the whole text and one space. */
  lemma {:induction false} WordsAsLetters(words: seq<string>)
    requires |words| >= 1
    ensures DecodeWords(words) == DecodeLetters(SplitNonEmpty(Join(words, " / "), " ")) + " "
  {
    var n := |words|;
    var init, last := words[..n - 1], words[n - 1];
    var y := DecodeLetters(SplitNonEmpty(last, " "));
    if n == 1 {
      assert DecodeWords(init) == "";
      assert "" + y + " " == y + " ";
    } else {
      WordsAsLetters(init);
      assert init + [last] == words;
      JoinSnoc(init, last, " / ");
      var j := Join(init, " / ");
      SeparatorLetters(j, last);
      var x := DecodeLetters(SplitNonEmpty(j, " "));
      assert (x + " ") + y + " " == (x + " " + y) + " ";
    }
  }

  /** The letters on both sides of one word separator, with a space between. */
  lemma SeparatorLetters(j: string, last: string)
    ensures DecodeLetters(SplitNonEmpty(j + " / " + last, " "))
      == DecodeLetters(SplitNonEmpty(j, " ")) + " " + DecodeLetters(SplitNonEmpty(last, " "))
  {
    assert j + " / " + last == j + [' '] + ("/" + [' '] + last);
    SplitNonEmptyConcat(j, ' ', "/" + [' '] + last);
    SplitNonEmptyConcat("/", ' ', last);
    SlashAlone();
    var a, b := SplitNonEmpty(j, " "), SplitNonEmpty(last, " ");
    DecodeLettersConcat(a, ["/"] + b);
    DecodeLettersConcat(["/"], b);
    var x, y := DecodeLetters(a), DecodeLetters(b);
    assert x + (" " + y) == x + " " + y;
  }

  /** `MorseDecode` before the final trim is the letters of the text as one
      word, and one space. */
  lemma DecodeAsLetters(input: string)
    ensures DecodeWords(Split(input, " / ")) == DecodeLetters(SplitNonEmpty(input, " ")) + " "
  {
    JoinSplit(input, " / ");
    WordsAsLetters(Split(input, " / "));
  }

  /** Characters that have a code of their own come back from the decoder in
      upper case. */
  predicate Encodable(c: char) { Code(ToUpperChar(c)).Some? }

  /** The codes of a text of encodable characters. */
  function Codes(s: string): (codes: seq<string>)
    requires forall i :: 0 <= i < |s| ==> Encodable(s[i])
    ensures |codes| == |s|
  {
    seq(|s|, i requires 0 <= i < |s| && Encodable(s[i]) => Code(ToUpperChar(s[i])).value)
  }

  lemma EncodeEncodable(s: string)
    requires |s| > 0 && forall i :: 0 <= i < |s| ==> Encodable(s[i])
    ensures MorseEncodeText(s) == Ok(Join(Codes(s), " "))
  {
    assert seq(|s|, i requires 0 <= i < |s| => EncodeChar(s[i]).value) == Codes(s);
  }

  lemma CodesShape(s: string)
    requires forall i :: 0 <= i < |s| ==> Encodable(s[i])
    ensures var codes := Codes(s);
      (forall k :: 0 <= k < |codes| ==> codes[k] != []) &&
      (forall k, i :: 0 <= k < |codes| && 0 <= i < |codes[k]| ==> codes[k][i] != ' ') &&
      (forall k, i :: 0 <= k < |codes| && 0 <= i < |codes[k]| ==> codes[k][i] in {'.', '-', '/'}) &&
      DecodeLetters(codes) == ToUpper(s)
  {
    var codes := Codes(s);
    forall k | 0 <= k < |codes|
      ensures codes[k] != [] && ' ' !in codes[k]
      ensures forall i :: 0 <= i < |codes[k]| ==> codes[k][i] in {'.', '-', '/'}
      ensures DecodeToken(codes[k]) == ToUpperChar(s[k])
    {
      CodeShape(ToUpperChar(s[k]));
      DecodeCode(ToUpperChar(s[k]));
    }
  }

  /** The joined codes pass both input checks of the decoder. */
  lemma CodesAccepted(s: string)
    requires |s| > 0 && forall i :: 0 <= i < |s| ==> Encodable(s[i])
    ensures !IsBlank(Join(Codes(s), " ")) && PassesCheck(Join(Codes(s), " "))
  {
    var codes := Codes(s);
    CodesShape(s);
    JoinEnds(codes, " ");
    CodeShape(ToUpperChar(s[0]));
    JoinChars(codes, " ", {'.', '-', '/', ' '});
    PassesCheckExact(Join(codes, " "));
  }

  /** Round trip: a text of such characters is decoded to its upper-case form,
      trimmed (a leading or trailing space encodes to a `/` that the final
      `Trim` drops). */
  lemma MorseRoundTrip(s: string)
    requires |s| > 0 && forall i :: 0 <= i < |s| ==> Encodable(s[i])
    ensures MorseEncodeText(s).Ok?
    ensures MorseDecodeText(MorseEncodeText(s).value) == Ok(Trim(ToUpper(s)))
  {
    var codes := Codes(s);
    var t := Join(codes, " ");
    EncodeEncodable(s);
    CodesAccepted(s);
    CodesShape(s);
    DecodeAsLetters(t);
    SplitNonEmptyJoin(codes, ' ');
    TrimAppendSpace(ToUpper(s));
  }

  /** "SOS" survives the round trip. */
  lemma RoundTripExample()
    ensures MorseDecodeText(MorseEncodeText("SOS").value) == Ok("SOS")
  {
    var s := "SOS";
    assert s[0] == 'S' && s[1] == 'O' && s[2] == 'S';
    assert forall i :: 0 <= i < |s| ==> Encodable(s[i]);
    MorseRoundTrip(s);
    ToUpperKeeps(s);
    TrimUntouched(s);
  }

  lemma DecodeErrorExamples()
    ensures MorseDecodeText("   ") == Fail(EmptyInput)
    ensures MorseDecodeText("..x") == Fail(InvalidFormat)
  {
    PassesCheckExact("..x");
    assert !IsMorseSymbol("..x"[2]);
  }
}
