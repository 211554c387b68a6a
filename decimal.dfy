/** Decimal text of numbers: `ToString()` on `int` and `byte`, and the parsers
    `int.TryParse` and `byte.Parse`, which both read a number under
    `NumberStyles.Integer` (white space around it, an optional sign, digits). */
module Decimal {
  import opened Failures
  import opened CSharpInt

  predicate IsDigit(c: char) { '0' <= c <= '9' }

  predicate IsDigits(s: string)
  {
    forall i :: 0 <= i < |s| ==> IsDigit(s[i])
  }

  function DigitChar(d: int): (c: char)
    requires 0 <= d < 10
    ensures IsDigit(c) && c as int - '0' as int == d
  {
    ('0' as int + d) as char
  }

  /** The number a string of decimal digits denotes. */
  function Value(s: string): nat
    requires IsDigits(s)
  {
    if |s| == 0 then 0 else Value(s[..|s| - 1]) * 10 + (s[|s| - 1] as int - '0' as int)
  }

  /** `ToString()` of a number that is not negative: its digits, without
      leading zeros, which read back as the number. */
  function NatToString(n: nat): (s: string)
    ensures |s| >= 1 && IsDigits(s)
    ensures Value(s) == n
    ensures |s| > 1 ==> s[0] != '0'
  {
    if n < 10 then
      [DigitChar(n)]
    else
      var head := NatToString(n / 10);
      var s := head + [DigitChar(n % 10)];
      assert s[..|s| - 1] == head;
      s
  }

  /** `int.ToString()`: a minus sign in front of a negative number. */
  function IntToString(i: int): (s: string)
    ensures |s| >= 1
    ensures i >= 0 ==> s == NatToString(i)
    ensures i < 0 ==> s == "-" + NatToString(-i)
  {
    if i < 0 then "-" + NatToString(-i) else NatToString(i)
  }

  /** The white space `NumberStyles.AllowLeadingWhite` and
      `AllowTrailingWhite` permit: U+0009..U+000D and the space. */
  predicate IsNumberWhite(c: char) { c == ' ' || '\t' <= c <= '\r' }

  function SkipWhite(s: string): (r: string)
    ensures |r| <= |s| && r == s[|s| - |r|..]
  {
    if |s| > 0 && IsNumberWhite(s[0]) then SkipWhite(s[1..]) else s
  }

  function DropWhite(s: string): (r: string)
    ensures r <= s
  {
    if |s| > 0 && IsNumberWhite(s[|s| - 1]) then DropWhite(s[..|s| - 1]) else s
  }

  /** The number `s` denotes under `NumberStyles.Integer`, of any size; `None`
      where the parse fails. */
  function ParseInteger(s: string): Option<int>
  {
    ParseSigned(DropWhite(SkipWhite(s)))
  }

  /** An optional sign followed by at least one digit. */
  function ParseSigned(t: string): Option<int>
  {
    if |t| > 0 && (t[0] == '+' || t[0] == '-') then
      var digits := t[1..];
      if |digits| > 0 && IsDigits(digits) then
        var v: int := Value(digits);
        Some(if t[0] == '-' then -v else v)
      else
        None
    else if |t| > 0 && IsDigits(t) then
      Some(Value(t))
    else
      None
  }

  /** `int.TryParse(s, out n)`: `None` where it returns false, which includes
      numbers outside the range of `int`. */
  function TryParseInt32(s: string): (r: Option<int32>)
    ensures r.Some? <==> ParseInteger(s).Some? && MinInt32 <= ParseInteger(s).value <= MaxInt32
    ensures r.Some? ==> r.value == ParseInteger(s).value
  {
    match ParseInteger(s)
    case Some(n) => if MinInt32 <= n <= MaxInt32 then Some(n) else None
    case None => None
  }

  /** `byte.Parse(s)`: text that is not a number throws `FormatException`,
      a number outside 0..255 throws `OverflowException`. */
  function ParseByte(s: string): (r: Result<byte>)
    ensures var p := ParseInteger(s);
      (p.None? <==> r == Fail(InvalidFormat)) &&
      (r == Fail(Overflow) <==> p.Some? && !(0 <= p.value < 256)) &&
      (r.Ok? ==> r.value as int == p.value)
  {
    var p := ParseInteger(s);
    if p.None? then Fail(InvalidFormat)
    else if 0 <= p.value < 256 then Ok(p.value as byte)
    else Fail(Overflow)
  }

  /** A plain string of digits is read as its value. */
  lemma ParseDigits(s: string)
    requires |s| > 0 && IsDigits(s)
    ensures ParseInteger(s) == Some(Value(s))
  {
    NoWhiteAround(s);
  }

  /** Text that neither starts nor ends with white space is parsed as it is. */
  lemma NoWhiteAround(s: string)
    requires |s| > 0 && !IsNumberWhite(s[0]) && !IsNumberWhite(s[|s| - 1])
    ensures ParseInteger(s) == ParseSigned(s)
  {
    assert SkipWhite(s) == s;
    assert DropWhite(s) == s;
  }

  /** Parsing reads back what `ToString()` writes, for every integer. */
  lemma ParseToString(i: int)
    ensures ParseInteger(IntToString(i)) == Some(i)
  {
    if i >= 0 {
      ParseDigits(NatToString(i));
    } else {
      var d := NatToString(-i);
      assert IntToString(i) == "-" + d;
      ParseNegative(d);
      assert Value(d) == -i;
    }
  }

  lemma ParseNegative(d: string)
    requires |d| > 0 && IsDigits(d)
    ensures ParseInteger("-" + d) == Some(-(Value(d) as int))
  {
    var s := "-" + d;
    assert ParseSigned(s) == Some(-(Value(d) as int)) by {
      assert s[0] == '-' && s[1..] == d;
    }
    assert s[|s| - 1] == d[|d| - 1];
    NoWhiteAround(s);
  }

  /** Text holding a character that is neither a digit, nor a sign, nor white
      space does not parse. */
  lemma ParseRejects(s: string, i: int)
    requires 0 <= i < |s|
    requires !IsDigit(s[i]) && s[i] != '+' && s[i] != '-' && !IsNumberWhite(s[i])
    ensures ParseInteger(s) == None
  {
    var u := SkipWhite(s);
    var t := DropWhite(u);
    var offset := |s| - |u|;
    if i < offset {
      SkipWhiteSkipsWhite(s, i);
    } else if i - offset >= |t| {
      assert u[i - offset] == s[i];
      DropWhiteDropsWhite(u, i - offset);
    } else {
      assert t[i - offset] == u[i - offset] == s[i];
      SignedRejects(t, i - offset);
    }
  }

  lemma SignedRejects(t: string, j: int)
    requires 0 <= j < |t| && !IsDigit(t[j]) && t[j] != '+' && t[j] != '-'
    ensures ParseSigned(t) == None
  {
    if j > 0 {
      assert t[1..][j - 1] == t[j];
    }
  }

  /** What `SkipWhite` drops is white space. */
  lemma {:induction false} SkipWhiteSkipsWhite(s: string, i: int)
    requires 0 <= i < |s| - |SkipWhite(s)|
    ensures IsNumberWhite(s[i])
  {
    if i > 0 {
      SkipWhiteSkipsWhite(s[1..], i - 1);
    }
  }

  /** What `DropWhite` drops is white space. */
  lemma {:induction false} DropWhiteDropsWhite(s: string, i: int)
    requires |DropWhite(s)| <= i < |s|
    ensures IsNumberWhite(s[i])
  {
    if i < |s| - 1 {
      DropWhiteDropsWhite(s[..|s| - 1], i);
    }
  }
}
