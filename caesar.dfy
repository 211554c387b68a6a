/** `Ciphers.Caesar`: a shift cipher over the Latin and the Russian alphabets.
    The shift is reduced modulo 32 once, for both alphabets; Latin letters are
    then rotated modulo 26 and the letters а..я / А..Я modulo 32, while ё, Ё
    and every other character pass through unchanged. */
module CaesarCipher {
  import opened CSharpInt
  import opened Text

  /** The `effectiveShift` of the source: `(shift * direction) % 32`, moved
      into 0..31. */
  function EffectiveShift(shift: int32, encrypt: bool): (e: int)
    ensures 0 <= e < 32
  {
    Normalize(Directed(shift, encrypt), 32)
  }

  /** The letter `e` places after `c` in the alphabet of `size` letters that
      starts at `first`. */
  function Rotate(c: char, first: char, size: int, e: int): (d: char)
    requires 0 < size && first as int + size <= 0xD800
    requires first as int <= c as int < first as int + size
    ensures first as int <= d as int < first as int + size
  {
    (first as int + (c as int - first as int + e) % size) as char
  }

  /** Each letter moves `e` places along its own alphabet. */
  function ShiftChar(c: char, e: int): (d: char)
    requires 0 <= e < 32
  {
    if IsLatinLower(c) then Rotate(c, 'a', 26, e)
    else if IsLatinUpper(c) then Rotate(c, 'A', 26, e)
    else if IsCyrillicLower(c) then Rotate(c, 'а', 32, e)
    else if IsCyrillicUpper(c) then Rotate(c, 'А', 32, e)
    else c
  }

  /** What `Caesar(input, shift, encrypt)` returns. */
  function CaesarText(input: string, shift: int32, encrypt: bool): string
  {
    var e := EffectiveShift(shift, encrypt);
    seq(|input|, i requires 0 <= i < |input| => ShiftChar(input[i], e))
  }

  /** The source's loop, character by character into a `StringBuilder`. */
  method Caesar(input: string, shift: int32, encrypt: bool) returns (r: string)
    ensures r == CaesarText(input, shift, encrypt)
  {
    if |input| == 0 {
      return input;
    }
    var direction := if encrypt then 1 else -1;
    var effectiveShift := Rem(Wrap(shift * direction), 32);
    if effectiveShift < 0 {
      effectiveShift := effectiveShift + 32;
    }
    assert effectiveShift == EffectiveShift(shift, encrypt);
    var result := "";
    var i := 0;
    while i < |input|
      invariant 0 <= i <= |input|
      invariant |result| == i
      invariant forall j :: 0 <= j < i ==> result[j] == ShiftChar(input[j], effectiveShift)
    {
      var d := ShiftOne(input[i], effectiveShift);
      result := result + [d];
      i := i + 1;
    }
    r := result;
  }

  /** The body of the source's loop: one character shifted. The source's
      `if (newIndex < 0)` corrections are left out: the position and the
      effective shift are never negative, so neither can fire. */
  method ShiftOne(c: char, effectiveShift: int) returns (d: char)
    requires 0 <= effectiveShift < 32
    ensures d == ShiftChar(c, effectiveShift)
  {
    if 'a' <= c <= 'z' {
      var newIndex := (c as int - 'a' as int + effectiveShift) % 26;
      d := ('a' as int + newIndex) as char;
    } else if 'A' <= c <= 'Z' {
      var newIndex := (c as int - 'A' as int + effectiveShift) % 26;
      d := ('A' as int + newIndex) as char;
    } else if 'а' <= c <= 'я' {
      var newIndex := (c as int - 'а' as int + effectiveShift) % 32;
      d := ('а' as int + newIndex) as char;
    } else if 'А' <= c <= 'Я' {
      var newIndex := (c as int - 'А' as int + effectiveShift) % 32;
      d := ('А' as int + newIndex) as char;
    } else {
      // ё, Ё and everything else are copied as they are
      d := c;
    }
  }

  /** The length of the text is kept, and so is every character that is not a
      letter of the two alphabets. */
  lemma CaesarKeepsOthers(input: string, shift: int32, encrypt: bool, i: int)
    requires 0 <= i < |input|
    requires !IsLatinLower(input[i]) && !IsLatinUpper(input[i])
    requires !IsCyrillicLower(input[i]) && !IsCyrillicUpper(input[i])
    ensures |CaesarText(input, shift, encrypt)| == |input|
    ensures CaesarText(input, shift, encrypt)[i] == input[i]
  {
  }

  /** Every letter stays in its own alphabet and case. */
  lemma CaesarKeepsAlphabet(input: string, shift: int32, encrypt: bool, i: int)
    requires 0 <= i < |input|
    ensures var d := CaesarText(input, shift, encrypt)[i];
      (IsLatinLower(input[i]) ==> IsLatinLower(d)) &&
      (IsLatinUpper(input[i]) ==> IsLatinUpper(d)) &&
      (IsCyrillicLower(input[i]) ==> IsCyrillicLower(d)) &&
      (IsCyrillicUpper(input[i]) ==> IsCyrillicUpper(d))
  {
  }

  /** The encrypting and the decrypting shift add up to a multiple of 32, for
      every key: 32 divides 2^32, so the wrap-around of `shift * -1` is harmless. */
  lemma ShiftsCancel(shift: int32)
    ensures (EffectiveShift(shift, true) + EffectiveShift(shift, false)) % 32 == 0
  {
    var w := Directed(shift, false);
    var q := (w + shift) / Modulus32;
    assert w + shift == Modulus32 * q by {
      if shift == MinInt32 {
        assert w + shift == Modulus32 * -1;
        ModUnique(w + shift, Modulus32, -1, 0);
      } else {
        assert w + shift == 0;
      }
    }
    assert w + shift == 32 * (0x800_0000 * q);
    var a, b := EffectiveShift(shift, true), EffectiveShift(shift, false);
    var qa, qb := shift / 32, w / 32;
    assert shift == 32 * qa + a;
    assert w == 32 * qb + b;
    ModUnique(a + b, 32, 0x800_0000 * q - qa - qb, 0);
  }

  /** Decrypting with the key used to encrypt restores every Russian letter
      (and every character the cipher does not touch), for every key. */
  lemma CaesarRoundTripCyrillic(c: char, shift: int32)
    requires !IsLatinLower(c) && !IsLatinUpper(c)
    ensures ShiftChar(ShiftChar(c, EffectiveShift(shift, true)), EffectiveShift(shift, false)) == c
  {
    var e, f := EffectiveShift(shift, true), EffectiveShift(shift, false);
    ShiftsCancel(shift);
    if IsCyrillicLower(c) {
      RotateBackChar(c, 'а', 32, e, f);
    } else if IsCyrillicUpper(c) {
      RotateBackChar(c, 'А', 32, e, f);
    }
  }

  /** ... so a text without Latin letters comes back unchanged. */
  lemma CaesarRoundTripNonLatin(input: string, shift: int32)
    requires forall i :: 0 <= i < |input| ==> !IsLatinLower(input[i]) && !IsLatinUpper(input[i])
    ensures CaesarText(CaesarText(input, shift, true), shift, false) == input
  {
    var once := CaesarText(input, shift, true);
    var twice := CaesarText(once, shift, false);
    forall i | 0 <= i < |input|
      ensures twice[i] == input[i]
    {
      CaesarRoundTripCyrillic(input[i], shift);
    }
  }

  /** Latin letters do not come back: the two shifts add up to 32, not to a
      multiple of 26, so a small or capital letter ends 32 mod 26 = 6 places
      further on in its own alphabet whenever the effective shift is not zero. */
  lemma CaesarLatinDrift(c: char, shift: int32)
    requires (IsLatinLower(c) || IsLatinUpper(c)) && EffectiveShift(shift, true) != 0
    ensures var first := if IsLatinLower(c) then 'a' else 'A';
      ShiftChar(ShiftChar(c, EffectiveShift(shift, true)), EffectiveShift(shift, false))
        == (first as int + (c as int - first as int + 6) % 26) as char
  {
    var e, f := EffectiveShift(shift, true), EffectiveShift(shift, false);
    ShiftsCancel(shift);
    assert e + f == 32;
    if IsLatinLower(c) {
      RotateDrift(c, 'a', e, f);
    } else {
      RotateDrift(c, 'A', e, f);
    }
  }

  /** Two rotations in a 26-letter alphabet by amounts adding up to 32 move a
      letter 6 places. */
  lemma RotateDrift(c: char, first: char, e: int, f: int)
    requires first as int + 26 <= 0xD800
    requires first as int <= c as int < first as int + 26
    requires e >= 0 && f >= 0 && e + f == 32
    ensures Rotate(Rotate(c, first, 26, e), first, 26, f) == (first as int + (c as int - first as int + 6) % 26) as char
  {
    var x := c as int - first as int;
    var y := (x + e) % 26;
    var d := Rotate(c, first, 26, e);
    assert d as int == first as int + y;
    RotateTwice(x, e, f, 26);
    var q, r := (x + 6) / 26, (x + 6) % 26;
    ModUnique(x + 32, 26, q + 1, r);
    assert (y + f) % 26 == r;
    assert Rotate(d, first, 26, f) as int == first as int + r;
  }

  /** "a" encrypted and decrypted with key 1 comes back as "g". */
  lemma CaesarLatinCounterexample()
    ensures CaesarText(CaesarText("a", 1, true), 1, false) == "g"
  {
    var once := CaesarText("a", 1, true);
    assert once == "b";
    assert EffectiveShift(1, false) == 31;
  }

  // The evidently intended cipher: each alphabet reduces the key modulo its
  // own size, and the key is negated without 32-bit wrap-around.

  /** The shift a letter of an alphabet of `size` letters moves by. */
  function FixedShift(shift: int, encrypt: bool, size: int): (e: int)
    requires size > 0
    ensures 0 <= e < size
  {
    (if encrypt then shift else -shift) % size
  }

  function FixedShiftChar(c: char, shift: int, encrypt: bool): char
  {
    if IsLatinLower(c) then Rotate(c, 'a', 26, FixedShift(shift, encrypt, 26))
    else if IsLatinUpper(c) then Rotate(c, 'A', 26, FixedShift(shift, encrypt, 26))
    else if IsCyrillicLower(c) then Rotate(c, 'а', 32, FixedShift(shift, encrypt, 32))
    else if IsCyrillicUpper(c) then Rotate(c, 'А', 32, FixedShift(shift, encrypt, 32))
    else c
  }

  /** The corrected cipher. */
  function CaesarFixed(input: string, shift: int, encrypt: bool): (r: string)
    ensures |r| == |input|
  {
    seq(|input|, i requires 0 <= i < |input| => FixedShiftChar(input[i], shift, encrypt))
  }

  /** In one alphabet, undoing the shift restores the position. */
  lemma FixedUndo(x: int, shift: int, size: int)
    requires size > 0 && 0 <= x < size
    ensures ((x + FixedShift(shift, true, size)) % size + FixedShift(shift, false, size)) % size == x
  {
    var e, f := FixedShift(shift, true, size), FixedShift(shift, false, size);
    assert e == shift % size && f == (-shift) % size;
    NegatedResidues(shift, size);
    RotateBack(x, e, f, size);
  }

  /** Rotating by `e` and then by `f` inside one alphabet restores the
      letter when `e + f` is a multiple of the alphabet's size. */
  lemma RotateBackChar(c: char, first: char, size: int, e: int, f: int)
    requires 0 < size && first as int + size <= 0xD800
    requires first as int <= c as int < first as int + size
    requires e >= 0 && f >= 0 && (e + f) % size == 0
    ensures Rotate(Rotate(c, first, size, e), first, size, f) == c
  {
    var x := c as int - first as int;
    var y := (x + e) % size;
    var d := Rotate(c, first, size, e);
    assert d as int == first as int + y;
    RotateBack(x, e, f, size);
    assert (y + f) % size == x;
    assert Rotate(d, first, size, f) as int == first as int + x;
  }

  /** Rotating forward and back with the corrected shifts restores the letter. */
  lemma RotateUndo(c: char, first: char, size: int, shift: int)
    requires 0 < size && first as int + size <= 0xD800
    requires first as int <= c as int < first as int + size
    ensures Rotate(Rotate(c, first, size, FixedShift(shift, true, size)), first, size, FixedShift(shift, false, size)) == c
  {
    var e, f := FixedShift(shift, true, size), FixedShift(shift, false, size);
    assert e == shift % size && f == (-shift) % size;
    NegatedResidues(shift, size);
    RotateBackChar(c, first, size, e, f);
  }

  lemma FixedShiftCharUndo(c: char, shift: int)
    ensures FixedShiftChar(FixedShiftChar(c, shift, true), shift, false) == c
  {
    if IsLatinLower(c) {
      RotateUndo(c, 'a', 26, shift);
    } else if IsLatinUpper(c) {
      RotateUndo(c, 'A', 26, shift);
    } else if IsCyrillicLower(c) {
      RotateUndo(c, 'а', 32, shift);
    } else if IsCyrillicUpper(c) {
      RotateUndo(c, 'А', 32, shift);
    }
  }

  /** With the correction, decryption undoes encryption for every text and key. */
  lemma CaesarFixedRoundTrip(input: string, shift: int)
    ensures CaesarFixed(CaesarFixed(input, shift, true), shift, false) == input
  {
    var twice := CaesarFixed(CaesarFixed(input, shift, true), shift, false);
    forall i | 0 <= i < |input|
      ensures twice[i] == input[i]
    {
      FixedShiftCharUndo(input[i], shift);
    }
  }
}
