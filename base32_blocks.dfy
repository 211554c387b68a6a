/** The Base32 alphabet of section 6 of RFC 4648 and the arithmetic of its
    40-bit groups: five bytes, most significant bit first, cut into eight
    5-bit groups, and the eight groups put back together into five bytes. */
module Base32Blocks {
  import opened CSharpInt

  const Base32Chars: string := "ABCDEFGHIJKLMNOPQRSTUVWXYZ234567"

  /** A character of the alphabet: a capital letter or a digit 2 to 7. */
  predicate IsBase32(c: char)
  {
    'A' <= c <= 'Z' || '2' <= c <= '7'
  }

  /** The character of group value `q`: the 26 capitals, then the digits
      2 to 7. */
  function Symbol(q: nat): (c: char)
    requires q < 32
    ensures IsBase32(c)
  {
    if q < 26 then ('A' as int + q) as char else ('2' as int + q - 26) as char
  }

  /** `Base32Chars[q]` is the character of group value `q`. */
  lemma AlphabetChars()
    ensures |Base32Chars| == 32
    ensures forall q :: 0 <= q < 32 ==> Base32Chars[q] == Symbol(q)
  {
  }

  /** `Base32Chars[q]`, one group value at a time. */
  lemma AlphabetAt(q: nat)
    requires q < 32
    ensures |Base32Chars| == 32 && Base32Chars[q] == Symbol(q)
  {
    AlphabetChars();
  }

  /** `Base32Chars.Contains(c)` holds of exactly the capitals and the
      digits 2 to 7. */
  lemma AlphabetContains(c: char)
    ensures c in Base32Chars <==> IsBase32(c)
  {
    AlphabetChars();
    if IsBase32(c) {
      var q := if 'A' <= c <= 'Z' then c as int - 'A' as int else c as int - '2' as int + 26;
      assert Base32Chars[q] == c;
    }
  }

  /** `Base32Chars.IndexOf(c)`: the position of `c` in the alphabet, or -1. */
  function IndexOf(c: char): (i: int)
    ensures -1 <= i < 32
    ensures i >= 0 ==> Symbol(i) == c
    ensures i == -1 <==> !IsBase32(c)
  {
    if 'A' <= c <= 'Z' then c as int - 'A' as int
    else if '2' <= c <= '7' then c as int - '2' as int + 26
    else -1
  }

  /** The alphabet has no repeated character, so a group is found back from
      its character. */
  lemma IndexOfChar(q: nat)
    requires q < 32
    ensures IndexOf(Symbol(q)) == q
  {
  }

  /** The byte at position `i`, with zero bytes past the end: the padding of
      the last, incomplete group. */
  function Byte(s: seq<byte>, i: nat): (b: nat)
    ensures b < 256
  {
    if i < |s| then s[i] else 0
  }

  /** Group `c` of the eight 5-bit groups of the bytes `b0 .. b4`. */
  function Quint(b0: nat, b1: nat, b2: nat, b3: nat, b4: nat, c: nat): (q: nat)
    requires b0 < 256 && b1 < 256 && b2 < 256 && b3 < 256 && b4 < 256
    ensures q < 32
  {
    match c
    case 0 => b0 / 8
    case 1 => (b0 % 8) * 4 + b1 / 64
    case 2 => (b1 / 2) % 32
    case 3 => (b1 % 2) * 16 + b2 / 16
    case 4 => (b2 % 16) * 2 + b3 / 128
    case 5 => (b3 / 4) % 32
    case 6 => (b3 % 4) * 8 + b4 / 32
    case _ => b4 % 32
  }

  /** The 5-bit group `j` of the bit stream of `s`, zero-padded to a whole
      number of groups. */
  function Quintet(s: seq<byte>, j: nat): (q: nat)
    ensures q < 32
  {
    var m := j / 8;
    Quint(Byte(s, 5 * m), Byte(s, 5 * m + 1), Byte(s, 5 * m + 2), Byte(s, 5 * m + 3), Byte(s, 5 * m + 4), j % 8)
  }

  /** Group `c` of the five bytes that start at byte `5 * m`. */
  function Block(s: seq<byte>, m: nat, c: nat): (q: nat)
    ensures q < 32
  {
    Quint(Byte(s, 5 * m), Byte(s, 5 * m + 1), Byte(s, 5 * m + 2), Byte(s, 5 * m + 3), Byte(s, 5 * m + 4), c)
  }

  /** Group `8 * m + c` of the stream is group `c` of block `m`. */
  lemma QuintetAt(s: seq<byte>, m: nat, c: nat)
    requires c < 8
    ensures Quintet(s, 8 * m + c) == Block(s, m, c)
  {
    ModUnique(8 * m + c, 8, m, c);
  }

  /** The characters of the first `n` groups. */
  function Chars(s: seq<byte>, n: nat): (r: string)
    ensures |r| == n
    ensures AllBase32(r)
  {
    seq(n, j requires 0 <= j < n => Symbol(Quintet(s, j)))
  }

  /** One more group is one more character. */
  lemma CharsSnoc(s: seq<byte>, n: nat)
    ensures Chars(s, n + 1) == Chars(s, n) + [Symbol(Quintet(s, n))]
  {
  }

  /** Appending the character of the next group, as the encoder does. */
  lemma AppendGroup(s: seq<byte>, n: nat, text: string, q: nat)
    requires text == Chars(s, n) && q == Quintet(s, n)
    ensures |Base32Chars| == 32 && text + [Base32Chars[q]] == Chars(s, n + 1)
  {
    AlphabetAt(q);
    CharsSnoc(s, n);
  }

  /** Every character of `t` is in the alphabet. */
  predicate AllBase32(t: string)
  {
    forall i :: 0 <= i < |t| ==> IsBase32(t[i])
  }

  /** Byte `c` of the five bytes that the groups `v0 .. v7` spell. */
  function Unpack(v0: nat, v1: nat, v2: nat, v3: nat, v4: nat, v5: nat, v6: nat, v7: nat, c: nat): (b: nat)
    requires v0 < 32 && v1 < 32 && v2 < 32 && v3 < 32 && v4 < 32 && v5 < 32 && v6 < 32 && v7 < 32
    ensures b < 256
  {
    match c
    case 0 => v0 * 8 + v1 / 4
    case 1 => (v1 % 4) * 64 + v2 * 2 + v3 / 16
    case 2 => (v3 % 16) * 16 + v4 / 2
    case 3 => (v4 % 2) * 128 + v5 * 4 + v6 / 8
    case _ => (v6 % 8) * 32 + v7
  }

  /** Putting the eight groups of five bytes back together gives the bytes. */
  lemma UnpackQuint(b0: nat, b1: nat, b2: nat, b3: nat, b4: nat, c: nat)
    requires b0 < 256 && b1 < 256 && b2 < 256 && b3 < 256 && b4 < 256 && c < 5
    ensures Unpack(Quint(b0, b1, b2, b3, b4, 0), Quint(b0, b1, b2, b3, b4, 1),
                   Quint(b0, b1, b2, b3, b4, 2), Quint(b0, b1, b2, b3, b4, 3),
                   Quint(b0, b1, b2, b3, b4, 4), Quint(b0, b1, b2, b3, b4, 5),
                   Quint(b0, b1, b2, b3, b4, 6), Quint(b0, b1, b2, b3, b4, 7), c) ==
      [b0, b1, b2, b3, b4][c]
  {
    match c
    case 0 => UnpackFirst(b0, b1);
    case 1 => UnpackSecond(b0, b1, b2);
    case 2 => UnpackThird(b1, b2, b3);
    case 3 => UnpackFourth(b2, b3, b4);
    case 4 => UnpackFifth(b3, b4);
  }

  /** The eight groups of block `m` give back its bytes. */
  lemma UnpackBlock(s: seq<byte>, m: nat, c: nat)
    requires c < 5
    ensures Unpack(Block(s, m, 0), Block(s, m, 1), Block(s, m, 2), Block(s, m, 3),
                   Block(s, m, 4), Block(s, m, 5), Block(s, m, 6), Block(s, m, 7), c) == Byte(s, 5 * m + c)
  {
    var b0, b1, b2, b3, b4 := Byte(s, 5 * m), Byte(s, 5 * m + 1), Byte(s, 5 * m + 2), Byte(s, 5 * m + 3), Byte(s, 5 * m + 4);
    UnpackQuint(b0, b1, b2, b3, b4, c);
    match c
    case 0 => assert [b0, b1, b2, b3, b4][c] == b0;
    case 1 => assert [b0, b1, b2, b3, b4][c] == b1;
    case 2 => assert [b0, b1, b2, b3, b4][c] == b2;
    case 3 => assert [b0, b1, b2, b3, b4][c] == b3;
    case 4 => assert [b0, b1, b2, b3, b4][c] == b4;
  }

  lemma UnpackFirst(b0: nat, b1: nat)
    requires b0 < 256 && b1 < 256
    ensures (b0 / 8) * 8 + ((b0 % 8) * 4 + b1 / 64) / 4 == b0
  {
    assert ((b0 % 8) * 4 + b1 / 64) / 4 == b0 % 8;
  }

  lemma UnpackSecond(b0: nat, b1: nat, b2: nat)
    requires b0 < 256 && b1 < 256 && b2 < 256
    ensures (((b0 % 8) * 4 + b1 / 64) % 4) * 64 + ((b1 / 2) % 32) * 2 + ((b1 % 2) * 16 + b2 / 16) / 16 == b1
  {
    assert ((b0 % 8) * 4 + b1 / 64) % 4 == b1 / 64;
    assert ((b1 % 2) * 16 + b2 / 16) / 16 == b1 % 2;
  }

  lemma UnpackThird(b1: nat, b2: nat, b3: nat)
    requires b1 < 256 && b2 < 256 && b3 < 256
    ensures (((b1 % 2) * 16 + b2 / 16) % 16) * 16 + ((b2 % 16) * 2 + b3 / 128) / 2 == b2
  {
    assert ((b1 % 2) * 16 + b2 / 16) % 16 == b2 / 16;
    assert ((b2 % 16) * 2 + b3 / 128) / 2 == b2 % 16;
  }

  lemma UnpackFourth(b2: nat, b3: nat, b4: nat)
    requires b2 < 256 && b3 < 256 && b4 < 256
    ensures (((b2 % 16) * 2 + b3 / 128) % 2) * 128 + ((b3 / 4) % 32) * 4 + ((b3 % 4) * 8 + b4 / 32) / 8 == b3
  {
    assert ((b2 % 16) * 2 + b3 / 128) % 2 == b3 / 128;
    assert ((b3 % 4) * 8 + b4 / 32) / 8 == b3 % 4;
  }

  lemma UnpackFifth(b3: nat, b4: nat)
    requires b3 < 256 && b4 < 256
    ensures (((b3 % 4) * 8 + b4 / 32) % 8) * 32 + b4 % 32 == b4
  {
    assert ((b3 % 4) * 8 + b4 / 32) % 8 == b4 / 32;
  }

  /** `(int)Math.Ceiling(n * 8 / 5.0)`: the number of groups that hold `n`
      bytes. */
  function GroupCount(n: nat): nat
  {
    (8 * n + 4) / 5
  }

  /** As many bytes as whole bytes fit in the groups. */
  lemma GroupCountBytes(n: nat)
    ensures GroupCount(n) * 5 / 8 == n
  {
    var l := GroupCount(n);
    assert 8 * n <= 5 * l <= 8 * n + 4;
  }

  /** A group that starts past the last byte is zero. */
  lemma QuintetPastEnd(s: seq<byte>, j: nat)
    requires j >= GroupCount(|s|)
    ensures Quintet(s, j) == 0
  {
    var m, c := j / 8, j % 8;
    assert j == 8 * m + c;
    QuintetAt(s, m, c);
    var n := |s|;
    assert 5 * j >= 8 * n;
    match c
    case 0 => assert 5 * m >= n;
    case 1 => assert 5 * m >= n;
    case 2 => assert 5 * m + 1 >= n;
    case 3 => assert 5 * m + 1 >= n;
    case 4 => assert 5 * m + 2 >= n;
    case 5 => assert 5 * m + 3 >= n;
    case 6 => assert 5 * m + 3 >= n;
    case 7 => assert 5 * m + 4 >= n;
  }
}
