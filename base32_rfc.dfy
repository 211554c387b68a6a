/** The Base32 codec that `Ciphers.Base32` evidently means to be: the
    encoding of section 6 of RFC 4648 with exactly `ceil(8n / 5)` characters
    (the capacity the encoder computes, no `=` padding), and the decoder
    that packs every five bits back into the bytes they came from. */
module Base32Rfc {
  import opened Failures
  import opened CSharpInt
  import opened Text
  import opened Base32Blocks

  /** The groups of the bits of `s`, one character each, the last group
      filled with zero bits. */
  function RfcEncode(s: seq<byte>): (r: string)
    ensures |r| == GroupCount(|s|)
    ensures AllBase32(r) && '=' !in r
  {
    Chars(s, GroupCount(|s|))
  }

  /** The group value of character `j`, zero past the end. */
  function Group(t: string, j: nat): (v: nat)
    requires AllBase32(t)
    ensures v < 32
  {
    if j < |t| then IndexOf(t[j]) else 0
  }

  /** Every run of eight groups put back together into five bytes, as many
      whole bytes as the groups hold. */
  function Unpacked(t: string): (bs: seq<byte>)
    requires AllBase32(t)
    ensures |bs| == |t| * 5 / 8
  {
    seq(|t| * 5 / 8, i requires 0 <= i < |t| * 5 / 8 => UnpackedByteAt(t, i))
  }

  /** Byte `i` of the decoding: byte `i % 5` of the block of eight groups
      that holds it. */
  function UnpackedByteAt(t: string, i: nat): (b: byte)
    requires AllBase32(t)
  {
    var m := i / 5;
    Unpack(Group(t, 8 * m), Group(t, 8 * m + 1), Group(t, 8 * m + 2), Group(t, 8 * m + 3),
           Group(t, 8 * m + 4), Group(t, 8 * m + 5), Group(t, 8 * m + 6), Group(t, 8 * m + 7), i % 5)
  }

  /** The decoder with the source's input handling (trim, upper case, every
      character in the alphabet) and a bit packing that undoes the encoder. */
  function RfcDecode(base32: string): Result<seq<byte>>
  {
    if |base32| == 0 then Ok([])
    else
      var t := ToUpper(Trim(base32));
      if !AllBase32(t) then Fail(InvalidFormat) else Ok(Unpacked(t))
  }

  /** Decoding what was encoded gives the bytes back. */
  lemma RfcRoundTrip(s: seq<byte>)
    ensures RfcDecode(RfcEncode(s)) == Ok(s)
  {
    var t := RfcEncode(s);
    if |s| == 0 {
      assert t == [];
    } else {
      assert RfcDecode(t) == Ok(Unpacked(t)) by {
        EncodingUntouched(s);
      }
      assert Unpacked(t) == s by {
        GroupCountBytes(|s|);
        forall i | 0 <= i < |s|
          ensures Unpacked(t)[i] == s[i]
        {
          UnpackedByte(s, i);
        }
      }
    }
  }

  /** The encoding is left alone by `Trim` and `ToUpperInvariant`. */
  lemma EncodingUntouched(s: seq<byte>)
    requires |s| > 0
    ensures ToUpper(Trim(RfcEncode(s))) == RfcEncode(s)
  {
    var t := RfcEncode(s);
    assert |t| > 0;
    assert IsBase32(t[0]) && IsBase32(t[|t| - 1]);
    TrimUntouched(t);
    ToUpperKeeps(t);
  }

  /** The character groups of the encoding are the groups of the bits,
      zero past the end. */
  lemma GroupOfEncoding(s: seq<byte>, j: nat)
    ensures Group(RfcEncode(s), j) == Quintet(s, j)
  {
    if j < GroupCount(|s|) {
      IndexOfChar(Quintet(s, j));
    } else {
      QuintetPastEnd(s, j);
    }
  }

  /** Byte `i` unpacked from the encoding is byte `i` of the input. */
  lemma UnpackedByte(s: seq<byte>, i: nat)
    requires i < |s|
    ensures UnpackedByteAt(RfcEncode(s), i) == s[i]
  {
    var m, c := i / 5, i % 5;
    assert 5 * m + c == i;
    BlockOfEncoding(RfcEncode(s), s, m, c);
    assert Byte(s, 5 * m + c) == s[i];
  }

  /** When the groups of block `m` of `t` are those of the bytes of `s`,
      the bytes of block `m` come back. */
  lemma BlockOfEncoding(t: string, s: seq<byte>, m: nat, c: nat)
    requires AllBase32(t) && c < 5
    requires t == RfcEncode(s)
    ensures UnpackedByteAt(t, 5 * m + c) == Byte(s, 5 * m + c)
  {
    var g0, g1, g2, g3 := Group(t, 8 * m), Group(t, 8 * m + 1), Group(t, 8 * m + 2), Group(t, 8 * m + 3);
    var g4, g5, g6, g7 := Group(t, 8 * m + 4), Group(t, 8 * m + 5), Group(t, 8 * m + 6), Group(t, 8 * m + 7);
    assert UnpackedByteAt(t, 5 * m + c) == Unpack(g0, g1, g2, g3, g4, g5, g6, g7, c) by {
      UnpackedAt(t, m, c);
    }
    LowGroups(s, m);
    HighGroups(s, m);
    UnpackBlock(s, m, c);
  }

  /** The first four groups of block `m` of the encoding. */
  lemma LowGroups(s: seq<byte>, m: nat)
    ensures Group(RfcEncode(s), 8 * m) == Block(s, m, 0) && Group(RfcEncode(s), 8 * m + 1) == Block(s, m, 1)
    ensures Group(RfcEncode(s), 8 * m + 2) == Block(s, m, 2) && Group(RfcEncode(s), 8 * m + 3) == Block(s, m, 3)
  {
    GroupIsBlock(s, m, 0);
    GroupIsBlock(s, m, 1);
    GroupIsBlock(s, m, 2);
    GroupIsBlock(s, m, 3);
  }

  /** The last four groups of block `m` of the encoding. */
  lemma HighGroups(s: seq<byte>, m: nat)
    ensures Group(RfcEncode(s), 8 * m + 4) == Block(s, m, 4) && Group(RfcEncode(s), 8 * m + 5) == Block(s, m, 5)
    ensures Group(RfcEncode(s), 8 * m + 6) == Block(s, m, 6) && Group(RfcEncode(s), 8 * m + 7) == Block(s, m, 7)
  {
    GroupIsBlock(s, m, 4);
    GroupIsBlock(s, m, 5);
    GroupIsBlock(s, m, 6);
    GroupIsBlock(s, m, 7);
  }

  /** Byte `5 * m + c` of the decoding comes from the eight groups of block `m`. */
  lemma UnpackedAt(t: string, m: nat, c: nat)
    requires AllBase32(t) && c < 5
    ensures UnpackedByteAt(t, 5 * m + c) ==
      Unpack(Group(t, 8 * m), Group(t, 8 * m + 1), Group(t, 8 * m + 2), Group(t, 8 * m + 3),
             Group(t, 8 * m + 4), Group(t, 8 * m + 5), Group(t, 8 * m + 6), Group(t, 8 * m + 7), c)
  {
    ModUnique(5 * m + c, 5, m, c);
  }

  /** Character `8 * m + k` of the encoding is group `k` of block `m`. */
  lemma GroupIsBlock(s: seq<byte>, m: nat, k: nat)
    requires k < 8
    ensures Group(RfcEncode(s), 8 * m + k) == Block(s, m, k)
  {
    var j := 8 * m + k;
    assert Quintet(s, j) == Block(s, m, k) by {
      QuintetAt(s, m, k);
    }
    assert Group(RfcEncode(s), j) == Quintet(s, j) by {
      GroupOfEncoding(s, j);
    }
  }

  /** Text with a character outside the alphabet, `=` included, is refused. */
  lemma RfcDecodeRejects(base32: string)
    requires |base32| > 0 && !AllBase32(ToUpper(Trim(base32)))
    ensures RfcDecode(base32) == Fail(InvalidFormat)
  {
  }
}
