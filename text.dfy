/** The .NET string operations the codecs are built from: whitespace tests,
    `Trim`, `ToUpperInvariant` (for Latin and Cyrillic letters), `Split`,
    `Join` and `Replace(x, "")`. */
module Text {

  /** `char.IsWhiteSpace`: the Unicode space separators, the line and
      paragraph separators, and U+0009..U+000D and U+0085. */
  predicate IsWhiteSpace(c: char)
  {
    var n := c as int;
    n == 0x20 || 0x09 <= n <= 0x0D || n == 0x85 || n == 0xA0 || n == 0x1680 ||
    0x2000 <= n <= 0x200A || n == 0x2028 || n == 0x2029 || n == 0x202F ||
    n == 0x205F || n == 0x3000
  }

  /** `string.IsNullOrWhiteSpace` (a null string is not modelled). */
  predicate IsBlank(s: string)
  {
    forall i :: 0 <= i < |s| ==> IsWhiteSpace(s[i])
  }

  /** `TrimStart()`: drop every leading white-space character. */
  function TrimStart(s: string): string
  {
    if |s| > 0 && IsWhiteSpace(s[0]) then TrimStart(s[1..]) else s
  }

  /** `TrimEnd()`: drop every trailing white-space character. */
  function TrimEnd(s: string): string
  {
    if |s| > 0 && IsWhiteSpace(s[|s| - 1]) then TrimEnd(s[..|s| - 1]) else s
  }

  /** What `TrimStart` keeps: the suffix that starts at the first
      non-white-space character. */
  lemma {:induction false} TrimStartSpec(s: string)
    ensures var r := TrimStart(s);
      |r| <= |s| && r == s[|s| - |r|..] &&
      (r == [] || !IsWhiteSpace(r[0])) &&
      forall i :: 0 <= i < |s| - |r| ==> IsWhiteSpace(s[i])
  {
    if |s| > 0 && IsWhiteSpace(s[0]) {
      TrimStartSpec(s[1..]);
    }
  }

  /** What `TrimEnd` keeps: the prefix that ends at the last
      non-white-space character. */
  lemma {:induction false} TrimEndSpec(s: string)
    ensures var r := TrimEnd(s);
      r <= s &&
      (r == [] || !IsWhiteSpace(r[|r| - 1])) &&
      forall i :: |r| <= i < |s| ==> IsWhiteSpace(s[i])
  {
    if |s| > 0 && IsWhiteSpace(s[|s| - 1]) {
      TrimEndSpec(s[..|s| - 1]);
    }
  }

  /** `Trim()`. */
  function Trim(s: string): string
  {
    TrimEnd(TrimStart(s))
  }

  /** A string that neither starts nor ends with white space is its own trim. */
  lemma TrimUntouched(s: string)
    requires s == [] || (!IsWhiteSpace(s[0]) && !IsWhiteSpace(s[|s| - 1]))
    ensures Trim(s) == s
  {
    if s != [] {
      assert TrimStart(s) == s;
    }
  }

  /** ... and so is that string followed by one space, when it is not empty. */
  lemma TrimTrailingSpace(s: string)
    requires s != [] && !IsWhiteSpace(s[0]) && !IsWhiteSpace(s[|s| - 1])
    ensures Trim(s + " ") == s
  {
    var t := s + " ";
    assert t[0] == s[0];
    assert TrimStart(t) == t;
    assert t[..|t| - 1] == s;
    assert TrimEnd(t) == TrimEnd(s);
  }

  predicate IsLatinLower(c: char) { 'a' <= c <= 'z' }
  predicate IsLatinUpper(c: char) { 'A' <= c <= 'Z' }
  /** The contiguous block а..я (U+0430..U+044F); ё (U+0451) lies outside it. */
  predicate IsCyrillicLower(c: char) { 'а' <= c <= 'я' }
  /** The contiguous block А..Я (U+0410..U+042F); Ё (U+0401) lies outside it. */
  predicate IsCyrillicUpper(c: char) { 'А' <= c <= 'Я' }

  /** `char.ToUpperInvariant`, for the Latin and Cyrillic letters; every other
      character is treated as having no upper-case form. */
  function ToUpperChar(c: char): (u: char)
    ensures IsLatinLower(c) ==> IsLatinUpper(u) && u as int - 'A' as int == c as int - 'a' as int
    ensures IsCyrillicLower(c) ==> IsCyrillicUpper(u) && u as int - 'А' as int == c as int - 'а' as int
    ensures c == 'ё' ==> u == 'Ё'
    ensures !IsLatinLower(c) && !IsCyrillicLower(c) && c != 'ё' ==> u == c
  {
    if IsLatinLower(c) || IsCyrillicLower(c) then (c as int - 0x20) as char
    else if c == 'ё' then 'Ё'
    else c
  }

  /** `string.ToUpperInvariant`, character by character. */
  function ToUpper(s: string): (r: string)
    ensures |r| == |s|
  {
    seq(|s|, i requires 0 <= i < |s| => ToUpperChar(s[i]))
  }

  /** Text without lower-case letters is its own upper-case form. */
  lemma ToUpperKeeps(s: string)
    requires forall i :: 0 <= i < |s| ==> !IsLatinLower(s[i]) && !IsCyrillicLower(s[i]) && s[i] != 'ё'
    ensures ToUpper(s) == s
  {
  }

  lemma ToUpperIdempotent(c: char)
    ensures ToUpperChar(ToUpperChar(c)) == ToUpperChar(c)
  {
  }

  /** `Split(new string[] { sep }, StringSplitOptions.None)` (and the `char[]`
      overload when `sep` is one character): the pieces between the
      occurrences of `sep`, found left to right without overlap. */
  function Split(s: string, sep: string): (parts: seq<string>)
    requires |sep| > 0
    ensures |parts| >= 1
    decreases |s|
  {
    if |s| == 0 then [""]
    else if sep <= s then [""] + Split(s[|sep|..], sep)
    else
      var rest := Split(s[1..], sep);
      [[s[0]] + rest[0]] + rest[1..]
  }

  /** `StringSplitOptions.RemoveEmptyEntries`. */
  function RemoveEmpty(parts: seq<string>): (r: seq<string>)
    ensures forall i :: 0 <= i < |r| ==> r[i] != []
    ensures |r| <= |parts|
  {
    if |parts| == 0 then []
    else if parts[0] == [] then RemoveEmpty(parts[1..])
    else [parts[0]] + RemoveEmpty(parts[1..])
  }

  /** `Split(..., StringSplitOptions.RemoveEmptyEntries)`. */
  function SplitNonEmpty(s: string, sep: string): seq<string>
    requires |sep| > 0
  {
    RemoveEmpty(Split(s, sep))
  }

  /** `string.Join(sep, parts)`. */
  function Join(parts: seq<string>, sep: string): string
  {
    if |parts| == 0 then ""
    else if |parts| == 1 then parts[0]
    else parts[0] + sep + Join(parts[1..], sep)
  }

  /** `Replace(c.ToString(), "")`: every occurrence of `c` removed. */
  function Remove(s: string, c: char): (r: string)
    ensures c !in r
  {
    if |s| == 0 then ""
    else if s[0] == c then Remove(s[1..], c)
    else [s[0]] + Remove(s[1..], c)
  }

  /** Joining the pieces of a split with the same separator gives back the text. */
  lemma {:induction false} JoinSplit(s: string, sep: string)
    requires |sep| > 0
    ensures Join(Split(s, sep), sep) == s
  {
    if |s| == 0 {
    } else if sep <= s {
      JoinSplit(s[|sep|..], sep);
      JoinSplitAtSeparator(s, sep);
    } else {
      var c, t := s[0], s[1..];
      assert [c] + t == s;
      JoinSplit(t, sep);
      JoinSplitStep(c, t, sep);
    }
  }

  lemma JoinSplitAtSeparator(s: string, sep: string)
    requires |sep| > 0 && sep <= s
    requires Join(Split(s[|sep|..], sep), sep) == s[|sep|..]
    ensures Join(Split(s, sep), sep) == s
  {
    var tail := s[|sep|..];
    var rest := Split(tail, sep);
    assert Split(s, sep) == [""] + rest;
    JoinCons("", rest, sep);
    assert "" + sep == sep;
    assert s == sep + tail;
  }

  /** The step of `JoinSplit` at a character that does not start a separator. */
  lemma JoinSplitStep(c: char, t: string, sep: string)
    requires |sep| > 0 && !(sep <= [c] + t)
    requires Join(Split(t, sep), sep) == t
    ensures Join(Split([c] + t, sep), sep) == [c] + t
  {
    var s := [c] + t;
    assert s[1..] == t;
    var rest := Split(t, sep);
    SplitAtChar(s, sep);
    JoinGlue(c, rest[0], rest[1..], sep);
    assert [rest[0]] + rest[1..] == rest;
  }

  /** One step of `Split` at a character that does not start a separator. */
  lemma SplitAtChar(s: string, sep: string)
    requires |sep| > 0 && |s| > 0 && !(sep <= s)
    ensures Split(s, sep) == [[s[0]] + Split(s[1..], sep)[0]] + Split(s[1..], sep)[1..]
  {
  }

  /** Prefixing the first piece with a character prefixes the joined text. */
  lemma JoinGlue(c: char, p: string, rest: seq<string>, sep: string)
    ensures Join([[c] + p] + rest, sep) == [c] + Join([p] + rest, sep)
  {
    if |rest| > 0 {
      JoinCons([c] + p, rest, sep);
      JoinCons(p, rest, sep);
      var j := Join(rest, sep);
      assert ([c] + p) + sep + j == [c] + (p + sep + j);
    }
  }

  lemma JoinCons(p: string, rest: seq<string>, sep: string)
    requires |rest| >= 1
    ensures Join([p] + rest, sep) == p + sep + Join(rest, sep)
  {
    assert ([p] + rest)[1..] == rest;
  }

  /** A piece that cannot start a separator sticks to the front of the first
      piece of what follows it. */
  lemma {:induction false} SplitGlue(t: string, r: string, sep: string)
    requires |sep| > 0
    requires forall i :: 0 <= i < |t| ==> t[i] != sep[0]
    ensures Split(t + r, sep) == [t + Split(r, sep)[0]] + Split(r, sep)[1..]
  {
    if |t| > 0 {
      assert !(sep <= t + r) by { assert (t + r)[0] == t[0]; }
      assert (t + r)[1..] == t[1..] + r;
      SplitGlue(t[1..], r, sep);
      assert [t[0]] + (t[1..] + Split(r, sep)[0]) == t + Split(r, sep)[0];
    } else {
      var p := Split(r, sep);
      assert t + r == r;
      assert t + p[0] == p[0];
      assert p == [p[0]] + p[1..];
    }
  }

  /** A separator at the front splits off an empty piece. */
  lemma SplitLeading(r: string, sep: string)
    requires |sep| > 0
    ensures Split(sep + r, sep) == [""] + Split(r, sep)
  {
    assert (sep + r)[|sep|..] == r;
  }

  /** Splitting on a one-character separator undoes joining pieces that do not
      contain it. */
  lemma {:induction false} SplitJoin(parts: seq<string>, d: char)
    requires |parts| >= 1
    requires forall k, i :: 0 <= k < |parts| && 0 <= i < |parts[k]| ==> parts[k][i] != d
    ensures Split(Join(parts, [d]), [d]) == parts
  {
    if |parts| == 1 {
      SplitGlue(parts[0], "", [d]);
      assert parts[0] + "" == parts[0];
    } else {
      var rest := Join(parts[1..], [d]);
      assert Join(parts, [d]) == parts[0] + ([d] + rest);
      SplitJoin(parts[1..], d);
      SplitLeading(rest, [d]);
      SplitGlue(parts[0], [d] + rest, [d]);
      assert parts[0] + "" == parts[0];
      assert parts == [parts[0]] + parts[1..];
    }
  }

  /** Dropping empty pieces changes nothing when there are none. */
  lemma {:induction false} RemoveEmptyNone(parts: seq<string>)
    requires forall k :: 0 <= k < |parts| ==> parts[k] != []
    ensures RemoveEmpty(parts) == parts
  {
    if |parts| > 0 {
      RemoveEmptyNone(parts[1..]);
      assert parts == [parts[0]] + parts[1..];
    }
  }

  /** A split with empty pieces removed undoes a join of non-empty pieces. */
  lemma SplitNonEmptyJoin(parts: seq<string>, d: char)
    requires |parts| >= 1
    requires forall k :: 0 <= k < |parts| ==> parts[k] != []
    requires forall k, i :: 0 <= k < |parts| && 0 <= i < |parts[k]| ==> parts[k][i] != d
    ensures SplitNonEmpty(Join(parts, [d]), [d]) == parts
  {
    SplitJoin(parts, d);
    RemoveEmptyNone(parts);
  }

  /** An occurrence of a one-character separator cuts the text in two:
      the pieces of the left part, then the pieces of the right part. */
  lemma {:induction false} SplitConcat(a: string, d: char, b: string)
    ensures Split(a + [d] + b, [d]) == Split(a, [d]) + Split(b, [d])
  {
    if |a| == 0 {
      assert a + [d] + b == [d] + b;
      SplitLeading(b, [d]);
    } else {
      var c, a' := a[0], a[1..];
      assert a == [c] + a';
      assert a + [d] + b == [c] + (a' + [d] + b);
      SplitConcat(a', d, b);
      SplitConsPieces(c, a' + [d] + b, a', d, Split(b, [d]));
    }
  }

  /** When the pieces of `x` are those of `y` followed by `tail`, the same
      holds after a common first character. */
  lemma SplitConsPieces(c: char, x: string, y: string, d: char, tail: seq<string>)
    requires Split(x, [d]) == Split(y, [d]) + tail
    ensures Split([c] + x, [d]) == Split([c] + y, [d]) + tail
  {
    var left := Split(y, [d]);
    if c == d {
      SplitLeading(x, [d]);
      SplitLeading(y, [d]);
      assert [""] + (left + tail) == ([""] + left) + tail;
    } else {
      SplitCons(c, x, [d]);
      SplitCons(c, y, [d]);
      GluePieces([c], left, tail);
    }
  }

  /** Gluing a prefix to the first piece commutes with appending pieces. */
  lemma GluePieces(p: string, left: seq<string>, tail: seq<string>)
    requires |left| >= 1
    ensures [p + (left + tail)[0]] + (left + tail)[1..] == ([p + left[0]] + left[1..]) + tail
  {
    assert (left + tail)[0] == left[0];
    assert (left + tail)[1..] == left[1..] + tail;
  }

  /** `Split` at a first character that does not start the separator. */
  lemma SplitCons(c: char, x: string, sep: string)
    requires |sep| > 0 && c != sep[0]
    ensures Split([c] + x, sep) == [[c] + Split(x, sep)[0]] + Split(x, sep)[1..]
  {
    assert ([c] + x)[1..] == x;
  }

  /** Dropping empty pieces distributes over concatenation. */
  lemma {:induction false} RemoveEmptyConcat(x: seq<string>, y: seq<string>)
    ensures RemoveEmpty(x + y) == RemoveEmpty(x) + RemoveEmpty(y)
  {
    if |x| > 0 {
      assert (x + y)[0] == x[0];
      assert (x + y)[1..] == x[1..] + y;
      RemoveEmptyConcat(x[1..], y);
    } else {
      assert x + y == y;
    }
  }

  /** ... so a non-empty split distributes over a separator occurrence too. */
  lemma SplitNonEmptyConcat(a: string, d: char, b: string)
    ensures SplitNonEmpty(a + [d] + b, [d]) == SplitNonEmpty(a, [d]) + SplitNonEmpty(b, [d])
  {
    SplitConcat(a, d, b);
    RemoveEmptyConcat(Split(a, [d]), Split(b, [d]));
  }

  /** Appending a piece to the end of a join. */
  lemma {:induction false} JoinSnoc(parts: seq<string>, p: string, sep: string)
    requires |parts| >= 1
    ensures Join(parts + [p], sep) == Join(parts, sep) + sep + p
  {
    if |parts| == 1 {
      assert parts + [p] == [parts[0]] + [p];
      JoinCons(parts[0], [p], sep);
    } else {
      var rest := parts[1..];
      assert parts + [p] == [parts[0]] + (rest + [p]);
      JoinSnoc(rest, p, sep);
      JoinCons(parts[0], rest + [p], sep);
      JoinCons(parts[0], rest, sep);
      var j := Join(rest, sep);
      assert parts[0] + sep + (j + sep + p) == (parts[0] + sep + j) + sep + p;
    }
  }

  /** A join uses only the characters of its pieces and of its separator. */
  lemma {:induction false} JoinChars(parts: seq<string>, sep: string, alphabet: set<char>)
    requires forall k, i :: 0 <= k < |parts| && 0 <= i < |parts[k]| ==> parts[k][i] in alphabet
    requires forall i :: 0 <= i < |sep| ==> sep[i] in alphabet
    ensures forall i :: 0 <= i < |Join(parts, sep)| ==> Join(parts, sep)[i] in alphabet
  {
    if |parts| > 1 {
      JoinChars(parts[1..], sep, alphabet);
      JoinCons(parts[0], parts[1..], sep);
      assert parts == [parts[0]] + parts[1..];
      var j := Join(parts[1..], sep);
      var t := parts[0] + sep + j;
      forall i | 0 <= i < |t| ensures t[i] in alphabet {
        if i < |parts[0]| {
          assert t[i] == parts[0][i];
        } else if i < |parts[0]| + |sep| {
          assert t[i] == sep[i - |parts[0]|];
        } else {
          assert t[i] == j[i - |parts[0]| - |sep|];
        }
      }
    }
  }

  /** The first and the last character of a join of non-empty pieces. */
  lemma {:induction false} JoinEnds(parts: seq<string>, sep: string)
    requires |parts| >= 1 && forall k :: 0 <= k < |parts| ==> parts[k] != []
    ensures |Join(parts, sep)| > 0
    ensures Join(parts, sep)[0] == parts[0][0]
    ensures Join(parts, sep)[|Join(parts, sep)| - 1] == parts[|parts| - 1][|parts[|parts| - 1]| - 1]
  {
    if |parts| > 1 {
      JoinEnds(parts[1..], sep);
      JoinCons(parts[0], parts[1..], sep);
      assert parts == [parts[0]] + parts[1..];
    }
  }

  /** A trailing space disappears in `Trim`. */
  lemma TrimAppendSpace(s: string)
    ensures Trim(s + " ") == Trim(s)
  {
    TrimStartAppendSpace(s);
    if IsBlank(s) {
      TrimStartBlank(s);
    } else {
      var t := TrimStart(s);
      assert (t + " ")[..|t|] == t;
    }
  }

  lemma {:induction false} TrimStartAppendSpace(s: string)
    ensures TrimStart(s + " ") == if IsBlank(s) then "" else TrimStart(s) + " "
  {
    if |s| == 0 {
      assert s + " " == " ";
      assert TrimStart(" ") == TrimStart(" "[1..]);
    } else {
      assert (s + " ")[0] == s[0];
      assert (s + " ")[1..] == s[1..] + " ";
      TrimStartAppendSpace(s[1..]);
      if IsWhiteSpace(s[0]) {
        assert IsBlank(s) <==> IsBlank(s[1..]) by {
          if IsBlank(s[1..]) {
            forall i | 0 <= i < |s| ensures IsWhiteSpace(s[i]) {
              if i > 0 { assert s[i] == s[1..][i - 1]; }
            }
          }
        }
      }
    }
  }

  lemma {:induction false} TrimStartBlank(s: string)
    requires IsBlank(s)
    ensures TrimStart(s) == ""
  {
    if |s| > 0 {
      TrimStartBlank(s[1..]);
    }
  }

  /** `Remove` keeps exactly the characters other than the removed one. */
  lemma {:induction false} RemoveChars(s: string, c: char, x: char)
    ensures x in Remove(s, c) <==> x in s && x != c
  {
    if |s| > 0 {
      RemoveChars(s[1..], c, x);
      assert x in s <==> x == s[0] || x in s[1..];
    }
  }

  /** A prefix one longer is the prefix followed by the next element. */
  lemma PrefixSnoc<T>(s: seq<T>, i: int)
    requires 0 <= i < |s|
    ensures s[..i + 1] == s[..i] + [s[i]]
  {
  }
}
