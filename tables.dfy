/** The two dictionaries of Ciphers.cs: `MorseMap` (character to Morse code)
    and `TranslitMap` (Russian letter to Latin letter). */
module Tables {
  import opened Failures

  /** `MorseMap`: the lookup `MorseMap[c]`, `None` where `ContainsKey` fails.
      Every key lies between the space and `Z`. */
  function Code(c: char): (r: Option<string>)
    ensures r.Some? ==> ' ' <= c <= 'Z'
  {
    match c
    case 'A' => Some(".-") case 'B' => Some("-...") case 'C' => Some("-.-.")
    case 'D' => Some("-..") case 'E' => Some(".") case 'F' => Some("..-.")
    case 'G' => Some("--.") case 'H' => Some("....") case 'I' => Some("..")
    case 'J' => Some(".---") case 'K' => Some("-.-") case 'L' => Some(".-..")
    case 'M' => Some("--") case 'N' => Some("-.") case 'O' => Some("---")
    case 'P' => Some(".--.") case 'Q' => Some("--.-") case 'R' => Some(".-.")
    case 'S' => Some("...") case 'T' => Some("-") case 'U' => Some("..-")
    case 'V' => Some("...-") case 'W' => Some(".--") case 'X' => Some("-..-")
    case 'Y' => Some("-.--") case 'Z' => Some("--..")
    case '0' => Some("-----") case '1' => Some(".----") case '2' => Some("..---")
    case '3' => Some("...--") case '4' => Some("....-") case '5' => Some(".....")
    case '6' => Some("-....") case '7' => Some("--...") case '8' => Some("---..")
    case '9' => Some("----.")
    case ' ' => Some("/") case '.' => Some(".-.-.-") case ',' => Some("--..--")
    case '?' => Some("..--..") case '!' => Some("-.-.--") case '@' => Some(".--.-.")
    case _ => None
  }

  /** The keys of the table are the Latin capitals, the digits, the space
      and `.,?!@`. */
  lemma KeysInRange(c: char)
    ensures Code(c).Some? <==> 'A' <= c <= 'Z' || '0' <= c <= '9' || c in " .,?!@"
  {
  }

  /** No two characters share a code, which is what lets
      `MorseMap.ToDictionary(x => x.Value, x => x.Key)` succeed. */
  lemma CodesDistinct()
    ensures forall c, d :: Code(c).Some? && Code(c) == Code(d) ==> c == d
  {
  }

  /** Every code is a non-empty word over `.` and `-`, except the code `/`
      of the space. */
  lemma CodeShape(c: char)
    requires Code(c).Some?
    ensures var s := Code(c).value;
      s != [] && ' ' !in s &&
      (c == ' ' ==> s == "/") &&
      (c != ' ' ==> forall i :: 0 <= i < |s| ==> s[i] == '.' || s[i] == '-')
  {
    match c
    case 'A' => case 'B' => case 'C' => case 'D' => case 'E' => case 'F' => case 'G' => case 'H' => case 'I' => case 'J' =>
    case 'K' => case 'L' => case 'M' => case 'N' => case 'O' => case 'P' => case 'Q' => case 'R' => case 'S' => case 'T' =>
    case 'U' => case 'V' => case 'W' => case 'X' => case 'Y' => case 'Z' => case '0' => case '1' => case '2' => case '3' =>
    case '4' => case '5' => case '6' => case '7' => case '8' => case '9' => case ' ' => case '.' => case ',' => case '?' =>
    case '!' => case '@' =>
  }

  /** The reversed dictionary of `MorseDecode`. */
  function Decode(code: string): (r: Option<char>)
    ensures r.Some? ==> Code(r.value) == Some(code)
  {
    if exists c :: ' ' <= c <= 'Z' && Code(c) == Some(code) then
      CodesDistinct();
      var c :| ' ' <= c <= 'Z' && Code(c) == Some(code);
      Some(c)
    else
      None
  }

  /** Looking up the code of a character in the reversed dictionary gives the
      character back. */
  lemma DecodeCode(c: char)
    requires Code(c).Some?
    ensures Decode(Code(c).value) == Some(c)
  {
    CodesDistinct();
    KeysInRange(c);
  }

  /** The reversed dictionary fails exactly on the strings that are nobody's code. */
  lemma DecodeMissing(code: string)
    ensures Decode(code) == None <==> forall c :: Code(c) != Some(code)
  {
    if Decode(code) == None {
      forall c ensures Code(c) != Some(code) {
        KeysInRange(c);
      }
    }
  }

  lemma DecodeExamples()
    ensures Decode("...") == Some('S') && Decode("---") == Some('O')
    ensures Decode("/") == Some(' ')
  {
    DecodeCode('S');
    DecodeCode('O');
    DecodeCode(' ');
  }

  /** "-.-.-" is not in the table. */
  lemma DecodeUnknownExample()
    ensures Decode("-.-.-") == None
  {
    forall c ensures Code(c) != Some("-.-.-") {
      match c
      case 'A' => case 'B' => case 'C' => case 'D' => case 'E' => case 'F' => case 'G' => case 'H' => case 'I' => case 'J' =>
      case 'K' => case 'L' => case 'M' => case 'N' => case 'O' => case 'P' => case 'Q' => case 'R' => case 'S' => case 'T' =>
      case 'U' => case 'V' => case 'W' => case 'X' => case 'Y' => case 'Z' => case '0' => case '1' => case '2' => case '3' =>
      case '4' => case '5' => case '6' => case '7' => case '8' => case '9' => case ' ' => case '.' => case ',' => case '?' =>
      case '!' => case '@' =>
      case _ =>
    }
    DecodeMissing("-.-.-");
  }

  /** `TranslitMap`: Russian letters to Latin letters; Ъ, Ь, ъ and ь map to
      an apostrophe. */
  function Translit(c: char): (r: Option<char>)
    ensures r.Some? <==> 'А' <= c <= 'я' || c == 'Ё' || c == 'ё'
  {
    match c
    case 'А' => Some('A') case 'Б' => Some('B') case 'В' => Some('V') case 'Г' => Some('G')
    case 'Д' => Some('D') case 'Е' => Some('E') case 'Ё' => Some('E') case 'Ж' => Some('Z')
    case 'З' => Some('Z') case 'И' => Some('I') case 'Й' => Some('I') case 'К' => Some('K')
    case 'Л' => Some('L') case 'М' => Some('M') case 'Н' => Some('N') case 'О' => Some('O')
    case 'П' => Some('P') case 'Р' => Some('R') case 'С' => Some('S') case 'Т' => Some('T')
    case 'У' => Some('U') case 'Ф' => Some('F') case 'Х' => Some('H') case 'Ц' => Some('C')
    case 'Ч' => Some('C') case 'Ш' => Some('S') case 'Щ' => Some('S') case 'Ъ' => Some('\'')
    case 'Ы' => Some('Y') case 'Ь' => Some('\'') case 'Э' => Some('E') case 'Ю' => Some('U')
    case 'Я' => Some('Y')
    case 'а' => Some('a') case 'б' => Some('b') case 'в' => Some('v') case 'г' => Some('g')
    case 'д' => Some('d') case 'е' => Some('e') case 'ё' => Some('e') case 'ж' => Some('z')
    case 'з' => Some('z') case 'и' => Some('i') case 'й' => Some('i') case 'к' => Some('k')
    case 'л' => Some('l') case 'м' => Some('m') case 'н' => Some('n') case 'о' => Some('o')
    case 'п' => Some('p') case 'р' => Some('r') case 'с' => Some('s') case 'т' => Some('t')
    case 'у' => Some('u') case 'ф' => Some('f') case 'х' => Some('h') case 'ц' => Some('c')
    case 'ч' => Some('c') case 'ш' => Some('s') case 'щ' => Some('s') case 'ъ' => Some('\'')
    case 'ы' => Some('y') case 'ь' => Some('\'') case 'э' => Some('e') case 'ю' => Some('u')
    case 'я' => Some('y')
    case _ => None
  }

  /** The transliteration of a Russian letter is a Latin letter of the same
      case, except for the hard and soft signs, which become an apostrophe. */
  lemma TranslitShape(c: char)
    requires Translit(c).Some?
    ensures var l := Translit(c).value;
      if c in "ЪЬъь" then l == '\''
      else if 'А' <= c <= 'Я' || c == 'Ё' then 'A' <= l <= 'Z'
      else ('а' <= c <= 'я' || c == 'ё') && 'a' <= l <= 'z'
  {
    match c
    case 'А' => case 'Б' => case 'В' => case 'Г' => case 'Д' => case 'Е' => case 'Ё' => case 'Ж' => case 'З' => case 'И' => case 'Й' =>
    case 'К' => case 'Л' => case 'М' => case 'Н' => case 'О' => case 'П' => case 'Р' => case 'С' => case 'Т' => case 'У' => case 'Ф' =>
    case 'Х' => case 'Ц' => case 'Ч' => case 'Ш' => case 'Щ' => case 'Ъ' => case 'Ы' => case 'Ь' => case 'Э' => case 'Ю' => case 'Я' =>
    case 'а' => case 'б' => case 'в' => case 'г' => case 'д' => case 'е' => case 'ё' => case 'ж' => case 'з' => case 'и' => case 'й' =>
    case 'к' => case 'л' => case 'м' => case 'н' => case 'о' => case 'п' => case 'р' => case 'с' => case 'т' => case 'у' => case 'ф' =>
    case 'х' => case 'ц' => case 'ч' => case 'ш' => case 'щ' => case 'ъ' => case 'ы' => case 'ь' => case 'э' => case 'ю' => case 'я' =>
  }
}
