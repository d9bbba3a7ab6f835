/**
 * Classification of a UTF-16 code unit against the GSM 7-bit default
 * alphabet and its extension table (3GPP TS 23.038, sections 6.2.1 and
 * 6.2.1.1): how many 7-bit symbols the character costs in an SMS body.
 */
module Gsm338 {
  import opened CodeUnits

  /** Marks the escape position 0x1B of the default alphabet, which holds no character. */
  const Escape: int := -1

  /**
   * The GSM 7-bit default alphabet of section 6.2.1 of 3GPP TS 23.038,
   * indexed by 7-bit code: entry c is the Unicode code point of code c.
   */
  const DefaultAlphabet: seq<int> :=
    Row0 + Row1 + Row2 + Row3 + Row4 + Row5 + Row6 + Row7

  // 0x00..0x0F: @ £ $ ¥ è é ù ì ò Ç LF Ø ø CR Å å
  const Row0: seq<int> := [
    0x0040, 0x00A3, 0x0024, 0x00A5, 0x00E8, 0x00E9, 0x00F9, 0x00EC,
    0x00F2, 0x00C7, 0x000A, 0x00D8, 0x00F8, 0x000D, 0x00C5, 0x00E5
  ]

  // 0x10..0x1F: Δ _ Φ Γ Λ Ω Π Ψ Σ Θ Ξ (escape) Æ æ ß É
  const Row1: seq<int> := [
    0x0394, 0x005F, 0x03A6, 0x0393, 0x039B, 0x03A9, 0x03A0, 0x03A8,
    0x03A3, 0x0398, 0x039E, Escape, 0x00C6, 0x00E6, 0x00DF, 0x00C9
  ]

  // 0x20..0x2F: space ! " # ¤ % & ' ( ) * + , - . /
  const Row2: seq<int> := [
    0x0020, 0x0021, 0x0022, 0x0023, 0x00A4, 0x0025, 0x0026, 0x0027,
    0x0028, 0x0029, 0x002A, 0x002B, 0x002C, 0x002D, 0x002E, 0x002F
  ]

  // 0x30..0x3F: 0-9 : ; < = > ?
  const Row3: seq<int> := [
    0x0030, 0x0031, 0x0032, 0x0033, 0x0034, 0x0035, 0x0036, 0x0037,
    0x0038, 0x0039, 0x003A, 0x003B, 0x003C, 0x003D, 0x003E, 0x003F
  ]

  // 0x40..0x4F: ¡ A-O
  const Row4: seq<int> := [
    0x00A1, 0x0041, 0x0042, 0x0043, 0x0044, 0x0045, 0x0046, 0x0047,
    0x0048, 0x0049, 0x004A, 0x004B, 0x004C, 0x004D, 0x004E, 0x004F
  ]

  // 0x50..0x5F: P-Z Ä Ö Ñ Ü §
  const Row5: seq<int> := [
    0x0050, 0x0051, 0x0052, 0x0053, 0x0054, 0x0055, 0x0056, 0x0057,
    0x0058, 0x0059, 0x005A, 0x00C4, 0x00D6, 0x00D1, 0x00DC, 0x00A7
  ]

  // 0x60..0x6F: ¿ a-o
  const Row6: seq<int> := [
    0x00BF, 0x0061, 0x0062, 0x0063, 0x0064, 0x0065, 0x0066, 0x0067,
    0x0068, 0x0069, 0x006A, 0x006B, 0x006C, 0x006D, 0x006E, 0x006F
  ]

  // 0x70..0x7F: p-z ä ö ñ ü à
  const Row7: seq<int> := [
    0x0070, 0x0071, 0x0072, 0x0073, 0x0074, 0x0075, 0x0076, 0x0077,
    0x0078, 0x0079, 0x007A, 0x00E4, 0x00F6, 0x00F1, 0x00FC, 0x00E0
  ]

  /**
   * The characters of the extension table of section 6.2.1.1 of
   * 3GPP TS 23.038, each reached by the escape code 0x1B followed by the
   * extension code given in the comment.
   */
  const ExtensionChars: seq<int> := [
    0x000C, // 0x0A form feed
    0x005E, // 0x14 ^
    0x007B, // 0x28 {
    0x007D, // 0x29 }
    0x005C, // 0x2F \
    0x005B, // 0x3C [
    0x007E, // 0x3D ~
    0x005D, // 0x3E ]
    0x007C, // 0x40 |
    0x20AC  // 0x65 euro sign
  ]

  /**
   * The number of 7-bit GSM symbols that encode `u`: 1 for a character of
   * the default alphabet, 2 for an escaped extension character, and -1 when
   * the character has no GSM encoding. The case lists are those of the
   * implementation; the postconditions show they are exactly the tables above.
   */
  function Gsm338Len(u: uint16): (r: int)
    ensures r == 1 || r == 2 || r == -1
  {
    if u < 0x80 then
      match u as char
      case '\r' | '\n' | ' '
        | '!' | '"' | '#' | '$' | '%' | '&' | '\'' | '('
        | ')' | '*' | '+' | ',' | '-' | '.' | '/'
        | '0' | '1' | '2' | '3' | '4' | '5' | '6' | '7' | '8' | '9'
        | ':' | ';' | '<' | '=' | '>' | '?' | '@'
        | 'A' | 'B' | 'C' | 'D' | 'E' | 'F' | 'G' | 'H' | 'I' | 'J' | 'K'
        | 'L' | 'M' | 'N' | 'O' | 'P' | 'Q' | 'R' | 'S' | 'T' | 'U' | 'V'
        | 'W' | 'X' | 'Y' | 'Z' | '_' | 'a' | 'b' | 'c' | 'd' | 'e' | 'f'
        | 'g' | 'h' | 'i' | 'j' | 'k' | 'l' | 'm' | 'n' | 'o' | 'p' | 'q'
        | 'r' | 's' | 't' | 'u' | 'v' | 'w' | 'x' | 'y' | 'z' => 1
      case '|' | '^' | '{' | '}' | '[' | '~' | ']' | '\\' | '\U{000C}' => 2
      case _ => -1
    else
      match u
      case 0x00a1 | 0x00a3 | 0x00a4 | 0x00a5 | 0x00a7 | 0x00bf | 0x00c4
        | 0x00c5 | 0x00c6 | 0x00c7 | 0x00c9 | 0x00d1 | 0x00d6 | 0x00d8
        | 0x00dc | 0x00df | 0x00e0 | 0x00e4 | 0x00e5 | 0x00e6 | 0x00e8
        | 0x00e9 | 0x00ec | 0x00f1 | 0x00f2 | 0x00f6 | 0x00f8 | 0x00f9
        | 0x00fc | 0x0393 | 0x0394 | 0x0398 | 0x039b | 0x039e | 0x03a0
        | 0x03a3 | 0x03a6 | 0x03a8 | 0x03a9 => 1
      case 0x20ac => 2
      case _ => -1
  }

  /** True when `u` has a GSM 7-bit encoding, plain or escaped. */
  predicate IsGsm(u: uint16) {
    Gsm338Len(u) != -1
  }

  /** Membership in the default alphabet, one 16-entry row at a time. */
  lemma InAlphabetRows(x: int)
    ensures x in DefaultAlphabet <==>
      x in Row0 || x in Row1 || x in Row2 || x in Row3 || x in Row4 || x in Row5 || x in Row6 || x in Row7
  {
  }

  /** Below 0x80 the classifier's width-1 cases are LF, CR, 0x20..0x5A, '_' and 'a'..'z'. */
  lemma AsciiWidthOneRanges(u: uint16)
    requires u < 0x80
    ensures Gsm338Len(u) == 1 <==>
      u == 0x0A || u == 0x0D || 0x20 <= u <= 0x5A || u == 0x5F || 0x61 <= u <= 0x7A
  {
  }

  /** The ASCII ranges of the width-1 cases all lie in the default alphabet. */
  lemma AsciiRangesInAlphabet(u: uint16)
    requires u == 0x0A || u == 0x0D || 0x20 <= u <= 0x5A || u == 0x5F || 0x61 <= u <= 0x7A
    ensures u as int in DefaultAlphabet
  {
    InAlphabetRows(u as int);
    if u < 0x20 || u == 0x24 || u == 0x40 { assert u as int in Row0; }
    else if u == 0x5F { assert u as int in Row1; }
    else if u < 0x30 { assert u as int in Row2; }
    else if u < 0x40 { assert u as int in Row3; }
    else if u < 0x50 { assert u as int in Row4; }
    else if u < 0x60 { assert u as int in Row5; }
    else if u < 0x70 { assert u as int in Row6; }
    else { assert u as int in Row7; }
  }

  /** The ASCII characters of the default alphabet lie in those ranges. */
  lemma AlphabetAsciiInRanges(u: uint16)
    requires u < 0x80 && u as int in DefaultAlphabet
    ensures u == 0x0A || u == 0x0D || 0x20 <= u <= 0x5A || u == 0x5F || 0x61 <= u <= 0x7A
  {
    InAlphabetRows(u as int);
    var x := u as int;
    if x in Row0 || x in Row1 {
      assert x == 0x40 || x == 0x24 || x == 0x0A || x == 0x0D || x == 0x5F;
    } else if x in Row2 || x in Row3 || x in Row4 || x in Row5 {
      assert 0x20 <= x <= 0x5A;
    } else {
      assert 0x61 <= x <= 0x7A;
    }
  }

  /** Above ASCII, the width-1 cases and the default alphabet coincide. */
  lemma NonAsciiWidthOne(u: uint16)
    requires u >= 0x80
    ensures Gsm338Len(u) == 1 <==> u as int in DefaultAlphabet
  {
    if Gsm338Len(u) == 1 {
      NonAsciiWidthOneInAlphabet(u);
    } else if u as int in DefaultAlphabet {
      NonAsciiAlphabetWidthOne(u);
    }
  }

  /** Above ASCII, every character of the default alphabet is a width-1 case of the classifier. */
  lemma NonAsciiAlphabetWidthOne(u: uint16)
    requires u >= 0x80 && u as int in DefaultAlphabet
    ensures Gsm338Len(u) == 1
  {
    InAlphabetRows(u as int);
    if u as int in Row0 {
      Row0WidthOne(u);
    } else if u as int in Row1 {
      Row1WidthOne(u);
    } else if u as int in Row2 || u as int in Row3 || u as int in Row4 || u as int in Row5 {
      Rows2To5WidthOne(u);
    } else {
      Rows6To7WidthOne(u);
    }
  }

  /** The non-ASCII characters of codes 0x00..0x0F are width-1 cases. */
  lemma Row0WidthOne(u: uint16)
    requires u >= 0x80 && u as int in Row0
    ensures Gsm338Len(u) == 1
  {
    assert u in {0xA3, 0xA5, 0xE8, 0xE9, 0xF9, 0xEC, 0xF2, 0xC7, 0xD8, 0xF8, 0xC5, 0xE5};
  }

  /** The non-ASCII characters of codes 0x10..0x1F are width-1 cases. */
  lemma Row1WidthOne(u: uint16)
    requires u >= 0x80 && u as int in Row1
    ensures Gsm338Len(u) == 1
  {
    assert u in {0x394, 0x3A6, 0x393, 0x39B, 0x3A9, 0x3A0, 0x3A8, 0x3A3, 0x398, 0x39E, 0xC6, 0xE6, 0xDF, 0xC9};
  }

  /** The non-ASCII characters of codes 0x20..0x5F are width-1 cases. */
  lemma Rows2To5WidthOne(u: uint16)
    requires u >= 0x80 && (u as int in Row2 || u as int in Row3 || u as int in Row4 || u as int in Row5)
    ensures Gsm338Len(u) == 1
  {
    assert u in {0xA4, 0xA1, 0xC4, 0xD6, 0xD1, 0xDC, 0xA7};
  }

  /** The non-ASCII characters of codes 0x60..0x7F are width-1 cases. */
  lemma Rows6To7WidthOne(u: uint16)
    requires u >= 0x80 && (u as int in Row6 || u as int in Row7)
    ensures Gsm338Len(u) == 1
  {
    assert u in {0xBF, 0xE4, 0xF6, 0xF1, 0xFC, 0xE0};
  }

  /** Above ASCII, every width-1 case of the classifier is in the default alphabet. */
  lemma NonAsciiWidthOneInAlphabet(u: uint16)
    requires u >= 0x80 && Gsm338Len(u) == 1
    ensures u as int in DefaultAlphabet
  {
    InAlphabetRows(u as int);
    if u < 0x100 {
      assert u as int in Row0 || u as int in Row1 || u as int in Row2 || u as int in Row4
        || u as int in Row5 || u as int in Row6 || u as int in Row7;
    } else {
      assert u as int in Row1;
    }
  }

  /**
   * The classifier agrees with the standard: a code unit costs one 7-bit
   * symbol exactly when it is a character of the default alphabet, two
   * exactly when it is a character of the extension table, and has no GSM
   * encoding otherwise.
   */
  lemma WidthMatchesStandardTables(u: uint16)
    ensures Gsm338Len(u) == 1 <==> u as int in DefaultAlphabet
    ensures Gsm338Len(u) == 2 <==> u as int in ExtensionChars
    ensures Gsm338Len(u) == -1 <==> u as int !in DefaultAlphabet && u as int !in ExtensionChars
  {
    if u < 0x80 {
      AsciiWidthOneRanges(u);
      if Gsm338Len(u) == 1 {
        AsciiRangesInAlphabet(u);
      } else if u as int in DefaultAlphabet {
        AlphabetAsciiInRanges(u);
      }
    } else {
      NonAsciiWidthOne(u);
    }
  }
}
