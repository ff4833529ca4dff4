/** The character classes, digits and numbers of every parser, measured against literal tables:
    the standards' own lists, and printers that read nothing of the parsers. */
module Alphabet {
  import opened Octets

  const LOWER_CASE: bytes := "abcdefghijklmnopqrstuvwxyz"
  const UPPER_CASE: bytes := "ABCDEFGHIJKLMNOPQRSTUVWXYZ"
  const LOWER_HEX: bytes := "0123456789abcdef"
  const UPPER_HEX: bytes := "0123456789ABCDEF"

  /** Section 5.6.2 of RFC 9110. */
  const DELIMITERS: bytes := "\"(),/:;<=>?@[\\]{}"

  // ----- classes -----

  /** A token is made of visible characters other than delimiters. */
  lemma TokensExcludeDelimiters(c: byte)
    ensures IsTokenByte(c) <==> 0x21 <= c as int <= 0x7E && c !in DELIMITERS
  {
  }

  /** Section 5.5 of RFC 9110: field values are visible characters, spaces and tabs. */
  lemma FieldValuesAreVisible(c: byte)
    ensures IsPrintable(c) <==> 0x21 <= c as int <= 0x7E
    ensures IsFieldByte(c) <==> IsPrintable(c) || c as int == 0x20 || c as int == 0x09
    ensures IsOws(c) <==> c as int == 0x20 || c as int == 0x09
    ensures IsShown(c) <==> IsPrintable(c) || c as int == 0x20
  {
  }

  /** The White_Space property of Unicode, code point by code point. */
  lemma WhiteSpaceIsListed(c: char)
    ensures IsWhite(c) <==> c as int in {0x09, 0x0A, 0x0B, 0x0C, 0x0D, 0x20, 0x85, 0xA0, 0x1680,
                                         0x2000, 0x2001, 0x2002, 0x2003, 0x2004, 0x2005, 0x2006, 0x2007, 0x2008,
                                         0x2009, 0x200A, 0x2028, 0x2029, 0x202F, 0x205F, 0x3000}
  {
  }

  // ----- case -----

  lemma LowerTable(k: nat)
    requires k < 26
    ensures LOWER_CASE[k] as int == 97 + k
  {
  }

  lemma UpperTable(k: nat)
    requires k < 26
    ensures UPPER_CASE[k] as int == 65 + k
  {
  }

  /** The two cases of one letter, by its place in the alphabet. */
  ghost predicate IsLetterPair(upper: byte, lower: byte) {
    exists k :: 0 <= k < 26 && upper == UPPER_CASE[k] && lower == LOWER_CASE[k]
  }

  lemma LetterPairsByCode(upper: byte, lower: byte)
    ensures IsLetterPair(upper, lower) <==> 65 <= upper as int < 91 && lower as int == upper as int + 32
  {
    if k :| 0 <= k < 26 && upper == UPPER_CASE[k] && lower == LOWER_CASE[k] {
      LowerTable(k);
      UpperTable(k);
    }
    if 65 <= upper as int < 91 && lower as int == upper as int + 32 {
      var k := upper as int - 65;
      LowerTable(k);
      UpperTable(k);
      assert upper == UPPER_CASE[k] && lower == LOWER_CASE[k];
    }
  }

  /** Changing case exchanges the two cases of a letter and leaves every other byte alone. */
  lemma CaseIsByTable(c: byte, d: byte)
    ensures LowerByte(c) == d <==> IsLetterPair(c, d) || (c == d && !exists e :: IsLetterPair(c, e))
    ensures UpperByte(c) == d <==> IsLetterPair(d, c) || (c == d && !exists e :: IsLetterPair(e, c))
  {
    hide IsLetterPair;
    LetterPairsByCode(c, d);
    LetterPairsByCode(d, c);
    forall e ensures IsLetterPair(c, e) <==> 65 <= c as int < 91 && e as int == c as int + 32 {
      LetterPairsByCode(c, e);
    }
    forall e ensures IsLetterPair(e, c) <==> 65 <= e as int < 91 && c as int == e as int + 32 {
      LetterPairsByCode(e, c);
    }
    if 65 <= c as int < 91 {
      assert IsLetterPair(c, (c as int + 32) as char);
    }
    if 97 <= c as int < 123 {
      assert IsLetterPair((c as int - 32) as char, c);
    }
  }

  lemma FoldIsByTable(a: byte, b: byte)
    ensures LowerByte(a) == LowerByte(b) <==> a == b || IsLetterPair(a, b) || IsLetterPair(b, a)
  {
    LetterPairsByCode(a, b);
    LetterPairsByCode(b, a);
  }

  /** Equality up to case: the same length, and at each place the same byte or the two cases of
      one letter. */
  lemma EqIgnoreCaseIsExact(a: bytes, b: bytes)
    ensures EqIgnoreCase(a, b)
            <==> |a| == |b| && forall i :: 0 <= i < |a| ==>
                                 a[i] == b[i] || IsLetterPair(a[i], b[i]) || IsLetterPair(b[i], a[i])
  {
    hide IsLetterPair;
    if |a| == |b| {
      forall i | 0 <= i < |a|
        ensures LowerByte(a[i]) == LowerByte(b[i])
                <==> a[i] == b[i] || IsLetterPair(a[i], b[i]) || IsLetterPair(b[i], a[i])
      {
        FoldIsByTable(a[i], b[i]);
      }
    }
    hide LowerByte;
    if EqIgnoreCase(a, b) {
      assert |Lower(a)| == |a| && |Lower(b)| == |b|;
      assert forall i :: 0 <= i < |a| ==> Lower(a)[i] == LowerByte(a[i]) && Lower(b)[i] == LowerByte(b[i]);
    }
  }

  // ----- decimal -----

  lemma DigitsAreByTable(c: byte)
    ensures IsDigit(c) <==> c in "0123456789"
    ensures forall k :: 0 <= k < 10 ==> IsDigit("0123456789"[k]) && DigitValue("0123456789"[k]) == k
  {
  }

  lemma DecimalIsByTable(n: nat)
    ensures Decimal(n) == (if n < 10 then [] else Decimal(n / 10)) + ["0123456789"[n % 10]]
  {
  }

  /** An unsigned number is read exactly from digits, after one optional sign, up to the largest. */
  lemma ParseUnsignedIsExact(s: bytes, max: nat, n: nat)
    ensures ParseUnsigned(s, max) == Some(n)
            <==> exists digits :: && (s == digits || s == "+" + digits) && digits != []
                                  && AllDigits(digits) && DecimalValue(digits) == n && n <= max
  {
    var bare := if s != [] && s[0] == '+' then s[1..] else s;
    if ParseUnsigned(s, max) == Some(n) {
      assert s == bare || s == "+" + bare;
    }
    if digits :| && (s == digits || s == "+" + digits) && digits != []
                 && AllDigits(digits) && DecimalValue(digits) == n && n <= max {
      assert IsDigit(digits[0]);
      assert digits == bare;
    }
  }

  // ----- hexadecimal -----

  function HexTable(upper: bool): (table: bytes)
    ensures |table| == 16
  {
    if upper then UPPER_HEX else LOWER_HEX
  }

  lemma HexDigitsAreByTable(upper: bool, k: nat)
    requires k < 16
    ensures IsHex(HexTable(upper)[k]) && HexDigitValue(HexTable(upper)[k]) == k
  {
  }

  lemma HexIsByTable(c: byte)
    ensures IsHex(c) <==> c in LOWER_HEX || c in UPPER_HEX
  {
    if IsHex(c) {
      if IsDigit(c) {
        assert LOWER_HEX[c as int - 48] == c;
      } else if 'a' <= c <= 'f' {
        assert LOWER_HEX[c as int - 87] == c;
      } else {
        assert UPPER_HEX[c as int - 55] == c;
      }
    }
  }
}
