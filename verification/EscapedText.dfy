/** Percent-escapes written by a printer of its own: decoding reads every byte back. */
module EscapedText {
  import opened Octets
  import opened Alphabet
  import opened Target
  import opened Containment

  /** Section 2.1 of RFC 3986: a percent sign and the two digits of the byte. */
  function Escape(b: byte, upper: bool): string
    requires b as int < 256
  {
    "%" + [HexTable(upper)[b as int / 16], HexTable(upper)[b as int % 16]]
  }

  lemma EscapeDecodes(b: byte, upper: bool)
    requires b as int < 256
    ensures WellEscaped(Escape(b, upper)) && Decoded(Escape(b, upper)) == [b]
  {
    var s, n := Escape(b, upper), b as int;
    HexDigitsAreByTable(upper, n / 16);
    HexDigitsAreByTable(upper, n % 16);
    assert s[0] == '%' && s[1] == HexTable(upper)[n / 16] && s[2] == HexTable(upper)[n % 16];
    assert !IsHex('%');
    assert WellEscaped(s);
    DecodesIffWellEscaped(s);
    assert s[3..] == [];
    assert DecodeEscape(s[1], s[2]) == b;
  }

  /** Each byte as itself or escaped. */
  function Spelled(s: bytes, escaped: seq<bool>, upper: bool): string
    requires |escaped| == |s| && forall i :: 0 <= i < |s| ==> s[i] as int < 256
  {
    if s == [] then []
    else (if escaped[0] then Escape(s[0], upper) else [s[0]]) + Spelled(s[1..], escaped[1..], upper)
  }

  lemma {:induction false} SpelledIsWellEscaped(s: bytes, escaped: seq<bool>, upper: bool)
    requires |escaped| == |s| && forall i :: 0 <= i < |s| ==> s[i] as int < 256
    requires forall i :: 0 <= i < |s| && s[i] == '%' ==> escaped[i]
    ensures WellEscaped(Spelled(s, escaped, upper)) && Decoded(Spelled(s, escaped, upper)) == s
  {
    if s == [] {
      EmptyDecodes();
    } else {
      hide Escape;
      hide Decoded;
      hide WellEscaped;
      var first := if escaped[0] then Escape(s[0], upper) else [s[0]];
      if escaped[0] {
        EscapeDecodes(s[0], upper);
      } else {
        DecodePlainByte(s[0]);
      }
      SpelledIsWellEscaped(s[1..], escaped[1..], upper);
      DecodeConcat(first, Spelled(s[1..], escaped[1..], upper));
      assert s == [s[0]] + s[1..];
    }
  }

  /** Whichever bytes are escaped, in either case, decoding gives the bytes back; only the percent
      sign has to be. */
  lemma SpelledDecodes(s: bytes, escaped: seq<bool>, upper: bool)
    requires |escaped| == |s| && forall i :: 0 <= i < |s| ==> s[i] as int < 256
    requires forall i :: 0 <= i < |s| && s[i] == '%' ==> escaped[i]
    ensures PercentDecode(Spelled(s, escaped, upper)) == Some(s)
  {
    SpelledIsWellEscaped(s, escaped, upper);
    hide Spelled;
    hide PercentDecode;
    DecodesIffWellEscaped(Spelled(s, escaped, upper));
  }
}
