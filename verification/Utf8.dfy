/** Decoding UTF-8, as far as reading a text from bytes needs it. */
module Utf8 {
  import opened Octets

  function Code(b: byte): nat {
    b as int
  }

  predicate IsContinuation(b: byte) {
    0x80 <= Code(b) < 0xC0
  }

  /** The length and the code point of the first well-formed sequence; RFC 3629 section 4. */
  function FirstScalar(s: bytes): (r: Option<(nat, nat)>)
    requires s != []
    ensures r.Some? ==> 1 <= r.value.0 <= |s|
    ensures r.Some? ==> r.value.1 < 0xD800 || 0xE000 <= r.value.1 < 0x11_0000
  {
    var a := Code(s[0]);
    if a < 0x80 then Some((1, a))
    else if 0xC2 <= a < 0xE0 && |s| >= 2 && IsContinuation(s[1]) then
      Some((2, (a - 0xC0) * 0x40 + Code(s[1]) - 0x80))
    else if 0xE0 <= a < 0xF0 && |s| >= 3 && IsContinuation(s[1]) && IsContinuation(s[2]) then
      var n := (a - 0xE0) * 0x1000 + (Code(s[1]) - 0x80) * 0x40 + Code(s[2]) - 0x80;
      if n < 0x800 || 0xD800 <= n < 0xE000 then None else Some((3, n))
    else if 0xF0 <= a < 0xF5 && |s| >= 4 && IsContinuation(s[1]) && IsContinuation(s[2]) && IsContinuation(s[3]) then
      var n := (a - 0xF0) * 0x4_0000 + (Code(s[1]) - 0x80) * 0x1000 + (Code(s[2]) - 0x80) * 0x40 + Code(s[3]) - 0x80;
      if n < 0x1_0000 || n >= 0x11_0000 then None else Some((4, n))
    else None
  }

  function Decode(s: bytes): Option<string>
    decreases |s|
  {
    if s == [] then Some("")
    else
      match FirstScalar(s)
      case None => None
      case Some((n, code)) =>
        match Decode(s[n..])
        case None => None
        case Some(rest) => Some([code as char] + rest)
  }

  /** ASCII bytes are their own text. */
  lemma {:induction false} AsciiDecodes(s: bytes)
    requires All(s, IsAscii)
    ensures Decode(s) == Some(s)
    decreases |s|
  {
    if s != [] {
      assert IsAscii(s[0]);
      assert forall i :: 0 <= i < |s[1..]| ==> s[1..][i] == s[i + 1];
      AsciiDecodes(s[1..]);
      assert s == [s[0]] + s[1..];
    }
  }

  // ----- exactly UTF-8 -----

  predicate IsScalar(n: nat) {
    n < 0xD800 || 0xE000 <= n < 0x11_0000
  }

  /** The bytes of one scalar value: table 3 of RFC 3629. */
  function ScalarBytes(n: nat): bytes
    requires IsScalar(n)
  {
    if n <= 0x7F then [n as char]
    else if n <= 0x7FF then [(0xC0 + n / 64) as char, (0x80 + n % 64) as char]
    else if n <= 0xFFFF then [(0xE0 + n / 4096) as char, (0x80 + n / 64 % 64) as char, (0x80 + n % 64) as char]
    else [(0xF0 + n / 262144) as char, (0x80 + n / 4096 % 64) as char,
          (0x80 + n / 64 % 64) as char, (0x80 + n % 64) as char]
  }

  function TextBytes(s: string): bytes {
    if s == [] then [] else ScalarBytes(s[0] as int) + TextBytes(s[1..])
  }

  /** The continuation byte for six bits. */
  function Six(n: nat): byte
    requires n < 64
  {
    (0x80 + n) as char
  }

  lemma SplitSix(n: nat)
    ensures n == n / 64 * 64 + n % 64 && n % 64 < 64
    ensures n / 64 == n / 4096 * 64 + n / 64 % 64
    ensures n / 4096 == n / 262144 * 64 + n / 4096 % 64
  {
    var m := n / 64;
    assert m / 64 == n / 4096;
    var k := n / 4096;
    assert k / 64 == n / 262144;
  }

  /** Two bytes. */
  lemma FirstOfTwo(s: bytes, a: nat, b: nat)
    requires |s| >= 2 && 2 <= a < 32 && b < 64 && s[0] == (0xC0 + a) as char && s[1] == Six(b)
    ensures FirstScalar(s) == Some((2, a * 64 + b))
  {
  }

  /** Three bytes. */
  lemma FirstOfThree(s: bytes, a: nat, b: nat, c: nat)
    requires |s| >= 3 && a < 16 && b < 64 && c < 64
    requires s[0] == (0xE0 + a) as char && s[1] == Six(b) && s[2] == Six(c)
    ensures var n := a * 4096 + b * 64 + c;
            FirstScalar(s) == if n < 0x800 || 0xD800 <= n < 0xE000 then None else Some((3, n))
  {
  }

  /** Four bytes. */
  lemma FirstOfFour(s: bytes, a: nat, b: nat, c: nat, d: nat)
    requires |s| >= 4 && a < 5 && b < 64 && c < 64 && d < 64
    requires s[0] == (0xF0 + a) as char && s[1] == Six(b) && s[2] == Six(c) && s[3] == Six(d)
    ensures var n := a * 262144 + b * 4096 + c * 64 + d;
            FirstScalar(s) == if n < 0x1_0000 || n >= 0x11_0000 then None else Some((4, n))
  {
  }

  lemma ScalarIsFirst(n: nat, rest: bytes)
    requires IsScalar(n)
    ensures FirstScalar(ScalarBytes(n) + rest) == Some((|ScalarBytes(n)|, n))
  {
    var s := ScalarBytes(n) + rest;
    assert forall i :: 0 <= i < |ScalarBytes(n)| ==> s[i] == ScalarBytes(n)[i];
    SplitSix(n);
    if n > 0x7F {
      hide FirstScalar;
      if n <= 0x7FF {
        FirstOfTwo(s, n / 64, n % 64);
      } else if n <= 0xFFFF {
        FirstOfThree(s, n / 4096, n / 64 % 64, n % 64);
      } else {
        FirstOfFour(s, n / 262144, n / 4096 % 64, n / 64 % 64, n % 64);
      }
    }
  }

  lemma ScalarOfTwo(a: nat, b: nat)
    requires 2 <= a < 32 && b < 64
    ensures ScalarBytes(a * 64 + b) == [(0xC0 + a) as char, Six(b)]
  {
    var n := a * 64 + b;
    assert n / 64 == a && n % 64 == b;
  }

  lemma ScalarOfThree(a: nat, b: nat, c: nat)
    requires a < 16 && b < 64 && c < 64
    requires 0x800 <= a * 4096 + b * 64 + c && IsScalar(a * 4096 + b * 64 + c)
    ensures ScalarBytes(a * 4096 + b * 64 + c) == [(0xE0 + a) as char, Six(b), Six(c)]
  {
    var n := a * 4096 + b * 64 + c;
    assert n / 4096 == a && n / 64 == a * 64 + b && n % 64 == c;
  }

  lemma ScalarOfFour(a: nat, b: nat, c: nat, d: nat)
    requires a < 5 && b < 64 && c < 64 && d < 64
    requires 0x1_0000 <= a * 262144 + b * 4096 + c * 64 + d < 0x11_0000
    ensures ScalarBytes(a * 262144 + b * 4096 + c * 64 + d) == [(0xF0 + a) as char, Six(b), Six(c), Six(d)]
  {
    var n := a * 262144 + b * 4096 + c * 64 + d;
    assert n / 262144 == a && n / 4096 == a * 64 + b && n / 64 == a * 4096 + b * 64 + c && n % 64 == d;
  }

  lemma FirstIsScalar(s: bytes)
    requires s != [] && FirstScalar(s).Some?
    ensures var (k, n) := FirstScalar(s).value;
            IsScalar(n) && s[..k] == ScalarBytes(n)
  {
    var a := s[0] as int;
    if a >= 0xF0 {
      FirstIsFour(s);
    } else if a >= 0x80 {
      var b := s[1] as int - 0x80;
      if a < 0xE0 {
        FirstOfTwo(s, a - 0xC0, b);
        ScalarOfTwo(a - 0xC0, b);
      } else {
        var c := s[2] as int - 0x80;
        FirstOfThree(s, a - 0xE0, b, c);
        ScalarOfThree(a - 0xE0, b, c);
      }
      hide FirstScalar;
      hide ScalarBytes;
    }
  }

  lemma FirstIsFour(s: bytes)
    requires s != [] && FirstScalar(s).Some? && s[0] as int >= 0xF0
    ensures var (k, n) := FirstScalar(s).value;
            IsScalar(n) && s[..k] == ScalarBytes(n)
  {
    var a, b, c, d := s[0] as int, s[1] as int - 0x80, s[2] as int - 0x80, s[3] as int - 0x80;
    FirstOfFour(s, a - 0xF0, b, c, d);
    ScalarOfFour(a - 0xF0, b, c, d);
    hide FirstScalar;
    hide ScalarBytes;
  }

  /** Bytes are read as a text exactly when they are its UTF-8 form: nothing overlong, no
      surrogate, nothing out of range. */
  lemma {:induction false} DecodeIsExact(s: bytes, text: string)
    ensures Decode(s) == Some(text) <==> s == TextBytes(text)
    decreases |s| + |text|
  {
    hide FirstScalar;
    hide ScalarBytes;
    if text != [] {
      var n, rest := text[0] as int, TextBytes(text[1..]);
      ScalarIsFirst(n, rest);
      var all := ScalarBytes(n) + rest;
      if s == all {
        assert s[|ScalarBytes(n)|..] == rest;
        DecodeIsExact(rest, text[1..]);
        assert text == [text[0]] + text[1..];
      }
    }
    if s != [] && Decode(s) == Some(text) {
      FirstIsScalar(s);
      var (k, n) := FirstScalar(s).value;
      assert text[0] == n as char && Decode(s[k..]) == Some(text[1..]);
      DecodeIsExact(s[k..], text[1..]);
      assert s == s[..k] + s[k..];
      assert text[0] as int == n;
      assert TextBytes(text) == ScalarBytes(text[0] as int) + TextBytes(text[1..]);
    }
  }
}
