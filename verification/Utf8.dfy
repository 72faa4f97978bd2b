/** UTF-8 as section 3 of RFC 3629 defines it; a char is a Unicode scalar value. */
module Utf8 {
  type Byte = b: int | 0 <= b < 256

  function EncodeChar(c: char): (bytes: seq<Byte>)
    ensures 1 <= |bytes| <= 4
  {
    var u := c as int;
    if u < 0x80 then [u]
    else if u < 0x800 then [0xC0 + u / 0x40, 0x80 + u % 0x40]
    else if u < 0x10000 then [0xE0 + u / 0x1000, 0x80 + u / 0x40 % 0x40, 0x80 + u % 0x40]
    else [0xF0 + u / 0x40000, 0x80 + u / 0x1000 % 0x40, 0x80 + u / 0x40 % 0x40, 0x80 + u % 0x40]
  }

  function Encode(s: string): seq<Byte> {
    if s == [] then [] else Encode(s[..|s| - 1]) + EncodeChar(s[|s| - 1])
  }

  function ByteLen(s: string): nat {
    |Encode(s)|
  }

  lemma {:induction false} EncodeAppends(a: string, b: string)
    ensures Encode(a + b) == Encode(a) + Encode(b)
    decreases |b|
  {
    if b == [] {
      assert a + b == a;
    } else {
      var n := |b| - 1;
      assert (a + b)[..|a + b| - 1] == a + b[..n];
      EncodeAppends(a, b[..n]);
    }
  }

  lemma {:induction false} LongerIsWider(s: string, m: nat, n: nat)
    requires m <= n <= |s|
    ensures ByteLen(s[..m]) <= ByteLen(s[..n])
    ensures m < n ==> ByteLen(s[..m]) < ByteLen(s[..n])
    decreases n
  {
    if m < n {
      assert s[..n][..n - 1] == s[..n - 1];
      LongerIsWider(s, m, n - 1);
    }
  }

  lemma {:induction false} AsciiIsNarrow(s: string)
    requires forall c <- s :: c as int < 0x80
    ensures ByteLen(s) == |s|
    decreases |s|
  {
    if s != [] {
      var rest := s[..|s| - 1];
      assert forall c <- rest :: c in s;
      AsciiIsNarrow(rest);
      assert s[|s| - 1] in s;
    }
  }

  // ---- Decoding, by the octet ranges of section 4 of RFC 3629 ----

  datatype Decoded = Malformed | Character(value: char, width: nat)

  predicate IsTail(b: Byte) {
    0x80 <= b <= 0xBF
  }

  /** What a leading octet or a tail adds: its value above that of the mark. */
  function Above(b: Byte, mark: int): int {
    b as int - mark
  }

  function Two(b: seq<Byte>): int
    requires |b| >= 2
  {
    Above(b[0], 0xC0) * 64 + Above(b[1], 0x80)
  }

  function Three(b: seq<Byte>): int
    requires |b| >= 3
  {
    (Above(b[0], 0xE0) * 64 + Above(b[1], 0x80)) * 64 + Above(b[2], 0x80)
  }

  function Four(b: seq<Byte>): int
    requires |b| >= 4
  {
    ((Above(b[0], 0xF0) * 64 + Above(b[1], 0x80)) * 64 + Above(b[2], 0x80)) * 64 + Above(b[3], 0x80)
  }

  /** The character at the start of these octets, if they are well-formed there. */
  function First(b: seq<Byte>): (d: Decoded)
    ensures d.Character? ==> 1 <= d.width <= 4 && d.width <= |b|
  {
    if b == [] then Malformed
    else if b[0] <= 0x7F then Character(b[0] as char, 1)
    else if 0xC2 <= b[0] <= 0xDF && |b| >= 2 && IsTail(b[1]) then Character(Two(b) as char, 2)
    else if |b| >= 3 && StartsThree(b[0], b[1]) && IsTail(b[2]) then Character(Three(b) as char, 3)
    else if |b| >= 4 && StartsFour(b[0], b[1]) && IsTail(b[2]) && IsTail(b[3]) then Character(Four(b) as char, 4)
    else Malformed
  }

  /** UTF8-3 leaves out what fits two octets and the surrogates. */
  predicate StartsThree(a: Byte, b: Byte) {
    || (a == 0xE0 && 0xA0 <= b <= 0xBF)
    || (0xE1 <= a <= 0xEC && IsTail(b))
    || (a == 0xED && 0x80 <= b <= 0x9F)
    || (0xEE <= a <= 0xEF && IsTail(b))
  }

  /** UTF8-4 leaves out what fits three octets and what is no code point. */
  predicate StartsFour(a: Byte, b: Byte) {
    || (a == 0xF0 && 0x90 <= b <= 0xBF)
    || (0xF1 <= a <= 0xF3 && IsTail(b))
    || (a == 0xF4 && 0x80 <= b <= 0x8F)
  }

  datatype Text = Invalid | Valid(value: string)

  function Decode(b: seq<Byte>): Text
    decreases |b|
  {
    if b == [] then Valid("")
    else
      var first := First(b);
      if first.Malformed? then Invalid
      else
        var rest := Decode(b[first.width..]);
        if rest.Invalid? then Invalid else Valid([first.value] + rest.value)
  }

  /** Digits to base 64 give the number back, and the number gives the digits. */
  lemma Digits(u: int, high: int, low: int)
    requires 0 <= low < 64
    ensures u == high * 64 + low <==> high == u / 64 && low == u % 64
  {
  }

  lemma Quotients(u: nat)
    ensures u / 0x1000 == u / 0x40 / 64 && u / 0x40000 == u / 0x1000 / 64
  {
  }

  lemma FirstOfEncoded(c: char, rest: seq<Byte>)
    ensures First(EncodeChar(c) + rest) == Character(c, |EncodeChar(c)|)
  {
    var u := c as int;
    var b := EncodeChar(c) + rest;
    if 0x80 <= u < 0x800 {
      Digits(u, u / 64, u % 64);
      assert Two(b) == u;
    } else if 0x800 <= u < 0x10000 {
      EncodedThree(u, b);
    } else if 0x10000 <= u {
      EncodedFour(u, b);
    }
  }

  lemma EncodedThree(u: int, b: seq<Byte>)
    requires 0x800 <= u < 0x10000 && !(0xD800 <= u < 0xE000) && |b| >= 3
    requires b[0] == 0xE0 + u / 0x1000 && b[1] == 0x80 + u / 0x40 % 0x40 && b[2] == 0x80 + u % 0x40
    ensures Three(b) == u && StartsThree(b[0], b[1]) && IsTail(b[2])
  {
    Quotients(u);
    Digits(u, u / 64, u % 64);
    Digits(u / 64, u / 0x1000, u / 64 % 64);
  }

  lemma EncodedFour(u: int, b: seq<Byte>)
    requires 0x10000 <= u < 0x110000 && |b| >= 4
    requires b[0] == 0xF0 + u / 0x40000 && b[1] == 0x80 + u / 0x1000 % 0x40
    requires b[2] == 0x80 + u / 0x40 % 0x40 && b[3] == 0x80 + u % 0x40
    ensures Four(b) == u && StartsFour(b[0], b[1]) && IsTail(b[2]) && IsTail(b[3])
  {
    Quotients(u);
    Digits(u, u / 64, u % 64);
    Digits(u / 64, u / 0x1000, u / 64 % 64);
    Digits(u / 0x1000, u / 0x40000, u / 0x1000 % 64);
  }

  lemma EncodeCons(c: char, s: string)
    ensures Encode([c] + s) == EncodeChar(c) + Encode(s)
  {
    assert [c][..0] == [] && Encode([]) == [];
    assert Encode([c]) == EncodeChar(c);
    EncodeAppends([c], s);
  }

  /** Encoding loses nothing. */
  lemma {:induction false} DecodeEncode(s: string)
    ensures Decode(Encode(s)) == Valid(s)
  {
    if s != [] {
      assert s == [s[0]] + s[1..];
      EncodeCons(s[0], s[1..]);
      FirstOfEncoded(s[0], Encode(s[1..]));
      DecodeEncode(s[1..]);
      assert Encode(s)[|EncodeChar(s[0])|..] == Encode(s[1..]);
    }
  }

  lemma EncodeOfTwo(b: seq<Byte>)
    requires |b| >= 2 && 0xC2 <= b[0] <= 0xDF && IsTail(b[1])
    ensures EncodeChar(Two(b) as char) == b[..2]
  {
    Digits(Two(b), Above(b[0], 0xC0), Above(b[1], 0x80));
  }

  lemma EncodeOfThree(b: seq<Byte>)
    requires |b| >= 3 && StartsThree(b[0], b[1]) && IsTail(b[2])
    ensures EncodeChar(Three(b) as char) == b[..3]
  {
    var high := Above(b[0], 0xE0) * 64 + Above(b[1], 0x80);
    Digits(Three(b), high, Above(b[2], 0x80));
    Digits(high, Above(b[0], 0xE0), Above(b[1], 0x80));
    Quotients(Three(b));
  }

  lemma EncodeOfFour(b: seq<Byte>)
    requires |b| >= 4 && StartsFour(b[0], b[1]) && IsTail(b[2]) && IsTail(b[3])
    ensures EncodeChar(Four(b) as char) == b[..4]
  {
    var top := Above(b[0], 0xF0) * 64 + Above(b[1], 0x80);
    var high := top * 64 + Above(b[2], 0x80);
    Digits(Four(b), high, Above(b[3], 0x80));
    Digits(high, top, Above(b[2], 0x80));
    Digits(top, Above(b[0], 0xF0), Above(b[1], 0x80));
    Quotients(Four(b));
  }

  lemma EncodeOfFirst(b: seq<Byte>)
    requires First(b).Character?
    ensures EncodeChar(First(b).value) == b[..First(b).width]
  {
    match First(b).width
    case 1 =>
    case 2 => EncodeOfTwo(b);
    case 3 => EncodeOfThree(b);
    case _ => EncodeOfFour(b);
  }

  lemma EncodeNext(b: seq<Byte>, first: Decoded, rest: string)
    requires first == First(b) && first.Character? && Encode(rest) == b[first.width..]
    ensures Encode([first.value] + rest) == b
  {
    EncodeCons(first.value, rest);
    EncodeOfFirst(b);
    assert b == b[..first.width] + b[first.width..];
  }

  /** Nothing but its encoding decodes to a string. */
  lemma {:induction false} EncodeDecode(b: seq<Byte>)
    requires Decode(b).Valid?
    ensures Encode(Decode(b).value) == b
    decreases |b|
  {
    if b != [] {
      EncodeDecode(b[First(b).width..]);
      EncodeNext(b, First(b), Decode(b[First(b).width..]).value);
    }
  }

  // ---- Widths ----

  /** How many octets the characters take, by the code-point bounds of the table in section 3. */
  function Octets(s: string): nat {
    if s == [] then 0
    else (if s[0] as int <= 0x7F then 1 else if s[0] as int <= 0x7FF then 2 else if s[0] as int <= 0xFFFF then 3 else 4)
         + Octets(s[1..])
  }

  lemma {:induction false} ByteLenIsOctets(s: string)
    ensures ByteLen(s) == Octets(s)
  {
    if s != [] {
      assert s == [s[0]] + s[1..];
      EncodeCons(s[0], s[1..]);
      ByteLenIsOctets(s[1..]);
    }
  }

  /** A string takes as many octets as it has characters if and only if all are ASCII. */
  lemma {:induction false} NarrowIffAscii(s: string)
    ensures |s| <= ByteLen(s) && (ByteLen(s) == |s| <==> forall c <- s :: c as int <= 0x7F)
  {
    ByteLenIsOctets(s);
    if s != [] {
      NarrowIffAscii(s[1..]);
      ByteLenIsOctets(s[1..]);
      if ByteLen(s) == |s| {
        forall c <- s ensures c as int <= 0x7F {
          assert c == s[0] || c in s[1..];
        }
      }
      if forall c <- s :: c as int <= 0x7F {
        forall c <- s[1..] ensures c as int <= 0x7F {
          assert c in s;
        }
        assert s[0] in s;
      }
    }
  }

  // ---- Truncation ----

  /** The length of the longest prefix of at most `maxBytes` bytes. */
  function Fitting(s: string, maxBytes: int, n: nat): (m: nat)
    requires n <= |s|
    ensures m <= n
  {
    if n == 0 || ByteLen(s[..n]) <= maxBytes then n else Fitting(s, maxBytes, n - 1)
  }

  lemma {:induction false} FittingIs(s: string, maxBytes: int, n: nat, k: nat)
    requires n <= |s| && k <= n
    ensures k <= Fitting(s, maxBytes, n) <==> k == 0 || ByteLen(s[..k]) <= maxBytes
  {
    LongerIsWider(s, k, n);
    if n > 0 && ByteLen(s[..n]) > maxBytes {
      if k < n { FittingIs(s, maxBytes, n - 1, k); }
    }
  }

  function Truncated(s: string, maxBytes: int): string {
    if ByteLen(s) <= maxBytes then s
    else if Fitting(s, maxBytes, |s|) == 0 then "_"
    else s[..Fitting(s, maxBytes, |s|)]
  }

  /** A truncated string is the longest prefix that fits, or an underscore when no non-empty one does. */
  lemma TruncatedIsLongest(s: string, maxBytes: int)
    ensures var r := Truncated(s, maxBytes);
      if s != "" && ByteLen(s[..1]) <= maxBytes then
        && r <= s && r != "" && ByteLen(r) <= maxBytes
        && (forall k: nat | k <= |s| && ByteLen(s[..k]) <= maxBytes :: k <= |r|)
      else r == if s == "" && maxBytes >= 0 then "" else "_"
  {
    forall k: nat | k <= |s| ensures k <= Fitting(s, maxBytes, |s|) <==> k == 0 || ByteLen(s[..k]) <= maxBytes {
      FittingIs(s, maxBytes, |s|, k);
    }
    assert s[..|s|] == s && s[..0] == "";
    assert ByteLen("") == 0;
    if s != "" { LongerIsWider(s, 1, |s|); }
  }

  /** Truncation keeps the budget if and only if there is room for the underscore, or nothing to truncate. */
  lemma TruncatedFitsIff(s: string, maxBytes: int)
    ensures ByteLen(Truncated(s, maxBytes)) <= maxBytes <==> maxBytes >= 1 || (maxBytes == 0 && s == "")
  {
    TruncatedIsLongest(s, maxBytes);
    assert ByteLen("") == 0;
    assert Encode("_") == Encode("") + EncodeChar('_');
    if s != "" {
      assert s[..0] == "";
      LongerIsWider(s, 0, 1);
    }
  }

  lemma PrefixNext(s: string, i: nat)
    requires i < |s|
    ensures ByteLen(s[..i + 1]) == ByteLen(s[..i]) + |EncodeChar(s[i])|
  {
    assert s[..i + 1][..i] == s[..i];
  }

  /** Where no further character fits, truncation stops. */
  lemma TruncatedAt(s: string, maxBytes: int, i: nat)
    requires i <= |s| && ByteLen(s) > maxBytes && (i == 0 || ByteLen(s[..i]) <= maxBytes)
    requires i < |s| ==> ByteLen(s[..i + 1]) > maxBytes
    ensures Truncated(s, maxBytes) == if i == 0 then "_" else s[..i]
  {
    FittingIs(s, maxBytes, |s|, i);
    if i < |s| { FittingIs(s, maxBytes, |s|, i + 1); }
  }

  /** _truncate_utf8: append characters while they fit. */
  method TruncateUtf8(s: string, maxBytes: int) returns (r: string)
    ensures r == Truncated(s, maxBytes)
  {
    if ByteLen(s) <= maxBytes { return s; }
    var out, used, i := "", 0, 0;
    while i < |s|
      invariant i <= |s| && out == s[..i] && used == ByteLen(s[..i])
      invariant i == 0 || used <= maxBytes
    {
      PrefixNext(s, i);
      var b := EncodeChar(s[i]);
      if used + |b| > maxBytes { break; }
      out := out + [s[i]];
      used := used + |b|;
      i := i + 1;
    }
    TruncatedAt(s, maxBytes, i);
    r := if out == "" then "_" else out;
  }
}
