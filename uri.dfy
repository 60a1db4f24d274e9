/** `encodeURIComponent`, which the client applies to every identifier it
    puts into a URL path or query: characters outside the unreserved set
    `A-Z a-z 0-9 - _ . ! ~ * ' ( )` become the `%XX` escapes of their UTF-8
    bytes, with upper-case hexadecimal digits. A reference decoder is
    defined beside it, and decoding an encoding gives the text back. */
module Uri {
  import opened Common

  predicate Unreserved(c: char) {
    || 'A' <= c <= 'Z' || 'a' <= c <= 'z' || '0' <= c <= '9'
    || c == '-' || c == '_' || c == '.' || c == '!' || c == '~'
    || c == '*' || c == '\'' || c == '(' || c == ')'
  }

  predicate IsByte(b: int) {
    0 <= b < 256
  }

  /** The UTF-8 bytes of a Unicode scalar value. */
  function Utf8(c: char): (bytes: seq<int>)
    ensures 1 <= |bytes| <= 4
    ensures forall i :: 0 <= i < |bytes| ==> IsByte(bytes[i])
  {
    var cp := c as int;
    if cp < 0x80 then [cp]
    else if cp < 0x800 then [0xC0 + cp / 0x40, 0x80 + cp % 0x40]
    else if cp < 0x1_0000 then [0xE0 + cp / 0x1000, 0x80 + (cp / 0x40) % 0x40, 0x80 + cp % 0x40]
    else [0xF0 + cp / 0x4_0000, 0x80 + (cp / 0x1000) % 0x40, 0x80 + (cp / 0x40) % 0x40, 0x80 + cp % 0x40]
  }

  /** The UTF-8 bytes of a string. */
  function Utf8Of(s: string): (bytes: seq<int>)
    ensures |bytes| >= |s|
    ensures forall i :: 0 <= i < |bytes| ==> IsByte(bytes[i])
  {
    if s == [] then [] else Utf8(s[0]) + Utf8Of(s[1..])
  }

  function HexDigit(d: int): (c: char)
    requires 0 <= d < 16
  {
    if d < 10 then ('0' as int + d) as char else ('A' as int + d - 10) as char
  }

  /** The value of a hexadecimal digit of either case. */
  function HexValue(c: char): (v: Option<int>)
    ensures v.Some? ==> 0 <= v.value < 16
  {
    if '0' <= c <= '9' then Some(c as int - '0' as int)
    else if 'A' <= c <= 'F' then Some(c as int - 'A' as int + 10)
    else if 'a' <= c <= 'f' then Some(c as int - 'a' as int + 10)
    else None
  }

  /** "%XX" for one byte. */
  function Escape(b: int): (s: string)
    requires IsByte(b)
    ensures |s| == 3 && s[0] == '%'
  {
    ['%', HexDigit(b / 16), HexDigit(b % 16)]
  }

  function EscapeAll(bytes: seq<int>): (s: string)
    requires forall i :: 0 <= i < |bytes| ==> IsByte(bytes[i])
    ensures |s| == 3 * |bytes|
  {
    if bytes == [] then [] else Escape(bytes[0]) + EscapeAll(bytes[1..])
  }

  function EncodeChar(c: char): string {
    if Unreserved(c) then [c] else EscapeAll(Utf8(c))
  }

  /** `encodeURIComponent(s)`. */
  function Encode(s: string): (r: string)
    ensures |r| >= |s|
  {
    if s == [] then [] else EncodeChar(s[0]) + Encode(s[1..])
  }

  // ---------------------------------------------------------------------------
  // The reference decoder
  // ---------------------------------------------------------------------------

  /** The byte escaped as "%XX" at position i of s, if there is one. */
  function EscapedByte(s: string, i: nat): (b: Option<int>)
    ensures b.Some? ==> IsByte(b.value) && i + 3 <= |s|
  {
    if i + 3 <= |s| && s[i] == '%' && HexValue(s[i + 1]).Some? && HexValue(s[i + 2]).Some?
    then Some(HexValue(s[i + 1]).value * 16 + HexValue(s[i + 2]).value)
    else None
  }

  /** The continuation bytes escaped from position i on: n bytes 10xxxxxx,
      accumulated into the code point begun by `acc`. */
  function Continuation(s: string, i: nat, n: nat, acc: int): Option<int>
    decreases n
  {
    if n == 0 then Some(acc)
    else match EscapedByte(s, i)
      case None => None
      case Some(b) => if 0x80 <= b < 0xC0 then Continuation(s, i + 3, n - 1, acc * 0x40 + (b - 0x80)) else None
  }

  /** Decodes the first character of s: the character and how many
      characters of s it took, or `None` when s does not start with a
      well-formed escape sequence of a scalar value. */
  function DecodeFirst(s: string): (r: Option<(char, nat)>)
    requires s != []
    ensures r.Some? ==> 1 <= r.value.1 <= |s|
  {
    if s[0] != '%' then Some((s[0], 1))
    else match EscapedByte(s, 0)
      case None => None
      case Some(b0) =>
        var (n, lead) :=
          if b0 < 0x80 then (0, b0)
          else if 0xC0 <= b0 < 0xE0 then (1, b0 - 0xC0)
          else if 0xE0 <= b0 < 0xF0 then (2, b0 - 0xE0)
          else if 0xF0 <= b0 < 0xF8 then (3, b0 - 0xF0)
          else (4, -1);
        if n == 4 || |s| < 3 * (n + 1) then None
        else match Continuation(s, 3, n, lead)
          case None => None
          case Some(cp) =>
            if 0 <= cp < 0xD800 || 0xE000 <= cp < 0x11_0000 then Some((cp as char, 3 * (n + 1))) else None
  }

  /** `decodeURIComponent(s)`; `None` is a URIError. Overlong sequences are
      accepted, unlike the standard function. */
  function Decode(s: string): Option<string>
    decreases |s|
  {
    if s == [] then Some([])
    else match DecodeFirst(s)
      case None => None
      case Some((c, k)) =>
        match Decode(s[k..])
        case None => None
        case Some(rest) => Some([c] + rest)
  }

  // ---------------------------------------------------------------------------
  // Round trip
  // ---------------------------------------------------------------------------

  lemma HexRoundTrip(d: int)
    requires 0 <= d < 16
    ensures HexValue(HexDigit(d)) == Some(d)
  {
  }

  /** The escape of a byte reads back as that byte. */
  lemma EscapedByteOfEscape(b: int, s: string, i: nat)
    requires IsByte(b) && i + 3 <= |s| && s[i..i + 3] == Escape(b)
    ensures EscapedByte(s, i) == Some(b)
  {
    assert s[i] == s[i..i + 3][0] && s[i + 1] == s[i..i + 3][1] && s[i + 2] == s[i..i + 3][2];
    HexRoundTrip(b / 16);
    HexRoundTrip(b % 16);
  }

  /** The encoding of one character decodes back to it, consuming exactly
      the encoding. */
  lemma DecodeFirstOfEncodeChar(c: char, rest: string)
    ensures DecodeFirst(EncodeChar(c) + rest) == Some((c, |EncodeChar(c)|))
  {
    var s := EncodeChar(c) + rest;
    if Unreserved(c) {
      assert s[0] == c;
    } else {
      EscapedBytesOf(c, rest);
      var cp := c as int;
      if cp < 0x80 {
        assert EscapedByte(s, 0) == Some(cp);
        assert !Unreserved(cp as char);
      } else if cp < 0x800 {
        DecodeTwo(c, s);
      } else if cp < 0x1_0000 {
        assert EscapedByte(s, 3 * 0) == Some(Utf8(c)[0]);
        assert EscapedByte(s, 3 * 1) == Some(Utf8(c)[1]);
        assert EscapedByte(s, 3 * 2) == Some(Utf8(c)[2]);
        DecodeThree(c, s);
      } else {
        assert EscapedByte(s, 3 * 0) == Some(Utf8(c)[0]);
        assert EscapedByte(s, 3 * 1) == Some(Utf8(c)[1]);
        assert EscapedByte(s, 3 * 2) == Some(Utf8(c)[2]);
        assert EscapedByte(s, 3 * 3) == Some(Utf8(c)[3]);
        DecodeFour(c, s);
      }
    }
  }

  /** In the encoding of a reserved character, the j-th escape holds the
      j-th UTF-8 byte. */
  lemma EscapedBytesOf(c: char, rest: string)
    requires !Unreserved(c)
    ensures var s := EncodeChar(c) + rest;
            forall j :: 0 <= j < |Utf8(c)| ==> EscapedByte(s, 3 * j) == Some(Utf8(c)[j])
  {
    var s := EncodeChar(c) + rest;
    var bytes := Utf8(c);
    var e := EscapeAll(bytes);
    EscapeAllSlices(bytes);
    forall j | 0 <= j < |bytes| ensures EscapedByte(s, 3 * j) == Some(bytes[j]) {
      assert s[3 * j..3 * j + 3] == e[3 * j..3 * j + 3];
      EscapedByteOfEscape(bytes[j], s, 3 * j);
    }
  }

  lemma DecodeTwo(c: char, s: string)
    requires 0x80 <= c as int < 0x800 && |s| >= 6
    requires EscapedByte(s, 0) == Some(0xC0 + c as int / 0x40)
    requires EscapedByte(s, 3) == Some(0x80 + c as int % 0x40)
    ensures DecodeFirst(s) == Some((c, 6))
  {
    var cp := c as int;
    assert (cp / 0x40) * 0x40 + cp % 0x40 == cp;
    assert Continuation(s, 6, 0, cp) == Some(cp);
  }

  lemma DecodeThree(c: char, s: string)
    requires 0x800 <= c as int < 0x1_0000 && |s| >= 9
    requires EscapedByte(s, 0) == Some(0xE0 + c as int / 0x1000)
    requires EscapedByte(s, 3) == Some(0x80 + (c as int / 0x40) % 0x40)
    requires EscapedByte(s, 6) == Some(0x80 + c as int % 0x40)
    ensures DecodeFirst(s) == Some((c, 9))
  {
    var cp := c as int;
    ThreeBytes(cp);
    var a := cp / 0x1000;
    var b := (cp / 0x40) % 0x40;
    assert Continuation(s, 9, 0, (a * 0x40 + b) * 0x40 + cp % 0x40) == Some(cp);
  }

  lemma DecodeFour(c: char, s: string)
    requires 0x1_0000 <= c as int && |s| >= 12
    requires EscapedByte(s, 0) == Some(0xF0 + c as int / 0x4_0000)
    requires EscapedByte(s, 3) == Some(0x80 + (c as int / 0x1000) % 0x40)
    requires EscapedByte(s, 6) == Some(0x80 + (c as int / 0x40) % 0x40)
    requires EscapedByte(s, 9) == Some(0x80 + c as int % 0x40)
    ensures DecodeFirst(s) == Some((c, 12))
  {
    var cp := c as int;
    FourBytes(cp);
    var a := cp / 0x4_0000;
    var b := (cp / 0x1000) % 0x40;
    var d := (cp / 0x40) % 0x40;
    assert Continuation(s, 12, 0, ((a * 0x40 + b) * 0x40 + d) * 0x40 + cp % 0x40) == Some(cp);
  }

  lemma ThreeBytes(cp: int)
    requires 0x800 <= cp < 0x1_0000
    ensures (cp / 0x1000) * 0x40 * 0x40 + ((cp / 0x40) % 0x40) * 0x40 + cp % 0x40 == cp
    ensures cp / 0x1000 < 0x10
  {
    var a := cp / 0x1000;
    var b := (cp / 0x40) % 0x40;
    var q := cp / 0x40;
    assert q == a * 0x40 + b;
    assert cp == q * 0x40 + cp % 0x40;
  }

  lemma FourBytes(cp: int)
    requires 0x1_0000 <= cp < 0x11_0000
    ensures (((cp / 0x4_0000) * 0x40 + (cp / 0x1000) % 0x40) * 0x40 + (cp / 0x40) % 0x40) * 0x40 + cp % 0x40 == cp
    ensures cp / 0x4_0000 < 0x8
  {
    var q1 := cp / 0x40;
    var q2 := q1 / 0x40;
    assert q2 == cp / 0x1000;
    assert q2 / 0x40 == cp / 0x4_0000;
    assert q2 == (q2 / 0x40) * 0x40 + q2 % 0x40;
    assert q1 == q2 * 0x40 + q1 % 0x40;
    assert cp == q1 * 0x40 + cp % 0x40;
  }

  /** The j-th escape of an escaped byte sequence sits at position 3j. */
  lemma {:induction false} EscapeAllSlices(bytes: seq<int>)
    requires forall i :: 0 <= i < |bytes| ==> IsByte(bytes[i])
    ensures forall j :: 0 <= j < |bytes| ==> EscapeAll(bytes)[3 * j..3 * j + 3] == Escape(bytes[j])
  {
    if bytes != [] {
      EscapeAllSlices(bytes[1..]);
      var e := EscapeAll(bytes);
      var t := EscapeAll(bytes[1..]);
      assert e == Escape(bytes[0]) + t;
      forall j | 0 <= j < |bytes| ensures e[3 * j..3 * j + 3] == Escape(bytes[j]) {
        if j > 0 {
          assert e[3 * j..3 * j + 3] == t[3 * (j - 1)..3 * (j - 1) + 3];
        }
      }
    }
  }

  /** Decoding undoes `encodeURIComponent`. */
  lemma {:induction false} DecodeEncode(s: string)
    ensures Decode(Encode(s)) == Some(s)
  {
    if s != [] {
      var e := EncodeChar(s[0]);
      DecodeFirstOfEncodeChar(s[0], Encode(s[1..]));
      assert (e + Encode(s[1..]))[|e|..] == Encode(s[1..]);
      DecodeEncode(s[1..]);
      assert [s[0]] + s[1..] == s;
    }
  }

  /** Hence distinct identifiers give distinct path segments. */
  lemma EncodeInjective(s: string, t: string)
    requires Encode(s) == Encode(t)
    ensures s == t
  {
    DecodeEncode(s);
    DecodeEncode(t);
  }

  // ---------------------------------------------------------------------------
  // The encoding through the UTF-8 bytes
  // ---------------------------------------------------------------------------

  /** A byte as `encodeURIComponent` writes it: an unreserved ASCII
      character as itself, any other byte escaped. */
  function EncodeByte(b: int): string
    requires IsByte(b)
  {
    if b < 0x80 && Unreserved(b as char) then [b as char] else Escape(b)
  }

  function EncodeBytes(bytes: seq<int>): string
    requires forall i :: 0 <= i < |bytes| ==> IsByte(bytes[i])
  {
    if bytes == [] then [] else EncodeByte(bytes[0]) + EncodeBytes(bytes[1..])
  }

  lemma {:induction false} EncodeBytesAppend(a: seq<int>, b: seq<int>)
    requires forall i :: 0 <= i < |a| ==> IsByte(a[i])
    requires forall i :: 0 <= i < |b| ==> IsByte(b[i])
    ensures EncodeBytes(a + b) == EncodeBytes(a) + EncodeBytes(b)
  {
    if a != [] {
      assert (a + b)[0] == a[0] && (a + b)[1..] == a[1..] + b;
      EncodeBytesAppend(a[1..], b);
    } else {
      assert a + b == b;
    }
  }

  /** Bytes none of which is an unreserved ASCII character are all escaped. */
  lemma {:induction false} EncodeBytesEscaped(bytes: seq<int>)
    requires forall i :: 0 <= i < |bytes| ==> IsByte(bytes[i]) && !(bytes[i] < 0x80 && Unreserved(bytes[i] as char))
    ensures EncodeBytes(bytes) == EscapeAll(bytes)
  {
    if bytes != [] {
      EncodeBytesEscaped(bytes[1..]);
    }
  }

  lemma EncodeCharBytes(c: char)
    ensures EncodeChar(c) == EncodeBytes(Utf8(c))
  {
    var cp := c as int;
    if Unreserved(c) {
      assert Utf8(c) == [cp];
      assert cp as char == c;
    } else if cp < 0x80 {
      assert cp as char == c;
      EncodeBytesEscaped(Utf8(c));
    } else {
      EncodeBytesEscaped(Utf8(c));
    }
  }

  /** `encodeURIComponent` writes the string's UTF-8 bytes one by one. */
  lemma {:induction false} EncodeViaBytes(s: string)
    ensures Encode(s) == EncodeBytes(Utf8Of(s))
  {
    if s != [] {
      EncodeViaBytes(s[1..]);
      EncodeCharBytes(s[0]);
      EncodeBytesAppend(Utf8(s[0]), Utf8Of(s[1..]));
    }
  }

  /** Distinct strings have distinct UTF-8 encodings. */
  lemma Utf8Injective(s: string, t: string)
    requires Utf8Of(s) == Utf8Of(t)
    ensures s == t
  {
    EncodeViaBytes(s);
    EncodeViaBytes(t);
    EncodeInjective(s, t);
  }

  /** An encoded segment holds only unreserved characters, '%' and
      hexadecimal digits: no '/', '?', '#' or '&' can come out of it. */
  lemma EncodeSafe(s: string)
    ensures forall i :: 0 <= i < |Encode(s)| ==> Unreserved(Encode(s)[i]) || Encode(s)[i] == '%'
    ensures forall i :: 0 <= i < |Encode(s)| ==> Encode(s)[i] !in "/?#&= "
  {
    EncodeUnreserved(s);
    forall i | 0 <= i < |Encode(s)| ensures Encode(s)[i] !in "/?#&= " {
      SafeNotDelimiter(Encode(s)[i]);
    }
  }

  /** No unreserved character and not '%' delimits a URL or a query. */
  lemma SafeNotDelimiter(c: char)
    ensures Unreserved(c) || c == '%' ==> c !in "/?#&= "
  {
  }

  lemma {:induction false} EncodeUnreserved(s: string)
    ensures forall i :: 0 <= i < |Encode(s)| ==> Unreserved(Encode(s)[i]) || Encode(s)[i] == '%'
  {
    if s != [] {
      EncodeUnreserved(s[1..]);
      var e := EncodeChar(s[0]);
      if !Unreserved(s[0]) {
        EscapeAllSafe(Utf8(s[0]));
      }
      var r := Encode(s);
      forall i | 0 <= i < |r| ensures Unreserved(r[i]) || r[i] == '%' {
        if i >= |e| {
          assert r[i] == Encode(s[1..])[i - |e|];
        }
      }
    }
  }

  lemma {:induction false} EscapeAllSafe(bytes: seq<int>)
    requires forall i :: 0 <= i < |bytes| ==> IsByte(bytes[i])
    ensures forall i :: 0 <= i < |EscapeAll(bytes)| ==> Unreserved(EscapeAll(bytes)[i]) || EscapeAll(bytes)[i] == '%'
  {
    if bytes != [] {
      EscapeAllSafe(bytes[1..]);
      var r := EscapeAll(bytes);
      forall i | 0 <= i < |r| ensures Unreserved(r[i]) || r[i] == '%' {
        if i >= 3 {
          assert r[i] == EscapeAll(bytes[1..])[i - 3];
        }
      }
    }
  }
}
