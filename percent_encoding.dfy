/**
 * The path encoding of the configured repository URL: the text is encoded as UTF-8 and
 * every byte that is not an ASCII letter or digit is written as `%` followed by two
 * upper-case hexadecimal digits (percent-encoding as in section 2.1 of RFC 3986, with the
 * `NON_ALPHANUMERIC` set of the `percent-encoding` crate).
 */
module PercentEncoding {
  import opened Wrappers

  type byte = x: int | 0 <= x < 256

  // ---------------------------------------------------------------- UTF-8

  /** The UTF-8 encoding of one Unicode scalar value (section 3 of RFC 3629). */
  function EncodeChar(c: char): (r: seq<byte>)
    ensures 1 <= |r| <= 4
    ensures |r| == 1 <==> (c as int) < 0x80
  {
    var n := c as int;
    if n < 0x80 then [n]
    else if n < 0x800 then [0xC0 + n / 64, 0x80 + n % 64]
    else if n < 0x10000 then [0xE0 + n / 4096, 0x80 + (n / 64) % 64, 0x80 + n % 64]
    else [0xF0 + n / 262144, 0x80 + (n / 4096) % 64, 0x80 + (n / 64) % 64, 0x80 + n % 64]
  }

  function Utf8Encode(s: string): seq<byte> {
    if |s| == 0 then [] else EncodeChar(s[0]) + Utf8Encode(s[1..])
  }

  predicate IsContinuation(b: byte) {
    0x80 <= b < 0xC0
  }

  /** The scalar value at the start of `bs` and the number of bytes it takes; None for malformed input. */
  function DecodeChar(bs: seq<byte>): (r: Option<(char, nat)>)
    ensures r.Some? ==> 1 <= r.value.1 <= |bs|
  {
    if |bs| == 0 then None
    else
      var b0: int := bs[0];
      if b0 < 0x80 then Some((b0 as char, 1))
      else if 0xC0 <= b0 < 0xE0 then
        if |bs| >= 2 && IsContinuation(bs[1]) then
          var v: int := (b0 - 0xC0) * 64 + (bs[1] as int - 0x80);
          if 0x80 <= v then Some((v as char, 2)) else None
        else None
      else if 0xE0 <= b0 < 0xF0 then
        if |bs| >= 3 && IsContinuation(bs[1]) && IsContinuation(bs[2]) then
          var v: int := (b0 - 0xE0) * 4096 + (bs[1] as int - 0x80) * 64 + (bs[2] as int - 0x80);
          if 0x800 <= v && !(0xD800 <= v < 0xE000) then Some((v as char, 3)) else None
        else None
      else if 0xF0 <= b0 < 0xF8 then
        if |bs| >= 4 && IsContinuation(bs[1]) && IsContinuation(bs[2]) && IsContinuation(bs[3]) then
          var v: int := (b0 - 0xF0) * 262144 + (bs[1] as int - 0x80) * 4096 + (bs[2] as int - 0x80) * 64 + (bs[3] as int - 0x80);
          if 0x10000 <= v < 0x110000 then Some((v as char, 4)) else None
        else None
      else None
  }

  function Utf8Decode(bs: seq<byte>): Option<string>
    decreases |bs|
  {
    if |bs| == 0 then Some([])
    else
      match DecodeChar(bs)
      case None => None
      case Some((c, k)) =>
        match Utf8Decode(bs[k..])
        case None => None
        case Some(rest) => Some([c] + rest)
  }

  /** Decoding the bytes of a scalar value, whatever follows them, gives the value back. */
  lemma DecodeEncodeChar(c: char, rest: seq<byte>)
    ensures DecodeChar(EncodeChar(c) + rest) == Some((c, |EncodeChar(c)|))
  {
    var n := c as int;
    if n < 0x80 {
    } else if n < 0x800 {
      DecodeEncodeTwo(c, rest);
    } else if n < 0x10000 {
      DecodeEncodeThree(c, rest);
    } else {
      DecodeEncodeFour(c, rest);
    }
  }

  lemma DecodeEncodeTwo(c: char, rest: seq<byte>)
    requires 0x80 <= c as int < 0x800
    ensures DecodeChar(EncodeChar(c) + rest) == Some((c, 2))
  {
    var n := c as int;
    assert (n / 64) * 64 + n % 64 == n;
  }

  lemma DecodeEncodeThree(c: char, rest: seq<byte>)
    requires 0x800 <= c as int < 0x10000
    ensures DecodeChar(EncodeChar(c) + rest) == Some((c, 3))
  {
    var n := c as int;
    assert n / 64 == (n / 4096) * 64 + (n / 64) % 64;
    assert (n / 64) * 64 + n % 64 == n;
  }

  lemma DecodeEncodeFour(c: char, rest: seq<byte>)
    requires 0x10000 <= c as int
    ensures DecodeChar(EncodeChar(c) + rest) == Some((c, 4))
  {
    var n := c as int;
    assert n / 4096 == (n / 262144) * 64 + (n / 4096) % 64;
    assert n / 64 == (n / 4096) * 64 + (n / 64) % 64;
    assert (n / 64) * 64 + n % 64 == n;
  }

  lemma {:induction false} Utf8RoundTrip(s: string)
    ensures Utf8Decode(Utf8Encode(s)) == Some(s)
  {
    if |s| > 0 {
      var rest := Utf8Encode(s[1..]);
      DecodeEncodeChar(s[0], rest);
      assert (EncodeChar(s[0]) + rest)[|EncodeChar(s[0])|..] == rest;
      Utf8RoundTrip(s[1..]);
      assert [s[0]] + s[1..] == s;
    }
  }

  // ---------------------------------------------------------------- percent-encoding

  predicate IsAsciiAlphanumeric(b: int) {
    ('0' as int <= b <= '9' as int) || ('A' as int <= b <= 'Z' as int) || ('a' as int <= b <= 'z' as int)
  }

  const HexDigits: string := "0123456789ABCDEF"

  /** An ASCII letter or digit stands for itself; any other byte becomes `%` and two hex digits. */
  function EncodeByte(b: byte): (r: string)
    ensures |r| == 1 || |r| == 3
    ensures |r| == 1 <==> IsAsciiAlphanumeric(b)
    ensures |r| == 1 ==> r[0] as int == b
    ensures |r| == 3 ==> r[0] == '%' && HexValue(r[1]) == Some(b / 16) && HexValue(r[2]) == Some(b % 16)
    ensures forall i :: 0 <= i < |r| ==> IsEncodedChar(r[i])
  {
    if IsAsciiAlphanumeric(b) then [b as char]
    else
      HexValueOfDigit(b / 16);
      HexValueOfDigit(b % 16);
      ['%', HexDigits[b / 16], HexDigits[b % 16]]
  }

  function EncodeBytes(bs: seq<byte>): string {
    if |bs| == 0 then [] else EncodeByte(bs[0]) + EncodeBytes(bs[1..])
  }

  /** The characters an encoded text is made of. */
  predicate IsEncodedChar(c: char) {
    IsAsciiAlphanumeric(c as int) || c == '%'
  }

  /** `utf8_percent_encode(path, NON_ALPHANUMERIC)`, rendered as a string. */
  function PercentEncode(path: string): (r: string)
    ensures forall i :: 0 <= i < |r| ==> IsEncodedChar(r[i])
  {
    EncodedChars(Utf8Encode(path));
    EncodeBytes(Utf8Encode(path))
  }

  lemma {:induction false} EncodedChars(bs: seq<byte>)
    ensures forall i :: 0 <= i < |EncodeBytes(bs)| ==> IsEncodedChar(EncodeBytes(bs)[i])
  {
    if |bs| > 0 {
      EncodedChars(bs[1..]);
      var head := EncodeByte(bs[0]);
      var r := EncodeBytes(bs);
      forall i | 0 <= i < |r| ensures IsEncodedChar(r[i]) {
        if i >= |head| {
          assert r[i] == EncodeBytes(bs[1..])[i - |head|];
        }
      }
    }
  }

  /** The value of an upper-case hexadecimal digit. */
  function HexValue(c: char): (r: Option<nat>)
    ensures r.Some? ==> r.value < 16 && HexDigits[r.value] == c
  {
    if '0' <= c <= '9' then Some(c as int - '0' as int)
    else if 'A' <= c <= 'F' then Some(c as int - 'A' as int + 10)
    else None
  }

  /**
   * The inverse of the encoding: letters and digits stand for themselves, `%XY` for the
   * byte with hexadecimal value `XY`, and anything else is malformed.
   */
  function PercentDecode(s: string): Option<seq<byte>>
    decreases |s|
  {
    if |s| == 0 then Some([])
    else if IsAsciiAlphanumeric(s[0] as int) then
      match PercentDecode(s[1..])
      case None => None
      case Some(rest) => Some([s[0] as int as byte] + rest)
    else if s[0] == '%' && |s| >= 3 && HexValue(s[1]).Some? && HexValue(s[2]).Some? then
      match PercentDecode(s[3..])
      case None => None
      case Some(rest) => Some([HexValue(s[1]).value * 16 + HexValue(s[2]).value] + rest)
    else None
  }

  lemma HexValueOfDigit(k: nat)
    requires k < 16
    ensures HexValue(HexDigits[k]) == Some(k)
  {
  }

  lemma {:induction false} PercentRoundTrip(bs: seq<byte>)
    ensures PercentDecode(EncodeBytes(bs)) == Some(bs)
  {
    if |bs| > 0 {
      PercentRoundTrip(bs[1..]);
      DecodeEncodedByte(bs[0], EncodeBytes(bs[1..]), bs[1..]);
      assert [bs[0]] + bs[1..] == bs;
    }
  }

  /** Decoding an encoded byte, whatever follows it, gives the byte back. */
  lemma DecodeEncodedByte(b: byte, tail: string, rest: seq<byte>)
    requires PercentDecode(tail) == Some(rest)
    ensures PercentDecode(EncodeByte(b) + tail) == Some([b] + rest)
  {
    var enc := EncodeByte(b) + tail;
    if IsAsciiAlphanumeric(b) {
      assert enc[0] == b as char && enc[1..] == tail;
    } else {
      HexValueOfDigit(b / 16);
      HexValueOfDigit(b % 16);
      assert enc[0] == '%' && enc[1] == HexDigits[b / 16] && enc[2] == HexDigits[b % 16];
      assert enc[3..] == tail;
      assert (b / 16) * 16 + b % 16 == b;
    }
  }

  /**
   * The encoded path is made of ASCII letters, digits and `%` escapes only, so it holds no
   * `/`; decoding it and then its UTF-8 gives the path back.
   */
  lemma PathRoundTrip(path: string)
    ensures '/' !in PercentEncode(path)
    ensures PercentDecode(PercentEncode(path)).Some?
    ensures Utf8Decode(PercentDecode(PercentEncode(path)).value) == Some(path)
  {
    var r := PercentEncode(path);
    assert forall i :: 0 <= i < |r| ==> r[i] != '/' by {
      forall i | 0 <= i < |r| ensures r[i] != '/' {
        assert IsEncodedChar(r[i]);
      }
    }
    PercentRoundTrip(Utf8Encode(path));
    Utf8RoundTrip(path);
  }

  lemma {:induction false} Utf8EncodeAppend(a: string, b: string)
    ensures Utf8Encode(a + b) == Utf8Encode(a) + Utf8Encode(b)
  {
    if |a| > 0 {
      assert (a + b)[1..] == a[1..] + b;
      Utf8EncodeAppend(a[1..], b);
    } else {
      assert a + b == b;
    }
  }

  lemma {:induction false} EncodeBytesAppend(a: seq<byte>, b: seq<byte>)
    ensures EncodeBytes(a + b) == EncodeBytes(a) + EncodeBytes(b)
  {
    if |a| > 0 {
      assert (a + b)[1..] == a[1..] + b;
      EncodeBytesAppend(a[1..], b);
    } else {
      assert a + b == b;
    }
  }

  /** The encoding of a concatenation is the concatenation of the encodings. */
  lemma PercentEncodeAppend(a: string, b: string)
    ensures PercentEncode(a + b) == PercentEncode(a) + PercentEncode(b)
  {
    Utf8EncodeAppend(a, b);
    EncodeBytesAppend(Utf8Encode(a), Utf8Encode(b));
  }

  /** Text made of ASCII letters and digits encodes to itself. */
  lemma {:induction false} EncodeAlphanumeric(s: string)
    requires forall i :: 0 <= i < |s| ==> IsAsciiAlphanumeric(s[i] as int)
    ensures PercentEncode(s) == s
  {
    if |s| > 0 {
      assert s == [s[0]] + s[1..];
      PercentEncodeAppend([s[0]], s[1..]);
      EncodeAlphanumeric(s[1..]);
      assert Utf8Encode([s[0]]) == [s[0] as int];
    }
  }

  /** An ASCII character outside the letters and digits becomes one escape. */
  lemma EncodeAsciiOther(c: char)
    requires (c as int) < 0x80 && !IsAsciiAlphanumeric(c as int)
    ensures PercentEncode([c]) == ['%', HexDigits[(c as int) / 16], HexDigits[(c as int) % 16]]
  {
    var b: byte := c as int;
    assert Utf8Encode([c]) == [b] by {
      assert [c][1..] == [];
    }
    assert EncodeBytes([b]) == EncodeByte(b) + EncodeBytes([]) by {
      assert [b][1..] == [];
    }
  }

  /** For example `grp/sub-1` becomes `grp%2Fsub%2D1`. */
  lemma EncodeExample(path: string, encoded: string)
    requires path == "grp/sub-1" && encoded == "grp%2Fsub%2D1"
    ensures PercentEncode(path) == encoded
  {
    var grp, sub, one, slash, dash := "grp", "sub", "1", "/", "-";
    ExamplePieces(grp, sub, one, slash, dash);
    ExampleLayout(path, encoded, grp, sub, one, slash, dash);
    EncodeFive(grp, slash, sub, dash, one);
  }

  lemma ExampleLayout(path: string, encoded: string, grp: string, sub: string, one: string, slash: string, dash: string)
    requires path == "grp/sub-1" && encoded == "grp%2Fsub%2D1"
    requires grp == "grp" && sub == "sub" && one == "1" && slash == "/" && dash == "-"
    ensures path == grp + slash + sub + dash + one
    ensures encoded == grp + "%2F" + sub + "%2D" + one
  {
  }

  lemma EncodeFive(a: string, b: string, c: string, d: string, e: string)
    ensures PercentEncode(a + b + c + d + e)
         == PercentEncode(a) + PercentEncode(b) + PercentEncode(c) + PercentEncode(d) + PercentEncode(e)
  {
    PercentEncodeAppend(a + b + c + d, e);
    PercentEncodeAppend(a + b + c, d);
    PercentEncodeAppend(a + b, c);
    PercentEncodeAppend(a, b);
  }

  lemma ExamplePieces(grp: string, sub: string, one: string, slash: string, dash: string)
    requires grp == "grp" && sub == "sub" && one == "1" && slash == "/" && dash == "-"
    ensures PercentEncode(grp) == grp && PercentEncode(sub) == sub && PercentEncode(one) == one
    ensures PercentEncode(slash) == "%2F" && PercentEncode(dash) == "%2D"
  {
    EncodeAlphanumeric(grp);
    EncodeAlphanumeric(sub);
    EncodeAlphanumeric(one);
    EncodeAsciiOther('/');
    EncodeAsciiOther('-');
    assert HexDigits[2] == '2' && HexDigits[15] == 'F' && HexDigits[13] == 'D';
  }
}
