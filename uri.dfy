/** Percent-decoding as `decodeURIComponent` performs it (the abstract operation
    Decode of ECMA-262, with an empty reserved set): `%XX`
    escapes are read as UTF-8 bytes, one to four of them forming one code point, and
    anything malformed raises `URIError`. The encoding direction
    (`encodeURIComponent`) is modelled as the partner that decoding undoes.

    Strings are sequences of Unicode scalar values here; a code point outside the
    Basic Multilingual Plane is one character, not a surrogate pair. */
module Uri {
  import opened Types
  import opened Text

  // ---------------------------------------------------------------------------
  // Hexadecimal digits
  // ---------------------------------------------------------------------------

  predicate IsHex(c: char) { IsDigit(c) || 'a' <= c <= 'f' || 'A' <= c <= 'F' }

  function HexValue(c: char): (v: nat)
    requires IsHex(c)
    ensures v < 16
  {
    if IsDigit(c) then c as int - '0' as int
    else if 'a' <= c <= 'f' then c as int - 'a' as int + 10
    else c as int - 'A' as int + 10
  }

  /** The upper-case hexadecimal digit `encodeURIComponent` writes. */
  function HexDigit(d: nat): (c: char)
    requires d < 16
    ensures IsHex(c) && HexValue(c) == d
  {
    if d < 10 then ('0' as int + d) as char else ('A' as int + d - 10) as char
  }

  // ---------------------------------------------------------------------------
  // Decoding
  // ---------------------------------------------------------------------------

  /** The byte written as `%XX` at position `i`, if there is a well-formed escape there. */
  function EscapedByte(s: string, i: nat): (r: Option<nat>)
    ensures r.Some? <==> i + 3 <= |s| && s[i] == '%' && IsHex(s[i + 1]) && IsHex(s[i + 2])
    ensures r.Some? ==> r.value < 256
  {
    if i + 3 <= |s| && s[i] == '%' && IsHex(s[i + 1]) && IsHex(s[i + 2])
    then Some(HexValue(s[i + 1]) * 16 + HexValue(s[i + 2]))
    else None
  }

  /** The six payload bits of a UTF-8 continuation byte (`10xxxxxx`) escaped at `i`. */
  function Continuation(s: string, i: nat): (r: Option<nat>)
    ensures r.Some? ==> r.value < 64 && i + 3 <= |s|
    ensures r.Some? <==> EscapedByte(s, i).Some? && 0x80 <= EscapedByte(s, i).value < 0xC0
  {
    match EscapedByte(s, i)
    case None => None
    case Some(b) => if 0x80 <= b < 0xC0 then Some(b - 0x80) else None
  }

  /** The character encoded by the escape sequence at the start of `s`, and how many
      characters of `s` the sequence takes.  A lead byte `10xxxxxx` or `11111xxx`,
      a missing or malformed continuation, an overlong form, a surrogate and a code
      point above U+10FFFF all fail. */
  function DecodeEscape(s: string): (r: Option<(char, nat)>)
    requires |s| > 0 && s[0] == '%'
    ensures r.Some? ==> 3 <= r.value.1 <= 12 && r.value.1 <= |s|
    ensures EscapedByte(s, 0).None? ==> r.None?
  {
    match EscapedByte(s, 0)
    case None => None
    case Some(b) =>
      if b < 0x80 then Some((b as char, 3))
      else if b < 0xC0 then None
      else if b < 0xE0 then
        match Continuation(s, 3)
        case None => None
        case Some(c1) =>
          var cp := (b - 0xC0) * 64 + c1;
          if cp < 0x80 then None else Some((cp as char, 6))
      else if b < 0xF0 then
        match (Continuation(s, 3), Continuation(s, 6))
        case (Some(c1), Some(c2)) =>
          var cp := (b - 0xE0) * 4096 + c1 * 64 + c2;
          if cp < 0x800 || 0xD800 <= cp <= 0xDFFF then None else Some((cp as char, 9))
        case _ => None
      else if b < 0xF8 then
        match (Continuation(s, 3), Continuation(s, 6), Continuation(s, 9))
        case (Some(c1), Some(c2), Some(c3)) =>
          var cp := (b - 0xF0) * 262144 + c1 * 4096 + c2 * 64 + c3;
          if cp < 0x10000 || cp > 0x10FFFF then None else Some((cp as char, 12))
        case _ => None
      else None
  }

  /** Prefixing a character to a successful result; an error stays an error. */
  function Cons(c: char, r: Result<string>): (q: Result<string>)
    ensures q.Ok? <==> r.Ok?
    ensures q.Ok? ==> q.value == [c] + r.value
  {
    if r.Ok? then Ok([c] + r.value) else UriError
  }

  /** `decodeURIComponent(s)`. */
  function PercentDecode(s: string): (r: Result<string>)
    ensures r.Ok? ==> |r.value| <= |s|
    decreases |s|
  {
    if s == [] then Ok([])
    else if s[0] != '%' then Cons(s[0], PercentDecode(s[1..]))
    else
      match DecodeEscape(s)
      case None => UriError
      case Some(p) => Cons(p.0, PercentDecode(s[p.1..]))
  }

  /** Text without `%` decodes to itself. */
  lemma {:induction false} PercentDecodeNoPercent(s: string)
    requires '%' !in s
    ensures PercentDecode(s) == Ok(s)
    decreases |s|
  {
    if s != [] {
      assert '%' !in s[1..];
      PercentDecodeNoPercent(s[1..]);
      assert [s[0]] + s[1..] == s;
    }
  }

  /** A prefix without `%` passes through unchanged in front of the decoded rest. */
  lemma {:induction false} PercentDecodePlainPrefix(a: string, b: string)
    requires '%' !in a
    ensures PercentDecode(a + b) == if PercentDecode(b).Ok? then Ok(a + PercentDecode(b).value) else UriError
    decreases |a|
  {
    if a == [] {
      assert a + b == b;
      if PercentDecode(b).Ok? {
        assert a + PercentDecode(b).value == PercentDecode(b).value;
      }
    } else {
      assert (a + b)[0] == a[0];
      assert (a + b)[1..] == a[1..] + b;
      assert '%' !in a[1..];
      PercentDecodePlainPrefix(a[1..], b);
      if PercentDecode(b).Ok? {
        assert [a[0]] + (a[1..] + PercentDecode(b).value) == a + PercentDecode(b).value;
      }
    }
  }

  /** `%20` is a space. */
  lemma PercentDecodeSpace(b: string)
    ensures PercentDecode("%20" + b) == Cons(' ', PercentDecode(b))
  {
    var s := "%20" + b;
    assert s[0] == '%' && s[1] == '2' && s[2] == '0';
    assert EscapedByte(s, 0) == Some(32);
    assert s[3..] == b;
  }

  /** Appending text does not change a well-formed escape that lies entirely in
      front of it. */
  lemma EscapedByteExtend(s: string, t: string, i: nat)
    requires i + 3 <= |s|
    ensures EscapedByte(s + t, i) == EscapedByte(s, i)
  {
    assert (s + t)[i] == s[i] && (s + t)[i + 1] == s[i + 1] && (s + t)[i + 2] == s[i + 2];
  }

  /** A successful escape sequence reads the same with more text after it. */
  lemma DecodeEscapeExtend(s: string, t: string)
    requires |s| > 0 && s[0] == '%' && DecodeEscape(s).Some?
    ensures (s + t)[0] == '%' && DecodeEscape(s + t) == DecodeEscape(s)
  {
    var n := DecodeEscape(s).value.1;
    EscapedByteExtend(s, t, 0);
    if n >= 6 { EscapedByteExtend(s, t, 3); }
    if n >= 9 { EscapedByteExtend(s, t, 6); }
    if n >= 12 { EscapedByteExtend(s, t, 9); }
  }

  /** One step of `PercentDecodeAppend`: the first character `c` is decoded from
      the front of `a`, and `rest` is what remains of `a` after it. */
  lemma AppendStep(c: char, a: string, rest: string, b: string, whole: string)
    requires PercentDecode(a) == Cons(c, PercentDecode(rest)) && PercentDecode(rest).Ok?
    requires PercentDecode(whole) == Cons(c, PercentDecode(rest + b))
    requires PercentDecode(rest + b) ==
      if PercentDecode(b).Ok? then Ok(PercentDecode(rest).value + PercentDecode(b).value) else UriError
    ensures PercentDecode(whole) ==
      if PercentDecode(b).Ok? then Ok(PercentDecode(a).value + PercentDecode(b).value) else UriError
  {
    if PercentDecode(b).Ok? {
      assert [c] + (PercentDecode(rest).value + PercentDecode(b).value)
          == ([c] + PercentDecode(rest).value) + PercentDecode(b).value;
    }
  }

  /** Text that decodes, followed by more text: the decoding is the decoded front
      followed by the decoded rest, and fails exactly when the rest fails. */
  lemma {:induction false} PercentDecodeAppend(a: string, b: string)
    requires PercentDecode(a).Ok?
    ensures PercentDecode(a + b) ==
      if PercentDecode(b).Ok? then Ok(PercentDecode(a).value + PercentDecode(b).value) else UriError
    decreases |a|
  {
    if a == [] {
      assert a + b == b;
      if PercentDecode(b).Ok? {
        assert PercentDecode(a).value + PercentDecode(b).value == PercentDecode(b).value;
      }
    } else if a[0] != '%' {
      assert (a + b)[0] == a[0] && (a + b)[1..] == a[1..] + b;
      PercentDecodeAppend(a[1..], b);
      AppendStep(a[0], a, a[1..], b, a + b);
    } else {
      var p := DecodeEscape(a).value;
      DecodeEscapeExtend(a, b);
      assert (a + b)[p.1..] == a[p.1..] + b;
      assert PercentDecode(a) == Cons(p.0, PercentDecode(a[p.1..]));
      PercentDecodeAppend(a[p.1..], b);
      AppendStep(p.0, a, a[p.1..], b, a + b);
    }
  }

  /** A `%` that is not followed by two hexadecimal digits makes the whole decoding
      fail, whatever follows it and whatever well-formed text comes before it. */
  lemma PercentDecodeMalformed(a: string, b: string)
    requires PercentDecode(a).Ok?
    requires !(|b| >= 2 && IsHex(b[0]) && IsHex(b[1]))
    ensures PercentDecode(a + "%" + b) == UriError
  {
    var s := "%" + b;
    assert EscapedByte(s, 0).None? by {
      if |s| >= 3 {
        assert s[1] == b[0] && s[2] == b[1];
      }
    }
    assert PercentDecode(s) == UriError;
    assert a + "%" + b == a + s;
    PercentDecodeAppend(a, s);
  }

  /** `decodeURIComponent("%41%zz")` throws although its first escape is well formed. */
  lemma PercentDecodeLateMalformed()
    ensures PercentDecode("%41") == Ok("A")
    ensures PercentDecode("%41%zz") == UriError
  {
    var a := "%41";
    assert EscapedByte(a, 0) == Some(65);
    assert DecodeEscape(a) == Some(('A', 3));
    assert a[3..] == [];
    assert PercentDecode(a[3..]) == Ok([]);
    assert [('A')] + [] == "A";
    PercentDecodeMalformed(a, "zz");
    assert a + "%" + "zz" == "%41%zz";
  }

  // ---------------------------------------------------------------------------
  // Encoding (the partner direction)
  // ---------------------------------------------------------------------------

  /** The characters `encodeURIComponent` leaves as they are. */
  predicate IsUnreserved(c: char) {
    IsAlnum(c) || c == '-' || c == '_' || c == '.' || c == '!' || c == '~'
    || c == '*' || c == '\'' || c == '(' || c == ')'
  }

  /** The UTF-8 bytes of a code point. */
  function Utf8Bytes(c: char): (bs: seq<nat>)
    ensures 1 <= |bs| <= 4
    ensures forall i :: 0 <= i < |bs| ==> bs[i] < 256
  {
    var cp := c as int;
    if cp < 0x80 then [cp]
    else if cp < 0x800 then [0xC0 + cp / 64, 0x80 + cp % 64]
    else if cp < 0x10000 then [0xE0 + cp / 64 / 64, 0x80 + cp / 64 % 64, 0x80 + cp % 64]
    else [0xF0 + cp / 64 / 64 / 64, 0x80 + cp / 64 / 64 % 64, 0x80 + cp / 64 % 64, 0x80 + cp % 64]
  }

  /** `%XX` with upper-case hexadecimal digits. */
  function EscapeByte(b: nat): (r: string)
    requires b < 256
    ensures |r| == 3 && EscapedByte(r, 0) == Some(b)
  {
    ['%', HexDigit(b / 16), HexDigit(b % 16)]
  }

  function EscapeBytes(bs: seq<nat>): (r: string)
    requires forall i :: 0 <= i < |bs| ==> bs[i] < 256
    ensures |r| == 3 * |bs|
    decreases |bs|
  {
    if bs == [] then [] else EscapeByte(bs[0]) + EscapeBytes(bs[1..])
  }

  function EncodeChar(c: char): string {
    if IsUnreserved(c) then [c] else EscapeBytes(Utf8Bytes(c))
  }

  /** `encodeURIComponent(s)`. */
  function PercentEncode(s: string): string
    decreases |s|
  {
    if s == [] then [] else EncodeChar(s[0]) + PercentEncode(s[1..])
  }

  /** An escape written into a string reads back as its byte. */
  lemma EscapedByteAt(x: string, b: nat, y: string)
    requires b < 256
    ensures EscapedByte(x + EscapeByte(b) + y, |x|) == Some(b)
  {
    var s := x + EscapeByte(b) + y;
    var e := EscapeByte(b);
    assert s[|x|] == e[0] && s[|x| + 1] == e[1] && s[|x| + 2] == e[2];
    assert EscapedByte(e, 0) == Some(b);
  }

  /** The `k`-th escape of a byte sequence, followed by anything, reads back as the
      `k`-th byte. */
  lemma {:induction false} EscapedByteOfEscapes(bs: seq<nat>, rest: string, k: nat)
    requires forall i :: 0 <= i < |bs| ==> bs[i] < 256
    requires k < |bs|
    ensures EscapedByte(EscapeBytes(bs) + rest, 3 * k) == Some(bs[k])
    decreases |bs|
  {
    var tail := EscapeBytes(bs[1..]) + rest;
    Regroup(EscapeByte(bs[0]), EscapeBytes(bs[1..]), rest);
    if k == 0 {
      EscapedByteAt([], bs[0], tail);
      assert [] + EscapeByte(bs[0]) + tail == EscapeByte(bs[0]) + tail;
    } else {
      EscapedByteOfEscapes(bs[1..], rest, k - 1);
      EscapedByteShift(EscapeByte(bs[0]), tail, 3 * (k - 1));
    }
  }

  /** Three characters in front move every escape three places on. */
  lemma EscapedByteShift(x: string, y: string, i: nat)
    requires |x| == 3
    ensures EscapedByte(x + y, i + 3) == EscapedByte(y, i)
  {
    if i + 3 <= |y| {
      assert (x + y)[i + 3] == y[i] && (x + y)[i + 4] == y[i + 1] && (x + y)[i + 5] == y[i + 2];
    }
  }

  /** The escapes of the encoding of `c` at the positions where decoding looks. */
  lemma EscapesOfEncoding(c: char, rest: string)
    requires !IsUnreserved(c)
    ensures var bs, s := Utf8Bytes(c), EncodeChar(c) + rest;
      |EncodeChar(c)| == 3 * |bs| && s[0] == '%'
      && EscapedByte(s, 0) == Some(bs[0])
      && (|bs| >= 2 ==> EscapedByte(s, 3) == Some(bs[1]))
      && (|bs| >= 3 ==> EscapedByte(s, 6) == Some(bs[2]))
      && (|bs| >= 4 ==> EscapedByte(s, 9) == Some(bs[3]))
  {
    var bs := Utf8Bytes(c);
    EscapedByteOfEscapes(bs, rest, 0);
    if |bs| >= 2 {
      EscapedByteOfEscapes(bs, rest, 1);
    }
    if |bs| >= 3 {
      EscapedByteOfEscapes(bs, rest, 2);
    }
    if |bs| >= 4 {
      EscapedByteOfEscapes(bs, rest, 3);
    }
  }

  /** Decoding reads back the character that was escaped. */
  lemma DecodeEscapeOfEncoding(c: char, rest: string)
    requires !IsUnreserved(c)
    ensures var s := EncodeChar(c) + rest;
      s[0] == '%' && DecodeEscape(s) == Some((c, |EncodeChar(c)|))
  {
    var cp := c as int;
    if cp < 0x80 {
      DecodeEncoded1(c, rest);
    } else if cp < 0x800 {
      DecodeEncoded2(c, rest);
    } else if cp < 0x10000 {
      DecodeEncoded3(c, rest);
    } else {
      DecodeEncoded4(c, rest);
    }
  }

  lemma DecodeEncoded1(c: char, rest: string)
    requires !IsUnreserved(c)
    requires c as int < 0x80
    ensures DecodeEscape(EncodeChar(c) + rest) == Some((c, 3)) && |EncodeChar(c)| == 3
  {
    var bs := Utf8Bytes(c);
    EscapedByteOfEscapes(bs, rest, 0);
    Decode1(EncodeChar(c) + rest, c as int);
  }

  lemma DecodeEncoded2(c: char, rest: string)
    requires !IsUnreserved(c)
    requires 0x80 <= c as int < 0x800
    ensures DecodeEscape(EncodeChar(c) + rest) == Some((c, 6)) && |EncodeChar(c)| == 6
  {
    var cp := c as int;
    var bs := Utf8Bytes(c);
    assert bs == [0xC0 + cp / 64, 0x80 + cp % 64];
    EscapedByteOfEscapes(bs, rest, 0);
    EscapedByteOfEscapes(bs, rest, 1);
    Decode2(EncodeChar(c) + rest, cp);
  }

  lemma DecodeEncoded3(c: char, rest: string)
    requires !IsUnreserved(c)
    requires 0x800 <= c as int < 0x10000
    ensures DecodeEscape(EncodeChar(c) + rest) == Some((c, 9)) && |EncodeChar(c)| == 9
  {
    var cp := c as int;
    var bs := Utf8Bytes(c);
    assert bs == [0xE0 + cp / 64 / 64, 0x80 + cp / 64 % 64, 0x80 + cp % 64];
    EscapedByteOfEscapes(bs, rest, 0);
    EscapedByteOfEscapes(bs, rest, 1);
    EscapedByteOfEscapes(bs, rest, 2);
    Decode3(EncodeChar(c) + rest, cp);
  }

  lemma DecodeEncoded4(c: char, rest: string)
    requires !IsUnreserved(c)
    requires 0x10000 <= c as int
    ensures DecodeEscape(EncodeChar(c) + rest) == Some((c, 12)) && |EncodeChar(c)| == 12
  {
    var cp := c as int;
    var bs := Utf8Bytes(c);
    assert bs == [0xF0 + cp / 64 / 64 / 64, 0x80 + cp / 64 / 64 % 64, 0x80 + cp / 64 % 64, 0x80 + cp % 64];
    EscapedByteOfEscapes(bs, rest, 0);
    EscapedByteOfEscapes(bs, rest, 1);
    EscapedByteOfEscapes(bs, rest, 2);
    EscapedByteOfEscapes(bs, rest, 3);
    Decode4(EncodeChar(c) + rest, cp);
  }

  lemma Decode1(s: string, cp: int)
    requires 0 <= cp < 0x80
    requires |s| > 0 && s[0] == '%'
    requires EscapedByte(s, 0) == Some(cp)
    ensures DecodeEscape(s) == Some((cp as char, 3))
  {
  }

  lemma Decode2(s: string, cp: int)
    requires 0x80 <= cp < 0x800
    requires |s| > 0 && s[0] == '%'
    requires EscapedByte(s, 0) == Some(0xC0 + cp / 64)
    requires EscapedByte(s, 3) == Some(0x80 + cp % 64)
    ensures DecodeEscape(s) == Some((cp as char, 6))
  {
    assert Continuation(s, 3) == Some(cp % 64);
  }

  lemma Decode3(s: string, cp: int)
    requires 0x800 <= cp < 0x10000 && !(0xD800 <= cp <= 0xDFFF)
    requires |s| > 0 && s[0] == '%'
    requires EscapedByte(s, 0) == Some(0xE0 + cp / 64 / 64)
    requires EscapedByte(s, 3) == Some(0x80 + cp / 64 % 64)
    requires EscapedByte(s, 6) == Some(0x80 + cp % 64)
    ensures DecodeEscape(s) == Some((cp as char, 9))
  {
    assert Continuation(s, 3) == Some(cp / 64 % 64);
    assert Continuation(s, 6) == Some(cp % 64);
  }

  lemma Decode4(s: string, cp: int)
    requires 0x10000 <= cp <= 0x10FFFF
    requires |s| > 0 && s[0] == '%'
    requires EscapedByte(s, 0) == Some(0xF0 + cp / 64 / 64 / 64)
    requires EscapedByte(s, 3) == Some(0x80 + cp / 64 / 64 % 64)
    requires EscapedByte(s, 6) == Some(0x80 + cp / 64 % 64)
    requires EscapedByte(s, 9) == Some(0x80 + cp % 64)
    ensures DecodeEscape(s) == Some((cp as char, 12))
  {
    assert Continuation(s, 3) == Some(cp / 64 / 64 % 64);
    assert Continuation(s, 6) == Some(cp / 64 % 64);
    assert Continuation(s, 9) == Some(cp % 64);
  }

  lemma PercentDecodeEncodedChar(c: char, rest: string)
    ensures PercentDecode(EncodeChar(c) + rest) == Cons(c, PercentDecode(rest))
  {
    var s := EncodeChar(c) + rest;
    if IsUnreserved(c) {
      assert s[0] == c && s[1..] == rest;
    } else {
      DecodeEscapeOfEncoding(c, rest);
      assert s[|EncodeChar(c)|..] == rest;
    }
  }

  /** Decoding undoes encoding: `decodeURIComponent(encodeURIComponent(s)) == s`. */
  lemma {:induction false} PercentDecodeEncode(s: string)
    ensures PercentDecode(PercentEncode(s)) == Ok(s)
    decreases |s|
  {
    if s != [] {
      PercentDecodeEncode(s[1..]);
      PercentDecodeEncodedChar(s[0], PercentEncode(s[1..]));
      assert [s[0]] + s[1..] == s;
    }
  }
}
