/**
 * `decodeURIComponent` as the Decode operation of ECMA-262 (section 19.2.6
 * of ECMAScript 2023) defines it with an empty reserved set: `%XX` escapes
 * hold the UTF-8 bytes (section 2.1 of RFC 3986, section 3 of RFC 3629) of
 * each character, and a malformed escape or byte sequence is a URIError.
 * `encodeURIComponent` is its partner.
 */
module Uri {
  import opened Wrappers
  import opened Text

  /** The byte written as `%XX` at index `i` of `s`. */
  function EscapedByte(s: string, i: nat): (r: Option<nat>)
    ensures r.Some? ==> r.value < 256 && i + 3 <= |s| && s[i] == '%'
  {
    if i + 3 <= |s| && s[i] == '%' && DigitValue(s[i + 1], 16).Some? && DigitValue(s[i + 2], 16).Some? then
      Some(DigitValue(s[i + 1], 16).value * 16 + DigitValue(s[i + 2], 16).value)
    else None
  }

  /** The bytes of `n` consecutive escapes at the start of `s`. */
  function EscapedBytes(s: string, n: nat): (r: Option<seq<nat>>)
    ensures r.Some? ==> |r.value| == n && 3 * n <= |s| && forall i :: 0 <= i < n ==> r.value[i] < 256
  {
    if n == 0 then Some([])
    else
      match EscapedByte(s, 0)
      case None => None
      case Some(b) =>
        match EscapedBytes(s[3..], n - 1)
        case None => None
        case Some(bs) => Some([b] + bs)
  }

  /** The length of the UTF-8 sequence a byte starts: 0 for a continuation byte or a byte with more than four leading ones. */
  function SequenceLength(b: nat): nat {
    if b < 0x80 then 1
    else if 0xC0 <= b < 0xE0 then 2
    else if 0xE0 <= b < 0xF0 then 3
    else if 0xF0 <= b < 0xF8 then 4
    else 0
  }

  predicate IsContinuation(b: nat) {
    0x80 <= b < 0xC0
  }

  /** The bits carried by continuation bytes, six per byte. */
  function Payload(cs: seq<nat>): int {
    if cs == [] then 0 else Payload(cs[..|cs| - 1]) * 64 + (cs[|cs| - 1] as int - 0x80)
  }

  /** The code point of a UTF-8 sequence of one to four bytes. */
  function CodePoint(bs: seq<nat>): int
    requires 1 <= |bs| <= 4
  {
    var b0: int, rest := bs[0], bs[1..];
    if |bs| == 1 then b0
    else if |bs| == 2 then (b0 - 0xC0) * 64 + Payload(rest)
    else if |bs| == 3 then (b0 - 0xE0) * 4096 + Payload(rest)
    else (b0 - 0xF0) * 262144 + Payload(rest)
  }

  /** The shortest form for its length and a Unicode scalar value: not overlong, no surrogate, at most U+10FFFF. */
  predicate ValidScalar(n: nat, cp: int) {
    || (n == 1 && 0 <= cp < 0x80)
    || (n == 2 && 0x80 <= cp < 0x800)
    || (n == 3 && 0x800 <= cp < 0x10000 && !(0xD800 <= cp < 0xE000))
    || (n == 4 && 0x10000 <= cp < 0x110000)
  }

  /** The first decoded character of `s` and how many characters of `s` it took. */
  function DecodeUnit(s: string): (r: Option<(char, nat)>)
    requires s != []
    ensures r.Some? ==> 1 <= r.value.1 <= |s|
  {
    if s[0] != '%' then Some((s[0], 1))
    else
      match EscapedByte(s, 0)
      case None => None
      case Some(b0) =>
        var n := SequenceLength(b0);
        if n == 0 then None
        else
          match EscapedBytes(s, n)
          case None => None
          case Some(bs) =>
            if forall i :: 1 <= i < n ==> IsContinuation(bs[i]) then
              var cp := CodePoint(bs);
              if ValidScalar(n, cp) then Some((cp as char, 3 * n)) else None
            else None
  }

  /** `decodeURIComponent(s)`; None is the URIError. */
  function Decode(s: string): (r: Option<string>)
    ensures r.Some? ==> |r.value| <= |s| && (r.value == [] <==> s == [])
    decreases |s|
  {
    if s == [] then Some([])
    else
      match DecodeUnit(s)
      case None => None
      case Some((c, k)) =>
        match Decode(s[k..])
        case None => None
        case Some(rest) => Some([c] + rest)
  }

  /** Text without `%` decodes to itself. */
  lemma {:induction false} DecodePlain(s: string)
    requires '%' !in s
    ensures Decode(s) == Some(s)
    decreases |s|
  {
    if s != [] {
      DecodePlain(s[1..]);
      assert s == [s[0]] + s[1..];
    }
  }

  // ---------------------------------------------------------------------------
  // The encoder

  /** The characters `encodeURIComponent` leaves as they are. */
  predicate Unreserved(c: char) {
    || ('A' <= c <= 'Z') || ('a' <= c <= 'z') || ('0' <= c <= '9')
    || c == '-' || c == '_' || c == '.' || c == '!' || c == '~' || c == '*' || c == '\'' || c == '(' || c == ')'
  }

  function HexDigit(d: nat): (c: char)
    requires d < 16
    ensures DigitValue(c, 16) == Some(d)
  {
    if d < 10 then ('0' as int + d) as char else ('A' as int + d - 10) as char
  }

  /** The UTF-8 bytes of a scalar value. */
  function Utf8(cp: int): (bs: seq<nat>)
    requires 0 <= cp < 0x110000 && !(0xD800 <= cp < 0xE000)
    ensures 1 <= |bs| <= 4 && (forall i :: 0 <= i < |bs| ==> bs[i] < 256)
  {
    if cp < 0x80 then [cp]
    else if cp < 0x800 then [0xC0 + cp / 64, 0x80 + cp % 64]
    else if cp < 0x10000 then [0xE0 + cp / 4096, 0x80 + (cp / 64) % 64, 0x80 + cp % 64]
    else [0xF0 + cp / 262144, 0x80 + (cp / 4096) % 64, 0x80 + (cp / 64) % 64, 0x80 + cp % 64]
  }

  /** The bytes `Utf8` gives form one valid sequence for the same code point. */
  lemma Utf8Valid(cp: int)
    requires 0 <= cp < 0x110000 && !(0xD800 <= cp < 0xE000)
    ensures var bs := Utf8(cp);
      && SequenceLength(bs[0]) == |bs|
      && (forall i :: 1 <= i < |bs| ==> IsContinuation(bs[i]))
      && CodePoint(bs) == cp && ValidScalar(|bs|, cp)
  {
    if cp < 0x80 {
    } else if cp < 0x800 {
      Utf8ValidTwo(cp);
    } else if cp < 0x10000 {
      Utf8ValidThree(cp);
    } else {
      Utf8ValidFour(cp);
    }
  }

  lemma Utf8ValidTwo(cp: int)
    requires 0x80 <= cp < 0x800
    ensures var bs := [0xC0 + cp / 64, 0x80 + cp % 64];
      SequenceLength(bs[0]) == 2 && IsContinuation(bs[1]) && CodePoint(bs) == cp
  {
    var bs := [0xC0 + cp / 64, 0x80 + cp % 64];
    assert bs[1..] == [0x80 + cp % 64];
    assert Payload(bs[1..]) == cp % 64 by {
      assert bs[1..][..0] == [];
    }
  }

  lemma Utf8ValidThree(cp: int)
    requires 0x800 <= cp < 0x10000
    ensures var bs := [0xE0 + cp / 4096, 0x80 + (cp / 64) % 64, 0x80 + cp % 64];
      SequenceLength(bs[0]) == 3 && IsContinuation(bs[1]) && IsContinuation(bs[2]) && CodePoint(bs) == cp
  {
    var bs := [0xE0 + cp / 4096, 0x80 + (cp / 64) % 64, 0x80 + cp % 64];
    var a, b := (cp / 64) % 64, cp % 64;
    var q, q2 := cp / 64, cp / 64 / 64;
    assert cp == 64 * q + b && q == 64 * q2 + a;
    assert cp / 4096 == q2;
    assert cp == (cp / 4096) * 4096 + a * 64 + b;
    assert bs[1..] == [0x80 + a, 0x80 + b];
    PayloadOfTwo(0x80 + a, 0x80 + b);
  }

  lemma Utf8ValidFour(cp: int)
    requires 0x10000 <= cp < 0x110000
    ensures var bs := [0xF0 + cp / 262144, 0x80 + (cp / 4096) % 64, 0x80 + (cp / 64) % 64, 0x80 + cp % 64];
      && SequenceLength(bs[0]) == 4 && IsContinuation(bs[1]) && IsContinuation(bs[2]) && IsContinuation(bs[3])
      && CodePoint(bs) == cp
  {
    var bs := [0xF0 + cp / 262144, 0x80 + (cp / 4096) % 64, 0x80 + (cp / 64) % 64, 0x80 + cp % 64];
    var a, b, c := (cp / 4096) % 64, (cp / 64) % 64, cp % 64;
    var q, q2, q3 := cp / 64, cp / 64 / 64, cp / 64 / 64 / 64;
    assert cp == 64 * q + c && q == 64 * q2 + b && q2 == 64 * q3 + q2 % 64;
    assert cp / 4096 == q2 && cp / 262144 == q3;
    assert a == q2 % 64;
    assert cp == (cp / 262144) * 262144 + a * 4096 + b * 64 + c;
    assert bs[1..] == [0x80 + a, 0x80 + b, 0x80 + c];
    PayloadOfTwo(0x80 + a, 0x80 + b);
    assert [0x80 + a, 0x80 + b, 0x80 + c][..2] == [0x80 + a, 0x80 + b];
  }

  lemma PayloadOfTwo(x: nat, y: nat)
    ensures Payload([x, y]) == (x - 0x80) * 64 + (y - 0x80)
  {
    assert [x][..0] == [];
    assert Payload([x]) == x - 0x80;
    assert [x, y][..1] == [x];
  }

  /** `%XX` for each byte, upper-case hex. */
  function PercentBytes(bs: seq<nat>): (s: string)
    requires forall i :: 0 <= i < |bs| ==> bs[i] < 256
    ensures |s| == 3 * |bs|
  {
    if bs == [] then []
    else ['%', HexDigit(bs[0] / 16), HexDigit(bs[0] % 16)] + PercentBytes(bs[1..])
  }

  function EncodeChar(c: char): (s: string)
    ensures 1 <= |s|
  {
    if Unreserved(c) then [c] else PercentBytes(Utf8(c as int))
  }

  /** `encodeURIComponent(s)`. */
  function Encode(s: string): string {
    if s == [] then [] else EncodeChar(s[0]) + Encode(s[1..])
  }

  lemma {:induction false} EscapedPercentBytes(bs: seq<nat>, rest: string)
    requires forall i :: 0 <= i < |bs| ==> bs[i] < 256
    ensures EscapedBytes(PercentBytes(bs) + rest, |bs|) == Some(bs)
  {
    if bs != [] {
      var s := PercentBytes(bs) + rest;
      var tail := PercentBytes(bs[1..]) + rest;
      assert s == ['%', HexDigit(bs[0] / 16), HexDigit(bs[0] % 16)] + tail;
      assert s[3..] == tail;
      assert EscapedByte(s, 0) == Some(bs[0]);
      EscapedPercentBytes(bs[1..], rest);
      assert [bs[0]] + bs[1..] == bs;
    }
  }

  lemma DecodeUnitOfEncoded(c: char, rest: string)
    ensures DecodeUnit(EncodeChar(c) + rest) == Some((c, |EncodeChar(c)|))
  {
    if !Unreserved(c) {
      Utf8Valid(c as int);
      DecodeUnitOfPercent(Utf8(c as int), c as int, rest);
    }
  }

  /** The escapes of one valid UTF-8 sequence decode to its code point. */
  lemma DecodeUnitOfPercent(bs: seq<nat>, cp: int, rest: string)
    requires 1 <= |bs| <= 4 && forall i :: 0 <= i < |bs| ==> bs[i] < 256
    requires SequenceLength(bs[0]) == |bs| && forall i :: 1 <= i < |bs| ==> IsContinuation(bs[i])
    requires CodePoint(bs) == cp && ValidScalar(|bs|, cp)
    ensures DecodeUnit(PercentBytes(bs) + rest) == Some((cp as char, 3 * |bs|))
  {
    var s := PercentBytes(bs) + rest;
    EscapedPercentBytes(bs, rest);
    assert EscapedByte(s, 0) == Some(bs[0]);
  }

  /** Decoding undoes encoding. */
  lemma {:induction false} DecodeEncode(s: string)
    ensures Decode(Encode(s)) == Some(s)
    decreases |s|
  {
    if s != [] {
      var e := EncodeChar(s[0]);
      var t := e + Encode(s[1..]);
      DecodeUnitOfEncoded(s[0], Encode(s[1..]));
      assert t[|e|..] == Encode(s[1..]);
      DecodeEncode(s[1..]);
      assert [s[0]] + s[1..] == s;
    }
  }

  /** Encoded text holds no character `encodeURIComponent` would escape other than through `%`. */
  lemma {:induction false} EncodedIsUnreservedOrEscape(s: string)
    ensures forall i :: 0 <= i < |Encode(s)| ==> Unreserved(Encode(s)[i]) || Encode(s)[i] == '%' || DigitValue(Encode(s)[i], 16).Some?
  {
    if s != [] {
      EncodedIsUnreservedOrEscape(s[1..]);
      var e := EncodeChar(s[0]);
      if !Unreserved(s[0]) {
        PercentBytesChars(Utf8(s[0] as int));
      }
      assert forall i :: 0 <= i < |e| ==> Unreserved(e[i]) || e[i] == '%' || DigitValue(e[i], 16).Some?;
      var t := e + Encode(s[1..]);
      assert forall i :: |e| <= i < |t| ==> t[i] == Encode(s[1..])[i - |e|];
    }
  }

  lemma {:induction false} PercentBytesChars(bs: seq<nat>)
    requires forall i :: 0 <= i < |bs| ==> bs[i] < 256
    ensures forall i :: 0 <= i < |PercentBytes(bs)| ==> PercentBytes(bs)[i] == '%' || DigitValue(PercentBytes(bs)[i], 16).Some?
  {
    if bs != [] {
      PercentBytesChars(bs[1..]);
      var h := ['%', HexDigit(bs[0] / 16), HexDigit(bs[0] % 16)];
      var t := h + PercentBytes(bs[1..]);
      assert forall i :: 3 <= i < |t| ==> t[i] == PercentBytes(bs[1..])[i - 3];
    }
  }

  /** A lone `%`, a byte that cannot start a sequence, and an escaped surrogate are errors. */
  lemma DecodeErrors()
    ensures Decode("%") == None
    ensures Decode("%80") == None
    ensures Decode("%ED%A0%80") == None
  {
    assert DecodeUnit("%") == None;
    assert DigitValue('8', 16) == Some(8) && DigitValue('0', 16) == Some(0);
    assert EscapedByte("%80", 0) == Some(128);
    assert DecodeUnit("%80") == None;
    var s := "%ED%A0%80";
    assert DigitValue('E', 16) == Some(14) && DigitValue('D', 16) == Some(13);
    assert DigitValue('A', 16) == Some(10);
    assert EscapedByte(s, 0) == Some(0xED);
    assert EscapedByte(s[3..], 0) == Some(0xA0);
    assert EscapedByte(s[3..][3..], 0) == Some(0x80);
    assert s[3..][3..][3..] == [];
    var t, u := s[3..], s[3..][3..];
    var b1: seq<nat>, b2: seq<nat>, b3: seq<nat> := [0x80], [0xA0, 0x80], [0xED, 0xA0, 0x80];
    assert EscapedBytes(u[3..], 0).value == [];
    assert [0x80] + EscapedBytes(u[3..], 0).value == b1;
    assert EscapedBytes(u, 1).value == b1;
    assert [0xA0] + b1 == b2;
    assert EscapedBytes(t, 2).value == b2;
    assert [0xED] + b2 == b3;
    assert EscapedBytes(s, 3).value == b3;
    assert [0xED, 0xA0, 0x80][1..] == [0xA0, 0x80];
    PayloadOfTwo(0xA0, 0x80);
    assert CodePoint([0xED, 0xA0, 0x80]) == 0xD800;
    assert DecodeUnit(s) == None;
  }
}
