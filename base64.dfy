/**
 * `atob` as the forgiving-base64 decode of the WHATWG Infra standard
 * (section 4.6 of that standard) defines it: ASCII whitespace is removed,
 * one or two trailing `=` are dropped from a text whose length is a
 * multiple of 4, and the rest must be characters of the base64 alphabet of
 * section 4 of RFC 4648 whose count leaves a remainder other than 1 modulo 4.
 * The result is a binary string: one character per byte. `Encode` is the
 * padded encoding of section 4 of RFC 4648, its partner.
 */
module Base64 {
  import opened Wrappers
  import opened Text

  newtype uint8 = x: int | 0 <= x < 256

  /** The character of a six-bit value in the alphabet of Table 1 of RFC 4648. */
  function AlphabetChar(v: nat): (c: char)
    requires v < 64
    ensures AlphabetValue(c) == Some(v)
  {
    if v < 26 then ('A' as int + v) as char
    else if v < 52 then ('a' as int + v - 26) as char
    else if v < 62 then ('0' as int + v - 52) as char
    else if v == 62 then '+' else '/'
  }

  /** The six-bit value of an alphabet character. */
  function AlphabetValue(c: char): (r: Option<nat>)
    ensures r.Some? ==> r.value < 64
  {
    if 'A' <= c <= 'Z' then Some(c as int - 'A' as int)
    else if 'a' <= c <= 'z' then Some(c as int - 'a' as int + 26)
    else if '0' <= c <= '9' then Some(c as int - '0' as int + 52)
    else if c == '+' then Some(62)
    else if c == '/' then Some(63)
    else None
  }

  predicate InAlphabet(s: string) {
    forall i :: 0 <= i < |s| ==> AlphabetValue(s[i]).Some?
  }

  /** ASCII whitespace: tab, line feed, form feed, carriage return and space. */
  predicate IsAsciiWhitespace(c: char) {
    c == '\t' || c == '\n' || c == '\U{000C}' || c == '\r' || c == ' '
  }

  /** The text without its ASCII whitespace, in order. */
  function StripWhitespace(s: string): (r: string)
    ensures |r| <= |s|
  {
    if s == [] then []
    else (if IsAsciiWhitespace(s[0]) then [] else [s[0]]) + StripWhitespace(s[1..])
  }

  /** What is left holds no whitespace. */
  lemma {:induction false} StrippedClean(s: string)
    ensures forall i :: 0 <= i < |StripWhitespace(s)| ==> !IsAsciiWhitespace(StripWhitespace(s)[i])
  {
    if s != [] {
      StrippedClean(s[1..]);
      var h := if IsAsciiWhitespace(s[0]) then [] else [s[0]];
      var r := StripWhitespace(s);
      assert forall i :: |h| <= i < |r| ==> r[i] == StripWhitespace(s[1..])[i - |h|];
    }
  }

  /** A text without whitespace is left as it is. */
  lemma {:induction false} StripNothing(s: string)
    requires forall i :: 0 <= i < |s| ==> !IsAsciiWhitespace(s[i])
    ensures StripWhitespace(s) == s
  {
    if s != [] {
      StripNothing(s[1..]);
      assert s == [s[0]] + s[1..];
    }
  }

  /** One or two trailing `=` come off a text whose length is a multiple of 4. */
  function DropPadding(s: string): string {
    if |s| % 4 != 0 then s
    else if EndsWith(s, "==") then s[..|s| - 2]
    else if EndsWith(s, "=") then s[..|s| - 1]
    else s
  }

  function Value(c: char): (v: nat)
    requires AlphabetValue(c).Some?
    ensures v < 64
  {
    AlphabetValue(c).value
  }

  /** The bytes of one quantum of 2, 3 or 4 alphabet characters: one byte fewer than characters. */
  function DecodeQuantum(q: string): (r: seq<uint8>)
    requires 2 <= |q| <= 4 && InAlphabet(q)
    ensures |r| == |q| - 1
  {
    var a, b := Value(q[0]), Value(q[1]);
    var first: seq<uint8> := [(a * 4 + b / 16) as uint8];
    if |q| == 2 then first
    else
      var c := Value(q[2]);
      var second: seq<uint8> := first + [((b % 16) * 16 + c / 4) as uint8];
      if |q| == 3 then second
      else second + [((c % 4) * 64 + Value(q[3])) as uint8]
  }

  /** The bytes of a text of alphabet characters: 3 per group of 4, 1 for a final 2 and 2 for a final 3. */
  function DecodeBody(t: string): (r: seq<uint8>)
    requires InAlphabet(t) && |t| % 4 != 1
    ensures |r| == DecodedLength(|t|)
  {
    if |t| == 0 then []
    else if |t| <= 3 then DecodeQuantum(t)
    else
      InAlphabetSlice(t, 0, 4);
      InAlphabetSlice(t, 4, |t|);
      DecodedLengthStep(|t| - 4);
      DecodeQuantum(t[..4]) + DecodeBody(t[4..])
  }

  /** The number of bytes `n` alphabet characters decode to: 3 per group of 4, 1 for a final 2 and 2 for a final 3. */
  function DecodedLength(n: nat): nat {
    (n / 4) * 3 + (if n % 4 == 0 then 0 else n % 4 - 1)
  }

  lemma DecodedLengthStep(n: nat)
    ensures DecodedLength(n + 4) == DecodedLength(n) + 3
  {
    assert (n + 4) / 4 == n / 4 + 1 && (n + 4) % 4 == n % 4;
  }

  lemma InAlphabetSlice(t: string, lo: nat, hi: nat)
    requires lo <= hi <= |t| && InAlphabet(t)
    ensures InAlphabet(t[lo..hi])
  {
    assert forall i :: 0 <= i < hi - lo ==> t[lo..hi][i] == t[lo + i];
  }

  /** A binary string: the character whose code is each byte. */
  function BinaryString(bs: seq<uint8>): (s: string)
    ensures |s| == |bs| && forall i :: 0 <= i < |bs| ==> s[i] as int == bs[i] as int
  {
    seq(|bs|, i requires 0 <= i < |bs| => bs[i] as int as char)
  }

  /** `atob(s)`; None is the InvalidCharacterError it throws. */
  function Atob(s: string): (r: Option<string>)
    ensures r.Some? ==> forall i :: 0 <= i < |r.value| ==> r.value[i] as int < 256
  {
    var t := DropPadding(StripWhitespace(s));
    if |t| % 4 == 1 || !InAlphabet(t) then None
    else Some(BinaryString(DecodeBody(t)))
  }

  // ---------------------------------------------------------------------------
  // The encoder

  /** The 2, 3 or 4 alphabet characters of a quantum of 1, 2 or 3 bytes. */
  function EncodeQuantum(q: seq<uint8>): (s: string)
    requires 1 <= |q| <= 3
    ensures |s| == |q| + 1 && InAlphabet(s)
  {
    var x := q[0] as int;
    var y := if |q| >= 2 then q[1] as int else 0;
    var z := if |q| == 3 then q[2] as int else 0;
    var s2 := [AlphabetChar(x / 4), AlphabetChar((x % 4) * 16 + y / 16)];
    if |q| == 1 then s2
    else
      var s3 := s2 + [AlphabetChar((y % 16) * 4 + z / 64)];
      if |q| == 2 then s3 else s3 + [AlphabetChar(z % 64)]
  }

  /** The number of characters that encode `n` bytes without padding: 4 per group of 3, 2 for a final byte and 3 for a final 2. */
  function EncodedLength(n: nat): nat {
    (n / 3) * 4 + (if n % 3 == 0 then 0 else n % 3 + 1)
  }

  lemma EncodedLengthStep(n: nat)
    ensures EncodedLength(n + 3) == EncodedLength(n) + 4
  {
    assert (n + 3) / 3 == n / 3 + 1 && (n + 3) % 3 == n % 3;
  }

  /** The alphabet characters of `bs`: 4 per group of 3 bytes, 2 for a final byte and 3 for a final 2. */
  function EncodeBody(bs: seq<uint8>): (s: string)
    ensures InAlphabet(s)
    ensures |s| == EncodedLength(|bs|) && |s| % 4 != 1
  {
    EncodedLengthMod(|bs|);
    if |bs| == 0 then []
    else if |bs| <= 3 then
      EncodedLengthSmall(|bs|);
      EncodeQuantum(bs)
    else
      var group, rest := EncodeQuantum(bs[..3]), EncodeBody(bs[3..]);
      EncodedLengthStep(|bs| - 3);
      InAlphabetAppend(group, rest);
      group + rest
  }

  /** No number of bytes encodes to one character more than a multiple of four. */
  lemma EncodedLengthMod(n: nat)
    ensures EncodedLength(n) % 4 != 1
  {
    assert EncodedLength(n) == 4 * (n / 3) + (if n % 3 == 0 then 0 else n % 3 + 1);
  }

  lemma EncodedLengthSmall(n: nat)
    requires 1 <= n <= 3
    ensures EncodedLength(n) == n + 1
  {
  }

  lemma InAlphabetAppend(a: string, b: string)
    requires InAlphabet(a) && InAlphabet(b)
    ensures InAlphabet(a + b)
  {
    assert forall i :: |a| <= i < |a + b| ==> (a + b)[i] == b[i - |a|];
  }

  /** The `=` padding that fills the last group to 4 characters. */
  function Padding(n: nat): string {
    if n % 3 == 1 then "==" else if n % 3 == 2 then "=" else ""
  }

  /** `btoa` of a binary string: the padded encoding of section 4 of RFC 4648. */
  function Encode(bs: seq<uint8>): (s: string)
    ensures |s| % 4 == 0
  {
    PaddedLength(|bs|);
    EncodeBody(bs) + Padding(|bs|)
  }

  lemma PaddedLength(n: nat)
    ensures (EncodedLength(n) + |Padding(n)|) % 4 == 0
  {
    assert EncodedLength(n) + |Padding(n)| == 4 * (n / 3) + (if n % 3 == 0 then 0 else 4);
  }

  /** The six-bit pieces of three bytes give back the bytes. */
  lemma Regroup(x: int, y: int, z: int)
    requires 0 <= x < 256 && 0 <= y < 256 && 0 <= z < 256
    ensures var a, b, c, d := x / 4, (x % 4) * 16 + y / 16, (y % 16) * 4 + z / 64, z % 64;
      a * 4 + b / 16 == x && (b % 16) * 16 + c / 4 == y && (c % 4) * 64 + d == z
  {
    var b := (x % 4) * 16 + y / 16;
    var c := (y % 16) * 4 + z / 64;
    assert b / 16 == x % 4 && b % 16 == y / 16;
    assert c / 4 == y % 16 && c % 4 == z / 64;
  }

  /** The six-bit values of the characters that encode one quantum. */
  lemma QuantumValues(q: seq<uint8>)
    requires 1 <= |q| <= 3
    ensures var s, x := EncodeQuantum(q), q[0] as int;
      var y := if |q| >= 2 then q[1] as int else 0;
      var z := if |q| == 3 then q[2] as int else 0;
      && Value(s[0]) == x / 4 && Value(s[1]) == (x % 4) * 16 + y / 16
      && (|q| >= 2 ==> Value(s[2]) == (y % 16) * 4 + z / 64)
      && (|q| == 3 ==> Value(s[3]) == z % 64)
  {
  }

  /** Decoding the characters of one quantum gives back its bytes. */
  lemma DecodeEncodeQuantum(q: seq<uint8>)
    requires 1 <= |q| <= 3
    ensures DecodeQuantum(EncodeQuantum(q)) == q
  {
    var x := q[0] as int;
    var y := if |q| >= 2 then q[1] as int else 0;
    var z := if |q| == 3 then q[2] as int else 0;
    QuantumValues(q);
    DecodeInverse(EncodeQuantum(q), q);
  }

  /** Characters whose six-bit values are the pieces of the bytes `q` decode to `q`. */
  lemma DecodeInverse(s: string, q: seq<uint8>)
    requires 1 <= |q| <= 3 && |s| == |q| + 1 && InAlphabet(s)
    requires var x := q[0] as int;
      var y := if |q| >= 2 then q[1] as int else 0;
      var z := if |q| == 3 then q[2] as int else 0;
      && Value(s[0]) == x / 4 && Value(s[1]) == (x % 4) * 16 + y / 16
      && (|q| >= 2 ==> Value(s[2]) == (y % 16) * 4 + z / 64)
      && (|q| == 3 ==> Value(s[3]) == z % 64)
    ensures DecodeQuantum(s) == q
  {
    var x := q[0] as int;
    var y := if |q| >= 2 then q[1] as int else 0;
    var z := if |q| == 3 then q[2] as int else 0;
    Regroup(x, y, z);
  }

  /** Decoding a group of four characters followed by more decodes the group, then the rest. */
  lemma DecodeAppend(g: string, rest: string)
    requires |g| == 4 && InAlphabet(g) && InAlphabet(rest) && |rest| % 4 != 1
    ensures InAlphabet(g + rest)
    ensures DecodeBody(g + rest) == DecodeQuantum(g) + DecodeBody(rest)
  {
    var t := g + rest;
    assert forall i :: 0 <= i < |t| ==> t[i] == if i < 4 then g[i] else rest[i - 4];
    assert t[..4] == g && t[4..] == rest;
  }

  /** A text of at most four alphabet characters is a single quantum. */
  lemma DecodeOneQuantum(t: string)
    requires 2 <= |t| <= 4 && InAlphabet(t)
    ensures DecodeBody(t) == DecodeQuantum(t)
  {
    if |t| == 4 {
      assert t[..4] == t && t[4..] == [];
    }
  }

  /** Decoding the alphabet characters of some bytes gives back the bytes. */
  lemma {:induction false} DecodeEncodeBody(bs: seq<uint8>)
    ensures DecodeBody(EncodeBody(bs)) == bs
    decreases |bs|
  {
    if 1 <= |bs| <= 3 {
      DecodeOneQuantum(EncodeQuantum(bs));
      DecodeEncodeQuantum(bs);
    } else if |bs| > 3 {
      var group, rest := EncodeQuantum(bs[..3]), EncodeBody(bs[3..]);
      DecodeAppend(group, rest);
      DecodeEncodeQuantum(bs[..3]);
      DecodeEncodeBody(bs[3..]);
      assert bs == bs[..3] + bs[3..];
    }
  }

  /** Removing the padding of an encoding leaves its alphabet characters. */
  lemma DropEncodedPadding(bs: seq<uint8>)
    ensures DropPadding(Encode(bs)) == EncodeBody(bs)
  {
    var body := EncodeBody(bs);
    if |bs| % 3 == 1 {
      assert Encode(bs) == body + "==";
      DropTwoPads(body);
    } else if |bs| % 3 == 2 {
      assert Encode(bs) == body + "=";
      DropOnePad(body);
    } else {
      assert Encode(bs) == body;
      DropNoPad(body);
    }
  }

  lemma DropTwoPads(body: string)
    requires |body + "=="| % 4 == 0
    ensures DropPadding(body + "==") == body
  {
    var s := body + "==";
    assert s[|s| - 2..] == "==";
    assert s[..|s| - 2] == body;
  }

  lemma DropOnePad(body: string)
    requires |body + "="| % 4 == 0 && InAlphabet(body)
    ensures DropPadding(body + "=") == body
  {
    var s := body + "=";
    assert s[|s| - 2] == body[|body| - 1];
    assert AlphabetValue('=').None?;
    assert s[|s| - 2..][0] != '=';
    assert s[|s| - 1..] == "=";
    assert s[..|s| - 1] == body;
  }

  lemma DropNoPad(body: string)
    requires |body| % 4 == 0 && InAlphabet(body)
    ensures DropPadding(body) == body
  {
    if |body| > 0 {
      assert AlphabetValue('=').None?;
      assert body[|body| - 1..][0] != '=';
      assert body[|body| - 2..][1] != '=';
    }
  }

  /** `atob` undoes the encoding: every byte comes back as one character. */
  lemma AtobEncode(bs: seq<uint8>)
    ensures Atob(Encode(bs)) == Some(BinaryString(bs))
  {
    NoWhitespace(EncodeBody(bs), Padding(|bs|));
    DropEncodedPadding(bs);
    DecodeEncodeBody(bs);
  }

  /** Alphabet characters followed by padding hold no whitespace. */
  lemma NoWhitespace(body: string, pad: string)
    requires InAlphabet(body) && (pad == "" || pad == "=" || pad == "==")
    ensures StripWhitespace(body + pad) == body + pad
  {
    var s := body + pad;
    forall i | 0 <= i < |s| ensures !IsAsciiWhitespace(s[i]) {
      if i < |body| {
        assert s[i] == body[i] && AlphabetValue(body[i]).Some?;
      } else {
        assert s[i] == '=';
      }
    }
    StripNothing(s);
  }

  /** The empty text decodes to nothing; a lone character and a character outside the alphabet are errors. */
  lemma AtobCases()
    ensures Atob("") == Some("")
    ensures Atob("Q") == None
    ensures Atob("QQ*=") == None
  {
    assert StripWhitespace("Q") == "Q";
    var t := "QQ*=";
    assert StripWhitespace(t) == t;
    assert DropPadding(t) == "QQ*";
    assert AlphabetValue("QQ*"[2]).None?;
  }
}
