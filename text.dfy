/**
 * JavaScript string operations used by the routes, over `string`.
 * `length`, `slice` and `padStart` count UTF-16 code units; here they count
 * `char`s, which agrees for text inside the Basic Multilingual Plane. A
 * character outside it is one `char` here but two code units in JavaScript.
 */
module Text {
  import opened Wrappers

  /** ECMAScript WhiteSpace and LineTerminator: what `trim` removes, what `\s` matches and what `parseInt` skips. */
  predicate IsSpace(c: char) {
    || c == '\t' || c == '\n' || c == '\U{000B}' || c == '\U{000C}' || c == '\r' || c == ' '
    || c == '\U{00A0}' || c == '\U{1680}' || ('\U{2000}' <= c <= '\U{200A}')
    || c == '\U{2028}' || c == '\U{2029}' || c == '\U{202F}' || c == '\U{205F}'
    || c == '\U{3000}' || c == '\U{FEFF}'
  }

  /** ECMAScript LineTerminator: the characters a regular-expression `.` does not match. */
  predicate IsLineTerminator(c: char) {
    c == '\n' || c == '\r' || c == '\U{2028}' || c == '\U{2029}'
  }

  /** `s.trimStart()`: drops the leading whitespace and nothing else. */
  function TrimStart(s: string): (r: string)
    ensures |r| <= |s| && r == s[|s| - |r|..]
    ensures r == [] || !IsSpace(r[0])
  {
    if s != [] && IsSpace(s[0]) then TrimStart(s[1..]) else s
  }

  /** What `trimStart` drops is whitespace. */
  lemma {:induction false} TrimStartSpaces(s: string)
    ensures forall i :: 0 <= i < |s| - |TrimStart(s)| ==> IsSpace(s[i])
  {
    if s != [] && IsSpace(s[0]) {
      TrimStartSpaces(s[1..]);
      assert forall i :: 1 <= i < |s| ==> s[i] == s[1..][i - 1];
    }
  }

  /** `s.trimEnd()`: drops the trailing whitespace and nothing else. */
  function TrimEnd(s: string): (r: string)
    ensures |r| <= |s| && r == s[..|r|]
    ensures r == [] || !IsSpace(r[|r| - 1])
  {
    if s != [] && IsSpace(s[|s| - 1]) then TrimEnd(s[..|s| - 1]) else s
  }

  /** What `trimEnd` drops is whitespace. */
  lemma {:induction false} TrimEndSpaces(s: string)
    ensures forall i :: |TrimEnd(s)| <= i < |s| ==> IsSpace(s[i])
  {
    if s != [] && IsSpace(s[|s| - 1]) {
      TrimEndSpaces(s[..|s| - 1]);
    }
  }

  /** `s.trim()`: a contiguous piece of `s` with no whitespace at either end. */
  function Trim(s: string): (r: string)
    ensures |r| <= |s|
    ensures r == [] || (!IsSpace(r[0]) && !IsSpace(r[|r| - 1]))
  {
    TrimEnd(TrimStart(s))
  }

  /** The trim is a contiguous piece of `s`, after its leading whitespace. */
  lemma TrimOccurs(s: string)
    ensures OccursAt(s, Trim(s), |s| - |TrimStart(s)|)
  {
    var t := TrimStart(s);
    var r := TrimEnd(t);
    PieceOccurs(s, |s| - |t|, |r|);
  }

  lemma PieceOccurs(s: string, k: nat, m: nat)
    requires k + m <= |s|
    ensures OccursAt(s, s[k..][..m], k)
  {
    assert s[k..k + m] == s[k..][..m];
  }

  /** A string with no whitespace at either end is its own trim. */
  lemma {:induction false} TrimOfTrimmed(s: string)
    requires s == [] || (!IsSpace(s[0]) && !IsSpace(s[|s| - 1]))
    ensures Trim(s) == s
  {
  }

  predicate StartsWith(s: string, p: string) {
    |p| <= |s| && s[..|p|] == p
  }

  predicate EndsWith(s: string, p: string) {
    |p| <= |s| && s[|s| - |p|..] == p
  }

  /** `p` occurs in `s` at index `i`. */
  predicate OccursAt(s: string, p: string, i: nat) {
    i + |p| <= |s| && s[i..i + |p|] == p
  }

  /** Moving one character into `s` shifts every occurrence by one. */
  lemma OccursShift(s: string, p: string, j: nat)
    requires s != []
    ensures OccursAt(s, p, j + 1) <==> OccursAt(s[1..], p, j)
  {
    if j + 1 + |p| <= |s| {
      assert s[j + 1..j + 1 + |p|] == s[1..][j..j + |p|];
    }
  }

  /** `s.includes(p)`. */
  function Contains(s: string, p: string): (b: bool)
    ensures b <==> exists i: nat :: OccursAt(s, p, i)
  {
    match IndexOf(s, p)
    case Some(k) => true
    case None => false
  }

  /** `s.includes(p)` found by trying each start in turn; `IncludesContains` relates it to `Contains`. */
  predicate Includes(s: string, p: string)
    decreases |s|
  {
    StartsWith(s, p) || (s != [] && Includes(s[1..], p))
  }

  /** The scan and the first-occurrence search agree. */
  lemma {:induction false} IncludesContains(s: string, p: string)
    ensures Includes(s, p) <==> Contains(s, p)
    decreases |s|
  {
    assert StartsWith(s, p) <==> OccursAt(s, p, 0);
    if s != [] {
      IncludesContains(s[1..], p);
      forall j: nat ensures OccursAt(s, p, j + 1) <==> OccursAt(s[1..], p, j) {
        OccursShift(s, p, j);
      }
      if !OccursAt(s, p, 0) && Contains(s, p) {
        var i: nat :| OccursAt(s, p, i);
        assert i > 0 && OccursAt(s[1..], p, i - 1);
      }
    }
  }

  /** `s.indexOf(p)` when it is not -1: the first index at which `p` occurs. */
  function IndexOf(s: string, p: string): (r: Option<nat>)
    ensures r.Some? ==> OccursAt(s, p, r.value) && forall j: nat :: j < r.value ==> !OccursAt(s, p, j)
    ensures r.None? ==> forall j: nat :: !OccursAt(s, p, j)
  {
    if StartsWith(s, p) then
      assert OccursAt(s, p, 0);
      Some(0)
    else if s == [] then None
    else
      var q := IndexOf(s[1..], p);
      forall j: nat ensures OccursAt(s, p, j + 1) <==> OccursAt(s[1..], p, j) {
        OccursShift(s, p, j);
      }
      if q.None? then
        assert forall j: nat :: OccursAt(s, p, j) ==> j > 0 && OccursAt(s[1..], p, j - 1);
        None
      else
        assert forall j: nat :: 0 < j <= q.value && OccursAt(s, p, j) ==> OccursAt(s[1..], p, j - 1);
        Some(q.value + 1)
  }

  /** The resolved bound that `slice` uses for a (possibly negative) index. */
  function SliceBound(len: nat, i: int): (r: nat)
    ensures r <= len
    ensures 0 <= i ==> r == if i <= len then i else len
    ensures i < 0 ==> r == if len + i < 0 then 0 else len + i
  {
    if i < 0 then (if len + i < 0 then 0 else len + i) else if i <= len then i else len
  }

  /** `s.slice(start, end)` with JavaScript's treatment of negative and out-of-range indices. */
  function Slice<T>(s: seq<T>, start: int, end: int): (r: seq<T>)
    ensures |r| <= |s|
    ensures 0 <= start <= end ==> r == s[if start <= |s| then start else |s|..if end <= |s| then end else |s|]
  {
    var from, to := SliceBound(|s|, start), SliceBound(|s|, end);
    if from < to then s[from..to] else []
  }

  /** A slice is never longer than the distance between its bounds. */
  lemma SliceLength<T>(s: seq<T>, start: int, end: int)
    requires start <= end
    ensures |Slice(s, start, end)| <= end - start
  {
  }

  /** `s.slice(0, n)` for n >= 0: the first n elements, or all of them. */
  function Take<T>(s: seq<T>, n: nat): (r: seq<T>)
    ensures |r| <= n && |r| <= |s|
    ensures |r| == if n <= |s| then n else |s|
    ensures r == s[..|r|]
  {
    if n <= |s| then s[..n] else s
  }

  /** `s.padStart(n, [c])`. */
  function PadStart(s: string, n: nat, c: char): (r: string)
    ensures |r| == if |s| < n then n else |s|
    ensures EndsWith(r, s)
    ensures forall i :: 0 <= i < |r| - |s| ==> r[i] == c
  {
    if |s| < n then seq(n - |s|, _ => c) + s else s
  }

  function DigitChar(d: nat): (c: char)
    requires d < 10
    ensures '0' <= c <= '9' && c as int - '0' as int == d
  {
    ('0' as int + d) as char
  }

  /** Decimal rendering of a natural number, as `String(n)` gives it. */
  function NatToString(n: nat): (r: string)
    ensures |r| >= 1
    ensures n < 10 <==> |r| == 1
  {
    if n < 10 then [DigitChar(n)] else NatToString(n / 10) + [DigitChar(n % 10)]
  }

  /** Decimal rendering of an integer, as `String(i)` gives it. */
  function IntToString(i: int): string {
    if i < 0 then "-" + NatToString(-i) else NatToString(i)
  }

  /** The value a digit has in the given base (10 or 16), if it is one. */
  function DigitValue(c: char, base: nat): (r: Option<nat>)
    ensures r.Some? ==> r.value < base
    ensures base == 10 ==> (r.Some? <==> '0' <= c <= '9')
  {
    if '0' <= c <= '9' && (c as int - '0' as int) < base then Some(c as int - '0' as int)
    else if base == 16 && 'a' <= c <= 'f' then Some(c as int - 'a' as int + 10)
    else if base == 16 && 'A' <= c <= 'F' then Some(c as int - 'A' as int + 10)
    else None
  }

  /** The number of leading characters of `s` that are digits in `base`. */
  function DigitRun(s: string, base: nat): (n: nat)
    ensures n <= |s|
    ensures forall i :: 0 <= i < n ==> DigitValue(s[i], base).Some?
    ensures n < |s| ==> DigitValue(s[n], base).None?
  {
    if s != [] && DigitValue(s[0], base).Some? then 1 + DigitRun(s[1..], base) else 0
  }

  /** The value of a string of digits in `base`. */
  function DigitsValue(ds: string, base: nat): nat
    requires forall i :: 0 <= i < |ds| ==> DigitValue(ds[i], base).Some?
  {
    if ds == [] then 0
    else
      var v := DigitsValue(ds[..|ds| - 1], base);
      ProductOfNats(v, base);
      v * base + DigitValue(ds[|ds| - 1], base).value
  }

  /**
   * `parseInt(s, 10)` (autoHex false) or `parseInt(s)` (autoHex true, where a
   * "0x"/"0X" prefix selects base 16). None stands for NaN: no digits after
   * the whitespace and the sign.
   */
  function ParseInt(s: string, autoHex: bool): Option<int> {
    var t := TrimStart(s);
    var neg := t != [] && t[0] == '-';
    var u := if t != [] && (t[0] == '-' || t[0] == '+') then t[1..] else t;
    var hex := autoHex && |u| >= 2 && u[0] == '0' && (u[1] == 'x' || u[1] == 'X');
    var base := if hex then 16 else 10;
    var body := if hex then u[2..] else u;
    match LeadingValue(body, base)
    case None => None
    case Some(v) => Some(if neg then -(v as int) else v as int)
  }

  /** The value of the leading digits of `s` in `base`, if there are any. */
  function LeadingValue(s: string, base: nat): Option<nat> {
    var n := DigitRun(s, base);
    if n == 0 then None else Some(DigitsValue(s[..n], base))
  }

  /** A text made only of decimal digits is all leading digits. */
  lemma LeadingValueAll(s: string)
    requires s != [] && forall i :: 0 <= i < |s| ==> '0' <= s[i] <= '9'
    ensures LeadingValue(s, 10) == Some(DigitsValue(s, 10))
  {
    DigitRunAll(s, 10);
    assert s[..|s|] == s;
  }

  function ToLowerAscii(c: char): (r: char)
    ensures 'A' <= c <= 'Z' ==> r as int == c as int + 32
    ensures !('A' <= c <= 'Z') ==> r == c
  {
    if 'A' <= c <= 'Z' then (c as int + 32) as char else c
  }

  function LowerAscii(s: string): (r: string)
    ensures |r| == |s| && forall i :: 0 <= i < |s| ==> r[i] == ToLowerAscii(s[i])
  {
    seq(|s|, i requires 0 <= i < |s| => ToLowerAscii(s[i]))
  }

  /** `s.split(sep)` for a one-character separator. */
  function Split(s: string, sep: char): (parts: seq<string>)
    ensures |parts| >= 1
    ensures forall k :: 0 <= k < |parts| ==> sep !in parts[k]
    ensures sep !in s ==> parts == [s]
  {
    if sep !in s then [s]
    else
      var i := FirstIndexOf(s, sep);
      [s[..i]] + Split(s[i + 1..], sep)
  }

  /** The index of the first occurrence of `c` in `s`. */
  function FirstIndexOf(s: string, c: char): (i: nat)
    requires c in s
    ensures i < |s| && s[i] == c && c !in s[..i]
  {
    if s[0] == c then 0 else 1 + FirstIndexOf(s[1..], c)
  }

  /** `parts.join(sep)`. */
  function Join(parts: seq<string>, sep: char): string {
    if parts == [] then ""
    else if |parts| == 1 then parts[0]
    else parts[0] + [sep] + Join(parts[1..], sep)
  }

  lemma JoinCons(a: string, rest: seq<string>, sep: char)
    requires rest != []
    ensures Join([a] + rest, sep) == a + [sep] + Join(rest, sep)
  {
    assert ([a] + rest)[1..] == rest;
  }

  /** Joining what `Split` cut gives back the original text. */
  lemma {:induction false} JoinSplit(s: string, sep: char)
    ensures Join(Split(s, sep), sep) == s
    decreases |s|
  {
    if sep in s {
      var i := FirstIndexOf(s, sep);
      JoinSplit(s[i + 1..], sep);
      JoinCons(s[..i], Split(s[i + 1..], sep), sep);
      assert s == s[..i] + [sep] + s[i + 1..];
    }
  }

  /** Dropping the first piece of a split and joining the rest gives the text after the first separator. */
  lemma SplitTail(s: string, sep: char)
    ensures sep in s ==> Join(Split(s, sep)[1..], sep) == s[FirstIndexOf(s, sep) + 1..]
    ensures sep !in s ==> Split(s, sep)[1..] == []
  {
    if sep in s {
      JoinSplit(s[FirstIndexOf(s, sep) + 1..], sep);
    }
  }

  /** The digits of a decimal rendering are read back as the number. */
  lemma {:induction false} NatToStringValue(n: nat)
    ensures forall i :: 0 <= i < |NatToString(n)| ==> '0' <= NatToString(n)[i] <= '9'
    ensures DigitsValue(NatToString(n), 10) == n
  {
    if n >= 10 {
      NatToStringValue(n / 10);
      DigitsValueSnoc(NatToString(n / 10), n % 10);
    } else {
      assert NatToString(n)[..0] == [];
    }
  }

  /** Appending a digit multiplies the value by ten and adds the digit. */
  lemma DigitsValueSnoc(p: string, d: nat)
    requires d < 10 && forall i :: 0 <= i < |p| ==> '0' <= p[i] <= '9'
    ensures DigitsValue(p + [DigitChar(d)], 10) == DigitsValue(p, 10) * 10 + d
  {
    var r := p + [DigitChar(d)];
    assert r[..|r| - 1] == p;
  }

  lemma {:induction false} DigitRunAll(s: string, base: nat)
    requires forall i :: 0 <= i < |s| ==> DigitValue(s[i], base).Some?
    ensures DigitRun(s, base) == |s|
  {
    if s != [] {
      DigitRunAll(s[1..], base);
    }
  }

  /** A text of decimal digits is read by `parseInt` as its value, in either radix mode. */
  lemma ParseIntOfDigits(s: string, autoHex: bool)
    requires s != [] && forall i :: 0 <= i < |s| ==> '0' <= s[i] <= '9'
    ensures ParseInt(s, autoHex) == Some(DigitsValue(s, 10))
  {
    DigitIsPlain(s[0]);
    if |s| >= 2 {
      DigitIsPlain(s[1]);
    }
    ParseIntUnsigned(s, autoHex);
    LeadingValueAll(s);
  }

  lemma DigitIsPlain(c: char)
    requires '0' <= c <= '9'
    ensures !IsSpace(c) && c != '-' && c != '+' && c != 'x' && c != 'X'
  {
  }

  /** Without leading whitespace, sign or hex prefix, `parseInt` reads the leading decimal digits. */
  lemma ParseIntUnsigned(s: string, autoHex: bool)
    requires s != [] && !IsSpace(s[0]) && s[0] != '-' && s[0] != '+'
    requires !(|s| >= 2 && s[0] == '0' && (s[1] == 'x' || s[1] == 'X'))
    ensures ParseInt(s, autoHex) == LeadingValue(s, 10)
  {
    assert TrimStart(s) == s;
  }

  /** `parseInt` reads back what `String` wrote, in either radix mode. */
  lemma ParseIntOfNatToString(n: nat, autoHex: bool)
    ensures ParseInt(NatToString(n), autoHex) == Some(n)
  {
    NatToStringValue(n);
    ParseIntOfDigits(NatToString(n), autoHex);
  }

  lemma ProductOfNats(a: nat, b: nat)
    ensures a * b >= 0
  {
  }

  /** Lower-casing works character by character, so it distributes over concatenation. */
  lemma LowerAsciiConcat(a: string, b: string)
    ensures LowerAscii(a + b) == LowerAscii(a) + LowerAscii(b)
  {
    assert forall i :: 0 <= i < |a + b| ==> (a + b)[i] == if i < |a| then a[i] else b[i - |a|];
  }

  /** Concatenation regroups; stated once so callers need not re-derive it in a large context. */
  lemma ConcatAssoc<T>(a: seq<T>, b: seq<T>, c: seq<T>)
    ensures a + (b + c) == (a + b) + c
  {
  }
}
