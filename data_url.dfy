/**
 * `dataURLToBlob` of lib/utils.ts: a `data:` URL (RFC 2397) is cut at its
 * commas, the media type is the lazy capture of `/data:(.*?);base64/` in
 * the header, the payload goes through `atob`, and the characters of the
 * result are stored one by one into a `Uint8Array`. The `Blob` constructor
 * of the File API (section 3.1 of that standard) normalises the type: a
 * type holding a character outside U+0020..U+007E becomes "", any other
 * is lower-cased.
 */
module DataUrl {
  import opened Wrappers
  import opened Text
  import opened Base64

  const Marker: string := ";base64"
  const Scheme: string := "data:"
  const DefaultMime: string := "image/png"

  datatype Blob = Blob(bytes: seq<uint8>, mediaType: string)

  // ---------------------------------------------------------------------------
  // The header and the payload

  /** `dataURL.split(",")[0]`. */
  function Header(s: string): string {
    Split(s, ',')[0]
  }

  /** `dataURL.split(",")[1] || ""`: the text between the first and the second comma. */
  function Payload(s: string): string {
    var parts := Split(s, ',');
    if |parts| >= 2 then parts[1] else ""
  }

  /** A header and a payload without commas, joined by one, split back into the two. */
  lemma SplitAtComma(h: string, p: string)
    requires ',' !in h && ',' !in p
    ensures Header(h + [','] + p) == h && Payload(h + [','] + p) == p
  {
    var s := h + [','] + p;
    assert s[|h|] == ',';
    var i := FirstIndexOf(s, ',');
    assert forall j :: 0 <= j < |h| ==> s[j] == h[j];
    assert i == |h|;
    assert s[..i] == h && s[i + 1..] == p;
  }

  // ---------------------------------------------------------------------------
  // The media type: `/data:(.*?);base64/.exec(header)?.[1] || "image/png"`

  /** `.*?` may stop at `j`: `close` follows there and no line terminator lies between `k` and `j`. */
  predicate CaptureEnds(h: string, close: string, k: nat, j: nat) {
    k <= j && OccursAt(h, close, j) && forall m :: k <= m < j ==> !IsLineTerminator(h[m])
  }

  /** Where a lazy `.*?` that starts at `k` and is followed by `close` stops: the least `j` it may stop at. */
  function LazyEnd(h: string, close: string, k: nat): (r: Option<nat>)
    requires k <= |h|
    ensures r.Some? ==> CaptureEnds(h, close, k, r.value) && forall m :: k <= m < r.value ==> !OccursAt(h, close, m)
    ensures r.None? ==> forall j: nat :: !CaptureEnds(h, close, k, j)
    decreases |h| - k
  {
    if OccursAt(h, close, k) then Some(k)
    else if k < |h| && !IsLineTerminator(h[k]) then
      var r := LazyEnd(h, close, k + 1);
      assert forall j: nat :: CaptureEnds(h, close, k, j) && j > k ==> CaptureEnds(h, close, k + 1, j);
      r
    else
      assert forall j: nat :: !CaptureEnds(h, close, k, j) by {
        forall j: nat ensures !CaptureEnds(h, close, k, j) {
          if k < j && k < |h| {
            assert IsLineTerminator(h[k]);
          }
        }
      }
      None
  }

  /** The end of the capture of `open(.*?)close` for a match starting at index `i`, if one starts there. */
  function MatchAt(h: string, open: string, close: string, i: nat): (r: Option<nat>)
    requires i <= |h|
    ensures r.Some? ==> i + |open| <= r.value <= |h|
  {
    if OccursAt(h, open, i) then LazyEnd(h, close, i + |open|) else None
  }

  /** Where the leftmost match of `open(.*?)close` at or after `i` starts. */
  function FirstMatch(h: string, open: string, close: string, i: nat): (r: Option<nat>)
    requires i <= |h|
    ensures r.Some? ==> i <= r.value <= |h| && MatchAt(h, open, close, r.value).Some? &&
                        forall j :: i <= j < r.value ==> MatchAt(h, open, close, j).None?
    ensures r.None? ==> forall j :: i <= j <= |h| ==> MatchAt(h, open, close, j).None?
    decreases |h| - i
  {
    if MatchAt(h, open, close, i).Some? then Some(i)
    else if i == |h| then None
    else FirstMatch(h, open, close, i + 1)
  }

  /** The capture of the leftmost match of `open(.*?)close`, if there is one. */
  function Capture(h: string, open: string, close: string): (r: Option<string>)
  {
    match FirstMatch(h, open, close, 0)
    case None => None
    case Some(i) => Some(h[i + |open|..MatchAt(h, open, close, i).value])
  }

  /** The media type named by a header; "image/png" when there is no match or the capture is empty. */
  function Mime(h: string): (m: string)
    ensures m != []
  {
    match Capture(h, Scheme, Marker)
    case Some(capture) => if capture == [] then DefaultMime else capture
    case None => DefaultMime
  }

  /** `p` occurs after a prefix exactly where it occurs in the rest. */
  lemma OccursAfterPrefix(prefix: string, t: string, p: string, j: nat)
    ensures OccursAt(prefix + t, p, |prefix| + j) <==> OccursAt(t, p, j)
  {
    var s := prefix + t;
    if j + |p| <= |t| {
      assert s[|prefix| + j..|prefix| + j + |p|] == t[j..j + |p|];
    }
  }

  /** In `open + m + close` the capture may stop before the final `close`, and `close` occurs nowhere before it. */
  lemma CloseAfter(open: string, m: string, close: string)
    requires forall k :: 0 <= k < |m| ==> !IsLineTerminator(m[k])
    requires IndexOf(m + close, close) == Some(|m|)
    ensures CaptureEnds(open + m + close, close, |open|, |open| + |m|)
    ensures forall j :: |open| <= j < |open| + |m| ==> !OccursAt(open + m + close, close, j)
  {
    var h := open + m + close;
    assert h == open + (m + close);
    OccursAfterPrefix(open, m + close, close, |m|);
    assert forall k :: |open| <= k < |open| + |m| ==> h[k] == m[k - |open|];
    forall j | |open| <= j < |open| + |m| ensures !OccursAt(h, close, j) {
      OccursAfterPrefix(open, m + close, close, j - |open|);
    }
  }

  /** In `open + m + close` the lazy capture stops right before the final `close`. */
  lemma LazyEndOf(open: string, m: string, close: string)
    requires forall k :: 0 <= k < |m| ==> !IsLineTerminator(m[k])
    requires IndexOf(m + close, close) == Some(|m|)
    ensures LazyEnd(open + m + close, close, |open|) == Some(|open| + |m|)
  {
    var h := open + m + close;
    CloseAfter(open, m, close);
    var r := LazyEnd(h, close, |open|);
    assert r.Some?;
    assert OccursAt(h, close, r.value);
    assert r.value == |open| + |m|;
  }

  /** The capture of `open(.*?)close` in `open + m + close` is `m` when `m` has no line terminator and no `close` of its own. */
  lemma CaptureOf(open: string, m: string, close: string)
    requires forall k :: 0 <= k < |m| ==> !IsLineTerminator(m[k])
    requires IndexOf(m + close, close) == Some(|m|)
    ensures Capture(open + m + close, open, close) == Some(m)
  {
    var h := open + m + close;
    var e := |open| + |m|;
    assert h[0..|open|] == open;
    assert OccursAt(h, open, 0);
    LazyEndOf(open, m, close);
    assert MatchAt(h, open, close, 0) == Some(e);
    assert h[|open|..e] == m;
  }

  /** The header "data:" + m + ";base64" names `m`, when `m` is not empty, has no line terminator and holds no ";base64" of its own. */
  lemma MimeOf(m: string)
    requires m != []
    requires forall k :: 0 <= k < |m| ==> !IsLineTerminator(m[k])
    requires IndexOf(m + Marker, Marker) == Some(|m|)
    ensures Mime(Scheme + m + Marker) == m
  {
    CaptureOf(Scheme, m, Marker);
  }

  /** A header in which "data:" never occurs names the default type. */
  lemma MimeDefault(h: string)
    requires forall i: nat :: !OccursAt(h, Scheme, i)
    ensures Mime(h) == DefaultMime
  {
  }

  // ---------------------------------------------------------------------------
  // The Blob

  /** Every character lies in U+0020..U+007E. */
  predicate Printable(t: string) {
    forall i :: 0 <= i < |t| ==> ' ' <= t[i] <= '~'
  }

  /** The `type` a `Blob` keeps for the `type` it is given. */
  function BlobType(t: string): (r: string)
    ensures Printable(t) ==> |r| == |t| && forall i :: 0 <= i < |t| ==> r[i] == ToLowerAscii(t[i])
    ensures !Printable(t) ==> r == []
  {
    if Printable(t) then LowerAscii(t) else []
  }

  /** A printable type without capital letters is kept as it is. */
  lemma BlobTypeOfLower(t: string)
    requires Printable(t) && forall i :: 0 <= i < |t| ==> !('A' <= t[i] <= 'Z')
    ensures BlobType(t) == t
  {
  }

  /** What a `Uint8Array` element keeps of a character code: the code modulo 256. */
  function ToUint8(c: char): (b: uint8)
    ensures b as int == c as int % 256
  {
    (c as int % 256) as uint8
  }

  /** The bytes a `Uint8Array` holds after storing the code of each character. */
  function Codes(b: string): (r: seq<uint8>)
    ensures |r| == |b| && forall i :: 0 <= i < |b| ==> r[i] == ToUint8(b[i])
  {
    seq(|b|, i requires 0 <= i < |b| => ToUint8(b[i]))
  }

  /** The Blob `dataURLToBlob` returns; None is the error `atob` throws. */
  function BlobOf(s: string): Option<Blob> {
    match Atob(Payload(s))
    case None => None
    case Some(binary) => Some(Blob(Codes(binary), BlobType(Mime(Header(s)))))
  }

  /** `new Uint8Array(len)` filled by `bytes[i] = binary.charCodeAt(i)` for every index. */
  method StoreCodes(text: string) returns (bytes: array<uint8>)
    ensures fresh(bytes) && bytes[..] == Codes(text)
  {
    bytes := new uint8[|text|];
    for i := 0 to |text|
      invariant forall k :: 0 <= k < i ==> bytes[k] == ToUint8(text[k])
    {
      bytes[i] := ToUint8(text[i]);
    }
    assert bytes[..] == Codes(text);
  }

  /**
   * `dataURLToBlob(dataURL)`: the bytes are written into a fresh array one
   * index at a time, as the `for` loop of the source does.
   */
  method DataUrlToBlob(dataURL: string) returns (r: Option<Blob>)
    ensures r == BlobOf(dataURL)
  {
    var header := Header(dataURL);
    var mime := Mime(header);
    var binary := Atob(Payload(dataURL));
    if binary.None? {
      return None;
    }
    var bytes := StoreCodes(binary.value);
    return Some(Blob(bytes[..], BlobType(mime)));
  }

  // ---------------------------------------------------------------------------
  // Properties

  /** The codes of a binary string are its bytes. */
  lemma CodesOfBinary(bs: seq<uint8>)
    ensures Codes(BinaryString(bs)) == bs
  {
    var c := Codes(BinaryString(bs));
    assert forall i :: 0 <= i < |bs| ==> c[i] == bs[i];
  }

  /** An encoding holds no comma. */
  lemma NoCommaInEncoding(bs: seq<uint8>)
    ensures ',' !in Encode(bs)
  {
    var s := Encode(bs);
    var body := EncodeBody(bs);
    assert s == body + Padding(|bs|);
    forall i | 0 <= i < |s| ensures s[i] != ',' {
      if i < |body| {
        assert AlphabetValue(body[i]).Some?;
      } else {
        assert s[i] in Padding(|bs|);
      }
    }
  }

  /**
   * Round trip: the data URL of media type `m` and base64 payload of `bs`
   * becomes a Blob of the bytes `bs` whose type is `m` as the Blob keeps it.
   */
  lemma DataUrlRoundTrip(m: string, bs: seq<uint8>)
    requires m != [] && ',' !in m
    requires forall k :: 0 <= k < |m| ==> !IsLineTerminator(m[k])
    requires IndexOf(m + Marker, Marker) == Some(|m|)
    ensures BlobOf(Scheme + m + Marker + [','] + Encode(bs)) == Some(Blob(bs, BlobType(m)))
  {
    var h := Scheme + m + Marker;
    assert ',' !in Scheme && ',' !in Marker;
    assert ',' !in h;
    NoCommaInEncoding(bs);
    SplitAtComma(h, Encode(bs));
    MimeOf(m);
    AtobEncode(bs);
    CodesOfBinary(bs);
  }

  /** A data URL without a comma has an empty payload: a Blob of no bytes. */
  lemma NoPayload(s: string)
    requires ',' !in s
    ensures BlobOf(s) == Some(Blob([], BlobType(Mime(s))))
  {
    assert Split(s, ',') == [s];
    AtobCases();
  }

  /** A payload `atob` rejects, such as a lone base64 character, makes the conversion fail. */
  lemma InvalidPayload(h: string)
    requires ',' !in h
    ensures BlobOf(h + [','] + "Q") == None
  {
    SplitAtComma(h, "Q");
    AtobCases();
  }
}
