/**
 * The report route: `extractStoragePath`, which turns a character's image
 * reference into a storage object path, and `POST`, which validates a
 * report, truncates its text, snapshots the reported character and writes
 * the report when the admin database is available.
 */
module ReportRoute {
  import opened Wrappers
  import opened Text
  import opened Store
  import Uri

  // ---------------------------------------------------------------------------
  // extractStoragePath

  /** The two parts of a parsed URL that the route reads. */
  datatype Url = Url(hostname: string, pathname: string)

  /** The text after the bucket of a `gs://` reference: everything after its first `/`, or None when that is empty. */
  function GsPath(rest: string): (r: Option<string>)
    ensures r.Some? ==> '/' in rest && r.value == rest[FirstIndexOf(rest, '/') + 1..] && r.value != []
    ensures r.None? ==> '/' !in rest || FirstIndexOf(rest, '/') + 1 == |rest|
  {
    SplitTail(rest, '/');
    var joined := Join(Split(rest, '/')[1..], '/');
    if joined == [] then None else Some(joined)
  }

  /** `p.split(sep)[1]`: the text between the first and the second occurrence of `sep`, if `sep` occurs. */
  function AfterFirst(p: string, sep: string): (r: Option<string>)
    requires sep != []
    ensures r.None? <==> !Contains(p, sep)
    ensures r.Some? ==> IndexOf(p, sep).Some? && OccursAt(p, r.value, IndexOf(p, sep).value + |sep|)
                        && !Contains(r.value, sep)
  {
    match IndexOf(p, sep)
    case None => None
    case Some(k) =>
      var t := p[k + |sep|..];
      match IndexOf(t, sep)
      case None =>
        PieceOccurs(p, k + |sep|, |t|);
        assert t[..|t|] == t;
        Some(t)
      case Some(k2) =>
        PieceOccurs(p, k + |sep|, k2);
        BeforeFirstOccurrence(t, sep, k2);
        Some(t[..k2])
  }

  /** The text before the first occurrence of `sep` holds no occurrence of it. */
  lemma BeforeFirstOccurrence(t: string, sep: string, k2: nat)
    requires sep != [] && IndexOf(t, sep) == Some(k2)
    ensures !Contains(t[..k2], sep)
  {
    var seg := t[..k2];
    forall j: nat ensures !OccursAt(seg, sep, j) {
      if j + |sep| <= |seg| {
        SliceOfPrefix(t, k2, j, j + |sep|);
        assert !OccursAt(t, sep, j);
      }
    }
  }

  lemma SliceOfPrefix(s: string, n: nat, i: nat, j: nat)
    requires i <= j <= n <= |s|
    ensures s[..n][i..j] == s[i..j]
  {
    assert forall k :: 0 <= k < j - i ==> s[..n][i..j][k] == s[i..j][k];
  }

  /** The length of the longest prefix of `s` without `/`: what a greedy `[^/]+` can take. */
  function NonSlashRun(s: string): (n: nat)
    ensures n <= |s| && (forall i :: 0 <= i < n ==> s[i] != '/') && (n < |s| ==> s[n] == '/')
  {
    if s != [] && s[0] != '/' then 1 + NonSlashRun(s[1..]) else 0
  }

  /** The length of the longest prefix of `s` without a line terminator: what a greedy `.+` can take. */
  function LineRun(s: string): (n: nat)
    ensures n <= |s| && (forall i :: 0 <= i < n ==> !IsLineTerminator(s[i])) && (n < |s| ==> IsLineTerminator(s[n]))
  {
    if s != [] && !IsLineTerminator(s[0]) then 1 + LineRun(s[1..]) else 0
  }

  /**
   * The capture of `/\/b\/[^/]+\/o\/(.+)/` for a match starting at index `i`.
   * `[^/]+` cannot stop before a `/`, so it takes the whole run of non-slash
   * characters and `/o/` must follow it; `.+` takes the rest of the line.
   */
  function MatchAt(p: string, i: nat): (r: Option<string>)
    requires i <= |p|
    ensures r.Some? ==> r.value != [] && forall k :: 0 <= k < |r.value| ==> !IsLineTerminator(r.value[k])
  {
    var s := p[i..];
    if !StartsWith(s, "/b/") then None
    else
      var t := s[3..];
      var k := NonSlashRun(t);
      if k == 0 || !StartsWith(t[k..], "/o/") then None
      else
        var u := t[k + 3..];
        var l := LineRun(u);
        if l == 0 then None else Some(u[..l])
  }

  /** Where the leftmost match of the storage-URL pattern at or after `i` starts. */
  function MatchIndex(p: string, i: nat): (r: Option<nat>)
    requires i <= |p|
    ensures r.Some? ==> i <= r.value <= |p| && MatchAt(p, r.value).Some? && forall j :: i <= j < r.value ==> MatchAt(p, j).None?
    ensures r.None? ==> forall j :: i <= j <= |p| ==> MatchAt(p, j).None?
    decreases |p| - i
  {
    if MatchAt(p, i).Some? then Some(i)
    else if i == |p| then None
    else MatchIndex(p, i + 1)
  }

  /**
   * `extractStoragePath(input)`, where `parse` stands for `new URL` (None is
   * the TypeError it throws) and a failed percent-decoding is the URIError
   * the `catch` turns into undefined (None).
   */
  function ExtractStoragePath(input: Option<string>, parse: string -> Option<Url>): (r: Option<string>)
    ensures input.None? || input == Some([]) ==> r.None?
    ensures r.Some? ==> r.value != []
  {
    if input.None? || input.value == [] then None
    else
      var s := input.value;
      if StartsWith(s, "gs://") then GsPath(s[5..])
      else if StartsWith(s, "http://") || StartsWith(s, "https://") then
        match parse(s)
        case None => None
        case Some(u) => UrlPath(s, u)
      else Some(s)
  }

  /** Lines 26-37: the path named by the parsed URL `u` of the non-empty input `s`. */
  function UrlPath(s: string, u: Url): (r: Option<string>)
    requires s != []
    ensures r.Some? ==> r.value != []
  {
    if EndsWith(u.hostname, ".firebasestorage.app") then AppPath(u.pathname)
    else if u.hostname == "firebasestorage.googleapis.com" then
      match MatchIndex(u.pathname, 0)
      case Some(j) => Uri.Decode(MatchAt(u.pathname, j).value)
      case None => Some(s)
    else Some(s)
  }

  /** An http(s) URL is not a `gs://` reference and goes to `UrlPath` once parsed. */
  lemma HttpInput(input: string, parse: string -> Option<Url>, u: Url)
    requires StartsWith(input, "https://") || StartsWith(input, "http://")
    requires parse(input) == Some(u)
    ensures ExtractStoragePath(Some(input), parse) == UrlPath(input, u)
  {
    assert input[0] == 'h';
    assert !StartsWith(input, "gs://");
  }

  /** Lines 28-29: the decoded text after the first `/o/` of a `*.firebasestorage.app` path, up to a `?`. */
  function AppPath(pathname: string): (r: Option<string>)
    ensures r.Some? ==> r.value != []
  {
    match AfterFirst(pathname, "/o/")
    case None => None
    case Some(seg) =>
      var enc := Split(seg, '?')[0];
      if enc == [] then None else Uri.Decode(enc)
  }

  /** A `<prefix>/o/<encoded name>` path gives the name back, where `prefix` holds no `/o/` of its own. */
  lemma AppPathOf(prefix: string, name: string)
    requires !Contains(prefix + "/o", "/o/")
    ensures AppPath(prefix + "/o/" + Uri.Encode(name)) == if name == [] then None else Some(name)
  {
    EncodedHasNoDelimiters(name);
    AppSegment(prefix, Uri.Encode(name));
    EncodeEmpty(name);
    Uri.DecodeEncode(name);
  }

  /** `gs://<bucket>/<path>` gives the path, and a bucket with nothing after it gives None. */
  lemma ExtractGs(bucket: string, path: string, parse: string -> Option<Url>)
    requires '/' !in bucket
    ensures ExtractStoragePath(Some("gs://" + bucket + "/" + path), parse) == if path == [] then None else Some(path)
    ensures ExtractStoragePath(Some("gs://" + bucket), parse) == None
  {
    var s := "gs://" + bucket + "/" + path;
    assert s[..5] == "gs://";
    var rest := s[5..];
    assert rest == bucket + "/" + path;
    assert FirstIndexOf(rest, '/') == |bucket| by {
      assert rest[|bucket|] == '/';
      assert rest[..|bucket|] == bucket;
    }
    assert rest[|bucket| + 1..] == path;
    var g := "gs://" + bucket;
    assert g[..5] == "gs://" && g[5..] == bucket;
  }

  /** No character of `s` is `/`, `?` or a line terminator. */
  predicate NoDelimiters(s: string) {
    forall i :: 0 <= i < |s| ==> s[i] != '/' && s[i] != '?' && !IsLineTerminator(s[i])
  }

  /** Encoded text has no delimiters: every character is unreserved, `%` or a hex digit. */
  lemma EncodedHasNoDelimiters(name: string)
    ensures NoDelimiters(Uri.Encode(name))
  {
    Uri.EncodedIsUnreservedOrEscape(name);
  }

  lemma EncodeEmpty(name: string)
    ensures Uri.Encode(name) == [] <==> name == []
  {
  }

  /** An occurrence that ends before the joint of `x + y` is an occurrence in `x`. */
  lemma OccursInPrefix(x: string, y: string, p: string, j: nat)
    requires j + |p| <= |x|
    ensures OccursAt(x + y, p, j) <==> OccursAt(x, p, j)
  {
    assert (x + y)[j..j + |p|] == x[j..j + |p|];
  }

  /** The first `sep` in `x + sep + y` is the one after `x` when `x` and the start of `sep` hold none. */
  lemma IndexOfAfter(x: string, sep: string, y: string)
    requires sep != [] && !Contains(x + sep[..|sep| - 1], sep)
    ensures IndexOf(x + sep + y, sep) == Some(|x|)
  {
    var p := x + sep + y;
    assert p[|x|..|x| + |sep|] == sep;
    assert OccursAt(p, sep, |x|);
    forall j: nat | j < |x| ensures !OccursAt(p, sep, j) {
      assert p == (x + sep[..|sep| - 1]) + ([sep[|sep| - 1]] + y);
      OccursInPrefix(x + sep[..|sep| - 1], [sep[|sep| - 1]] + y, sep, j);
    }
  }

  /** The segment after `<prefix>/o/` of a path ending in an encoded name is that encoded name. */
  lemma AppSegment(prefix: string, enc: string)
    requires !Contains(prefix + "/o", "/o/") && NoDelimiters(enc)
    ensures AfterFirst(prefix + "/o/" + enc, "/o/") == Some(enc)
    ensures Split(enc, '?') == [enc]
  {
    var p := prefix + "/o/" + enc;
    assert "/o/"[..2] == "/o";
    IndexOfAfter(prefix, "/o/", enc);
    assert p[|prefix| + 3..] == enc;
    assert !Contains(enc, "/o/") by {
      forall j: nat ensures !OccursAt(enc, "/o/", j) {
        if j + 3 <= |enc| {
          assert enc[j..j + 3][0] == enc[j];
        }
      }
    }
    assert '?' !in enc;
  }

  /**
   * A `*.firebasestorage.app` URL whose path is `<prefix>/o/<encoded name>`
   * gives the name back, where `prefix` holds no `/o/` of its own.
   */
  lemma ExtractFirebaseApp(input: string, parse: string -> Option<Url>, host: string, prefix: string, name: string)
    requires StartsWith(input, "https://") || StartsWith(input, "http://")
    requires EndsWith(host, ".firebasestorage.app")
    requires !Contains(prefix + "/o", "/o/")
    requires parse(input) == Some(Url(host, prefix + "/o/" + Uri.Encode(name)))
    ensures ExtractStoragePath(Some(input), parse) == if name == [] then None else Some(name)
  {
    HttpInput(input, parse, Url(host, prefix + "/o/" + Uri.Encode(name)));
    AppPathOf(prefix, name);
  }

  /** No match of the storage-URL pattern starts inside a prefix that holds no `/b/` of its own. */
  lemma NoEarlyMatch(prefix: string, rest: string)
    requires !Contains(prefix + "/b", "/b/")
    ensures forall j :: 0 <= j < |prefix| ==> MatchAt(prefix + "/b" + rest, j).None?
  {
    var p := prefix + "/b" + rest;
    forall j | 0 <= j < |prefix| ensures MatchAt(p, j).None? {
      OccursInPrefix(prefix + "/b", rest, "/b/", j);
      assert p[j..][..3] == p[j..j + 3];
    }
  }

  /** At the start of `/b/<bucket>/o/<encoded name>` the pattern matches and captures the encoded name. */
  lemma MatchAtBucket(prefix: string, bucket: string, enc: string)
    requires bucket != [] && '/' !in bucket && enc != [] && NoDelimiters(enc)
    ensures MatchAt(prefix + "/b/" + bucket + "/o/" + enc, |prefix|) == Some(enc)
  {
    var p := prefix + "/b/" + bucket + "/o/" + enc;
    var s := "/b/" + bucket + "/o/" + enc;
    assert p[|prefix|..] == s;
    MatchAtSuffix(p, |prefix|);
    MatchBucket(bucket, enc);
  }

  /** Matching at `i` only looks at what follows `i`. */
  lemma MatchAtSuffix(p: string, i: nat)
    requires i <= |p|
    ensures MatchAt(p, i) == MatchAt(p[i..], 0)
  {
    assert p[i..][0..] == p[i..];
  }

  lemma MatchBucket(bucket: string, enc: string)
    requires bucket != [] && '/' !in bucket && enc != [] && NoDelimiters(enc)
    ensures MatchAt("/b/" + bucket + "/o/" + enc, 0) == Some(enc)
  {
    var s := "/b/" + bucket + "/o/" + enc;
    assert s[0..] == s;
    assert s[..3] == "/b/" && StartsWith(s, "/b/");
    var t := s[3..];
    assert t == bucket + ("/o/" + enc);
    NonSlashRunOf(bucket, "/o/" + enc);
    assert NonSlashRun(t) == |bucket|;
    assert t[|bucket|..] == "/o/" + enc;
    assert t[|bucket|..][..3] == "/o/" && StartsWith(t[|bucket|..], "/o/");
    var u := t[|bucket| + 3..];
    assert u == enc;
    LineRunAll(u);
    assert LineRun(u) == |u|;
    assert u[..|u|] == enc;
  }

  /** The leftmost match in `<prefix>/b/<bucket>/o/<encoded name>` starts after the prefix and captures the encoded name. */
  lemma ApisMatch(prefix: string, bucket: string, enc: string)
    requires !Contains(prefix + "/b", "/b/")
    requires bucket != [] && '/' !in bucket && enc != [] && NoDelimiters(enc)
    ensures var p := prefix + "/b/" + bucket + "/o/" + enc;
      MatchIndex(p, 0) == Some(|prefix|) && MatchAt(p, |prefix|) == Some(enc)
  {
    var rest := "/" + bucket + "/o/" + enc;
    assert prefix + "/b/" + bucket + "/o/" + enc == prefix + "/b" + rest;
    NoEarlyMatch(prefix, rest);
    MatchAtBucket(prefix, bucket, enc);
  }

  /**
   * A `firebasestorage.googleapis.com` URL whose path is
   * `<prefix>/b/<bucket>/o/<encoded name>` gives the name back, where
   * `prefix` holds no `/b/` of its own.
   */
  lemma ExtractGoogleApis(input: string, parse: string -> Option<Url>, prefix: string, bucket: string, name: string)
    requires StartsWith(input, "https://") || StartsWith(input, "http://")
    requires !Contains(prefix + "/b", "/b/")
    requires bucket != [] && '/' !in bucket && name != []
    requires parse(input) == Some(Url("firebasestorage.googleapis.com", prefix + "/b/" + bucket + "/o/" + Uri.Encode(name)))
    ensures ExtractStoragePath(Some(input), parse) == Some(name)
  {
    HttpInput(input, parse, Url("firebasestorage.googleapis.com", prefix + "/b/" + bucket + "/o/" + Uri.Encode(name)));
    assert !EndsWith("firebasestorage.googleapis.com", ".firebasestorage.app");
    EncodedHasNoDelimiters(name);
    EncodeEmpty(name);
    ApisMatch(prefix, bucket, Uri.Encode(name));
    Uri.DecodeEncode(name);
  }

  lemma {:induction false} NonSlashRunOf(x: string, y: string)
    requires '/' !in x && y != [] && y[0] == '/'
    ensures NonSlashRun(x + y) == |x|
  {
    if x != [] {
      assert (x + y)[1..] == x[1..] + y;
      NonSlashRunOf(x[1..], y);
    }
  }

  lemma {:induction false} LineRunAll(s: string)
    requires forall i :: 0 <= i < |s| ==> !IsLineTerminator(s[i])
    ensures LineRun(s) == |s|
  {
    if s != [] {
      LineRunAll(s[1..]);
    }
  }

  /** A malformed escape in the object name is a URIError, which the route turns into None. */
  lemma ExtractMalformedEscape(input: string, parse: string -> Option<Url>)
    requires StartsWith(input, "https://")
    requires parse(input) == Some(Url("x.firebasestorage.app", "/o/%"))
    ensures ExtractStoragePath(Some(input), parse) == None
  {
    assert input[0] == 'h';
    assert !StartsWith(input, "gs://");
    var p := "/o/%";
    assert OccursAt(p, "/o/", 0);
    assert IndexOf(p, "/o/") == Some(0);
    assert p[3..] == "%";
    assert IndexOf("%", "/o/") == None;
    assert Split("%", '?') == ["%"];
    Uri.DecodeErrors();
  }

  /**
   * Any other reference comes back unchanged: a text that is neither a
   * `gs://` nor an http(s) reference, a URL on another host, and a
   * `firebasestorage.googleapis.com` URL whose path does not match.
   */
  lemma ExtractPassesThrough(input: string, parse: string -> Option<Url>)
    requires input != [] && !StartsWith(input, "gs://")
    requires || (!StartsWith(input, "http://") && !StartsWith(input, "https://"))
             || (parse(input).Some? && !EndsWith(parse(input).value.hostname, ".firebasestorage.app")
                 && (parse(input).value.hostname == "firebasestorage.googleapis.com" ==>
                       forall j :: 0 <= j <= |parse(input).value.pathname| ==> MatchAt(parse(input).value.pathname, j).None?))
    ensures ExtractStoragePath(Some(input), parse) == Some(input)
  {
  }

  // ---------------------------------------------------------------------------
  // POST

  /** The JSON body. A required field that is absent is the empty string: both are falsy. */
  datatype ReportBody = ReportBody(
    targetType: string, targetId: string, reason: string, details: Option<string>,
    reporterId: Option<string>, reporterIsAnonymous: Option<bool>)

  /**
   * What the admin database does for this request: it cannot be set up
   * (the message of the error thrown), or it is available, reading the
   * reported character may throw, and a write of a valid document may still
   * throw with a message (network, permissions).
   */
  datatype Admin = Unavailable(message: string) | Available(lookupFails: bool, writeError: Option<string>)

  datatype ReportResponse =
    | MissingFields                     // 400 "Missing required fields"
    | InvalidRequest                    // 400, the body is not JSON
    | Accepted(persisted: bool, id: Option<string>, error: Option<string>)

  /** `e?.message || 'admin unavailable'`. */
  function ErrorText(message: string): (r: string)
    ensures r != []
    ensures message != [] ==> r == message
  {
    if message == [] then "admin unavailable" else message
  }

  /** All three required fields are present and non-empty. */
  predicate HasRequired(b: ReportBody) {
    b.targetType != [] && b.targetId != [] && b.reason != []
  }

  /** The stored reason keeps at most 120 characters and the details at most 1000. */
  function Truncated(b: ReportBody): (r: ReportBody)
    ensures |r.reason| == (if |b.reason| <= 120 then |b.reason| else 120) && r.reason == b.reason[..|r.reason|]
    ensures r.details.Some? <==> b.details.Some?
    ensures r.details.Some? ==>
      var d := b.details.value;
      |r.details.value| == (if |d| <= 1000 then |d| else 1000) && r.details.value == d[..|r.details.value|]
    ensures r.targetType == b.targetType && r.targetId == b.targetId
    ensures r.reporterId == b.reporterId && r.reporterIsAnonymous == b.reporterIsAnonymous
  {
    b.(reason := Take(b.reason, 120),
       details := if b.details.Some? then Some(Take(b.details.value, 1000)) else None)
  }

  /** The snapshot of the reported character stored with the report. */
  datatype Snapshot = Snapshot(name: Option<string>, userId: Option<string>,
                               imageUrl: Option<string>, storagePath: Option<string>)

  /** `String(x ?? '') || undefined` on a string field. */
  function NonEmpty(s: string): (r: Option<string>)
    ensures r.Some? <==> s != []
    ensures r.Some? ==> r.value == s
  {
    if s == [] then None else Some(s)
  }

  /**
   * The character snapshot: only for a character target whose document was
   * read; a stored `storagePath` takes precedence over the one derived from
   * `imageUrl`.
   */
  function TargetSnapshot(chars: map<string, CharacterDoc>, b: ReportBody, lookupFails: bool,
                          parse: string -> Option<Url>): (r: Snapshot)
    ensures (b.targetType != "character" || lookupFails || b.targetId !in chars) ==> r == Snapshot(None, None, None, None)
    ensures (b.targetType == "character" && !lookupFails && b.targetId in chars) ==>
      var d := chars[b.targetId];
      && r.imageUrl == Some(d.imageUrl)
      && (r.name.Some? <==> d.name != [])
      && (d.storagePath.Some? ==> r.storagePath == d.storagePath)
      && (d.storagePath.None? ==> r.storagePath == ExtractStoragePath(Some(d.imageUrl), parse))
  {
    if b.targetType == "character" && !lookupFails && b.targetId in chars then
      var d := chars[b.targetId];
      Snapshot(NonEmpty(d.name), NonEmpty(d.userId), Some(d.imageUrl),
               if d.storagePath.Some? then d.storagePath else ExtractStoragePath(Some(d.imageUrl), parse))
    else Snapshot(None, None, None, None)
  }

  /** The document written under `reportId`. */
  function ReportDoc(b: ReportBody, reportId: string, snap: Snapshot, serverTime: int): (r: ReportRecord)
    ensures r.id == reportId && r.status == "pending" && r.createdAt == serverTime
    ensures r.targetStoragePath == snap.storagePath
  {
    var t := Truncated(b);
    ReportRecord(reportId, t.targetType, t.targetId, t.reason, t.details, t.reporterId, t.reporterIsAnonymous,
                 snap.name, snap.userId, snap.imageUrl, snap.storagePath, serverTime, "pending")
  }

  /**
   * The first field of the document, in the order lines 101-110 list them,
   * whose value is undefined: `...payload` copies `details`, `reporterId`
   * and `reporterIsAnonymous` even when they were absent, and the four
   * snapshot fields are always listed.
   */
  function FirstUndefinedField(r: ReportRecord): (f: Option<string>)
    ensures f.None? <==> FullyDefined(r)
  {
    if r.details.None? then Some("details")
    else if r.reporterId.None? then Some("reporterId")
    else if r.reporterIsAnonymous.None? then Some("reporterIsAnonymous")
    else if r.targetName.None? then Some("targetName")
    else if r.targetUserId.None? then Some("targetUserId")
    else if r.targetImageUrl.None? then Some("targetImageUrl")
    else if r.targetStoragePath.None? then Some("targetStoragePath")
    else None
  }

  predicate FullyDefined(r: ReportRecord) {
    && r.details.Some? && r.reporterId.Some? && r.reporterIsAnonymous.Some?
    && r.targetName.Some? && r.targetUserId.Some? && r.targetImageUrl.Some? && r.targetStoragePath.Some?
  }

  /**
   * The admin SDK refuses a document with an `undefined` value unless
   * `ignoreUndefinedProperties` is set, which no file of the program does;
   * `set` then throws, naming the field.
   */
  function UndefinedValueError(field: string): (m: string)
    ensures m != []
  {
    "Cannot use \"undefined\" as a Firestore value (found in field \"" + field + "\")."
  }

  datatype PostResult = PostResult(resp: ReportResponse, reports: map<string, ReportRecord>)

  /** What one POST answers and leaves in the reports collection; `body` is None when the request is not JSON. */
  function PostSpec(reports: map<string, ReportRecord>, chars: map<string, CharacterDoc>, body: Option<ReportBody>,
                    admin: Admin, parse: string -> Option<Url>, reportId: string, serverTime: int): PostResult
  {
    if body.None? then PostResult(InvalidRequest, reports)
    else if !HasRequired(body.value) then PostResult(MissingFields, reports)
    else
      match admin
      case Unavailable(m) => PostResult(Accepted(false, None, Some(ErrorText(m))), reports)
      case Available(lookupFails, writeError) =>
        var doc := ReportDoc(body.value, reportId, TargetSnapshot(chars, body.value, lookupFails, parse), serverTime);
        match FirstUndefinedField(doc)
        case Some(field) => PostResult(Accepted(false, Some(reportId), Some(UndefinedValueError(field))), reports)
        case None =>
          if writeError.Some? then PostResult(Accepted(false, Some(reportId), Some(ErrorText(writeError.value))), reports)
          else PostResult(Accepted(true, Some(reportId), None), reports[reportId := doc])
  }

  /** A body without a target type, a target id or a reason is refused and nothing is written. */
  lemma PostRejectsMissingFields(reports: map<string, ReportRecord>, chars: map<string, CharacterDoc>, body: ReportBody,
                                 admin: Admin, parse: string -> Option<Url>, reportId: string, serverTime: int)
    requires body.targetType == [] || body.targetId == [] || body.reason == []
    ensures PostSpec(reports, chars, Some(body), admin, parse, reportId, serverTime) == PostResult(MissingFields, reports)
  {
  }

  /**
   * A valid report is always answered with success. It is persisted exactly
   * when the admin database is available, the document has no undefined
   * field and the write succeeds; only then
   * does the collection change, gaining exactly the "pending" record under
   * the returned id, with the truncated reason and details. An error text is
   * returned exactly when nothing was persisted, and the id once the
   * database was reached.
   */
  lemma PostPersistence(reports: map<string, ReportRecord>, chars: map<string, CharacterDoc>, body: ReportBody,
                        admin: Admin, parse: string -> Option<Url>, reportId: string, serverTime: int)
    requires HasRequired(body)
    ensures var r := PostSpec(reports, chars, Some(body), admin, parse, reportId, serverTime);
      && r.resp.Accepted?
      && (r.resp.persisted <==>
            && admin.Available? && admin.writeError.None?
            && FullyDefined(ReportDoc(body, reportId, TargetSnapshot(chars, body, admin.lookupFails, parse), serverTime)))
      && (r.resp.id.Some? <==> admin.Available?)
      && (r.resp.id.Some? ==> r.resp.id.value == reportId)
      && (r.resp.error.Some? <==> !r.resp.persisted)
      && (r.resp.error.Some? ==> r.resp.error.value != [])
      && (!r.resp.persisted ==> r.reports == reports)
      && (r.resp.persisted ==>
            && r.reports.Keys == reports.Keys + {reportId}
            && (forall k :: k in reports && k != reportId ==> r.reports[k] == reports[k])
            && r.reports[reportId].status == "pending"
            && r.reports[reportId].id == reportId
            && r.reports[reportId].reason == Take(body.reason, 120)
            && |r.reports[reportId].reason| <= 120
            && (r.reports[reportId].details.Some? <==> body.details.Some?))
  {
  }

  /**
   * The document for a reported character that was read carries the
   * character's own `storagePath` when it has one, otherwise the path derived
   * from its image; a persisted report stores exactly that document.
   */
  lemma PostStoragePath(reports: map<string, ReportRecord>, chars: map<string, CharacterDoc>, body: ReportBody,
                        writeError: Option<string>, parse: string -> Option<Url>, reportId: string, serverTime: int)
    requires HasRequired(body) && body.targetType == "character" && body.targetId in chars
    ensures var r := PostSpec(reports, chars, Some(body), Available(false, writeError), parse, reportId, serverTime);
      var doc := ReportDoc(body, reportId, TargetSnapshot(chars, body, false, parse), serverTime);
      var d := chars[body.targetId];
      && doc.targetStoragePath == (if d.storagePath.Some? then d.storagePath else ExtractStoragePath(Some(d.imageUrl), parse))
      && doc.targetImageUrl == Some(d.imageUrl)
      && (r.resp.persisted ==> r.reports[reportId] == doc)
  {
  }

  /**
   * Reports whose document has an undefined field are never persisted: one
   * on a battle or a user, on a character that could not be read, or
   * without details or reporter information. The answer names the field.
   */
  lemma UndefinedFieldsNotPersisted(reports: map<string, ReportRecord>, chars: map<string, CharacterDoc>,
                                    body: ReportBody, lookupFails: bool, writeError: Option<string>,
                                    parse: string -> Option<Url>, reportId: string, serverTime: int)
    requires HasRequired(body)
    ensures var r := PostSpec(reports, chars, Some(body), Available(lookupFails, writeError), parse, reportId, serverTime);
      (|| body.targetType != "character" || lookupFails || body.targetId !in chars
       || body.details.None? || body.reporterId.None? || body.reporterIsAnonymous.None?) ==>
        && r.reports == reports
        && r.resp == Accepted(false, Some(reportId),
                             Some(UndefinedValueError(FirstUndefinedField(
                               ReportDoc(body, reportId, TargetSnapshot(chars, body, lookupFails, parse), serverTime)).value)))
  {
  }

  /**
   * `POST`: the flags `persisted`, `id` and `error` are set step by step
   * around the write, as the route does.
   */
  method Post(db: Db, body: Option<ReportBody>, admin: Admin, parse: string -> Option<Url>,
              reportId: string, serverTime: int) returns (resp: ReportResponse)
    modifies db
    ensures var r := PostSpec(old(db.reports), old(db.characters), body, admin, parse, reportId, serverTime);
      resp == r.resp && db.reports == r.reports
    ensures db.characters == old(db.characters) && db.users == old(db.users)
    ensures db.battles == old(db.battles) && db.objects == old(db.objects)
  {
    var persisted := false;
    var id: Option<string> := None;
    var error: Option<string> := None;
    if body.None? {
      return InvalidRequest;
    }
    var b := body.value;
    if b.targetType == [] || b.targetId == [] || b.reason == [] {
      return MissingFields;
    }
    if admin.Unavailable? {
      error := Some(ErrorText(admin.message));
    } else {
      id := Some(reportId);
      var snap := Snapshot(None, None, None, None);
      if b.targetType == "character" && !admin.lookupFails && b.targetId in db.characters {
        var d := db.characters[b.targetId];
        var storagePath := if d.storagePath.Some? then d.storagePath else ExtractStoragePath(Some(d.imageUrl), parse);
        snap := Snapshot(NonEmpty(d.name), NonEmpty(d.userId), Some(d.imageUrl), storagePath);
      }
      var doc := ReportDoc(b, reportId, snap, serverTime);
      var undefinedField := FirstUndefinedField(doc);
      if undefinedField.Some? {
        error := Some(UndefinedValueError(undefinedField.value));
      } else if admin.writeError.Some? {
        error := Some(ErrorText(admin.writeError.value));
      } else {
        db.reports := db.reports[reportId := doc];
        persisted := true;
      }
    }
    return Accepted(persisted, id, error);
  }
}
