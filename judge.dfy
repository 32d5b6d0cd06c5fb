/**
 * The judging half of the battle route (app/api/battle/route.ts): which
 * generateContent endpoint is used, how the discovered models are re-ranked
 * for the retry, how the verdict is read out of the model's reply, and the
 * random verdict used whenever judging fails.
 */
module Judge {
  import opened Wrappers
  import opened Text
  import opened Store
  import opened Random

  /** What one `fetch` of a generateContent endpoint gave. */
  datatype Attempt =
      /** `r.ok`; `text` is the first candidate's text in the JSON body ("" when that path is absent), None when the body is not JSON. */
    | Ok(text: Option<string>)
      /** `!r.ok`; `body` is what `r.text()` produced ("" when it failed). */
    | HttpError(status: nat, body: string)
      /** `fetch` rejected; `shown` is `String(error)`. */
    | Thrown(shown: string)

  const ApiBase: string := "https://generativelanguage.googleapis.com/v1beta/"

  const PreferredModels: seq<string> := [
    "models/gemini-1.5-flash", "models/gemini-1.5-flash-002", "models/gemini-1.5-flash-8b",
    "models/gemini-1.0-pro-vision", "models/gemini-pro-vision"]

  function EndpointUrl(name: string): string {
    ApiBase + name + ":generateContent"
  }

  function EndpointUrls(names: seq<string>): (urls: seq<string>)
    ensures |urls| == |names|
  {
    seq(|names|, i requires 0 <= i < |names| => EndpointUrl(names[i]))
  }

  /** `String(lastErr)` for the error that an unsuccessful attempt leaves in `lastErr`. */
  function ErrorText(a: Attempt): string
    requires !a.Ok?
  {
    match a
    case HttpError(status, body) =>
      "Error: Gemini HTTP " + NatToString(status) + (if body != "" then ": " + Take(body, 300) else "")
    case Thrown(shown) => shown
  }

  // ---------------------------------------------------------------------------
  // Endpoint choice

  /** The index of the first endpoint whose attempt succeeds. */
  function FirstOk(urls: seq<string>, fetch: string -> Attempt): (r: Option<nat>)
    ensures r.Some? ==> r.value < |urls| && fetch(urls[r.value]).Ok?
    ensures forall j :: 0 <= j < |urls| && (r.None? || j < r.value) ==> !fetch(urls[j]).Ok?
  {
    if urls == [] then None
    else if fetch(urls[0]).Ok? then Some(0)
    else
      match FirstOk(urls[1..], fetch)
      case None => None
      case Some(k) => Some(k + 1)
  }

  /** The endpoints a loop over `urls` fetches: up to and including the first success. */
  function Tried(urls: seq<string>, fetch: string -> Attempt): (t: seq<string>)
    ensures |t| <= |urls| && t == urls[..|t|]
  {
    match FirstOk(urls, fetch)
    case Some(k) => urls[..k + 1]
    case None => urls
  }

  /** What `lastErr` holds after every endpoint in `urls` failed. */
  function LastError(urls: seq<string>, fetch: string -> Attempt): Option<string>
    requires FirstOk(urls, fetch).None?
  {
    if urls == [] then None else Some(ErrorText(fetch(urls[|urls| - 1])))
  }

  /**
   * One `for (const url of urls)` loop: fetch in list order, stop at the
   * first ok response, remember the error of each failure.
   */
  method TryEndpoints(urls: seq<string>, fetch: string -> Attempt)
    returns (resp: Option<Attempt>, lastErr: Option<string>, tried: seq<string>)
    ensures tried == Tried(urls, fetch)
    ensures resp.Some? <==> FirstOk(urls, fetch).Some?
    ensures resp.Some? ==> resp.value.Ok? && resp.value == fetch(urls[FirstOk(urls, fetch).value])
    ensures resp.None? ==> lastErr == LastError(urls, fetch)
  {
    resp, lastErr, tried := None, None, [];
    var i := 0;
    while i < |urls|
      invariant 0 <= i <= |urls|
      invariant tried == urls[..i]
      invariant forall j :: 0 <= j < i ==> !fetch(urls[j]).Ok?
      invariant lastErr == if i == 0 then None else Some(ErrorText(fetch(urls[i - 1])))
    {
      var r := fetch(urls[i]);
      tried := tried + [urls[i]];
      if r.Ok? {
        resp := Some(r);
        return;
      }
      lastErr := Some(ErrorText(r));
      i := i + 1;
    }
  }

  // ---------------------------------------------------------------------------
  // Model discovery and re-ranking

  /** One entry of the model listing; `name` is None when it is not a string, `methods` when it is not an array. */
  datatype ModelInfo = ModelInfo(name: Option<string>, methods: Option<seq<string>>)

  /** The model listing call: `Listed` with `j.models` (or [] when it is not an array), or `ListFailed` when it was not ok or threw. */
  datatype Listing = Listed(models: seq<ModelInfo>) | ListFailed

  predicate CanGenerate(m: ModelInfo) {
    m.methods.Some? && "generateContent" in m.methods.value
  }

  /** `/flash/i.test(name)`: "flash" occurs in the name, ASCII letters compared without case. */
  predicate IsFlashName(n: string)
    decreases |n|
  {
    FlashAtStart(n) || (n != [] && IsFlashName(n[1..]))
  }

  /** The name starts with "flash" in any case. */
  predicate FlashAtStart(n: string) {
    |n| >= 5 && LowerAscii(n[..5]) == "flash"
  }

  /** The scan is `includes("flash")` on the lower-cased name. */
  lemma {:induction false} IsFlashNameIncludes(n: string)
    ensures IsFlashName(n) <==> Includes(LowerAscii(n), "flash")
    decreases |n|
  {
    var l := LowerAscii(n);
    if |n| >= 5 {
      assert l[..5] == LowerAscii(n[..5]);
    }
    if n != [] {
      IsFlashNameIncludes(n[1..]);
      assert l[1..] == LowerAscii(n[1..]);
    }
  }

  predicate IsFlash(m: ModelInfo) {
    m.name.Some? && IsFlashName(m.name.value)
  }

  /** `models.filter(canGenerate)`. */
  function KeepGenerating(ms: seq<ModelInfo>): seq<ModelInfo> {
    if ms == [] then []
    else (if CanGenerate(ms[0]) then [ms[0]] else []) + KeepGenerating(ms[1..])
  }

  /** `models.filter(m => /flash/i.test(m?.name) == flash)`. */
  function KeepFlash(ms: seq<ModelInfo>, flash: bool): seq<ModelInfo> {
    if ms == [] then []
    else (if IsFlash(ms[0]) == flash then [ms[0]] else []) + KeepFlash(ms[1..], flash)
  }

  /** `.map(m => m?.name).filter(name => typeof name === "string")`. */
  function StringNames(ms: seq<ModelInfo>): seq<string> {
    if ms == [] then []
    else (if ms[0].name.Some? then [ms[0].name.value] else []) + StringNames(ms[1..])
  }

  /** The model names the discovery retry tries, in order (lines 145-156). */
  function RetryNames(ms: seq<ModelInfo>): seq<string> {
    var canGen := KeepGenerating(ms);
    StringNames(KeepFlash(canGen, true) + KeepFlash(canGen, false))
  }

  /** `n` is the name of some generating model in `ms`. */
  predicate NamedIn(ms: seq<ModelInfo>, n: string) {
    exists i :: 0 <= i < |ms| && CanGenerate(ms[i]) && ms[i].name == Some(n)
  }

  /** Reference: the string names of the generating models, in listing order. */
  function GeneratingNames(ms: seq<ModelInfo>): (r: seq<string>)
    ensures forall n :: n in r ==> NamedIn(ms, n)
  {
    if ms == [] then []
    else
      var rest := GeneratingNames(ms[1..]);
      var head := if CanGenerate(ms[0]) && ms[0].name.Some? then [ms[0].name.value] else [];
      assert forall n :: n in head ==> NamedIn(ms, n) by {
        if head != [] {
          assert CanGenerate(ms[0]) && ms[0].name == Some(head[0]);
        }
      }
      assert forall n :: n in rest ==> NamedIn(ms, n) by {
        forall n | n in rest ensures NamedIn(ms, n) {
          var i :| 0 <= i < |ms[1..]| && CanGenerate(ms[1..][i]) && ms[1..][i].name == Some(n);
          assert ms[i + 1] == ms[1..][i];
        }
      }
      head + rest
  }

  /** The names of `ns` whose flash-ness is `flash`, in order. */
  function NamesWhere(ns: seq<string>, flash: bool): (r: seq<string>)
    ensures |r| <= |ns|
  {
    if ns == [] then []
    else (if IsFlashName(ns[0]) == flash then [ns[0]] else []) + NamesWhere(ns[1..], flash)
  }

  /** Every name kept has the flash-ness asked for. */
  lemma {:induction false} NamesWhereFlash(ns: seq<string>, flash: bool)
    ensures forall i :: 0 <= i < |NamesWhere(ns, flash)| ==> IsFlashName(NamesWhere(ns, flash)[i]) == flash
  {
    if ns != [] {
      NamesWhereFlash(ns[1..], flash);
      var h := if IsFlashName(ns[0]) == flash then [ns[0]] else [];
      var r, t := NamesWhere(ns, flash), NamesWhere(ns[1..], flash);
      assert r == h + t;
      assert forall i :: |h| <= i < |r| ==> r[i] == t[i - |h|];
    }
  }

  lemma {:induction false} NamesWhereSplit(ns: seq<string>)
    ensures multiset(NamesWhere(ns, true)) + multiset(NamesWhere(ns, false)) == multiset(ns)
  {
    if ns != [] {
      NamesWhereSplit(ns[1..]);
      var x := ns[0];
      var f := IsFlashName(x);
      var a, b := NamesWhere(ns[1..], true), NamesWhere(ns[1..], false);
      assert NamesWhere(ns, true) == (if f then [x] else []) + a;
      assert NamesWhere(ns, false) == (if f then [] else [x]) + b;
      assert ns == [x] + ns[1..];
    }
  }

  lemma {:induction false} StringNamesAppend(xs: seq<ModelInfo>, ys: seq<ModelInfo>)
    ensures StringNames(xs + ys) == StringNames(xs) + StringNames(ys)
  {
    if xs != [] {
      StringNamesAppend(xs[1..], ys);
      assert (xs + ys)[1..] == xs[1..] + ys && (xs + ys)[0] == xs[0];
      var h := if xs[0].name.Some? then [xs[0].name.value] else [];
      assert StringNames(xs + ys) == h + StringNames(xs[1..] + ys);
      assert StringNames(xs) == h + StringNames(xs[1..]);
      ConcatAssoc(h, StringNames(xs[1..]), StringNames(ys));
    } else {
      assert xs + ys == ys;
    }
  }

  lemma {:induction false} KeepFlashAppend(xs: seq<ModelInfo>, ys: seq<ModelInfo>, flash: bool)
    ensures KeepFlash(xs + ys, flash) == KeepFlash(xs, flash) + KeepFlash(ys, flash)
  {
    if xs != [] {
      KeepFlashAppend(xs[1..], ys, flash);
      assert (xs + ys)[1..] == xs[1..] + ys && (xs + ys)[0] == xs[0];
      var h := if IsFlash(xs[0]) == flash then [xs[0]] else [];
      assert KeepFlash(xs + ys, flash) == h + KeepFlash(xs[1..] + ys, flash);
      assert KeepFlash(xs, flash) == h + KeepFlash(xs[1..], flash);
      ConcatAssoc(h, KeepFlash(xs[1..], flash), KeepFlash(ys, flash));
    } else {
      assert xs + ys == ys;
    }
  }

  lemma {:induction false} NamesWhereAppend(xs: seq<string>, ys: seq<string>, flash: bool)
    ensures NamesWhere(xs + ys, flash) == NamesWhere(xs, flash) + NamesWhere(ys, flash)
  {
    if xs != [] {
      NamesWhereAppend(xs[1..], ys, flash);
      assert (xs + ys)[1..] == xs[1..] + ys && (xs + ys)[0] == xs[0];
      var h := if IsFlashName(xs[0]) == flash then [xs[0]] else [];
      assert NamesWhere(xs + ys, flash) == h + NamesWhere(xs[1..] + ys, flash);
      assert NamesWhere(xs, flash) == h + NamesWhere(xs[1..], flash);
      ConcatAssoc(h, NamesWhere(xs[1..], flash), NamesWhere(ys, flash));
    } else {
      assert xs + ys == ys;
    }
  }

  lemma {:induction false} FlashGroup(ms: seq<ModelInfo>, flash: bool)
    ensures StringNames(KeepFlash(KeepGenerating(ms), flash)) == NamesWhere(GeneratingNames(ms), flash)
  {
    if ms != [] {
      FlashGroup(ms[1..], flash);
      var m := ms[0];
      var g := if CanGenerate(m) then [m] else [];
      var n := if CanGenerate(m) && m.name.Some? then [m.name.value] else [];
      assert KeepGenerating(ms) == g + KeepGenerating(ms[1..]);
      assert GeneratingNames(ms) == n + GeneratingNames(ms[1..]);
      KeepFlashAppend(g, KeepGenerating(ms[1..]), flash);
      StringNamesAppend(KeepFlash(g, flash), KeepFlash(KeepGenerating(ms[1..]), flash));
      NamesWhereAppend(n, GeneratingNames(ms[1..]), flash);
      FlashOfOne(m, flash);
    }
  }

  /** One model contributes the same name to both sides of `FlashGroup`. */
  lemma FlashOfOne(m: ModelInfo, flash: bool)
    ensures var g := if CanGenerate(m) then [m] else [];
      var n := if CanGenerate(m) && m.name.Some? then [m.name.value] else [];
      StringNames(KeepFlash(g, flash)) == NamesWhere(n, flash)
  {
    if CanGenerate(m) {
      var k := if IsFlash(m) == flash then [m] else [];
      assert KeepFlash([m], flash) == k + KeepFlash([], flash);
      assert StringNames(k) == if k == [] || m.name.None? then [] else [m.name.value];
      if m.name.Some? {
        assert NamesWhere([m.name.value], flash) == (if IsFlashName(m.name.value) == flash then [m.name.value] else []) + NamesWhere([], flash);
      }
    }
  }

  /** The retry list is the flash group followed by the other group. */
  lemma RetryNamesGroups(ms: seq<ModelInfo>)
    ensures RetryNames(ms) == NamesWhere(GeneratingNames(ms), true) + NamesWhere(GeneratingNames(ms), false)
  {
    var canGen := KeepGenerating(ms);
    StringNamesAppend(KeepFlash(canGen, true), KeepFlash(canGen, false));
    FlashGroup(ms, true);
    FlashGroup(ms, false);
  }

  lemma FlashBeforeOthers(a: seq<string>, b: seq<string>)
    requires forall i :: 0 <= i < |a| ==> IsFlashName(a[i])
    requires forall i :: 0 <= i < |b| ==> !IsFlashName(b[i])
    ensures forall i, j :: 0 <= i < j < |a + b| && IsFlashName((a + b)[j]) ==> IsFlashName((a + b)[i])
  {
    var r := a + b;
    assert forall i :: 0 <= i < |a| ==> r[i] == a[i];
    assert forall j :: |a| <= j < |r| ==> r[j] == b[j - |a|];
  }

  /**
   * The re-ranked retry list holds exactly the names of the generating,
   * string-named models, each flash name before every other name, and (by
   * `RetryNamesGroups`) each group in listing order.
   */
  lemma RetryNamesOrder(ms: seq<ModelInfo>)
    ensures multiset(RetryNames(ms)) == multiset(GeneratingNames(ms))
    ensures forall n :: n in RetryNames(ms) ==> NamedIn(ms, n)
    ensures forall i, j :: 0 <= i < j < |RetryNames(ms)| && IsFlashName(RetryNames(ms)[j]) ==> IsFlashName(RetryNames(ms)[i])
  {
    RetryNamesGroups(ms);
    var g := GeneratingNames(ms);
    NamesWhereSplit(g);
    var r := RetryNames(ms);
    assert multiset(r) == multiset(g);
    forall n | n in r ensures NamedIn(ms, n) {
      assert n in multiset(r);
      assert n in g;
    }
    NamesWhereFlash(g, true);
    NamesWhereFlash(g, false);
    FlashBeforeOthers(NamesWhere(g, true), NamesWhere(g, false));
  }

  // ---------------------------------------------------------------------------
  // The whole transport: preferred endpoints, then the discovery retry

  datatype Transport = Transport(chosen: Option<Attempt>, tried: seq<string>, discovered: bool)

  /** `String(lastErr).includes("404")` with `lastErr` a non-null object. */
  predicate NotFound(err: Option<string>) {
    err.Some? && Includes(err.value, "404")
  }

  /** Lines 86-187: which response is used, which endpoints were fetched, whether the listing was requested. */
  function SelectSpec(fetch: string -> Attempt, listing: Listing): Transport {
    var primary := EndpointUrls(PreferredModels);
    match FirstOk(primary, fetch)
    case Some(k) => Transport(Some(fetch(primary[k])), primary[..k + 1], false)
    case None =>
      var err := LastError(primary, fetch);
      if NotFound(err) && listing.Listed? then
        var retry := EndpointUrls(RetryNames(listing.models));
        var chosen := match FirstOk(retry, fetch)
          case Some(k) => Some(fetch(retry[k]))
          case None => None;
        Transport(chosen, primary + Tried(retry, fetch), true)
      else
        Transport(None, primary, NotFound(err))
  }

  /** The preferred endpoints, then (only after they all failed with a 404 in the last error) the re-ranked ones. */
  method SelectEndpoint(fetch: string -> Attempt, listing: Listing)
    returns (resp: Option<Attempt>, tried: seq<string>, discovered: bool)
    ensures Transport(resp, tried, discovered) == SelectSpec(fetch, listing)
  {
    var primary := EndpointUrls(PreferredModels);
    var lastErr;
    resp, lastErr, tried := TryEndpoints(primary, fetch);
    discovered := false;
    if resp.None? {
      discovered := NotFound(lastErr);
      if discovered && listing.Listed? {
        var retry := EndpointUrls(RetryNames(listing.models));
        var again, _, triedAgain := TryEndpoints(retry, fetch);
        resp := again;
        tried := tried + triedAgain;
      }
    }
  }

  /**
   * Endpoints are fetched in list order and the first ok response is used:
   * nothing after it is fetched, and the listing is requested only when every
   * preferred endpoint failed and the last error mentions 404.
   */
  lemma SelectionOrder(fetch: string -> Attempt, listing: Listing)
    ensures var t := SelectSpec(fetch, listing);
      && (t.chosen.Some? ==> t.chosen.value.Ok? && t.tried != [] && fetch(t.tried[|t.tried| - 1]) == t.chosen.value)
      && (forall j :: 0 <= j < |t.tried| - 1 ==> !fetch(t.tried[j]).Ok?)
      && (t.chosen.None? ==> forall j :: 0 <= j < |t.tried| ==> !fetch(t.tried[j]).Ok?)
      && (t.discovered <==> FirstOk(EndpointUrls(PreferredModels), fetch).None?
                            && NotFound(LastError(EndpointUrls(PreferredModels), fetch)))
      && (|t.tried| > |PreferredModels| ==> t.discovered && listing.Listed?)
  {
    var primary := EndpointUrls(PreferredModels);
    TriedShape(primary, fetch);
    if FirstOk(primary, fetch).None? && NotFound(LastError(primary, fetch)) && listing.Listed? {
      var retry := EndpointUrls(RetryNames(listing.models));
      TriedShape(retry, fetch);
      FailedThenTried(primary, Tried(retry, fetch), fetch);
    }
  }

  /** The endpoints one loop fetches: every one but the last failed, and the last is the success if there was one. */
  lemma TriedShape(urls: seq<string>, fetch: string -> Attempt)
    ensures var t := Tried(urls, fetch);
      && (FirstOk(urls, fetch).Some? ==> t != [] && t[|t| - 1] == urls[FirstOk(urls, fetch).value])
      && (forall j :: 0 <= j < |t| - 1 ==> !fetch(t[j]).Ok?)
      && (FirstOk(urls, fetch).None? ==> t == urls && forall j :: 0 <= j < |t| ==> !fetch(t[j]).Ok?)
  {
    match FirstOk(urls, fetch)
    case Some(k) => {
      assert urls[..k + 1][k] == urls[k];
    }
    case None => {}
  }

  /** Failed endpoints followed by a second loop's endpoints: the failures of both stay failures. */
  lemma FailedThenTried(p: seq<string>, tr: seq<string>, fetch: string -> Attempt)
    requires forall j :: 0 <= j < |p| ==> !fetch(p[j]).Ok?
    ensures (forall j :: 0 <= j < |tr| - 1 ==> !fetch(tr[j]).Ok?) ==>
      forall j :: 0 <= j < |p + tr| - 1 ==> !fetch((p + tr)[j]).Ok?
    ensures tr != [] ==> (p + tr)[|p + tr| - 1] == tr[|tr| - 1]
    ensures (forall j :: 0 <= j < |tr| ==> !fetch(tr[j]).Ok?) ==>
      forall j :: 0 <= j < |p + tr| ==> !fetch((p + tr)[j]).Ok?
  {
  }

  // ---------------------------------------------------------------------------
  // Reading the verdict

  /** What `JSON.parse` of the cleaned text yields when reading `result`, `reasoning` and `pointsChange` does not throw. */
  datatype ParsedReply = ParsedReply(result: Outcome, reasoning: string, pointsChange: Option<int>)

  datatype Verdict = Verdict(result: Outcome, reasoning: string, pointsChange: int)

  /** Drops one leading ```json (any case) or, failing that, one leading ```. */
  function DropOpenFence(t: string): string {
    if StartsWith(LowerAscii(t), "```json") then t[7..] else if StartsWith(t, "```") then t[3..] else t
  }

  /** Drops one trailing ```. */
  function DropCloseFence(a: string): string {
    if EndsWith(a, "```") then a[..|a| - 3] else a
  }

  /** Line 196: trim, drop one leading ``` or ```json (any case), drop one trailing ```, trim again. */
  function StripFences(text: string): (r: string)
    ensures r == [] || (!IsSpace(r[0]) && !IsSpace(r[|r| - 1]))
  {
    Trim(DropCloseFence(DropOpenFence(Trim(text))))
  }

  lemma TrimStartPadded(pre: string, y: string)
    requires forall i :: 0 <= i < |pre| ==> IsSpace(pre[i])
    requires y == [] || !IsSpace(y[0])
    ensures TrimStart(pre + y) == y
  {
    var s := pre + y;
    TrimStartSpaces(s);
    assert forall i :: 0 <= i < |pre| ==> s[i] == pre[i];
    assert y != [] ==> s[|pre|] == y[0];
    assert s[|pre|..] == y;
  }

  lemma TrimEndPadded(y: string, post: string)
    requires forall i :: 0 <= i < |post| ==> IsSpace(post[i])
    requires y == [] || !IsSpace(y[|y| - 1])
    ensures TrimEnd(y + post) == y
  {
    var t := y + post;
    TrimEndSpaces(t);
    assert forall i :: |y| <= i < |t| ==> t[i] == post[i - |y|];
    assert y != [] ==> t[|y| - 1] == y[|y| - 1];
    assert t[..|y|] == y;
  }

  /** Trimming text padded with whitespace on both sides gives back text that had none at its ends. */
  lemma TrimPadded(pre: string, x: string, post: string)
    requires forall i :: 0 <= i < |pre| ==> IsSpace(pre[i])
    requires forall i :: 0 <= i < |post| ==> IsSpace(post[i])
    requires x == [] || (!IsSpace(x[0]) && !IsSpace(x[|x| - 1]))
    ensures Trim(pre + x + post) == x
  {
    if x == [] {
      assert pre + x + post == pre + post;
      TrimEndPadded([], pre + post);
      assert TrimStart(pre + post) == [];
    } else {
      assert pre + x + post == pre + (x + post);
      TrimStartPadded(pre, x + post);
      TrimEndPadded(x, post);
    }
  }

  lemma OpenFenceTagged(tag: string, rest: string)
    requires LowerAscii(tag) == "json"
    ensures DropOpenFence("```" + tag + rest) == rest
  {
    var x := "```" + tag + rest;
    LowerAsciiConcat("```" + tag, rest);
    LowerAsciiConcat("```", tag);
    assert LowerAscii("```") == "```";
    assert LowerAscii(x)[..7] == "```json";
    assert x[7..] == rest;
  }

  lemma OpenFencePlain(rest: string)
    requires !StartsWith(LowerAscii(rest), "json")
    ensures DropOpenFence("```" + rest) == rest
  {
    var x := "```" + rest;
    var lx := LowerAscii(x);
    assert !StartsWith(lx, "```json") by {
      if |rest| >= 4 {
        assert forall i :: 0 <= i < 4 ==> lx[3 + i] == LowerAscii(rest)[i];
        assert lx[3..7] == LowerAscii(rest)[..4];
      }
    }
    assert x[3..] == rest;
  }

  /** A body that does not start with "json" does not once the closing fence is appended. */
  lemma NoTagBeforeFence(body: string)
    requires !StartsWith(LowerAscii(body), "json")
    ensures !StartsWith(LowerAscii(body + "```"), "json")
  {
    var l := LowerAscii(body + "```");
    if |body| >= 4 {
      assert l[..4] == LowerAscii(body)[..4];
    } else {
      assert l[|body|] == '`';
    }
  }

  /** Dropping the fences from a fenced body gives the body back. */
  lemma DropFences(tag: string, body: string)
    requires tag == "" || LowerAscii(tag) == "json"
    requires tag == "" ==> !StartsWith(LowerAscii(body), "json")
    ensures DropCloseFence(DropOpenFence("```" + tag + body + "```")) == body
  {
    var x := "```" + tag + body + "```";
    if tag == "" {
      NoTagBeforeFence(body);
      assert x == "```" + (body + "```");
      OpenFencePlain(body + "```");
    } else {
      assert x == "```" + tag + (body + "```");
      OpenFenceTagged(tag, body + "```");
    }
    assert (body + "```")[..|body|] == body;
  }

  /**
   * A reply wrapped in a fence (with or without the json tag) and surrounded
   * by whitespace is cleaned to its trimmed body.
   */
  lemma StripFencesOfFenced(pre: string, tag: string, body: string, post: string)
    requires forall i :: 0 <= i < |pre| ==> IsSpace(pre[i])
    requires forall i :: 0 <= i < |post| ==> IsSpace(post[i])
    requires tag == "" || LowerAscii(tag) == "json"
    requires tag == "" ==> !StartsWith(LowerAscii(body), "json")
    ensures StripFences(pre + "```" + tag + body + "```" + post) == Trim(body)
  {
    var x := "```" + tag + body + "```";
    assert pre + "```" + tag + body + "```" + post == pre + x + post;
    assert x[0] == '`' && x[|x| - 1] == '`';
    TrimPadded(pre, x, post);
    DropFences(tag, body);
  }

  /** Text not starting with ``` does not start with ```json in any case either. */
  lemma NoOpenFence(t: string)
    requires !StartsWith(t, "```")
    ensures !StartsWith(LowerAscii(t), "```json")
  {
    if |t| >= 7 {
      assert t[..3] == [t[0], t[1], t[2]];
      var i :| 0 <= i < 3 && t[i] != '`';
      assert LowerAscii(t)[i] != '`';
      assert LowerAscii(t)[..7][i] != "```json"[i];
    }
  }

  /** Text that is already trimmed and carries no fence is left as it is. */
  lemma StripFencesOfPlain(text: string)
    requires text == [] || (!IsSpace(text[0]) && !IsSpace(text[|text| - 1]))
    requires !StartsWith(text, "```") && !EndsWith(text, "```")
    ensures StripFences(text) == text
  {
    TrimOfTrimmed(text);
    NoOpenFence(text);
    assert DropCloseFence(DropOpenFence(text)) == text;
  }

  /** The characters of `s` that are not whitespace, in order. */
  function NonSpace(s: string): string {
    if s == [] then [] else (if IsSpace(s[0]) then [] else [s[0]]) + NonSpace(s[1..])
  }

  lemma {:induction false} NonSpaceOfSpaces(s: string, k: nat)
    requires k <= |s| && forall i :: 0 <= i < k ==> IsSpace(s[i])
    ensures NonSpace(s) == NonSpace(s[k..])
  {
    if k > 0 {
      NonSpaceOfSpaces(s[1..], k - 1);
      assert s[1..][k - 1..] == s[k..];
    }
  }

  /** `s.replace(/\s+/g, " ")`: each run of whitespace becomes one space. */
  function CollapseSpace(s: string): (r: string)
    ensures (r == []) == (s == [])
    ensures s != [] ==> (IsSpace(r[0]) <==> IsSpace(s[0]))
    ensures SingleSpaced(r)
    ensures NonSpace(r) == NonSpace(s)
    decreases |s|
  {
    if s == [] then []
    else if IsSpace(s[0]) then
      var t := TrimStart(s);
      assert |t| < |s| by {
        assert s[0..] == s;
      }
      TrimStartSpaces(s);
      NonSpaceOfSpaces(s, |s| - |t|);
      var r := [' '] + CollapseSpace(t);
      assert NonSpace(r) == NonSpace(r[1..]);
      r
    else
      var r := [s[0]] + CollapseSpace(s[1..]);
      assert r[1..] == CollapseSpace(s[1..]);
      r
  }

  /** Lines 212-216: collapse whitespace runs, trim, cut to 100 characters. */
  function Normalise(s: string): string {
    Take(Trim(CollapseSpace(s)), 100)
  }

  /** No whitespace but plain spaces, and never two whitespace characters in a row. */
  predicate SingleSpaced(s: string) {
    && (forall i :: 0 <= i < |s| && IsSpace(s[i]) ==> s[i] == ' ')
    && (forall i :: 0 <= i < |s| - 1 ==> !(IsSpace(s[i]) && IsSpace(s[i + 1])))
  }

  lemma SingleSpacedSlice(s: string, lo: nat, hi: nat)
    requires lo <= hi <= |s| && SingleSpaced(s)
    ensures SingleSpaced(s[lo..hi])
  {
    var t := s[lo..hi];
    assert forall i :: 0 <= i < |t| ==> t[i] == s[lo + i];
  }

  lemma TrimSingleSpaced(c: string)
    requires SingleSpaced(c)
    ensures SingleSpaced(Trim(c))
  {
    var a := TrimStart(c);
    SingleSpacedSlice(c, |c| - |a|, |c|);
    var t := TrimEnd(a);
    SingleSpacedSlice(a, 0, |t|);
    assert Trim(c) == t;
  }

  lemma TakeSingleSpaced(t: string, n: nat)
    requires SingleSpaced(t)
    ensures SingleSpaced(Take(t, n))
  {
    SingleSpacedSlice(t, 0, |Take(t, n)|);
  }

  /**
   * A normalised reasoning is at most 100 characters, starts with no
   * whitespace, has no two whitespace characters in a row and no whitespace
   * other than plain spaces; the empty reasoning stays empty.
   */
  lemma NormaliseShape(s: string)
    ensures var r := Normalise(s);
      && |r| <= 100
      && (r == [] || !IsSpace(r[0]))
      && SingleSpaced(r)
      && (s == [] ==> r == [])
  {
    var c := CollapseSpace(s);
    var t := Trim(c);
    TrimSingleSpaced(c);
    TakeSingleSpaced(t, 100);
    var r := Take(t, 100);
    assert r == [] || r[0] == t[0];
  }

  /** `["win","loss","draw"][Math.floor(Math.random() * 3)]`. */
  function RandomOutcome(rnd: real): (o: Outcome)
    requires 0.0 <= rnd < 1.0
    ensures IsDecided(o)
  {
    [Win, Loss, Draw][PickIndex(3, rnd)]
  }

  /** The fixed points of a randomly drawn outcome: win 20, loss -15, draw 0. */
  function CanonicalPoints(o: Outcome): int {
    match o
    case Win => 20
    case Loss => -15
    case _ => 0
  }

  /** The verdict of the judging-error path (lines 217-236). */
  function Fallback(rnd: real): (v: Verdict)
    requires 0.0 <= rnd < 1.0
    ensures IsDecided(v.result) && v.reasoning == ""
    ensures v.result == Win ==> v.pointsChange == 20
    ensures v.result == Loss ==> v.pointsChange == -15
    ensures v.result == Draw ==> v.pointsChange == 0
  {
    var o := RandomOutcome(rnd);
    Verdict(o, "", CanonicalPoints(o))
  }

  /** Everything judging depends on: the API key's presence, the transport, the listing, `JSON.parse` and `Math.random()`. */
  datatype JudgeInputs = JudgeInputs(hasKey: bool, fetch: string -> Attempt, listing: Listing,
                                     parse: string -> Option<ParsedReply>, rnd: real)

  predicate ValidRandom(j: JudgeInputs) {
    0.0 <= j.rnd < 1.0
  }

  /** The reply text judging works on, or None when judging fails before it (no key, no ok endpoint, body not JSON). */
  function ReplyText(j: JudgeInputs): Option<string> {
    if !j.hasKey then None
    else
      match SelectSpec(j.fetch, j.listing).chosen
      case Some(Ok(Some(t))) => Some(t)
      case _ => None
  }

  /** The verdict of lines 44-236. */
  function JudgeSpec(j: JudgeInputs): Verdict
    requires ValidRandom(j)
  {
    match ReplyText(j)
    case None => Fallback(j.rnd)
    case Some(text) =>
      match j.parse(StripFences(text))
      case Some(p) => Verdict(p.result, Normalise(p.reasoning), p.pointsChange.GetOr(0))
      case None =>
        var o := RandomOutcome(j.rnd);
        Verdict(o, Normalise(Trim(text)), CanonicalPoints(o))
  }

  /** Lines 44-236 with their locals overwritten branch by branch. */
  method Decide(j: JudgeInputs) returns (v: Verdict)
    requires ValidRandom(j)
    ensures v == JudgeSpec(j)
  {
    var battleResult := Draw;
    var reasoning := "";
    var pointsChange := 0;
    var text: Option<string> := None;
    if j.hasKey {
      var resp, _, _ := SelectEndpoint(j.fetch, j.listing);
      if resp.Some? && resp.value.Ok? && resp.value.text.Some? {
        text := resp.value.text;
      }
    }
    assert text == ReplyText(j);
    if text.Some? {
      var parsed := j.parse(StripFences(text.value));
      if parsed.Some? {
        battleResult := parsed.value.result;
        reasoning := parsed.value.reasoning;
        pointsChange := parsed.value.pointsChange.GetOr(0);
      } else {
        reasoning := Trim(text.value);
        battleResult := RandomOutcome(j.rnd);
        pointsChange := CanonicalPoints(battleResult);
      }
      reasoning := Normalise(reasoning);
    } else {
      battleResult := RandomOutcome(j.rnd);
      pointsChange := CanonicalPoints(battleResult);
      reasoning := "";
    }
    v := Verdict(battleResult, reasoning, pointsChange);
  }

  /**
   * A parsed reply decides the verdict as it is: its result unchecked, its
   * own number of points (0 when not a number), its own reasoning normalised.
   */
  lemma ParsedVerdict(j: JudgeInputs, text: string, p: ParsedReply)
    requires ValidRandom(j)
    requires ReplyText(j) == Some(text) && j.parse(StripFences(text)) == Some(p)
    ensures JudgeSpec(j) == Verdict(p.result, Normalise(p.reasoning), p.pointsChange.GetOr(0))
  {
  }

  /**
   * Whenever the result is drawn at random it is win, loss or draw with 20,
   * -15 or 0 points; the reasoning is then the raw reply, normalised, or ""
   * when there was no reply.
   */
  lemma RandomVerdict(j: JudgeInputs)
    requires ValidRandom(j)
    requires ReplyText(j).None? || j.parse(StripFences(ReplyText(j).value)).None?
    ensures var v := JudgeSpec(j);
      && IsDecided(v.result) && v.pointsChange == CanonicalPoints(v.result)
      && v.result == RandomOutcome(j.rnd)
      && v.reasoning == (if ReplyText(j).None? then "" else Normalise(Trim(ReplyText(j).value)))
  {
  }

  /** Without a key, with every endpoint failing, or with a non-JSON body, the verdict is the random fallback. */
  lemma FailedJudgingFallsBack(j: JudgeInputs)
    requires ValidRandom(j)
    requires !j.hasKey || SelectSpec(j.fetch, j.listing).chosen.None?
    ensures JudgeSpec(j) == Fallback(j.rnd)
    ensures JudgeSpec(j).reasoning == "" && IsDecided(JudgeSpec(j).result)
  {
  }

  /** The reasoning of every verdict has the normalised shape. */
  lemma VerdictReasoningShape(j: JudgeInputs)
    requires ValidRandom(j)
    ensures var r := JudgeSpec(j).reasoning;
      && |r| <= 100
      && (r == [] || !IsSpace(r[0]))
      && SingleSpaced(r)
  {
    match ReplyText(j)
    case None =>
    case Some(text) =>
      match j.parse(StripFences(text))
      case Some(p) => NormaliseShape(p.reasoning);
      case None => NormaliseShape(Trim(text));
  }
}
