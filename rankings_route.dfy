/**
 * The rankings route: `GET` reads `limit` and `offset` from the query
 * string, caps the page at 100, asks the database for the top
 * `limit + offset` characters by rank and returns the page after `offset`.
 */
module RankingsRoute {
  import opened Wrappers
  import opened Text
  import opened Store

  /** `searchParams.get(name) || fallback`: an absent or empty parameter takes the fallback. */
  function Param(p: Option<string>, fallback: string): (r: string)
    ensures p.Some? && p.value != [] ==> r == p.value
    ensures p.None? || p.value == [] ==> r == fallback
  {
    if p.None? || p.value == [] then fallback else p.value
  }

  /** `Math.min(parseInt(limit || "100"), 100)`; None is NaN. */
  function SafeLimit(limitParam: Option<string>): (r: Option<int>)
    ensures r.Some? ==> r.value <= 100
  {
    match ParseInt(Param(limitParam, "100"), true)
    case None => None
    case Some(n) => Some(if n < 100 then n else 100)
  }

  /** The default page is 100. */
  lemma SafeLimitDefault()
    ensures SafeLimit(None) == Some(100) && SafeLimit(Some("")) == Some(100)
  {
    assert NatToString(100) == "100" by {
      assert NatToString(1) == "1";
      assert NatToString(10) == "10";
    }
    ParseIntOfNatToString(100, true);
    assert Param(None, "100") == "100" && Param(Some(""), "100") == "100";
  }

  /** A decimal limit is capped at 100. */
  lemma SafeLimitOfNumber(n: nat)
    ensures SafeLimit(Some(NatToString(n))) == Some(if n < 100 then n else 100)
  {
    ParseIntOfNatToString(n, true);
    assert Param(Some(NatToString(n)), "100") == NatToString(n);
  }

  /** `parseInt(offset || "0")`; None is NaN. */
  function Offset(offsetParam: Option<string>): Option<int> {
    ParseInt(Param(offsetParam, "0"), true)
  }

  datatype RankingsResponse =
    | Failed                                         // 500 "Failed to fetch rankings"
    | Page(characters: seq<CharacterDoc>, count: int, offset: Option<int>, limit: Option<int>)

  /**
   * `GET`. `query` stands for the rank-ordered database query: it receives
   * `safeLimit + offset` (None when either is NaN) and gives the documents
   * or None when it throws.
   */
  function Get(query: Option<int> -> Option<seq<CharacterDoc>>, limitParam: Option<string>,
               offsetParam: Option<string>): (r: RankingsResponse)
    ensures r.Page? ==> r.count == |r.characters| && r.limit == SafeLimit(limitParam) && r.offset == Offset(offsetParam)
    ensures r.Page? && r.limit.Some? && r.limit.value >= 0 ==> r.count <= r.limit.value
  {
    Window(query, SafeLimit(limitParam), Offset(offsetParam))
  }

  /** The response for a parsed limit and offset; `slice` treats NaN bounds as 0. */
  function Window(query: Option<int> -> Option<seq<CharacterDoc>>, lim: Option<int>, off: Option<int>): (r: RankingsResponse)
    ensures r.Page? ==> r.count == |r.characters| && r.limit == lim && r.offset == off
    ensures r.Page? && lim.Some? && lim.value >= 0 ==> r.count <= lim.value
  {
    var n := if lim.Some? && off.Some? then Some(lim.value + off.value) else None;
    match query(n)
    case None => Failed
    case Some(docs) =>
      var start := off.GetOr(0);
      var end := if n.Some? then n.value else 0;
      assert lim.Some? && lim.value >= 0 ==> |Slice(docs, start, end)| <= lim.value by {
        if lim.Some? && lim.value >= 0 {
          SliceLength(docs, start, end);
        }
      }
      var page := Slice(docs, start, end);
      Page(page, |page|, off, lim)
  }

  /**
   * When the database answers with the top `lim + off` of the rank-ordered
   * list `ranked`, the page is exactly the elements of `ranked` from `off`
   * up to (not including) `off + lim`.
   */
  lemma WindowOfRanked(ranked: seq<CharacterDoc>, query: Option<int> -> Option<seq<CharacterDoc>>, lim: nat, off: nat)
    requires query(Some(lim + off)) == Some(Take(ranked, lim + off))
    ensures var r := Window(query, Some(lim), Some(off));
      && r.Page?
      && r.characters == (if off <= |ranked| then ranked[off..if off + lim <= |ranked| then off + lim else |ranked|] else [])
  {
    var t := Take(ranked, lim + off);
    var r := Window(query, Some(lim), Some(off));
    assert r.characters == Slice(t, off, off + lim);
    if off <= |ranked| {
      var hi := if off + lim <= |ranked| then off + lim else |ranked|;
      assert t[off..if off + lim <= |t| then off + lim else |t|] == ranked[off..hi];
    }
  }

  /** The page of a request is that window of the rank-ordered list, and the limit and offset are echoed. */
  lemma GetWindow(ranked: seq<CharacterDoc>, query: Option<int> -> Option<seq<CharacterDoc>>,
                  limitParam: Option<string>, offsetParam: Option<string>, lim: nat, off: nat)
    requires SafeLimit(limitParam) == Some(lim) && Offset(offsetParam) == Some(off)
    requires query(Some(lim + off)) == Some(Take(ranked, lim + off))
    ensures var r := Get(query, limitParam, offsetParam);
      && r.Page?
      && r.characters == (if off <= |ranked| then ranked[off..if off + lim <= |ranked| then off + lim else |ranked|] else [])
      && r.offset == Some(off) && r.limit == Some(lim)
  {
    WindowOfRanked(ranked, query, lim, off);
  }
}
