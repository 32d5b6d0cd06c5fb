/**
 * The client battle flow (components/battle-arena.tsx): the cooldown
 * pre-check and countdown, the opponent pick, the request to the battle
 * route, and the client-side update of the player's own record plus the
 * battle ledger entry.
 */
module BattleArena {
  import opened Wrappers
  import opened Text
  import opened Store
  import opened Random
  import BattleRoute
  import Judge

  const ArenaCooldownMs: int := 15000

  /** `BattleState` of lib/types.ts. */
  datatype BattleState = Ready | Matching | Battling | Finished

  // ---------------------------------------------------------------------------
  // Images

  predicate IsHttpUrl(s: string) {
    StartsWith(s, "http://") || StartsWith(s, "https://")
  }

  /**
   * Lines 55-66: the image shown for the player: `data:` and http(s)
   * references as they are, any other storage path through `getDownloadURL`
   * (None for a failed lookup), "" when the lookup fails.
   */
  function DisplayImage(ref: string, download: string -> Option<string>): (src: string)
    ensures StartsWith(ref, "data:") || IsHttpUrl(ref) ==> src == ref
  {
    if StartsWith(ref, "data:") || IsHttpUrl(ref) then ref else download(ref).GetOr("")
  }

  /** Lines 170-172: only an http(s) image URL is sent for the player. */
  function PlayerImageForAI(src: string): (r: Option<string>)
    ensures r.Some? <==> IsHttpUrl(src)
    ensures r.Some? ==> r.value == src
  {
    if src != "" && IsHttpUrl(src) then Some(src) else None
  }

  /** Lines 158-167: the opponent's image URL sent to the judge. */
  function OpponentImageForAI(imageUrl: string, download: string -> Option<string>): (r: Option<string>)
    ensures IsHttpUrl(imageUrl) ==> r == Some(imageUrl)
    ensures imageUrl == "" ==> r.None?
  {
    if IsHttpUrl(imageUrl) then Some(imageUrl)
    else if imageUrl != "" then download(imageUrl)
    else None
  }

  // ---------------------------------------------------------------------------
  // Cooldown

  /** Lines 87-98 and 249-255: the milliseconds left until `until`, never below 0. */
  function Countdown(until: int, now: int): int {
    BattleRoute.Max(0, until - now)
  }

  /** The countdown is never negative, never rises as time passes, and falls with time while it is positive. */
  lemma CountdownMonotone(until: int, now: int, later: int)
    requires now <= later
    ensures 0 <= Countdown(until, later) <= Countdown(until, now)
    ensures Countdown(until, now) > 0 && now < later ==> Countdown(until, later) < Countdown(until, now)
    ensures Countdown(until, now) == 0 ==> Countdown(until, later) == 0
  {
  }

  /** The countdown started right after a battle reaches 0 exactly 15 seconds later. */
  lemma CountdownAfterBattle(start: int, now: int)
    requires start <= now
    ensures Countdown(start + ArenaCooldownMs, now) == 0 <==> now >= start + ArenaCooldownMs
    ensures Countdown(start + ArenaCooldownMs, now) <= ArenaCooldownMs
  {
  }

  datatype PreCheck = Clear | Blocked(remain: int)

  /**
   * Lines 117-133: `lastRead` is the stored `lastBattleAt` in milliseconds
   * (Some(None) when absent, None when reading failed). A battle less than
   * 15 seconds old blocks; a failed read does not.
   */
  function CheckBeforeStart(lastRead: Option<Option<int>>, now: int): (c: PreCheck)
    ensures c.Blocked? <==> lastRead.Some? && lastRead.value.Some? && lastRead.value.value + ArenaCooldownMs > now
    ensures c.Blocked? ==> c.remain > 0 && c.remain == Countdown(lastRead.value.value + ArenaCooldownMs, now)
  {
    match lastRead
    case Some(Some(last)) =>
      var remain := last + ArenaCooldownMs - now;
      if remain > 0 then Blocked(remain) else Clear
    case _ => Clear
  }

  // ---------------------------------------------------------------------------
  // Opponent choice

  /** Lines 144-146: drop the requester's own characters and the playing character itself. */
  function Opponents(top: seq<CharacterDoc>, userId: string, myId: string): (r: seq<CharacterDoc>)
    ensures forall c :: c in r ==> c in top && c.userId != userId && c.id != myId
    ensures forall c :: c in top && c.userId != userId && c.id != myId ==> c in r
    ensures |r| <= |top|
  {
    if top == [] then []
    else
      var rest := Opponents(top[1..], userId, myId);
      assert forall c :: c in top[1..] ==> c in top;
      assert forall c :: c in top ==> c == top[0] || c in top[1..];
      (if top[0].userId != userId && top[0].id != myId then [top[0]] else []) + rest
  }

  // ---------------------------------------------------------------------------
  // Updates

  /** Lines 200-213: the player's new record (the only document the client writes). */
  function PlayerAfter(p: CharacterDoc, result: Outcome, delta: int, serverTime: int): CharacterDoc {
    var wins := p.wins + BattleRoute.Indicator(result == Win);
    var total := p.totalBattles + 1;
    p.(rank := BattleRoute.Max(1, p.rank + delta),
       wins := wins,
       losses := p.losses + BattleRoute.Indicator(result == Loss),
       draws := p.draws + BattleRoute.Indicator(result == Draw),
       totalBattles := total,
       winRate := BattleRoute.WinRate(wins, total),
       updatedAt := Some(serverTime), lastBattleAt := Some(serverTime))
  }

  /** Lines 201, 214-222 and 247: the opponent as displayed after the battle (never written back). */
  function OpponentView(picked: CharacterDoc, o: CharacterDoc, result: Outcome, delta: int): CharacterDoc {
    var wins := o.wins + BattleRoute.Indicator(result == Loss);
    var total := o.totalBattles + 1;
    picked.(rank := BattleRoute.Max(1, o.rank - delta),
            wins := wins,
            losses := o.losses + BattleRoute.Indicator(result == Win),
            draws := o.draws + BattleRoute.Indicator(result == Draw),
            totalBattles := total,
            winRate := BattleRoute.WinRate(wins, total))
  }

  /**
   * The player's and the opponent's counters mirror each other, each total
   * rises by one, and both new ranks are at least 1.
   */
  lemma ClientMirror(p: CharacterDoc, picked: CharacterDoc, o: CharacterDoc, result: Outcome, delta: int, t: int)
    requires IsDecided(result)
    ensures var a := PlayerAfter(p, result, delta, t);
      var b := OpponentView(picked, o, result, delta);
      && a.rank >= 1 && b.rank >= 1
      && a.totalBattles == p.totalBattles + 1 && b.totalBattles == o.totalBattles + 1
      && (a.wins == p.wins + 1 <==> b.losses == o.losses + 1)
      && (a.losses == p.losses + 1 <==> b.wins == o.wins + 1)
      && (a.draws == p.draws + 1 <==> b.draws == o.draws + 1)
      && (a.wins - p.wins) + (a.losses - p.losses) + (a.draws - p.draws) == 1
      && (b.wins - o.wins) + (b.losses - o.losses) + (b.draws - o.draws) == 1
  {
  }

  /**
   * The client's update agrees with the server's `computeStats` for the
   * player, except that the client takes a stored rank of 0 as it is where
   * the server reads it as 1000.
   */
  lemma ClientMatchesServer(p: CharacterDoc, result: Outcome, delta: int, t: int)
    requires p.rank != 0
    ensures var a := PlayerAfter(p, result, delta, t);
      var s := BattleRoute.ComputeStats(p, true, result, delta);
      a.rank == s.rank && a.wins == s.wins && a.losses == s.losses && a.draws == s.draws
      && a.totalBattles == s.totalBattles && a.winRate == s.winRate
  {
  }

  // ---------------------------------------------------------------------------
  // One battle

  /** The body posted to the battle route (lines 175-182). */
  datatype ClientRequest = ClientRequest(playerId: string, playerImage: Option<string>,
                                         opponentId: string, opponentImage: Option<string>)

  /**
   * The body as the battle route's own logic reads it: `player.id` and
   * `opponent.id`. The image URLs reach only the judge, whose inputs are
   * given.
   */
  function RouteBody(req: ClientRequest): BattleRoute.BattleRequest {
    BattleRoute.BattleRequest(Some(BattleRoute.Member(Some(req.playerId))),
                              Some(BattleRoute.Member(Some(req.opponentId))))
  }

  /**
   * What the client takes from the route's answer (lines 184-188): a status
   * other than 2xx is not ok; otherwise `result`, `reasoning` and
   * `Number(pointsChange) || 0`, which is the route's integer itself. The
   * `persisted` flag and the updated stats are not read.
   */
  datatype ServerReply = NotOk | Reply(result: Outcome, reasoning: string, pointsChange: int)

  function ReplyOf(resp: BattleRoute.BattleResponse): ServerReply {
    match resp
    case Success(result, reasoning, points, _, _, _) => Reply(result, reasoning, points)
    case _ => NotOk
  }

  /** How far the two client writes get: both, the player update fails, or the ledger write fails after it. */
  datatype ClientWrites = AllWrites | PlayerWriteFails | RecordWriteFails

  /** Everything a battle depends on outside the component and the database. */
  datatype ArenaEnv = ArenaEnv(
    lastRead: Option<Option<int>>, now: int,
    /** The top-50-by-rank query; None when it fails. */
    top: Option<seq<CharacterDoc>>,
    rnd: real,
    download: string -> Option<string>,
    /** The battle route's clock, its judge, its admin database, and the id and time of the entry it writes. */
    routeNow: int, judge: Judge.JudgeInputs, backend: BattleRoute.Backend, routeBattleId: string,
    routeServerTime: int,
    writes: ClientWrites,
    serverTime: int, battleId: string, clientTime: int)

  predicate ValidEnv(env: ArenaEnv) {
    0.0 <= env.rnd < 1.0 && Judge.ValidRandom(env.judge)
  }

  /** The component state a battle changes. */
  datatype View = View(battleState: BattleState, result: Option<Outcome>, reasoning: string,
                       pointsChange: int, opponent: Option<CharacterDoc>, newRank: int, cooldownMs: int)

  /**
   * A battle's effect: the new view, the route's cooldown map, the store,
   * the states passed through and the request sent.
   */
  datatype Run = Run(view: View, routeLast: map<string, int>, characters: map<string, CharacterDoc>,
                     battles: map<string, BattleRecord>, visited: seq<BattleState>, sent: Option<ClientRequest>)

  /**
   * Lines 184-257: what happens once the route answered `reply`. `chars` and
   * `battles` are the store as the route left it: the client reads both
   * documents from there (lines 191-198), writes the player's, and adds its
   * own ledger entry. The client SDK refuses an entry whose `result` is
   * undefined, so that `setDoc` throws after the player's update.
   */
  function Settle(v1: View, last: map<string, int>, chars: map<string, CharacterDoc>,
                  battles: map<string, BattleRecord>, myId: string, picked: CharacterDoc, req: ClientRequest,
                  reply: ServerReply, env: ArenaEnv): Run
  {
    var failed := Run(v1.(battleState := Ready), last, chars, battles, [Matching, Battling, Ready], Some(req));
    match reply
    case NotOk => failed
    case Reply(result, reasoning, delta) =>
      if myId !in chars || picked.id !in chars || env.writes.PlayerWriteFails? then failed
      else
        var player := chars[myId];
        var opp := chars[picked.id];
        var updated := PlayerAfter(player, result, delta, env.serverTime);
        var oppRank := BattleRoute.Max(1, opp.rank - delta);
        var rec := BattleRecord(env.battleId, myId, picked.id, result, reasoning, delta,
                                player.rank, updated.rank, opp.rank, oppRank, env.clientTime);
        if env.writes.RecordWriteFails? || result == Undefined then failed.(characters := chars[myId := updated])
        else
          Run(View(Finished, Some(result), reasoning, delta, Some(OpponentView(picked, opp, result, delta)),
                   updated.rank, ArenaCooldownMs),
              last, chars[myId := updated], battles[env.battleId := rec],
              [Matching, Battling, Finished], Some(req))
  }

  /** The state shown while waiting does not affect how the battle settles. */
  lemma SettleIgnoresState(v1: View, s: BattleState, last: map<string, int>, chars: map<string, CharacterDoc>,
                           battles: map<string, BattleRecord>, myId: string, picked: CharacterDoc,
                           req: ClientRequest, reply: ServerReply, env: ArenaEnv)
    ensures Settle(v1.(battleState := s), last, chars, battles, myId, picked, req, reply, env)
         == Settle(v1, last, chars, battles, myId, picked, req, reply, env)
  {
  }

  /** Lines 142-152: the opponent drawn from the candidates, or None when there is none or the query failed. */
  function Pick(me: CharacterDoc, userId: string, env: ArenaEnv): (r: Option<CharacterDoc>)
    requires ValidEnv(env)
    ensures r.None? <==> env.top.None? || Opponents(env.top.value, userId, me.id) == []
    ensures r.Some? ==> env.top.Some? && r.value in Opponents(env.top.value, userId, me.id)
  {
    var others := if env.top.Some? then Opponents(env.top.value, userId, me.id) else [];
    if others == [] then None else Some(others[PickIndex(|others|, env.rnd)])
  }

  /** Lines 157-182: the request sent for `picked`. */
  function RequestTo(me: CharacterDoc, myImageSrc: string, picked: CharacterDoc, env: ArenaEnv): ClientRequest {
    ClientRequest(me.id, PlayerImageForAI(myImageSrc), picked.id, OpponentImageForAI(picked.imageUrl, env.download))
  }

  /** Line 175: the battle route handles the request on the same database the client reads afterwards. */
  function Route(last: map<string, int>, chars: map<string, CharacterDoc>, battles: map<string, BattleRecord>,
                 req: ClientRequest, env: ArenaEnv): BattleRoute.PostResult
    requires ValidEnv(env)
  {
    BattleRoute.PostSpec(last, chars, battles, Some(RouteBody(req)), env.routeNow, env.judge, env.backend,
                         env.routeBattleId, env.routeServerTime)
  }

  /** Lines 115-266. */
  function Start(v: View, last: map<string, int>, chars: map<string, CharacterDoc>, battles: map<string, BattleRecord>,
                 me: CharacterDoc, userId: string, myImageSrc: string, env: ArenaEnv): Run
    requires ValidEnv(env)
  {
    match CheckBeforeStart(env.lastRead, env.now)
    case Blocked(remain) => Run(v.(cooldownMs := remain), last, chars, battles, [], None)
    case Clear =>
      match Pick(me, userId, env)
      case None => Run(v.(battleState := Ready), last, chars, battles, [Matching, Ready], None)
      case Some(picked) =>
        var req := RequestTo(me, myImageSrc, picked, env);
        var post := Route(last, chars, battles, req, env);
        Settle(v.(opponent := Some(picked)), post.lastBattleAt, post.characters, post.battles, me.id, picked,
               req, ReplyOf(post.resp), env)
  }

  /** A recent battle stops a new one before anything else happens: same state, no query, no request, no write. */
  lemma StartBlocked(v: View, last: map<string, int>, chars: map<string, CharacterDoc>,
                     battles: map<string, BattleRecord>, me: CharacterDoc, userId: string, myImageSrc: string,
                     env: ArenaEnv)
    requires ValidEnv(env)
    requires CheckBeforeStart(env.lastRead, env.now).Blocked?
    ensures var r := Start(v, last, chars, battles, me, userId, myImageSrc, env);
      && r.view.battleState == v.battleState && r.view.opponent == v.opponent
      && r.view.cooldownMs > 0
      && r.visited == [] && r.sent.None? && r.routeLast == last && r.characters == chars && r.battles == battles
  {
  }

  /**
   * A battle runs through matching (and battling once an opponent is
   * picked) and ends finished, or back in ready on any failure. Without an
   * opponent nothing is sent or written. With one, the route handles the
   * request first; only the two battling documents ever change; the client
   * then writes only the player's document, with a rank of at least 1, on
   * top of what the route left; a finished battle adds exactly the client's
   * ledger entry to the route's ledger.
   */
  lemma StartFlow(v: View, last: map<string, int>, chars: map<string, CharacterDoc>,
                  battles: map<string, BattleRecord>, me: CharacterDoc, userId: string, myImageSrc: string,
                  env: ArenaEnv)
    requires ValidEnv(env)
    requires CheckBeforeStart(env.lastRead, env.now).Clear?
    ensures var r := Start(v, last, chars, battles, me, userId, myImageSrc, env);
      && (r.visited == [Matching, Ready] || r.visited == [Matching, Battling, Ready]
          || r.visited == [Matching, Battling, Finished])
      && r.view.battleState == r.visited[|r.visited| - 1]
      && (r.view.battleState == Finished ==> r.view.cooldownMs == ArenaCooldownMs)
      && (Pick(me, userId, env).None? ==>
            && r.visited == [Matching, Ready] && r.sent.None?
            && r.routeLast == last && r.characters == chars && r.battles == battles)
      && (Pick(me, userId, env).Some? ==>
            var picked := Pick(me, userId, env).value;
            var post := Route(last, chars, battles, RequestTo(me, myImageSrc, picked, env), env);
            && r.sent == Some(RequestTo(me, myImageSrc, picked, env))
            && r.routeLast == post.lastBattleAt
            && (forall k :: k in chars && k != me.id && k != picked.id ==> k in r.characters && r.characters[k] == chars[k])
            && (forall k :: k in post.characters && k != me.id ==> k in r.characters && r.characters[k] == post.characters[k])
            && (r.characters != post.characters ==>
                  (me.id in post.characters && me.id in r.characters
                   && r.characters == post.characters[me.id := r.characters[me.id]]
                   && r.characters[me.id].rank >= 1))
            && (r.view.battleState == Finished ==>
                  me.id in r.characters && r.battles.Keys == post.battles.Keys + {env.battleId}
                  && r.battles[env.battleId].characterId == me.id)
            && (r.view.battleState != Finished ==> r.battles == post.battles))
  {
    match Pick(me, userId, env)
    case None =>
    case Some(picked) =>
      var req := RequestTo(me, myImageSrc, picked, env);
      var post := Route(last, chars, battles, req, env);
      StartSettles(v, last, chars, battles, me, userId, myImageSrc, env);
      RouteWrites(last, chars, battles, req, env);
      SettleFlow(v.(opponent := Some(picked)), post.lastBattleAt, post.characters, post.battles, me.id, picked,
                 req, ReplyOf(post.resp), env);
  }

  /** The route changes at most the two documents named in the request. */
  lemma RouteWrites(last: map<string, int>, chars: map<string, CharacterDoc>, battles: map<string, BattleRecord>,
                    req: ClientRequest, env: ArenaEnv)
    requires ValidEnv(env)
    ensures var post := Route(last, chars, battles, req, env);
      && post.characters.Keys == chars.Keys
      && (forall k :: k in chars && k != req.playerId && k != req.opponentId ==> post.characters[k] == chars[k])
  {
    var post := Route(last, chars, battles, req, env);
    if post.resp.Success? && post.resp.persisted {
      BattleRoute.PostPersistence(last, chars, battles, RouteBody(req), env.routeNow, env.judge, env.backend,
                                  env.routeBattleId, env.routeServerTime);
    }
  }

  /** `StartFlow` once the route has answered: the client's part of it, on the store as the route left it. */
  lemma SettleFlow(v1: View, last: map<string, int>, chars: map<string, CharacterDoc>,
                   battles: map<string, BattleRecord>, myId: string, picked: CharacterDoc, req: ClientRequest,
                   reply: ServerReply, env: ArenaEnv)
    ensures var r := Settle(v1, last, chars, battles, myId, picked, req, reply, env);
      && (r.visited == [Matching, Battling, Ready] || r.visited == [Matching, Battling, Finished])
      && r.view.battleState == r.visited[2]
      && r.routeLast == last && r.sent == Some(req)
      && (r.view.battleState == Finished ==> r.view.cooldownMs == ArenaCooldownMs)
      && (forall k :: k in chars && k != myId ==> k in r.characters && r.characters[k] == chars[k])
      && (r.characters != chars ==>
            (myId in chars && myId in r.characters && r.characters == chars[myId := r.characters[myId]]
             && r.characters[myId].rank >= 1))
      && (r.view.battleState == Finished ==> myId in r.characters && r.battles.Keys == battles.Keys + {env.battleId}
                                             && r.battles[env.battleId].characterId == myId)
      && (r.view.battleState != Finished ==> r.battles == battles)
  {
    var r := Settle(v1, last, chars, battles, myId, picked, req, reply, env);
    if reply.NotOk? || myId !in chars || picked.id !in chars || env.writes.PlayerWriteFails? {
      assert r.characters == chars && r.battles == battles && r.view.battleState == Ready;
    } else {
      var updated := PlayerAfter(chars[myId], reply.result, reply.pointsChange, env.serverTime);
      assert r.characters == chars[myId := updated] && updated.rank >= 1;
      if env.writes.RecordWriteFails? || reply.result == Undefined {
        assert r.battles == battles && r.view.battleState == Ready;
      } else {
        assert r.view.battleState == Finished && r.battles.Keys == battles.Keys + {env.battleId};
      }
    }
  }

  /** What the route does to the player's document and the ledger, for two distinct ids. */
  lemma RoutePlayerUpdate(last: map<string, int>, chars: map<string, CharacterDoc>,
                          battles: map<string, BattleRecord>, req: ClientRequest, env: ArenaEnv)
    requires ValidEnv(env)
    requires req.playerId in chars && req.playerId != req.opponentId
    ensures var post := Route(last, chars, battles, req, env);
      var v := Judge.JudgeSpec(env.judge);
      var p := chars[req.playerId];
      var ps := BattleRoute.ComputeStats(p, true, v.result, v.pointsChange);
      post.resp.Success? ==>
        && post.resp.pointsChange == v.pointsChange && post.resp.result == v.result
        && (post.resp.persisted ==>
              && req.playerId in post.characters
              && post.characters[req.playerId] == BattleRoute.WithStats(p, ps, env.routeServerTime)
              && env.routeBattleId in post.battles
              && post.battles[env.routeBattleId].characterRankAfter == ps.rank)
        && (!post.resp.persisted ==> post.characters == chars && post.battles == battles)
  {
    var body := RouteBody(req);
    assert body.player.value.id.value == req.playerId && body.opponent.value.id.value == req.opponentId;
    if req.playerId != "" && req.opponentId != "" {
      BattleRoute.PostPlayerUpdate(last, chars, battles, body, env.routeNow, env.judge, env.backend,
                                   env.routeBattleId, env.routeServerTime);
    } else {
      BattleRoute.PostRejectsMissingIds(last, chars, battles, body, env.routeNow, env.judge, env.backend,
                                        env.routeBattleId, env.routeServerTime);
    }
  }

  /**
   * The client does not look at `persisted` (lines 185-241): when the route
   * committed the battle, the client reads the player's document the route
   * has already updated and applies the same battle to it again. The
   * player's lifetime total then rises by two, and away from the rank floor
   * the rank moves by twice the points; the ledger of a finished battle
   * holds both entries, the client's starting where the route's ended. When
   * the route did not persist, the total rises by one.
   */
  lemma ClientReappliesPersistedBattle(v: View, last: map<string, int>, chars: map<string, CharacterDoc>,
                                       battles: map<string, BattleRecord>, me: CharacterDoc, userId: string,
                                       myImageSrc: string, env: ArenaEnv)
    requires ValidEnv(env)
    requires CheckBeforeStart(env.lastRead, env.now).Clear? && Pick(me, userId, env).Some?
    requires me.id in chars && Pick(me, userId, env).value.id in chars && !env.writes.PlayerWriteFails?
    requires Route(last, chars, battles, RequestTo(me, myImageSrc, Pick(me, userId, env).value, env), env).resp.Success?
    ensures var post := Route(last, chars, battles, RequestTo(me, myImageSrc, Pick(me, userId, env).value, env), env);
      var r := Start(v, last, chars, battles, me, userId, myImageSrc, env);
      var p := chars[me.id];
      var delta := post.resp.pointsChange;
      && me.id in r.characters
      && r.characters[me.id].totalBattles == p.totalBattles + (if post.resp.persisted then 2 else 1)
      && (post.resp.persisted && p.rank >= 1 && p.rank + delta >= 1 && p.rank + 2 * delta >= 1 ==>
            r.characters[me.id].rank == p.rank + 2 * delta)
      && (!post.resp.persisted && p.rank + delta >= 1 ==> r.characters[me.id].rank == p.rank + delta)
      && (post.resp.persisted && r.view.battleState == Finished && env.battleId != env.routeBattleId ==>
            && env.routeBattleId in r.battles && env.battleId in r.battles
            && r.battles[env.battleId].characterRankBefore == r.battles[env.routeBattleId].characterRankAfter)
  {
    var picked := Pick(me, userId, env).value;
    var req := RequestTo(me, myImageSrc, picked, env);
    var post := Route(last, chars, battles, req, env);
    assert picked.id != me.id;
    RoutePlayerUpdate(last, chars, battles, req, env);
    RouteWrites(last, chars, battles, req, env);
    StartSettles(v, last, chars, battles, me, userId, myImageSrc, env);
    assert ReplyOf(post.resp) == Reply(post.resp.result, post.resp.reasoning, post.resp.pointsChange);
    SettlePlayer(v.(opponent := Some(picked)), post.lastBattleAt, post.characters, post.battles, me.id, picked,
                 req, ReplyOf(post.resp), env, env.routeBattleId);
  }

  /**
   * A reply settled on two present documents writes the player's record
   * from the document as it was read, keeps every other ledger entry, and a
   * finished battle's entry starts at that document's rank.
   */
  lemma SettlePlayer(v1: View, last: map<string, int>, chars: map<string, CharacterDoc>,
                     battles: map<string, BattleRecord>, myId: string, picked: CharacterDoc, req: ClientRequest,
                     reply: ServerReply, env: ArenaEnv, key: string)
    requires reply.Reply? && myId in chars && picked.id in chars && !env.writes.PlayerWriteFails?
    ensures var r := Settle(v1, last, chars, battles, myId, picked, req, reply, env);
      && myId in r.characters
      && r.characters[myId] == PlayerAfter(chars[myId], reply.result, reply.pointsChange, env.serverTime)
      && (key in battles && key != env.battleId ==> key in r.battles && r.battles[key] == battles[key])
      && (r.view.battleState == Finished ==>
            env.battleId in r.battles && r.battles[env.battleId].characterRankBefore == chars[myId].rank)
  {
  }

  /** The opponent asked for is a top character of another user, and the player's image is only ever an http(s) URL. */
  lemma StartRequest(v: View, last: map<string, int>, chars: map<string, CharacterDoc>,
                     battles: map<string, BattleRecord>, me: CharacterDoc, userId: string, myImageSrc: string,
                     env: ArenaEnv)
    requires ValidEnv(env)
    ensures var r := Start(v, last, chars, battles, me, userId, myImageSrc, env);
      r.sent.Some? ==>
        && env.top.Some? && r.view.opponent.Some?
        && r.sent.value.playerId == me.id
        && (r.sent.value.playerImage.Some? ==> IsHttpUrl(r.sent.value.playerImage.value))
        && exists c :: c in env.top.value && c.id == r.sent.value.opponentId && c.userId != userId && c.id != me.id
  {
    if CheckBeforeStart(env.lastRead, env.now).Clear? && Pick(me, userId, env).Some? {
      var picked := Pick(me, userId, env).value;
      var req := RequestTo(me, myImageSrc, picked, env);
      var post := Route(last, chars, battles, req, env);
      StartSettles(v, last, chars, battles, me, userId, myImageSrc, env);
      SettleShows(v.(opponent := Some(picked)), post.lastBattleAt, post.characters, post.battles, me.id, picked,
                  req, ReplyOf(post.resp), env);
      assert picked in Opponents(env.top.value, userId, me.id);
    }
  }

  /** A clear start with a picked opponent settles on the store as the route left it. */
  lemma StartSettles(v: View, last: map<string, int>, chars: map<string, CharacterDoc>,
                     battles: map<string, BattleRecord>, me: CharacterDoc, userId: string, myImageSrc: string,
                     env: ArenaEnv)
    requires ValidEnv(env)
    requires CheckBeforeStart(env.lastRead, env.now).Clear? && Pick(me, userId, env).Some?
    ensures var picked := Pick(me, userId, env).value;
      var req := RequestTo(me, myImageSrc, picked, env);
      var post := Route(last, chars, battles, req, env);
      Start(v, last, chars, battles, me, userId, myImageSrc, env)
        == Settle(v.(opponent := Some(picked)), post.lastBattleAt, post.characters, post.battles, me.id, picked,
                  req, ReplyOf(post.resp), env)
  {
  }

  /** Settling keeps the request sent and an opponent already shown. */
  lemma SettleShows(v1: View, last: map<string, int>, chars: map<string, CharacterDoc>,
                    battles: map<string, BattleRecord>, myId: string, picked: CharacterDoc, req: ClientRequest,
                    reply: ServerReply, env: ArenaEnv)
    requires v1.opponent.Some?
    ensures var r := Settle(v1, last, chars, battles, myId, picked, req, reply, env);
      r.sent == Some(req) && r.view.opponent.Some?
  {
  }

  /** Line 308: the start button is disabled while a cooldown runs or a battle is under way or shown. */
  predicate StartEnabled(v: View) {
    !(v.cooldownMs > 0 || v.battleState != Ready)
  }

  /**
   * After a press of the start button, the button stays disabled when the
   * start was blocked or the battle finished; after a battle that went back
   * to ready it is enabled exactly when no cooldown was running before.
   */
  lemma StartButtonAfterStart(v: View, last: map<string, int>, chars: map<string, CharacterDoc>,
                              battles: map<string, BattleRecord>, me: CharacterDoc, userId: string,
                              myImageSrc: string, env: ArenaEnv)
    requires ValidEnv(env)
    ensures var r := Start(v, last, chars, battles, me, userId, myImageSrc, env);
      && (CheckBeforeStart(env.lastRead, env.now).Blocked? ==> !StartEnabled(r.view))
      && (r.view.battleState == Finished ==> !StartEnabled(r.view))
      && (r.visited != [] && r.view.battleState == Ready ==> (StartEnabled(r.view) <==> v.cooldownMs <= 0))
  {
    if CheckBeforeStart(env.lastRead, env.now).Blocked? {
      StartBlocked(v, last, chars, battles, me, userId, myImageSrc, env);
    } else {
      StartFlow(v, last, chars, battles, me, userId, myImageSrc, env);
    }
  }

  /** Once the countdown of the 250 ms ticks reaches `until`, the button is enabled again in the ready state, and not before. */
  lemma StartButtonAfterTicks(v: View, until: int, now: int)
    ensures StartEnabled(v.(cooldownMs := Countdown(until, now))) <==> v.battleState == Ready && now >= until
  {
  }

  /**
   * The battle view with its state, updated in place step by step. `route`
   * is the battle route's server instance, working on the same database.
   */
  class Arena {
    const myCharacter: CharacterDoc
    const userId: string
    const db: Db
    const route: BattleRoute.BattleHandler
    var battleState: BattleState
    var result: Option<Outcome>
    var reasoning: string
    var pointsChange: int
    var opponent: Option<CharacterDoc>
    var newRank: int
    var myImageSrc: string
    var cooldownMs: int

    constructor (myCharacter: CharacterDoc, userId: string, db: Db, route: BattleRoute.BattleHandler)
      ensures this.myCharacter == myCharacter && this.userId == userId && this.db == db && this.route == route
      ensures battleState == Ready && result.None? && reasoning == "" && pointsChange == 0
      ensures opponent.None? && newRank == myCharacter.rank && myImageSrc == myCharacter.imageUrl && cooldownMs == 0
    {
      this.myCharacter := myCharacter;
      this.userId := userId;
      this.db := db;
      this.route := route;
      battleState := Ready;
      result := None;
      reasoning := "";
      pointsChange := 0;
      opponent := None;
      newRank := myCharacter.rank;
      myImageSrc := myCharacter.imageUrl;
      cooldownMs := 0;
    }

    function CurrentView(): View
      reads this
    {
      View(battleState, result, reasoning, pointsChange, opponent, newRank, cooldownMs)
    }

    /** Lines 52-73: resolve the image shown for the player. */
    method LoadImage(download: string -> Option<string>)
      modifies this
      ensures myImageSrc == DisplayImage(myCharacter.imageUrl, download)
      ensures CurrentView() == old(CurrentView())
    {
      var ref := myCharacter.imageUrl;
      if StartsWith(ref, "data:") {
        myImageSrc := ref;
        return;
      }
      if IsHttpUrl(ref) {
        myImageSrc := ref;
        return;
      }
      var url := download(ref);
      if url.Some? {
        myImageSrc := url.value;
      } else {
        myImageSrc := "";
      }
    }

    /** Lines 77-109: the countdown from the stored `lastBattleAt`; a failed read changes nothing. */
    method LoadCooldown(lastRead: Option<Option<int>>, now: int)
      modifies this
      ensures cooldownMs == match lastRead
        case None => old(cooldownMs)
        case Some(None) => 0
        case Some(Some(last)) => Countdown(last + ArenaCooldownMs, now)
      ensures cooldownMs >= 0 || lastRead.None?
      ensures battleState == old(battleState) && opponent == old(opponent) && myImageSrc == old(myImageSrc)
      ensures result == old(result) && reasoning == old(reasoning) && pointsChange == old(pointsChange)
      ensures newRank == old(newRank)
    {
      if lastRead.Some? {
        if lastRead.value.Some? {
          var until := lastRead.value.value + ArenaCooldownMs;
          cooldownMs := BattleRoute.Max(0, until - now);
        } else {
          cooldownMs := 0;
        }
      }
    }

    /** One tick of the 250 ms interval. */
    method Tick(until: int, now: int)
      modifies this
      ensures cooldownMs == Countdown(until, now) && cooldownMs >= 0
      ensures StartEnabled(CurrentView()) <==> battleState == Ready && now >= until
      ensures battleState == old(battleState) && opponent == old(opponent) && myImageSrc == old(myImageSrc)
      ensures result == old(result) && reasoning == old(reasoning) && pointsChange == old(pointsChange)
      ensures newRank == old(newRank)
    {
      cooldownMs := BattleRoute.Max(0, until - now);
    }

    /** Lines 115-266, step by step; `visited` lists the states set on the way. */
    method StartBattle(env: ArenaEnv) returns (visited: seq<BattleState>, sent: Option<ClientRequest>)
      requires ValidEnv(env)
      requires route.db == db
      modifies this, db, route
      ensures var r := Start(old(CurrentView()), old(route.lastBattleAt), old(db.characters), old(db.battles),
                             myCharacter, userId, myImageSrc, env);
        && CurrentView() == r.view && route.lastBattleAt == r.routeLast
        && db.characters == r.characters && db.battles == r.battles
        && visited == r.visited && sent == r.sent
      ensures myImageSrc == old(myImageSrc)
      ensures db.users == old(db.users) && db.reports == old(db.reports) && db.objects == old(db.objects)
    {
      ghost var v0 := CurrentView();
      visited, sent := [], None;
      var check := CheckBeforeStart(env.lastRead, env.now);
      if check.Blocked? {
        cooldownMs := check.remain;
        return;
      }
      battleState := Matching;
      visited := visited + [Matching];

      var others := if env.top.Some? then Opponents(env.top.value, userId, myCharacter.id) else [];
      if others == [] {
        battleState := Ready;
        visited := visited + [Ready];
        return;
      }
      var picked := others[PickIndex(|others|, env.rnd)];
      assert Pick(myCharacter, userId, env) == Some(picked);
      StartSettles(v0, route.lastBattleAt, db.characters, db.battles, myCharacter, userId, myImageSrc, env);
      ghost var req0 := RequestTo(myCharacter, myImageSrc, picked, env);
      ghost var post := Route(route.lastBattleAt, db.characters, db.battles, req0, env);
      SettleIgnoresState(v0.(opponent := Some(picked)), Matching, post.lastBattleAt, post.characters, post.battles,
                         myCharacter.id, picked, req0, ReplyOf(post.resp), env);
      assert CurrentView().(opponent := Some(picked)) == v0.(opponent := Some(picked)).(battleState := Matching);
      visited := visited + [Battling];
      var req := Engage(picked, env);
      sent := Some(req);
      visited := visited + [battleState];
    }

    /** Lines 152-182: show the picked opponent, post the request to the route and settle on its answer. */
    method Engage(picked: CharacterDoc, env: ArenaEnv) returns (req: ClientRequest)
      requires ValidEnv(env)
      requires route.db == db
      modifies this, db, route
      ensures req == RequestTo(myCharacter, old(myImageSrc), picked, env)
      ensures var post := Route(old(route.lastBattleAt), old(db.characters), old(db.battles), req, env);
        var r := Settle(old(CurrentView()).(opponent := Some(picked)), post.lastBattleAt, post.characters,
                        post.battles, myCharacter.id, picked, req, ReplyOf(post.resp), env);
        && CurrentView() == r.view && route.lastBattleAt == r.routeLast
        && db.characters == r.characters && db.battles == r.battles
        && r.visited == [Matching, Battling, battleState]
      ensures myImageSrc == old(myImageSrc)
      ensures db.users == old(db.users) && db.reports == old(db.reports) && db.objects == old(db.objects)
    {
      ghost var v1 := CurrentView().(opponent := Some(picked));
      opponent := Some(picked);
      battleState := Battling;
      req := RequestTo(myCharacter, myImageSrc, picked, env);
      var resp := route.Post(Some(RouteBody(req)), env.routeNow, env.judge, env.backend, env.routeBattleId,
                             env.routeServerTime);
      ghost var post := BattleRoute.PostResult(resp, route.lastBattleAt, db.characters, db.battles);
      SettleIgnoresState(v1, Battling, post.lastBattleAt, post.characters, post.battles, myCharacter.id, picked,
                         req, ReplyOf(resp), env);
      assert CurrentView() == v1.(battleState := Battling);
      Conclude(picked, req, ReplyOf(resp), env);
    }

    /**
     * Lines 184-265: settle the battle against `picked` once the route
     * answered, reading both documents from the database as it is now.
     */
    method Conclude(picked: CharacterDoc, req: ClientRequest, reply: ServerReply, env: ArenaEnv)
      modifies this, db
      ensures var r := Settle(old(CurrentView()), route.lastBattleAt, old(db.characters), old(db.battles),
                              myCharacter.id, picked, req, reply, env);
        && CurrentView() == r.view && db.characters == r.characters && db.battles == r.battles
        && r.visited == [Matching, Battling, battleState]
      ensures myImageSrc == old(myImageSrc)
      ensures db.users == old(db.users) && db.reports == old(db.reports) && db.objects == old(db.objects)
    {
      if reply.NotOk? || myCharacter.id !in db.characters || picked.id !in db.characters
         || env.writes.PlayerWriteFails? {
        battleState := Ready;
        return;
      }
      var battleResult := reply.result;
      var delta := reply.pointsChange;
      var player := db.characters[myCharacter.id];
      var opp := db.characters[picked.id];
      var updated := PlayerAfter(player, battleResult, delta, env.serverTime);
      var oppNewRank := BattleRoute.Max(1, opp.rank - delta);
      db.characters := db.characters[myCharacter.id := updated];
      if env.writes.RecordWriteFails? || battleResult == Undefined {
        battleState := Ready;
        return;
      }
      db.battles := db.battles[env.battleId := BattleRecord(env.battleId, myCharacter.id, picked.id, battleResult,
                                                           reply.reasoning, delta, player.rank, updated.rank,
                                                           opp.rank, oppNewRank, env.clientTime)];
      Show(View(Finished, Some(battleResult), reply.reasoning, delta,
                Some(OpponentView(picked, opp, battleResult, delta)), updated.rank, ArenaCooldownMs));
    }

    /** The state setters of lines 245-257, applied together. */
    method Show(v: View)
      modifies this
      ensures CurrentView() == v && myImageSrc == old(myImageSrc)
    {
      result := v.result;
      reasoning := v.reasoning;
      pointsChange := v.pointsChange;
      newRank := v.newRank;
      opponent := v.opponent;
      cooldownMs := v.cooldownMs;
      battleState := v.battleState;
    }
  }
}
