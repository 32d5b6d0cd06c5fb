/**
 * The battle route (app/api/battle/route.ts) around the judge: request
 * validation, the per-instance cooldown, the rating and counter update of
 * both characters, and the transaction that writes them with the ledger
 * entry.
 */
module BattleRoute {
  import opened Wrappers
  import opened Store
  import opened Judge

  const CooldownMs: int := 15000

  /** The only part of `player` / `opponent` the route's logic reads. */
  datatype Member = Member(id: Option<string>)

  /** The JSON request body. */
  datatype BattleRequest = BattleRequest(player: Option<Member>, opponent: Option<Member>)

  /** `m?.id` is truthy. */
  predicate HasId(m: Option<Member>) {
    m.Some? && m.value.id.Some? && m.value.id.value != ""
  }

  function Max(a: int, b: int): int {
    if a >= b then a else b
  }

  /** `Math.ceil(a / b)` for a positive divisor. */
  function CeilDiv(a: int, b: int): (q: int)
    requires b > 0
    ensures (q - 1) * b < a <= q * b
  {
    -((-a) / b)
  }

  // ---------------------------------------------------------------------------
  // Cooldown

  datatype Gate = Proceed | Wait(seconds: int)

  /** `lastBattleAtMap.get(key) ?? 0`. */
  function LastBattle(last: map<string, int>, key: string): int {
    if key in last then last[key] else 0
  }

  /**
   * Lines 17-23: a request less than 15 seconds after the last accepted one
   * for the same player waits for the remaining time, in whole seconds
   * rounded up.
   */
  function CheckCooldown(last: map<string, int>, key: string, now: int): (g: Gate)
    ensures g.Proceed? <==> now - LastBattle(last, key) >= CooldownMs
    ensures g.Wait? ==> (g.seconds - 1) * 1000 < CooldownMs - (now - LastBattle(last, key)) <= g.seconds * 1000
    ensures g.Wait? && now >= LastBattle(last, key) ==> 1 <= g.seconds <= 15
  {
    var elapsed := now - LastBattle(last, key);
    if elapsed < CooldownMs then Wait(CeilDiv(CooldownMs - elapsed, 1000)) else Proceed
  }

  /**
   * Once a request for a player is accepted at `t`, every request for the
   * same player before `t + 15000` waits, and the first one at or after it
   * is let through.
   */
  lemma CooldownAfterAccept(last: map<string, int>, key: string, t: int, t2: int)
    requires CheckCooldown(last, key, t).Proceed?
    ensures t <= t2 < t + CooldownMs ==> CheckCooldown(last[key := t], key, t2).Wait?
    ensures t2 >= t + CooldownMs ==> CheckCooldown(last[key := t], key, t2).Proceed?
    ensures forall k :: k != key ==> CheckCooldown(last[key := t], k, t2) == CheckCooldown(last, k, t2)
  {
  }

  // ---------------------------------------------------------------------------
  // Counters and rating

  /** What `computeStats` returns. */
  datatype Stats = Stats(rank: int, wins: int, losses: int, draws: int, totalBattles: int, winRate: real)

  /** `x || d` on a number. */
  function OrDefault(x: int, d: int): int {
    if x == 0 then d else x
  }

  function Indicator(b: bool): int {
    if b then 1 else 0
  }

  /** `total > 0 ? (wins / total) * 100 : 0`. */
  function WinRate(wins: int, total: int): (r: real)
    ensures 0 <= wins <= total ==> 0.0 <= r <= 100.0
  {
    if total > 0 then
      assert (wins as real) / (total as real) * (total as real) == wins as real;
      (wins as real) / (total as real) * 100.0
    else 0.0
  }

  /** The rank before the floor: `(rank || 1000) ± pointsChange`. */
  function RawRank(c: CharacterDoc, isPlayer: bool, delta: int): int {
    OrDefault(c.rank, 1000) + (if isPlayer then delta else -delta)
  }

  /** Lines 239-248, for the player (`isPlayer`) or the opponent side. */
  function ComputeStats(c: CharacterDoc, isPlayer: bool, result: Outcome, delta: int): Stats {
    var wins := c.wins + Indicator(result == if isPlayer then Win else Loss);
    var losses := c.losses + Indicator(result == if isPlayer then Loss else Win);
    var draws := c.draws + Indicator(result == Draw);
    var total := c.totalBattles + 1;
    Stats(Max(1, RawRank(c, isPlayer, delta)), wins, losses, draws, total, WinRate(wins, total))
  }

  /**
   * A decided battle adds exactly one to one of the three counters of each
   * side, the player's win being the opponent's loss and the other way
   * round; the counters keep agreeing with the total.
   */
  lemma StatsOfDecided(p: CharacterDoc, o: CharacterDoc, result: Outcome, delta: int)
    requires IsDecided(result)
    ensures var ps := ComputeStats(p, true, result, delta);
      var os := ComputeStats(o, false, result, delta);
      && ps.totalBattles == p.totalBattles + 1 && os.totalBattles == o.totalBattles + 1
      && (ps.wins - p.wins) == (os.losses - o.losses)
      && (ps.losses - p.losses) == (os.wins - o.wins)
      && (ps.draws - p.draws) == (os.draws - o.draws)
      && (ps.wins - p.wins) + (ps.losses - p.losses) + (ps.draws - p.draws) == 1
      && (CountersAgree(p) ==> ps.wins + ps.losses + ps.draws == ps.totalBattles)
      && (CountersAgree(o) ==> os.wins + os.losses + os.draws == os.totalBattles)
  {
  }

  /**
   * The judge's result is not checked: a result other than win, loss or
   * draw still counts a battle, so counters that agreed stop agreeing.
   */
  lemma StatsOfUndecided(c: CharacterDoc, isPlayer: bool, delta: int)
    requires CountersAgree(c)
    ensures var s := ComputeStats(c, isPlayer, Other, delta);
      s.wins + s.losses + s.draws == s.totalBattles - 1
  {
  }

  /**
   * Ranks never fall below 1; when neither side hits the floor the points
   * one side gains are the points the other loses.
   */
  lemma RankTransfer(p: CharacterDoc, o: CharacterDoc, result: Outcome, delta: int)
    ensures ComputeStats(p, true, result, delta).rank >= 1
    ensures ComputeStats(o, false, result, delta).rank >= 1
    ensures RawRank(p, true, delta) >= 1 && RawRank(o, false, delta) >= 1 ==>
      ComputeStats(p, true, result, delta).rank + ComputeStats(o, false, result, delta).rank
        == OrDefault(p.rank, 1000) + OrDefault(o.rank, 1000)
    ensures ComputeStats(p, true, result, delta).rank == Max(1, OrDefault(p.rank, 1000) + delta)
  {
  }

  /** A rank of 0 reads as the starting rank 1000. */
  lemma ZeroRankIsFresh(c: CharacterDoc, result: Outcome, delta: int)
    requires c.rank == 0
    ensures ComputeStats(c, true, result, delta).rank == Max(1, 1000 + delta)
  {
  }

  // ---------------------------------------------------------------------------
  // The transaction

  /** The document fields the transaction updates. */
  function WithStats(c: CharacterDoc, s: Stats, serverTime: int): CharacterDoc {
    c.(rank := s.rank, wins := s.wins, losses := s.losses, draws := s.draws,
       totalBattles := s.totalBattles, winRate := s.winRate,
       updatedAt := Some(serverTime), lastBattleAt := Some(serverTime))
  }

  datatype Staged =
    | Missing
    | Staged(characters: map<string, CharacterDoc>, record: BattleRecord, player: Stats, opponent: Stats)

  /** Lines 269-318: the writes the transaction stages, or Missing when either document is absent. */
  function Stage(chars: map<string, CharacterDoc>, pid: string, oid: string, v: Verdict,
                 battleId: string, serverTime: int): Staged
  {
    if pid !in chars || oid !in chars then Missing
    else
      var p := chars[pid];
      var o := chars[oid];
      var ps := ComputeStats(p, true, v.result, v.pointsChange);
      var os := ComputeStats(o, false, v.result, v.pointsChange);
      var rec := BattleRecord(battleId, pid, oid, v.result, v.reasoning, v.pointsChange,
                              p.rank, ps.rank, o.rank, os.rank, serverTime);
      Staged(chars[pid := WithStats(p, ps, serverTime)][oid := WithStats(o, os, serverTime)], rec, ps, os)
  }

  /**
   * The staged writes touch the two characters and nothing else; the
   * ledger entry records the ranks before and after the update; when the
   * player battles itself, the opponent's update (written second) wins.
   */
  lemma StageWrites(chars: map<string, CharacterDoc>, pid: string, oid: string, v: Verdict,
                    battleId: string, serverTime: int)
    ensures var s := Stage(chars, pid, oid, v, battleId, serverTime);
      && (s.Missing? <==> pid !in chars || oid !in chars)
      && (s.Staged? ==>
            && s.characters.Keys == chars.Keys
            && (forall k :: k in chars && k != pid && k != oid ==> s.characters[k] == chars[k])
            && s.characters[oid].rank == s.opponent.rank
            && (pid != oid ==> s.characters[pid].rank == s.player.rank)
            && s.characters[oid].lastBattleAt == Some(serverTime)
            && s.record.id == battleId && s.record.characterId == pid && s.record.opponentId == oid
            && s.record.result == v.result && s.record.pointsChange == v.pointsChange
            && s.record.characterRankBefore == chars[pid].rank && s.record.characterRankAfter == s.player.rank
            && s.record.opponentRankBefore == chars[oid].rank && s.record.opponentRankAfter == s.opponent.rank
            && s.characters[pid].name == chars[pid].name && s.characters[pid].userId == chars[pid].userId)
  {
  }

  // ---------------------------------------------------------------------------
  // The route

  /**
   * Line 309: the ledger entry stores `result` as it is, and the admin SDK
   * refuses an `undefined` field value (no file sets
   * `ignoreUndefinedProperties`), so `tx.set` throws inside the transaction
   * for a verdict without a result. Every other field of the entry is defined.
   */
  predicate RecordStorable(v: Verdict) {
    v.result != Undefined
  }

  /** The database as the route finds it: no admin credentials, or a transaction that fails or commits. */
  datatype Backend = Unavailable | CommitFails | Commits

  datatype BattleResponse =
    | BadRequest
    | TooManyRequests(seconds: int)
    | Success(result: Outcome, reasoning: string, pointsChange: int, persisted: bool,
              updatedPlayer: Option<Stats>, updatedOpponent: Option<Stats>)
    | InternalError

  datatype PostResult = PostResult(resp: BattleResponse, lastBattleAt: map<string, int>,
                                   characters: map<string, CharacterDoc>, battles: map<string, BattleRecord>)

  /** What one POST answers and leaves behind; `req` is None when the body is not JSON. */
  function PostSpec(last: map<string, int>, chars: map<string, CharacterDoc>, battles: map<string, BattleRecord>,
                    req: Option<BattleRequest>, now: int, judge: JudgeInputs, backend: Backend,
                    battleId: string, serverTime: int): PostResult
    requires ValidRandom(judge)
  {
    if req.None? then PostResult(InternalError, last, chars, battles)
    else if !HasId(req.value.player) || !HasId(req.value.opponent) then PostResult(BadRequest, last, chars, battles)
    else
      var pid := req.value.player.value.id.value;
      var oid := req.value.opponent.value.id.value;
      match CheckCooldown(last, pid, now)
      case Wait(s) => PostResult(TooManyRequests(s), last, chars, battles)
      case Proceed =>
        var v := JudgeSpec(judge);
        var staged := if backend.Unavailable? then Missing else Stage(chars, pid, oid, v, battleId, serverTime);
        var commit := staged.Staged? && backend.Commits? && RecordStorable(v);
        PostResult(
          Success(v.result, v.reasoning, v.pointsChange, commit,
                  if staged.Staged? then Some(staged.player) else None,
                  if staged.Staged? then Some(staged.opponent) else None),
          last[pid := now],
          if commit then staged.characters else chars,
          if commit then battles[battleId := staged.record] else battles)
  }

  /** A request without both ids is refused and changes nothing. */
  lemma PostRejectsMissingIds(last: map<string, int>, chars: map<string, CharacterDoc>, battles: map<string, BattleRecord>,
                              req: BattleRequest, now: int, judge: JudgeInputs, backend: Backend,
                              battleId: string, serverTime: int)
    requires ValidRandom(judge)
    requires !HasId(req.player) || !HasId(req.opponent)
    ensures PostSpec(last, chars, battles, Some(req), now, judge, backend, battleId, serverTime)
            == PostResult(BadRequest, last, chars, battles)
  {
  }

  /**
   * A battle is persisted exactly when the transaction commits with both
   * characters present and a verdict that has a result; only then do the characters and the ledger change,
   * and the ledger gains exactly the record of this battle. The response
   * carries the judge's verdict whenever the request passed the cooldown.
   */
  lemma PostPersistence(last: map<string, int>, chars: map<string, CharacterDoc>, battles: map<string, BattleRecord>,
                        req: BattleRequest, now: int, judge: JudgeInputs, backend: Backend,
                        battleId: string, serverTime: int)
    requires ValidRandom(judge)
    requires HasId(req.player) && HasId(req.opponent)
    requires CheckCooldown(last, req.player.value.id.value, now).Proceed?
    ensures var pid := req.player.value.id.value;
      var oid := req.opponent.value.id.value;
      var r := PostSpec(last, chars, battles, Some(req), now, judge, backend, battleId, serverTime);
      && r.resp.Success?
      && r.resp.result == JudgeSpec(judge).result && r.resp.pointsChange == JudgeSpec(judge).pointsChange
      && r.lastBattleAt == last[pid := now]
      && (r.resp.persisted <==> backend.Commits? && pid in chars && oid in chars && JudgeSpec(judge).result != Undefined)
      && (r.resp.persisted ==>
            (r.battles == battles[battleId := r.battles[battleId]]
             && r.battles[battleId].characterId == pid
             && r.battles[battleId].opponentId == oid))
      && (!r.resp.persisted ==> r.characters == chars && r.battles == battles)
      && (r.resp.persisted ==>
            && r.characters.Keys == chars.Keys
            && (forall k :: k in chars && k != pid && k != oid ==> r.characters[k] == chars[k]))
      && (r.resp.updatedPlayer.Some? <==> !backend.Unavailable? && pid in chars && oid in chars)
  {
  }

  /**
   * What a successful POST did to the player's document, for two distinct
   * ids: a persisted battle stored `computeStats` of the stored player and a
   * ledger entry ending at that rank; an unpersisted one changed nothing.
   */
  lemma PostPlayerUpdate(last: map<string, int>, chars: map<string, CharacterDoc>, battles: map<string, BattleRecord>,
                         req: BattleRequest, now: int, judge: JudgeInputs, backend: Backend,
                         battleId: string, serverTime: int)
    requires ValidRandom(judge)
    requires HasId(req.player) && HasId(req.opponent)
    requires req.player.value.id.value in chars && req.player.value.id.value != req.opponent.value.id.value
    ensures var r := PostSpec(last, chars, battles, Some(req), now, judge, backend, battleId, serverTime);
      var v := JudgeSpec(judge);
      var p := chars[req.player.value.id.value];
      var ps := ComputeStats(p, true, v.result, v.pointsChange);
      r.resp.Success? ==>
        && r.resp.pointsChange == v.pointsChange && r.resp.result == v.result
        && (r.resp.persisted ==>
              && req.player.value.id.value in r.characters
              && r.characters[req.player.value.id.value] == WithStats(p, ps, serverTime)
              && battleId in r.battles && r.battles[battleId].characterRankAfter == ps.rank)
        && (!r.resp.persisted ==> r.characters == chars && r.battles == battles)
  {
    var pid := req.player.value.id.value;
    var oid := req.opponent.value.id.value;
    var r := PostSpec(last, chars, battles, Some(req), now, judge, backend, battleId, serverTime);
    if r.resp.Success? {
      assert CheckCooldown(last, pid, now).Proceed?;
      var v := JudgeSpec(judge);
      if r.resp.persisted {
        var staged := Stage(chars, pid, oid, v, battleId, serverTime);
        assert staged.Staged? && r.characters == staged.characters && r.battles == battles[battleId := staged.record];
        assert staged.characters[pid] == WithStats(chars[pid], staged.player, serverTime);
      }
    }
  }

  /** A second battle for the same player within 15 seconds of an accepted one is refused and changes nothing. */
  lemma PostCooldown(last: map<string, int>, chars: map<string, CharacterDoc>, battles: map<string, BattleRecord>,
                     req: BattleRequest, now: int, judge: JudgeInputs, backend: Backend,
                     battleId: string, serverTime: int,
                     req2: BattleRequest, now2: int, judge2: JudgeInputs, backend2: Backend,
                     battleId2: string, serverTime2: int)
    requires ValidRandom(judge) && ValidRandom(judge2)
    requires HasId(req.player) && HasId(req.opponent) && HasId(req2.player) && HasId(req2.opponent)
    requires req2.player.value.id == req.player.value.id
    requires CheckCooldown(last, req.player.value.id.value, now).Proceed?
    requires now <= now2 < now + CooldownMs
    ensures var r := PostSpec(last, chars, battles, Some(req), now, judge, backend, battleId, serverTime);
      var r2 := PostSpec(r.lastBattleAt, r.characters, r.battles, Some(req2), now2, judge2, backend2, battleId2, serverTime2);
      && r2.resp.TooManyRequests? && 1 <= r2.resp.seconds <= 15
      && r2.lastBattleAt == r.lastBattleAt && r2.characters == r.characters && r2.battles == r.battles
  {
    CooldownAfterAccept(last, req.player.value.id.value, now, now2);
  }

  /**
   * Illustration only, covered for all inputs by `RankTransfer` and
   * `StatsOfDecided`: two fresh characters at 1000 after a judged win worth
   * 20 points stand at 1020 and 980.
   */
  lemma FreshWinExample(p: CharacterDoc, o: CharacterDoc)
    requires p.rank == 1000 && o.rank == 1000
    ensures ComputeStats(p, true, Win, 20).rank == 1020
    ensures ComputeStats(o, false, Win, 20).rank == 980
    ensures ComputeStats(p, true, Win, 20).wins == p.wins + 1
    ensures ComputeStats(o, false, Win, 20).losses == o.losses + 1
  {
  }

  /** The route with its per-instance cooldown map and the database it writes. */
  class BattleHandler {
    var lastBattleAt: map<string, int>
    const db: Db

    constructor (db: Db)
      ensures this.db == db && lastBattleAt == map[]
    {
      this.db := db;
      lastBattleAt := map[];
    }

    method Post(req: Option<BattleRequest>, now: int, judge: JudgeInputs, backend: Backend,
                battleId: string, serverTime: int) returns (resp: BattleResponse)
      requires ValidRandom(judge)
      modifies this, db
      ensures var r := PostSpec(old(lastBattleAt), old(db.characters), old(db.battles), req, now, judge,
                                backend, battleId, serverTime);
        && resp == r.resp && lastBattleAt == r.lastBattleAt
        && db.characters == r.characters && db.battles == r.battles
      ensures db.users == old(db.users) && db.reports == old(db.reports) && db.objects == old(db.objects)
    {
      if req.None? {
        return InternalError;
      }
      if !HasId(req.value.player) || !HasId(req.value.opponent) {
        return BadRequest;
      }
      var pid := req.value.player.value.id.value;
      var oid := req.value.opponent.value.id.value;
      var last := if pid in lastBattleAt then lastBattleAt[pid] else 0;
      if now - last < CooldownMs {
        return TooManyRequests(CeilDiv(CooldownMs - (now - last), 1000));
      }
      lastBattleAt := lastBattleAt[pid := now];

      var v := Decide(judge);
      var persisted, updatedPlayer, updatedOpponent := Persist(pid, oid, v, backend, battleId, serverTime);
      resp := Success(v.result, v.reasoning, v.pointsChange, persisted, updatedPlayer, updatedOpponent);
    }

    /** Lines 251-325: the transaction that writes both characters and the ledger entry, if the backend is there. */
    method Persist(pid: string, oid: string, v: Verdict, backend: Backend, battleId: string, serverTime: int)
      returns (persisted: bool, updatedPlayer: Option<Stats>, updatedOpponent: Option<Stats>)
      modifies db
      ensures var staged := if backend.Unavailable? then Missing
                            else Stage(old(db.characters), pid, oid, v, battleId, serverTime);
        var commit := staged.Staged? && backend.Commits? && RecordStorable(v);
        && persisted == commit
        && updatedPlayer == (if staged.Staged? then Some(staged.player) else None)
        && updatedOpponent == (if staged.Staged? then Some(staged.opponent) else None)
        && db.characters == (if commit then staged.characters else old(db.characters))
        && db.battles == (if commit then old(db.battles)[battleId := staged.record] else old(db.battles))
      ensures db.users == old(db.users) && db.reports == old(db.reports) && db.objects == old(db.objects)
    {
      persisted, updatedPlayer, updatedOpponent := false, None, None;
      if !backend.Unavailable? {
        var staged := Stage(db.characters, pid, oid, v, battleId, serverTime);
        if staged.Staged? {
          updatedPlayer := Some(staged.player);
          updatedOpponent := Some(staged.opponent);
          if backend.Commits? && RecordStorable(v) {
            db.characters := staged.characters;
            db.battles := db.battles[battleId := staged.record];
            persisted := true;
          }
        }
      }
    }
  }
}
