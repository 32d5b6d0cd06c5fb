/**
 * The documents the routes read and write, and an in-memory stand-in for the
 * document database and the object storage bucket.
 */
module Store {
  import opened Wrappers

  /**
   * A battle outcome from the requesting ("player") side. `Other` is any
   * other value a judge reply may carry in `result` (another string, a
   * number, null); `Undefined` is a reply without a `result` field.
   */
  datatype Outcome = Win | Loss | Draw | Other | Undefined

  predicate IsDecided(o: Outcome) {
    o == Win || o == Loss || o == Draw
  }

  /**
   * A document of the "characters" collection, as the create route writes
   * it: rank and the lifetime counters are always present, and documents
   * written any other way are not modelled. Weekly counters that were never
   * written read as 0.
   */
  datatype CharacterDoc = CharacterDoc(
    id: string, name: string, userId: string, imageUrl: string,
    storagePath: Option<string>,
    rank: int, wins: int, losses: int, draws: int, totalBattles: int, winRate: real,
    createdAt: Option<int>, updatedAt: Option<int>, lastBattleAt: Option<int>,
    weeklyKey: Option<string>, weeklyPoints: int, weeklyWins: int, weeklyLosses: int,
    weeklyDraws: int, weeklyTotalBattles: int, weeklyWinRate: real)

  /** A document of the "users" collection; only its character count is used. */
  datatype UserDoc = UserDoc(characterCount: int)

  /** A document of the "battles" collection: the ledger entry of one battle. */
  datatype BattleRecord = BattleRecord(
    id: string, characterId: string, opponentId: string, result: Outcome,
    reasoning: string, pointsChange: int,
    characterRankBefore: int, characterRankAfter: int,
    opponentRankBefore: int, opponentRankAfter: int, createdAt: int)

  /** A document of the "reports" collection. */
  datatype ReportRecord = ReportRecord(
    id: string, targetType: string, targetId: string, reason: string,
    details: Option<string>, reporterId: Option<string>, reporterIsAnonymous: Option<bool>,
    targetName: Option<string>, targetUserId: Option<string>,
    targetImageUrl: Option<string>, targetStoragePath: Option<string>,
    createdAt: int, status: string)

  /** The lifetime counters agree with each other. */
  predicate CountersAgree(c: CharacterDoc) {
    c.wins + c.losses + c.draws == c.totalBattles
  }

  /** The database collections and the storage bucket, updated in place by the routes. */
  class Db {
    var characters: map<string, CharacterDoc>
    var users: map<string, UserDoc>
    var battles: map<string, BattleRecord>
    var reports: map<string, ReportRecord>
    /** Paths of the objects in the storage bucket. */
    var objects: set<string>

    constructor (characters: map<string, CharacterDoc>, users: map<string, UserDoc>,
                 battles: map<string, BattleRecord>, reports: map<string, ReportRecord>,
                 objects: set<string>)
      ensures this.characters == characters && this.users == users && this.battles == battles
      ensures this.reports == reports && this.objects == objects
    {
      this.characters := characters;
      this.users := users;
      this.battles := battles;
      this.reports := reports;
      this.objects := objects;
    }
  }
}
