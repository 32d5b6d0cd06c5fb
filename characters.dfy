/**
 * The character routes: `POST /api/characters/create` checks the request,
 * the caller and the owner's character count, writes a fresh character and
 * raises the count; `DELETE /api/characters/delete` checks ownership,
 * removes the image, the document and lowers the count. Each database call
 * is a separate write, so a later one can fail after an earlier succeeded.
 */
module Characters {
  import opened Wrappers
  import opened Store

  /** The most characters one user may own. */
  const MaxCharacters := 3

  /** The JSON body of a create request; a required field that is absent is the empty string. */
  datatype CreateRequest = CreateRequest(characterId: string, characterName: string, userId: string,
                                         imageUrl: Option<string>)

  /**
   * Which database call of a create throws, if any: the read of the user
   * document, the character write or the count update. Each sends the route
   * to its catch-all 500 with the earlier calls' effects kept.
   */
  datatype CreateWrites = CreateCommits | UserReadFails | CharacterWriteFails | CountWriteFails

  datatype CreateResponse =
    | CreateMissingFields   // 400
    | Unauthorized          // 401
    | UserNotFound          // 404
    | TooManyCharacters     // 400 "Maximum 3 characters allowed"
    | Created(characterId: string)
    | CreateFailed          // 500

  /** `` `characters/${userId}/${imageUrl}` ``, where an absent image name prints as "undefined". */
  function StoredImageUrl(userId: string, imageUrl: Option<string>): string {
    "characters/" + userId + "/" + imageUrl.GetOr("undefined")
  }

  /** The document a create writes: rank 1000, no battles yet, created and updated at `now`. */
  function NewCharacter(req: CreateRequest, now: int): (c: CharacterDoc)
    ensures c.id == req.characterId && c.name == req.characterName && c.userId == req.userId
    ensures c.rank == 1000 && c.totalBattles == 0 && c.winRate == 0.0
    ensures CountersAgree(c)
  {
    CharacterDoc(req.characterId, req.characterName, req.userId, StoredImageUrl(req.userId, req.imageUrl),
                 None, 1000, 0, 0, 0, 0, 0.0, Some(now), Some(now), None,
                 None, 0, 0, 0, 0, 0, 0.0)
  }

  datatype CreateResult = CreateResult(resp: CreateResponse, characters: map<string, CharacterDoc>,
                                       users: map<string, UserDoc>)

  /** What one create answers and leaves behind; `req` is None when the body is not JSON. */
  function CreateSpec(chars: map<string, CharacterDoc>, users: map<string, UserDoc>, req: Option<CreateRequest>,
                      authorization: Option<string>, now: int, writes: CreateWrites): CreateResult
  {
    if req.None? then CreateResult(CreateFailed, chars, users)
    else
      var q := req.value;
      if q.characterId == [] || q.characterName == [] || q.userId == [] then CreateResult(CreateMissingFields, chars, users)
      else if authorization.None? || authorization.value == [] then CreateResult(Unauthorized, chars, users)
      else if writes == UserReadFails then CreateResult(CreateFailed, chars, users)
      else if q.userId !in users then CreateResult(UserNotFound, chars, users)
      else
        var count := users[q.userId].characterCount;
        if count >= MaxCharacters then CreateResult(TooManyCharacters, chars, users)
        else if writes == CharacterWriteFails then CreateResult(CreateFailed, chars, users)
        else if writes == CountWriteFails then CreateResult(CreateFailed, chars[q.characterId := NewCharacter(q, now)], users)
        else
          CreateResult(Created(q.characterId), chars[q.characterId := NewCharacter(q, now)],
                       users[q.userId := UserDoc(count + 1)])
  }

  /** Every user owns between 0 and 3 characters by the stored count. */
  predicate CountsInRange(users: map<string, UserDoc>) {
    forall u :: u in users ==> 0 <= users[u].characterCount <= MaxCharacters
  }

  /**
   * A refused create (missing fields, no authorization header, unknown user,
   * full account) writes nothing, and neither does one whose read of the user
   * document throws.
   */
  lemma CreateRefusals(chars: map<string, CharacterDoc>, users: map<string, UserDoc>, req: CreateRequest,
                       authorization: Option<string>, now: int, writes: CreateWrites)
    ensures var r := CreateSpec(chars, users, Some(req), authorization, now, writes);
      (r.resp.CreateMissingFields? || r.resp.Unauthorized? || r.resp.UserNotFound? || r.resp.TooManyCharacters?)
      ==> r.characters == chars && r.users == users
    ensures req.characterId == [] || req.characterName == [] || req.userId == [] ==>
      CreateSpec(chars, users, Some(req), authorization, now, writes).resp == CreateMissingFields
    ensures req.characterId != [] && req.characterName != [] && req.userId != [] && (authorization.None? || authorization.value == []) ==>
      CreateSpec(chars, users, Some(req), authorization, now, writes).resp == Unauthorized
    ensures req.characterId != [] && req.characterName != [] && req.userId != [] && authorization.Some? && authorization.value != [] ==>
      var r := CreateSpec(chars, users, Some(req), authorization, now, writes);
      && (writes == UserReadFails ==> r == CreateResult(CreateFailed, chars, users))
      && (writes != UserReadFails && req.userId !in users ==> r.resp == UserNotFound)
      && (writes != UserReadFails && req.userId in users && users[req.userId].characterCount >= MaxCharacters ==>
            r.resp == TooManyCharacters)
  {
  }

  /**
   * A successful create stores exactly the new character under its id, with
   * the prefixed image path, and raises its owner's count by one to at most
   * 3; every other document is unchanged.
   */
  lemma CreateSuccess(chars: map<string, CharacterDoc>, users: map<string, UserDoc>, req: CreateRequest,
                      authorization: Option<string>, now: int, writes: CreateWrites)
    ensures var r := CreateSpec(chars, users, Some(req), authorization, now, writes);
      r.resp.Created? ==>
        && writes == CreateCommits
        && req.userId in users
        && r.characters == chars[req.characterId := NewCharacter(req, now)]
        && r.characters[req.characterId].imageUrl == "characters/" + req.userId + "/" + req.imageUrl.GetOr("undefined")
        && r.users == users[req.userId := UserDoc(users[req.userId].characterCount + 1)]
        && r.users[req.userId].characterCount <= MaxCharacters
  {
  }

  /** Creates keep every count between 0 and 3, whether they succeed, are refused or fail part-way. */
  lemma CreateKeepsCountsInRange(chars: map<string, CharacterDoc>, users: map<string, UserDoc>, req: Option<CreateRequest>,
                                 authorization: Option<string>, now: int, writes: CreateWrites)
    requires CountsInRange(users)
    ensures CountsInRange(CreateSpec(chars, users, req, authorization, now, writes).users)
  {
  }

  /** A create whose count update fails leaves the new character stored without counting it. */
  lemma CreateCountWriteFails(chars: map<string, CharacterDoc>, users: map<string, UserDoc>, req: CreateRequest,
                              authorization: Option<string>, now: int)
    requires req.characterId != [] && req.characterName != [] && req.userId != []
    requires authorization.Some? && authorization.value != []
    requires req.userId in users && users[req.userId].characterCount < MaxCharacters
    ensures var r := CreateSpec(chars, users, Some(req), authorization, now, CountWriteFails);
      r.resp == CreateFailed && req.characterId in r.characters && r.users == users
  {
  }

  /** `POST /api/characters/create`. */
  method Create(db: Db, req: Option<CreateRequest>, authorization: Option<string>, now: int, writes: CreateWrites)
    returns (resp: CreateResponse)
    modifies db
    ensures var r := CreateSpec(old(db.characters), old(db.users), req, authorization, now, writes);
      resp == r.resp && db.characters == r.characters && db.users == r.users
    ensures db.battles == old(db.battles) && db.reports == old(db.reports) && db.objects == old(db.objects)
  {
    if req.None? {
      return CreateFailed;
    }
    var q := req.value;
    if q.characterId == [] || q.characterName == [] || q.userId == [] {
      return CreateMissingFields;
    }
    if authorization.None? || authorization.value == [] {
      return Unauthorized;
    }
    if writes == UserReadFails {
      return CreateFailed;
    }
    if q.userId !in db.users {
      return UserNotFound;
    }
    var characterCount := db.users[q.userId].characterCount;
    if characterCount >= MaxCharacters {
      return TooManyCharacters;
    }
    var characterData := NewCharacter(q, now);
    if writes == CharacterWriteFails {
      return CreateFailed;
    }
    db.characters := db.characters[q.characterId := characterData];
    if writes == CountWriteFails {
      return CreateFailed;
    }
    db.users := db.users[q.userId := UserDoc(characterCount + 1)];
    return Created(q.characterId);
  }

  // ---------------------------------------------------------------------------
  // Delete

  datatype DeleteRequest = DeleteRequest(characterId: string, userId: string)

  /**
   * Which database calls of a delete throw, in the route's order: the read of
   * the character, the storage deletion (whose failure the route ignores), the
   * document deletion, the read of the user and the count update. The first
   * that throws, other than the storage deletion, ends the route in a 500.
   */
  datatype DeleteWrites = DeleteWrites(characterReadFails: bool, storageFails: bool, docDeleteFails: bool,
                                       userReadFails: bool, countWriteFails: bool)

  datatype DeleteResponse =
    | DeleteMissingIds      // 400
    | CharacterNotFound     // 404
    | Forbidden             // 403
    | Deleted
    | DeleteFailed          // 500

  /** The storage object of a character's image. */
  function ImagePath(userId: string, characterId: string): string {
    "characters/" + userId + "/" + characterId + ".png"
  }

  /** `Math.max(0, count - 1)`. */
  function Decremented(count: int): (r: int)
    ensures r >= 0
    ensures count >= 1 ==> r == count - 1
    ensures count < 1 ==> r == 0
  {
    if count - 1 < 0 then 0 else count - 1
  }

  datatype DeleteResult = DeleteResult(resp: DeleteResponse, characters: map<string, CharacterDoc>,
                                       users: map<string, UserDoc>, objects: set<string>)

  /** What one delete answers and leaves behind; `req` is None when the body is not JSON. */
  function DeleteSpec(chars: map<string, CharacterDoc>, users: map<string, UserDoc>, objects: set<string>,
                      req: Option<DeleteRequest>, writes: DeleteWrites): DeleteResult
  {
    if req.None? then DeleteResult(DeleteFailed, chars, users, objects)
    else
      var q := req.value;
      if q.characterId == [] || q.userId == [] then DeleteResult(DeleteMissingIds, chars, users, objects)
      else if writes.characterReadFails then DeleteResult(DeleteFailed, chars, users, objects)
      else if q.characterId !in chars then DeleteResult(CharacterNotFound, chars, users, objects)
      else if chars[q.characterId].userId != q.userId then DeleteResult(Forbidden, chars, users, objects)
      else
        var objects' := if writes.storageFails then objects else objects - {ImagePath(q.userId, q.characterId)};
        if writes.docDeleteFails then DeleteResult(DeleteFailed, chars, users, objects')
        else
          var chars' := chars - {q.characterId};
          if writes.userReadFails then DeleteResult(DeleteFailed, chars', users, objects')
          else if q.userId !in users then DeleteResult(Deleted, chars', users, objects')
          else if writes.countWriteFails then DeleteResult(DeleteFailed, chars', users, objects')
          else DeleteResult(Deleted, chars', users[q.userId := UserDoc(Decremented(users[q.userId].characterCount))], objects')
  }

  /**
   * A delete with a missing id, of an unknown character or by someone other
   * than its owner changes nothing, and neither does one whose read of the
   * character throws.
   */
  lemma DeleteRefusals(chars: map<string, CharacterDoc>, users: map<string, UserDoc>, objects: set<string>,
                       req: DeleteRequest, writes: DeleteWrites)
    ensures var r := DeleteSpec(chars, users, objects, Some(req), writes);
      && (r.resp.DeleteMissingIds? <==> req.characterId == [] || req.userId == [])
      && (r.resp.CharacterNotFound? <==> req.characterId != [] && req.userId != [] && !writes.characterReadFails
                                         && req.characterId !in chars)
      && (r.resp.Forbidden? <==> req.characterId != [] && req.userId != [] && !writes.characterReadFails
                                 && req.characterId in chars && chars[req.characterId].userId != req.userId)
      && (req.characterId != [] && req.userId != [] && writes.characterReadFails ==>
            r == DeleteResult(DeleteFailed, chars, users, objects))
      && (r.resp.DeleteMissingIds? || r.resp.CharacterNotFound? || r.resp.Forbidden? ==>
            r.characters == chars && r.users == users && r.objects == objects)
  {
  }

  /**
   * A successful delete removes exactly that character, and its image unless
   * the storage deletion failed, and lowers the owner's count to no less
   * than 0 when the owner has a user document.
   */
  lemma DeleteSuccess(chars: map<string, CharacterDoc>, users: map<string, UserDoc>, objects: set<string>,
                      req: DeleteRequest, writes: DeleteWrites)
    ensures var r := DeleteSpec(chars, users, objects, Some(req), writes);
      r.resp.Deleted? ==>
        && !writes.characterReadFails && !writes.docDeleteFails && !writes.userReadFails
        && req.characterId in chars && chars[req.characterId].userId == req.userId
        && r.characters.Keys == chars.Keys - {req.characterId}
        && (forall k :: k in r.characters ==> r.characters[k] == chars[k])
        && r.objects == (if writes.storageFails then objects else objects - {"characters/" + req.userId + "/" + req.characterId + ".png"})
        && (req.userId in users ==> r.users == users[req.userId := UserDoc(Decremented(users[req.userId].characterCount))])
        && (req.userId !in users ==> r.users == users)
  {
  }

  /** A failed storage deletion does not stop the document deletion. */
  lemma DeleteIgnoresStorageFailure(chars: map<string, CharacterDoc>, users: map<string, UserDoc>, objects: set<string>,
                                    req: DeleteRequest, writes: DeleteWrites)
    requires req.characterId != [] && req.userId != [] && !writes.characterReadFails && req.characterId in chars
    requires chars[req.characterId].userId == req.userId
    requires writes.storageFails && !writes.docDeleteFails
    ensures var r := DeleteSpec(chars, users, objects, Some(req), writes);
      req.characterId !in r.characters && r.objects == objects
  {
  }

  /**
   * A delete whose read of the user or count update throws has already
   * removed the character document, and the image unless its deletion failed,
   * yet leaves the owner's count as it was.
   */
  lemma DeleteLateFailures(chars: map<string, CharacterDoc>, users: map<string, UserDoc>, objects: set<string>,
                           req: DeleteRequest, writes: DeleteWrites)
    requires req.characterId != [] && req.userId != [] && !writes.characterReadFails && req.characterId in chars
    requires chars[req.characterId].userId == req.userId && !writes.docDeleteFails
    requires writes.userReadFails || (req.userId in users && writes.countWriteFails)
    ensures var r := DeleteSpec(chars, users, objects, Some(req), writes);
      && r.resp == DeleteFailed
      && r.characters == chars - {req.characterId}
      && r.users == users
      && r.objects == (if writes.storageFails then objects else objects - {ImagePath(req.userId, req.characterId)})
  {
  }

  /** Deletes keep every count between 0 and 3. */
  lemma DeleteKeepsCountsInRange(chars: map<string, CharacterDoc>, users: map<string, UserDoc>, objects: set<string>,
                                 req: Option<DeleteRequest>, writes: DeleteWrites)
    requires CountsInRange(users)
    ensures CountsInRange(DeleteSpec(chars, users, objects, req, writes).users)
  {
  }

  /** `DELETE /api/characters/delete`. */
  method Delete(db: Db, req: Option<DeleteRequest>, writes: DeleteWrites) returns (resp: DeleteResponse)
    modifies db
    ensures var r := DeleteSpec(old(db.characters), old(db.users), old(db.objects), req, writes);
      resp == r.resp && db.characters == r.characters && db.users == r.users && db.objects == r.objects
    ensures db.battles == old(db.battles) && db.reports == old(db.reports)
  {
    if req.None? {
      return DeleteFailed;
    }
    var q := req.value;
    if q.characterId == [] || q.userId == [] {
      return DeleteMissingIds;
    }
    if writes.characterReadFails {
      return DeleteFailed;
    }
    if q.characterId !in db.characters {
      return CharacterNotFound;
    }
    if db.characters[q.characterId].userId != q.userId {
      return Forbidden;
    }
    var filePath := ImagePath(q.userId, q.characterId);
    if !writes.storageFails {
      db.objects := db.objects - {filePath};
    }
    if writes.docDeleteFails {
      return DeleteFailed;
    }
    db.characters := db.characters - {q.characterId};
    if writes.userReadFails {
      return DeleteFailed;
    }
    if q.userId in db.users {
      var currentCount := db.users[q.userId].characterCount;
      if writes.countWriteFails {
        return DeleteFailed;
      }
      db.users := db.users[q.userId := UserDoc(Decremented(currentCount))];
    }
    return Deleted;
  }
}
