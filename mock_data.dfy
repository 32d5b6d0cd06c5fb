/**
 * The demo data set: three users with their characters, and the helpers
 * that list every character by rank, one user's characters, and a random
 * opponent owned by someone else.
 */
module MockData {
  import opened Wrappers
  import opened Sorting
  import opened Random

  /** A character of the demo data; `createdAt` is milliseconds since the epoch. */
  datatype Character = Character(id: string, userId: string, imageData: string,
                                 rank: int, wins: int, losses: int, draws: int, createdAt: int)

  datatype User = User(id: string, email: string, characters: seq<Character>)

  const DayMs := 86400000

  const MockUsers: seq<User> := [
    User("user-1", "player1@example.com", [
      Character("char-1", "user-1", "/placeholder.svg?key=86bkz", 1250, 15, 5, 2, 19737 * DayMs),
      Character("char-2", "user-1", "/placeholder.svg?key=3a518", 980, 8, 7, 1, 19754 * DayMs)]),
    User("user-2", "player2@example.com", [
      Character("char-3", "user-2", "/placeholder.svg?key=wv25p", 1450, 22, 3, 1, 19732 * DayMs),
      Character("char-4", "user-2", "/placeholder.svg?key=j92ht", 1100, 12, 8, 3, 19742 * DayMs)]),
    User("user-3", "player3@example.com", [
      Character("char-5", "user-3", "/placeholder.svg?key=jqx9v", 1350, 18, 6, 2, 19747 * DayMs)])
  ]

  const CurrentUserId := "user-1"

  /** `users.find(u => u.id === id)`: the first user with that id. */
  function FindUser(users: seq<User>, id: string): (r: Option<User>)
    ensures r.None? <==> forall i :: 0 <= i < |users| ==> users[i].id != id
    ensures r.Some? ==> exists i :: 0 <= i < |users| && users[i] == r.value && r.value.id == id
                                      && forall j :: 0 <= j < i ==> users[j].id != id
  {
    if users == [] then None
    else if users[0].id == id then Some(users[0])
    else
      var r := FindUser(users[1..], id);
      assert forall j :: 1 <= j < |users| ==> users[j] == users[1..][j - 1];
      r
  }

  /** `mockUsers.find(u => u.id === currentUserId)!`: the non-null assertion holds. */
  lemma CurrentUserExists()
    ensures FindUser(MockUsers, CurrentUserId) == Some(MockUsers[0])
  {
  }

  /** `users.flatMap(u => u.characters)`. */
  function Flatten(users: seq<User>): seq<Character> {
    if users == [] then [] else users[0].characters + Flatten(users[1..])
  }

  /** A character is in the flattened list exactly when some user holds it. */
  lemma {:induction false} InFlatten(users: seq<User>, c: Character)
    ensures c in Flatten(users) <==> exists i :: 0 <= i < |users| && c in users[i].characters
  {
    if users != [] {
      InFlatten(users[1..], c);
      assert c in Flatten(users) <==> c in users[0].characters || c in Flatten(users[1..]);
      if c in Flatten(users[1..]) {
        var i :| 0 <= i < |users[1..]| && c in users[1..][i].characters;
        assert c in users[i + 1].characters;
      }
      if exists i :: 1 <= i < |users| && c in users[i].characters {
        var i :| 1 <= i < |users| && c in users[i].characters;
        assert c in users[1..][i - 1].characters;
      }
    }
  }

  /** The flattened list holds every character of every user, as often as the users hold it. */
  lemma {:induction false} FlattenMultiset(users: seq<User>, u: User, rest: seq<User>)
    requires users == [u] + rest
    ensures multiset(Flatten(users)) == multiset(u.characters) + multiset(Flatten(rest))
  {
    assert users[1..] == rest;
  }

  /** The flattened list is empty exactly when no user has a character. */
  lemma {:induction false} FlattenEmpty(users: seq<User>)
    ensures Flatten(users) == [] <==> forall i :: 0 <= i < |users| ==> users[i].characters == []
  {
    if users != [] {
      FlattenEmpty(users[1..]);
      assert forall i :: 1 <= i < |users| ==> users[i] == users[1..][i - 1];
    }
  }

  function Rank(c: Character): int {
    c.rank
  }

  /** `getAllCharactersByRank()` over a list of users: every character, highest rank first. */
  function AllCharactersByRank(users: seq<User>): (r: seq<Character>)
    ensures multiset(r) == multiset(Flatten(users))
    ensures SortedDesc(r, Rank)
  {
    SortDesc(Flatten(users), Rank)
  }

  /** Characters of equal rank keep the order in which their users list them. */
  lemma AllCharactersByRankStable(users: seq<User>, rank: int)
    ensures WithKey(AllCharactersByRank(users), Rank, rank) == WithKey(Flatten(users), Rank, rank)
  {
    SortDescStable(Flatten(users), Rank, rank);
  }

  /** `getUserCharacters(userId)` over a list of users: the first matching user's characters, or none. */
  function UserCharacters(users: seq<User>, userId: string): (r: seq<Character>)
    ensures (forall i :: 0 <= i < |users| ==> users[i].id != userId) ==> r == []
    ensures (exists i :: 0 <= i < |users| && users[i].id == userId) ==>
      exists i :: 0 <= i < |users| && users[i].id == userId && r == users[i].characters
                  && forall j :: 0 <= j < i ==> users[j].id != userId
  {
    match FindUser(users, userId)
    case Some(u) => u.characters
    case None => []
  }

  /** The users other than `userId`, in order. */
  function Others(users: seq<User>, userId: string): (r: seq<User>)
    ensures forall i :: 0 <= i < |r| ==> r[i] in users && r[i].id != userId
    ensures forall u :: u in users && u.id != userId ==> u in r
  {
    if users == [] then []
    else (if users[0].id != userId then [users[0]] else []) + Others(users[1..], userId)
  }

  /**
   * `getRandomOpponent(userId)` over a list of users: none exactly when no
   * other user owns a character, and otherwise a character of another user.
   */
  function RandomOpponent(users: seq<User>, userId: string, rnd: real): (r: Option<Character>)
    requires 0.0 <= rnd < 1.0
    ensures r.None? <==> forall u :: u in users && u.id != userId ==> u.characters == []
    ensures r.Some? ==> exists u :: u in users && u.id != userId && r.value in u.characters
  {
    var others := Others(users, userId);
    var opponents := Flatten(others);
    FlattenEmpty(others);
    if |opponents| == 0 then
      assert forall u :: u in users && u.id != userId ==> u.characters == [] by {
        forall u | u in users && u.id != userId ensures u.characters == [] {
          var i :| 0 <= i < |others| && others[i] == u;
        }
      }
      None
    else
      var c := opponents[PickIndex(|opponents|, rnd)];
      InFlatten(others, c);
      var i :| 0 <= i < |others| && c in others[i].characters;
      assert others[i] in users && others[i].id != userId;
      assert exists j :: 0 <= j < |others| && others[j].characters != [] by {
        assert others[i].characters != [];
      }
      Some(c)
  }

  /** The demo user always finds an opponent. */
  lemma DemoOpponent(rnd: real)
    requires 0.0 <= rnd < 1.0
    ensures RandomOpponent(MockUsers, CurrentUserId, rnd).Some?
  {
    var u := MockUsers[1];
    assert u in MockUsers && u.id != CurrentUserId && u.characters != [];
  }
}
