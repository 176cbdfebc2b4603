/**
 The game session logic of api.py: the `game_id -> game` map, `api_new` (expiry
 sweep and a fresh game), `api_guess` (one transition of a game) and the detailed
 listing of `api_animals`. The clock, the random index and the fresh identifier are
 parameters; HTTP status codes and routing are not modelled.
 */
module Api {
  import opened Wrappers
  import opened Text
  import opened Catalog
  import opened Letters
  import opened Feedback

  /** `TTL_SECONDS`: twelve hours. */
  const TtlSeconds: int := 60 * 60 * 12

  /** Every game starts with six attempts. */
  const MaxAttempts: int := 6

  /** The cap on both `api_animals` listings. */
  const ListCap: int := 30

  datatype Status = InProgress | Won | Lost

  /** One entry of `game["attempts"]`. */
  datatype Attempt = Attempt(guess: string, traits: TraitFeedback, won: bool)

  /** One value of `GAMES`. */
  datatype Game = Game(
    target: Animal,
    attempts: seq<Attempt>,
    maxAttempts: int,
    letterFeedback: bool,
    ts: real)

  type Games = map<string, Game>

  /** The body of a successful `/api/guess` reply, or one of its three errors. */
  datatype GuessReply =
    | InvalidGame
    | GameFinished(targetName: string)
    | NotInDictionary
    | Scored(
        status: Status,
        attempt: int,
        traits: TraitFeedback,
        letters: Option<seq<LetterMark>>,
        answer: Option<string>)

  datatype NewGameReply = NewGameReply(gameId: string, maxAttempts: int, mode: string)

  /** Every stored game keeps within its attempt limit. */
  predicate WithinLimits(games: Games) {
    forall id :: id in games ==> |games[id].attempts| <= games[id].maxAttempts
  }

  // ---------------------------------------------------------------------------
  // api_new

  predicate Expired(g: Game, now: real) {
    now - g.ts > TtlSeconds as real
  }

  /** The games that survive the sweep at time `now`. */
  function Sweep(games: Games, now: real): Games {
    map id | id in games && !Expired(games[id], now) :: games[id]
  }

  /** The sweep loop of `api_new`, one key of `list(GAMES)` at a time. */
  method SweepExpired(games: Games, now: real) returns (kept: Games)
    ensures forall id :: id in kept <==> id in games && !Expired(games[id], now)
    ensures forall id :: id in kept ==> kept[id] == games[id]
  {
    kept := games;
    var todo := games.Keys;
    while todo != {}
      invariant todo <= games.Keys
      invariant forall id :: id in kept <==> id in games && (id in todo || !Expired(games[id], now))
      invariant forall id :: id in kept ==> kept[id] == games[id]
      decreases todo
    {
      var id :| id in todo;
      if now - kept[id].ts > TtlSeconds as real {
        kept := kept - {id};
      }
      todo := todo - {id};
    }
  }

  function NewGame(target: Animal, letterFeedback: bool, now: real): Game {
    Game(target, [], MaxAttempts, letterFeedback, now)
  }

  /**
   `api_new` at time `now`, with `gid` from `uuid4` and `idx` from `randrange`:
   the expired games are gone, the others are untouched, and `gid` holds a fresh game.
   */
  function ApiNew(db: AnimalDB, games: Games, now: real, gid: string, idx: int, mode: string, letterFeedback: bool)
    : (r: (Games, NewGameReply))
    requires 0 <= idx < |db.items|
    ensures gid in r.0 && r.0[gid] == Game(db.items[idx], [], MaxAttempts, letterFeedback, now)
    ensures forall id :: id != gid ==> (id in r.0 <==> id in games && !Expired(games[id], now))
    ensures forall id :: id in r.0 && id != gid ==> r.0[id] == games[id]
    ensures r.1 == NewGameReply(gid, MaxAttempts, mode)
  {
    (Sweep(games, now)[gid := NewGame(db.items[idx], letterFeedback, now)], NewGameReply(gid, MaxAttempts, mode))
  }

  // ---------------------------------------------------------------------------
  // api_guess

  /** The state a newly accepted guess leaves the game in. */
  function Outcome(game: Game, guessed: Animal): Status {
    if Lower(guessed.name) == Lower(game.target.name) then Won
    else if |game.attempts| + 1 >= game.maxAttempts then Lost
    else InProgress
  }

  /** The game can take another guess: it exists and is below its attempt limit. */
  predicate IsOpen(games: Games, gameId: string) {
    gameId in games && |games[gameId].attempts| < games[gameId].maxAttempts
  }

  /**
   `api_guess`: the games map after the call and the reply. Unknown ids, games at
   their attempt limit and names missing from the catalog leave the map unchanged;
   any other guess is scored.
   */
  function ApiGuess(db: AnimalDB, games: Games, gameId: string, guess: string): (r: (Games, GuessReply))
    ensures gameId !in games ==> r == (games, InvalidGame)
    ensures gameId in games && !IsOpen(games, gameId) ==>
      r == (games, GameFinished(games[gameId].target.name))
    ensures IsOpen(games, gameId) && Get(db, Normalize(guess)).None? ==> r == (games, NotInDictionary)
    ensures IsOpen(games, gameId) && Get(db, Normalize(guess)).Some? ==> r.1.Scored?
  {
    if gameId !in games then (games, InvalidGame)
    else
      var game := games[gameId];
      if |game.attempts| >= game.maxAttempts then (games, GameFinished(game.target.name))
      else
        var found := Get(db, Normalize(guess));
        if found.None? then (games, NotInDictionary)
        else
          var guessed := found.value;
          var tf := CompareTraits(game.target, guessed);
          var lf := if game.letterFeedback
            then Some(ReferenceMarks(SanitizeName(game.target.name), SanitizeName(guessed.name)))
            else None;
          var status := Outcome(game, guessed);
          var played := game.(attempts := game.attempts + [Attempt(guessed.name, tf, status == Won)]);
          var answer := if status == Won || status == Lost then Some(game.target.name) else None;
          (games[gameId := played], Scored(status, |played.attempts|, tf, lf, answer))
  }

  /** The guess route looks up `normalize(guess)`, which finds what `guess` itself would. */
  lemma GuessLookup(db: AnimalDB, guess: string)
    ensures Get(db, Normalize(guess)) == Get(db, guess)
  {
    GetOfNormalized(db, guess);
  }

  /**
   An accepted guess appends exactly one attempt to its game and touches no other
   game; the reply numbers the attempt, reports `won` exactly on a case-insensitive
   name match, `lost` exactly on a miss that uses the last attempt, shows the answer
   exactly when the game ends, and carries letter marks of the sanitised names
   exactly when the game asked for them.
   */
  lemma AcceptedGuess(db: AnimalDB, games: Games, gameId: string, guess: string)
    requires IsOpen(games, gameId) && Get(db, guess).Some?
    ensures var r := ApiGuess(db, games, gameId, guess);
      var game, guessed := games[gameId], Get(db, guess).value;
      && r.1.Scored?
      && r.0.Keys == games.Keys
      && (forall id :: id in games && id != gameId ==> r.0[id] == games[id])
      && r.0[gameId] == game.(attempts := game.attempts + [Attempt(guessed.name, r.1.traits, r.1.status == Won)])
      && r.1.attempt == |game.attempts| + 1
      && r.1.traits == CompareTraits(game.target, guessed)
      && (r.1.status == Won <==> Lower(guessed.name) == Lower(game.target.name))
      && (r.1.status == Lost <==> r.1.status != Won && r.1.attempt >= game.maxAttempts)
      && (r.1.answer.Some? <==> r.1.status != InProgress)
      && (r.1.answer.Some? ==> r.1.answer.value == game.target.name)
      && (r.1.letters.Some? <==> game.letterFeedback)
      && (r.1.letters.Some? ==>
            r.1.letters.value == ReferenceMarks(SanitizeName(game.target.name), SanitizeName(guessed.name)))
  {
    GuessLookup(db, guess);
  }

  // ---------------------------------------------------------------------------
  // Session properties

  /** No transition lets a game exceed its attempt limit. */
  lemma GuessKeepsLimits(db: AnimalDB, games: Games, gameId: string, guess: string)
    requires WithinLimits(games)
    ensures WithinLimits(ApiGuess(db, games, gameId, guess).0)
  {
    var r := ApiGuess(db, games, gameId, guess);
    GuessLookup(db, guess);
    forall id | id in r.0
      ensures |r.0[id].attempts| <= r.0[id].maxAttempts
    {
      if r.1.Scored? && id == gameId {
        assert |r.0[id].attempts| == |games[id].attempts| + 1;
      } else {
        assert id in games && r.0[id] == games[id];
      }
    }
  }

  /** A session: the guesses `(game_id, guess)` applied in order. */
  function Play(db: AnimalDB, games: Games, moves: seq<(string, string)>): Games
    decreases |moves|
  {
    if |moves| == 0 then games
    else Play(db, ApiGuess(db, games, moves[0].0, moves[0].1).0, moves[1..])
  }

  /** However many guesses a session makes, every game stays within its attempt limit. */
  lemma {:induction false} PlayKeepsLimits(db: AnimalDB, games: Games, moves: seq<(string, string)>)
    requires WithinLimits(games)
    ensures WithinLimits(Play(db, games, moves))
    decreases |moves|
  {
    if |moves| > 0 {
      GuessKeepsLimits(db, games, moves[0].0, moves[0].1);
      PlayKeepsLimits(db, ApiGuess(db, games, moves[0].0, moves[0].1).0, moves[1..]);
    }
  }

  lemma NewKeepsLimits(db: AnimalDB, games: Games, now: real, gid: string, idx: int, mode: string, flag: bool)
    requires 0 <= idx < |db.items|
    requires WithinLimits(games)
    ensures WithinLimits(ApiNew(db, games, now, gid, idx, mode, flag).0)
  {
  }

  /** Within the limits, the attempt number of an accepted guess runs from one to the limit. */
  lemma AttemptNumberInRange(db: AnimalDB, games: Games, gameId: string, guess: string)
    requires WithinLimits(games)
    requires ApiGuess(db, games, gameId, guess).1.Scored?
    ensures 1 <= ApiGuess(db, games, gameId, guess).1.attempt <= games[gameId].maxAttempts
  {
  }

  /** After a `lost` reply, every further guess at that game is refused with the answer. */
  lemma LostIsFinal(db: AnimalDB, games: Games, gameId: string, guess: string, next: string)
    requires ApiGuess(db, games, gameId, guess).1.Scored?
    requires ApiGuess(db, games, gameId, guess).1.status == Lost
    ensures var after := ApiGuess(db, games, gameId, guess).0;
      ApiGuess(db, after, gameId, next) == (after, GameFinished(games[gameId].target.name))
  {
  }

  /**
   As written, a win does not close the game: while attempts remain, a further
   guess that names a catalog animal is scored and recorded.
   */
  lemma WinDoesNotCloseGame(db: AnimalDB, games: Games, gameId: string, guess: string, next: string)
    requires ApiGuess(db, games, gameId, guess).1.Scored?
    requires ApiGuess(db, games, gameId, guess).1.status == Won
    requires |games[gameId].attempts| + 1 < games[gameId].maxAttempts
    requires Get(db, next).Some?
    ensures ApiGuess(db, ApiGuess(db, games, gameId, guess).0, gameId, next).1.Scored?
  {
    GuessLookup(db, guess);
    GuessLookup(db, next);
  }

  /** As written, reading a game never checks its age: an expired game still takes guesses. */
  lemma ExpiredGameStillPlayable(db: AnimalDB, games: Games, gameId: string, guess: string, now: real)
    requires gameId in games && Expired(games[gameId], now)
    requires |games[gameId].attempts| < games[gameId].maxAttempts
    requires Get(db, guess).Some?
    ensures ApiGuess(db, games, gameId, guess).1.Scored?
  {
    GuessLookup(db, guess);
  }

  /** Once `api_new` has swept at a time past a game's lifetime, that game is unknown. */
  lemma ExpiredGameGoneAfterNew(
    db: AnimalDB, games: Games, now: real, gid: string, idx: int, mode: string, flag: bool,
    gameId: string, guess: string)
    requires 0 <= idx < |db.items|
    requires gameId in games && Expired(games[gameId], now) && gameId != gid
    ensures var swept := ApiNew(db, games, now, gid, idx, mode, flag).0;
      ApiGuess(db, swept, gameId, guess) == (swept, InvalidGame)
  {
  }

  /**
   With unique catalog keys, any spelling that normalises to the target's key wins,
   e.g. "Snow-Leopard" against "Snow Leopard".
   */
  lemma CanonicalSpellingWins(db: AnimalDB, games: Games, gameId: string, guess: string)
    requires Loaded(db)
    requires forall j, k :: 0 <= j < k < |db.items| ==> Key(db.items[j]) != Key(db.items[k])
    requires gameId in games && |games[gameId].attempts| < games[gameId].maxAttempts
    requires games[gameId].target in db.items
    requires Normalize(guess) == Key(games[gameId].target)
    ensures ApiGuess(db, games, gameId, guess).1.Scored?
    ensures ApiGuess(db, games, gameId, guess).1.status == Won
  {
    var i :| 0 <= i < |db.items| && db.items[i] == games[gameId].target;
    GetFindsUniqueRecord(db, i, guess);
    GuessLookup(db, guess);
  }

  /**
   A fresh game answers exactly `maxAttempts` non-winning guesses: the sixth
   is `lost`, and the game is then finished.
   */
  lemma SixthMissLoses(db: AnimalDB, games: Games, gameId: string, guess: string)
    requires gameId in games && |games[gameId].attempts| == games[gameId].maxAttempts - 1
    requires Get(db, guess).Some? && Lower(Get(db, guess).value.name) != Lower(games[gameId].target.name)
    ensures ApiGuess(db, games, gameId, guess).1.Scored?
    ensures ApiGuess(db, games, gameId, guess).1.status == Lost
    ensures ApiGuess(db, games, gameId, guess).1.answer == Some(games[gameId].target.name)
  {
    GuessLookup(db, guess);
  }

  // ---------------------------------------------------------------------------
  // api_animals

  /** One item of the detailed listing: the first two habitat tags only. */
  datatype AnimalSummary = AnimalSummary(
    name: string,
    emoji: Option<string>,
    animalClass: Option<string>,
    diet: Option<string>,
    habitat: seq<string>)

  datatype AnimalsReply = NameList(names: seq<string>) | DetailList(items: seq<AnimalSummary>)

  function Summary(a: Animal): (s: AnimalSummary)
    ensures s.name == a.name && s.emoji == a.emoji && s.animalClass == a.animalClass && s.diet == a.diet
    ensures |s.habitat| == Min(2, |a.habitat|) && s.habitat <= a.habitat
  {
    AnimalSummary(a.name, a.emoji, a.animalClass, a.diet, PyPrefix(a.habitat, 2))
  }

  function Summaries(items: seq<Animal>): (r: seq<AnimalSummary>)
    ensures |r| == |items|
    ensures forall i :: 0 <= i < |items| ==> r[i] == Summary(items[i])
  {
    seq(|items|, i requires 0 <= i < |items| => Summary(items[i]))
  }

  lemma SummariesPrefix(a: seq<Animal>, b: seq<Animal>)
    requires a <= b
    ensures Summaries(a) <= Summaries(b)
  {
    assert Summaries(a) == Summaries(b)[..|a|];
  }

  /**
   `api_animals`: without details, `search(q, 30)`; with details, the first thirty
   records whose normalised name contains the normalised query, in catalog order.
   */
  method ApiAnimals(db: AnimalDB, q: string, details: bool) returns (r: AnimalsReply)
    ensures !details ==> r.NameList? && |r.names| <= ListCap
    ensures !details && Normalize(q) != "" ==>
      && r.names <= Names(Matching(db.items, Normalize(q)))
      && (|r.names| < ListCap ==> r.names == Names(Matching(db.items, Normalize(q))))
    ensures !details && Normalize(q) == "" ==> r.names == Names(PyPrefix(db.items, ListCap))
    ensures details ==>
      && r.DetailList?
      && |r.items| <= ListCap
      && r.items <= Summaries(Matching(db.items, Normalize(q)))
      && (|r.items| < ListCap ==> r.items == Summaries(Matching(db.items, Normalize(q))))
  {
    if !details {
      var names := Search(db, q, ListCap);
      return NameList(names);
    }
    var qn := Normalize(q);
    var hits := FirstMatches(db.items, HitBy(qn), ListCap);
    SummariesPrefix(hits, Matching(db.items, qn));
    r := DetailList(Summaries(hits));
  }

  /** An empty query matches every record, so the detailed listing is the first thirty. */
  lemma EmptyQueryMatchesAll(items: seq<Animal>)
    ensures Matching(items, "") == items
  {
    EmptyFilterKeepsAll(items);
  }

  lemma {:induction false} EmptyFilterKeepsAll(items: seq<Animal>)
    ensures Filter(items, HitBy("")) == items
    decreases |items|
  {
    if |items| > 0 {
      var last := items[|items| - 1];
      assert OccursAt(Key(last), "", 0);
      EmptyFilterKeepsAll(items[..|items| - 1]);
    }
  }

}
