# Anidle core in Dafny

Anidle is a Wordle-style game: the player guesses an animal from a catalog. For each guess the
server reports:
- letter marks (correct, present or absent), as in Wordle;
- trait comparisons: class, diet, shared habitat and continent tags, and whether the
  target's size and lifespan are about the same, higher or lower.

This project models the server-side logic of that game and proves properties about it. The
logic modelled is:

- **Feedback engine** (`game/utils.py`), modelled in modules `Letters` and `Feedback`:
  - `letter_feedback`, the two-pass, duplicate-aware letter diff. It is written as the
    source's two loops with its `Counter`, and proved equal to a declarative,
    position-by-position definition (`ReferenceMarks`).
  - `trait_feedback`, including its inner `cmp_field` and `median_of_range`.
  - `sanitize_name`.
- **Catalog** (`game/animals.py`), modelled in module `Catalog`:
  - `normalize`, built on models of the Python string operations it uses. These live in
    module `Text`: `str.isspace`, `strip`, `lower` (ASCII letters only), `replace`, `split()`,
    `" ".join` and substring `in`.
  - the `by_name` map that `load` builds.
  - `get`.
  - the capped substring `search`.
- **Session transitions** (`api.py`), modelled in module `Api`:
  - the `game_id -> game` map as a Dafny `map`;
  - `api_new`, with its twelve-hour expiry sweep and its fresh game;
  - `api_guess`, as one pure transition `(games, id, guess) -> (games', reply)`;
  - the detailed listing of `api_animals`.

The clock, `uuid4` and `random.randrange` are parameters (`now`, `gid`, `idx`). Size and
lifespan midpoints are exact `real`s.

### Behaviour worth knowing

In four places the server does something a reader of a Wordle-style game might not expect.
The model keeps the server's behaviour, and a lemma states each case:

- **A win does not close the game on the server.** `api_guess` refuses a game only once its
  recorded attempts reach `max_attempts` (api.py:60). The browser client stops sending
  guesses after a `won` or `lost` reply (static/app.py:189, static/app.py:295-297), but the
  server itself goes on scoring guesses after a win while attempts remain
  (`Api.WinDoesNotCloseGame`).
- **Reads do not check the twelve-hour lifetime.** `api_guess` never looks at `ts`
  (api.py:57). An expired game still takes guesses (`Api.ExpiredGameStillPlayable`). It
  disappears only when a later `api_new` sweeps it (`Api.ExpiredGameGoneAfterNew`).
- **Missing ranges still produce a key.** Without two usable ranges, `cmp_field` returns `{}`
  (game/utils.py:47-48), so the reply carries `"size": {}` rather than leaving the key out.
  The model writes this empty dict as `None` in `TraitFeedback.size` and
  `TraitFeedback.lifespan`.
- **A non-positive search limit still returns one match.** For a nonempty query, `search`
  tests the cap only after appending (game/animals.py:31-32). So `limit <= 0` yields the
  first match when there is one, not an empty list. `Catalog.Cap` states this, and
  `Catalog.FirstMatches` and `Catalog.Search` use it.

## Model

| member | source | states |
|---|---|---|
| Text.StripLeftSpec | game/animals.py:39 | `lstrip` removes a prefix made only of whitespace. What remains is a suffix of the input that does not start with whitespace. |
| Text.StripRightSpec | game/animals.py:39 | `rstrip` removes a suffix made only of whitespace. What remains is a prefix of the input that does not end with whitespace. |
| Text.WordsSpec | game/animals.py:41 | Every element of `split()` is nonempty and free of whitespace, and uses only characters of the input. |
| Text.WordsOfJoin | game/animals.py:41 | Joining genuine words with single spaces and splitting again gives back the same words. |
| Text.JoinOfWords | game/animals.py:41 | A single-spaced string is rebuilt exactly by `" ".join(s.split())`. |
| Text.JoinSingleSpaced | game/animals.py:41 | Joining genuine words gives a string whose only whitespace is single inner spaces. |
| Text.WordsSkipLeading | game/animals.py:39-41 | Leading whitespace never changes `split()`, so stripping it first is redundant. |
| Text.WordsDropTrailing | game/animals.py:39-41 | Trailing whitespace never changes `split()`. |
| Text.WordsRun | game/animals.py:41 | A whitespace run of any length and kind between two pieces of text only separates their words: `(a + p + b).split() == a.split() + b.split()`. |
| Text.ContainsSpec | game/animals.py:30 | The substring test `q in s` holds exactly when `q` occurs at some position of `s`. |
| Catalog.NormalizeViaFold | game/animals.py:38-42 | `normalize(s)` equals `" ".join(fold(s).split())`, where fold lower-cases and turns hyphens into spaces; the strip is subsumed by the split. |
| Catalog.NormalizeIsCanonical | game/animals.py:38-42 | `normalize` output has no hyphen and no upper-case letter. Its only whitespace is single spaces strictly inside it. |
| Catalog.CanonicalIffFixpoint | game/animals.py:38-42 | `normalize(s) == s` exactly when `s` already has that canonical shape. |
| Catalog.NormalizeIdempotent | game/animals.py:38-42 | `normalize(normalize(s)) == normalize(s)`. |
| Catalog.NormalizeEquivalence | game/animals.py:38-42 | Two names normalise equally exactly when, after lower-casing and turning hyphens into spaces, they split into the same words. |
| Catalog.NormalizeRun | game/animals.py:38-42 | Any whitespace run inside a name normalises exactly like a single space. |
| Catalog.NormalizeRunExample | game/animals.py:38-42 | `"  Snow--Leopard "` normalises to `"snow leopard"`. |
| Catalog.NormalizeExample | game/animals.py:38-42 | `"Snow-Leopard"` normalises to `"snow leopard"`. |
| Catalog.IndexBySpec | game/animals.py:18-21 | The key map holds every key that occurs in the catalog and no other. Each key maps to the last record with that key. |
| Catalog.Load | game/animals.py:14-21 | `load` keeps the records in order and yields a loaded catalog, so `GetSpec` applies to it. Its map has a key exactly when some record's normalised name is that key. |
| Catalog.GetSpec | game/animals.py:35-36 | On a loaded catalog, `get` returns the last record whose normalised name equals the normalised query. It returns `None` exactly when there is no such record. |
| Catalog.GetOfNormalized | game/animals.py:35-36 | Looking up an already normalised name finds what the raw name finds. |
| Catalog.GetIgnoresSpelling | game/animals.py:35-42 | Names that differ only in case, hyphen-versus-space or whitespace runs find the same record. |
| Catalog.GetFindsUniqueRecord | game/animals.py:17-36 | When catalog keys are unique, any spelling that normalises to a record's key finds that record. |
| Catalog.FilterMembers | game/animals.py:28-33 | The in-order filter keeps exactly the records that pass the test. |
| Catalog.FirstMatches | game/animals.py:28-33 | The append-then-check-the-cap loop returns a prefix of all matches in catalog order. The prefix holds at most `max(limit, 1)` items, and it is all of the matches when it is shorter than that. |
| Catalog.Search | game/animals.py:23-33 | An empty normalised query gives the first `limit` names (Python slice). Otherwise `search` gives the names of the first matches in catalog order: at most `max(limit, 1)` of them, and all of them when fewer are returned. |
| Catalog.SearchResultsMatch | game/animals.py:30-32 | Every returned name belongs to a record whose normalised name contains the normalised query. |
| Letters.Counter | game/utils.py:15 | `Counter(answer)[c]` is the number of copies of `c` in the answer (the multiset count), zero for absent letters. |
| Letters.BudgetNonNegative | game/utils.py:15-20 | The first pass never takes more copies of a letter out of the counter than the answer has. |
| Letters.CorrectPass | game/utils.py:15-21 | The first loop marks each position correct exactly when the answer has the same letter there, and absent otherwise. It leaves each letter's count minus its correct positions in the counter. |
| Letters.PresentPass | game/utils.py:22-27 | The second loop leaves correct marks alone. It marks an open position present exactly while copies of its letter remain, scanning left to right. The result equals the declarative marks. |
| Letters.LetterFeedback | game/utils.py:11-28 | There is one mark per guess letter, in order, and its letter is the guess letter. A mark is correct exactly where the answer has the same letter at that position. Every mark equals the declarative definition. |
| Letters.LetterCounts | game/utils.py:15-27 | For every letter, the correct plus present marks holding it number exactly the smaller of its counts in the answer and in the guess. |
| Letters.AbsentUnlessInAnswer | game/utils.py:15-27 | A guess letter that the answer does not contain is always absent. |
| Letters.SelfAllCorrect | game/utils.py:16-21 | Guessing the answer itself marks every letter correct. |
| Letters.LionLine | game/utils.py:11-28 | Answer `lion`, guess `line`: correct, correct, present, absent. |
| Feedback.CompareRange | game/utils.py:43-55 | There is no direction unless both fields are two-element ranges. Otherwise `Same` exactly when the midpoints differ by at most tolerance × the target midpoint's magnitude; outside that band, `Up` when the target is larger and `Down` when it is not. |
| Feedback.CompareRangeSelf | game/utils.py:43-55 | A range compared with itself is `Same`, and a missing or malformed range gives no direction. |
| Feedback.NeverUpBothWays | game/utils.py:50-55 | Two ranges can never each be `Up` from the other. |
| Feedback.UpMirrorsDown | game/utils.py:50-55 | For non-negative midpoints, `Up` in one order is `Down` in the other. |
| Feedback.BandIsAsymmetric | game/utils.py:50-57 | The band scales with the target only: 100 against 80 is `Same`, but 80 against 100 is `Down`. |
| Feedback.BandExample | game/utils.py:43-57 | Target range 50–150 (midpoint 100): guess 80–90 is `Same`, guess 60–80 is `Up`. |
| Feedback.OverlapProperties | game/utils.py:35-41 | The tag-overlap count is symmetric, at most each side's distinct-tag count and list length, and a list overlaps itself in all its distinct tags. |
| Feedback.CompareTraits | game/utils.py:30-59 | Class and diet match exactly when the fields are equal. Habitat `matches` and continents `overlap` are the sizes of the tag-set intersections, bounded by each side's distinct tags. Size and lifespan are the 20%-band verdicts of `CompareRange` on the two records' ranges, and are empty exactly when either side lacks a two-element range. |
| Feedback.CompareTraitsSelf | game/utils.py:30-59 | Comparing a record with itself gives match, match, the full distinct-tag counts, and never `Up` or `Down`. |
| Feedback.CompareTraitsSwap | game/utils.py:32-41 | Swapping target and guess changes neither verdict nor either overlap count. |
| Feedback.SanitizeName | game/utils.py:61-62 | The output holds only lower-case letters. |
| Feedback.SanitizeAppend | game/utils.py:61-62 | `sanitize_name` works piece by piece over concatenation, so the letters keep their order. |
| Feedback.SanitizeIsLoweredLetters | game/utils.py:61-62 | `sanitize_name(s)` is the letters of `s` in order, lower-cased. |
| Feedback.SanitizeFixpoint | game/utils.py:61-62 | `sanitize_name(s) == s` exactly when `s` is all lower-case letters. |
| Feedback.SanitizeIdempotent | game/utils.py:61-62 | `sanitize_name` is idempotent. |
| Api.SweepExpired | api.py:33-36 | The sweep loop keeps exactly the games with `now - ts <= TTL_SECONDS`, each unchanged. |
| Api.ApiNew | api.py:31-53 | The expired games are gone and the rest are untouched. `gid` holds the game for catalog record `idx`, with no attempts, six allowed, the requested flag and `ts = now`. The reply carries `gid`, 6 and the mode. |
| Api.NewKeepsLimits | api.py:42-48 | `api_new` keeps every game within its attempt limit. |
| Api.ApiGuess | api.py:55-92 | An unknown id gives `invalid-game`, a game at its limit gives `game-finished` with the target name, and a name missing from the catalog gives `not-in-dictionary`, each with the map unchanged. Any other guess is scored. |
| Api.GuessLookup | api.py:63-64 | Looking up `normalize(guess)` finds what looking up `guess` finds. |
| Api.AcceptedGuess | api.py:68-92 | An accepted guess appends exactly one attempt and touches no other game. The reply's `attempt` is the new attempt count. The status is `won` exactly on a case-insensitive name match, otherwise `lost` exactly when the attempt reaches the limit. The answer is shown exactly when the game ends. Letter marks, on the sanitised names, are present exactly when the game's flag is set. |
| Api.GuessKeepsLimits | api.py:60-82 | No guess lets a game exceed its attempt limit. |
| Api.PlayKeepsLimits | api.py:60-82 | Over any sequence of guesses, every game stays within its attempt limit. |
| Api.AttemptNumberInRange | api.py:82-86 | Within the limits, an accepted guess's attempt number runs from 1 to the limit. |
| Api.LostIsFinal | api.py:60-61 | After a `lost` reply, every further guess at that game is refused as finished, with the answer. |
| Api.WinDoesNotCloseGame | api.py:60-82 | After a `won` reply, a further catalog guess is still scored while attempts remain. |
| Api.ExpiredGameStillPlayable | api.py:57-66 | A game past its lifetime still takes guesses until an `api_new` sweeps it. |
| Api.ExpiredGameGoneAfterNew | api.py:33-36 | After `api_new` sweeps at a time past a game's lifetime, guesses at that game get `invalid-game`. |
| Api.CanonicalSpellingWins | api.py:63-78 | When catalog keys are unique, any spelling that normalises to the target's key wins. |
| Api.SixthMissLoses | api.py:76-91 | A non-winning guess that uses the last attempt is `lost` and reveals the answer. |
| Api.Summary | api.py:104-110 | A detailed item copies the name, emoji, class and diet. It keeps the first `min(2, n)` of the record's `n` habitat tags, in order. |
| Api.ApiAnimals | api.py:94-113 | Without details, the reply is `search(q, 30)`. With details, it is the summaries of the first matches in catalog order: at most 30 of them, and all of them when fewer are returned. |
| Api.EmptyQueryMatchesAll | api.py:100-103 | An empty query is contained in every normalised name, so every record matches. |

## Left out

- Reading `animals.json` in `load` is not modelled: the catalog is the sequence of records it would yield.
- The FastAPI layer is not modelled: routing, templates, the static mount, the pydantic schemas of `game/schemas.py` and HTTP status codes. Error replies are datatype constructors.
- The debug `print` in `api_new` is output only, so it is left out.
- `time.time()`, `uuid.uuid4()` and `random.randrange` are parameters of `Api.ApiNew`. The random index satisfies `0 <= idx < |catalog|`, which is what `randrange` guarantees.
- The global `GAMES` dict is updated without locking. The model is sequential, one transition at a time.
- Midpoints and tolerances are exact reals. Binary floating-point rounding at the edge of the 20% band is not modelled.
- `str.lower` and `str.isalpha` are modelled on ASCII letters only. `str.isspace` covers the full set of Python whitespace code points.
- Ranges are modelled as optional lists of reals, so the source's `isinstance(r, (list, tuple))` test becomes "present and of length two". Non-numeric JSON elements are not modelled.
- A `habitat` or `continents` field explicitly set to `null` would make `set(None)` raise. The model takes these fields as lists, with a missing field meaning the empty list.
- The front end in `static/app.py` is not part of this model.
