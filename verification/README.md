# Hangman domain model

A Dafny model of the pure domain logic of a hangman game. A hidden word is
revealed letter by letter. A bounded count of wrong guesses decides whether
the game is lost.

- `Words` (word.dfy) is the word tracker. It holds the word and one
  `Hidden`/`Discovered` state per character. It evaluates a guess as `Found`,
  `AlreadyFound` or `NotFound`, and it can reveal the whole word.
- `Games` (game.dfy) is the game controller. `TryLetter` is its single
  transition function. It counts failures, decides `Lost`/`Won`/carry-over
  with `Lost` checked first, reveals the word on a loss, and appends the guess
  to the history. `Play` chains `TryLetter` over a list of guesses and stops
  at the first invalid one, as nested `tryLetter` calls do. `Serve` is the
  web route's view of a run of requests: an invalid guess fails only its own
  request and the game is kept.
- `Views` (view.dfy) is the projection a game is rendered to for the client.
  Hidden letters lose their character there.
- `JsCoercion` (js_coercion.dfy) models how JavaScript evaluates `<` between
  two arrays of objects. The word tracker uses this comparison to decide
  `found`.
- `Wrappers` (wrappers.dfy) holds the `Result` type. It stands in for the
  thrown `InvalidLetterError`.
- `Scenarios` (scenarios.dfy) restates the repository's test cases as lemmas
  about the `"cheese"` and `"hello"` words.

Modelling decisions:

- Characters are Dafny `char` and a guess is a `string`. A guess is valid
  when `|letter| == 1`. The source rejects `letter.length > 1 || letter === ""`,
  and the model keeps that exact test.
- The source decides `found` by comparing the two *filtered arrays* with `<`
  (src/domain/word.ts:48-53), not their lengths. JavaScript joins each array
  into a string of comma-separated `"[object Object]"` items and compares the
  strings code unit by code unit. `DiscoverLetter` evaluates that comparison
  as written. `JsCoercion.ArrayLessIsLengthLess` proves it equals comparing
  the discovered counts. The shorter coerced string is always a prefix of the
  longer one, which is why.
- For a one-character guess, `word.includes(letter)` is modelled as
  `letter[0] in word`.
- `maxFailedAttempts` is an `int` because the source never validates it.
  `failedAttempts` is a `nat`.
- `TryLetter` applies to games in any state. The source does not stop a won
  or lost game from being played on. `Games.Valid` is the invariant that
  `InitGame` establishes and `TryLetter` preserves. The laws that need it are
  stated under it. These are the win law, "lost iff the budget is spent" and
  "lost is absorbing". `TryLetter`'s own contract fixes its result for every
  game. It says "budget reached implies lost" rather than an iff, because
  below the budget the source carries an earlier `lost` state over. A won
  game is not final: a later miss can still lose it
  (`Scenarios.WonGameCanStillBeLost`).

## Model

| member | source | states |
|---|---|---|
| `Words.InitWord` | src/domain/word.ts:17-22 | The tracker keeps the word. It has one letter per character, in order, each carrying its character, and every letter is hidden. So it is well formed and its discovered count is zero. |
| `Words.ValidGuess` | src/domain/word.ts:35-37 | A guess is accepted iff it is neither longer than one character nor empty, that is, iff it has exactly one character. |
| `Words.IsLetterDiscovered` | src/domain/word.ts:74-76 | A letter is discovered iff revealing it leaves it unchanged. |
| `Words.IsLetterMatching` | src/domain/word.ts:85-87 | A letter matches a guess iff the guess is one character long and that character is the letter's. |
| `Words.AllDiscovered` | src/domain/game.ts:45 | Every letter is discovered iff the filtered "discovered" array is as long as the word. |
| `Words.RevealIfMatching` | src/domain/word.ts:39-46 | One letter under a guess keeps its character, and a discovered letter is returned as it was. The result is discovered iff the letter was already discovered or it matches the guess. |
| `Words.ToDiscovered` | src/domain/word.ts:95-97 | The result is discovered and keeps the character. |
| `Words.DiscoveredCount` | src/domain/word.ts:48-49 | The length of the filtered "discovered" array never exceeds the number of letters. |
| `Words.RevealMatching` | src/domain/word.ts:39-46 | The per-letter map obeys the guess law. Characters are kept and discovered letters are untouched. A hidden letter becomes discovered exactly when its character is the guess. |
| `Words.RevealFacts` | src/domain/word.ts:39-46 | A guess never hides a letter. It newly reveals some position exactly when the guessed character was hidden somewhere. |
| `Words.CountGrowsWithReveal` | src/domain/word.ts:39-53 | When no letter is hidden again, the discovered count never drops. It strictly grows exactly when some hidden letter became discovered. |
| `Words.DiscoverLetter` | src/domain/word.ts:34-66 | Fails with `InvalidLetterError(letter)` exactly when the guess is empty or longer than one character. Otherwise the word string is kept and the letters obey the guess law. The outcome is `Found` iff a hidden letter matched, iff the discovered count grew. If not `Found`, it is `AlreadyFound` iff the character occurs in the word. Well-formedness is preserved. |
| `Words.NotFoundIffAbsent` | src/domain/word.ts:51-57 | On a well-formed word, a valid guess is `NotFound` exactly when its character is absent from the word. In that case the returned word equals the input. |
| `Words.RepeatedGuess` | src/domain/word.ts:39-57 | Guessing the same valid letter twice never yields `Found` the second time. The second call leaves the word unchanged. It is `AlreadyFound` iff the letter occurs in the word. |
| `Words.DiscoverWord` | src/domain/word.ts:104-111 | Every letter is discovered, with characters, length and word string kept. Well-formedness is preserved. |
| `Words.DiscoverWordIdempotent` | src/domain/word.ts:104-111 | Revealing the whole word twice equals revealing it once. |
| `JsCoercion.LexLess` | src/domain/word.ts:53 | JavaScript's `<` on strings holds iff the first string is a proper prefix of the second, or the first position where they differ holds a smaller character in the first. |
| `JsCoercion.ArrayString` | src/domain/word.ts:48-53 | An array of `n` objects coerces to a string of length `16n - 1` (empty for `n = 0`). |
| `JsCoercion.ArrayLessIsLengthLess` | src/domain/word.ts:53 | `<` on two arrays of objects holds iff the first array is shorter. This justifies reading the `found` test as a count comparison. |
| `Games.InitGame` | src/domain/game.ts:19-27 | The budget is kept and there are zero failures. The state is running, the word is the fresh tracker with every letter hidden, and the history is empty. The game is `Valid`. |
| `Games.TryLetter` | src/domain/game.ts:38-62 | An invalid guess yields the word tracker's error and no game. Otherwise failures grow by one exactly on `NotFound` and the budget is unchanged. The history gains the guess at its end. Reaching the budget means lost, and this is checked before won. Below the budget the game is won when all letters are discovered, else it keeps its state. A lost game shows every letter, and any other game shows the guessed word. |
| `Games.TryLetterKeepsValid` | src/domain/game.ts:38-62 | A valid guess on a `Valid` game succeeds and yields a `Valid` game. |
| `Games.WinLaw` | src/domain/game.ts:45-51 | On a `Valid` game the result is won iff every letter is discovered after the guess and failures are below the budget. |
| `Games.LostIffBudgetSpent` | src/domain/game.ts:41-48 | On a `Valid` game the result is lost iff the budget is at most the new failure count. |
| `Games.MissCostsOneAttempt` | src/domain/game.ts:41-43 | On a `Valid` game a guess costs exactly one attempt when its letter is absent from the word. Otherwise it costs nothing. |
| `Games.LostIsAbsorbing` | src/domain/game.ts:41-48 | A `Valid` lost game stays lost after any valid guess. |
| `Games.Play` | tests/index.spec.ts:369-408 | Chaining guesses as nested `tryLetter` calls fails exactly when one of them is invalid. The error is the `InvalidLetterError` of the first invalid guess, since that call throws before any later one runs. |
| `Games.PlayMonotone` | src/domain/game.ts:41-60 | Over any successful run of guesses, failures never decrease and the budget never changes. The history is extended by exactly the guesses. |
| `Games.PlayKeepsValid` | src/domain/game.ts:38-62 | Any successful run of guesses from a `Valid` game ends in a `Valid` game. |
| `Games.LostStaysLost` | src/domain/game.ts:41-58 | A `Valid` lost game stays lost over any run of valid guesses. |
| `Games.FailuresBoundedByGuesses` | src/domain/game.ts:19-62 | From a fresh game, a run of valid guesses counts at most one failure per guess. |
| `Games.ValidGuesses` | src/domain/word.ts:35-37 | The guesses the word tracker accepts: a request is kept iff it is a valid guess, each kept entry is valid, and the result is never longer than the run. A run of valid guesses is kept whole. |
| `Games.ValidGuessesAppend` | src/domain/word.ts:35-37 | Filtering a concatenation is concatenating the filtered parts, so the kept guesses stay in the run's order. |
| `Games.Serve` | src/api/express/app.ts:25-29 | Serving a run of requests keeps the budget and never lowers the failure count. The history gains exactly the valid guesses, in order, because an invalid one throws before the game is reassigned. |
| `Games.ServeAgreesWithPlay` | src/api/express/app.ts:25-29 | When every request is a valid guess, serving them equals playing them. |
| `Games.ServeIsPlayOfValid` | src/api/express/app.ts:25-29 | Serving any run of requests gives the game that playing only its valid guesses gives. So an invalid request leaves the word, the state and the counters as they were. |
| `Games.ServeKeepsValid` | src/api/express/app.ts:25-29 | Starting from a `Valid` game, any run of requests, valid or not, leaves a `Valid` game. |
| `Views.LetterView` | src/api/express/app.ts:58-61 | A view letter is hidden iff the letter is not discovered. A shown character is the letter's own. |
| `Views.ViewOf` | src/api/express/app.ts:46-65 | State, budget, failures and history are copied. There is one view letter per letter. A view letter is hidden exactly when the letter is hidden, and a discovered letter shows its character. |
| `Views.ShownCharactersAreDiscovered` | src/api/express/app.ts:58-61 | A character appears in the view iff it belongs to a discovered letter. |
| `Views.ViewHidesHiddenLetters` | src/api/express/app.ts:58-61 | Two games give the same view iff they agree on everything except the characters of their hidden letters. So the view never leaks a hidden letter. |
| `Scenarios.InitWordCheese` | tests/index.spec.ts:9-46 | `initWord("cheese")` has six hidden letters c, h, e, e, s, e. |
| `Scenarios.DiscoverPresentLetter` | tests/index.spec.ts:50-91 | Guessing "e" in "cheese" is `Found` and reveals positions 2, 3 and 5. |
| `Scenarios.DiscoverAbsentLetter` | tests/index.spec.ts:93-133 | Guessing "n" in "cheese" is `NotFound` and changes nothing. |
| `Scenarios.DiscoverLetterAgain` | tests/index.spec.ts:135-175 | Guessing "h" twice in "cheese" reveals position 1 once. The second guess is `AlreadyFound`. |
| `Scenarios.InvalidGuesses` | tests/index.spec.ts:178-198 | Guessing "ce" or "" fails with `InvalidLetterError` carrying that string. |
| `Scenarios.InitGameHello` | tests/index.spec.ts:205-242 | `initGame("hello", 5)` is a running game with no failures and no history. All five letters are hidden. |
| `Scenarios.CorrectGuessCostsNothing` | tests/index.spec.ts:246-285 | Guessing "h" reveals position 0, costs nothing and keeps the game running. |
| `Scenarios.WrongGuessCostsOne` | tests/index.spec.ts:287-326 | Guessing "j" costs one attempt and keeps the game running. |
| `Scenarios.LastAttemptLoses` | tests/index.spec.ts:328-367 | With a budget of one, guessing "j" loses the game and reveals every letter. |
| `Scenarios.GuessingEveryLetterWins` | tests/index.spec.ts:369-408 | Guessing h, e, l, o wins with no failures and records all four guesses. |
| `Scenarios.WonGameCanStillBeLost` | src/domain/game.ts:41-51 | A won game with a budget of one is lost after a wrong guess. The state is recomputed on every guess. |

## Left out

- The Express wiring is left out: `createApp`, the routes, static assets, body parsing and EJS rendering (src/api/express/app.ts:1-32). It is framework I/O. `Games.Serve` models only the effect of the try-letter route on the game.
- Concurrent requests racing on the module-level `game` slot are left out (src/api/express/app.ts:7, 26). `Games.Serve` models requests served one at a time, as a function of the starting game. It starts from any game, while the source's slot starts at `initGame("cheese", 5)`.
- src/api/express/start.ts is left out. It only starts the server and logs.
- The message text of `InvalidLetterError` is left out. Only the failure and the offending string are modelled.
- UTF-16 code units versus code points are not modelled. `initWord` splits by code point and the guess check measures UTF-16 length. Here one `char` is one character on both sides.
- JavaScript `number` being a float is not modelled. Attempt counts are unbounded integers, so there is no overflow or rounding.
