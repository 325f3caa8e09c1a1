/**
 * The game controller: attempts, status and guess history, driving the word
 * tracker one guess at a time (src/domain/game.ts).
 */
module Games {
  import opened Wrappers
  import opened Words

  datatype GameState = Running | Won | Lost

  /**
   * A game snapshot. The source does not validate the attempt budget, so it
   * is any integer; the failure counter starts at zero and only grows.
   */
  datatype Game = Game(
    maxFailedAttempts: int,
    failedAttempts: nat,
    state: GameState,
    word: Word,
    triedLetters: seq<string>)

  /**
   * What every game built by `InitGame` and advanced by `TryLetter` satisfies:
   * the word is well formed, a lost game has used up its budget and shows the
   * whole word, a won game shows the whole word, and each failure was a guess.
   */
  predicate Valid(g: Game) {
    && WellFormed(g.word)
    && (g.state == Lost ==> g.maxFailedAttempts <= g.failedAttempts && AllDiscovered(g.word.letters))
    && (g.state == Won ==> AllDiscovered(g.word.letters))
    && g.failedAttempts <= |g.triedLetters|
  }

  /** A fresh game: nothing guessed, nothing failed, every letter hidden. */
  function InitGame(word: string, maxFailedAttempts: int): (g: Game)
    ensures g.maxFailedAttempts == maxFailedAttempts
    ensures g.failedAttempts == 0
    ensures g.state == Running
    ensures g.word == InitWord(word) && g.word.word == word
    ensures forall i :: 0 <= i < |g.word.letters| ==> g.word.letters[i] == Hidden(word[i])
    ensures g.triedLetters == []
    ensures Valid(g)
  {
    Game(maxFailedAttempts, 0, Running, InitWord(word), [])
  }

  /**
   * Plays one guess. An invalid guess aborts with the word tracker's error
   * and yields no game. Otherwise a miss costs one attempt, the game is lost
   * once the failures reach the budget (checked before winning), won once
   * every letter is discovered, and keeps its previous status otherwise; a
   * lost game shows the whole word; the guess is appended to the history.
   */
  function TryLetter(g: Game, letter: string): (r: Result<Game, InvalidLetterError>)
    ensures r.Failure? <==> !ValidGuess(letter)
    ensures r.Failure? ==> r.error == InvalidLetterError(letter)
    ensures r.Success? ==>
      var d := DiscoverLetter(g.word, letter).value;
      var ng := r.value;
      && ng.failedAttempts == (if d.outcome == NotFound then g.failedAttempts + 1 else g.failedAttempts)
      && ng.maxFailedAttempts == g.maxFailedAttempts
      && ng.triedLetters == g.triedLetters + [letter]
      && (g.maxFailedAttempts <= ng.failedAttempts ==> ng.state == Lost)
      && (ng.failedAttempts < g.maxFailedAttempts && AllDiscovered(d.newWord.letters) ==> ng.state == Won)
      && (ng.failedAttempts < g.maxFailedAttempts && !AllDiscovered(d.newWord.letters) ==> ng.state == g.state)
      && (ng.state == Lost ==> ng.word == DiscoverWord(d.newWord) && AllDiscovered(ng.word.letters))
      && (ng.state != Lost ==> ng.word == d.newWord)
      && ng.word.word == g.word.word
  {
    var d :- DiscoverLetter(g.word, letter);
    var newFailedAttempts := if d.outcome == NotFound then g.failedAttempts + 1 else g.failedAttempts;
    var areAllLettersDiscovered := AllDiscovered(d.newWord.letters);
    var newState :=
      if g.maxFailedAttempts <= newFailedAttempts then Lost
      else if areAllLettersDiscovered then Won
      else g.state;
    Success(Game(
      g.maxFailedAttempts,
      newFailedAttempts,
      newState,
      if newState == Lost then DiscoverWord(d.newWord) else d.newWord,
      g.triedLetters + [letter]))
  }

  /** `TryLetter` keeps every invariant of a game. */
  lemma TryLetterKeepsValid(g: Game, letter: string)
    requires Valid(g) && ValidGuess(letter)
    ensures TryLetter(g, letter).Success?
    ensures Valid(TryLetter(g, letter).value)
  {
    var d := DiscoverLetter(g.word, letter).value;
    var ng := TryLetter(g, letter).value;
    if ng.state == Won && g.state == Won {
      forall i | 0 <= i < |d.newWord.letters| ensures IsLetterDiscovered(d.newWord.letters[i]) {
        assert g.word.letters[i].Discovered?;
      }
    }
  }

  /**
   * The win law: on a valid game, a guess wins exactly when afterwards every
   * letter is discovered and the failures are still below the budget.
   */
  lemma WinLaw(g: Game, letter: string)
    requires Valid(g) && ValidGuess(letter)
    ensures
      var d := DiscoverLetter(g.word, letter).value;
      var ng := TryLetter(g, letter).value;
      ng.state == Won <==> AllDiscovered(d.newWord.letters) && ng.failedAttempts < ng.maxFailedAttempts
  {
    var d := DiscoverLetter(g.word, letter).value;
    if g.state == Won {
      forall i | 0 <= i < |d.newWord.letters| ensures IsLetterDiscovered(d.newWord.letters[i]) {
        assert g.word.letters[i].Discovered?;
      }
    }
  }

  /**
   * On a valid game a guess loses exactly when the failures reach the budget;
   * in particular a running game never turns lost any other way.
   */
  lemma LostIffBudgetSpent(g: Game, letter: string)
    requires Valid(g) && ValidGuess(letter)
    ensures
      var ng := TryLetter(g, letter).value;
      ng.state == Lost <==> ng.maxFailedAttempts <= ng.failedAttempts
  {
  }

  /**
   * On a valid game a guess costs an attempt exactly when its letter does not
   * occur in the word; a correct or repeated correct guess costs nothing.
   */
  lemma MissCostsOneAttempt(g: Game, letter: string)
    requires Valid(g) && ValidGuess(letter)
    ensures
      var ng := TryLetter(g, letter).value;
      && (letter[0] !in g.word.word ==> ng.failedAttempts == g.failedAttempts + 1)
      && (letter[0] in g.word.word ==> ng.failedAttempts == g.failedAttempts)
  {
    NotFoundIffAbsent(g.word, letter);
  }

  /** A valid lost game stays lost whatever valid letter is guessed. */
  lemma LostIsAbsorbing(g: Game, letter: string)
    requires Valid(g) && g.state == Lost && ValidGuess(letter)
    ensures TryLetter(g, letter).Success?
    ensures TryLetter(g, letter).value.state == Lost
  {
  }

  /**
   * Plays a sequence of guesses from left to right, stopping at the first
   * invalid one with its error.
   */
  function Play(g: Game, letters: seq<string>): (r: Result<Game, InvalidLetterError>)
    ensures r.Failure? <==> exists i :: 0 <= i < |letters| && !ValidGuess(letters[i])
    ensures r.Failure? ==> exists k :: (0 <= k < |letters| && !ValidGuess(letters[k])
      && (forall i :: 0 <= i < k ==> ValidGuess(letters[i]))
      && r.error == InvalidLetterError(letters[k]))
    decreases |letters|
  {
    if |letters| == 0 then Success(g)
    else
      var next :- TryLetter(g, letters[0]);
      var r := Play(next, letters[1..]);
      if r.Failure? then
        var k :| FirstInvalidAt(letters[1..], k) && r.error == InvalidLetterError(letters[1..][k]);
        FirstInvalidShift(letters, k);
        r
      else
        AllValidShift(letters);
        r
  }

  /** `letters[k]` is the first invalid guess of the run. */
  predicate FirstInvalidAt(letters: seq<string>, k: int) {
    && 0 <= k < |letters| && !ValidGuess(letters[k])
    && (forall i :: 0 <= i < k ==> ValidGuess(letters[i]))
  }

  /** Behind a valid head, the first invalid guess of the tail is one further on. */
  lemma FirstInvalidShift(letters: seq<string>, k: int)
    requires |letters| > 0 && ValidGuess(letters[0])
    requires FirstInvalidAt(letters[1..], k)
    ensures FirstInvalidAt(letters, k + 1) && letters[k + 1] == letters[1..][k]
  {
    assert forall i :: 0 < i < |letters| ==> letters[i] == letters[1..][i - 1];
  }

  /** Behind a valid head, the run is all valid iff its tail is. */
  lemma AllValidShift(letters: seq<string>)
    requires |letters| > 0 && ValidGuess(letters[0])
    ensures (exists i :: 0 <= i < |letters| && !ValidGuess(letters[i]))
      <==> exists i :: 0 <= i < |letters[1..]| && !ValidGuess(letters[1..][i])
  {
    assert forall i :: 0 < i < |letters| ==> letters[i] == letters[1..][i - 1];
  }

  /** Playing a non-empty run is playing its first guess, then the rest. */
  lemma PlayStep(g: Game, letters: seq<string>)
    requires |letters| > 0 && ValidGuess(letters[0])
    ensures TryLetter(g, letters[0]).Success?
    ensures Play(g, letters) == Play(TryLetter(g, letters[0]).value, letters[1..])
  {
  }

  lemma RestValid(letters: seq<string>)
    requires |letters| > 0
    requires forall i :: 0 <= i < |letters| ==> ValidGuess(letters[i])
    ensures forall i :: 0 <= i < |letters[1..]| ==> ValidGuess(letters[1..][i])
  {
    forall i | 0 <= i < |letters[1..]| ensures ValidGuess(letters[1..][i]) {
      assert letters[1..][i] == letters[i + 1];
    }
  }

  /** What one valid guess does to the counters and the history. */
  lemma Bookkeeping(g: Game, letter: string)
    requires ValidGuess(letter)
    ensures TryLetter(g, letter).Success?
    ensures TryLetter(g, letter).value.failedAttempts >= g.failedAttempts
    ensures TryLetter(g, letter).value.maxFailedAttempts == g.maxFailedAttempts
    ensures TryLetter(g, letter).value.triedLetters == g.triedLetters + [letter]
  {
  }

  lemma AppendAssoc<T>(a: seq<T>, b: seq<T>, c: seq<T>)
    ensures (a + b) + c == a + (b + c)
  {
  }

  /**
   * Over any run of guesses the failure counter never decreases, the budget
   * never changes and the history is extended by exactly the guesses.
   */
  lemma {:induction false} PlayMonotone(g: Game, letters: seq<string>)
    requires forall i :: 0 <= i < |letters| ==> ValidGuess(letters[i])
    ensures Play(g, letters).Success?
    ensures Play(g, letters).value.failedAttempts >= g.failedAttempts
    ensures Play(g, letters).value.maxFailedAttempts == g.maxFailedAttempts
    ensures Play(g, letters).value.triedLetters == g.triedLetters + letters
    decreases |letters|
  {
    if |letters| > 0 {
      RestValid(letters);
      PlayStep(g, letters);
      Bookkeeping(g, letters[0]);
      PlayMonotone(TryLetter(g, letters[0]).value, letters[1..]);
      AppendAssoc(g.triedLetters, [letters[0]], letters[1..]);
      assert [letters[0]] + letters[1..] == letters;
    }
  }

  /** Any run of guesses from a valid game ends in a valid game. */
  lemma {:induction false} PlayKeepsValid(g: Game, letters: seq<string>)
    requires Valid(g)
    requires forall i :: 0 <= i < |letters| ==> ValidGuess(letters[i])
    ensures Play(g, letters).Success?
    ensures Valid(Play(g, letters).value)
    decreases |letters|
  {
    if |letters| > 0 {
      RestValid(letters);
      PlayStep(g, letters);
      TryLetterKeepsValid(g, letters[0]);
      PlayKeepsValid(TryLetter(g, letters[0]).value, letters[1..]);
    }
  }

  /** Once lost, a valid game stays lost over any run of valid guesses. */
  lemma {:induction false} LostStaysLost(g: Game, letters: seq<string>)
    requires Valid(g) && g.state == Lost
    requires forall i :: 0 <= i < |letters| ==> ValidGuess(letters[i])
    ensures Play(g, letters).Success?
    ensures Play(g, letters).value.state == Lost
    decreases |letters|
  {
    if |letters| > 0 {
      RestValid(letters);
      PlayStep(g, letters);
      TryLetterKeepsValid(g, letters[0]);
      LostIsAbsorbing(g, letters[0]);
      LostStaysLost(TryLetter(g, letters[0]).value, letters[1..]);
    }
  }

  /**
   * From a fresh game, a run of valid guesses never counts more failures
   * than there were guesses.
   */
  lemma FailuresBoundedByGuesses(word: string, maxFailedAttempts: int, letters: seq<string>)
    requires forall i :: 0 <= i < |letters| ==> ValidGuess(letters[i])
    ensures Play(InitGame(word, maxFailedAttempts), letters).Success?
    ensures Play(InitGame(word, maxFailedAttempts), letters).value.failedAttempts <= |letters|
  {
    var g := InitGame(word, maxFailedAttempts);
    PlayKeepsValid(g, letters);
    PlayMonotone(g, letters);
  }

  /** The valid guesses of a run, in order. */
  function ValidGuesses(letters: seq<string>): (r: seq<string>)
    ensures |r| <= |letters|
    ensures forall i :: 0 <= i < |r| ==> ValidGuess(r[i])
    ensures forall s :: s in r <==> s in letters && ValidGuess(s)
    ensures (forall i :: 0 <= i < |letters| ==> ValidGuess(letters[i])) ==> r == letters
    decreases |letters|
  {
    if |letters| == 0 then []
    else
      assert letters == [letters[0]] + letters[1..];
      if ValidGuess(letters[0]) then [letters[0]] + ValidGuesses(letters[1..])
      else ValidGuesses(letters[1..])
  }

  /**
   * Filtering commutes with concatenation: the valid guesses of a run keep
   * the run's order.
   */
  lemma {:induction false} ValidGuessesAppend(a: seq<string>, b: seq<string>)
    ensures ValidGuesses(a + b) == ValidGuesses(a) + ValidGuesses(b)
    decreases |a|
  {
    if |a| > 0 {
      assert (a + b)[0] == a[0] && (a + b)[1..] == a[1..] + b;
      ValidGuessesAppend(a[1..], b);
      if ValidGuess(a[0]) {
        AppendAssoc([a[0]], ValidGuesses(a[1..]), ValidGuesses(b));
      }
    } else {
      assert a + b == b;
    }
  }

  /**
   * The web route served over a run of requests: each request applies its
   * guess to the current game. A request whose guess is invalid fails on its
   * own and leaves the game as it was.
   */
  function Serve(g: Game, requests: seq<string>): (r: Game)
    ensures r.maxFailedAttempts == g.maxFailedAttempts
    ensures r.failedAttempts >= g.failedAttempts
    ensures r.triedLetters == g.triedLetters + ValidGuesses(requests)
    decreases |requests|
  {
    if |requests| == 0 then g
    else if !ValidGuess(requests[0]) then Serve(g, requests[1..])
    else
      var next := TryLetter(g, requests[0]).value;
      AppendAssoc(g.triedLetters, [requests[0]], ValidGuesses(requests[1..]));
      Serve(next, requests[1..])
  }

  /** When every request is a valid guess, serving them is playing them. */
  lemma {:induction false} ServeAgreesWithPlay(g: Game, letters: seq<string>)
    requires forall i :: 0 <= i < |letters| ==> ValidGuess(letters[i])
    ensures Play(g, letters) == Success(Serve(g, letters))
    decreases |letters|
  {
    if |letters| > 0 {
      RestValid(letters);
      PlayStep(g, letters);
      ServeAgreesWithPlay(TryLetter(g, letters[0]).value, letters[1..]);
    }
  }

  /** Serving requests to a valid game keeps it valid, whatever they are. */
  lemma {:induction false} ServeKeepsValid(g: Game, requests: seq<string>)
    requires Valid(g)
    ensures Valid(Serve(g, requests))
    decreases |requests|
  {
    if |requests| > 0 {
      if ValidGuess(requests[0]) {
        TryLetterKeepsValid(g, requests[0]);
        ServeKeepsValid(TryLetter(g, requests[0]).value, requests[1..]);
      } else {
        ServeKeepsValid(g, requests[1..]);
      }
    }
  }

  /**
   * Serving a run of requests is playing its valid guesses alone: an invalid
   * request leaves the word, the state and the counters as they were.
   */
  lemma {:induction false} ServeIsPlayOfValid(g: Game, requests: seq<string>)
    ensures Play(g, ValidGuesses(requests)) == Success(Serve(g, requests))
    decreases |requests|
  {
    if |requests| > 0 {
      if ValidGuess(requests[0]) {
        var valid := ValidGuesses(requests);
        assert valid == [requests[0]] + ValidGuesses(requests[1..]);
        PlayStep(g, valid);
        assert valid[1..] == ValidGuesses(requests[1..]);
        ServeIsPlayOfValid(TryLetter(g, requests[0]).value, requests[1..]);
      } else {
        ServeIsPlayOfValid(g, requests[1..]);
      }
    }
  }
}
