/** The concrete scenarios of the repository's test suite, as lemmas. */
module Scenarios {
  import opened Wrappers
  import opened Words
  import opened Games

  /** The letters of "hello" with the first `shown` positions discovered. */
  function Hello(shown: nat): seq<LetterState> {
    [ if 0 < shown then Discovered('h') else Hidden('h'),
      if 1 < shown then Discovered('e') else Hidden('e'),
      if 2 < shown then Discovered('l') else Hidden('l'),
      if 3 < shown then Discovered('l') else Hidden('l'),
      if 4 < shown then Discovered('o') else Hidden('o') ]
  }

  lemma InitWordCheese()
    ensures InitWord("cheese") == Word("cheese",
      [Hidden('c'), Hidden('h'), Hidden('e'), Hidden('e'), Hidden('s'), Hidden('e')])
  {
    var word := "cheese";
    var w := InitWord(word);
    assert word == ['c', 'h', 'e', 'e', 's', 'e'];
    assert w.letters[0] == Hidden('c') && w.letters[1] == Hidden('h') && w.letters[2] == Hidden('e');
    assert w.letters[3] == Hidden('e') && w.letters[4] == Hidden('s') && w.letters[5] == Hidden('e');
  }

  lemma DiscoverPresentLetter()
    ensures DiscoverLetter(InitWord("cheese"), "e") == Success(DiscoverLetterResult(
      Word("cheese", [Hidden('c'), Hidden('h'), Discovered('e'), Discovered('e'), Hidden('s'), Discovered('e')]),
      Found))
  {
    InitWordCheese();
    var w := InitWord("cheese");
    var nl := DiscoverLetter(w, "e").value.newWord.letters;
    assert w.letters[2].Hidden?;
    assert nl == [Hidden('c'), Hidden('h'), Discovered('e'), Discovered('e'), Hidden('s'), Discovered('e')];
  }

  lemma DiscoverAbsentLetter()
    ensures DiscoverLetter(InitWord("cheese"), "n") == Success(DiscoverLetterResult(InitWord("cheese"), NotFound))
  {
    NotFoundIffAbsent(InitWord("cheese"), "n");
  }

  lemma DiscoverLetterAgain()
    ensures
      var first := DiscoverLetter(InitWord("cheese"), "h").value.newWord;
      && first == Word("cheese", [Hidden('c'), Discovered('h'), Hidden('e'), Hidden('e'), Hidden('s'), Hidden('e')])
      && DiscoverLetter(first, "h") == Success(DiscoverLetterResult(first, AlreadyFound))
  {
    var w := InitWord("cheese");
    RevealH();
    RepeatedGuess(w, "h");
  }

  /** Guessing "h" in a fresh "cheese" reveals position 1 only. */
  lemma RevealH()
    ensures DiscoverLetter(InitWord("cheese"), "h").value.newWord
      == Word("cheese", [Hidden('c'), Discovered('h'), Hidden('e'), Hidden('e'), Hidden('s'), Hidden('e')])
  {
    InitWordCheese();
    var w := InitWord("cheese");
    var nl := DiscoverLetter(w, "h").value.newWord.letters;
    assert nl == [Hidden('c'), Discovered('h'), Hidden('e'), Hidden('e'), Hidden('s'), Hidden('e')];
  }

  lemma InvalidGuesses()
    ensures DiscoverLetter(InitWord("chest"), "ce") == Failure(InvalidLetterError("ce"))
    ensures DiscoverLetter(InitWord("chest"), "") == Failure(InvalidLetterError(""))
  {
  }

  lemma InitWordHello()
    ensures InitWord("hello") == Word("hello", Hello(0))
  {
    var word := "hello";
    var w := InitWord(word);
    assert word == ['h', 'e', 'l', 'l', 'o'];
    assert w.letters[0] == Hidden('h') && w.letters[1] == Hidden('e') && w.letters[2] == Hidden('l');
    assert w.letters[3] == Hidden('l') && w.letters[4] == Hidden('o');
  }

  lemma InitGameHello()
    ensures InitGame("hello", 5) == Game(5, 0, Running, Word("hello", Hello(0)), [])
  {
    InitWordHello();
  }

  /** The positions of `c` in "hello" are exactly `from` up to `to`. */
  predicate HelloOccurs(c: char, from: nat, to: nat) {
    && ('h' == c <==> from <= 0 < to)
    && ('e' == c <==> from <= 1 < to)
    && ('l' == c <==> from <= 2 < to)
    && ('l' == c <==> from <= 3 < to)
    && ('o' == c <==> from <= 4 < to)
  }

  lemma HelloFacts(n: nat)
    ensures WellFormed(Word("hello", Hello(n)))
    ensures AllDiscovered(Hello(n)) <==> 5 <= n
    ensures DiscoverWord(Word("hello", Hello(n))) == Word("hello", Hello(5))
  {
    var w := Word("hello", Hello(n));
    assert w.word[0] == 'h' && w.word[1] == 'e' && w.word[2] == 'l' && w.word[3] == 'l' && w.word[4] == 'o';
    if n < 5 {
      assert !IsLetterDiscovered(Hello(n)[4]);
    }
    var r := DiscoverWord(w).letters;
    assert r[0] == Discovered('h') && r[1] == Discovered('e') && r[2] == Discovered('l');
    assert r[3] == Discovered('l') && r[4] == Discovered('o');
  }

  /**
   * Guessing `c` when its occurrences are exactly the hidden positions
   * `before` up to `after` reveals them and is `Found`.
   */
  lemma HelloReveal(before: nat, c: char, after: nat)
    requires before < after <= 5 && HelloOccurs(c, before, after)
    ensures DiscoverLetter(Word("hello", Hello(before)), [c])
      == Success(DiscoverLetterResult(Word("hello", Hello(after)), Found))
  {
    var w := Word("hello", Hello(before));
    HelloRevealLetters(before, c, after);
    assert w.letters[before].Hidden? && w.letters[before].letter == c;
  }

  /** The letters half of `HelloReveal`: the guess law, position by position. */
  lemma HelloRevealLetters(before: nat, c: char, after: nat)
    requires before < after <= 5 && HelloOccurs(c, before, after)
    ensures DiscoverLetter(Word("hello", Hello(before)), [c]).Success?
    ensures DiscoverLetter(Word("hello", Hello(before)), [c]).value.newWord == Word("hello", Hello(after))
  {
    var w := Word("hello", Hello(before));
    var d := DiscoverLetter(w, [c]).value.newWord;
    assert d.word == "hello" && RevealsExactly(Hello(before), d.letters, c);
    HelloLaw(before, c, after, d.letters);
  }

  /** The guess law on the letters of "hello", without the word tracker around it. */
  lemma HelloLaw(before: nat, c: char, after: nat, nl: seq<LetterState>)
    requires before < after <= 5 && HelloOccurs(c, before, after)
    requires RevealsExactly(Hello(before), nl, c)
    ensures nl == Hello(after)
  {
    assert nl[0] == Hello(after)[0] && nl[1] == Hello(after)[1] && nl[2] == Hello(after)[2];
    assert nl[3] == Hello(after)[3] && nl[4] == Hello(after)[4];
  }

  /** A hit on a running "hello" game: it costs nothing and wins on the last letter. */
  lemma HelloHit(before: nat, c: char, after: nat, tried: seq<string>)
    requires before < after <= 5 && HelloOccurs(c, before, after)
    ensures TryLetter(Game(5, 0, Running, Word("hello", Hello(before)), tried), [c])
      == Success(Game(5, 0, if after == 5 then Won else Running, Word("hello", Hello(after)), tried + [[c]]))
  {
    HelloReveal(before, c, after);
    HelloFacts(after);
  }

  /** A miss on a "hello" game: it costs one attempt and loses at the budget. */
  lemma HelloMiss(shown: nat, c: char, max: int, failed: nat, state: GameState, tried: seq<string>)
    requires HelloOccurs(c, 0, 0) && state != Lost
    ensures TryLetter(Game(max, failed, state, Word("hello", Hello(shown)), tried), [c])
      == Success(Game(max, failed + 1, if max <= failed + 1 then Lost else if 5 <= shown then Won else state,
           Word("hello", if max <= failed + 1 then Hello(5) else Hello(shown)), tried + [[c]]))
  {
    var w := Word("hello", Hello(shown));
    HelloFacts(shown);
    assert c !in w.word by {
      assert w.word == ['h', 'e', 'l', 'l', 'o'];
    }
    NotFoundIffAbsent(w, [c]);
    var d := DiscoverLetter(w, [c]).value;
    assert d.outcome == NotFound && d.newWord == w;
    var r := TryLetter(Game(max, failed, state, w, tried), [c]).value;
    assert r.failedAttempts == failed + 1;
    if max <= failed + 1 {
      assert r.state == Lost && r.word == DiscoverWord(w);
    } else {
      assert r.word == w;
    }
  }

  /** A guess that reveals something and neither wins nor loses. */
  lemma CorrectGuessCostsNothing()
    ensures TryLetter(InitGame("hello", 5), "h") == Success(Game(5, 0, Running, Word("hello", Hello(1)), ["h"]))
  {
    InitGameHello();
    HelloHit(0, 'h', 1, []);
    assert ['h'] == "h" && [] + ["h"] == ["h"];
  }

  lemma WrongGuessCostsOne()
    ensures TryLetter(InitGame("hello", 5), "j") == Success(Game(5, 1, Running, Word("hello", Hello(0)), ["j"]))
  {
    InitGameHello();
    HelloMiss(0, 'j', 5, 0, Running, []);
    assert ['j'] == "j" && [] + ["j"] == ["j"];
  }

  lemma LastAttemptLoses()
    ensures TryLetter(InitGame("hello", 1), "j") == Success(Game(1, 1, Lost, Word("hello", Hello(5)), ["j"]))
  {
    InitWordHello();
    HelloMiss(0, 'j', 1, 0, Running, []);
    assert ['j'] == "j" && [] + ["j"] == ["j"];
  }

  lemma SecondGuess()
    ensures TryLetter(Game(5, 0, Running, Word("hello", Hello(1)), ["h"]), "e")
      == Success(Game(5, 0, Running, Word("hello", Hello(2)), ["h", "e"]))
  {
    HelloHit(1, 'e', 2, ["h"]);
    assert ['e'] == "e" && ["h"] + ["e"] == ["h", "e"];
  }

  lemma ThirdGuess()
    ensures TryLetter(Game(5, 0, Running, Word("hello", Hello(2)), ["h", "e"]), "l")
      == Success(Game(5, 0, Running, Word("hello", Hello(4)), ["h", "e", "l"]))
  {
    HelloHit(2, 'l', 4, ["h", "e"]);
    assert ['l'] == "l" && ["h", "e"] + ["l"] == ["h", "e", "l"];
  }

  lemma FourthGuess()
    ensures TryLetter(Game(5, 0, Running, Word("hello", Hello(4)), ["h", "e", "l"]), "o")
      == Success(Game(5, 0, Won, Word("hello", Hello(5)), ["h", "e", "l", "o"]))
  {
    HelloHit(4, 'o', 5, ["h", "e", "l"]);
    assert ['o'] == "o" && ["h", "e", "l"] + ["o"] == ["h", "e", "l", "o"];
  }

  lemma GuessingEveryLetterWins()
    ensures Play(InitGame("hello", 5), ["h", "e", "l", "o"])
      == Success(Game(5, 0, Won, Word("hello", Hello(5)), ["h", "e", "l", "o"]))
  {
    CorrectGuessCostsNothing();
    SecondGuess();
    ThirdGuess();
    FourthGuess();
    PlayFour(InitGame("hello", 5),
      Game(5, 0, Running, Word("hello", Hello(1)), ["h"]),
      Game(5, 0, Running, Word("hello", Hello(2)), ["h", "e"]),
      Game(5, 0, Running, Word("hello", Hello(4)), ["h", "e", "l"]),
      Game(5, 0, Won, Word("hello", Hello(5)), ["h", "e", "l", "o"]),
      "h", "e", "l", "o");
  }

  /** Four successful guesses in a row, played as one run. */
  lemma PlayFour(g0: Game, g1: Game, g2: Game, g3: Game, g4: Game, a: string, b: string, c: string, d: string)
    requires TryLetter(g0, a) == Success(g1) && TryLetter(g1, b) == Success(g2)
    requires TryLetter(g2, c) == Success(g3) && TryLetter(g3, d) == Success(g4)
    ensures Play(g0, [a, b, c, d]) == Success(g4)
  {
    var guesses := [a, b, c, d];
    PlayStep(g0, guesses);
    PlayStep(g1, guesses[1..]);
    PlayStep(g2, guesses[2..]);
    PlayStep(g3, guesses[3..]);
    assert guesses[4..] == [];
  }

  /**
   * A won game is not final: a wrong guess still counts, and once the budget
   * is reached the game turns lost.
   */
  lemma WonGameCanStillBeLost()
    ensures TryLetter(Game(1, 0, Won, Word("hello", Hello(5)), ["h", "e", "l", "o"]), "j")
      == Success(Game(1, 1, Lost, Word("hello", Hello(5)), ["h", "e", "l", "o", "j"]))
  {
    var tried: seq<string> := ["h", "e", "l", "o"];
    assert ['j'] == "j";
    HelloMiss(5, 'j', 1, 0, Won, tried);
    assert tried + ["j"] == ["h", "e", "l", "o", "j"];
  }
}
