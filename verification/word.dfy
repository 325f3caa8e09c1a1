/**
 * The word tracker: the hidden word and the discovery state of each of its
 * characters (src/domain/word.ts).
 */
module Words {
  import opened Wrappers
  import JsCoercion

  /** One character of the word, either still hidden or already revealed. */
  datatype LetterState = Hidden(letter: char) | Discovered(letter: char)

  /** The word to guess and the state of each of its characters. */
  datatype Word = Word(word: string, letters: seq<LetterState>)

  /** How a single guess went. */
  datatype Outcome = Found | AlreadyFound | NotFound

  datatype DiscoverLetterResult = DiscoverLetterResult(newWord: Word, outcome: Outcome)

  /** Raised when a guess is not exactly one character; carries the guess. */
  datatype InvalidLetterError = InvalidLetterError(letter: string)

  /** The letters spell out the word, position by position. */
  predicate WellFormed(w: Word) {
    && |w.letters| == |w.word|
    && forall i :: 0 <= i < |w.letters| ==> w.letters[i].letter == w.word[i]
  }

  /** A guess is accepted only when it is exactly one character long. */
  predicate ValidGuess(letter: string): (b: bool)
    ensures b <==> !(|letter| > 1 || letter == "")
  {
    |letter| == 1
  }

  /** A letter is discovered exactly when revealing it changes nothing. */
  predicate IsLetterDiscovered(l: LetterState): (b: bool)
    ensures b <==> ToDiscovered(l) == l
  {
    l.Discovered?
  }

  /** The tracked character, as a one-character string, equals the guess. */
  predicate IsLetterMatching(l: LetterState, letter: string): (b: bool)
    ensures b <==> ValidGuess(letter) && letter[0] == l.letter
  {
    [l.letter] == letter
  }

  function ToDiscovered(l: LetterState): (d: LetterState)
    ensures d.Discovered? && d.letter == l.letter
  {
    Discovered(l.letter)
  }

  /** Every letter is discovered: the whole word is on display. */
  predicate AllDiscovered(ls: seq<LetterState>): (b: bool)
    ensures b <==> DiscoveredCount(ls) == |ls|
  {
    FullCountIffAllDiscovered(ls);
    forall i :: 0 <= i < |ls| ==> IsLetterDiscovered(ls[i])
  }

  /** The filtered "discovered" array is as long as the word iff nothing is hidden. */
  lemma {:induction false} FullCountIffAllDiscovered(ls: seq<LetterState>)
    ensures DiscoveredCount(ls) == |ls| <==> forall i :: 0 <= i < |ls| ==> ls[i].Discovered?
    decreases |ls|
  {
    if |ls| > 0 {
      FullCountIffAllDiscovered(ls[1..]);
      assert forall i :: 0 < i < |ls| ==> ls[i] == ls[1..][i - 1];
    }
  }

  /** Number of discovered entries: the length of the filtered array. */
  function DiscoveredCount(ls: seq<LetterState>): (n: nat)
    ensures n <= |ls|
  {
    if |ls| == 0 then 0
    else (if IsLetterDiscovered(ls[0]) then 1 else 0) + DiscoveredCount(ls[1..])
  }

  /** Positions that were hidden before and are discovered now. */
  predicate NewlyRevealed(before: seq<LetterState>, after: seq<LetterState>)
    requires |before| == |after|
  {
    exists i :: 0 <= i < |before| && before[i].Hidden? && after[i].Discovered?
  }

  /** Every discovered entry of `before` is still discovered in `after`. */
  predicate KeepsDiscovered(before: seq<LetterState>, after: seq<LetterState>)
    requires |before| == |after|
  {
    forall i :: 0 <= i < |before| ==> before[i].Discovered? ==> after[i].Discovered?
  }

  /**
   * When no entry is hidden again, the discovered count can only grow, and it
   * grows exactly when some hidden entry became discovered.
   */
  lemma {:induction false} CountGrowsWithReveal(before: seq<LetterState>, after: seq<LetterState>)
    requires |before| == |after|
    requires KeepsDiscovered(before, after)
    ensures DiscoveredCount(before) <= DiscoveredCount(after)
    ensures DiscoveredCount(before) < DiscoveredCount(after) <==> NewlyRevealed(before, after)
    decreases |before|
  {
    if |before| > 0 {
      var b', a' := before[1..], after[1..];
      assert KeepsDiscovered(b', a') by {
        forall i | 0 <= i < |b'| ensures b'[i].Discovered? ==> a'[i].Discovered? {
          assert b'[i] == before[i + 1] && a'[i] == after[i + 1];
        }
      }
      CountGrowsWithReveal(b', a');
      if NewlyRevealed(b', a') {
        var i :| 0 <= i < |b'| && b'[i].Hidden? && a'[i].Discovered?;
        assert before[i + 1].Hidden? && after[i + 1].Discovered?;
      }
      if NewlyRevealed(before, after) {
        var i :| 0 <= i < |before| && before[i].Hidden? && after[i].Discovered?;
        if i > 0 {
          assert b'[i - 1] == before[i] && a'[i - 1] == after[i];
        }
      }
    }
  }

  /** Builds the tracker for `word` with every character hidden. */
  function InitWord(word: string): (w: Word)
    ensures w.word == word
    ensures WellFormed(w)
    ensures forall i :: 0 <= i < |w.letters| ==> w.letters[i].Hidden?
    ensures DiscoveredCount(w.letters) == 0
  {
    var w := Word(word, seq(|word|, i requires 0 <= i < |word| => Hidden(word[i])));
    NothingDiscoveredCountsZero(w.letters);
    w
  }

  lemma {:induction false} NothingDiscoveredCountsZero(ls: seq<LetterState>)
    requires forall i :: 0 <= i < |ls| ==> ls[i].Hidden?
    ensures DiscoveredCount(ls) == 0
    decreases |ls|
  {
    if |ls| > 0 {
      assert forall i :: 0 <= i < |ls[1..]| ==> ls[1..][i] == ls[i + 1];
      NothingDiscoveredCountsZero(ls[1..]);
    }
  }

  /** The per-entry step of a guess: a hidden matching entry is revealed. */
  function RevealIfMatching(l: LetterState, letter: string): (r: LetterState)
    ensures r.letter == l.letter
    ensures l.Discovered? ==> r == l
    ensures r.Discovered? <==> l.Discovered? || IsLetterMatching(l, letter)
  {
    if IsLetterDiscovered(l) then l
    else if IsLetterMatching(l, letter) then ToDiscovered(l)
    else l
  }

  /**
   * The law of one guess of character `c`, position by position: characters
   * are kept, discovered entries stay as they are, and a hidden entry is
   * discovered exactly when its character is `c`.
   */
  predicate RevealsExactly(before: seq<LetterState>, after: seq<LetterState>, c: char) {
    && |after| == |before|
    && (forall i :: 0 <= i < |before| ==> after[i].letter == before[i].letter)
    && (forall i :: 0 <= i < |before| && before[i].Discovered? ==> after[i] == before[i])
    && (forall i :: 0 <= i < |before| && before[i].Hidden? ==> (after[i].Discovered? <==> before[i].letter == c))
  }

  function RevealMatching(ls: seq<LetterState>, letter: string): (r: seq<LetterState>)
    requires ValidGuess(letter)
    ensures RevealsExactly(ls, r, letter[0])
  {
    seq(|ls|, i requires 0 <= i < |ls| => RevealIfMatching(ls[i], letter))
  }

  /** A guess never hides anything, and it reveals something iff `c` was hidden. */
  lemma RevealFacts(before: seq<LetterState>, after: seq<LetterState>, c: char)
    requires RevealsExactly(before, after, c)
    ensures KeepsDiscovered(before, after)
    ensures NewlyRevealed(before, after) <==>
      exists i :: 0 <= i < |before| && before[i].Hidden? && before[i].letter == c
  {
    if exists i :: 0 <= i < |before| && before[i].Hidden? && before[i].letter == c {
      var i :| 0 <= i < |before| && before[i].Hidden? && before[i].letter == c;
      assert after[i].Discovered?;
    }
  }

  /** A guess keeps the letters spelling out the word. */
  lemma RevealKeepsWellFormed(w: Word, after: seq<LetterState>, c: char)
    requires RevealsExactly(w.letters, after, c)
    ensures WellFormed(w) ==> WellFormed(Word(w.word, after))
  {
  }

  /**
   * Evaluates one guess. A guess that is not exactly one character fails;
   * otherwise every hidden matching entry is revealed and the outcome says
   * whether something new was revealed, whether the letter was in the word
   * already, or neither. The "found" test compares the two filtered arrays
   * with `<` as the source does.
   */
  function DiscoverLetter(w: Word, letter: string): (r: Result<DiscoverLetterResult, InvalidLetterError>)
    ensures r.Failure? <==> !ValidGuess(letter)
    ensures r.Failure? ==> r.error == InvalidLetterError(letter)
    ensures r.Success? ==> r.value.newWord.word == w.word
    ensures r.Success? ==> RevealsExactly(w.letters, r.value.newWord.letters, letter[0])
    ensures r.Success? ==>
      (r.value.outcome == Found <==>
        exists i :: 0 <= i < |w.letters| && w.letters[i].Hidden? && w.letters[i].letter == letter[0])
    ensures r.Success? ==>
      (r.value.outcome == Found <==> DiscoveredCount(w.letters) < DiscoveredCount(r.value.newWord.letters))
    ensures r.Success? && r.value.outcome != Found ==>
      (r.value.outcome == AlreadyFound <==> letter[0] in w.word)
    ensures r.Success? && WellFormed(w) ==> WellFormed(r.value.newWord)
  {
    if |letter| > 1 || letter == "" then
      Failure(InvalidLetterError(letter))
    else
      var newLetters := RevealMatching(w.letters, letter);
      var oldDiscovered := DiscoveredCount(w.letters);
      var newDiscovered := DiscoveredCount(newLetters);
      // `word.includes(letter)` for a one-character `letter`
      var isLetterInTheWord := letter[0] in w.word;
      JsCoercion.ArrayLessIsLengthLess(oldDiscovered, newDiscovered);
      RevealFacts(w.letters, newLetters, letter[0]);
      CountGrowsWithReveal(w.letters, newLetters);
      RevealKeepsWellFormed(w, newLetters, letter[0]);
      var outcome :=
        if JsCoercion.LexLess(JsCoercion.ArrayString(oldDiscovered), JsCoercion.ArrayString(newDiscovered))
        then Found
        else if isLetterInTheWord then AlreadyFound
        else NotFound;
      Success(DiscoverLetterResult(Word(w.word, newLetters), outcome))
  }

  /** Reveals every character, keeping the characters themselves. */
  function DiscoverWord(w: Word): (r: Word)
    ensures r.word == w.word
    ensures |r.letters| == |w.letters|
    ensures AllDiscovered(r.letters)
    ensures forall i :: 0 <= i < |w.letters| ==> r.letters[i].letter == w.letters[i].letter
    ensures WellFormed(w) ==> WellFormed(r)
  {
    w.(letters := seq(|w.letters|, i requires 0 <= i < |w.letters| =>
      if IsLetterDiscovered(w.letters[i]) then w.letters[i] else ToDiscovered(w.letters[i])))
  }

  /**
   * On a well-formed word the outcome says whether the letter occurs: it is
   * `NotFound` exactly when the letter is absent, and then nothing changes.
   */
  lemma NotFoundIffAbsent(w: Word, letter: string)
    requires WellFormed(w) && ValidGuess(letter)
    ensures DiscoverLetter(w, letter).Success?
    ensures DiscoverLetter(w, letter).value.outcome == NotFound <==> letter[0] !in w.word
    ensures DiscoverLetter(w, letter).value.outcome == NotFound ==> DiscoverLetter(w, letter).value.newWord == w
  {
    var r := DiscoverLetter(w, letter).value;
    if r.outcome == Found {
      var i :| 0 <= i < |w.letters| && w.letters[i].Hidden? && w.letters[i].letter == letter[0];
      assert w.word[i] == letter[0];
    }
    if r.outcome == NotFound {
      forall i | 0 <= i < |w.letters| ensures r.newWord.letters[i] == w.letters[i] {
        assert w.letters[i].letter == w.word[i];
      }
    }
  }

  /**
   * Guessing the same letter twice: the second guess finds nothing new, leaves
   * the word as the first guess left it, and is `AlreadyFound` exactly when
   * the letter occurs in the word.
   */
  lemma RepeatedGuess(w: Word, letter: string)
    requires ValidGuess(letter)
    ensures
      var first := DiscoverLetter(w, letter).value;
      var second := DiscoverLetter(first.newWord, letter).value;
      && second.outcome != Found
      && second.newWord == first.newWord
      && (second.outcome == AlreadyFound <==> letter[0] in w.word)
  {
    var first := DiscoverLetter(w, letter).value;
    var second := DiscoverLetter(first.newWord, letter).value;
    forall i | 0 <= i < |first.newWord.letters| ensures second.newWord.letters[i] == first.newWord.letters[i] {
      if w.letters[i].Discovered? {
        assert first.newWord.letters[i].Discovered?;
      }
    }
  }

  /** Revealing the whole word twice is the same as revealing it once. */
  lemma DiscoverWordIdempotent(w: Word)
    ensures DiscoverWord(DiscoverWord(w)) == DiscoverWord(w)
  {
    var once := DiscoverWord(w);
    assert DiscoverWord(once).letters == once.letters;
  }
}
