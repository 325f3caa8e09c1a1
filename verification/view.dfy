/**
 * The projection of a game sent to the client (the `gameView` function of
 * src/api/express/app.ts): hidden letters are sent without their character.
 */
module Views {
  import opened Words
  import opened Games

  /** A letter as the client sees it. */
  datatype LetterStateView = HiddenView | DiscoveredView(letter: char)

  datatype GameView = GameView(
    state: GameState,
    letters: seq<LetterStateView>,
    maxFailedAttempts: int,
    failedAttempts: nat,
    triedLetters: seq<string>)

  /** Redacts one letter: only a discovered letter shows its character. */
  function LetterView(l: LetterState): (v: LetterStateView)
    ensures v.HiddenView? <==> !IsLetterDiscovered(l)
    ensures v.DiscoveredView? ==> v.letter == l.letter
  {
    if l.Hidden? then HiddenView else DiscoveredView(l.letter)
  }

  /**
   * Renders a game for the client: the counters, status and history are
   * copied, and the letters are redacted position by position.
   */
  function ViewOf(g: Game): (v: GameView)
    ensures v.state == g.state
    ensures v.maxFailedAttempts == g.maxFailedAttempts
    ensures v.failedAttempts == g.failedAttempts
    ensures v.triedLetters == g.triedLetters
    ensures |v.letters| == |g.word.letters|
    ensures forall i :: 0 <= i < |v.letters| ==> (v.letters[i].HiddenView? <==> g.word.letters[i].Hidden?)
    ensures forall i :: 0 <= i < |v.letters| && g.word.letters[i].Discovered? ==>
      v.letters[i] == DiscoveredView(g.word.letters[i].letter)
  {
    var ls := g.word.letters;
    GameView(
      g.state,
      seq(|ls|, i requires 0 <= i < |ls| => LetterView(ls[i])),
      g.maxFailedAttempts,
      g.failedAttempts,
      g.triedLetters)
  }

  /** The characters the view shows. */
  function ShownCharacters(v: GameView): set<char> {
    set i | 0 <= i < |v.letters| && v.letters[i].DiscoveredView? :: v.letters[i].letter
  }

  /** A character is shown by the view iff it belongs to a discovered letter. */
  lemma ShownCharactersAreDiscovered(g: Game)
    ensures forall c :: c in ShownCharacters(ViewOf(g)) <==>
      exists i :: 0 <= i < |g.word.letters| && g.word.letters[i].Discovered? && g.word.letters[i].letter == c
  {
    var v := ViewOf(g);
    forall c | c in ShownCharacters(v)
      ensures exists i :: 0 <= i < |g.word.letters| && g.word.letters[i].Discovered? && g.word.letters[i].letter == c
    {
      var i :| 0 <= i < |v.letters| && v.letters[i].DiscoveredView? && v.letters[i].letter == c;
      assert g.word.letters[i].Discovered?;
    }
    forall c | exists i :: 0 <= i < |g.word.letters| && g.word.letters[i].Discovered? && g.word.letters[i].letter == c
      ensures c in ShownCharacters(v)
    {
      var i :| 0 <= i < |g.word.letters| && g.word.letters[i].Discovered? && g.word.letters[i].letter == c;
      assert v.letters[i] == DiscoveredView(c);
    }
  }

  /** Two games that agree everywhere except on their hidden characters. */
  predicate AgreeExceptHidden(g1: Game, g2: Game) {
    && g1.state == g2.state
    && g1.maxFailedAttempts == g2.maxFailedAttempts
    && g1.failedAttempts == g2.failedAttempts
    && g1.triedLetters == g2.triedLetters
    && |g1.word.letters| == |g2.word.letters|
    && forall i :: 0 <= i < |g1.word.letters| ==>
         (g1.word.letters[i].Hidden? && g2.word.letters[i].Hidden?) || g1.word.letters[i] == g2.word.letters[i]
  }

  /**
   * The view never leaks a hidden letter: games that differ only in their
   * hidden characters render to the same view, and equal views come only
   * from games that agree on everything but their hidden characters.
   */
  lemma ViewHidesHiddenLetters(g1: Game, g2: Game)
    ensures ViewOf(g1) == ViewOf(g2) <==> AgreeExceptHidden(g1, g2)
  {
    var v1, v2 := ViewOf(g1), ViewOf(g2);
    if AgreeExceptHidden(g1, g2) {
      assert v1.letters == v2.letters by {
        forall i | 0 <= i < |v1.letters| ensures v1.letters[i] == v2.letters[i] {
          if g1.word.letters[i].Discovered? {
            assert g1.word.letters[i] == g2.word.letters[i];
          }
        }
      }
    }
    if v1 == v2 {
      forall i | 0 <= i < |g1.word.letters|
        ensures (g1.word.letters[i].Hidden? && g2.word.letters[i].Hidden?) || g1.word.letters[i] == g2.word.letters[i]
      {
        assert v1.letters[i] == v2.letters[i];
      }
    }
  }
}
