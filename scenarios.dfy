/**
 * Sequences of calls a client makes against one store, with what the engine promises
 * about their combined outcome: giving up twice, deleting twice, repeating a guess,
 * and guessing on after a win.
 */
module Scenarios {
  import opened Wrappers
  import opened Text
  import opened Scoring
  import opened Games

  /** Giving up is idempotent: both calls reveal the same target and the game stays over. */
  method GiveUpTwice(store: GameStore, gameId: string) returns (first: Result<string, Error>, second: Result<string, Error>)
    requires store.Valid() && gameId in store.games
    modifies store
    ensures store.Valid()
    ensures first == second == Ok(old(store.games[gameId]).targetWord)
    ensures store.games == old(store.games)[gameId := old(store.games[gameId]).(gameOver := true)]
  {
    first := store.GiveUp(gameId);
    second := store.GiveUp(gameId);
  }

  /** A deleted game is gone: deleting it again reports that it was not found. */
  method DeleteTwice(store: GameStore, gameId: string) returns (first: Result<(), Error>, second: Result<(), Error>)
    requires store.Valid() && gameId in store.games
    modifies store
    ensures store.Valid()
    ensures first == Ok(()) && second == Err(NotFound)
    ensures store.games == old(store.games) - {gameId}
  {
    first := store.DeleteGame(gameId);
    second := store.DeleteGame(gameId);
  }

  /**
   * Submitting a word again, padded with whitespace, after it was accepted: the repeat
   * normalises to the same word and is refused, as a duplicate, or because the first
   * submission already won the game. The table then holds the first submission once.
   */
  method RepeatGuess(store: GameStore, gameId: string, rawWord: string, pad: char,
                     firstEmbedding: Result<real, EmbedFailure>, secondEmbedding: Result<real, EmbedFailure>)
    returns (first: Result<GuessResponse, Error>, second: Result<GuessResponse, Error>)
    requires store.Valid() && IsSpace(pad)
    modifies store
    ensures store.Valid()
    ensures first.Ok? ==> second == (if first.value.isCorrect then Err(AlreadyOver) else Err(DuplicateWord))
    ensures first.Ok? ==>
      && gameId in old(store.games) && gameId in store.games
      && |store.games[gameId].guesses| == |old(store.games[gameId]).guesses| + 1
      && store.games[gameId].guesses[|old(store.games[gameId]).guesses|].word == Normalize(rawWord)
  {
    first := store.MakeGuess(gameId, rawWord, firstEmbedding);
    var afterFirst := store.games;
    NormalizeIgnoresPaddingAndCase(rawWord, pad);
    second := store.MakeGuess(gameId, [pad] + rawWord, secondEmbedding);
    if first.Ok? && !first.value.isCorrect {
      var w := Normalize(rawWord);
      var g := afterFirst[gameId];
      assert g.guesses[|g.guesses| - 1].word == w;
      assert AlreadyGuessed(g.guesses, w);
    }
  }

  /**
   * Guessing the target wins: the response says correct and over, the game is marked
   * over, and any further guess is refused with `AlreadyOver`.
   */
  method WinThenGuess(store: GameStore, gameId: string, raw: real, laterWord: string,
                      laterEmbedding: Result<real, EmbedFailure>)
    returns (win: Result<GuessResponse, Error>, later: Result<GuessResponse, Error>)
    requires store.Valid() && gameId in store.games && !store.games[gameId].gameOver
    requires IsGuessWord(store.games[gameId].targetWord)
    modifies store
    ensures store.Valid()
    ensures win.Ok? && win.value.isCorrect && win.value.gameOver
    ensures gameId in store.games && store.games[gameId].gameOver
    ensures later == Err(AlreadyOver)
  {
    var target := store.games[gameId].targetWord;
    var g := store.games[gameId];
    assert !AlreadyGuessed(g.guesses, target) by {
      forall k | 0 <= k < |g.guesses| ensures g.guesses[k].word != target {
        assert WellFormed(g);
      }
    }
    win := store.MakeGuess(gameId, target, Ok(raw));
    later := store.MakeGuess(gameId, laterWord, laterEmbedding);
  }

  /** The worked values of the scoring formulas. */
  lemma ScoringExamples()
    ensures Percentile(4, 1) == 1000.0
    ensures Percentile(4, 4) == 250.0
    ensures ClampScore(-0.3) == 0.0
    ensures ClampScore(0.42) == 42.0
  {
  }
}
