/**
 * The game-session engine: the in-memory `games` table from game id to a mutable game
 * record, and the operations that create, guess in, read, abandon and delete a game.
 * Embedding requests are oracles: each operation receives the outcome of the request
 * it would make (a raw cosine similarity, or the reason it failed).
 */
module Games {
  import opened Wrappers
  import opened Text
  import opened Scoring
  import opened WordSource
  import opened Ranking

  /** Why an embedding request failed. */
  datatype EmbedFailure =
    | KeyMissing       // no API key: raised before any request is made
    | TimedOut         // the request passed its 60-second deadline
    | ProviderFailure  // a non-200 status after the single retry on 503, or an unusable body

  /** The errors the game endpoints raise. */
  datatype Error =
    | NotConfigured
    | NotFound
    | AlreadyOver
    | InvalidWord
    | DuplicateWord
    | GuessEmbeddingFailed(cause: EmbedFailure)
    | TargetEmbeddingFailed(cause: EmbedFailure)

  /** Errors caused by the client's request rather than by the server or the provider. */
  predicate IsClientError(e: Error) {
    e.NotFound? || e.AlreadyOver? || e.InvalidWord? || e.DuplicateWord?
  }

  /** The HTTP status each error is reported with. */
  function StatusCode(e: Error): (code: nat)
    ensures 400 <= code < 600
    ensures code < 500 <==> IsClientError(e)
    ensures code == 404 <==> e.NotFound?
    ensures e.AlreadyOver? || e.InvalidWord? || e.DuplicateWord? ==> code == 400
    ensures e.NotConfigured? ==> code == 503
    ensures code == 504 <==> e == GuessEmbeddingFailed(TimedOut)
    ensures e.TargetEmbeddingFailed? ==> code == 500
    ensures e.GuessEmbeddingFailed? && !e.cause.TimedOut? ==> code == 500
  {
    match e
    case NotConfigured => 503
    case NotFound => 404
    case AlreadyOver => 400
    case InvalidWord => 400
    case DuplicateWord => 400
    case GuessEmbeddingFailed(cause) => if cause.TimedOut? then 504 else 500
    case TargetEmbeddingFailed(_) => 500
  }

  /**
   * One stored guess. `rank` is absent when the guess is appended and is written by
   * every state read.
   */
  datatype Guess = Guess(word: string, similarity: real, guessNumber: nat, isCorrect: bool, rank: Option<nat>)

  /** One game record of the table. */
  datatype Game = Game(
    targetWord: string,
    guesses: seq<Guess>,
    guessCount: nat,
    gameOver: bool,
    startedAt: string,
    difficulty: string)

  /** What a state read returns; the target is present only once the game is over. */
  datatype GameView = GameView(
    gameId: string,
    guesses: seq<Guess>,
    guessCount: nat,
    gameOver: bool,
    targetWord: Option<string>,
    startedAt: string)

  /** What an accepted guess returns. */
  datatype GuessResponse = GuessResponse(
    gameId: string,
    word: string,
    similarity: real,
    rank: nat,
    percentile: real,
    guessNumber: nat,
    isCorrect: bool,
    gameOver: bool,
    topSimilarity: real)

  function Similarities(gs: seq<Guess>): seq<real> {
    seq(|gs|, k requires 0 <= k < |gs| => gs[k].similarity)
  }

  /** The guesses listed in the order `ord`: the same records, not copies. */
  function Permute(gs: seq<Guess>, ord: seq<nat>): seq<Guess>
    requires InRange(ord, |gs|)
  {
    seq(|ord|, k requires 0 <= k < |ord| => gs[ord[k]])
  }

  /** `sorted(guesses, key=lambda x: x["similarity"], reverse=True)`. */
  function SortBySimilarity(gs: seq<Guess>): seq<Guess> {
    Permute(gs, SortedOrder(Similarities(gs)))
  }

  /** `any(g["word"] == w for g in gs)`. */
  predicate AlreadyGuessed(gs: seq<Guess>, w: string) {
    exists k :: 0 <= k < |gs| && gs[k].word == w
  }

  /** `next(i for i, g in enumerate(sorted) if g["word"] == w)`: the first position holding `w`. */
  function FirstWithWord(sorted: seq<Guess>, w: string): (i: nat)
    requires AlreadyGuessed(sorted, w)
    ensures i < |sorted| && sorted[i].word == w
    ensures forall k :: 0 <= k < i ==> sorted[k].word != w
  {
    if sorted[0].word == w then 0
    else
      assert AlreadyGuessed(sorted[1..], w) by {
        var k :| 0 <= k < |sorted| && sorted[k].word == w;
        assert sorted[1..][k - 1].word == w;
      }
      1 + FirstWithWord(sorted[1..], w)
  }

  /** The ranking order: higher similarity first, and among equal similarities the earlier guess. */
  predicate RankedBefore(a: Guess, b: Guess) {
    a.similarity > b.similarity || (a.similarity == b.similarity && a.guessNumber < b.guessNumber)
  }

  /** The k-th stored guess carries guess number k + 1. */
  predicate Numbered(gs: seq<Guess>) {
    forall k :: 0 <= k < |gs| ==> gs[k].guessNumber == k + 1
  }

  /** The invariant every stored game keeps. */
  predicate WellFormed(g: Game) {
    && g.guessCount == |g.guesses|
    && Numbered(g.guesses)
    && (forall a, b :: 0 <= a < b < |g.guesses| ==> g.guesses[a].word != g.guesses[b].word)
    && (forall k :: 0 <= k < |g.guesses| ==> IsGuessWord(g.guesses[k].word))
    && (forall k :: 0 <= k < |g.guesses| ==> g.guesses[k].similarity >= 0.0)
    && (forall k :: 0 <= k < |g.guesses| ==> g.guesses[k].isCorrect == (g.guesses[k].word == g.targetWord))
    && (forall k :: 0 <= k < |g.guesses| && g.guesses[k].isCorrect ==> g.gameOver && k == |g.guesses| - 1)
  }

  /** A guess of `w` passes every check that runs before the embedding request. */
  predicate Admissible(games: map<string, Game>, gameId: string, w: string) {
    gameId in games && !games[gameId].gameOver && |w| >= 2 && !AlreadyGuessed(games[gameId].guesses, w)
  }

  /** The record after an accepted guess of `w` scored `similarity`. */
  function Appended(g: Game, w: string, similarity: real): Game {
    g.(guessCount := g.guessCount + 1,
       guesses := g.guesses + [Guess(w, similarity, g.guessCount + 1, w == g.targetWord, None)],
       gameOver := g.gameOver || w == g.targetWord)
  }

  /**
   * `r` is the response to the accepted guess of `w` scored `similarity` in game
   * `gameId`, whose record was `g` before the guess and is `after` once it is stored:
   * the rank counts the earlier guesses at least as similar, the percentile follows
   * from the rank, and the top similarity is the maximum over all stored guesses.
   */
  predicate ScoredResponse(g: Game, after: Game, gameId: string, w: string, similarity: real, r: GuessResponse) {
    && r.gameId == gameId && r.word == w && r.similarity == similarity
    && r.guessNumber == |g.guesses| + 1
    && r.isCorrect == (w == g.targetWord) && r.gameOver == r.isCorrect
    && r.rank == 1 + CountAtLeast(Similarities(g.guesses), similarity)
    && 1 <= r.rank <= r.guessNumber
    && r.percentile == Percentile(r.guessNumber, r.rank)
    && 0.0 < r.percentile <= 1000.0
    && (r.percentile == 1000.0 <==> r.rank == 1)
    && (forall k :: 0 <= k < |after.guesses| ==> after.guesses[k].similarity <= r.topSimilarity)
    && (exists k :: 0 <= k < |after.guesses| && after.guesses[k].similarity == r.topSimilarity)
  }

  /** The sorted guess list is in strictly decreasing ranking order. */
  lemma SortedGuessesRanked(gs: seq<Guess>)
    requires Numbered(gs)
    ensures var sorted := SortBySimilarity(gs);
      && |sorted| == |gs|
      && (forall a, b :: 0 <= a < b < |sorted| ==> RankedBefore(sorted[a], sorted[b]))
  {
    var keys := Similarities(gs);
    var order := SortedOrder(keys);
    var sorted := SortBySimilarity(gs);
    SortedOrderCorrect(keys);
    forall a, b | 0 <= a < b < |sorted| ensures RankedBefore(sorted[a], sorted[b]) {
      assert sorted[a] == gs[order[a]] && sorted[b] == gs[order[b]];
      assert Before(keys, order[a], order[b]);
    }
  }

  /** The sorted guess list holds the stored records themselves, each stored guess among them. */
  lemma SortedGuessesAreStored(gs: seq<Guess>)
    requires Numbered(gs)
    ensures var sorted := SortBySimilarity(gs);
      && (forall a :: 0 <= a < |sorted| ==> 1 <= sorted[a].guessNumber <= |gs| && sorted[a] == gs[sorted[a].guessNumber - 1])
      && (forall k :: 0 <= k < |gs| ==> gs[k] in sorted)
  {
    var keys := Similarities(gs);
    var order := SortedOrder(keys);
    var sorted := SortBySimilarity(gs);
    forall a | 0 <= a < |sorted| ensures 1 <= sorted[a].guessNumber <= |gs| && sorted[a] == gs[sorted[a].guessNumber - 1] {
      assert sorted[a] == gs[order[a]];
    }
    OrderCovers(keys, |keys|);
    forall k | 0 <= k < |gs| ensures gs[k] in sorted {
      assert (k as nat) in order;
      var p :| 0 <= p < |order| && order[p] == k;
      assert sorted[p] == gs[k];
    }
  }

  /**
   * The sort used for ranking lists every guess exactly once, in strictly decreasing
   * ranking order: ties on similarity keep submission order.
   */
  lemma SortBySimilarityOrdered(gs: seq<Guess>)
    requires Numbered(gs)
    ensures var sorted := SortBySimilarity(gs);
      && |sorted| == |gs|
      && (forall a, b :: 0 <= a < b < |sorted| ==> RankedBefore(sorted[a], sorted[b]))
      && (forall a :: 0 <= a < |sorted| ==> 1 <= sorted[a].guessNumber <= |gs| && sorted[a] == gs[sorted[a].guessNumber - 1])
      && (forall k :: 0 <= k < |gs| ==> gs[k] in sorted)
  {
    SortedGuessesRanked(gs);
    SortedGuessesAreStored(gs);
  }

  /**
   * The rank rule for a new guess: it is found by its word at position p of the sorted
   * list, p being the number of earlier guesses whose similarity is at least its own.
   */
  lemma NewGuessRank(previous: seq<Guess>, entry: Guess)
    requires !AlreadyGuessed(previous, entry.word)
    ensures var sorted := SortBySimilarity(previous + [entry]);
      && AlreadyGuessed(sorted, entry.word)
      && FirstWithWord(sorted, entry.word) == CountAtLeast(Similarities(previous), entry.similarity)
  {
    var all := previous + [entry];
    var n := |all|;
    var keys := Similarities(all);
    var order := SortedOrder(keys);
    var sorted := SortBySimilarity(all);
    assert keys[..n - 1] == Similarities(previous);
    LastItemPosition(keys);
    SortedOrderCorrect(keys);
    var p := CountAtLeast(Similarities(previous), entry.similarity);
    assert order[p] == n - 1;
    assert sorted[p] == entry;
    forall j | 0 <= j < p ensures sorted[j].word != entry.word {
      assert order[j] != order[p];
      assert sorted[j] == previous[order[j]];
    }
    assert AlreadyGuessed(sorted, entry.word);
  }

  /** The first entry of the sorted list has the highest similarity of all guesses. */
  lemma TopOfSortedIsMax(gs: seq<Guess>)
    requires |gs| > 0
    ensures var sorted := SortBySimilarity(gs);
      && |sorted| == |gs|
      && (forall k :: 0 <= k < |gs| ==> gs[k].similarity <= sorted[0].similarity)
      && (exists k :: 0 <= k < |gs| && gs[k].similarity == sorted[0].similarity)
  {
    var keys := Similarities(gs);
    FirstIsLargest(keys);
    var order := SortedOrder(keys);
    var sorted := SortBySimilarity(gs);
    assert sorted[0] == gs[order[0]];
    forall k | 0 <= k < |gs| ensures gs[k].similarity <= sorted[0].similarity {
      assert keys[k] == gs[k].similarity;
    }
  }

  /** A word counts as guessed after an append exactly when it was guessed before or is the appended word. */
  lemma AlreadyGuessedAppend(gs: seq<Guess>, e: Guess, w: string)
    ensures AlreadyGuessed(gs + [e], w) <==> AlreadyGuessed(gs, w) || e.word == w
  {
    if AlreadyGuessed(gs, w) {
      var k :| 0 <= k < |gs| && gs[k].word == w;
      assert (gs + [e])[k] == gs[k];
    }
    if e.word == w {
      assert (gs + [e])[|gs|] == e;
    }
    if AlreadyGuessed(gs + [e], w) {
      var k :| 0 <= k < |gs + [e]| && (gs + [e])[k].word == w;
      if k < |gs| {
        assert (gs + [e])[k] == gs[k];
      }
    }
  }

  /** Appending a valid guess word keeps every stored word a valid guess word. */
  lemma GuessWordsAppend(gs: seq<Guess>, e: Guess)
    requires forall k :: 0 <= k < |gs| ==> IsGuessWord(gs[k].word)
    requires IsGuessWord(e.word)
    ensures forall k :: 0 <= k < |gs + [e]| ==> IsGuessWord((gs + [e])[k].word)
  {
    forall k | 0 <= k < |gs + [e]| ensures IsGuessWord((gs + [e])[k].word) {
      if k < |gs| {
        assert (gs + [e])[k] == gs[k];
      }
    }
  }

  /** Appending a word guessed for the first time keeps the stored words distinct. */
  lemma DistinctWordsAppend(gs: seq<Guess>, e: Guess)
    requires forall a, b :: 0 <= a < b < |gs| ==> gs[a].word != gs[b].word
    requires !AlreadyGuessed(gs, e.word)
    ensures forall a, b :: 0 <= a < b < |gs + [e]| ==> (gs + [e])[a].word != (gs + [e])[b].word
  {
    forall a, b | 0 <= a < b < |gs + [e]| ensures (gs + [e])[a].word != (gs + [e])[b].word {
      assert (gs + [e])[a] == gs[a];
    }
  }

  /** An accepted guess keeps the record well formed. */
  lemma AppendedWellFormed(g: Game, w: string, similarity: real)
    requires WellFormed(g) && !g.gameOver
    requires IsGuessWord(w) && !AlreadyGuessed(g.guesses, w) && similarity >= 0.0
    ensures WellFormed(Appended(g, w, similarity))
  {
    var h := Appended(g, w, similarity);
    var n := |g.guesses|;
    var e := Guess(w, similarity, g.guessCount + 1, w == g.targetWord, None);
    assert h.guesses == g.guesses + [e];
    GuessWordsAppend(g.guesses, e);
    DistinctWordsAppend(g.guesses, e);
    assert forall k :: 0 <= k < n ==> h.guesses[k] == g.guesses[k];
    assert h.guesses[n].word == w;
    forall k | 0 <= k < n ensures !h.guesses[k].isCorrect {
      assert !g.guesses[k].isCorrect;
    }
  }

  /** Writing ranks into the stored guesses keeps the record well formed. */
  lemma RerankedWellFormed(g: Game, stored: seq<Guess>)
    requires WellFormed(g) && |stored| == |g.guesses|
    requires forall k :: 0 <= k < |stored| ==> stored[k].(rank := None) == g.guesses[k].(rank := None)
    ensures WellFormed(g.(guesses := stored))
  {
    forall k | 0 <= k < |stored|
      ensures stored[k].word == g.guesses[k].word && stored[k].similarity == g.guesses[k].similarity
      ensures stored[k].guessNumber == g.guesses[k].guessNumber && stored[k].isCorrect == g.guesses[k].isCorrect
    {
      assert stored[k].(rank := None).word == g.guesses[k].(rank := None).word;
      assert stored[k].(rank := None).similarity == g.guesses[k].(rank := None).similarity;
      assert stored[k].(rank := None).guessNumber == g.guesses[k].(rank := None).guessNumber;
      assert stored[k].(rank := None).isCorrect == g.guesses[k].(rank := None).isCorrect;
    }
  }

  /** Every record of the table is well formed and has its target from the pool. */
  ghost predicate TableValid(games: map<string, Game>, pool: seq<string>) {
    forall id :: id in games ==> WellFormed(games[id]) && games[id].targetWord in pool
  }

  lemma TableUpdate(games: map<string, Game>, pool: seq<string>, id: string, g: Game)
    requires TableValid(games, pool) && WellFormed(g) && g.targetWord in pool
    ensures TableValid(games[id := g], pool)
  {
  }

  /**
   * The scoring step of an accepted guess, run on the guess list that already ends
   * with the new guess of `word` scored `similarity`: its rank in the sorted list,
   * its percentile and the top similarity.
   */
  method RankNewGuess(guesses: seq<Guess>, word: string, similarity: real)
    returns (rank: nat, percentile: real, top: real)
    requires |guesses| > 0
    requires guesses[|guesses| - 1].word == word && guesses[|guesses| - 1].similarity == similarity
    requires !AlreadyGuessed(guesses[..|guesses| - 1], word)
    ensures rank == 1 + CountAtLeast(Similarities(guesses[..|guesses| - 1]), similarity)
    ensures 1 <= rank <= |guesses|
    ensures percentile == Percentile(|guesses|, rank)
    ensures 0.0 < percentile <= 1000.0 && (percentile == 1000.0 <==> rank == 1)
    ensures forall k :: 0 <= k < |guesses| ==> guesses[k].similarity <= top
    ensures exists k :: 0 <= k < |guesses| && guesses[k].similarity == top
  {
    var n := |guesses|;
    assert guesses == guesses[..n - 1] + [guesses[n - 1]];
    var sorted := SortBySimilarity(guesses);
    NewGuessRank(guesses[..n - 1], guesses[n - 1]);
    rank := FirstWithWord(sorted, word) + 1;
    var total := |sorted|;
    PercentileRange(total, rank);
    PercentileEnds(total, rank);
    percentile := Percentile(total, rank);
    TopOfSortedIsMax(guesses);
    top := if |sorted| > 0 then sorted[0].similarity else similarity;
  }

  /**
   * The rank-writing loop of a state read: the i-th guess of the sorted order `order`
   * gets rank i + 1, written into the stored record it refers to.
   */
  method WriteRanks(guesses: seq<Guess>, order: seq<nat>) returns (stored: seq<Guess>)
    requires InRange(order, |guesses|)
    requires forall a, b :: 0 <= a < b < |order| ==> order[a] != order[b]
    ensures |stored| == |guesses|
    ensures forall j :: 0 <= j < |order| ==> stored[order[j]] == guesses[order[j]].(rank := Some(j + 1))
    ensures forall k :: 0 <= k < |guesses| && (k as nat) !in order ==> stored[k] == guesses[k]
  {
    stored := guesses;
    var i := 0;
    while i < |order|
      invariant 0 <= i <= |order|
      invariant |stored| == |guesses|
      invariant forall j :: 0 <= j < i ==> stored[order[j]] == guesses[order[j]].(rank := Some(j + 1))
      invariant forall j :: i <= j < |order| ==> stored[order[j]] == guesses[order[j]]
      invariant forall k :: 0 <= k < |guesses| && (k as nat) !in order ==> stored[k] == guesses[k]
    {
      stored := stored[order[i] := stored[order[i]].(rank := Some(i + 1))];
      i := i + 1;
    }
  }

  /**
   * `view` is the state-read list for the stored guesses `before`, and `after` is the
   * stored list once the ranks are written: ranks 1..n in list order, strictly
   * decreasing ranking order, each stored guess kept apart from its rank and found in
   * the view at the position its rank names.
   */
  predicate RanksWritten(before: seq<Guess>, after: seq<Guess>, view: seq<Guess>) {
    && |after| == |before| && |view| == |after|
    && (forall i :: 0 <= i < |view| ==> view[i].rank == Some(i + 1))
    && (forall i, j :: 0 <= i < j < |view| ==> RankedBefore(view[i], view[j]))
    && (forall k :: 0 <= k < |after| ==>
          && after[k].(rank := None) == before[k].(rank := None)
          && after[k].rank.Some? && 1 <= after[k].rank.value <= |view|
          && view[after[k].rank.value - 1] == after[k])
  }

  /**
   * In a state-read list the guess ranked 1 has the highest similarity and the guess
   * ranked last, whose rank is the number of guesses, has the lowest.
   */
  lemma ViewEnds(before: seq<Guess>, after: seq<Guess>, view: seq<Guess>)
    requires RanksWritten(before, after, view) && |view| > 0
    ensures view[0].rank == Some(1) && view[|view| - 1].rank == Some(|view|)
    ensures forall k :: 0 <= k < |view| ==> view[|view| - 1].similarity <= view[k].similarity <= view[0].similarity
  {
    var n := |view|;
    forall k | 0 <= k < n ensures view[n - 1].similarity <= view[k].similarity <= view[0].similarity {
      if 0 < k {
        assert RankedBefore(view[0], view[k]);
      }
      if k < n - 1 {
        assert RankedBefore(view[k], view[n - 1]);
      }
    }
  }

  /** Writing ranks along the sorted order and listing the records in that order gives the state-read list. */
  lemma RankedViewOrdered(guesses: seq<Guess>, stored: seq<Guess>)
    requires Numbered(guesses) && |stored| == |guesses|
    requires var order := SortedOrder(Similarities(guesses));
      forall j :: 0 <= j < |order| ==> stored[order[j]] == guesses[order[j]].(rank := Some(j + 1))
    ensures RanksWritten(guesses, stored, Permute(stored, SortedOrder(Similarities(guesses))))
  {
    var keys := Similarities(guesses);
    var order := SortedOrder(keys);
    SortedOrderCorrect(keys);
    var view := Permute(stored, order);
    forall k | 0 <= k < |stored|
      ensures stored[k].(rank := None) == guesses[k].(rank := None)
      ensures stored[k].rank.Some? && 1 <= stored[k].rank.value <= |view|
      ensures view[stored[k].rank.value - 1] == stored[k]
    {
      assert (k as nat) in order;
      var p :| 0 <= p < |order| && order[p] == k;
      assert stored[k] == guesses[k].(rank := Some(p + 1));
    }
    forall a, b | 0 <= a < b < |view| ensures RankedBefore(view[a], view[b]) {
      assert Before(keys, order[a], order[b]);
    }
  }

  /** The `games` table together with the process-wide configuration it depends on. */
  class GameStore {
    /** The word pool every target is drawn from. */
    const pool: seq<string>
    /** Whether an API key for the embedding provider is configured. */
    const apiConfigured: bool
    /** The table from game id to game record. */
    var games: map<string, Game>

    ghost predicate Valid()
      reads this
    {
      |pool| > 0 && TableValid(games, pool)
    }

    constructor (pool: seq<string>, apiConfigured: bool)
      requires |pool| > 0
      ensures Valid()
      ensures this.pool == pool && this.apiConfigured == apiConfigured && games == map[]
    {
      this.pool := pool;
      this.apiConfigured := apiConfigured;
      games := map[];
    }

    /**
     * Starts a game under the freshly generated id `gameId`. `dateHash` stands for the
     * MD5 of today's date, `choice` for the index `random.choice` picks, and
     * `targetEmbedding` for the outcome of embedding the target word. Nothing is
     * stored unless that embedding succeeded.
     */
    method StartGame(difficulty: string, dailyMode: bool, gameId: string, dateHash: nat, choice: nat,
                     targetEmbedding: Result<(), EmbedFailure>, startedAt: string)
      returns (res: Result<GameView, Error>)
      requires Valid()
      requires !dailyMode ==> choice < |pool|
      modifies this
      ensures Valid()
      ensures !apiConfigured ==> res == Err(NotConfigured) && games == old(games)
      ensures apiConfigured && targetEmbedding.Err? ==>
        res == Err(TargetEmbeddingFailed(targetEmbedding.error)) && games == old(games)
      ensures apiConfigured && targetEmbedding.Ok? ==>
        && games == old(games)[gameId := Game(PickTarget(pool, difficulty, dailyMode, dateHash, choice), [], 0, false, startedAt, difficulty)]
        && res == Ok(GameView(gameId, [], 0, false, None, startedAt))
    {
      if !apiConfigured {
        return Err(NotConfigured);
      }
      var targetWord := PickTarget(pool, difficulty, dailyMode, dateHash, choice);
      if targetEmbedding.Err? {
        return Err(TargetEmbeddingFailed(targetEmbedding.error));
      }
      var game := Game(targetWord, [], 0, false, startedAt, difficulty);
      games := games[gameId := game];
      res := Ok(GameView(gameId, [], 0, false, None, startedAt));
    }

    /**
     * Submits `rawWord` to game `gameId`. `embedding` stands for the outcome of the
     * embedding request for the normalised word: on success, its raw cosine
     * similarity with the target.
     */
    method MakeGuess(gameId: string, rawWord: string, embedding: Result<real, EmbedFailure>)
      returns (res: Result<GuessResponse, Error>)
      requires Valid()
      modifies this
      ensures Valid()
      ensures gameId !in old(games) ==> res == Err(NotFound)
      ensures gameId in old(games) && old(games[gameId]).gameOver ==> res == Err(AlreadyOver)
      ensures gameId in old(games) && !old(games[gameId]).gameOver && |Normalize(rawWord)| < 2 ==>
        res == Err(InvalidWord)
      ensures gameId in old(games) && !old(games[gameId]).gameOver && |Normalize(rawWord)| >= 2
              && AlreadyGuessed(old(games[gameId]).guesses, Normalize(rawWord)) ==>
        res == Err(DuplicateWord)
      ensures Admissible(old(games), gameId, Normalize(rawWord)) && embedding.Err? ==>
        res == Err(GuessEmbeddingFailed(embedding.error))
      ensures res.Ok? <==> Admissible(old(games), gameId, Normalize(rawWord)) && embedding.Ok?
      ensures res.Err? ==> games == old(games)
      ensures res.Ok? ==>
        games == old(games)[gameId := Appended(old(games[gameId]), Normalize(rawWord), ClampScore(embedding.value))]
      ensures res.Ok? ==>
        ScoredResponse(old(games[gameId]), games[gameId], gameId, Normalize(rawWord), ClampScore(embedding.value), res.value)
    {
      var word := Normalize(rawWord);
      if gameId !in games {
        return Err(NotFound);
      }
      var game := games[gameId];
      if game.gameOver {
        return Err(AlreadyOver);
      }
      if |word| < 2 {
        return Err(InvalidWord);
      }
      if AlreadyGuessed(game.guesses, word) {
        return Err(DuplicateWord);
      }
      if embedding.Err? {
        return Err(GuessEmbeddingFailed(embedding.error));
      }
      NormalizeIdempotent(rawWord);
      var response := RecordGuess(gameId, word, ClampScore(embedding.value));
      res := Ok(response);
    }

    /**
     * The mutating part of an accepted guess of the normalised `word` scored
     * `similarity`: count, append, score, and end the game on a hit.
     */
    method RecordGuess(gameId: string, word: string, similarity: real) returns (r: GuessResponse)
      requires Valid() && Admissible(games, gameId, word) && IsGuessWord(word) && similarity >= 0.0
      modifies this
      ensures Valid()
      ensures games == old(games)[gameId := Appended(old(games[gameId]), word, similarity)]
      ensures ScoredResponse(old(games[gameId]), games[gameId], gameId, word, similarity, r)
    {
      var game := games[gameId];
      assert WellFormed(game) && game.targetWord in pool;
      var isCorrect := word == game.targetWord;

      var before := game;
      var entry := Guess(word, similarity, game.guessCount + 1, isCorrect, None);
      game := game.(guessCount := game.guessCount + 1, guesses := game.guesses + [entry]);
      assert game.guesses[..|game.guesses| - 1] == before.guesses;
      var rank, percentile, top := RankNewGuess(game.guesses, word, similarity);
      if isCorrect {
        game := game.(gameOver := true);
      }

      r := GuessResponse(gameId, word, similarity, rank, percentile, game.guessCount, isCorrect, game.gameOver, top);
      assert game.guesses == before.guesses + [entry];
      assert ScoredResponse(before, game, gameId, word, similarity, r);
      assert game == Appended(before, word, similarity);
      AppendedWellFormed(before, word, similarity);
      TableUpdate(games, pool, gameId, game);
      assert games == old(games) && before == old(games[gameId]);
      games := games[gameId := game];
    }

    /**
     * Reads game `gameId`: its guesses in ranking order, each annotated with its rank.
     * The ranks are written into the stored guess records as well.
     */
    method GetState(gameId: string) returns (res: Result<GameView, Error>)
      requires Valid()
      modifies this
      ensures Valid()
      ensures gameId !in old(games) ==> res == Err(NotFound) && games == old(games)
      ensures gameId in old(games) ==> res.Ok? && gameId in games && games == old(games)[gameId := games[gameId]]
      ensures gameId in old(games) ==>
        && games[gameId] == old(games[gameId]).(guesses := games[gameId].guesses)
        && res.value == GameView(gameId, res.value.guesses, old(games[gameId]).guessCount, old(games[gameId]).gameOver,
                                 if old(games[gameId]).gameOver then Some(old(games[gameId]).targetWord) else None,
                                 old(games[gameId]).startedAt)
        && RanksWritten(old(games[gameId]).guesses, games[gameId].guesses, res.value.guesses)
    {
      if gameId !in games {
        return Err(NotFound);
      }
      var game := games[gameId];
      var order := SortedOrder(Similarities(game.guesses));
      SortedOrderCorrect(Similarities(game.guesses));
      var stored := WriteRanks(game.guesses, order);
      var view := Permute(stored, order);
      RankedViewOrdered(game.guesses, stored);

      RerankedWellFormed(game, stored);
      TableUpdate(games, pool, gameId, game.(guesses := stored));
      games := games[gameId := game.(guesses := stored)];
      res := Ok(GameView(gameId, view, game.guessCount, game.gameOver,
                         if game.gameOver then Some(game.targetWord) else None, game.startedAt));
    }

    /** Abandons game `gameId`: marks it over and reveals its target. */
    method GiveUp(gameId: string) returns (res: Result<string, Error>)
      requires Valid()
      modifies this
      ensures Valid()
      ensures gameId !in old(games) ==> res == Err(NotFound) && games == old(games)
      ensures gameId in old(games) ==>
        && res == Ok(old(games[gameId]).targetWord)
        && games == old(games)[gameId := old(games[gameId]).(gameOver := true)]
    {
      if gameId !in games {
        return Err(NotFound);
      }
      var game := games[gameId];
      game := game.(gameOver := true);
      games := games[gameId := game];
      res := Ok(game.targetWord);
    }

    /** Removes game `gameId` from the table. */
    method DeleteGame(gameId: string) returns (res: Result<(), Error>)
      requires Valid()
      modifies this
      ensures Valid()
      ensures gameId !in old(games) ==> res == Err(NotFound) && games == old(games)
      ensures gameId in old(games) ==> res == Ok(()) && games == old(games) - {gameId}
    {
      if gameId !in games {
        return Err(NotFound);
      }
      games := games - {gameId};
      res := Ok(());
    }
  }
}
