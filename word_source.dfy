/** Choice of a game's target word from the word pool. */
module WordSource {

  /** The pool a difficulty draws from: every difficulty gets the whole pool. */
  function WordList(pool: seq<string>, difficulty: string): seq<string> {
    pool
  }

  /**
   * The daily index `hash % len(pool)`, where `hash` is the MD5 digest of the date
   * string read as an integer.
   */
  function DailyIndex(dateHash: nat, poolSize: nat): (i: nat)
    requires poolSize > 0
    ensures i < poolSize
    ensures dateHash < poolSize ==> i == dateHash
    ensures exists q: nat :: dateHash == q * poolSize + i
  {
    var q: nat := dateHash / poolSize;
    assert dateHash == q * poolSize + dateHash % poolSize;
    dateHash % poolSize
  }

  /**
   * The target of a new game: the daily word in daily mode, otherwise the entry
   * `random.choice` picked (given as its index `choice`) from the difficulty's list.
   */
  function PickTarget(pool: seq<string>, difficulty: string, dailyMode: bool, dateHash: nat, choice: nat): (w: string)
    requires |pool| > 0
    requires !dailyMode ==> choice < |pool|
    ensures w in pool
    ensures dailyMode ==> w == pool[DailyIndex(dateHash, |pool|)]
    ensures !dailyMode ==> w == pool[choice]
  {
    if dailyMode then pool[DailyIndex(dateHash, |pool|)] else WordList(pool, difficulty)[choice]
  }
}
