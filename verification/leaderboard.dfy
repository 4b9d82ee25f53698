/**
 The in-memory part of `save_score`: the leaderboard is a dictionary from
 player name to score, and saving a score sets the entry for the name typed
 in. Reading and writing the leaderboard file, and the JSON text it holds,
 are outside the model: `leaders` is what `load_scores` returned and the
 result is what `save_score` writes back and returns.
 */
module Leaderboard {

  /** Player name to saved score. */
  type Leaders = map<string, int>

  /** `leaders[name] = score`: the name now has this score, whether or not it
      had one before; no name is added but this one and no name is dropped;
      every other player's score is as it was. */
  function SaveScore(leaders: Leaders, name: string, score: int): (r: Leaders)
    ensures name in r && r[name] == score
    ensures r.Keys == leaders.Keys + {name}
    ensures forall other :: other in leaders && other != name ==> r[other] == leaders[other]
  {
    leaders[name := score]
  }

  /** The number of players on the board grows by one exactly when the name
      is new. */
  lemma SaveScoreSize(leaders: Leaders, name: string, score: int)
    ensures name in leaders ==> |SaveScore(leaders, name, score).Keys| == |leaders.Keys|
    ensures name !in leaders ==> |SaveScore(leaders, name, score).Keys| == |leaders.Keys| + 1
  {
  }

  /** Saving again under the same name overwrites: only the last score
      saved for a name is kept. */
  lemma LastSaveWins(leaders: Leaders, name: string, first: int, second: int)
    ensures SaveScore(SaveScore(leaders, name, first), name, second) == SaveScore(leaders, name, second)
  {
  }

  /** Saves under two different names do not interfere, so their order does
      not matter. */
  lemma SavesCommute(leaders: Leaders, a: string, sa: int, b: string, sb: int)
    requires a != b
    ensures SaveScore(SaveScore(leaders, a, sa), b, sb) == SaveScore(SaveScore(leaders, b, sb), a, sa)
  {
  }

  /** Saving the score a name already has changes nothing. */
  lemma SaveExistingScore(leaders: Leaders, name: string)
    requires name in leaders
    ensures SaveScore(leaders, name, leaders[name]) == leaders
  {
  }
}
