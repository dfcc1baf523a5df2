/**
 * `EmojiTranslationGame` of conundrum/games/emoji_translation.py.
 *
 * The host shows an emoji prompt and knows the sentence it stands for; the
 * other players each submit a guessed sentence, then vote on the pool of
 * guesses plus the correct sentence. A vote for another player's guess earns
 * its author 1 point; a vote for the correct sentence earns the voter 1 point.
 */
module EmojiTranslation {
  import opened Common
  import opened ScoredRound

  /** One point to the author of a chosen guess, one to a voter who finds
      the correct sentence. */
  const EmojiRules := Rules(1, 1)

  /** What `end_round` returns for a known lobby. */
  datatype Summary = Summary(scores: map<Player, int>, votes: map<Text, set<Player>>)

  /** Choosing the correct sentence, when no player submitted that same text,
      earns the voter exactly one point and changes no other score. */
  lemma CorrectSentencePoints(g: Round, p: Player, t: Text)
    requires Wf(g) && g.reference == Some(t) && OwnerOf(g, t) == None
    requires Cast(EmojiRules, g, p, t).1
    ensures p in g.scores
    ensures Cast(EmojiRules, g, p, t).0.scores == g.scores[p := g.scores[p] + 1]
  {
    CastScores(EmojiRules, g, p, t);
  }

  /** Choosing another player's wrong guess earns its author exactly one point
      (nothing when the author is the host) and changes no other score. */
  lemma GuessAuthorPoints(g: Round, p: Player, t: Text, o: Player)
    requires Wf(g) && g.reference != Some(t) && OwnerOf(g, t) == Some(o)
    requires Cast(EmojiRules, g, p, t).1
    ensures g.host != Some(o) ==> o in g.scores && Cast(EmojiRules, g, p, t).0.scores == g.scores[o := g.scores[o] + 1]
    ensures g.host == Some(o) ==> Cast(EmojiRules, g, p, t).0.scores == g.scores
  {
    CastScores(EmojiRules, g, p, t);
  }

  class EmojiTranslationGame {
    /** Lobby code -> the lobby's current round. */
    var games: map<string, Round>

    ghost predicate Valid()
      reads this
    {
      AllWf(games, true)
    }

    constructor ()
      ensures Valid() && games == map[]
    {
      games := map[];
    }

    /** `start_round`: replaces any earlier round of the lobby, scores included. */
    method StartRound(code: string, emojiPrompt: Text, correctSentence: Text, players: seq<Player>,
                      host: Option<Player> := None)
      requires Valid()
      modifies this
      ensures Valid()
      ensures games == old(games)[code := Start(emojiPrompt, Some(correctSentence), players, host)]
    {
      AllWfUpdate(games, true, code, Start(emojiPrompt, Some(correctSentence), players, host));
      games := games[code := Start(emojiPrompt, Some(correctSentence), players, host)];
    }

    /** `submit_sentence`: false for an unknown lobby, otherwise `Submit`. */
    method SubmitSentence(code: string, player: Player, sentence: Text) returns (ok: bool)
      requires Valid()
      modifies this
      ensures Valid()
      ensures code !in old(games) ==> !ok && games == old(games)
      ensures code in old(games) ==>
        && ok == Submit(old(games)[code], player, sentence).1
        && games == old(games)[code := Submit(old(games)[code], player, sentence).0]
    {
      if code !in games {
        return false;
      }
      var g := games[code];
      if player in g.players && player !in g.submitted {
        SubmitPreservesWf(g, player, sentence);
        AllWfUpdate(games, true, code, Submit(g, player, sentence).0);
        games := games[code := Submit(g, player, sentence).0];
        return true;
      }
      return false;
    }

    /** `all_sentences_submitted`: true exactly when the lobby exists and every
        one of its players has submitted a sentence. */
    method AllSentencesSubmitted(code: string) returns (b: bool)
      requires Valid()
      ensures b <==> code in games && games[code].players <= games[code].submitted.Keys
    {
      if code !in games {
        return false;
      }
      AllSubmittedIff(games[code]);
      return games[code].finished == games[code].players;
    }

    /** `get_all_sentences`: the submitted guesses and the correct sentence,
        sorted; exactly the vote options of the round. Empty for an unknown
        lobby. */
    method GetAllSentences(code: string) returns (r: seq<Text>)
      requires Valid()
      ensures code !in games ==> r == []
      ensures code in games ==> IsPool(r, games[code])
      ensures code in games ==> forall t :: t in r <==> t in games[code].votes
    {
      if code !in games {
        return [];
      }
      var g := games[code];
      var values := CollectValues(g.submitted);
      r := SortTexts(values + [g.reference.value]);
      PoolIsVoteOptions(r, g);
    }

    /** `cast_vote`: false for an unknown lobby; otherwise `CastStep` with
        one point each for author and voter. */
    method CastVote(code: string, player: Player, sentence: Text) returns (ok: bool)
      requires Valid()
      modifies this
      ensures Valid()
      ensures code !in old(games) ==> !ok && games == old(games)
      ensures code in old(games) ==>
        && ok == Cast(EmojiRules, old(games)[code], player, sentence).1
        && games == old(games)[code := Cast(EmojiRules, old(games)[code], player, sentence).0]
    {
      if code !in games {
        return false;
      }
      var g := games[code];
      var next;
      next, ok := CastStep(EmojiRules, g, player, sentence);
      CastPreservesWf(EmojiRules, g, player, sentence);
      AllWfUpdate(games, true, code, next);
      games := games[code := next];
    }

    /** `has_player_voted`: whether the player is among the voters of some
        option of the lobby's round. */
    method HasPlayerVoted(code: string, player: Player) returns (b: bool)
      ensures b <==> code in games && Voted(games[code].votes, player)
    {
      if code !in games {
        return false;
      }
      b := ScanVotes(games[code].votes, player);
    }

    /** `end_round`: a snapshot of the scores and votes; the round itself is
        kept. `None` stands for the empty dictionary of an unknown lobby. */
    method EndRound(code: string) returns (s: Option<Summary>)
      requires Valid()
      ensures s.None? <==> code !in games
      ensures s.Some? ==> s.value == Summary(games[code].scores, games[code].votes)
      ensures s.Some? ==> s.value.scores.Keys == Eligible(games[code].players, games[code].host)
    {
      if code !in games {
        return None;
      }
      return Some(Summary(games[code].scores, games[code].votes));
    }

    /** `reset_round_state`: a new round for the same players, scores kept. */
    method ResetRoundState(code: string)
      requires Valid()
      modifies this
      ensures Valid()
      ensures code !in old(games) ==> games == old(games)
      ensures code in old(games) ==> games == old(games)[code := Reset(old(games)[code])]
    {
      if code in games {
        AllWfUpdate(games, true, code, Reset(games[code]));
        games := games[code := Reset(games[code])];
      }
    }
  }
}
