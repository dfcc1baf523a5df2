/**
 * `BadAdviceHotlineGame` of conundrum/games/bad_advice_hotline.py.
 *
 * The host asks a question; the players each submit a piece of deliberately
 * bad advice and vote on the pool of submissions. There is no correct text:
 * the pool holds only the submissions, and a vote earns the chosen advice's
 * author 5 points.
 */
module BadAdviceHotline {
  import opened Common
  import opened ScoredRound

  /** Five points to the author of the chosen advice; no text earns the voter
      anything, since the round has no reference text. */
  const AdviceRules := Rules(5, 0)

  /** What `end_round` returns for a known lobby. */
  datatype Summary = Summary(scores: map<Player, int>, votes: map<Text, set<Player>>)

  /** Every vote option of a bad-advice round has an author, and every
      accepted vote pays that author five points (nothing when the author is
      the host) and nobody else anything: voters never gain. */
  lemma AdvicePoints(g: Round, p: Player, t: Text)
    requires Wf(g) && g.reference == None
    requires Cast(AdviceRules, g, p, t).1
    ensures OwnerOf(g, t).Some?
    ensures var o := OwnerOf(g, t).value;
      && (g.host != Some(o) ==> o in g.scores && Cast(AdviceRules, g, p, t).0.scores == g.scores[o := g.scores[o] + 5])
      && (g.host == Some(o) ==> Cast(AdviceRules, g, p, t).0.scores == g.scores)
  {
    assert OwnerOk(g, t);
    CastScores(AdviceRules, g, p, t);
  }

  class BadAdviceHotlineGame {
    /** Lobby code -> the lobby's current round. */
    var games: map<string, Round>

    ghost predicate Valid()
      reads this
    {
      AllWf(games, false)
    }

    constructor ()
      ensures Valid() && games == map[]
    {
      games := map[];
    }

    /** `start_round`: replaces any earlier round of the lobby, scores
        included; the pool starts empty. */
    method StartRound(code: string, question: Text, players: seq<Player>, host: Option<Player> := None)
      requires Valid()
      modifies this
      ensures Valid()
      ensures games == old(games)[code := Start(question, None, players, host)]
    {
      AllWfUpdate(games, false, code, Start(question, None, players, host));
      games := games[code := Start(question, None, players, host)];
    }

    /** `submit_bad_advice`: false for an unknown lobby, otherwise `Submit`. */
    method SubmitBadAdvice(code: string, player: Player, badAdvice: Text) returns (ok: bool)
      requires Valid()
      modifies this
      ensures Valid()
      ensures code !in old(games) ==> !ok && games == old(games)
      ensures code in old(games) ==>
        && ok == Submit(old(games)[code], player, badAdvice).1
        && games == old(games)[code := Submit(old(games)[code], player, badAdvice).0]
    {
      if code !in games {
        return false;
      }
      var g := games[code];
      if player in g.players && player !in g.submitted {
        SubmitPreservesWf(g, player, badAdvice);
        AllWfUpdate(games, false, code, Submit(g, player, badAdvice).0);
        games := games[code := Submit(g, player, badAdvice).0];
        return true;
      }
      return false;
    }

    /** `all_bad_advice_submitted`: true exactly when the lobby exists and
        every one of its players has submitted advice. */
    method AllBadAdviceSubmitted(code: string) returns (b: bool)
      requires Valid()
      ensures b <==> code in games && games[code].players <= games[code].submitted.Keys
    {
      if code !in games {
        return false;
      }
      AllSubmittedIff(games[code]);
      return games[code].finished == games[code].players;
    }

    /** `get_all_bad_advice_answers`: the submitted advice only, sorted;
        exactly the vote options of the round. Empty for an unknown lobby. */
    method GetAllBadAdviceAnswers(code: string) returns (r: seq<Text>)
      requires Valid()
      ensures code !in games ==> r == []
      ensures code in games ==> IsPool(r, games[code]) && multiset(r) == Bag(games[code].submitted)
      ensures code in games ==> forall t :: t in r <==> t in games[code].votes
    {
      if code !in games {
        return [];
      }
      var g := games[code];
      var values := CollectValues(g.submitted);
      r := SortTexts(values);
      PoolIsVoteOptions(r, g);
    }

    /** `cast_vote`: false for an unknown lobby; otherwise `CastStep` with
        five points for the author. */
    method CastVote(code: string, player: Player, answer: Text) returns (ok: bool)
      requires Valid()
      modifies this
      ensures Valid()
      ensures code !in old(games) ==> !ok && games == old(games)
      ensures code in old(games) ==>
        && ok == Cast(AdviceRules, old(games)[code], player, answer).1
        && games == old(games)[code := Cast(AdviceRules, old(games)[code], player, answer).0]
    {
      if code !in games {
        return false;
      }
      var g := games[code];
      var next;
      next, ok := CastStep(AdviceRules, g, player, answer);
      CastPreservesWf(AdviceRules, g, player, answer);
      AllWfUpdate(games, false, code, next);
      games := games[code := next];
    }

    /** `has_player_voted`: whether the player is among the voters of some
        option of the lobby's round. */
    method HasPlayerVoted(code: string, player: Player) returns (b: bool)
      ensures b <==> code in games && Voted(games[code].votes, player)
    {
      if code !in games {
        return false;
      }
      b := ScanVotes(games[code].votes, player);
    }

    /** `end_round`: a snapshot of the scores and votes; the round itself is
        kept. `None` stands for the empty dictionary of an unknown lobby. */
    method EndRound(code: string) returns (s: Option<Summary>)
      requires Valid()
      ensures s.None? <==> code !in games
      ensures s.Some? ==> s.value == Summary(games[code].scores, games[code].votes)
      ensures s.Some? ==> s.value.scores.Keys == Eligible(games[code].players, games[code].host)
    {
      if code !in games {
        return None;
      }
      return Some(Summary(games[code].scores, games[code].votes));
    }

    /** `reset_round_state`: an empty pool for the same players, scores kept. */
    method ResetRoundState(code: string)
      requires Valid()
      modifies this
      ensures Valid()
      ensures code !in old(games) ==> games == old(games)
      ensures code in old(games) ==> games == old(games)[code := Reset(old(games)[code])]
    {
      if code in games {
        AllWfUpdate(games, false, code, Reset(games[code]));
        games := games[code := Reset(games[code])];
      }
    }
  }
}
