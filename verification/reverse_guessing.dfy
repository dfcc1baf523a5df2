/**
 * `ReverseGuessingGame` of conundrum/games/reverse_guessing.py.
 *
 * The host gives an answer and knows the question it answers; the other
 * players each guess the question, then vote on the pool of guesses plus the
 * correct question. A vote for another player's guess earns its author 4
 * points; a vote for the correct question earns the voter 5 points.
 */
module ReverseGuessing {
  import opened Common
  import opened ScoredRound

  /** Four points to the author of a chosen guess, five to a voter who finds
      the correct question. */
  const ReverseRules := Rules(4, 5)

  /** What `end_round` returns for a known lobby: the scores, the votes, and
      the round's question and answer. */
  datatype Summary = Summary(scores: map<Player, int>, votes: map<Text, set<Player>>,
                             question: Option<Text>, answer: Option<Text>)

  /** The summary as reverse_guessing.py builds it: it asks `hasattr` of the
      round's dictionary, which never has attributes named after its keys, so
      the question and the answer always come out `None`. */
  function SummaryAsWritten(g: Round): (s: Summary)
    ensures s.scores == g.scores && s.votes == g.votes
    ensures s.question == None && s.answer == None
  {
    Summary(g.scores, g.votes, None, None)
  }

  /** The as-written summary loses the round's answer even when the host gave
      a non-empty one. */
  lemma SummaryAsWrittenLosesAnswer()
    ensures var g := Start("42", Some("What is six times seven?"), ["ann", "bob"], Some("ann"));
      SummaryAsWritten(g).answer != Some(g.prompt)
  {
  }

  /** Every round's coded summary differs from the intended one: the answer,
      which the round always has, is lost. */
  lemma SummaryAsWrittenDiffers(g: Round)
    ensures SummaryAsWritten(g).answer == None && RoundSummary(g).answer == Some(g.prompt)
    ensures SummaryAsWritten(g) != RoundSummary(g)
  {
  }

  /** The summary as evidently intended: it carries the host's answer and the
      correct question of the round. The round stores the question under
      "correct_question", so that is where the summary's question is taken
      from. */
  function RoundSummary(g: Round): (s: Summary)
    ensures s.scores == g.scores && s.votes == g.votes
    ensures s.answer == Some(g.prompt) && s.question == g.reference
  {
    Summary(g.scores, g.votes, g.reference, Some(g.prompt))
  }

  /** Choosing the correct question, when no player submitted that same text,
      earns the voter exactly five points and changes no other score. */
  lemma CorrectQuestionPoints(g: Round, p: Player, t: Text)
    requires Wf(g) && g.reference == Some(t) && OwnerOf(g, t) == None
    requires Cast(ReverseRules, g, p, t).1
    ensures p in g.scores
    ensures Cast(ReverseRules, g, p, t).0.scores == g.scores[p := g.scores[p] + 5]
  {
    CastScores(ReverseRules, g, p, t);
  }

  /** Choosing another player's wrong guess earns its author exactly four
      points (nothing when the author is the host) and changes no other score. */
  lemma GuessAuthorPoints(g: Round, p: Player, t: Text, o: Player)
    requires Wf(g) && g.reference != Some(t) && OwnerOf(g, t) == Some(o)
    requires Cast(ReverseRules, g, p, t).1
    ensures g.host != Some(o) ==> o in g.scores && Cast(ReverseRules, g, p, t).0.scores == g.scores[o := g.scores[o] + 4]
    ensures g.host == Some(o) ==> Cast(ReverseRules, g, p, t).0.scores == g.scores
  {
    CastScores(ReverseRules, g, p, t);
  }

  /** Choosing the correct question after a player submitted that same text
      pays twice: five points to the voter and four to that player. */
  lemma ClaimedQuestionPoints(g: Round, p: Player, t: Text, o: Player)
    requires Wf(g) && g.reference == Some(t) && OwnerOf(g, t) == Some(o) && g.host != Some(o)
    requires Cast(ReverseRules, g, p, t).1
    ensures o != p && o in g.scores && p in g.scores
    ensures Cast(ReverseRules, g, p, t).0.scores == g.scores[o := g.scores[o] + 4][p := g.scores[p] + 5]
  {
    var s := Cast(ReverseRules, g, p, t).0.scores;
    CastScores(ReverseRules, g, p, t);
    assert s[o] == g.scores[o] + 4 && s[p] == g.scores[p] + 5;
    BumpTwo(g.scores, s, o, p, 4, 5);
  }

  /** A player who submits the correct question word for word becomes its
      author and may no longer vote for it; any other member who has not
      voted may, and that vote pays the voter five points and the author
      four. */
  lemma CorrectQuestionClaimed(g: Round, o: Player, p: Player, t: Text)
    requires Wf(g) && g.reference == Some(t)
    requires Submit(g, o, t).1 && g.host != Some(o)
    requires p in g.players && p != o && g.host != Some(p) && !Voted(g.votes, p)
    ensures var g1 := Submit(g, o, t).0;
      && Wf(g1)
      && !Cast(ReverseRules, g1, o, t).1
      && Cast(ReverseRules, g1, p, t).1
      && o in g1.scores && p in g1.scores
      && Cast(ReverseRules, g1, p, t).0.scores == g1.scores[o := g1.scores[o] + 4][p := g1.scores[p] + 5]
  {
    SubmitClaims(g, o, p, t);
    ClaimedVotes(Submit(g, o, t).0, o, p, t);
  }

  /** An accepted submission of `t` by `o` makes `o` its author and leaves
      everybody else's standing as it was. */
  lemma SubmitClaims(g: Round, o: Player, p: Player, t: Text)
    requires Wf(g) && Submit(g, o, t).1
    ensures var g1 := Submit(g, o, t).0;
      && Wf(g1) && OwnerOf(g1, t) == Some(o) && t in g1.votes
      && g1.players == g.players && g1.host == g.host && g1.reference == g.reference
      && (Voted(g1.votes, p) <==> Voted(g.votes, p))
  {
    SubmitPreservesWf(g, o, t);
    SubmitEffect(g, o, t);
    SubmitKeepsVoters(g, o, t, p);
  }

  /** Once `o` is the author of the correct question, `o` may not vote for
      it and any other member who has not voted may, for five points and
      four to `o`. */
  lemma ClaimedVotes(g: Round, o: Player, p: Player, t: Text)
    requires Wf(g) && g.reference == Some(t) && t in g.votes && OwnerOf(g, t) == Some(o)
    requires g.host != Some(o) && p in g.players && p != o && g.host != Some(p) && !Voted(g.votes, p)
    ensures !Cast(ReverseRules, g, o, t).1
    ensures Cast(ReverseRules, g, p, t).1
    ensures o in g.scores && p in g.scores
    ensures Cast(ReverseRules, g, p, t).0.scores == g.scores[o := g.scores[o] + 4][p := g.scores[p] + 5]
  {
    CastAccepted(ReverseRules, g, o, t);
    CastAccepted(ReverseRules, g, p, t);
    ClaimedQuestionPoints(g, p, t, o);
  }

  class ReverseGuessingGame {
    /** Lobby code -> the lobby's current round. */
    var games: map<string, Round>

    ghost predicate Valid()
      reads this
    {
      AllWf(games, true)
    }

    constructor ()
      ensures Valid() && games == map[]
    {
      games := map[];
    }

    /** `start_round`: replaces any earlier round of the lobby, scores included. */
    method StartRound(code: string, answer: Text, correctQuestion: Text, players: seq<Player>,
                      host: Option<Player> := None)
      requires Valid()
      modifies this
      ensures Valid()
      ensures games == old(games)[code := Start(answer, Some(correctQuestion), players, host)]
    {
      AllWfUpdate(games, true, code, Start(answer, Some(correctQuestion), players, host));
      games := games[code := Start(answer, Some(correctQuestion), players, host)];
    }

    /** `submit_question`: false for an unknown lobby, otherwise `Submit`. */
    method SubmitQuestion(code: string, player: Player, guessedQuestion: Text) returns (ok: bool)
      requires Valid()
      modifies this
      ensures Valid()
      ensures code !in old(games) ==> !ok && games == old(games)
      ensures code in old(games) ==>
        && ok == Submit(old(games)[code], player, guessedQuestion).1
        && games == old(games)[code := Submit(old(games)[code], player, guessedQuestion).0]
    {
      if code !in games {
        return false;
      }
      var g := games[code];
      if player in g.players && player !in g.submitted {
        SubmitPreservesWf(g, player, guessedQuestion);
        AllWfUpdate(games, true, code, Submit(g, player, guessedQuestion).0);
        games := games[code := Submit(g, player, guessedQuestion).0];
        return true;
      }
      return false;
    }

    /** `all_questions_submitted`: true exactly when the lobby exists and
        every one of its players has submitted a question. */
    method AllQuestionsSubmitted(code: string) returns (b: bool)
      requires Valid()
      ensures b <==> code in games && games[code].players <= games[code].submitted.Keys
    {
      if code !in games {
        return false;
      }
      AllSubmittedIff(games[code]);
      return games[code].finished == games[code].players;
    }

    /** `get_all_questions`: the guessed questions and the correct question,
        sorted; exactly the vote options of the round. Empty for an unknown
        lobby. */
    method GetAllQuestions(code: string) returns (r: seq<Text>)
      requires Valid()
      ensures code !in games ==> r == []
      ensures code in games ==> IsPool(r, games[code])
      ensures code in games ==> forall t :: t in r <==> t in games[code].votes
    {
      if code !in games {
        return [];
      }
      var g := games[code];
      var values := CollectValues(g.submitted);
      r := SortTexts(values + [g.reference.value]);
      PoolIsVoteOptions(r, g);
    }

    /** `cast_vote`: false for an unknown lobby; otherwise `CastStep` with
        four points for the author and five for the voter. */
    method CastVote(code: string, player: Player, question: Text) returns (ok: bool)
      requires Valid()
      modifies this
      ensures Valid()
      ensures code !in old(games) ==> !ok && games == old(games)
      ensures code in old(games) ==>
        && ok == Cast(ReverseRules, old(games)[code], player, question).1
        && games == old(games)[code := Cast(ReverseRules, old(games)[code], player, question).0]
    {
      if code !in games {
        return false;
      }
      var g := games[code];
      var next;
      next, ok := CastStep(ReverseRules, g, player, question);
      CastPreservesWf(ReverseRules, g, player, question);
      AllWfUpdate(games, true, code, next);
      games := games[code := next];
    }

    /** `has_player_voted`: whether the player is among the voters of some
        option of the lobby's round. */
    method HasPlayerVoted(code: string, player: Player) returns (b: bool)
      ensures b <==> code in games && Voted(games[code].votes, player)
    {
      if code !in games {
        return false;
      }
      b := ScanVotes(games[code].votes, player);
    }

    /** `end_round`: a snapshot of the scores and votes with the round's
        question and answer (the corrected `RoundSummary`, which differs from
        the coded `SummaryAsWritten` only in those two fields); the round
        itself is kept. `None` stands for the empty dictionary of an unknown
        lobby. */
    method EndRound(code: string) returns (s: Option<Summary>)
      requires Valid()
      ensures s.None? <==> code !in games
      ensures s.Some? ==> s.value == RoundSummary(games[code])
      ensures s.Some? ==> s.value == SummaryAsWritten(games[code]).(
        question := games[code].reference, answer := Some(games[code].prompt))
      ensures s.Some? ==> s.value.question.Some? && s.value.question.value in games[code].votes
    {
      if code !in games {
        return None;
      }
      return Some(RoundSummary(games[code]));
    }

    /** `reset_round_state`: a new round for the same players, scores kept. */
    method ResetRoundState(code: string)
      requires Valid()
      modifies this
      ensures Valid()
      ensures code !in old(games) ==> games == old(games)
      ensures code in old(games) ==> games == old(games)[code := Reset(old(games)[code])]
    {
      if code in games {
        AllWfUpdate(games, true, code, Reset(games[code]));
        games := games[code := Reset(games[code])];
      }
    }
  }
}
