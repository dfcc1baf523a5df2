/**
 * `ObviouslyLiesGame` of conundrum/games/obviously_lies.py.
 *
 * The players are shown a question, each submits a false answer, and then
 * everyone votes on the pool of false answers plus the correct answer. This
 * game keeps no scores, has no host and no author rule: any member may vote
 * once for any option, their own lie included. The correct answer becomes a
 * vote option only when the pool is listed (`get_all_answers`), and a
 * submission always starts its text's voter set afresh.
 */
module ObviouslyLies {
  import opened Common

  /** One lobby's entry in `ObviouslyLiesGame.games`. */
  datatype LiesRound = LiesRound(
    question: Text,
    correctAnswer: Text,
    players: set<Player>,
    falseAnswers: map<Player, Text>,      // player -> their one false answer
    finished: set<Player>,                // players who have submitted
    votes: map<Text, set<Player>>)        // vote option -> voters

  /** What every round keeps true between calls: the vote options are the
      submitted lies, plus the correct answer once it has been revealed. */
  ghost predicate LiesWf(g: LiesRound)
  {
    && g.finished == g.falseAnswers.Keys
    && g.falseAnswers.Keys <= g.players
    && g.falseAnswers.Values <= g.votes.Keys
    && g.votes.Keys <= g.falseAnswers.Values + {g.correctAnswer}
    && (forall t :: t in g.votes ==> g.votes[t] <= g.players)
    && OneVoteEach(g.votes)
  }

  /** `start_round`: no lies, no vote options, nobody finished. */
  function StartLies(question: Text, correctAnswer: Text, players: seq<Player>): (g: LiesRound)
    ensures LiesWf(g)
    ensures forall p :: p in g.players <==> p in players
    ensures g.falseAnswers == map[] && g.votes == map[]
    ensures g.correctAnswer == correctAnswer
  {
    LiesRound(question, correctAnswer, set p | p in players, map[], {}, map[])
  }

  /** `submit_false_answer`: accepted once per member; records the lie and
      gives it an empty voter set, even when the text was already an option. */
  function SubmitLie(g: LiesRound, p: Player, t: Text): (r: (LiesRound, bool))
    ensures r.0.correctAnswer == g.correctAnswer && r.0.players == g.players
  {
    if p in g.players && p !in g.falseAnswers then
      (g.(falseAnswers := g.falseAnswers[p := t], finished := g.finished + {p},
          votes := g.votes[t := {}]), true)
    else (g, false)
  }

  /** The first half of `get_all_answers`: makes the correct answer a vote
      option, keeping its voters if it already is one. */
  function Reveal(g: LiesRound): (r: LiesRound)
    ensures r.correctAnswer in r.votes
    ensures r.falseAnswers == g.falseAnswers && r.players == g.players
    ensures r.correctAnswer == g.correctAnswer
    ensures r.votes.Keys == g.votes.Keys + {g.correctAnswer}
    ensures forall t :: t in g.votes ==> r.votes[t] == g.votes[t]
  {
    if g.correctAnswer in g.votes then g else g.(votes := g.votes[g.correctAnswer := {}])
  }

  /** `cast_vote`: a member who has not voted yet may vote for any option. */
  function CastLie(g: LiesRound, p: Player, t: Text): (r: (LiesRound, bool))
    ensures !r.1 ==> r.0 == g
    ensures r.1 ==> Voted(r.0.votes, p)
  {
    if p !in g.players then (g, false)
    else if Voted(g.votes, p) then (g, false)
    else if t !in g.votes then (g, false)
    else
      assert p in g.votes[t := g.votes[t] + {p}][t];
      (g.(votes := g.votes[t := g.votes[t] + {p}]), true)
  }

  /** What `get_all_answers` returns: the lies plus the correct answer, in
      Python's string order. */
  ghost predicate IsLiesPool(r: seq<Text>, g: LiesRound)
  {
    SortedBy(TextLe, r) && multiset(r) == Bag(g.falseAnswers) + multiset{g.correctAnswer}
  }

  // ---------------------------------------------------------------------------
  // Properties
  // ---------------------------------------------------------------------------

  lemma SubmitLiePreservesWf(g: LiesRound, p: Player, t: Text)
    requires LiesWf(g)
    ensures LiesWf(SubmitLie(g, p, t).0)
  {
    if p in g.players && p !in g.falseAnswers {
      ValuesAdd(g.falseAnswers, p, t);
    }
  }

  /** A lie is accepted exactly when the player is a member who has not
      submitted; the text's voter set becomes empty, the other options keep
      theirs. */
  lemma SubmitLieEffect(g: LiesRound, p: Player, t: Text)
    ensures SubmitLie(g, p, t).1 <==> p in g.players && p !in g.falseAnswers
    ensures !SubmitLie(g, p, t).1 ==> SubmitLie(g, p, t).0 == g
    ensures SubmitLie(g, p, t).1 ==>
      var r := SubmitLie(g, p, t).0;
      && r.falseAnswers == g.falseAnswers[p := t]
      && t in r.votes && r.votes[t] == {}
      && (forall u :: u in g.votes && u != t ==> u in r.votes && r.votes[u] == g.votes[u])
  {
  }

  /** A submission that repeats an already voted-for text takes those votes
      away: the earlier voters count as not having voted and may vote again. */
  lemma SubmitErasesVotes(g: LiesRound, p: Player, t: Text, q: Player)
    requires LiesWf(g) && SubmitLie(g, p, t).1
    requires t in g.votes && q in g.votes[t]
    ensures !Voted(SubmitLie(g, p, t).0.votes, q)
    ensures CastLie(SubmitLie(g, p, t).0, q, t).1
  {
  }

  /** Until the pool is listed, the correct answer is not a vote option: no
      submission that differs from it makes it one, so votes for it are
      rejected. */
  lemma CorrectHiddenUntilReveal(g: LiesRound, p: Player, t: Text, q: Player)
    requires g.correctAnswer !in g.votes && t != g.correctAnswer
    ensures g.correctAnswer !in SubmitLie(g, p, t).0.votes
    ensures !CastLie(SubmitLie(g, p, t).0, q, g.correctAnswer).1
  {
  }

  /** Listing the pool opens the correct answer for votes and keeps every
      recorded vote; listing it again changes nothing. */
  lemma RevealOpensCorrect(g: LiesRound)
    requires LiesWf(g)
    ensures LiesWf(Reveal(g))
    ensures Reveal(Reveal(g)) == Reveal(g)
    ensures forall q :: Voted(Reveal(g).votes, q) <==> Voted(g.votes, q)
  {
    forall q ensures Voted(Reveal(g).votes, q) <==> Voted(g.votes, q) {
      if Voted(Reveal(g).votes, q) {
        var u :| u in Reveal(g).votes && q in Reveal(g).votes[u];
        assert u in g.votes;
      }
      if Voted(g.votes, q) {
        var u :| u in g.votes && q in g.votes[u];
        assert u in Reveal(g).votes && q in Reveal(g).votes[u];
      }
    }
  }

  /** There is no author rule: a liar who has not voted may vote for their
      own lie. */
  lemma LiarMayVoteOwnLie(g: LiesRound, p: Player)
    requires LiesWf(g) && p in g.falseAnswers && !Voted(g.votes, p)
    ensures CastLie(g, p, g.falseAnswers[p]).1
  {
  }

  /** A vote is accepted exactly when the voter is a member who has not voted
      and the text is an option; it adds the voter to that option only, and
      keeps the round well formed. */
  lemma CastLieEffect(g: LiesRound, p: Player, t: Text)
    requires LiesWf(g)
    ensures CastLie(g, p, t).1 <==> p in g.players && !Voted(g.votes, p) && t in g.votes
    ensures LiesWf(CastLie(g, p, t).0)
    ensures CastLie(g, p, t).1 ==>
      var r := CastLie(g, p, t).0;
      && r.votes == g.votes[t := g.votes[t] + {p}]
      && (forall u :: u in r.votes ==> (p in r.votes[u] <==> u == t))
  {
    if CastLie(g, p, t).1 {
      assert !Voted(g.votes, p);
    }
  }

  /** Once a vote is accepted, every further vote by the same player in the
      round is rejected. */
  lemma SecondLieVoteRejected(g: LiesRound, p: Player, t: Text, u: Text)
    requires CastLie(g, p, t).1
    ensures !CastLie(CastLie(g, p, t).0, p, u).1
  {
  }

  /** The body of `cast_vote` once the lobby's round is found. */
  method CastLieStep(g: LiesRound, p: Player, t: Text) returns (next: LiesRound, ok: bool)
    ensures (next, ok) == CastLie(g, p, t)
  {
    if p !in g.players {
      return g, false;
    }
    var voted := ScanVotes(g.votes, p);
    if voted {
      return g, false;
    }
    if t !in g.votes {
      return g, false;
    }
    return g.(votes := g.votes[t := g.votes[t] + {p}]), true;
  }

  /** The listing half of `get_all_answers` on a revealed round: the lies in
      dictionary order plus the correct answer, sorted; these are exactly the
      vote options. */
  method ListAnswers(g: LiesRound) returns (r: seq<Text>)
    requires LiesWf(g) && g.correctAnswer in g.votes
    ensures IsLiesPool(r, g)
    ensures forall t :: t in r <==> t in g.votes
  {
    var values := CollectValues(g.falseAnswers);
    r := SortTexts(values + [g.correctAnswer]);
    BagValues(g.falseAnswers);
    forall t ensures t in r <==> t in g.votes {
      assert t in r <==> t in multiset(r);
    }
  }

  class ObviouslyLiesGame {
    /** Lobby code -> the lobby's current round. */
    var games: map<string, LiesRound>

    ghost predicate Valid()
      reads this
    {
      forall c :: c in games ==> LiesWf(games[c])
    }

    constructor ()
      ensures Valid() && games == map[]
    {
      games := map[];
    }

    /** `start_round`: replaces any earlier round of the lobby. */
    method StartRound(code: string, question: Text, correctAnswer: Text, players: seq<Player>)
      requires Valid()
      modifies this
      ensures Valid()
      ensures games == old(games)[code := StartLies(question, correctAnswer, players)]
    {
      games := games[code := StartLies(question, correctAnswer, players)];
    }

    /** `submit_false_answer`: false for an unknown lobby, otherwise `SubmitLie`. */
    method SubmitFalseAnswer(code: string, player: Player, falseAnswer: Text) returns (ok: bool)
      requires Valid()
      modifies this
      ensures Valid()
      ensures code !in old(games) ==> !ok && games == old(games)
      ensures code in old(games) ==>
        && ok == SubmitLie(old(games)[code], player, falseAnswer).1
        && games == old(games)[code := SubmitLie(old(games)[code], player, falseAnswer).0]
    {
      if code !in games {
        return false;
      }
      var g := games[code];
      if player in g.players && player !in g.falseAnswers {
        SubmitLiePreservesWf(g, player, falseAnswer);
        games := games[code := SubmitLie(g, player, falseAnswer).0];
        return true;
      }
      return false;
    }

    /** `all_false_submitted`: true exactly when the lobby exists and every
        one of its players has submitted a lie. */
    method AllFalseSubmitted(code: string) returns (b: bool)
      requires Valid()
      ensures b <==> code in games && games[code].players <= games[code].falseAnswers.Keys
    {
      if code !in games {
        return false;
      }
      return games[code].finished == games[code].players;
    }

    /** `get_all_answers`: reveals the correct answer as a vote option, then
        returns the lies and the correct answer, sorted; these are now exactly
        the vote options. Empty, and no change, for an unknown lobby. */
    method GetAllAnswers(code: string) returns (r: seq<Text>)
      requires Valid()
      modifies this
      ensures Valid()
      ensures code !in old(games) ==> r == [] && games == old(games)
      ensures code in old(games) ==>
        && games == old(games)[code := Reveal(old(games)[code])]
        && IsLiesPool(r, games[code])
        && (forall t :: t in r <==> t in games[code].votes)
    {
      if code !in games {
        return [];
      }
      var g := games[code];
      RevealOpensCorrect(g);
      g := Reveal(g);
      games := games[code := g];
      r := ListAnswers(g);
    }

    /** `cast_vote`: false for an unknown lobby, otherwise `CastLieStep`. */
    method CastVote(code: string, player: Player, answer: Text) returns (ok: bool)
      requires Valid()
      modifies this
      ensures Valid()
      ensures code !in old(games) ==> !ok && games == old(games)
      ensures code in old(games) ==>
        && ok == CastLie(old(games)[code], player, answer).1
        && games == old(games)[code := CastLie(old(games)[code], player, answer).0]
    {
      if code !in games {
        return false;
      }
      var g := games[code];
      var next;
      next, ok := CastLieStep(g, player, answer);
      CastLieEffect(g, player, answer);
      games := games[code := next];
    }

    /** `has_player_voted`: whether the player is among the voters of some
        option of the lobby's round. */
    method HasPlayerVoted(code: string, player: Player) returns (b: bool)
      ensures b <==> code in games && Voted(games[code].votes, player)
    {
      if code !in games {
        return false;
      }
      b := ScanVotes(games[code].votes, player);
    }

    /** `end_round`: forgets the lobby's round; unknown codes are ignored. */
    method EndRound(code: string)
      modifies this
      ensures games == old(games) - {code}
      ensures Valid() ==> code !in games && Valid()
    {
      if code in games {
        games := games - {code};
      }
    }
  }
}
