/**
 * The round shared by the three voting games (emoji translation, reverse
 * guessing and bad advice hotline).
 *
 * Each of them keeps, per lobby, a dictionary with the same shape: the
 * players, an optional host, each player's single submission, the pool of
 * vote options (text -> voters), the author of each option (text -> player,
 * `None` for the host's reference text) and a score per non-host player.
 * The games differ only in their reference text (emoji translation and
 * reverse guessing have one, bad advice has none) and in the points a vote
 * awards, so the logic is written once here over a `Round` value and a
 * `Rules` value.
 */
module ScoredRound {
  import opened Common

  /** Points awarded by an accepted vote: to the author of the chosen text,
      and to the voter when the chosen text is the reference text. */
  datatype Rules = Rules(authorPoints: nat, voterPoints: nat)

  /** One lobby's entry in a game's `games` dictionary. */
  datatype Round = Round(
    prompt: Text,                         // the emoji prompt, the answer, or the question
    reference: Option<Text>,              // the host's correct text, if the game has one
    players: set<Player>,
    host: Option<Player>,
    submitted: map<Player, Text>,         // player -> their one submission
    finished: set<Player>,                // players who have submitted
    votes: map<Text, set<Player>>,        // pool entry -> voters
    owner: map<Text, Option<Player>>,     // pool entry -> author, None for the reference
    scores: map<Player, int>)

  /** The `host` argument is truthy in Python: given and not the empty string. */
  predicate HostGiven(host: Option<Player>)
  {
    host.Some? && host.value != ""
  }

  /** The players who are scored: all of them, minus a truthy host. */
  function Eligible(players: set<Player>, host: Option<Player>): (e: set<Player>)
    ensures e <= players
    ensures HostGiven(host) ==> host.value !in e
    ensures forall p :: p in players && Some(p) != host ==> p in e
  {
    if HostGiven(host) then players - {host.value} else players
  }

  /** The reference text as a set (empty when the game has none). */
  function RefSet(reference: Option<Text>): (r: set<Text>)
    ensures forall t :: t in r <==> reference == Some(t)
  {
    if reference.Some? then {reference.value} else {}
  }

  /** The vote pool at the start of a round: only the reference text, unvoted. */
  function InitialVotes(reference: Option<Text>): (v: map<Text, set<Player>>)
    ensures v.Keys == RefSet(reference)
    ensures forall t :: t in v ==> v[t] == {}
  {
    if reference.Some? then map[reference.value := {}] else map[]
  }

  /** The authors at the start of a round: the reference text has none. */
  function InitialOwner(reference: Option<Text>): (o: map<Text, Option<Player>>)
    ensures o.Keys == RefSet(reference)
    ensures forall t :: t in o ==> o[t] == None
  {
    if reference.Some? then map[reference.value := None] else map[]
  }

  /** The author recorded for a text; `dict.get` gives `None` when absent. */
  function OwnerOf(g: Round, t: Text): Option<Player>
  {
    if t in g.owner then g.owner[t] else None
  }

  /** An author entry names the player whose submission the text is; a
      missing author only happens for the reference text. */
  ghost predicate OwnerOk(g: Round, t: Text)
    requires t in g.owner
  {
    match g.owner[t]
    case Some(o) => o in g.submitted && g.submitted[o] == t
    case None => g.reference == Some(t)
  }

  /** What every round keeps true between calls. */
  ghost predicate Wf(g: Round)
  {
    && g.scores.Keys == Eligible(g.players, g.host)
    && (forall p :: p in g.scores ==> g.scores[p] >= 0)
    && g.finished == g.submitted.Keys
    && g.submitted.Keys <= g.players
    && g.votes.Keys == g.owner.Keys
    && g.votes.Keys == g.submitted.Values + RefSet(g.reference)
    && (forall t :: t in g.owner ==> OwnerOk(g, t))
    && (forall t :: t in g.votes ==> g.votes[t] <= g.players)
    && (forall t :: t in g.votes && g.host.Some? ==> g.host.value !in g.votes[t])
    && OneVoteEach(g.votes)
  }

  /** Every round of a game's `games` dictionary is well formed, and has a
      reference text exactly when the game uses one. */
  ghost predicate AllWf(games: map<string, Round>, hasReference: bool)
  {
    forall c :: c in games ==> Wf(games[c]) && games[c].reference.Some? == hasReference
  }

  lemma AllWfUpdate(games: map<string, Round>, hasReference: bool, code: string, g: Round)
    requires AllWf(games, hasReference)
    requires Wf(g) && g.reference.Some? == hasReference
    ensures AllWf(games[code := g], hasReference)
  {
  }

  /** `start_round`: a fresh round in which every eligible player has 0 points,
      nobody has submitted and nobody has voted. */
  function Start(prompt: Text, reference: Option<Text>, players: seq<Player>, host: Option<Player>): (g: Round)
    ensures Wf(g)
    ensures forall p :: p in g.players <==> p in players
    ensures g.scores.Keys == Eligible(g.players, host)
    ensures forall p :: p in g.scores ==> g.scores[p] == 0
    ensures g.submitted == map[] && forall p :: !Voted(g.votes, p)
    ensures g.votes.Keys == RefSet(reference) && g.reference == reference
  {
    var ps := set p | p in players;
    Round(prompt, reference, ps, host, map[], {}, InitialVotes(reference), InitialOwner(reference),
          map p | p in Eligible(ps, host) :: 0)
  }

  /** `submit_*`: accepted once per member; records the text, opens it for
      votes (keeping earlier voters when it is already in the pool) and
      makes the submitter its author. */
  function Submit(g: Round, p: Player, t: Text): (r: (Round, bool))
    ensures r.0.reference == g.reference
  {
    if p in g.players && p !in g.submitted then
      var votes := if t in g.votes then g.votes else g.votes[t := {}];
      (g.(submitted := g.submitted[p := t], finished := g.finished + {p},
          votes := votes, owner := g.owner[t := Some(p)]), true)
    else (g, false)
  }

  /** `all_*_submitted`: the set of finished players equals the player set. */
  predicate AllSubmitted(g: Round)
  {
    g.finished == g.players
  }

  /** The vote-option rules of `cast_vote`, all of which must hold. */
  predicate CastAllowed(g: Round, p: Player, t: Text)
  {
    && p in g.players
    && g.host != Some(p)
    && !Voted(g.votes, p)
    && t in g.votes
    && OwnerOf(g, t) != Some(p)
  }

  /** `cast_vote`, checking its conditions in the order the games do. */
  function Cast(rules: Rules, g: Round, p: Player, t: Text): (r: (Round, bool))
    requires Wf(g)
    ensures !r.1 ==> r.0 == g
    ensures r.1 ==> Voted(r.0.votes, p) && r.0.scores.Keys == g.scores.Keys
    ensures r.0.reference == g.reference
  {
    if p !in g.players then (g, false)
    else if g.host == Some(p) then (g, false)
    else if Voted(g.votes, p) then (g, false)
    else if t !in g.votes then (g, false)
    else
      var o := OwnerOf(g, t);
      if o == Some(p) then (g, false)
      else
        assert o.Some? ==> o.value in g.players by {
          if o.Some? { assert OwnerOk(g, t); }
        }
        var s1 := if o.Some? && o != g.host then g.scores[o.value := g.scores[o.value] + rules.authorPoints] else g.scores;
        var s2 := if Some(t) == g.reference && g.host != Some(p) then s1[p := s1[p] + rules.voterPoints] else s1;
        assert p in g.votes[t := g.votes[t] + {p}][t];
        (g.(votes := g.votes[t := g.votes[t] + {p}], scores := s2), true)
  }

  /** The body of `cast_vote` once the lobby's round is found: the checks in
      order (the already-voted check scans every voter set), then the vote
      and the score updates on the round's dictionaries. */
  method CastStep(rules: Rules, g: Round, p: Player, t: Text) returns (next: Round, ok: bool)
    requires Wf(g)
    ensures (next, ok) == Cast(rules, g, p, t)
  {
    if p !in g.players {
      return g, false;
    }
    if g.host == Some(p) {
      return g, false;
    }
    var voted := ScanVotes(g.votes, p);
    if voted {
      return g, false;
    }
    if t !in g.votes {
      return g, false;
    }
    var owner := OwnerOf(g, t);
    if owner == Some(p) {
      return g, false;
    }
    if owner.Some? {
      assert OwnerOk(g, t);
    }
    var votes := g.votes[t := g.votes[t] + {p}];
    var scores := g.scores;
    if owner.Some? && owner != g.host {
      scores := scores[owner.value := scores[owner.value] + rules.authorPoints];
    }
    if Some(t) == g.reference && g.host != Some(p) {
      scores := scores[p := scores[p] + rules.voterPoints];
    }
    return g.(votes := votes, scores := scores), true;
  }

  /** `reset_round_state`: clears submissions, votes and authors, and keeps
      the players, the host and the scores. */
  function Reset(g: Round): (r: Round)
    ensures Wf(g) ==> Wf(r)
    ensures r.scores == g.scores && r.players == g.players && r.host == g.host
    ensures r.submitted == map[] && forall p :: !Voted(r.votes, p)
    ensures r.votes.Keys == RefSet(g.reference) && r.reference == g.reference
  {
    g.(submitted := map[], finished := {}, votes := InitialVotes(g.reference), owner := InitialOwner(g.reference))
  }

  /** What `get_all_*` returns: the submissions plus the reference text, in
      Python's string order. */
  ghost predicate IsPool(r: seq<Text>, g: Round)
  {
    && SortedBy(TextLe, r)
    && multiset(r) == Bag(g.submitted) + (if g.reference.Some? then multiset{g.reference.value} else multiset{})
  }

  // ---------------------------------------------------------------------------
  // Submissions
  // ---------------------------------------------------------------------------

  /** A submission keeps the round well formed. */
  lemma SubmitPreservesWf(g: Round, p: Player, t: Text)
    requires Wf(g)
    ensures Wf(Submit(g, p, t).0)
  {
    if p in g.players && p !in g.submitted {
      ValuesAdd(g.submitted, p, t);
      SubmitOwners(g, p, t);
      SubmitOneVote(g, p, t);
    }
  }

  /** A submission keeps every author entry naming the text's submitter. */
  lemma SubmitOwners(g: Round, p: Player, t: Text)
    requires p !in g.submitted
    requires forall u :: u in g.owner ==> OwnerOk(g, u)
    ensures forall u :: u in Submit(g, p, t).0.owner ==> OwnerOk(Submit(g, p, t).0, u)
  {
    var r := Submit(g, p, t).0;
    forall u | u in r.owner ensures OwnerOk(r, u) {
      if u != t && p in g.players {
        assert OwnerOk(g, u);
        if g.owner[u].Some? {
          assert g.owner[u].value != p;
        }
      }
    }
  }

  /** A submission adds no voter, so nobody comes to hold two votes. */
  lemma SubmitOneVote(g: Round, p: Player, t: Text)
    requires OneVoteEach(g.votes)
    ensures OneVoteEach(Submit(g, p, t).0.votes)
  {
  }

  /** A submission is accepted exactly when the player is a member who has
      not submitted yet; an accepted one records the text, makes the player
      its author and leaves any voters it already had, and a rejected one
      changes nothing. */
  lemma SubmitEffect(g: Round, p: Player, t: Text)
    ensures Submit(g, p, t).1 <==> p in g.players && p !in g.submitted
    ensures !Submit(g, p, t).1 ==> Submit(g, p, t).0 == g
    ensures Submit(g, p, t).1 ==>
      var r := Submit(g, p, t).0;
      && r.submitted == g.submitted[p := t]
      && t in r.votes && r.votes[t] == (if t in g.votes then g.votes[t] else {})
      && OwnerOf(r, t) == Some(p)
      && r.scores == g.scores
      && (forall u :: u in g.votes && u != t ==> u in r.votes && r.votes[u] == g.votes[u])
  {
  }

  /** A player's second submission in a round is always rejected. */
  lemma SubmitOnce(g: Round, p: Player, t: Text, u: Text)
    requires Submit(g, p, t).1
    ensures !Submit(Submit(g, p, t).0, p, u).1
  {
  }

  /** Everybody has submitted exactly when every player has a submission. */
  lemma AllSubmittedIff(g: Round)
    requires Wf(g)
    ensures AllSubmitted(g) <==> g.players <= g.submitted.Keys
  {
  }

  /** The pool returned by `get_all_*` holds exactly the vote options: the
      votes dictionary needs no new entries when it is built. */
  lemma {:induction false} PoolIsVoteOptions(r: seq<Text>, g: Round)
    requires Wf(g) && IsPool(r, g)
    ensures forall t :: t in r <==> t in g.votes
  {
    BagValues(g.submitted);
    forall t ensures t in r <==> t in g.votes {
      assert t in r <==> t in multiset(r);
    }
  }

  /** The pool is fully determined by the round: any two sorted listings of
      it are the same sequence. */
  lemma PoolDetermined(r1: seq<Text>, r2: seq<Text>, g: Round)
    requires IsPool(r1, g) && IsPool(r2, g)
    ensures r1 == r2
  {
    TextOrder();
    SortedUnique(TextLe, r1, r2);
  }

  // ---------------------------------------------------------------------------
  // Votes
  // ---------------------------------------------------------------------------

  /** A vote is accepted exactly when every rule holds: the voter is a
      member, not the host, has not voted yet, the text is a vote option and
      the voter is not its recorded author. */
  lemma CastAccepted(rules: Rules, g: Round, p: Player, t: Text)
    requires Wf(g)
    ensures Cast(rules, g, p, t).1 <==> CastAllowed(g, p, t)
  {
  }

  /** A vote keeps the round well formed (in particular nobody holds two votes). */
  lemma CastPreservesWf(rules: Rules, g: Round, p: Player, t: Text)
    requires Wf(g)
    ensures Wf(Cast(rules, g, p, t).0)
  {
    var (r, ok) := Cast(rules, g, p, t);
    if ok {
      assert r.votes.Keys == g.votes.Keys;
      assert r.owner == g.owner && r.submitted == g.submitted && r.reference == g.reference;
      forall u | u in r.owner ensures OwnerOk(r, u) {
        assert OwnerOk(g, u);
      }
      CastOneVote(g.votes, p, t);
    }
  }

  /** Adding a voter who holds no vote yet to one option keeps one vote each. */
  lemma CastOneVote(votes: map<Text, set<Player>>, p: Player, t: Text)
    requires OneVoteEach(votes) && t in votes && !Voted(votes, p)
    ensures OneVoteEach(votes[t := votes[t] + {p}])
  {
  }

  /** An accepted vote adds the voter to the chosen text's voters and to no
      other; the voter ends up in exactly one voter set. */
  lemma CastRecordsOneVote(rules: Rules, g: Round, p: Player, t: Text)
    requires Wf(g) && Cast(rules, g, p, t).1
    ensures Cast(rules, g, p, t).0.votes == g.votes[t := g.votes[t] + {p}]
    ensures forall u :: u in Cast(rules, g, p, t).0.votes ==>
      (p in Cast(rules, g, p, t).0.votes[u] <==> u == t)
  {
    assert !Voted(g.votes, p);
  }

  /** How an accepted vote changes the scores: the voter gains the voter
      points exactly when the chosen text is the reference; the text's
      author, if any and not the host, gains the author points; everybody
      else, the host included, keeps their score, and no score goes down. */
  lemma CastScores(rules: Rules, g: Round, p: Player, t: Text)
    requires Wf(g) && Cast(rules, g, p, t).1
    ensures var s := Cast(rules, g, p, t).0.scores;
      && s.Keys == g.scores.Keys
      && p in g.scores
      && s[p] == g.scores[p] + (if g.reference == Some(t) then rules.voterPoints else 0)
      && (forall o :: OwnerOf(g, t) == Some(o) && g.host != Some(o) ==>
            o in g.scores && s[o] == g.scores[o] + rules.authorPoints)
      && (forall q :: q in g.scores && q != p && OwnerOf(g, t) != Some(q) ==> s[q] == g.scores[q])
      && (forall q :: q in g.scores ==> s[q] >= g.scores[q])
      && (g.host.Some? && g.host.value in g.scores ==> s[g.host.value] == g.scores[g.host.value])
  {
    var o := OwnerOf(g, t);
    if o.Some? {
      assert OwnerOk(g, t);
    }
  }

  /** A score table that differs from `m` only at `o` and `p`, by `a` and `b`. */
  lemma BumpTwo(m: map<Player, int>, s: map<Player, int>, o: Player, p: Player, a: int, b: int)
    requires o in m && p in m && o != p && s.Keys == m.Keys
    requires s[o] == m[o] + a && s[p] == m[p] + b
    requires forall q :: q in m && q != o && q != p ==> s[q] == m[q]
    ensures s == m[o := m[o] + a][p := m[p] + b]
  {
  }

  /** Whoever gains author points for a vote submitted the chosen text. */
  lemma AuthorSubmittedText(g: Round, t: Text, o: Player)
    requires Wf(g) && OwnerOf(g, t) == Some(o)
    ensures o in g.submitted && g.submitted[o] == t
  {
    assert OwnerOk(g, t);
  }

  /** Once a player's vote is accepted, every further vote by them in the
      same round is rejected. */
  lemma SecondVoteRejected(rules: Rules, g: Round, p: Player, t: Text, u: Text)
    requires Wf(g) && Cast(rules, g, p, t).1
    ensures Wf(Cast(rules, g, p, t).0)
    ensures !Cast(rules, Cast(rules, g, p, t).0, p, u).1
  {
    CastPreservesWf(rules, g, p, t);
  }

  /** A submission casts no vote: whoever had not voted still has not. */
  lemma SubmitKeepsVoters(g: Round, p: Player, t: Text, q: Player)
    ensures Voted(Submit(g, p, t).0.votes, q) <==> Voted(g.votes, q)
  {
    var r := Submit(g, p, t).0;
    if Voted(r.votes, q) {
      var u :| u in r.votes && q in r.votes[u];
      assert u in g.votes;
    }
    if Voted(g.votes, q) {
      var u :| u in g.votes && q in g.votes[u];
      assert u in r.votes && q in r.votes[u];
    }
  }

  /** Authorship goes to the last submitter of a text: when `q` and then `p`
      both submit `t`, `q` may vote for it (it is no longer "their own") and
      `p`, unless the host, collects the author points. */
  lemma LastSubmitterOwns(rules: Rules, g: Round, q: Player, p: Player, t: Text)
    requires Wf(g)
    requires q != p && q in g.players && p in g.players
    requires q !in g.submitted && p !in g.submitted
    requires g.host != Some(q) && g.host != Some(p) && !Voted(g.votes, q)
    ensures var g1 := Submit(g, q, t).0;
      var g2 := Submit(g1, p, t).0;
      && Wf(g2) && OwnerOf(g2, t) == Some(p)
      && Cast(rules, g2, q, t).1
      && Cast(rules, g2, q, t).0.scores[p] == g2.scores[p] + rules.authorPoints
  {
    var g1 := Submit(g, q, t).0;
    SubmitPreservesWf(g, q, t);
    SubmitEffect(g, q, t);
    SubmitKeepsVoters(g, q, t, q);
    var g2 := Submit(g1, p, t).0;
    SubmitPreservesWf(g1, p, t);
    SubmitEffect(g1, p, t);
    SubmitKeepsVoters(g1, p, t, q);
    CastAccepted(rules, g2, q, t);
    CastScores(rules, g2, q, t);
  }

  // ---------------------------------------------------------------------------
  // Reset
  // ---------------------------------------------------------------------------

  /** After a reset every player may submit and vote again, and the scores
      carried over are untouched by the reset itself. */
  lemma ResetReopens(g: Round, p: Player, t: Text)
    requires Wf(g) && p in g.players
    ensures Submit(Reset(g), p, t).1
    ensures Submit(Reset(g), p, t).0.scores == g.scores
  {
  }
}
