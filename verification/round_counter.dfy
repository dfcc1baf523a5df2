/**
 * The older round counter of conundrum/utils/rounds.py.
 *
 * Unlike the phase state machine, this `RoundManager` has no notion of an
 * active round: every `end_round` call moves the counter forward, so a
 * duplicated end signal skips a round.
 */
module RoundCounter {
  import opened Common

  /** One lobby's entry in `RoundManager.rounds`. */
  datatype Counter = Counter(currentRound: int, totalRounds: int)

  /** What `end_round` reports. */
  datatype Report = GameOver | NextRound(nextRound: int, totalRounds: int)

  /** The report of one `end_round` call and the counter after it. */
  function Ended(c: Counter): (r: (Report, Counter))
    ensures r.1.totalRounds == c.totalRounds
  {
    var next := c.(currentRound := c.currentRound + 1);
    if next.currentRound > next.totalRounds then (GameOver, next)
    else (NextRound(next.currentRound, next.totalRounds), next)
  }

  /** `end_round` always moves the counter up by one, and reports game over
      exactly when the new round number exceeds the total; otherwise it
      reports the new round number. */
  lemma EndRoundAdvances(c: Counter)
    ensures Ended(c).1.currentRound == c.currentRound + 1
    ensures Ended(c).0.GameOver? <==> c.currentRound + 1 > c.totalRounds
    ensures Ended(c).0.NextRound? ==> Ended(c).0 == NextRound(c.currentRound + 1, c.totalRounds)
  {
  }

  /** `k` consecutive `end_round` calls. */
  function EndedTimes(c: Counter, k: nat): (r: Counter)
    decreases k
  {
    if k == 0 then c else EndedTimes(Ended(c).1, k - 1)
  }

  /** There is no guard: `k` calls advance the counter by exactly `k`. */
  lemma {:induction false} EndedTimesAdvances(c: Counter, k: nat)
    ensures EndedTimes(c, k) == c.(currentRound := c.currentRound + k)
    decreases k
  {
    if k > 0 {
      EndedTimesAdvances(Ended(c).1, k - 1);
    }
  }

  /** After `setup_lobby(code, total)` the `k`-th `end_round` call (counting
      from 1) reports game over exactly when `k >= total`, and otherwise
      names round `k + 1`. */
  lemma {:induction false} SetupThenEnd(total: int, k: nat)
    requires k >= 1
    ensures var before := EndedTimes(Counter(1, total), k - 1);
      && (Ended(before).0.GameOver? <==> k >= total)
      && (k < total ==> Ended(before).0 == NextRound(k + 1, total))
  {
    EndedTimesAdvances(Counter(1, total), k - 1);
  }

  /** A duplicated end signal skips a round: two calls from round `n` of a
      game with rounds to spare report round `n + 2`. */
  lemma {:induction false} DuplicateEndSkipsRound(c: Counter)
    requires c.currentRound + 2 <= c.totalRounds
    ensures Ended(Ended(c).1).0 == NextRound(c.currentRound + 2, c.totalRounds)
  {
    EndRoundAdvances(c);
    EndRoundAdvances(Ended(c).1);
  }

  /** `RoundManager` of rounds.py: `rounds` maps a lobby code to its counter. */
  class RoundManager {
    var rounds: map<string, Counter>

    constructor ()
      ensures rounds == map[]
    {
      rounds := map[];
    }

    /** `setup_lobby`: round 1 of `totalRounds` (5 unless given). */
    method SetupLobby(code: string, totalRounds: int := 5)
      modifies this
      ensures rounds == old(rounds)[code := Counter(1, totalRounds)]
    {
      rounds := rounds[code := Counter(1, totalRounds)];
    }

    /** `start_round`: the current and total round numbers, or `None` for an
        unknown lobby; nothing changes. */
    method StartRound(code: string) returns (r: Option<(int, int)>)
      ensures code !in rounds ==> r == None
      ensures code in rounds ==> r == Some((rounds[code].currentRound, rounds[code].totalRounds))
    {
      if code !in rounds {
        return None;
      }
      var lobby := rounds[code];
      return Some((lobby.currentRound, lobby.totalRounds));
    }

    /** `end_round`: game over for an unknown lobby; otherwise advances the counter. */
    method EndRound(code: string) returns (r: Report)
      modifies this
      ensures code !in old(rounds) ==> r == GameOver && rounds == old(rounds)
      ensures code in old(rounds) ==>
        && r == Ended(old(rounds)[code]).0
        && rounds == old(rounds)[code := Ended(old(rounds)[code]).1]
    {
      if code !in rounds {
        return GameOver;
      }
      var lobby := rounds[code];
      lobby := lobby.(currentRound := lobby.currentRound + 1);
      rounds := rounds[code := lobby];
      if lobby.currentRound > lobby.totalRounds {
        return GameOver;
      }
      return NextRound(lobby.currentRound, lobby.totalRounds);
    }

    /** `reset_lobby`: stops tracking the lobby; unknown codes are ignored. */
    method ResetLobby(code: string)
      modifies this
      ensures rounds == old(rounds) - {code}
      ensures code !in old(rounds) ==> rounds == old(rounds)
    {
      if code in rounds {
        rounds := rounds - {code};
      }
    }
  }
}
