/**
 * The round phase state machine of conundrum/utils/round_manager.py.
 *
 * `RoundManager` keeps, per lobby code, a record of the round limit, the
 * current round (0 before the game starts), whether a round is running and
 * whether the game is over, plus the lobby's handler hooks. The hooks are
 * opaque values of type `H`: the model records which hooks a lobby has but not
 * what calling them does.
 */
module RoundPhases {
  import opened Common

  /** One lobby's entry in `RoundManager.state`. */
  datatype RoundState = RoundState(maxRounds: int, currentRound: int, roundActive: bool, finished: bool)

  /** The dictionary `end_round` returns. */
  datatype EndReport = EndReport(gameOver: bool, currentRound: int, nextRound: Option<int>)

  /** A lifecycle call either returns or raises `KeyError` for an unregistered lobby. */
  datatype Result<T> = Ok(value: T) | NotRegistered

  /** What every reachable lobby state satisfies. */
  ghost predicate Inv(s: RoundState)
  {
    && 1 <= s.maxRounds
    && 0 <= s.currentRound <= s.maxRounds
    && (s.roundActive ==> 1 <= s.currentRound)
    && (s.finished ==> !s.roundActive && s.currentRound == s.maxRounds)
  }

  /** The record `register_lobby` stores: `max(1, max_rounds)` rounds, none played. */
  function Registered(maxRounds: int): (s: RoundState)
    ensures Inv(s)
    ensures s.maxRounds >= 1 && s.maxRounds >= maxRounds
    ensures maxRounds >= 1 ==> s.maxRounds == maxRounds
    ensures s.currentRound == 0 && !s.roundActive && !s.finished
  {
    RoundState(if maxRounds < 1 then 1 else maxRounds, 0, false, false)
  }

  /** The state after `start_game`. */
  function GameStarted(s: RoundState): (r: RoundState)
    ensures Inv(s) ==> Inv(r)
    ensures r.maxRounds == s.maxRounds
  {
    s.(finished := false, currentRound := 1, roundActive := true)
  }

  /** The value returned by `start_round` and the state after it. */
  function RoundStarted(s: RoundState): (r: (Option<int>, RoundState))
    ensures Inv(s) ==> Inv(r.1)
    ensures r.1.maxRounds == s.maxRounds
  {
    if s.finished then (None, s)
    else
      var t := s.(currentRound := if s.currentRound == 0 then 1 else s.currentRound, roundActive := true);
      (Some(t.currentRound), t)
  }

  /** The report returned by `end_round` and the state after it. */
  function RoundEnded(s: RoundState): (r: (EndReport, RoundState))
    ensures Inv(s) ==> Inv(r.1)
    ensures r.1.maxRounds == s.maxRounds
  {
    if !s.roundActive then (EndReport(s.finished, s.currentRound, None), s)
    else
      var current := s.currentRound;
      var t := s.(roundActive := false);
      if current >= t.maxRounds then (EndReport(true, current, None), t.(finished := true))
      else (EndReport(false, current, Some(current + 1)), t.(currentRound := current + 1))
  }

  /** `start_game` opens round 1 whatever state the lobby was in, a finished game included. */
  lemma StartGameOpensRoundOne(s: RoundState)
    requires Inv(s)
    ensures GameStarted(s).currentRound == 1 && GameStarted(s).roundActive && !GameStarted(s).finished
    ensures Inv(GameStarted(s))
  {
  }

  /** `start_round` does nothing to a finished game; otherwise it opens the
      current round, turning round 0 into round 1 and keeping any other number. */
  lemma StartRoundEffect(s: RoundState)
    requires Inv(s)
    ensures s.finished ==> RoundStarted(s) == (None, s)
    ensures !s.finished ==>
      && RoundStarted(s).1.roundActive
      && !RoundStarted(s).1.finished
      && RoundStarted(s).1.currentRound == (if s.currentRound == 0 then 1 else s.currentRound)
      && RoundStarted(s).0 == Some(RoundStarted(s).1.currentRound)
  {
  }

  /** Ending an inactive round reports no next round and changes nothing. */
  lemma EndRoundGuard(s: RoundState)
    requires !s.roundActive
    ensures RoundEnded(s).1 == s
    ensures RoundEnded(s).0.nextRound == None && RoundEnded(s).0.gameOver == s.finished
  {
  }

  /** Ending an active round closes it and reports exactly one of game over or
      the next round: game over exactly when the limit is reached, and the
      next round is the current one plus one. */
  lemma EndRoundReportsOne(s: RoundState)
    requires Inv(s) && s.roundActive
    ensures var (rep, t) := RoundEnded(s);
      && !t.roundActive
      && rep.currentRound == s.currentRound
      && (rep.gameOver <==> rep.nextRound.None?)
      && (rep.gameOver <==> s.currentRound == s.maxRounds)
      && (rep.gameOver ==> t.finished && t.currentRound == s.currentRound)
      && (!rep.gameOver ==> !t.finished && rep.nextRound == Some(s.currentRound + 1) && t.currentRound == s.currentRound + 1)
  {
  }

  /** Two `end_round` calls in a row advance the round at most once: the
      second one reports no next round and leaves the state alone. */
  lemma {:induction false} EndRoundTwice(s: RoundState)
    requires Inv(s)
    ensures var t := RoundEnded(s).1;
      && RoundEnded(t).1 == t
      && RoundEnded(t).0.nextRound == None
      && s.currentRound <= t.currentRound <= s.currentRound + 1
  {
    var t := RoundEnded(s).1;
    assert !t.roundActive;
    EndRoundGuard(t);
  }

  /** A finished game stays finished under `start_round` and `end_round`. */
  lemma FinishedIsFinal(s: RoundState)
    requires Inv(s) && s.finished
    ensures RoundStarted(s).1 == s && RoundEnded(s).1 == s
    ensures RoundEnded(s).0 == EndReport(true, s.maxRounds, None)
  {
  }

  /** One round boundary as the game drives it: `end_round` then `start_round`. */
  function NextRound(s: RoundState): (r: RoundState)
    ensures Inv(s) ==> Inv(r)
  {
    RoundStarted(RoundEnded(s).1).1
  }

  /** `k` round boundaries. */
  function Play(s: RoundState, k: nat): (r: RoundState)
    ensures Inv(s) ==> Inv(r)
    decreases k
  {
    if k == 0 then s else Play(NextRound(s), k - 1)
  }

  /** Each round boundary before the limit moves the counter up by exactly one. */
  lemma {:induction false} PlayAdvances(s: RoundState, k: nat)
    requires Inv(s) && s.roundActive
    requires s.currentRound + k <= s.maxRounds
    ensures Play(s, k) == s.(currentRound := s.currentRound + k)
    decreases k
  {
    if k > 0 {
      EndRoundReportsOne(s);
      var n := NextRound(s);
      assert n == s.(currentRound := s.currentRound + 1);
      PlayAdvances(n, k - 1);
    }
  }

  /** A game registered with `m` rounds and started runs exactly `max(1, m)`
      rounds: every earlier `end_round` reports a next round and the
      `max(1, m)`-th reports game over. */
  lemma {:induction false} GameLastsMaxRounds(m: int)
    ensures var s0 := GameStarted(Registered(m));
      && (forall k :: 0 <= k < s0.maxRounds - 1 ==> RoundEnded(Play(s0, k)).0.nextRound == Some(k + 2))
      && RoundEnded(Play(s0, s0.maxRounds - 1)).0 == EndReport(true, s0.maxRounds, None)
      && RoundEnded(Play(s0, s0.maxRounds - 1)).1.finished
  {
    var s0 := GameStarted(Registered(m));
    forall k | 0 <= k < s0.maxRounds - 1
      ensures RoundEnded(Play(s0, k)).0.nextRound == Some(k + 2)
    {
      PlayAdvances(s0, k);
      EndRoundReportsOne(Play(s0, k));
    }
    PlayAdvances(s0, s0.maxRounds - 1);
    EndRoundReportsOne(Play(s0, s0.maxRounds - 1));
  }

  /** `RoundManager`: `state` and `handlers` are the two dictionaries keyed by lobby code. */
  class RoundManager<H> {
    var state: map<string, RoundState>
    var handlers: map<string, H>

    ghost predicate Valid()
      reads this
    {
      && (forall code :: code in state ==> Inv(state[code]))
      && handlers.Keys <= state.Keys
    }

    constructor ()
      ensures Valid()
      ensures state == map[] && handlers == map[]
    {
      state := map[];
      handlers := map[];
    }

    /** `register_lobby`; a `handler` of `None` stands for a missing or empty dictionary. */
    method RegisterLobby(code: string, maxRounds: int := 1, handler: Option<H> := None)
      requires Valid()
      modifies this
      ensures Valid()
      ensures state == old(state)[code := Registered(maxRounds)]
      ensures handlers == if handler.Some? then old(handlers)[code := handler.value] else old(handlers) - {code}
    {
      state := state[code := RoundState(if maxRounds < 1 then 1 else maxRounds, 0, false, false)];
      if handler.Some? {
        handlers := handlers[code := handler.value];
      } else {
        handlers := handlers - {code};
      }
    }

    /** `unregister_lobby`: forgets the lobby's state and hooks; unknown codes are ignored. */
    method UnregisterLobby(code: string)
      requires Valid()
      modifies this
      ensures Valid()
      ensures state == old(state) - {code} && handlers == old(handlers) - {code}
      ensures code !in old(state) ==> state == old(state) && handlers == old(handlers)
    {
      state := state - {code};
      handlers := handlers - {code};
    }

    /** `set_handler`: replaces the hooks of a registered lobby. */
    method SetHandler(code: string, handler: H) returns (r: Result<()>)
      requires Valid()
      modifies this
      ensures Valid()
      ensures state == old(state)
      ensures code !in old(state) ==> r == NotRegistered && handlers == old(handlers)
      ensures code in old(state) ==> r == Ok(()) && handlers == old(handlers)[code := handler]
    {
      if code !in state {
        return NotRegistered;
      }
      handlers := handlers[code := handler];
      return Ok(());
    }

    /** `start_game`: opens round 1 and returns 1. */
    method StartGame(code: string) returns (r: Result<int>)
      requires Valid()
      modifies this
      ensures Valid()
      ensures handlers == old(handlers)
      ensures code !in old(state) ==> r == NotRegistered && state == old(state)
      ensures code in old(state) ==> r == Ok(1) && state == old(state)[code := GameStarted(old(state)[code])]
    {
      if code !in state {
        return NotRegistered;
      }
      var s := state[code];
      s := s.(finished := false);
      s := s.(currentRound := 1);
      s := s.(roundActive := true);
      state := state[code := s];
      return Ok(s.currentRound);
    }

    /** `start_round`: `None` for a finished game, otherwise the round now running. */
    method StartRound(code: string) returns (r: Result<Option<int>>)
      requires Valid()
      modifies this
      ensures Valid()
      ensures handlers == old(handlers)
      ensures code !in old(state) ==> r == NotRegistered && state == old(state)
      ensures code in old(state) ==>
        && r == Ok(RoundStarted(old(state)[code]).0)
        && state == old(state)[code := RoundStarted(old(state)[code]).1]
    {
      if code !in state {
        return NotRegistered;
      }
      var s := state[code];
      if s.finished {
        return Ok(None);
      }
      if s.currentRound == 0 {
        s := s.(currentRound := 1);
      }
      s := s.(roundActive := true);
      state := state[code := s];
      return Ok(Some(s.currentRound));
    }

    /** `end_round`: closes an active round and reports game over or the next round. */
    method EndRound(code: string) returns (r: Result<EndReport>)
      requires Valid()
      modifies this
      ensures Valid()
      ensures handlers == old(handlers)
      ensures code !in old(state) ==> r == NotRegistered && state == old(state)
      ensures code in old(state) ==>
        && r == Ok(RoundEnded(old(state)[code]).0)
        && state == old(state)[code := RoundEnded(old(state)[code]).1]
    {
      if code !in state {
        return NotRegistered;
      }
      var s := state[code];
      if !s.roundActive {
        return Ok(EndReport(s.finished, s.currentRound, None));
      }
      var current := s.currentRound;
      s := s.(roundActive := false);
      if current >= s.maxRounds {
        s := s.(finished := true);
        state := state[code := s];
        return Ok(EndReport(true, current, None));
      }
      s := s.(currentRound := current + 1);
      state := state[code := s];
      return Ok(EndReport(false, current, Some(s.currentRound)));
    }

    /** `is_round_active`: false for an unknown lobby. */
    method IsRoundActive(code: string) returns (b: bool)
      ensures b <==> code in state && state[code].roundActive
    {
      b := code in state && state[code].roundActive;
    }

    /** `is_finished`: false for an unknown lobby. */
    method IsFinished(code: string) returns (b: bool)
      ensures b <==> code in state && state[code].finished
    {
      b := code in state && state[code].finished;
    }
  }
}
