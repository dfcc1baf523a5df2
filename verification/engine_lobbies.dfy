/**
 * The older lobby handlers of engine.py.
 *
 * Same `lobbies` dictionary as conundrum/socket.py but with different rules:
 * the username is taken as given (it may be missing), the capacity is not
 * clamped, a non-integer capacity aborts the handler, a member who joins
 * again is refused, and there are no sessions and no disconnect handling.
 */
module EngineLobbies {
  import opened Common

  /** A username as the handler reads it: `data.get("username")` may be `None`. */
  type Name = Option<string>

  /** An entry of `lobbies`. */
  datatype EngineLobby = EngineLobby(host: Name, players: seq<Name>, gameMode: Option<string>, maxPlayers: int)

  /** The `maxPlayers` field: missing (then 4), an integer, or something
      `int()` rejects. */
  datatype MaxField = Absent | Given(n: int) | Unparsable

  /** The `lobbyCode` field of a join: missing (then ""), present but `None`,
      or a string. */
  datatype CodeField = NoCode | NullCode | CodeText(text: string)

  datatype CreateOutcome = Created(code: string) | InvalidMaxPlayers | NoFreeCode
  /** `Aborted`: the handler raised before any check (`None.upper()`). */
  datatype JoinOutcome = Aborted | NotFound | AlreadyInLobby | Full | Joined(code: string)
  datatype StartOutcome = Ignored | GameStarted(code: string, mode: Option<string>)
  datatype Relay = Dropped | Relayed(code: string, username: Name, message: Option<string>)

  const DefaultMaxPlayers: int := 4

  predicate IsCode(s: string)
  {
    |s| == 4 && forall k :: 0 <= k < |s| ==> 'A' <= s[k] <= 'Z'
  }

  predicate Distinct(s: seq<Name>)
  {
    forall i, j :: 0 <= i < j < |s| ==> s[i] != s[j]
  }

  /** The capacity bound the handlers keep: the creator is always listed,
      even when the requested capacity is below one. */
  function Bound(maxPlayers: int): (b: int)
    ensures b >= 1 && b >= maxPlayers
    ensures maxPlayers >= 1 ==> b == maxPlayers
  {
    if maxPlayers < 1 then 1 else maxPlayers
  }

  /** What every engine lobby keeps true: distinct players, the host among
      them, and no more players than the larger of the capacity and one. */
  ghost predicate EngineLobbyOk(l: EngineLobby)
  {
    && |l.players| >= 1
    && Distinct(l.players)
    && l.host in l.players
    && |l.players| <= Bound(l.maxPlayers)
  }

  /** The lobby `on_create_lobby` stores: the creator as host and only player,
      capacity exactly as requested. */
  function NewEngineLobby(username: Name, gameMode: Option<string>, maxPlayers: int): (l: EngineLobby)
    ensures EngineLobbyOk(l)
    ensures l.host == username && l.players == [username] && l.maxPlayers == maxPlayers
  {
    EngineLobby(username, [username], gameMode, maxPlayers)
  }

  /** The outcome and the lobby after `on_join_lobby` for an existing lobby. */
  function JoinEngineLobby(l: EngineLobby, username: Name): (r: (bool, EngineLobby))
  {
    if username in l.players || |l.players| >= l.maxPlayers then (false, l)
    else (true, l.(players := l.players + [username]))
  }

  /** A join appends exactly one new player or changes nothing, and keeps the
      lobby well formed: players stay distinct and within capacity. */
  lemma JoinEngineKeepsOk(l: EngineLobby, username: Name)
    requires EngineLobbyOk(l)
    ensures EngineLobbyOk(JoinEngineLobby(l, username).1)
    ensures JoinEngineLobby(l, username).0 <==> username !in l.players && |l.players| < l.maxPlayers
    ensures JoinEngineLobby(l, username).0 ==>
      && JoinEngineLobby(l, username).1.players == l.players + [username]
      && |JoinEngineLobby(l, username).1.players| <= l.maxPlayers
  {
  }

  /** A lobby created with a capacity below two never admits anybody else:
      its creator already fills it. */
  lemma SmallLobbyIsClosed(username: Name, gameMode: Option<string>, maxPlayers: int, other: Name)
    requires maxPlayers <= 1
    ensures !JoinEngineLobby(NewEngineLobby(username, gameMode, maxPlayers), other).0
  {
  }

  class Engine {
    var lobbies: map<string, EngineLobby>

    ghost predicate Valid()
      reads this
    {
      forall c :: c in lobbies ==> EngineLobbyOk(lobbies[c])
    }

    constructor ()
      ensures Valid() && lobbies == map[]
    {
      lobbies := map[];
    }

    /** `on_create_lobby`: a non-integer capacity aborts with no change;
        otherwise codes are drawn until one is free and the lobby is stored
        with the creator as host and only player, the capacity unclamped and
        the game mode defaulting to "reverse_guessing" when the field is
        missing. */
    method CreateLobby(username: Name, maxPlayers: MaxField, gameMode: Option<string>, draws: seq<string>)
      returns (outcome: CreateOutcome)
      requires Valid()
      requires forall k :: 0 <= k < |draws| ==> IsCode(draws[k])
      modifies this
      ensures Valid()
      ensures maxPlayers.Unparsable? <==> outcome == InvalidMaxPlayers
      ensures outcome.Created? ==>
        && IsCode(outcome.code) && outcome.code !in old(lobbies)
        && (exists k :: 0 <= k < |draws| && draws[k] == outcome.code &&
                        forall j :: 0 <= j < k ==> draws[j] in old(lobbies))
        && lobbies == old(lobbies)[outcome.code := NewEngineLobby(username,
             if gameMode.Some? then gameMode else Some("reverse_guessing"),
             if maxPlayers.Given? then maxPlayers.n else DefaultMaxPlayers)]
      ensures outcome.NoFreeCode? ==> forall k :: 0 <= k < |draws| ==> draws[k] in old(lobbies)
      ensures !outcome.Created? ==> lobbies == old(lobbies)
    {
      if maxPlayers.Unparsable? {
        return InvalidMaxPlayers;
      }
      var capacity := if maxPlayers.Given? then maxPlayers.n else DefaultMaxPlayers;
      var mode := if gameMode.Some? then gameMode else Some("reverse_guessing");
      if |draws| == 0 {
        return NoFreeCode;
      }
      var i := 0;
      var code := draws[0];
      while code in lobbies
        invariant 0 <= i < |draws| && code == draws[i]
        invariant forall j :: 0 <= j < i ==> draws[j] in lobbies
        decreases |draws| - i
      {
        if i + 1 == |draws| {
          return NoFreeCode;
        }
        i := i + 1;
        code := draws[i];
      }
      lobbies := lobbies[code := NewEngineLobby(username, mode, capacity)];
      return Created(code);
    }

    /** `on_join_lobby`: the code is upper-cased (a missing one is "", a
        `None` one aborts the handler with no change); an unknown code, a
        current member and a full lobby are refused with no change; anyone
        else is appended. */
    method JoinLobby(username: Name, lobbyCode: CodeField) returns (outcome: JoinOutcome)
      requires Valid()
      modifies this
      ensures Valid()
      ensures outcome == Aborted <==> lobbyCode.NullCode?
      ensures !lobbyCode.NullCode? ==>
        var code := Upper(if lobbyCode.CodeText? then lobbyCode.text else "");
        && (code !in old(lobbies) <==> outcome == NotFound)
        && (code in old(lobbies) ==>
              && (outcome == AlreadyInLobby <==> username in old(lobbies)[code].players)
              && (outcome.Joined? <==> JoinEngineLobby(old(lobbies)[code], username).0)
              && lobbies == old(lobbies)[code := JoinEngineLobby(old(lobbies)[code], username).1])
        && (outcome.Joined? ==> outcome.code == code)
      ensures !outcome.Joined? ==> lobbies == old(lobbies)
    {
      if lobbyCode.NullCode? {
        return Aborted;
      }
      var code := Upper(if lobbyCode.CodeText? then lobbyCode.text else "");
      if code !in lobbies {
        return NotFound;
      }
      var lobby := lobbies[code];
      JoinEngineKeepsOk(lobby, username);
      if username in lobby.players {
        return AlreadyInLobby;
      }
      if |lobby.players| >= lobby.maxPlayers {
        return Full;
      }
      lobbies := lobbies[code := lobby.(players := lobby.players + [username])];
      return Joined(code);
    }

    /** `on_send_message`: relays the message as given exactly when the code
        names an existing lobby. */
    method SendMessage(lobbyCode: Option<string>, username: Name, message: Option<string>) returns (r: Relay)
      ensures r.Relayed? <==> lobbyCode.Some? && lobbyCode.value in lobbies
      ensures r.Relayed? ==> r == Relayed(lobbyCode.value, username, message)
    {
      if lobbyCode.Some? && lobbyCode.value in lobbies {
        return Relayed(lobbyCode.value, username, message);
      }
      return Dropped;
    }

    /** `on_start_game`: announces the requested mode exactly when the code
        (taken as given) names an existing lobby whose host is the requester. */
    method StartGame(lobbyCode: Option<string>, username: Name, mode: Option<string>) returns (r: StartOutcome)
      ensures r.GameStarted? <==> lobbyCode.Some? && lobbyCode.value in lobbies && lobbies[lobbyCode.value].host == username
      ensures r.GameStarted? ==> r == GameStarted(lobbyCode.value, mode)
    {
      if lobbyCode.Some? && lobbyCode.value in lobbies && lobbies[lobbyCode.value].host == username {
        return GameStarted(lobbyCode.value, mode);
      }
      return Ignored;
    }
  }
}
