/**
 * The lobby registry kept by the Socket.IO handlers of conundrum/socket.py.
 *
 * Two global dictionaries are updated in place: `lobbies` (code -> host,
 * player list, game mode, capacity) and `user_sessions` (socket id ->
 * username and lobby code). The handlers' emits and room joins are left out;
 * what each handler would emit is returned as an outcome value instead.
 * Randomness in `generate_code` is a parameter: the sequence of candidate
 * codes the random source would draw.
 */
module LobbyRegistry {
  import opened Common

  /** An entry of `lobbies`. */
  datatype Lobby = Lobby(host: Option<Player>, players: seq<Player>, gameMode: string, maxPlayers: int)

  /** An entry of `user_sessions`. */
  datatype Session = Session(username: Player, lobby: string)

  /** Socket ids are opaque strings handed out by the transport. */
  type Sid = string

  /** What `create_lobby` ends with. `NoFreeCode` stands for the random draws
      running out while every drawn code is taken (the source keeps drawing). */
  datatype CreateOutcome = Created(code: string) | UsernameRequired | NoFreeCode

  /** What `join_lobby` ends with. */
  datatype JoinOutcome = CodeRequired | NotFound | Rejoined(code: string) | Full | Joined(code: string)

  /** What `start_game` ends with. */
  datatype StartOutcome = LobbyNotFound | NotHost | GameStarted(code: string, mode: string)

  /** What the chat filter does with a message: raise, block it, or allow it
      (optionally replaced by a censored text). */
  datatype FilterResult = Raised | Blocked | Allowed(message: Option<string>)

  /** What `send_message` ends with. */
  datatype SendOutcome = NotInLobby | EmptyMessage | FilterError | BlockedNotice
                       | Broadcast(code: string, username: Player, message: string)

  const CodeLength: nat := 4
  const MinPlayers: int := 2
  const MaxPlayersCap: int := 10
  const DefaultMaxPlayers: int := 4

  /** A lobby code as `generate_code` makes them: four ASCII capitals. */
  predicate IsCode(s: string)
  {
    |s| == CodeLength && forall k :: 0 <= k < |s| ==> 'A' <= s[k] <= 'Z'
  }

  predicate NoDup(s: seq<Player>)
  {
    forall i, j :: 0 <= i < j < |s| ==> s[i] != s[j]
  }

  /** What every lobby keeps true: a non-empty list of distinct players that
      includes the host and fits the capacity, which lies in [2, 10]. */
  ghost predicate LobbyOk(l: Lobby)
  {
    && |l.players| > 0
    && NoDup(l.players)
    && l.host.Some? && l.host.value in l.players
    && MinPlayers <= l.maxPlayers <= MaxPlayersCap
    && |l.players| <= l.maxPlayers
  }

  /** Python's `x or default` for an optional string: `None` and "" are falsy. */
  function OrElse(x: Option<string>, default: string): (r: string)
    ensures x.Some? && x.value != "" ==> r == x.value
    ensures (x.None? || x.value == "") ==> r == default
  {
    if x.Some? && x.value != "" then x.value else default
  }

  /** `max(2, min(10, n))`. */
  function ClampPlayers(n: int): (m: int)
    ensures MinPlayers <= m <= MaxPlayersCap
    ensures MinPlayers <= n <= MaxPlayersCap ==> m == n
    ensures n < MinPlayers ==> m == MinPlayers
    ensures n > MaxPlayersCap ==> m == MaxPlayersCap
  {
    if n > MaxPlayersCap then MaxPlayersCap else if n < MinPlayers then MinPlayers else n
  }

  // ---------------------------------------------------------------------------
  // list.remove
  // ---------------------------------------------------------------------------

  /** `players.remove(x)`: drops the first occurrence (callers check membership). */
  function RemoveFirst(s: seq<Player>, x: Player): (r: seq<Player>)
    ensures x in s ==> |r| == |s| - 1
    ensures x !in s ==> r == s
    ensures multiset(r) == multiset(s) - multiset{x}
  {
    if s == [] then []
    else if s[0] == x then
      assert s == [s[0]] + s[1..];
      s[1..]
    else
      assert s == [s[0]] + s[1..];
      [s[0]] + RemoveFirst(s[1..], x)
  }

  /** Removing the first occurrence at index `i` splices the list around it. */
  lemma {:induction false} RemoveFirstAt(s: seq<Player>, x: Player, i: nat)
    requires i < |s| && s[i] == x && x !in s[..i]
    ensures RemoveFirst(s, x) == s[..i] + s[i + 1..]
    decreases i
  {
    if i > 0 {
      var t, front := s[1..], s[1..i];
      assert s[..i] == [s[0]] + front;
      assert s[0] != x && x !in front;
      assert t[..i - 1] == front;
      RemoveFirstAt(t, x, i - 1);
      assert t[i..] == s[i + 1..];
      assert RemoveFirst(s, x) == [s[0]] + RemoveFirst(t, x);
      assert [s[0]] + (front + s[i + 1..]) == s[..i] + s[i + 1..];
    }
  }

  /** Cutting one element out of a list without duplicates leaves a list
      without duplicates holding exactly the other elements. */
  lemma SpliceNoDup(s: seq<Player>, i: nat)
    requires NoDup(s) && i < |s|
    ensures NoDup(s[..i] + s[i + 1..])
    ensures forall y :: y in s[..i] + s[i + 1..] <==> y in s && y != s[i]
  {
    var r := s[..i] + s[i + 1..];
    assert forall k :: 0 <= k < i ==> r[k] == s[k];
    assert forall k :: i <= k < |r| ==> r[k] == s[k + 1];
    forall y | y in s && y != s[i] ensures y in r {
      var k :| 0 <= k < |s| && s[k] == y;
      if k < i {
        assert r[k] == y;
      } else {
        assert r[k - 1] == y;
      }
    }
  }

  /** From a list without duplicates, `remove` takes out exactly `x` and keeps
      the others without duplicates. */
  lemma RemoveFirstNoDup(s: seq<Player>, x: Player)
    requires NoDup(s)
    ensures NoDup(RemoveFirst(s, x))
    ensures forall y :: y in RemoveFirst(s, x) <==> y in s && y != x
  {
    if x in s {
      var i :| 0 <= i < |s| && s[i] == x;
      RemoveFirstAt(s, x, i);
      SpliceNoDup(s, i);
    }
  }

  // ---------------------------------------------------------------------------
  // Lobby transitions
  // ---------------------------------------------------------------------------

  /** The lobby `create_lobby` stores: the creator as host and only player. */
  function NewLobby(username: Player, gameMode: string, requested: int): (l: Lobby)
    ensures LobbyOk(l)
    ensures l.host == Some(username) && l.players == [username]
    ensures l.maxPlayers == ClampPlayers(requested)
  {
    Lobby(Some(username), [username], gameMode, ClampPlayers(requested))
  }

  /** A join by a newcomer to a lobby with room appends exactly them at the
      end, keeping the players distinct and within capacity. */
  lemma JoinKeepsLobbyOk(l: Lobby, username: Player)
    requires LobbyOk(l) && username !in l.players && |l.players| < l.maxPlayers
    ensures LobbyOk(l.(players := l.players + [username]))
    ensures |l.players + [username]| == |l.players| + 1
  {
  }

  /** The lobby after `username` disconnects from it: they leave the list, a
      departing host is replaced by the first remaining player, and `None`
      means the emptied lobby is deleted. */
  function AfterLeave(l: Lobby, username: Player): (r: Option<Lobby>)
  {
    var players := if username in l.players then RemoveFirst(l.players, username) else l.players;
    var host := if l.host == Some(username) then (if players != [] then Some(players[0]) else None) else l.host;
    if players == [] then None else Some(l.(players := players, host := host))
  }

  /** The in-place steps of `disconnect` on the lobby: remove the user if
      listed, hand a departing host's role to the first remaining player (or
      to nobody), and report an emptied lobby as `None`. */
  method LeaveStep(l: Lobby, username: Player) returns (r: Option<Lobby>)
    ensures r == AfterLeave(l, username)
  {
    var lobby := l;
    if username in lobby.players {
      lobby := lobby.(players := RemoveFirst(lobby.players, username));
    }
    if lobby.host == Some(username) {
      lobby := lobby.(host := if lobby.players != [] then Some(lobby.players[0]) else None);
    }
    if lobby.players == [] {
      return None;
    }
    return Some(lobby);
  }

  lemma LeaveOk(l: Lobby, username: Player)
    requires LobbyOk(l) && AfterLeave(l, username).Some?
    ensures LobbyOk(AfterLeave(l, username).value)
  {
    LeaveKeepsLobbyOk(l, username);
  }

  /** Leaving keeps a lobby well formed: the user is gone, everybody else
      stays, the host hands over to the first remaining player only when the
      host leaves, and the lobby disappears exactly when it empties. */
  lemma LeaveKeepsLobbyOk(l: Lobby, username: Player)
    requires LobbyOk(l)
    ensures AfterLeave(l, username).None? <==> l.players == [username]
    ensures AfterLeave(l, username).Some? ==>
      var r := AfterLeave(l, username).value;
      && LobbyOk(r)
      && (forall y :: y in r.players <==> y in l.players && y != username)
      && (l.host == Some(username) ==> r.host == Some(r.players[0]))
      && (l.host != Some(username) ==> r.host == l.host)
  {
    RemoveFirstNoDup(l.players, username);
    var players := if username in l.players then RemoveFirst(l.players, username) else l.players;
    if players == [] {
      assert username in l.players;
      assert |l.players| == 1;
      assert l.players == [l.players[0]];
    }
  }

  /** The lobbies after a socket whose session names `username` in lobby
      `code` disconnects: unchanged unless that lobby exists. */
  function AfterDisconnect(lobbies: map<string, Lobby>, code: string, username: Player): (r: map<string, Lobby>)
    ensures code == "" || code !in lobbies ==> r == lobbies
    ensures forall c :: c != code ==> (c in r <==> c in lobbies) && (c in r ==> r[c] == lobbies[c])
  {
    if code == "" || code !in lobbies then lobbies
    else match AfterLeave(lobbies[code], username)
      case None => lobbies - {code}
      case Some(l) => lobbies[code := l]
  }

  // ---------------------------------------------------------------------------
  // The registry
  // ---------------------------------------------------------------------------

  /** Every lobby is keyed by a code of four capitals and is well formed. */
  ghost predicate RegistryOk(lobbies: map<string, Lobby>)
  {
    forall c :: c in lobbies ==> IsCode(c) && LobbyOk(lobbies[c])
  }

  lemma RegistryUpdate(lobbies: map<string, Lobby>, code: string, l: Lobby)
    requires RegistryOk(lobbies) && IsCode(code) && LobbyOk(l)
    ensures RegistryOk(lobbies[code := l])
  {
  }

  lemma RegistryRemove(lobbies: map<string, Lobby>, code: string)
    requires RegistryOk(lobbies)
    ensures RegistryOk(lobbies - {code})
  {
  }

  class Registry {
    var lobbies: map<string, Lobby>
    var sessions: map<Sid, Session>

    ghost predicate Valid()
      reads this
    {
      RegistryOk(lobbies)
    }

    constructor ()
      ensures Valid() && lobbies == map[] && sessions == map[]
    {
      lobbies := map[];
      sessions := map[];
    }

    /** `generate_code`: the first drawn code that is not a lobby yet, or
        `None` when every draw is taken. */
    method GenerateCode(draws: seq<string>) returns (code: Option<string>)
      requires forall k :: 0 <= k < |draws| ==> IsCode(draws[k])
      ensures code.Some? ==> IsCode(code.value) && code.value !in lobbies
      ensures code.Some? ==> exists k :: 0 <= k < |draws| && draws[k] == code.value &&
                                  forall j :: 0 <= j < k ==> draws[j] in lobbies
      ensures code.None? ==> forall k :: 0 <= k < |draws| ==> draws[k] in lobbies
    {
      var i := 0;
      while i < |draws|
        invariant 0 <= i <= |draws|
        invariant forall j :: 0 <= j < i ==> draws[j] in lobbies
      {
        if draws[i] !in lobbies {
          return Some(draws[i]);
        }
        i := i + 1;
      }
      return None;
    }

    /** `get_players_in_lobby`: a copy of the lobby's player list, empty for
        an unknown code. */
    method PlayersInLobby(code: string) returns (players: seq<Player>)
      requires Valid()
      ensures code !in lobbies ==> players == []
      ensures code in lobbies ==> players == lobbies[code].players && NoDup(players)
    {
      if code !in lobbies {
        return [];
      }
      return lobbies[code].players;
    }

    /** `create_lobby`: a missing or empty username becomes "Anonymous" and is
        stripped; a blank result is refused. Otherwise a fresh code gets a
        lobby with the creator as host and only player, capacity clamped to
        [2, 10] (4 when the field is missing or not an integer, given here as
        `None`), game mode defaulting to "reverse_guessing", and the socket's
        session points at it. */
    method CreateLobby(sid: Sid, username: Option<string>, maxPlayers: Option<int>, gameMode: Option<string>,
                       draws: seq<string>) returns (outcome: CreateOutcome)
      requires Valid()
      requires forall k :: 0 <= k < |draws| ==> IsCode(draws[k])
      modifies this
      ensures Valid()
      ensures var name := Strip(OrElse(username, "Anonymous"));
        && (name == "" ==> outcome == UsernameRequired)
        && (outcome.Created? ==>
              && name != ""
              && outcome.code !in old(lobbies) && IsCode(outcome.code)
              && lobbies == old(lobbies)[outcome.code := NewLobby(name, OrElse(gameMode, "reverse_guessing"),
                                                                  if maxPlayers.Some? then maxPlayers.value else DefaultMaxPlayers)]
              && sessions == old(sessions)[sid := Session(name, outcome.code)])
        && (!outcome.Created? ==> lobbies == old(lobbies) && sessions == old(sessions))
      ensures outcome.NoFreeCode? ==> forall k :: 0 <= k < |draws| ==> draws[k] in old(lobbies)
    {
      var name := Strip(OrElse(username, "Anonymous"));
      var requested := if maxPlayers.Some? then maxPlayers.value else DefaultMaxPlayers;
      var mode := OrElse(gameMode, "reverse_guessing");
      if name == "" {
        return UsernameRequired;
      }
      var code := GenerateCode(draws);
      if code.None? {
        return NoFreeCode;
      }
      RegistryUpdate(lobbies, code.value, NewLobby(name, mode, requested));
      lobbies := lobbies[code.value := NewLobby(name, mode, requested)];
      sessions := sessions[sid := Session(name, code.value)];
      return Created(code.value);
    }

    /** `join_lobby`: the username defaults as in `create_lobby` (a blank one
        is not refused here) and the code is upper-cased then stripped. An
        empty or unknown code is refused; a current member rejoins without
        being listed twice; a full lobby is refused; anyone else is appended.
        Rejoining and joining both point the socket's session at the lobby. */
    method JoinLobby(sid: Sid, username: Option<string>, lobbyCode: Option<string>) returns (outcome: JoinOutcome)
      requires Valid()
      modifies this
      ensures Valid()
      ensures var name := Strip(OrElse(username, "Anonymous"));
        var code := Strip(Upper(OrElse(lobbyCode, "")));
        && (code == "" <==> outcome == CodeRequired)
        && (code != "" && code !in old(lobbies) <==> outcome == NotFound)
        && (outcome.Rejoined? <==> code in old(lobbies) && name in old(lobbies)[code].players)
        && (outcome.Full? <==> code in old(lobbies) && name !in old(lobbies)[code].players
                                && |old(lobbies)[code].players| >= old(lobbies)[code].maxPlayers)
        && (outcome.Rejoined? ==> lobbies == old(lobbies) && outcome.code == code)
        && (outcome.Joined? ==>
              && outcome.code == code
              && lobbies == old(lobbies)[code := old(lobbies)[code].(players := old(lobbies)[code].players + [name])])
        && (outcome.Rejoined? || outcome.Joined? ==> sessions == old(sessions)[sid := Session(name, code)])
        && (!(outcome.Rejoined? || outcome.Joined?) ==> lobbies == old(lobbies) && sessions == old(sessions))
    {
      var name := Strip(OrElse(username, "Anonymous"));
      var code := Strip(Upper(OrElse(lobbyCode, "")));
      if code == "" {
        return CodeRequired;
      }
      if code !in lobbies {
        return NotFound;
      }
      var lobby := lobbies[code];
      if name in lobby.players {
        sessions := sessions[sid := Session(name, code)];
        return Rejoined(code);
      }
      if |lobby.players| >= lobby.maxPlayers {
        return Full;
      }
      JoinKeepsLobbyOk(lobby, name);
      RegistryUpdate(lobbies, code, lobby.(players := lobby.players + [name]));
      lobbies := lobbies[code := lobby.(players := lobby.players + [name])];
      sessions := sessions[sid := Session(name, code)];
      return Joined(code);
    }

    /** `disconnect`: drops the socket's session; when it names a lobby that
        still exists, the user leaves it as `AfterLeave` says, and an emptied
        lobby is deleted. An unknown socket changes nothing. */
    method Disconnect(sid: Sid)
      requires Valid()
      modifies this
      ensures Valid()
      ensures sid !in old(sessions) ==> lobbies == old(lobbies) && sessions == old(sessions)
      ensures sid in old(sessions) ==>
        var s := old(sessions)[sid];
        && sessions == old(sessions) - {sid}
        && lobbies == AfterDisconnect(old(lobbies), s.lobby, s.username)
    {
      if sid !in sessions {
        return;
      }
      var info := sessions[sid];
      sessions := sessions - {sid};
      var username := info.username;
      var code := info.lobby;
      if code != "" && code in lobbies {
        var lobby := lobbies[code];
        var after := LeaveStep(lobby, username);
        if after.None? {
          assert AfterDisconnect(lobbies, code, username) == lobbies - {code};
          RegistryRemove(lobbies, code);
          lobbies := lobbies - {code};
        } else {
          assert AfterDisconnect(lobbies, code, username) == lobbies[code := after.value];
          LeaveOk(lobby, username);
          RegistryUpdate(lobbies, code, after.value);
          lobbies := lobbies[code := after.value];
        }
      }
    }

    /** `start_game`: the code is upper-cased but not stripped; only the host
        of an existing lobby may start it, and the announced mode is the
        requested one or else the lobby's. Nothing changes. */
    method StartGame(lobbyCode: Option<string>, username: Option<string>, mode: Option<string>)
      returns (outcome: StartOutcome)
      requires Valid()
      ensures var code := Upper(OrElse(lobbyCode, ""));
        && (code !in lobbies <==> outcome == LobbyNotFound)
        && (code in lobbies && lobbies[code].host != username <==> outcome == NotHost)
        && (outcome.GameStarted? ==>
              && outcome.code == code && code in lobbies && lobbies[code].host == username
              && outcome.mode == (if mode.Some? then mode.value else lobbies[code].gameMode))
    {
      var code := Upper(OrElse(lobbyCode, ""));
      if code == "" || code !in lobbies {
        return LobbyNotFound;
      }
      var lobby := lobbies[code];
      if lobby.host != username {
        return NotHost;
      }
      return GameStarted(code, if mode.Some? then mode.value else lobby.gameMode);
    }

    /** `send_message`: the socket's session supplies the username and lobby
        (the message's own fields are the fallback); the text is stripped.
        Without a lobby the sender is told so; empty text is ignored; a
        raising or blocking filter stops the message; otherwise the filter's
        text (or the stripped text) is broadcast to the lobby. Nothing
        changes. */
    method SendMessage(sid: Sid, username: Option<string>, lobbyCode: Option<string>, message: Option<string>,
                       filter: string -> FilterResult) returns (outcome: SendOutcome)
      requires Valid()
      ensures var sess := if sid in sessions then Some(sessions[sid]) else None;
        var code := if sess.Some? && sess.value.lobby != "" then sess.value.lobby else OrElse(lobbyCode, "");
        var text := Strip(OrElse(message, ""));
        && (code == "" <==> outcome == NotInLobby)
        && (code != "" && text == "" <==> outcome == EmptyMessage)
        && (outcome == FilterError <==> code != "" && text != "" && filter(text) == Raised)
        && (outcome == BlockedNotice <==> code != "" && text != "" && filter(text) == Blocked)
        && (outcome.Broadcast? ==>
              && code != "" && text != "" && filter(text).Allowed?
              && outcome.code == code
              && outcome.message == (if filter(text).message.Some? then filter(text).message.value else text)
              && outcome.username == (if sess.Some? && sess.value.username != "" then sess.value.username
                                      else OrElse(username, "Anonymous")))
    {
      var sessName := if sid in sessions then sessions[sid].username else "";
      var sessLobby := if sid in sessions then sessions[sid].lobby else "";
      var name := if sessName != "" then sessName else OrElse(username, "Anonymous");
      var code := if sessLobby != "" then sessLobby else OrElse(lobbyCode, "");
      var text := Strip(OrElse(message, ""));
      if code == "" {
        return NotInLobby;
      }
      if text == "" {
        return EmptyMessage;
      }
      var result := filter(text);
      if result == Raised {
        return FilterError;
      }
      if result == Blocked {
        return BlockedNotice;
      }
      var clean := if result.message.Some? then result.message.value else text;
      return Broadcast(code, name, clean);
    }
  }

  /** A start request whose code carries surrounding spaces never finds its
      lobby, since `start_game` does not strip and lobby codes are four
      capitals; `join_lobby` would strip the same code and find it. */
  lemma StartGameDoesNotStrip(lobbies: map<string, Lobby>, code: string)
    requires RegistryOk(lobbies)
    requires IsCode(code) && code in lobbies
    ensures Upper(" " + code) !in lobbies
    ensures Strip(Upper(" " + code)) == code
  {
    assert Upper(" " + code)[0] == ' ';
    var s := Upper(" " + code);
    assert s[1..] == code;
    assert LeadingSpace(s) == 1 by {
      assert IsSpace(s[0]);
      assert !IsSpace(s[1]);
    }
    assert TrailingStart(s[1..]) == |code| by {
      assert !IsSpace(code[|code| - 1]);
    }
  }
}
