# Conundrum Corner: a verified model of the game server core

Conundrum Corner is a party-game server. Players gather in lobbies named by a
four-letter code, chat through a profanity filter, and play rounds of several
text games in which everyone submits an answer and then votes on the pooled
answers. This project models the server's game logic in Dafny and proves what
each part keeps true.

- `common.dfy` (`Common`): the Python behaviour the games lean on.
  - Whitespace `strip` and ASCII `upper`/`lower`.
  - `sorted` on strings, as the unique sorted permutation.
  - The "has this player voted" scan.
  - The values of a dictionary, as a multiset.
- `round_phases.dfy` (`RoundPhases`): the round phase state machine of
  `conundrum/utils/round_manager.py`.
  - States: registered, started, round active, finished.
  - Proves that a game registered for `m` rounds runs exactly `max(1, m)`
    rounds, and that a finished game stays finished.
- `round_counter.dfy` (`RoundCounter`): the older counter of
  `conundrum/utils/rounds.py`. It has no active-round guard, so a duplicated
  end signal skips a round.
- `scored_round.dfy` (`ScoredRound`): the round of the three scored voting
  games. The code in `emoji_translation.py`, `reverse_guessing.py` and
  `bad_advice_hotline.py` is the same apart from the points and whether a
  host's reference text joins the pool. The shared parts:
  - submissions, one per player;
  - the vote pool and its authors;
  - the vote checks, in their order;
  - scoring and resets.
- `emoji_translation.dfy`, `reverse_guessing.dfy`, `bad_advice_hotline.dfy`:
  the three game classes. Each one stores one `ScoredRound.Round` per lobby
  code, under its own point rules.
- `obviously_lies.dfy` (`ObviouslyLies`): the lies game. It has no scores and
  no author rule. The correct answer becomes a vote option only when the pool
  is listed.
- `lobby_registry.dfy` (`LobbyRegistry`): the lobby and session dictionaries
  of `conundrum/socket.py`, with create, join, disconnect, chat relay and
  start.
  - The username defaults to "Anonymous" and is stripped.
  - The capacity is clamped to 2..10.
  - A disconnect hands the host role to the next player and deletes an
    empty lobby.
- `engine_lobbies.dfy` (`EngineLobbies`): the older lobby handlers of
  `engine.py`. Capacity is not clamped and a repeat join is refused.
- `profanity.dfy` (`Profanity`): `ProfanityFilter` of
  `conundrum/utils/profanity_filter.py`.
  - Wildcard patterns are translated to regular expressions. `*` matches
    anything and `|` separates alternatives.
  - Rules are whole-word unless marked partial, and each rule may have
    exceptions.
  - `check` lists the violations.
  - `censor` sorts and merges the matched spans and masks them.

Inputs the server takes from outside become parameters of the model:
- random lobby codes are a finite list of draws;
- the chat filter's verdict is a function from message to result;
- the regular-expression engine is a function that returns the match spans of
  a pattern in a text (`Profanity.Finder`).

## Model

| member | source | states |
|---|---|---|
| Common.Strip | conundrum/socket.py:123 | `str.strip()`: the result is the slice between the leading and trailing whitespace; it is empty exactly when the text is all whitespace |
| Common.Upper | conundrum/socket.py:168 | `str.upper()` on ASCII: same length, each lower-case letter mapped to its capital, all else kept |
| Common.SortBySorted | conundrum/games/emoji_translation.py:53 | the sort used for `sorted` yields a sorted permutation of its input |
| Common.SortedUnique | conundrum/games/emoji_translation.py:53 | under a total order, two sorted permutations of the same multiset are equal, so `sorted` has one possible result |
| Common.TextOrder | conundrum/games/emoji_translation.py:53 | Python's string order is connected, transitive and antisymmetric |
| Common.SortTexts | conundrum/games/emoji_translation.py:53 | `sorted(texts)` is sorted in Python's string order and is a permutation of its input |
| Common.ScanVotes | conundrum/games/emoji_translation.py:94-101 | the scan over the voter sets finds the player exactly when they are among the voters of some option |
| Common.BagValues | conundrum/games/emoji_translation.py:51 | the multiset of a dictionary's values holds exactly its values |
| Common.CollectValues | conundrum/games/emoji_translation.py:51 | `list(d.values())` holds each value as often as the dictionary does |
| RoundPhases.Registered | conundrum/utils/round_manager.py:24-30 | a registered lobby has `max(1, max_rounds)` rounds, none played, none active, not finished |
| RoundPhases.StartGameOpensRoundOne | conundrum/utils/round_manager.py:49-65 | `start_game` opens round 1 and clears `finished` from any state, a finished game included |
| RoundPhases.StartRoundEffect | conundrum/utils/round_manager.py:67-84 | `start_round` returns `None` and changes nothing for a finished game; otherwise it marks the round active, and moves from round 0 to round 1 |
| RoundPhases.EndRoundGuard | conundrum/utils/round_manager.py:98-100 | ending an inactive round changes nothing and reports no next round |
| RoundPhases.EndRoundReportsOne | conundrum/utils/round_manager.py:102-128 | ending an active round closes it and reports either game over at the limit or exactly the next round |
| RoundPhases.EndRoundTwice | conundrum/utils/round_manager.py:86-128 | two `end_round` calls in a row advance the round at most once |
| RoundPhases.FinishedIsFinal | conundrum/utils/round_manager.py:67-128 | a finished game stays finished under `start_round` and `end_round`, and `end_round` keeps reporting game over |
| RoundPhases.PlayAdvances | conundrum/utils/round_manager.py:67-128 | each end-then-start boundary before the limit moves the round counter up by exactly one |
| RoundPhases.GameLastsMaxRounds | conundrum/utils/round_manager.py:24-128 | a game registered with `m` rounds and started announces rounds 2..max(1, m) in turn and then reports game over |
| RoundPhases.RoundManager.constructor | conundrum/utils/round_manager.py:6-19 | both dictionaries start empty |
| RoundPhases.RoundManager.RegisterLobby | conundrum/utils/round_manager.py:24-34 | stores a fresh record and the lobby's hooks, or drops old hooks when none are given |
| RoundPhases.RoundManager.UnregisterLobby | conundrum/utils/round_manager.py:36-38 | forgets the lobby's record and hooks; unknown codes are ignored |
| RoundPhases.RoundManager.SetHandler | conundrum/utils/round_manager.py:40-44 | replaces the hooks of a registered lobby; raises `KeyError` for an unknown one |
| RoundPhases.RoundManager.StartGame | conundrum/utils/round_manager.py:49-65 | raises for an unknown lobby, else returns 1 with the record of `GameStarted` |
| RoundPhases.RoundManager.StartRound | conundrum/utils/round_manager.py:67-84 | raises for an unknown lobby, else returns and stores what `RoundStarted` gives |
| RoundPhases.RoundManager.EndRound | conundrum/utils/round_manager.py:86-128 | raises for an unknown lobby, else returns and stores what `RoundEnded` gives |
| RoundPhases.RoundManager.IsRoundActive | conundrum/utils/round_manager.py:133-135 | true exactly when the lobby is known and its round is active |
| RoundPhases.RoundManager.IsFinished | conundrum/utils/round_manager.py:137-139 | true exactly when the lobby is known and its game is over |
| RoundCounter.EndRoundAdvances | conundrum/utils/rounds.py:25-41 | every `end_round` call moves the counter up by one and reports game over exactly when it passes the total |
| RoundCounter.EndedTimesAdvances | conundrum/utils/rounds.py:25-41 | `k` calls advance the counter by exactly `k`: nothing guards a repeated call |
| RoundCounter.SetupThenEnd | conundrum/utils/rounds.py:8-41 | after `setup_lobby(code, total)` the `k`-th `end_round` reports game over exactly when `k >= total`, and otherwise names round `k + 1` |
| RoundCounter.DuplicateEndSkipsRound | conundrum/utils/rounds.py:25-41 | two end signals from round `n` announce round `n + 2`: round `n + 1` is skipped |
| RoundCounter.RoundManager.constructor | conundrum/utils/rounds.py:4-6 | no lobby is tracked |
| RoundCounter.RoundManager.SetupLobby | conundrum/utils/rounds.py:8-13 | the lobby starts at round 1 of its total |
| RoundCounter.RoundManager.StartRound | conundrum/utils/rounds.py:15-23 | the current and total round of a known lobby, `None` for an unknown one, no change |
| RoundCounter.RoundManager.EndRound | conundrum/utils/rounds.py:25-41 | game over with no change for an unknown lobby; otherwise the counter advances as `Ended` says |
| RoundCounter.RoundManager.ResetLobby | conundrum/utils/rounds.py:43-46 | the lobby is no longer tracked |
| ScoredRound.Eligible | conundrum/games/emoji_translation.py:10 | the scored players are all players except a truthy host |
| ScoredRound.Start | conundrum/games/emoji_translation.py:8-21 | a fresh well-formed round: every eligible player at 0, nothing submitted, nobody voted, only the reference text in the pool |
| ScoredRound.Cast | conundrum/games/emoji_translation.py:61-92 | a rejected vote changes nothing; an accepted one records the voter and keeps the scored players |
| ScoredRound.CastStep | conundrum/games/emoji_translation.py:61-92 | the checks and dictionary updates of `cast_vote` compute exactly `Cast` |
| ScoredRound.Reset | conundrum/games/emoji_translation.py:126-136 | clears submissions and votes, keeps players, host and scores, and keeps the round well formed |
| ScoredRound.SubmitPreservesWf | conundrum/games/emoji_translation.py:23-35 | a submission keeps the round well formed: pool, authors and voters stay consistent |
| ScoredRound.SubmitOwners | conundrum/games/emoji_translation.py:23-35 | after a submission every recorded author is the player whose submission the text is |
| ScoredRound.SubmitEffect | conundrum/games/emoji_translation.py:23-35 | accepted exactly for a member who has not submitted; then the text joins the pool with its earlier voters and the submitter becomes its author |
| ScoredRound.SubmitOnce | conundrum/games/emoji_translation.py:27 | a second submission by the same player is rejected |
| ScoredRound.AllSubmittedIff | conundrum/games/emoji_translation.py:37-41 | `finished_submitting == players` holds exactly when every player has a submission |
| ScoredRound.PoolIsVoteOptions | conundrum/games/emoji_translation.py:43-53 | the listed pool holds exactly the vote options, so the fill-in loop adds nothing |
| ScoredRound.PoolDetermined | conundrum/games/emoji_translation.py:53 | the listed pool is determined by the round |
| ScoredRound.CastAccepted | conundrum/games/emoji_translation.py:65-80 | a vote is accepted exactly when the voter is a non-host member who has not voted, the text is an option and the voter is not its author |
| ScoredRound.CastPreservesWf | conundrum/games/emoji_translation.py:61-92 | a vote keeps the round well formed; in particular nobody holds two votes |
| ScoredRound.CastOneVote | conundrum/games/emoji_translation.py:61-92 | adding a voter who holds no vote to one option keeps every player in at most one voter set |
| ScoredRound.CastRecordsOneVote | conundrum/games/emoji_translation.py:82 | an accepted vote adds the voter to the chosen option only |
| ScoredRound.CastScores | conundrum/games/emoji_translation.py:86-90 | an accepted vote pays the voter for the reference text and a non-host author for their text, and changes no other score |
| ScoredRound.AuthorSubmittedText | conundrum/games/emoji_translation.py:28-33 | whoever is recorded as an option's author submitted that text |
| ScoredRound.SecondVoteRejected | conundrum/games/emoji_translation.py:71-73 | after an accepted vote, every further vote by the same player in the round is rejected |
| ScoredRound.SubmitKeepsVoters | conundrum/games/emoji_translation.py:30-31 | a submission casts no vote and removes none |
| ScoredRound.LastSubmitterOwns | conundrum/games/emoji_translation.py:33 | when two players submit the same text, the later one is its author and collects the points |
| ScoredRound.ResetReopens | conundrum/games/emoji_translation.py:126-136 | after a reset every player may submit again and the scores are untouched |
| EmojiTranslation.CorrectSentencePoints | conundrum/games/emoji_translation.py:89-90 | voting for the correct sentence pays the voter exactly one point |
| EmojiTranslation.GuessAuthorPoints | conundrum/games/emoji_translation.py:86-87 | voting for another's guess pays its non-host author exactly one point |
| EmojiTranslation.EmojiTranslationGame.StartRound | conundrum/games/emoji_translation.py:8-21 | replaces the lobby's round with `Start` and keeps every round well formed |
| EmojiTranslation.EmojiTranslationGame.SubmitSentence | conundrum/games/emoji_translation.py:23-35 | false for an unknown lobby, else the outcome and round of `Submit` |
| EmojiTranslation.EmojiTranslationGame.AllSentencesSubmitted | conundrum/games/emoji_translation.py:37-41 | true exactly when the lobby exists and every player has submitted |
| EmojiTranslation.EmojiTranslationGame.GetAllSentences | conundrum/games/emoji_translation.py:43-53 | the guesses plus the correct sentence, sorted, and exactly the vote options; empty for an unknown lobby |
| EmojiTranslation.EmojiTranslationGame.CastVote | conundrum/games/emoji_translation.py:61-92 | false for an unknown lobby, else the outcome and round of `Cast` with one point each way |
| EmojiTranslation.EmojiTranslationGame.HasPlayerVoted | conundrum/games/emoji_translation.py:94-101 | true exactly when the lobby exists and the player voted in it |
| EmojiTranslation.EmojiTranslationGame.EndRound | conundrum/games/emoji_translation.py:115-124 | the scores and votes of a known lobby, nothing for an unknown one |
| EmojiTranslation.EmojiTranslationGame.ResetRoundState | conundrum/games/emoji_translation.py:126-136 | the lobby's round becomes `Reset` of it; unknown lobbies are ignored |
| ReverseGuessing.SummaryAsWritten | conundrum/games/reverse_guessing.py:109-119 | the summary as coded: scores and votes, with the question and answer always `None` |
| ReverseGuessing.SummaryAsWrittenLosesAnswer | conundrum/games/reverse_guessing.py:116-117 | for a round with answer "42", the coded summary does not carry that answer |
| ReverseGuessing.SummaryAsWrittenDiffers | conundrum/games/reverse_guessing.py:116-117 | for every round the coded summary's answer is `None` while the round has an answer, so it never equals the intended summary |
| ReverseGuessing.RoundSummary | conundrum/games/reverse_guessing.py:109-119 | the corrected summary: scores, votes, the correct question and the host's answer |
| ReverseGuessing.CorrectQuestionPoints | conundrum/games/reverse_guessing.py:83-84 | voting for the correct question pays the voter exactly five points |
| ReverseGuessing.GuessAuthorPoints | conundrum/games/reverse_guessing.py:80-81 | voting for another's guess pays its non-host author exactly four points |
| ReverseGuessing.ClaimedQuestionPoints | conundrum/games/reverse_guessing.py:80-84 | voting for the correct question after a non-host player submitted that same text pays the voter five and that player four, and changes no other score |
| ReverseGuessing.CorrectQuestionClaimed | conundrum/games/reverse_guessing.py:23-86 | a player who submits the correct question word for word becomes its author: they may not vote for it, and another player's vote pays them four and the voter five |
| ReverseGuessing.ReverseGuessingGame.StartRound | conundrum/games/reverse_guessing.py:8-21 | replaces the lobby's round with `Start` |
| ReverseGuessing.ReverseGuessingGame.SubmitQuestion | conundrum/games/reverse_guessing.py:23-35 | false for an unknown lobby, else the outcome and round of `Submit` |
| ReverseGuessing.ReverseGuessingGame.AllQuestionsSubmitted | conundrum/games/reverse_guessing.py:37-41 | true exactly when the lobby exists and every player has submitted |
| ReverseGuessing.ReverseGuessingGame.GetAllQuestions | conundrum/games/reverse_guessing.py:43-52 | the guesses plus the correct question, sorted, and exactly the vote options |
| ReverseGuessing.ReverseGuessingGame.CastVote | conundrum/games/reverse_guessing.py:60-86 | false for an unknown lobby, else the outcome and round of `Cast` with four and five points |
| ReverseGuessing.ReverseGuessingGame.HasPlayerVoted | conundrum/games/reverse_guessing.py:88-95 | true exactly when the lobby exists and the player voted in it |
| ReverseGuessing.ReverseGuessingGame.EndRound | conundrum/games/reverse_guessing.py:109-119 | the corrected summary of a known lobby, whose question is a vote option; it equals the coded summary except for the question and answer |
| ReverseGuessing.ReverseGuessingGame.ResetRoundState | conundrum/games/reverse_guessing.py:121-130 | the lobby's round becomes `Reset` of it |
| BadAdviceHotline.AdvicePoints | conundrum/games/bad_advice_hotline.py:81-82 | every option has an author; a vote pays a non-host author five points and the voter nothing |
| BadAdviceHotline.BadAdviceHotlineGame.StartRound | conundrum/games/bad_advice_hotline.py:6-18 | replaces the lobby's round with `Start`, with no reference text |
| BadAdviceHotline.BadAdviceHotlineGame.SubmitBadAdvice | conundrum/games/bad_advice_hotline.py:20-32 | false for an unknown lobby, else the outcome and round of `Submit` |
| BadAdviceHotline.BadAdviceHotlineGame.AllBadAdviceSubmitted | conundrum/games/bad_advice_hotline.py:34-38 | true exactly when the lobby exists and every player has submitted |
| BadAdviceHotline.BadAdviceHotlineGame.GetAllBadAdviceAnswers | conundrum/games/bad_advice_hotline.py:40-48 | the submitted advice only, sorted, one entry per submission, and exactly the vote options |
| BadAdviceHotline.BadAdviceHotlineGame.CastVote | conundrum/games/bad_advice_hotline.py:56-84 | false for an unknown lobby, else the outcome and round of `Cast` with five author points |
| BadAdviceHotline.BadAdviceHotlineGame.HasPlayerVoted | conundrum/games/bad_advice_hotline.py:86-93 | true exactly when the lobby exists and the player voted in it |
| BadAdviceHotline.BadAdviceHotlineGame.EndRound | conundrum/games/bad_advice_hotline.py:107-116 | the scores, one per eligible player, and the votes of a known lobby |
| BadAdviceHotline.BadAdviceHotlineGame.ResetRoundState | conundrum/games/bad_advice_hotline.py:118-128 | the lobby's round becomes `Reset` of it |
| ObviouslyLies.StartLies | conundrum/games/obviously_lies.py:10-18 | a well-formed round with no lies and no vote options |
| ObviouslyLies.Reveal | conundrum/games/obviously_lies.py:45-47 | the correct answer becomes an option; every other option keeps its voters |
| ObviouslyLies.CastLie | conundrum/games/obviously_lies.py:60-76 | a rejected vote changes nothing; an accepted one records the voter |
| ObviouslyLies.SubmitLiePreservesWf | conundrum/games/obviously_lies.py:21-31 | a submission keeps the round well formed |
| ObviouslyLies.SubmitLieEffect | conundrum/games/obviously_lies.py:21-31 | accepted exactly for a member who has not submitted; the text's voter set becomes empty and the other options keep theirs |
| ObviouslyLies.SubmitErasesVotes | conundrum/games/obviously_lies.py:29 | repeating a voted-for text wipes its votes, so those voters may vote again |
| ObviouslyLies.CorrectHiddenUntilReveal | conundrum/games/obviously_lies.py:72-73 | until the pool is listed, votes for the correct answer are rejected |
| ObviouslyLies.RevealOpensCorrect | conundrum/games/obviously_lies.py:41-50 | listing keeps the round well formed, is idempotent and keeps who has voted |
| ObviouslyLies.LiarMayVoteOwnLie | conundrum/games/obviously_lies.py:60-76 | with no author rule, a liar who has not voted may vote for their own lie |
| ObviouslyLies.CastLieEffect | conundrum/games/obviously_lies.py:60-76 | accepted exactly for a member who has not voted and an existing option; adds the voter to that option only |
| ObviouslyLies.SecondLieVoteRejected | conundrum/games/obviously_lies.py:68-70 | a player's second vote in a round is rejected |
| ObviouslyLies.CastLieStep | conundrum/games/obviously_lies.py:60-76 | the checks and updates of `cast_vote` compute exactly `CastLie` |
| ObviouslyLies.ObviouslyLiesGame.StartRound | conundrum/games/obviously_lies.py:10-18 | replaces the lobby's round with `StartLies` |
| ObviouslyLies.ObviouslyLiesGame.SubmitFalseAnswer | conundrum/games/obviously_lies.py:21-31 | false for an unknown lobby, else the outcome and round of `SubmitLie` |
| ObviouslyLies.ObviouslyLiesGame.AllFalseSubmitted | conundrum/games/obviously_lies.py:34-38 | true exactly when the lobby exists and every player has submitted |
| ObviouslyLies.ObviouslyLiesGame.GetAllAnswers | conundrum/games/obviously_lies.py:41-50 | reveals the correct answer and returns lies plus correct answer, sorted: exactly the vote options |
| ObviouslyLies.ListAnswers | conundrum/games/obviously_lies.py:48-50 | on a revealed round, the listing is the lies plus the correct answer in sorted order, and holds exactly the vote options |
| ObviouslyLies.ObviouslyLiesGame.CastVote | conundrum/games/obviously_lies.py:60-76 | false for an unknown lobby, else the outcome and round of `CastLie` |
| ObviouslyLies.ObviouslyLiesGame.HasPlayerVoted | conundrum/games/obviously_lies.py:79-86 | true exactly when the lobby exists and the player voted in it |
| ObviouslyLies.ObviouslyLiesGame.EndRound | conundrum/games/obviously_lies.py:96-98 | forgets the lobby's round |
| LobbyRegistry.OrElse | conundrum/socket.py:123 | `x or default`: the value when it is a non-empty string, else the default |
| LobbyRegistry.ClampPlayers | conundrum/socket.py:139 | `max(2, min(10, n))` lies in 2..10 and keeps values already in range |
| LobbyRegistry.RemoveFirst | conundrum/socket.py:93 | `list.remove`: exactly one occurrence fewer when present, unchanged otherwise |
| LobbyRegistry.RemoveFirstNoDup | conundrum/socket.py:92-93 | from a list without duplicates, `remove` takes out exactly that player |
| LobbyRegistry.NewLobby | conundrum/socket.py:135-140 | the creator is host and only player, with the clamped capacity |
| LobbyRegistry.JoinKeepsLobbyOk | conundrum/socket.py:190-195 | a newcomer joining a lobby with room keeps players distinct and within capacity |
| LobbyRegistry.LeaveStep | conundrum/socket.py:90-101 | the in-place removal, host hand-over and deletion compute `AfterLeave` |
| LobbyRegistry.LeaveKeepsLobbyOk | conundrum/socket.py:90-101 | the lobby is deleted exactly when the user was its only player; otherwise the user is gone, the rest stay, and the host stays or passes to the first remaining player |
| LobbyRegistry.AfterDisconnect | conundrum/socket.py:90-101 | lobbies other than the session's are untouched; a missing or empty code changes nothing |
| LobbyRegistry.StartGameDoesNotStrip | conundrum/socket.py:248 | a start request whose code has a leading space never finds the lobby, though stripping would |
| LobbyRegistry.Registry.constructor | conundrum/socket.py:17-19 | no lobbies and no sessions |
| LobbyRegistry.Registry.GenerateCode | conundrum/socket.py:44-49 | the first drawn code that is not in use, or none when every draw is taken |
| LobbyRegistry.Registry.PlayersInLobby | conundrum/socket.py:52-57 | the lobby's player list, without duplicates, or empty for an unknown code |
| LobbyRegistry.Registry.CreateLobby | conundrum/socket.py:117-155 | a blank name is refused with no change; otherwise a fresh code holds `NewLobby` and the socket's session names it |
| LobbyRegistry.Registry.JoinLobby | conundrum/socket.py:158-202 | missing, unknown or full lobbies are refused with no change; a member rejoins without being duplicated; a newcomer is appended; the session is recorded on success |
| LobbyRegistry.Registry.Disconnect | conundrum/socket.py:78-114 | the socket's session is dropped and its lobby becomes `AfterDisconnect`; without a session nothing changes |
| LobbyRegistry.Registry.StartGame | conundrum/socket.py:242-261 | the upper-cased, unstripped code must name a lobby whose host is the requester; the requested mode defaults to the lobby's |
| LobbyRegistry.Registry.SendMessage | conundrum/socket.py:205-239 | session values take precedence; no lobby is an error; an empty message is dropped; a filter error or block is reported to the sender only; otherwise the filtered or original text is relayed |
| EngineLobbies.NewEngineLobby | engine.py:57-62 | the creator is host and only player, capacity exactly as requested |
| EngineLobbies.JoinEngineKeepsOk | engine.py:73-85 | a join is accepted exactly for a non-member when there is room; it appends that one player and keeps players distinct and within capacity |
| EngineLobbies.SmallLobbyIsClosed | engine.py:62-83 | a lobby created with capacity 1 or less never admits anyone else |
| EngineLobbies.Engine.constructor | engine.py:11-13 | no lobbies |
| EngineLobbies.Engine.CreateLobby | engine.py:45-65 | a non-integer capacity aborts with no change; otherwise the first free drawn code holds the new lobby, mode defaulting to "reverse_guessing" |
| EngineLobbies.Engine.JoinLobby | engine.py:68-91 | a code present as `None` aborts with no change; otherwise the upper-cased code (a missing one is ""); unknown, member and full are refused with no change; anyone else is appended |
| EngineLobbies.Engine.SendMessage | engine.py:94-101 | relays the message exactly when the code names a lobby |
| EngineLobbies.Engine.StartGame | engine.py:104-111 | announces the mode exactly when the lobby exists and the requester is its host |
| Profanity.Escape | conundrum/utils/profanity_filter.py:19 | `re.escape`: each special character gains a backslash, so the length at most doubles |
| Profanity.Replace | conundrum/utils/profanity_filter.py:20-21 | `str.replace`: left to right, non-overlapping |
| Profanity.EscapeUnpipe | conundrum/utils/profanity_filter.py:19-20 | escaping and then unescaping `|` is the character-wise translation with `*` still escaped |
| Profanity.UnpipeStar | conundrum/utils/profanity_filter.py:21 | turning escaped `*` into `.*` completes the character-wise translation |
| Profanity.EscapedReplace | conundrum/utils/profanity_filter.py:19-21 | replacing an escaped special character in escaped text turns exactly that character back and keeps every other escape |
| Profanity.WildcardTranslates | conundrum/utils/profanity_filter.py:14-22 | the empty pattern gives ""; any other gives its stripped text with `*` as `.*`, `|` as alternation and every other special character escaped |
| Profanity.WholeWordExactly | conundrum/utils/profanity_filter.py:48-49 | a rule is whole-word exactly when its "partial_match" reads "false" in any letter case |
| Profanity.PatternTranslates | conundrum/utils/profanity_filter.py:50-52 | the compiled pattern is the translated match text, wrapped in word boundaries for whole-word rules |
| Profanity.CompileStep | conundrum/utils/profanity_filter.py:47-65 | one rule's pattern and its exceptions' patterns, in order |
| Profanity.ViolationOf | conundrum/utils/profanity_filter.py:73-85 | at most one violation per rule, present exactly when the rule matches and no exception does |
| Profanity.Violations | conundrum/utils/profanity_filter.py:69-86 | no more violations than rules |
| Profanity.ViolationsAppend | conundrum/utils/profanity_filter.py:71-86 | violations come in rule order |
| Profanity.NoViolations | conundrum/utils/profanity_filter.py:69-86 | `check` finds nothing exactly when every rule misses or is vetoed by an exception |
| Profanity.Hits | conundrum/utils/profanity_filter.py:93-98 | every collected span lies within the text |
| Profanity.HitsCover | conundrum/utils/profanity_filter.py:93-98 | a position is hit exactly when some rule without a matching exception matches over it |
| Profanity.SpanOrder | conundrum/utils/profanity_filter.py:101 | tuple order on spans is total |
| Profanity.MergedSpans | conundrum/utils/profanity_filter.py:101-110 | merging sorted hits gives separated spans within the text that cover exactly the hit positions |
| Profanity.MergeSorted | conundrum/utils/profanity_filter.py:102-110 | the merging loop computes `Merge` |
| Profanity.MaskPointwise | conundrum/utils/profanity_filter.py:111-117 | with a one-character mask, masking keeps the length and replaces exactly the covered positions |
| Profanity.MaskSpans | conundrum/utils/profanity_filter.py:111-117 | the backwards masking loop computes `Masked` |
| Profanity.Censored | conundrum/utils/profanity_filter.py:88-117 | an empty text, or one with no hits, comes back unchanged |
| Profanity.CensorMasksHits | conundrum/utils/profanity_filter.py:88-117 | with a one-character mask, `censor` keeps the length, masks exactly the positions some non-excepted rule matches and keeps every other character |
| Profanity.ProfanityFilter.constructor | conundrum/utils/profanity_filter.py:27-29 | the given rules, or the default rules, each compiled |
| Profanity.ProfanityFilter.Compile | conundrum/utils/profanity_filter.py:45-67 | one compiled entry per rule, in rule order |
| Profanity.ProfanityFilter.Check | conundrum/utils/profanity_filter.py:69-86 | the violations of the compiled rules |
| Profanity.ProfanityFilter.Censor | conundrum/utils/profanity_filter.py:88-117 | the collection, sorting, merging and masking loops compute `Censored` |
| Profanity.ProfanityFilter.Clean | conundrum/utils/profanity_filter.py:119-121 | the censored text and the violations of the same text |

## Left out

- The Flask application, its HTTP routes and templates (`conundrum/__init__.py`, `conundrum/routes.py`, `conundrum/games/routes.py`, `run.py`): they are wiring and rendering, not game logic.
- Socket.IO transport: `emit`, `join_room`, `leave_room` and `safe_emit_to_sid` are left out. The model records what each handler stores and what outcome it reaches, not the messages it sends.
- Lobby codes: `generate_code` in both socket.py and engine.py draws random codes forever. The model takes a finite list of draws and reports `NoFreeCode` when every draw is taken.
- The handler hooks of `conundrum/utils/round_manager.py` are opaque values of a type parameter. What calling them does is not modelled.
- Read-only getters with no logic of their own: `get_state`, `get_votes_for_*`, `get_submitted_*`, `get_scores`.
- `conundrum/utils/chat_handler.py` is not part of this model. The socket handler's use of it is a filter function parameter that may raise, block or allow.
- The regular-expression engine and `re.IGNORECASE` are not modelled: `find` is a parameter that returns the match spans. Whether a search hits is taken to be whether `finditer` returns any span.
- `ProfanityFilter.from_json` reads a file, so it is left out. The constructor takes the rules directly.
- The `re.error` fallback in `_compile` is left out. Translated patterns contain only escaped characters, `|` and `.*`, so they never fail to compile.
- Profanity.ProfanityFilter.Check: `None` text and rule fields that are not strings are not modelled. Texts are strings and a missing "match" reads as "".
- Profanity.CensorMasksHits: the pointwise statement holds for a one-character mask only. For longer masks `Censored` still gives the exact result, but no positionwise lemma is stated.
- Fields that are present but `None` are folded into absent fields in these places:
  - the engine's `gameMode`;
  - the "message" key of the filter result;
  - the `mode` of `start_game`.
- LobbyRegistry.Registry.CreateLobby: a `maxPlayers` that `int()` rejects and a missing one are both given as `None` (both mean 4). Values that `int()` would convert from a string are taken as integers already.
- Common.Upper and Common.Lower map ASCII letters only. Python's full Unicode case mapping is not modelled.
- End-of-round summaries hold each option's voters as a set, where Python keeps a list. The game code never duplicates a voter, so no information is lost.
- ReverseGuessing.ReverseGuessingGame.EndRound: returns the corrected `RoundSummary`, not the summary reverse_guessing.py:116-117 builds, whose question and answer are always `None`. The coded summary is `SummaryAsWritten`, and the method's contract states that the two differ only in those fields (see "## Findings").
- Concurrency between socket events is not modelled. Each handler runs to completion on the shared dictionaries.

## Findings

| source | as written | input that shows it | evidently intended | confidence | as-written member | corrected member |
|---|---|---|---|---|---|---|
| conundrum/games/reverse_guessing.py:116-117 | `"question": game.get("question") if hasattr(game, "question") else None`, and the same for `"answer"`: `hasattr` is asked of a dictionary, which has no attributes named after its keys, so the summary's question and answer are always `None` (the round has no "question" key either, only "correct_question") | a round started with answer "42", correct question "What is six times seven?" and players ann and bob; `end_round` reports answer `None` | the summary reports the round's answer and its question; the corrected member takes the question from the round's "correct_question" entry | high, not executed | ReverseGuessing.SummaryAsWrittenLosesAnswer | ReverseGuessing.RoundSummary |
