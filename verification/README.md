# Six Letters co-operative game server — a Dafny model

This project models the core of a small websocket server for a co-operative
word game, "Six Letters":

- A host opens a round with a list of words.
- The round is registered in a hub under a short generated code.
- Other players join the round by name and guess words.
- When every connected player has given up, the round reveals the words
  nobody solved.

The model has five modules:

- `Wire` (wire.dfy) covers the text formats:
  - the host's word list and the word map built from it (`makeWordsMap`);
  - the name pattern and the dispatch of a joined player's messages;
  - the control lines the round sends (`:join`, `:quit`, `:attempt`,
    `:giveup`, `:ungiveup`, `:allgiveup`), with a reader that reads them back.
- `CoopRound` (coop_round.dfy) is the round as a value: the roster, the word
  map and what each player's connection has been sent. Each step of the
  round's command loop is a function of the round before it: join with its
  catch-up, quit, attempt, give-up, and the all-give-up check with its reveal.
- `CoopGame` (coop_game.dfy) is the round as the server keeps it: a class
  whose methods update the roster, the word map and the per-player outboxes
  in place. Every method is proved to reach the state the `CoopRound`
  function for that step describes. The loops of `announceMsg`,
  `attemptJoinM`, `checkGiveupM` and `gameSendState` are kept as loops.
- `GameHub` (hub.dfy) is the registry:
  - code generation from five draws in [0, 36);
  - registration with regeneration on collision;
  - lookup, leave, removal and phase-out;
  - the invariant tying each entry's expiry timer to its connection count.
- `Routing` (routing.dfy) is the parsing of the websocket path, with its
  inverse.

A player's connection (its "sink") is modelled as that player's slot in an
outbox: a list of the lines sent to it.

- Sending a line appends it to the slot.
- A quit marks the slot disconnected.
- A rejoin under the same name reattaches the slot with a fresh, empty outbox,
  because the rejoining player has a new connection.

Go's map iteration order is unspecified. Each walk over the word map
therefore picks its next key by a choice, and the method returns the order
it used as a ghost result. Every property of a walk is proved for every
order.

Strings are sequences of characters, and the source's byte-level regular
expressions are modelled on characters. Every class these expressions
accept is ASCII, so the two agree on what they accept.

Three behaviours of the code worth knowing; the model follows the code:

- **Word-list pattern.** The pattern `[[:lower:]]{3,6}_?` (client_coop.go:12)
  reads as "three to six lowercase letters, optionally followed by `_`", but
  it is not anchored, so it accepts any token containing three lowercase
  letters in a row. `Wire.WordPatternLooserThanShape` shows two tokens far
  from that shape that it accepts.
- **Duplicate words.** Duplicate keys are not refused: `makeWordsMap` stores
  the tokens one after another, so the last token for a key wins
  (`Wire.WordsMapLastWins`).
- **Reply to a name.** `wsJoinCoop` sends `:ok` (client_coop.go:71) before it
  reads any name. A refused name gets `:taken` or `:badname`; a name that
  joins gets no reply of its own, and the catch-up follows directly
  (`CoopGame.Game.ReadName`).

## Model

| member | source | states |
|---|---|---|
| Wire.Split | client_coop.go:27 | splitting at single spaces gives one more part than there are spaces, every part is space-free, and joining the parts with spaces gives the string back |
| Wire.SplitJoinSpace | client_coop.go:143 | a line built by joining space-free parts with spaces splits back into exactly those parts |
| Wire.MatchesWordPattern | client_coop.go:33-37 | the scan for the word pattern accepts only tokens of at least three characters, so taking the last character of an accepted token is safe |
| Wire.WordPatternFindsRun | client_coop.go:12 | the unanchored word pattern matches a token exactly when the token has three lowercase letters in a row |
| Wire.WordPatternLooserThanShape | client_coop.go:33 | every token of the shape the pattern spells out (3-6 lowercase letters, optional `_`) passes the pattern, but so do "Xabcdefgh!" and "abc_abc_" |
| Wire.WordsMapGuessers | client_coop.go:31-42 | storing tokens in order gives a map in which every word is unsolved ("") or solved by the host |
| Wire.WordsMapKeysSpaceFree | client_coop.go:37-41 | storing space-free tokens, with or without a trailing `_` cut off, gives a map whose words hold no space |
| Wire.ParseWords | client_coop.go:26-44 | an accepted list has at most 80 tokens and gives a non-empty map whose words hold no space and in which every word is unsolved or solved by the host; ParseWordsOutcome gives the exact refusal cases |
| Wire.MakeWordsMap | client_coop.go:26-44 | the loop returns None for more than 80 tokens or at the first token the pattern rejects, and otherwise the map of storing every token in order |
| Wire.WordsMapKeys | client_coop.go:37-41 | the map's keys are exactly the tokens with one trailing `_` removed |
| Wire.WordsMapLastWins | client_coop.go:32-42 | a key holds the guesser of the last token stored under it: the host for a token ending in `_`, otherwise "" |
| Wire.ParseWordsOutcome | client_coop.go:27-35 | the list is refused iff it has more than 80 tokens or some token (an empty one included) fails the pattern; an accepted list gives a non-empty map |
| Wire.WordsMapOfEncoded | client_coop.go:32-42 | storing the tokens written for a host-writable map, in a given key order, gives that map restricted to those keys |
| Wire.ParseEncodedWords | client_coop.go:26-44 | writing a host-writable map (keys of 3-6 lowercase letters, guesser "" or the host) as 1 to 80 tokens in any order that lists its keys, and parsing the line, gives the map back |
| Wire.ValidName | client_coop.go:13 | a name matching `^[a-zA-Z0-9]{1,10}$` holds no space, so it is one field of a line, and does not end in `_`, so it is never read as a disconnected roster entry or as the reveal marker |
| Wire.LowerPrefixLen | client_coop.go:14 | the result is the length of the longest run of lowercase letters at the start of the string |
| Wire.Classify | client_coop.go:106-114 | a guess is 3 to 6 lowercase letters that the message carries right after ":attempt " |
| Wire.ClassifyGuessExactly | client_coop.go:14 | a message is read as a guess of w iff it starts with ":attempt " then w, w is 3-6 lowercase letters, and a w shorter than 6 is not followed by another lowercase letter |
| Wire.ClassifyClientGuess | client_coop.go:106-109 | ":attempt w" is read as a guess of w for every 3-6 letter lowercase w, and no message is ever a guess of a key of any other shape |
| Wire.ClassifyToggleExactly | client_coop.go:110-114 | a message toggles the give-up flag on iff it is exactly ":giveup" and off iff it is exactly ":ungiveup"; anything that is neither a guess nor one of these is ignored |
| Wire.EventLine | client_coop.go:171-196 | each control line (also those at client_coop.go:130, 157 and 164) starts with `:`, and a line about a name or word has a space after its command |
| Wire.EventLineRoundTrip | client_coop.go:171-196 | every control line the round sends about space-free names and words reads back as the event it announces, so distinct events give distinct lines |
| CoopRound.IndexOf | coop.go:96-97 | the result is the first slot holding the name, or -1 when no slot does |
| CoopRound.Broadcast | coop.go:84-90 | a broadcast keeps one outbox per slot, loses nothing already sent, and adds at most one line to any slot |
| CoopRound.BroadcastDelivers | coop.go:84-90 | a broadcast adds the line once to every connected slot other than the excluded one, and nothing to any other slot; exclude -1 reaches every connected slot |
| CoopRound.Reveal | coop.go:132-136 | the reveal keeps every key and leaves no word unsolved |
| CoopRound.RevealFillsUnsolved | coop.go:130-137 | the reveal keeps the key set and every guesser already set, writes `_` into every unsolved word, and leaves no word unsolved |
| CoopRound.RevealMarkerIsNoName | coop.go:134 | no player of a well-formed round is named `_`, because every name passed the name pattern, so a revealed word is never credited to a player |
| CoopRound.AfterGiveupCheck | coop.go:117-138 | the check keeps the roster and one outbox per slot, and never clears or changes a guesser once set |
| CoopRound.GiveupCheckFiresExactly | coop.go:117-138 | when some slot is connected and every connected slot has given up, the check reveals the words and keeps the roster; otherwise, and always when nobody is connected, it leaves the round unchanged; when it fires, each connected slot's outbox gains `:allgiveup` and every other outbox is unchanged |
| CoopRound.RosterLineReadsBack | client_coop.go:134-143 | the roster line lists every slot in index order, and reading each entry back gives its name and whether it is connected |
| CoopRound.ReplayAttemptsLines | client_coop.go:155-160 | the replay sends, for each solved word in walk order, one `:attempt` line with that word's guesser |
| CoopRound.ReplayCoversSolvedWords | client_coop.go:155-160 | for any walk over all keys, the replay has exactly one `:attempt` line per solved word and none for an unsolved word |
| CoopRound.ReplayGiveupsExactly | client_coop.go:162-167 | a `:giveup n` line is replayed iff some slot named n has given up |
| CoopRound.WordLineListsKeysOnce | client_coop.go:146-152 | the word line splits back into the walk order, which lists every key exactly once |
| CoopRound.ParsedWordLineListsKeysOnce | client_coop.go:146-152 | for a map the host's list was accepted into, the word line splits back into the walk order, which lists every word exactly once |
| CoopRound.AfterJoinAttempt | coop.go:95-110 | the join attempt keeps names distinct and valid and the words unchanged; it refuses (-1) exactly when a connected slot holds the name, and otherwise returns a connected slot holding the name with an empty outbox |
| CoopRound.AfterSendState | client_coop.go:127-168 | sending the state keeps roster and words, and the joiner's outbox gains exactly the catch-up (its own `:join` is not sent to it) |
| CoopRound.AfterJoin | coop.go:53-58 | the join step keeps the round well formed and the words unchanged, and a non-negative index is a slot holding the joining name |
| CoopRound.JoinOutcome | coop.go:95-110 | a name held by a connected slot is refused and nothing changes; a disconnected holder gets its own slot (its index) back with names and give-up flags unchanged; an unseen name gets one new connected slot at the end, whose index is the old roster size; names stay unique; the joiner receives exactly the catch-up |
| CoopRound.JoinNotifiesOthers | client_coop.go:129-131 | after a successful join every other connected slot's outbox gains `:join <name>` and every other disconnected slot's outbox is unchanged |
| CoopRound.AfterQuit | coop.go:60-64 | the quit step keeps the round well formed and the roster's size, leaves the slot disconnected, and never clears or changes a guesser once set |
| CoopRound.QuitOnlyDisconnects | coop.go:60-64 | a quit disconnects only that slot and removes nobody; the words change only by the reveal; every other connected slot hears `:quit <name>`, then, if the check fires, every connected slot hears `:allgiveup`, and no outbox gains anything else |
| CoopRound.AfterGiveup | coop.go:75-79 | the give-up step keeps the round well formed and the roster's size, sets the slot's flag as asked, and never clears or changes a guesser once set |
| CoopRound.GiveupOnlyToggles | coop.go:75-79 | a give-up toggle changes only that slot's flag; the words change only by the reveal; every other connected slot hears the `:giveup`/`:ungiveup` notice with the player's name, then, if the check fires, every connected slot hears `:allgiveup`, and no outbox gains anything else |
| CoopRound.AfterAttempt | coop.go:66-73 | the attempt step keeps the round well formed and the roster unchanged, and never clears or changes a guesser once set |
| CoopRound.AttemptSolvesOnce | coop.go:66-73 | an attempt gives an unsolved word the player's name and changes nothing else; a solved or unknown word is a no-op, so a second attempt on the same word changes nothing; a solving attempt sends `:attempt <word> <name>` to every other connected slot and nothing to the solver or to disconnected slots |
| CoopRound.NoAttemptAfterReveal | coop.go:66-73 | after the reveal no attempt changes the round |
| CoopRound.StepsKeepGuessers | coop.go:53-79 | no join, quit, attempt or give-up step clears or changes a guesser once set, or adds or drops a key |
| CoopGame.Game.constructor | coop.go:5-23 | a new round, for a host whose name passed the name pattern, has the host as its only slot, connected and not given up, and the host's word map |
| CoopGame.Game.Announce | coop.go:84-90 | the outboxes become the broadcast of the line, excluding the given slot; roster and words are unchanged |
| CoopGame.Game.AttemptJoin | coop.go:95-110 | the new roster, outboxes and returned index are those of the join attempt described by JoinOutcome |
| CoopGame.Game.RosterLineOf | client_coop.go:134-143 | the line built slot by slot is the roster line |
| CoopGame.Game.ListKeys | client_coop.go:146-152 | the walk lists every key of the word map exactly once |
| CoopGame.Game.SolvedLines | client_coop.go:155-160 | the walk visits every key exactly once, and its lines are the replay of the solved words in that order |
| CoopGame.Game.GiveupLines | client_coop.go:162-167 | the lines are the replay of the given-up slots, in index order |
| CoopGame.Game.SendState | client_coop.go:127-168 | every other connected slot gets `:join`, and the joiner gets the roster line, the word line, the solved words and the give-ups, with both walks listing every key once |
| CoopGame.Game.Join | coop.go:53-58 | the state and index are those of the join step; the catch-up is sent only when the join succeeds |
| CoopGame.Game.CheckGiveup | coop.go:117-138 | the check fires iff some slot is connected and all connected slots have given up; the new state is the check's |
| CoopGame.Game.Quit | coop.go:60-64 | the new state is that of the quit step |
| CoopGame.Game.Attempt | coop.go:66-73 | the new state is that of the attempt step |
| CoopGame.Game.Giveup | coop.go:75-79 | the new state is that of the give-up step |
| CoopGame.Game.ReadName | client_coop.go:77-86 | a name that is not 1-10 letters and digits gets `:badname` and changes nothing; otherwise the join step runs, and a refused join gets `:taken` |
| CoopGame.Game.Dispatch | client_coop.go:106-114 | a guess runs the attempt step, `:giveup`/`:ungiveup` run the give-up step, and anything else changes nothing |
| GameHub.CodeChar | hub.go:62-67 | the character for a draw is a digit or lowercase letter from which the draw reads back |
| GameHub.CodeCharBijective | hub.go:62-67 | the 36 draws map one to one onto the digits and lowercase letters |
| GameHub.Code | hub.go:59-70 | a code is five characters, each a digit or lowercase letter |
| GameHub.CodeDeterminesDraws | hub.go:59-70 | a code is five code characters that read back as the draws used, so different draws give different codes |
| GameHub.GenerateGamename | hub.go:59-70 | the buffer filled one draw at a time holds the code of the first five draws |
| GameHub.FirstFresh | hub.go:76-82 | the result is the first candidate, from the k-th on, whose name is not taken, and every candidate before it is taken; with no result, every candidate is taken |
| GameHub.AfterRegister | hub.go:75-92 | the registered name starts with the prefix and was not taken, the key set gains exactly that name, and its entry holds the round with one connection and a stopped timer |
| GameHub.RegisterOutcome | hub.go:75-92 | the new name is the prefix plus five code characters and was not taken; the new entry has one connection and a stopped timer; no other entry changes; draws are consumed |
| GameHub.AfterGet | hub.go:94-102 | a lookup keeps the key set, finds a round exactly when the name is registered, and then returns that entry's round and stops its timer |
| GameHub.GetOutcome | hub.go:94-102 | an absent name finds nothing and changes nothing; a present one returns the stored round, adds one connection and stops the timer, leaving other entries alone |
| GameHub.AfterLeave | hub.go:104-109 | a leave keeps the key set and the entry's round and takes one connection off its count |
| GameHub.LeaveOutcome | hub.go:104-109 | leaving removes one connection and arms the timer exactly when the count reaches zero, an armed timer staying armed; other entries are unchanged |
| GameHub.StepsKeepTimersAgree | hub.go:75-130 | register, lookup, remove and phase-out keep every timer armed exactly when its count is zero (counts non-negative); leave does too when the round was held |
| GameHub.LeaveAtZeroBreaksAgreement | hub.go:104-109 | a leave on a round nobody holds drives the count negative and breaks that agreement |
| GameHub.StepsKeepArmedOnlyWhenIdle | hub.go:75-130 | under any sequence of calls, a timer is armed only on an entry with no connections |
| GameHub.AfterRemove | hub.go:111-115 | a remove takes exactly the named key out, and exits only when the registry is left empty |
| GameHub.AfterPhaseOut | hub.go:126-130 | phase-out sets the flag, keeps the registry, and exits only when the registry is empty |
| GameHub.ExitOnlyWhenEmpty | hub.go:111-130 | remove deletes exactly the named entry, keeping every other entry, the phase-out flag and the draws, and exits iff the registry becomes empty; phase-out sets the flag and exits iff the registry is empty |
| GameHub.Hub.constructor | hub.go:13-28 | a new hub has an empty registry, the given prefix, and is neither phased out nor exited; a timer is armed only on an entry nobody holds |
| GameHub.Hub.Register | hub.go:75-92 | the loop over candidates reaches the registration step's name and state, and a timer stays armed only on an entry nobody holds |
| GameHub.Hub.Get | hub.go:94-102 | the result and new state are those of the lookup step, and a timer stays armed only on an entry nobody holds |
| GameHub.Hub.Leave | hub.go:104-109 | the new state is that of the leave step, and a timer stays armed only on an entry nobody holds |
| GameHub.Hub.Remove | hub.go:111-115 | the new state is that of the remove step, and a timer stays armed only on an entry nobody holds |
| GameHub.Hub.PhaseOut | hub.go:126-130 | the new state is that of the phase-out step, and a timer stays armed only on an entry nobody holds |
| Routing.ParseUrl | main.go:23-38 | a failure returns (true, false, false, ""); otherwise the path is under /sixletters/ws/, a host name is 1-10 letters and digits, and a join code is 5-8 |
| Routing.ParseUrlOf | main.go:14 | every well-shaped route is parsed from its own path |
| Routing.UrlOfParse | main.go:14 | every accepted path is exactly the path of the route parsed from it, so the accepted paths are exactly the paths of well-shaped routes |
| Routing.ParseUrlRejects | main.go:24-27 | a path outside /sixletters/ws/, an action with nothing after it, and a host name over 10 characters all fail |

## Left out

- Websocket I/O is not modelled: reading messages, the message-type check,
  `sendText`, the `:ok` greeting and the sending of the game code. A send is
  an append to the player's outbox; a failing send is not modelled.
- CoopGame.Game.ReadName handles one name message. The repetition of
  `wsJoinCoop` until a name is accepted, and its exit on a read error, are
  left to the caller.
- The recover and panic in `wsCoopLoop` (client_coop.go:95-98, 116) only
  guarantee that a quit follows the player's last message. Quit is a method
  any caller may run.
- Goroutines and channels are not modelled: the channel wrappers
  (coop.go:25-48, hub.go:30-56) and the `select` loops. Each arm of a
  command loop is one atomic method call.
- CoopGame.Game.SendState gathers the catch-up lines and appends them to the
  joiner's outbox in one step. The source sends them one at a time, but
  nothing else is sent to that outbox in between, so the resulting outbox is
  the same.
- `time.AfterFunc`, `Stop` and `Reset` (hub.go:83-86, 101, 108) become the
  flag `armed`. The 24-hour delay is not modelled. A timer that fires
  triggers `Remove`, which any caller may run. The race in which a fired
  timer's removal is already queued when a lookup arrives is outside a
  sequential model.
- `math/rand` is not modelled; the draws are an input stream. GameHub.Hub.Register
  requires that the stream hold a candidate that is not taken, because the
  source retries without bound.
- `os.Exit` becomes the flag `terminated`. Every hub method requires that the
  flag is unset, because nothing runs after the process exits.
- GameHub.Hub.Leave requires that the name is registered, because the source
  dereferences a missing entry and panics. A leave on a round with no
  connections is allowed, as in the source. GameHub.LeaveAtZeroBreaksAgreement
  shows that it breaks the timer invariant.
- CoopGame.Game.constructor, CoopGame.Game.AttemptJoin and CoopGame.Game.Join
  require a name that matches the name pattern. `newCoopGame` and
  `attemptJoinM` do not check it themselves; their only callers pass names
  that already matched (main.go:14, client_coop.go:77). This is what lets the
  round keep "every name is valid" as an invariant.
- Snapshots (hub.go:117-124) are not modelled: `getSnapshot` and
  `CGameSnapshot` are not part of this model. That loop also never advances
  its index.
- admin_tcp.go (the administrative interface) is not part of this model.
- haproxy_tcp.go (the health check that reads the phase-out flag) is not
  part of this model.
- `newHub` is modelled only as an empty registry. The channels and the random
  generator it creates are not modelled.
- `main` and the HTTP handler that acts on the parsed route are not
  modelled.
- The final `return true, false, false, ""` of `parse_url` (main.go:37)
  cannot be reached, because the pattern admits only `c` or `m` after
  `join/`. Routing.ParseUrl has no such branch.
