/** One round of the co-operative game as a value, and what each step of the
    round's command loop does to it, as a function of the round before the
    step.  The class in CoopGame carries out these steps in place. */
module CoopRound {
  import opened Wire

  /** A roster slot.  `connected` is whether the slot has a sink to send to;
      a slot is never removed, so a player's index is permanent. */
  datatype Player = Player(name: string, gaveup: bool, connected: bool)

  /** The players in join order, the word map (word to guesser, "" while
      unsolved) and, per slot, the lines sent to that slot's current sink. */
  datatype Round = Round(players: seq<Player>, words: map<string, string>, outbox: seq<seq<string>>)

  /** The guesser the reveal writes into every unsolved word. */
  const REVEAL_MARKER := "_"

  function NewPlayer(name: string): Player
  {
    Player(name, false, true)
  }

  predicate NamesUnique(ps: seq<Player>)
  {
    forall i, j :: 0 <= i < j < |ps| ==> ps[i].name != ps[j].name
  }

  /** Every slot's name passed the name pattern before it joined. */
  predicate NamesValid(ps: seq<Player>)
  {
    forall i :: 0 <= i < |ps| ==> ValidName(ps[i].name)
  }

  /** One outbox per slot, and the slots' names are distinct and valid. */
  predicate WellFormed(r: Round)
  {
    |r.outbox| == |r.players| && NamesUnique(r.players) && NamesValid(r.players)
  }

  /** The first slot holding `name`, or -1. */
  function IndexOf(ps: seq<Player>, name: string): (i: int)
    ensures -1 <= i < |ps|
    ensures 0 <= i ==> ps[i].name == name && forall j :: 0 <= j < i ==> ps[j].name != name
    ensures i == -1 ==> forall j :: 0 <= j < |ps| ==> ps[j].name != name
  {
    if ps == [] then -1
    else if ps[0].name == name then 0
    else
      var k := IndexOf(ps[1..], name);
      if k == -1 then -1 else k + 1
  }

  // ---------------------------------------------------------------------
  // Broadcast and the all-give-up check
  // ---------------------------------------------------------------------

  /** `line` sent to every connected slot other than `exclude`.  Nothing
      already sent is lost, and no slot gets more than one line. */
  function Broadcast(outbox: seq<seq<string>>, ps: seq<Player>, line: string, exclude: int): (sent: seq<seq<string>>)
    requires |outbox| == |ps|
    ensures |sent| == |outbox|
    ensures forall n :: 0 <= n < |sent| ==> outbox[n] <= sent[n] && |sent[n]| <= |outbox[n]| + 1
  {
    seq(|outbox|, n requires 0 <= n < |outbox| =>
      if n != exclude && ps[n].connected then outbox[n] + [line] else outbox[n])
  }

  /** A broadcast adds exactly one line, `line`, to each connected slot other
      than `exclude` (all connected slots when `exclude` is -1), and nothing
      to any other slot. */
  lemma BroadcastDelivers(outbox: seq<seq<string>>, ps: seq<Player>, line: string, exclude: int, n: int)
    requires |outbox| == |ps| && 0 <= n < |ps|
    ensures |Broadcast(outbox, ps, line, exclude)| == |ps|
    ensures n != exclude && ps[n].connected ==> Broadcast(outbox, ps, line, exclude)[n] == outbox[n] + [line]
    ensures !(n != exclude && ps[n].connected) ==> Broadcast(outbox, ps, line, exclude)[n] == outbox[n]
    ensures exclude == -1 ==> (|Broadcast(outbox, ps, line, exclude)[n]| == |outbox[n]| + 1 <==> ps[n].connected)
  {
  }

  predicate AnyConnected(ps: seq<Player>)
  {
    exists i :: 0 <= i < |ps| && ps[i].connected
  }

  /** At least one slot is connected and every connected slot has given up. */
  predicate EveryoneGaveUp(ps: seq<Player>)
  {
    AnyConnected(ps) && forall i :: 0 <= i < |ps| && ps[i].connected ==> ps[i].gaveup
  }

  /** Every unsolved word marked as revealed: the keys stay, and no word is
      left unsolved. */
  function Reveal(words: map<string, string>): (revealed: map<string, string>)
    ensures revealed.Keys == words.Keys
    ensures forall k :: k in revealed ==> revealed[k] != ""
  {
    map k | k in words :: if words[k] == "" then REVEAL_MARKER else words[k]
  }

  /** The reveal keeps the keys and every guesser already set, and leaves no
      word unsolved. */
  lemma RevealFillsUnsolved(words: map<string, string>)
    ensures Reveal(words).Keys == words.Keys
    ensures forall k :: k in words && words[k] != "" ==> Reveal(words)[k] == words[k]
    ensures forall k :: k in words && words[k] == "" ==> Reveal(words)[k] == REVEAL_MARKER
    ensures forall k :: k in Reveal(words) ==> Reveal(words)[k] != ""
  {
  }

  /** The reveal marker is never the name of a player of the round, so a
      revealed word cannot be mistaken for one a player guessed. */
  lemma RevealMarkerIsNoName(r: Round)
    requires WellFormed(r)
    ensures forall i :: 0 <= i < |r.players| ==> r.players[i].name != REVEAL_MARKER
  {
    forall i | 0 <= i < |r.players|
      ensures r.players[i].name != REVEAL_MARKER
    {
      assert ValidName(r.players[i].name);
    }
  }

  /** The all-give-up check: when everyone connected has given up, announce
      it to everyone connected and reveal the unsolved words. */
  function AfterGiveupCheck(r: Round): (q: Round)
    requires |r.outbox| == |r.players|
    ensures q.players == r.players && |q.outbox| == |q.players|
    ensures Settled(r.words, q.words)
  {
    if EveryoneGaveUp(r.players) then
      Round(r.players, Reveal(r.words), Broadcast(r.outbox, r.players, EventLine(RevealNotice), -1))
    else r
  }

  /** The check fires exactly when some slot is connected and every connected
      slot has given up; a round with nobody connected is left alone however
      many have given up. */
  lemma GiveupCheckFiresExactly(r: Round)
    requires |r.outbox| == |r.players|
    ensures AfterGiveupCheck(r).players == r.players
    ensures EveryoneGaveUp(r.players) ==> AfterGiveupCheck(r).words == Reveal(r.words)
    ensures !EveryoneGaveUp(r.players) ==> AfterGiveupCheck(r) == r
    ensures !AnyConnected(r.players) ==> AfterGiveupCheck(r) == r
    ensures EveryoneGaveUp(r.players) ==> forall n :: 0 <= n < |r.players| ==>
      AfterGiveupCheck(r).outbox[n] == r.outbox[n] + (if r.players[n].connected then [EventLine(RevealNotice)] else [])
  {
  }

  // ---------------------------------------------------------------------
  // Join and the catch-up sent to the joiner
  // ---------------------------------------------------------------------

  datatype JoinResult = JoinResult(round: Round, pnum: int)

  /** Taking a slot for `name`: a new slot at the end for an unseen name, the
      old slot when its holder is disconnected (with a fresh, empty sink),
      and -1 with nothing changed when its holder is connected. */
  function AfterJoinAttempt(r: Round, name: string): (j: JoinResult)
    requires WellFormed(r) && ValidName(name)
    ensures WellFormed(j.round) && j.round.words == r.words
    ensures -1 <= j.pnum < |j.round.players|
    ensures j.pnum == -1 <==> exists i :: 0 <= i < |r.players| && r.players[i].name == name && r.players[i].connected
    ensures j.pnum >= 0 ==> j.round.players[j.pnum].name == name && j.round.players[j.pnum].connected && j.round.outbox[j.pnum] == []
  {
    var i := IndexOf(r.players, name);
    if i == -1 then
      var ps := r.players + [NewPlayer(name)];
      assert forall k :: 0 <= k < |r.players| ==> ps[k] == r.players[k];
      JoinResult(Round(ps, r.words, r.outbox + [[]]), |r.players|)
    else if r.players[i].connected then
      JoinResult(r, -1)
    else
      var ps := r.players[i := r.players[i].(connected := true)];
      assert forall k :: 0 <= k < |ps| ==> ps[k].name == r.players[k].name;
      JoinResult(Round(ps, r.words, r.outbox[i := []]), i)
  }

  /** A roster entry: the name, followed by `_` when disconnected. */
  function RosterEntry(p: Player): string
  {
    if p.connected then p.name else p.name + "_"
  }

  function RosterEntries(ps: seq<Player>): seq<string>
  {
    seq(|ps|, i requires 0 <= i < |ps| => RosterEntry(ps[i]))
  }

  /** The roster line: every slot in index order, separated by spaces. */
  function RosterLine(ps: seq<Player>): string
  {
    JoinSpace(RosterEntries(ps))
  }

  /** A reader of roster lines: each entry back to a name and whether the
      slot is connected. */
  function ReadRoster(line: string): seq<(string, bool)>
  {
    var f := Split(line);
    seq(|f|, i requires 0 <= i < |f| => (EntryName(f[i]), !MarkedDisconnected(f[i])))
  }

  /** For valid names, the roster line reads back as every slot's name and
      connection flag, in index order. */
  lemma RosterLineReadsBack(ps: seq<Player>)
    requires |ps| >= 1
    requires forall i :: 0 <= i < |ps| ==> ValidName(ps[i].name)
    ensures ReadRoster(RosterLine(ps)) == seq(|ps|, i requires 0 <= i < |ps| => (ps[i].name, ps[i].connected))
  {
    var entries := RosterEntries(ps);
    forall i | 0 <= i < |ps|
      ensures SpaceFree(entries[i])
      ensures EntryName(entries[i]) == ps[i].name && MarkedDisconnected(entries[i]) == !ps[i].connected
    {
      var n := ps[i].name;
      assert ' ' !in n;
      assert IsAlnum(n[|n| - 1]);
      if !ps[i].connected {
        assert entries[i] == n + "_";
        assert (n + "_")[..|n|] == n;
      }
    }
    SplitJoinSpace(entries);
  }

  /** `ws` lists every element of `keys` exactly once. */
  ghost predicate Enumerates(ws: seq<string>, keys: set<string>)
  {
    && (forall i, j :: 0 <= i < j < |ws| ==> ws[i] != ws[j])
    && (forall w :: w in ws <==> w in keys)
  }

  /** The replayed `:attempt` lines, one per solved word, in `order`. */
  function ReplayAttempts(words: map<string, string>, order: seq<string>): seq<string>
  {
    if order == [] then []
    else
      var w := order[|order| - 1];
      ReplayAttempts(words, order[..|order| - 1])
        + (if w in words && words[w] != "" then [EventLine(SolveNotice(w, words[w]))] else [])
  }

  /** The solved words of `order`, in that order. */
  function SolvedIn(words: map<string, string>, order: seq<string>): seq<string>
  {
    if order == [] then []
    else
      var w := order[|order| - 1];
      SolvedIn(words, order[..|order| - 1]) + (if w in words && words[w] != "" then [w] else [])
  }

  /** The replay is one `:attempt w g` line per solved word w of `order`,
      where g is its guesser. */
  lemma {:induction false} ReplayAttemptsLines(words: map<string, string>, order: seq<string>)
    ensures |ReplayAttempts(words, order)| == |SolvedIn(words, order)|
    ensures forall i :: 0 <= i < |SolvedIn(words, order)| ==>
      var w := SolvedIn(words, order)[i];
      w in words && words[w] != "" && ReplayAttempts(words, order)[i] == EventLine(SolveNotice(w, words[w]))
  {
    if order != [] {
      ReplayAttemptsLines(words, order[..|order| - 1]);
    }
  }

  /** Filtering an enumeration of the keys by "solved" enumerates exactly the
      solved words. */
  lemma {:induction false} SolvedInEnumerates(words: map<string, string>, order: seq<string>)
    requires forall i, j :: 0 <= i < j < |order| ==> order[i] != order[j]
    ensures forall i, j :: 0 <= i < j < |SolvedIn(words, order)| ==> SolvedIn(words, order)[i] != SolvedIn(words, order)[j]
    ensures forall w :: w in SolvedIn(words, order) <==> w in order && w in words && words[w] != ""
  {
    if order != [] {
      var init := order[..|order| - 1];
      var last := order[|order| - 1];
      SolvedInEnumerates(words, init);
      assert last !in init;
      assert forall w :: w in order <==> w in init || w == last by {
        assert order == init + [last];
      }
    }
  }

  /** The catch-up replay sends one `:attempt` line for every solved word and
      none for an unsolved one. */
  lemma ReplayCoversSolvedWords(words: map<string, string>, order: seq<string>)
    requires Enumerates(order, words.Keys)
    ensures Enumerates(SolvedIn(words, order), set w | w in words && words[w] != "")
    ensures |ReplayAttempts(words, order)| == |SolvedIn(words, order)|
    ensures forall i :: 0 <= i < |SolvedIn(words, order)| ==>
      var w := SolvedIn(words, order)[i];
      w in words && ReplayAttempts(words, order)[i] == EventLine(SolveNotice(w, words[w]))
  {
    SolvedInEnumerates(words, order);
    ReplayAttemptsLines(words, order);
  }

  /** The replayed `:giveup` lines, one per slot that has given up, in index
      order. */
  function ReplayGiveups(ps: seq<Player>): seq<string>
  {
    if ps == [] then []
    else
      var p := ps[|ps| - 1];
      ReplayGiveups(ps[..|ps| - 1]) + (if p.gaveup then [EventLine(GiveupNotice(p.name, true))] else [])
  }

  /** A `:giveup n` line is replayed exactly when some slot named n has given
      up. */
  lemma {:induction false} ReplayGiveupsExactly(ps: seq<Player>, line: string)
    ensures line in ReplayGiveups(ps) <==>
      exists i :: 0 <= i < |ps| && ps[i].gaveup && line == EventLine(GiveupNotice(ps[i].name, true))
  {
    if line in ReplayGiveups(ps) {
      ReplayGiveupsSound(ps, line);
    }
    if i :| 0 <= i < |ps| && ps[i].gaveup && line == EventLine(GiveupNotice(ps[i].name, true)) {
      ReplayGiveupsComplete(ps, i);
    }
  }

  lemma {:induction false} ReplayGiveupsSound(ps: seq<Player>, line: string)
    requires line in ReplayGiveups(ps)
    ensures exists i :: 0 <= i < |ps| && ps[i].gaveup && line == EventLine(GiveupNotice(ps[i].name, true))
  {
    var init := ps[..|ps| - 1];
    if line in ReplayGiveups(init) {
      ReplayGiveupsSound(init, line);
      var i :| 0 <= i < |init| && init[i].gaveup && line == EventLine(GiveupNotice(init[i].name, true));
      assert ps[i] == init[i];
    } else {
      var last := |ps| - 1;
      assert ps[last].gaveup && line == EventLine(GiveupNotice(ps[last].name, true));
    }
  }

  lemma {:induction false} ReplayGiveupsComplete(ps: seq<Player>, i: int)
    requires 0 <= i < |ps| && ps[i].gaveup
    ensures EventLine(GiveupNotice(ps[i].name, true)) in ReplayGiveups(ps)
  {
    var init := ps[..|ps| - 1];
    if i < |init| {
      assert init[i] == ps[i];
      ReplayGiveupsComplete(init, i);
    }
  }

  /** What the joiner is sent: the roster line, the word line, the replayed
      solves and the replayed give-ups. */
  function CatchUp(ps: seq<Player>, words: map<string, string>, wordOrder: seq<string>, replayOrder: seq<string>): seq<string>
  {
    [RosterLine(ps), JoinSpace(wordOrder)] + ReplayAttempts(words, replayOrder) + ReplayGiveups(ps)
  }

  /** A word line built from space-free keys lists each key exactly once. */
  lemma WordLineListsKeysOnce(words: map<string, string>, wordOrder: seq<string>)
    requires Enumerates(wordOrder, words.Keys) && words != map[]
    requires forall k :: k in words ==> SpaceFree(k)
    ensures Split(JoinSpace(wordOrder)) == wordOrder
    ensures forall k :: k in Split(JoinSpace(wordOrder)) <==> k in words
  {
    var k :| k in words;
    assert k in wordOrder;
    SplitJoinSpace(wordOrder);
  }

  /** A word map the host's list was accepted into meets both demands of
      the lemma above, so its word line reads back as its walk order. */
  lemma ParsedWordLineListsKeysOnce(list: string, host: string, wordOrder: seq<string>)
    requires ParseWords(list, host).Some? && Enumerates(wordOrder, ParseWords(list, host).value.Keys)
    ensures Split(JoinSpace(wordOrder)) == wordOrder
    ensures forall k :: k in Split(JoinSpace(wordOrder)) <==> k in ParseWords(list, host).value
  {
    var m := ParseWords(list, host).value;
    assert |m| >= 1;
    WordLineListsKeysOnce(m, wordOrder);
  }

  /** Sending state to the slot `newp` that just joined: `:join` to every
      other connected slot, then the catch-up to the joiner alone. */
  function AfterSendState(r: Round, newp: int, wordOrder: seq<string>, replayOrder: seq<string>): (q: Round)
    requires WellFormed(r) && 0 <= newp < |r.players|
    ensures WellFormed(q) && q.players == r.players && q.words == r.words
    ensures q.outbox[newp] == r.outbox[newp] + CatchUp(r.players, r.words, wordOrder, replayOrder)
  {
    var announced := Broadcast(r.outbox, r.players, EventLine(JoinNotice(r.players[newp].name)), newp);
    Round(r.players, r.words,
          announced[newp := announced[newp] + CatchUp(r.players, r.words, wordOrder, replayOrder)])
  }

  /** The join step: the catch-up is sent only when the join succeeds. */
  function AfterJoin(r: Round, name: string, wordOrder: seq<string>, replayOrder: seq<string>): (j: JoinResult)
    requires WellFormed(r) && ValidName(name)
    ensures WellFormed(j.round) && j.round.words == r.words
    ensures j.pnum >= 0 ==> j.pnum < |j.round.players| && j.round.players[j.pnum].name == name
  {
    var j := AfterJoinAttempt(r, name);
    if j.pnum >= 0 then JoinResult(AfterSendState(j.round, j.pnum, wordOrder, replayOrder), j.pnum)
    else j
  }

  /** The three outcomes of a join.  A name held by a connected slot is
      refused and nothing changes; a name held by a disconnected slot gets
      that slot, at its own index, back with the roster's names and give-up
      flags unchanged; an unseen name gets one new connected slot at the end.  Names stay unique,
      and the joiner's sink receives exactly the catch-up. */
  lemma JoinOutcome(r: Round, name: string, wordOrder: seq<string>, replayOrder: seq<string>)
    requires WellFormed(r) && ValidName(name)
    ensures var j := AfterJoin(r, name, wordOrder, replayOrder);
      && WellFormed(j.round)
      && j.round.words == r.words
      && (j.pnum == -1 <==> exists i :: 0 <= i < |r.players| && r.players[i].name == name && r.players[i].connected)
      && (j.pnum == -1 ==> j.round == r)
      && (j.pnum != -1 ==> 0 <= j.pnum < |j.round.players| && j.round.players[j.pnum] == Player(name, j.round.players[j.pnum].gaveup, true)
                           && j.round.outbox[j.pnum] == CatchUp(j.round.players, r.words, wordOrder, replayOrder))
      && (j.pnum >= 0 && j.pnum < |r.players| ==>
            && |j.round.players| == |r.players|
            && (forall i :: 0 <= i < |r.players| ==> j.round.players[i].name == r.players[i].name && j.round.players[i].gaveup == r.players[i].gaveup)
            && (forall i :: 0 <= i < |r.players| && i != j.pnum ==> j.round.players[i] == r.players[i]))
      && (j.pnum == |r.players| ==> j.round.players == r.players + [NewPlayer(name)])
      && ((forall i :: 0 <= i < |r.players| ==> r.players[i].name != name) ==> j.pnum == |r.players|)
      && (forall i :: 0 <= i < |r.players| && r.players[i].name == name && !r.players[i].connected ==> j.pnum == i)
  {
    var a := AfterJoinAttempt(r, name);
    if a.pnum >= 0 && a.pnum < |r.players| {
      assert forall k :: 0 <= k < |r.players| ==> a.round.players[k].name == r.players[k].name;
    }
  }

  /** Every other connected slot hears `:join` with the joiner's name;
      the other slots' outboxes are otherwise untouched. */
  lemma JoinNotifiesOthers(r: Round, name: string, wordOrder: seq<string>, replayOrder: seq<string>)
    requires WellFormed(r) && ValidName(name)
    ensures var j := AfterJoin(r, name, wordOrder, replayOrder);
      j.pnum >= 0 ==> forall n :: 0 <= n < |r.players| && n != j.pnum ==>
        j.round.outbox[n] == if r.players[n].connected then r.outbox[n] + [EventLine(JoinNotice(name))] else r.outbox[n]
  {
    var a := AfterJoinAttempt(r, name);
    if a.pnum >= 0 {
      var ps := a.round.players;
      assert forall n :: 0 <= n < |r.players| && n != a.pnum ==> ps[n] == r.players[n] && a.round.outbox[n] == r.outbox[n];
    }
  }

  // ---------------------------------------------------------------------
  // Quit, attempt, give up
  // ---------------------------------------------------------------------

  /** The quit step: the slot loses its sink, the others hear `:quit`, and
      the all-give-up check runs. */
  function AfterQuit(r: Round, pnum: int): (q: Round)
    requires WellFormed(r) && 0 <= pnum < |r.players|
    ensures WellFormed(q) && |q.players| == |r.players| && !q.players[pnum].connected
    ensures Settled(r.words, q.words)
  {
    var ps := r.players[pnum := r.players[pnum].(connected := false)];
    assert forall k :: 0 <= k < |ps| ==> ps[k].name == r.players[k].name;
    AfterGiveupCheck(Round(ps, r.words, Broadcast(r.outbox, ps, EventLine(QuitNotice(r.players[pnum].name)), pnum)))
  }

  /** The attempt step: an unsolved word gets the player's name as guesser
      and the others hear of it; anything else is ignored. */
  function AfterAttempt(r: Round, pnum: int, word: string): (q: Round)
    requires WellFormed(r) && 0 <= pnum < |r.players|
    ensures WellFormed(q) && q.players == r.players
    ensures Settled(r.words, q.words)
  {
    if word in r.words && r.words[word] == "" then
      var name := r.players[pnum].name;
      Round(r.players, r.words[word := name], Broadcast(r.outbox, r.players, EventLine(SolveNotice(word, name)), pnum))
    else r
  }

  /** The give-up toggle: the flag is set, the others hear of it, and the
      all-give-up check runs. */
  function AfterGiveup(r: Round, pnum: int, gaveUp: bool): (q: Round)
    requires WellFormed(r) && 0 <= pnum < |r.players|
    ensures WellFormed(q) && |q.players| == |r.players| && q.players[pnum].gaveup == gaveUp
    ensures Settled(r.words, q.words)
  {
    var ps := r.players[pnum := r.players[pnum].(gaveup := gaveUp)];
    assert forall k :: 0 <= k < |ps| ==> ps[k].name == r.players[k].name;
    AfterGiveupCheck(Round(ps, r.words, Broadcast(r.outbox, ps, EventLine(GiveupNotice(r.players[pnum].name, gaveUp)), pnum)))
  }

  /** A quit marks only that slot disconnected and removes nobody; the words
      change only by the reveal, and only when everyone still connected has
      given up. */
  lemma QuitOnlyDisconnects(r: Round, pnum: int)
    requires WellFormed(r) && 0 <= pnum < |r.players|
    ensures var q := AfterQuit(r, pnum);
      && WellFormed(q)
      && q.players == r.players[pnum := r.players[pnum].(connected := false)]
      && q.words == (if EveryoneGaveUp(q.players) then Reveal(r.words) else r.words)
      && forall n :: 0 <= n < |r.players| ==>
           q.outbox[n] == r.outbox[n]
             + (if n != pnum && r.players[n].connected then [EventLine(QuitNotice(r.players[pnum].name))] else [])
             + (if EveryoneGaveUp(q.players) && q.players[n].connected then [EventLine(RevealNotice)] else [])
  {
    var ps := r.players[pnum := r.players[pnum].(connected := false)];
    assert forall k :: 0 <= k < |ps| ==> ps[k].name == r.players[k].name;
  }

  /** A give-up toggle changes only that slot's flag; the words change only
      by the reveal. */
  lemma GiveupOnlyToggles(r: Round, pnum: int, gaveUp: bool)
    requires WellFormed(r) && 0 <= pnum < |r.players|
    ensures var q := AfterGiveup(r, pnum, gaveUp);
      && WellFormed(q)
      && q.players == r.players[pnum := r.players[pnum].(gaveup := gaveUp)]
      && q.words == (if EveryoneGaveUp(q.players) then Reveal(r.words) else r.words)
      && forall n :: 0 <= n < |r.players| ==>
           q.outbox[n] == r.outbox[n]
             + (if n != pnum && r.players[n].connected then [EventLine(GiveupNotice(r.players[pnum].name, gaveUp))] else [])
             + (if EveryoneGaveUp(q.players) && q.players[n].connected then [EventLine(RevealNotice)] else [])
  {
    var ps := r.players[pnum := r.players[pnum].(gaveup := gaveUp)];
    assert forall k :: 0 <= k < |ps| ==> ps[k].name == r.players[k].name;
  }

  /** `after` keeps every key of `before` and every guesser already set. */
  predicate Settled(before: map<string, string>, after: map<string, string>)
  {
    after.Keys == before.Keys && forall k :: k in before && before[k] != "" ==> after[k] == before[k]
  }

  /** An attempt solves an unsolved word for the attempting player and
      nothing else; a solved or unknown word is left alone, so of two
      attempts on the same word only the first takes effect. */
  lemma AttemptSolvesOnce(r: Round, p: int, q: int, word: string)
    requires WellFormed(r) && 0 <= p < |r.players| && 0 <= q < |r.players|
    ensures Settled(r.words, AfterAttempt(r, p, word).words)
    ensures word in r.words && r.words[word] == "" ==> AfterAttempt(r, p, word).words == r.words[word := r.players[p].name]
    ensures !(word in r.words && r.words[word] == "") ==> AfterAttempt(r, p, word) == r
    ensures AfterAttempt(AfterAttempt(r, p, word), q, word) == AfterAttempt(r, p, word)
    ensures word in r.words && r.words[word] == "" ==> forall n :: 0 <= n < |r.players| ==>
      AfterAttempt(r, p, word).outbox[n]
        == r.outbox[n] + (if n != p && r.players[n].connected then [EventLine(SolveNotice(word, r.players[p].name))] else [])
  {
  }

  /** After the reveal no attempt changes anything. */
  lemma NoAttemptAfterReveal(r: Round, p: int, word: string)
    requires WellFormed(r) && 0 <= p < |r.players|
    requires exists s :: r.words == Reveal(s)
    ensures AfterAttempt(r, p, word) == r
  {
    var s :| r.words == Reveal(s);
    RevealFillsUnsolved(s);
  }

  /** No step ever clears or changes a guesser once set. */
  lemma StepsKeepGuessers(r: Round, pnum: int, word: string, gaveUp: bool, name: string, wordOrder: seq<string>, replayOrder: seq<string>)
    requires WellFormed(r) && 0 <= pnum < |r.players| && ValidName(name)
    ensures Settled(r.words, AfterQuit(r, pnum).words)
    ensures Settled(r.words, AfterAttempt(r, pnum, word).words)
    ensures Settled(r.words, AfterGiveup(r, pnum, gaveUp).words)
    ensures Settled(r.words, AfterJoin(r, name, wordOrder, replayOrder).round.words)
  {
    assert Settled(r.words, Reveal(r.words)) by {
      RevealFillsUnsolved(r.words);
    }
    assert Settled(r.words, AfterQuit(r, pnum).words) by {
      QuitOnlyDisconnects(r, pnum);
    }
    assert Settled(r.words, AfterAttempt(r, pnum, word).words) by {
      AttemptSolvesOnce(r, pnum, pnum, word);
    }
    assert Settled(r.words, AfterGiveup(r, pnum, gaveUp).words) by {
      GiveupOnlyToggles(r, pnum, gaveUp);
    }
    assert AfterJoin(r, name, wordOrder, replayOrder).round.words == r.words by {
      JoinOutcome(r, name, wordOrder, replayOrder);
    }
  }
}
