/** The round's state as the command loop holds it: a game object whose
    fields each step updates in place.  Each method is one arm of the loop
    (or a helper it calls) and is proved to take the round to the state the
    matching function of CoopRound describes.  Sending a line to a slot's
    sink is appending it to that slot's outbox. */
module CoopGame {
  import opened Wire
  import opened CoopRound

  class Game {
    var players: seq<Player>
    var words: map<string, string>
    var outbox: seq<seq<string>>

    function State(): Round
      reads this
    {
      Round(players, words, outbox)
    }

    ghost predicate Valid()
      reads this
    {
      WellFormed(State())
    }

    /** A new game: the host as the only, connected slot, and the host's
        word map.  The host's name passed the name pattern in the path. */
    constructor (host: string, wordsmap: map<string, string>)
      requires ValidName(host)
      ensures Valid()
      ensures players == [Player(host, false, true)] && words == wordsmap && outbox == [[]]
    {
      players := [NewPlayer(host)];
      words := wordsmap;
      outbox := [[]];
    }

    /** Sends `line` to every connected slot whose index is not `exclude`. */
    method Announce(line: string, exclude: int)
      requires Valid()
      modifies this
      ensures Valid() && players == old(players) && words == old(words)
      ensures outbox == Broadcast(old(outbox), players, line, exclude)
    {
      var n := 0;
      while n < |players|
        invariant 0 <= n <= |players|
        invariant players == old(players) && words == old(words) && |outbox| == |players|
        invariant forall k :: 0 <= k < |outbox| ==>
          outbox[k] == if k < n then Broadcast(old(outbox), players, line, exclude)[k] else old(outbox)[k]
      {
        if n != exclude && players[n].connected {
          outbox := outbox[n := outbox[n] + [line]];
        }
        n := n + 1;
      }
    }

    /** Looks for the name among the slots and takes a slot for it. */
    method AttemptJoin(name: string) returns (pnum: int)
      requires Valid() && ValidName(name)
      modifies this
      ensures Valid()
      ensures JoinResult(State(), pnum) == AfterJoinAttempt(old(State()), name)
    {
      var n := 0;
      while n < |players|
        invariant 0 <= n <= |players|
        invariant State() == old(State())
        invariant forall j :: 0 <= j < n ==> players[j].name != name
      {
        if players[n].name == name {
          assert IndexOf(players, name) == n;
          if !players[n].connected {
            players := players[n := players[n].(connected := true)];
            outbox := outbox[n := []];
            assert forall k :: 0 <= k < |players| ==> players[k].name == old(players)[k].name;
            return n;
          } else {
            return -1;
          }
        }
        n := n + 1;
      }
      players := players + [NewPlayer(name)];
      outbox := outbox + [[]];
      pnum := |players| - 1;
    }

    /** Tells the others that slot `newp` joined and sends the joiner the
        roster, the words, the solved words and the players who gave up.
        The two walks over the word map may visit the keys in any order;
        `wordOrder` and `replayOrder` are the orders taken.  Nothing else
        is sent to the joiner's sink in between, so the lines are gathered
        first and appended together. */
    method SendState(newp: nat) returns (ghost wordOrder: seq<string>, ghost replayOrder: seq<string>)
      requires Valid() && newp < |players|
      modifies this
      ensures Valid()
      ensures Enumerates(wordOrder, words.Keys) && Enumerates(replayOrder, words.Keys)
      ensures State() == AfterSendState(old(State()), newp, wordOrder, replayOrder)
    {
      Announce(EventLine(JoinNotice(players[newp].name)), newp);
      var roster := RosterLineOf();
      var ws := ListKeys();
      var solved;
      solved, replayOrder := SolvedLines();
      var gaveUp := GiveupLines();
      wordOrder := ws;
      outbox := outbox[newp := outbox[newp] + ([roster, JoinSpace(ws)] + solved + gaveUp)];
    }

    /** The roster line, built slot by slot. */
    method RosterLineOf() returns (line: string)
      ensures line == RosterLine(players)
    {
      var entries: seq<string> := [];
      var n := 0;
      while n < |players|
        invariant 0 <= n <= |players|
        invariant |entries| == n && forall k :: 0 <= k < n ==> entries[k] == RosterEntry(players[k])
      {
        var entry := players[n].name;
        if !players[n].connected {
          entry := entry + "_";
        }
        entries := entries + [entry];
        n := n + 1;
      }
      assert entries == RosterEntries(players);
      line := JoinSpace(entries);
    }

    /** One `:attempt` line per solved word, walking the word map in an order
        the walk chooses; `order` is that order. */
    method SolvedLines() returns (lines: seq<string>, ghost order: seq<string>)
      ensures Enumerates(order, words.Keys)
      ensures lines == ReplayAttempts(words, order)
    {
      var remaining := words.Keys;
      lines, order := [], [];
      while remaining != {}
        invariant remaining <= words.Keys
        invariant Enumerates(order, words.Keys - remaining)
        invariant lines == ReplayAttempts(words, order)
        decreases remaining
      {
        var w :| w in remaining;
        assert (order + [w])[..|order|] == order;
        if words[w] != "" {
          lines := lines + [EventLine(SolveNotice(w, words[w]))];
        }
        order := order + [w];
        remaining := remaining - {w};
      }
    }

    /** One `:giveup` line per slot that has given up, in index order. */
    method GiveupLines() returns (lines: seq<string>)
      ensures lines == ReplayGiveups(players)
    {
      lines := [];
      var n := 0;
      while n < |players|
        invariant 0 <= n <= |players|
        invariant lines == ReplayGiveups(players[..n])
      {
        assert players[..n + 1][..n] == players[..n];
        if players[n].gaveup {
          lines := lines + [EventLine(GiveupNotice(players[n].name, true))];
        }
        n := n + 1;
      }
      assert players[..n] == players;
    }

    /** The keys of the word map, each once, in an order the walk chooses. */
    method ListKeys() returns (ws: seq<string>)
      ensures Enumerates(ws, words.Keys)
    {
      var remaining := words.Keys;
      ws := [];
      while remaining != {}
        invariant remaining <= words.Keys
        invariant Enumerates(ws, words.Keys - remaining)
        decreases remaining
      {
        var w :| w in remaining;
        ws := ws + [w];
        remaining := remaining - {w};
      }
    }

    /** The join arm: take a slot and, only if that worked, send the state. */
    method Join(name: string) returns (pnum: int, ghost wordOrder: seq<string>, ghost replayOrder: seq<string>)
      requires Valid() && ValidName(name)
      modifies this
      ensures Valid()
      ensures pnum >= 0 ==> Enumerates(wordOrder, words.Keys) && Enumerates(replayOrder, words.Keys)
      ensures JoinResult(State(), pnum) == AfterJoin(old(State()), name, wordOrder, replayOrder)
    {
      pnum := AttemptJoin(name);
      wordOrder, replayOrder := [], [];
      if pnum >= 0 {
        wordOrder, replayOrder := SendState(pnum);
      }
    }

    /** Checks whether everyone connected gave up and, if so, announces it
        and reveals every unsolved word. */
    method CheckGiveup() returns (fired: bool)
      requires Valid()
      modifies this
      ensures Valid()
      ensures fired == EveryoneGaveUp(old(players))
      ensures State() == AfterGiveupCheck(old(State()))
    {
      var allGiveup, allQuit := true, true;
      var n := 0;
      while n < |players|
        invariant 0 <= n <= |players|
        invariant allGiveup
        invariant allQuit <==> forall k :: 0 <= k < n ==> !players[k].connected
        invariant forall k :: 0 <= k < n && players[k].connected ==> players[k].gaveup
      {
        if players[n].connected {
          allQuit := false;
          if !players[n].gaveup {
            allGiveup := false;
            break;
          }
        }
        n := n + 1;
      }
      fired := !allQuit && allGiveup;
      if fired {
        Announce(EventLine(RevealNotice), -1);
        ghost var before := words;
        var remaining := words.Keys;
        while remaining != {}
          invariant remaining <= words.Keys && words.Keys == before.Keys
          invariant forall k :: k in words ==> words[k] == if k in remaining then before[k] else Reveal(before)[k]
          invariant |outbox| == |players| && players == old(players)
          invariant outbox == Broadcast(old(outbox), players, EventLine(RevealNotice), -1)
          decreases remaining
        {
          var k :| k in remaining;
          if words[k] == "" {
            words := words[k := REVEAL_MARKER];
          }
          remaining := remaining - {k};
        }
        assert words == Reveal(before);
      }
    }

    /** The quit arm: the slot loses its sink, the others hear of it, and the
        all-give-up check runs. */
    method Quit(pnum: nat)
      requires Valid() && pnum < |players|
      modifies this
      ensures Valid()
      ensures State() == AfterQuit(old(State()), pnum)
    {
      players := players[pnum := players[pnum].(connected := false)];
      assert forall k :: 0 <= k < |players| ==> players[k].name == old(players)[k].name;
      Announce(EventLine(QuitNotice(players[pnum].name)), pnum);
      var _ := CheckGiveup();
    }

    /** The attempt arm: only an unsolved word takes the player's name. */
    method Attempt(pnum: nat, word: string)
      requires Valid() && pnum < |players|
      modifies this
      ensures Valid()
      ensures State() == AfterAttempt(old(State()), pnum, word)
    {
      if word in words && words[word] == "" {
        var pname := players[pnum].name;
        words := words[word := pname];
        Announce(EventLine(SolveNotice(word, pname)), pnum);
      }
    }

    /** The give-up arm: set the flag, tell the others, run the check. */
    method Giveup(pnum: nat, gaveUp: bool)
      requires Valid() && pnum < |players|
      modifies this
      ensures Valid()
      ensures State() == AfterGiveup(old(State()), pnum, gaveUp)
    {
      players := players[pnum := players[pnum].(gaveup := gaveUp)];
      assert forall k :: 0 <= k < |players| ==> players[k].name == old(players)[k].name;
      Announce(EventLine(GiveupNotice(players[pnum].name, gaveUp)), pnum);
      var _ := CheckGiveup();
    }

    /** One name message of a would-be player: a name that is not 1 to 10
        letters and digits is answered `:badname` and joins nothing; a taken
        name is answered `:taken`; otherwise the player joins and the reply
        is left to the catch-up. */
    method ReadName(msg: string) returns (reply: Option<string>, pnum: int, ghost wordOrder: seq<string>, ghost replayOrder: seq<string>)
      requires Valid()
      modifies this
      ensures Valid()
      ensures !ValidName(msg) ==> reply == Some(":badname") && pnum == -1 && State() == old(State())
      ensures ValidName(msg) ==> JoinResult(State(), pnum) == AfterJoin(old(State()), msg, wordOrder, replayOrder)
      ensures ValidName(msg) ==> reply == if pnum < 0 then Some(":taken") else None
    {
      wordOrder, replayOrder := [], [];
      if !ValidName(msg) {
        return Some(":badname"), -1, wordOrder, replayOrder;
      }
      pnum, wordOrder, replayOrder := Join(msg);
      reply := if pnum < 0 then Some(":taken") else None;
    }

    /** One message from a joined player: a guess, a give-up toggle, or
        something that is ignored. */
    method Dispatch(pnum: nat, msg: string)
      requires Valid() && pnum < |players|
      modifies this
      ensures Valid()
      ensures State() == match Classify(msg)
        case Guess(w) => AfterAttempt(old(State()), pnum, w)
        case GiveupToggle(b) => AfterGiveup(old(State()), pnum, b)
        case Ignored => old(State())
    {
      match Classify(msg)
      case Guess(w) => Attempt(pnum, w);
      case GiveupToggle(b) => Giveup(pnum, b);
      case Ignored =>
    }
  }
}
