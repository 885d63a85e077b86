/** The hub: the registry of running rounds, keyed by a generated code.
    Each entry counts the connections holding the round and has an expiry
    timer, here only the flag `armed`; the random generator is the stream of
    draws `draws`, each in [0, 36); the process exit is the flag
    `terminated`.  Each arm of the hub's command loop is one method of `Hub`,
    proved to take the hub to the state a step function of this module
    describes. */
module GameHub {
  import opened Wire
  import CoopGame

  /** One output of the random generator's `Intn(36)`. */
  type Draw = d: int | 0 <= d < 36

  /** The length of a generated code. */
  const CODE_LEN := 5

  /** The code character for a draw: a digit for 0-9, a lowercase letter
      for 10-35; the draw reads back from it. */
  function CodeChar(d: Draw): (c: char)
    ensures IsCodeChar(c) && DrawOf(c) == d
  {
    if d < 10 then ('0' as int + d) as char else ('a' as int + d - 10) as char
  }

  predicate IsCodeChar(c: char)
  {
    '0' <= c <= '9' || 'a' <= c <= 'z'
  }

  /** The draw a code character came from. */
  function DrawOf(c: char): Draw
    requires IsCodeChar(c)
  {
    if c <= '9' then c as int - '0' as int else c as int - 'a' as int + 10
  }

  /** The 36 draws and the 36 code characters correspond one to one. */
  lemma CodeCharBijective(d: Draw, c: char)
    ensures IsCodeChar(CodeChar(d)) && DrawOf(CodeChar(d)) == d
    ensures IsCodeChar(c) ==> CodeChar(DrawOf(c)) == c
  {
  }

  /** The code the first five draws spell: five lowercase letters and
      digits. */
  function Code(ds: seq<Draw>): (code: string)
    requires |ds| >= CODE_LEN
    ensures |code| == CODE_LEN && forall i :: 0 <= i < CODE_LEN ==> IsCodeChar(code[i])
  {
    seq(CODE_LEN, i requires 0 <= i < CODE_LEN => CodeChar(ds[i]))
  }

  /** Reading a code back gives the draws it was made from, so two draw
      prefixes that differ give different codes. */
  lemma CodeDeterminesDraws(ds: seq<Draw>, es: seq<Draw>)
    requires |ds| >= CODE_LEN && |es| >= CODE_LEN
    ensures |Code(ds)| == CODE_LEN && forall i :: 0 <= i < CODE_LEN ==> IsCodeChar(Code(ds)[i]) && DrawOf(Code(ds)[i]) == ds[i]
    ensures Code(ds) == Code(es) <==> ds[..CODE_LEN] == es[..CODE_LEN]
  {
    forall i | 0 <= i < CODE_LEN
      ensures IsCodeChar(Code(ds)[i]) && DrawOf(Code(ds)[i]) == ds[i]
      ensures IsCodeChar(Code(es)[i]) && DrawOf(Code(es)[i]) == es[i]
    {
      CodeCharBijective(ds[i], ' ');
      CodeCharBijective(es[i], ' ');
    }
    if Code(ds) == Code(es) {
      assert forall i :: 0 <= i < CODE_LEN ==> ds[i] == DrawOf(Code(ds)[i]) == DrawOf(Code(es)[i]) == es[i];
    }
  }

  /** A code from five draws, one character at a time into a five-character
      buffer. */
  method GenerateGamename(ds: seq<Draw>) returns (name: string)
    requires |ds| >= CODE_LEN
    ensures name == Code(ds)
  {
    var buf := new char[CODE_LEN];
    for i := 0 to CODE_LEN
      invariant forall j :: 0 <= j < i ==> buf[j] == CodeChar(ds[j])
    {
      var r := ds[i];
      if r < 10 {
        buf[i] := ('0' as int + r) as char;
      } else {
        buf[i] := ('a' as int + r - 10) as char;
      }
    }
    name := buf[..];
  }

  /** The `k`-th name the registration would try: the prefix and the code
      of the `k`-th group of five draws. */
  function Candidate(draws: seq<Draw>, prefix: string, k: nat): string
    requires CODE_LEN * k + CODE_LEN <= |draws|
  {
    prefix + Code(draws[CODE_LEN * k..])
  }

  /** The first group, from the `k`-th on, whose candidate is not taken. */
  function FirstFresh(draws: seq<Draw>, prefix: string, taken: set<string>, k: nat): (r: Option<nat>)
    ensures r.Some? ==> k <= r.value && CODE_LEN * r.value + CODE_LEN <= |draws|
                        && Candidate(draws, prefix, r.value) !in taken
                        && forall j :: k <= j < r.value ==> Candidate(draws, prefix, j) in taken
    ensures r.None? ==> forall j: nat :: k <= j && CODE_LEN * j + CODE_LEN <= |draws| ==> Candidate(draws, prefix, j) in taken
    decreases |draws| - CODE_LEN * k
  {
    if CODE_LEN * k + CODE_LEN > |draws| then None
    else if Candidate(draws, prefix, k) !in taken then Some(k)
    else FirstFresh(draws, prefix, taken, k + 1)
  }

  /** A registry entry: the round, whether its expiry timer is armed, and
      the connections holding it. */
  datatype Entry = Entry(game: CoopGame.Game, armed: bool, connections: int)

  /** The registry, the phase-out flag, whether the process has exited, and
      the draws the generator has yet to give. */
  datatype HubState = HubState(games: map<string, Entry>, phasedOut: bool, terminated: bool, draws: seq<Draw>)

  datatype Registered = Registered(hub: HubState, name: string)

  datatype Looked = Looked(hub: HubState, game: Option<CoopGame.Game>)

  /** Registering a round: try candidates until one is free, store the round
      under it with one connection and the timer stopped, and consume the
      draws used. */
  function AfterRegister(s: HubState, prefix: string, game: CoopGame.Game): (r: Registered)
    requires FirstFresh(s.draws, prefix, s.games.Keys, 0).Some?
    ensures r.name !in s.games && r.hub.games.Keys == s.games.Keys + {r.name}
    ensures prefix <= r.name && r.hub.games[r.name] == Entry(game, false, 1)
  {
    var k := FirstFresh(s.draws, prefix, s.games.Keys, 0).value;
    var name := Candidate(s.draws, prefix, k);
    Registered(s.(games := s.games[name := Entry(game, false, 1)], draws := s.draws[CODE_LEN * k + CODE_LEN..]), name)
  }

  /** Looking a round up: absent, nothing; present, one more connection,
      the timer stopped, and the round. */
  function AfterGet(s: HubState, name: string): (l: Looked)
    ensures l.hub.games.Keys == s.games.Keys
    ensures l.game.Some? <==> name in s.games
    ensures name in s.games ==> l.game.value == s.games[name].game && !l.hub.games[name].armed
  {
    if name !in s.games then Looked(s, None)
    else
      var e := s.games[name];
      Looked(s.(games := s.games[name := e.(connections := e.connections + 1, armed := false)]), Some(e.game))
  }

  /** Leaving a round: one connection fewer; the timer is re-armed when the
      count reaches zero and otherwise left as it was. */
  function AfterLeave(s: HubState, name: string): (t: HubState)
    requires name in s.games
    ensures t.games.Keys == s.games.Keys
    ensures t.games[name].connections == s.games[name].connections - 1
    ensures t.games[name].game == s.games[name].game
  {
    var e := s.games[name];
    var n := e.connections - 1;
    s.(games := s.games[name := e.(connections := n, armed := if n == 0 then true else e.armed)])
  }

  /** Removing a round (what the expiry timer does): the entry goes, and the
      process exits if the registry is then empty. */
  function AfterRemove(s: HubState, name: string): (t: HubState)
    ensures t.games.Keys == s.games.Keys - {name}
    ensures !s.terminated && t.terminated ==> t.games == map[]
  {
    var games := s.games - {name};
    s.(games := games, terminated := s.terminated || games == map[])
  }

  /** Phase-out: set the flag, and exit if no round is registered. */
  function AfterPhaseOut(s: HubState): (t: HubState)
    ensures t.phasedOut && t.games == s.games
    ensures !s.terminated && t.terminated ==> s.games == map[]
  {
    s.(phasedOut := true, terminated := s.terminated || s.games == map[])
  }

  /** A registered name is the prefix and five code characters, was not
      taken before, and every candidate tried before it was taken; the new
      entry holds one connection with the timer stopped, and no other entry
      changes. */
  lemma RegisterOutcome(s: HubState, prefix: string, game: CoopGame.Game)
    requires FirstFresh(s.draws, prefix, s.games.Keys, 0).Some?
    ensures var r := AfterRegister(s, prefix, game);
      && r.name !in s.games
      && |r.name| == |prefix| + CODE_LEN && r.name[..|prefix|] == prefix
      && (forall i :: |prefix| <= i < |r.name| ==> IsCodeChar(r.name[i]))
      && r.hub.games == s.games[r.name := Entry(game, false, 1)]
      && r.hub.games.Keys == s.games.Keys + {r.name}
      && r.hub.phasedOut == s.phasedOut && r.hub.terminated == s.terminated
      && |r.hub.draws| < |s.draws|
  {
    var k := FirstFresh(s.draws, prefix, s.games.Keys, 0).value;
    var code := Code(s.draws[CODE_LEN * k..]);
    CodeDeterminesDraws(s.draws[CODE_LEN * k..], s.draws[CODE_LEN * k..]);
    var name := prefix + code;
    assert name[..|prefix|] == prefix;
    assert forall i :: |prefix| <= i < |name| ==> name[i] == code[i - |prefix|];
  }

  /** A lookup of an absent name changes nothing and finds nothing; of a
      present name it returns the stored round, adds one connection, stops
      the timer and leaves every other entry alone. */
  lemma GetOutcome(s: HubState, name: string)
    ensures name !in s.games <==> AfterGet(s, name).game.None?
    ensures name !in s.games ==> AfterGet(s, name).hub == s
    ensures name in s.games ==>
      var e := s.games[name];
      var t := AfterGet(s, name).hub;
      && AfterGet(s, name).game == Some(e.game)
      && t.games.Keys == s.games.Keys
      && t.games[name] == Entry(e.game, false, e.connections + 1)
      && (forall n :: n in s.games && n != name ==> t.games[n] == s.games[n])
      && t.phasedOut == s.phasedOut && t.terminated == s.terminated && t.draws == s.draws
  {
  }

  /** Leaving arms the timer exactly when the count reaches zero; a timer
      that was already armed stays armed. */
  lemma LeaveOutcome(s: HubState, name: string)
    requires name in s.games
    ensures var e := s.games[name];
      var t := AfterLeave(s, name);
      && t.games.Keys == s.games.Keys
      && t.games[name].connections == e.connections - 1
      && t.games[name].game == e.game
      && (t.games[name].armed <==> e.connections == 1 || e.armed)
      && (forall n :: n in s.games && n != name ==> t.games[n] == s.games[n])
  {
  }

  /** Every entry's count is non-negative and its timer is armed exactly
      when nobody holds it. */
  predicate TimersAgree(games: map<string, Entry>)
  {
    forall n :: n in games ==> games[n].connections >= 0 && (games[n].armed <==> games[n].connections == 0)
  }

  /** Register, lookup, remove and phase-out keep the timers in agreement
      with the counts; leave does too as long as it is called on a round
      somebody holds. */
  lemma StepsKeepTimersAgree(s: HubState, prefix: string, game: CoopGame.Game, name: string)
    requires TimersAgree(s.games)
    ensures FirstFresh(s.draws, prefix, s.games.Keys, 0).Some? ==> TimersAgree(AfterRegister(s, prefix, game).hub.games)
    ensures TimersAgree(AfterGet(s, name).hub.games)
    ensures name in s.games && s.games[name].connections >= 1 ==> TimersAgree(AfterLeave(s, name).games)
    ensures TimersAgree(AfterRemove(s, name).games)
    ensures TimersAgree(AfterPhaseOut(s).games)
  {
  }

  /** A leave on a round nobody holds breaks the agreement: the count goes
      negative. */
  lemma LeaveAtZeroBreaksAgreement(s: HubState, name: string)
    requires TimersAgree(s.games) && name in s.games && s.games[name].connections == 0
    ensures !TimersAgree(AfterLeave(s, name).games)
  {
    assert AfterLeave(s, name).games[name].connections == -1;
  }

  /** Whatever the order of calls, even unbalanced ones, a timer is only
      ever armed on an entry nobody holds. */
  predicate ArmedOnlyWhenIdle(games: map<string, Entry>)
  {
    forall n :: n in games && games[n].armed ==> games[n].connections <= 0
  }

  lemma StepsKeepArmedOnlyWhenIdle(s: HubState, prefix: string, game: CoopGame.Game, name: string)
    requires ArmedOnlyWhenIdle(s.games)
    ensures FirstFresh(s.draws, prefix, s.games.Keys, 0).Some? ==> ArmedOnlyWhenIdle(AfterRegister(s, prefix, game).hub.games)
    ensures ArmedOnlyWhenIdle(AfterGet(s, name).hub.games)
    ensures name in s.games ==> ArmedOnlyWhenIdle(AfterLeave(s, name).games)
    ensures ArmedOnlyWhenIdle(AfterRemove(s, name).games)
    ensures ArmedOnlyWhenIdle(AfterPhaseOut(s).games)
  {
  }

  /** A remove takes out exactly the one entry and exits the process
      exactly when that empties the registry; phase-out sets the flag and
      exits exactly when the registry is already empty. */
  lemma ExitOnlyWhenEmpty(s: HubState, name: string)
    requires !s.terminated
    ensures AfterRemove(s, name).games == s.games - {name}
    ensures AfterRemove(s, name).phasedOut == s.phasedOut && AfterRemove(s, name).draws == s.draws
    ensures AfterRemove(s, name).terminated <==> s.games.Keys <= {name}
    ensures AfterPhaseOut(s).phasedOut && AfterPhaseOut(s).games == s.games && AfterPhaseOut(s).draws == s.draws
    ensures AfterPhaseOut(s).terminated <==> s.games == map[]
  {
    var games := s.games - {name};
    if games == map[] {
      forall n | n in s.games ensures n == name {
        assert n !in games;
      }
    }
    if s.games.Keys <= {name} {
      assert games.Keys == {};
    }
  }

  class Hub {
    var games: map<string, Entry>
    const prefix: string
    var phasedOut: bool
    var terminated: bool
    var draws: seq<Draw>

    function State(): HubState
      reads this
    {
      HubState(games, phasedOut, terminated, draws)
    }

    /** A timer is only armed on an entry nobody holds. */
    ghost predicate Valid()
      reads this
    {
      ArmedOnlyWhenIdle(games)
    }

    /** An empty registry whose names all start with `prefix`. */
    constructor (prefix: string, draws: seq<Draw>)
      ensures Valid()
      ensures games == map[] && this.prefix == prefix && !phasedOut && !terminated && this.draws == draws
    {
      this.games := map[];
      this.prefix := prefix;
      this.phasedOut := false;
      this.terminated := false;
      this.draws := draws;
    }

    /** The register arm.  The draws must hold a free candidate: the real
        generator never runs out, so the loop ends. */
    method Register(game: CoopGame.Game) returns (name: string)
      requires Valid() && !terminated
      requires FirstFresh(draws, prefix, games.Keys, 0).Some?
      modifies this
      ensures Valid()
      ensures Registered(State(), name) == AfterRegister(old(State()), prefix, game)
    {
      var ds, taken := draws, games.Keys;
      var k := 0;
      var code := GenerateGamename(ds);
      assert ds[CODE_LEN * k..] == ds;
      name := prefix + code;
      while name in taken
        invariant unchanged(this)
        invariant CODE_LEN * k + CODE_LEN <= |ds|
        invariant name == Candidate(ds, prefix, k)
        invariant FirstFresh(ds, prefix, taken, k) == FirstFresh(ds, prefix, taken, 0)
        decreases |ds| - CODE_LEN * k
      {
        assert FirstFresh(ds, prefix, taken, k) == FirstFresh(ds, prefix, taken, k + 1);
        k := k + 1;
        code := GenerateGamename(ds[CODE_LEN * k..]);
        name := prefix + code;
      }
      assert FirstFresh(ds, prefix, taken, k) == Some(k);
      draws := ds[CODE_LEN * k + CODE_LEN..];
      games := games[name := Entry(game, false, 1)];
    }

    /** The lookup arm. */
    method Get(name: string) returns (game: Option<CoopGame.Game>)
      requires Valid() && !terminated
      modifies this
      ensures Valid()
      ensures Looked(State(), game) == AfterGet(old(State()), name)
    {
      if name !in games {
        return None;
      }
      var e := games[name];
      games := games[name := e.(connections := e.connections + 1)];
      games := games[name := games[name].(armed := false)];
      game := Some(games[name].game);
    }

    /** The leave arm.  The name must be registered: the source reads the
        entry without checking. */
    method Leave(name: string)
      requires Valid() && !terminated && name in games
      modifies this
      ensures Valid()
      ensures State() == AfterLeave(old(State()), name)
    {
      var e := games[name];
      games := games[name := e.(connections := e.connections - 1)];
      if games[name].connections == 0 {
        games := games[name := games[name].(armed := true)];
      }
    }

    /** The remove arm, run when a round's timer fires. */
    method Remove(name: string)
      requires Valid() && !terminated
      modifies this
      ensures Valid()
      ensures State() == AfterRemove(old(State()), name)
    {
      var rest := games - {name};
      assert ArmedOnlyWhenIdle(rest);
      assert |rest| == 0 <==> rest == map[];
      games := rest;
      if |games| == 0 {
        terminated := true;
      }
    }

    /** The phase-out arm. */
    method PhaseOut()
      requires Valid() && !terminated
      modifies this
      ensures Valid()
      ensures State() == AfterPhaseOut(old(State()))
    {
      phasedOut := true;
      if |games| == 0 {
        terminated := true;
      }
    }
  }
}
