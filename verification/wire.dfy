/** The text side of the co-operative game: splitting and joining on single
    spaces, the host's word-list codec, the classifiers for what a player
    sends, and the control lines the game sends back.  Strings are sequences
    of characters; every pattern here is ASCII, so working on characters
    instead of the Go program's UTF-8 bytes gives the same answers. */
module Wire {

  datatype Option<T> = None | Some(value: T)

  predicate IsLower(c: char) { 'a' <= c <= 'z' }

  predicate IsAlnum(c: char) { 'a' <= c <= 'z' || 'A' <= c <= 'Z' || '0' <= c <= '9' }

  predicate AllLower(s: string) { forall i :: 0 <= i < |s| ==> IsLower(s[i]) }

  predicate AllAlnum(s: string) { forall i :: 0 <= i < |s| ==> IsAlnum(s[i]) }

  predicate SpaceFree(s: string) { ' ' !in s }

  // ---------------------------------------------------------------------
  // Splitting and joining on " "
  // ---------------------------------------------------------------------

  /** The parts with one space between each two of them. */
  function JoinSpace(parts: seq<string>): string
  {
    if parts == [] then ""
    else if |parts| == 1 then parts[0]
    else parts[0] + " " + JoinSpace(parts[1..])
  }

  /** Splitting at every single space: n spaces give n + 1 parts, so the
      empty string gives one empty part and doubled spaces give empty parts. */
  function Split(s: string): (parts: seq<string>)
    ensures |parts| == SpaceCount(s) + 1
    ensures forall i :: 0 <= i < |parts| ==> SpaceFree(parts[i])
    ensures JoinSpace(parts) == s
  {
    if s == [] then [""]
    else
      var rest := Split(s[1..]);
      if s[0] == ' ' then
        assert s == " " + s[1..];
        [""] + rest
      else
        var parts := [[s[0]] + rest[0]] + rest[1..];
        assert JoinSpace(parts) == [s[0]] + JoinSpace(rest) by {
          if |rest| > 1 {
            assert parts[1..] == rest[1..];
          }
        }
        parts
  }

  /** The number of spaces in s. */
  function SpaceCount(s: string): nat
  {
    if s == [] then 0 else (if s[0] == ' ' then 1 else 0) + SpaceCount(s[1..])
  }

  lemma {:induction false} SplitSpaceFree(w: string)
    requires SpaceFree(w)
    ensures Split(w) == [w]
  {
    if w != [] {
      SplitSpaceFree(w[1..]);
      assert [w[0]] + w[1..] == w;
    }
  }

  lemma {:induction false} SplitAfterWord(w: string, t: string)
    requires SpaceFree(w)
    ensures Split(w + " " + t) == [w] + Split(t)
  {
    var s := w + " " + t;
    if w == [] {
      assert s[1..] == t;
    } else {
      assert s[1..] == w[1..] + " " + t;
      SplitAfterWord(w[1..], t);
      assert [w[0]] + w[1..] == w;
    }
  }

  /** Joining space-free parts and splitting again gives the parts back. */
  lemma {:induction false} SplitJoinSpace(parts: seq<string>)
    requires |parts| >= 1
    requires forall i :: 0 <= i < |parts| ==> SpaceFree(parts[i])
    ensures Split(JoinSpace(parts)) == parts
  {
    if |parts| == 1 {
      SplitSpaceFree(parts[0]);
    } else {
      SplitJoinSpace(parts[1..]);
      SplitAfterWord(parts[0], JoinSpace(parts[1..]));
    }
  }

  // ---------------------------------------------------------------------
  // The host's word list
  // ---------------------------------------------------------------------

  const MAX_WORDS := 80

  /** Three lowercase letters start at position i of t. */
  predicate LowerRunAt(t: string, i: int)
  {
    0 <= i && i + 3 <= |t| && IsLower(t[i]) && IsLower(t[i + 1]) && IsLower(t[i + 2])
  }

  /** Whether the unanchored pattern `[[:lower:]]{3,6}_?` finds a match in t,
      scanning from the left.  A token it accepts has at least three
      characters, so taking its last character is safe. */
  predicate MatchesWordPattern(t: string)
    ensures MatchesWordPattern(t) ==> |t| >= 3
  {
    |t| >= 3 && (LowerRunAt(t, 0) || MatchesWordPattern(t[1..]))
  }

  /** The pattern finds a match exactly when t has three lowercase letters
      in a row somewhere. */
  lemma {:induction false} WordPatternFindsRun(t: string)
    ensures MatchesWordPattern(t) <==> exists i :: LowerRunAt(t, i)
  {
    if |t| >= 3 {
      WordPatternFindsRun(t[1..]);
      if MatchesWordPattern(t[1..]) {
        var i :| LowerRunAt(t[1..], i);
        assert LowerRunAt(t, i + 1);
      }
      if i :| LowerRunAt(t, i) {
        if i > 0 {
          assert LowerRunAt(t[1..], i - 1);
        }
      }
    } else {
      if i :| LowerRunAt(t, i) {
        assert false;
      }
    }
  }

  /** The token shape the pattern spells out: three to six lowercase
      letters and at most one trailing underscore. */
  predicate WordShape(t: string)
  {
    var k := if |t| > 0 && t[|t| - 1] == '_' then t[..|t| - 1] else t;
    3 <= |k| <= 6 && AllLower(k)
  }

  /** Every token of that shape passes the pattern, but the pattern also
      lets through tokens far from it. */
  lemma WordPatternLooserThanShape(t: string)
    ensures WordShape(t) ==> MatchesWordPattern(t)
    ensures MatchesWordPattern("Xabcdefgh!") && !WordShape("Xabcdefgh!")
    ensures MatchesWordPattern("abc_abc_") && !WordShape("abc_abc_")
  {
    if WordShape(t) {
      assert LowerRunAt(t, 0);
    }
    assert LowerRunAt("Xabcdefgh!"[1..], 0);
    assert "Xabcdefgh!"[..9] != "Xabcdefgh!";
  }

  predicate Presolved(t: string) { |t| > 0 && t[|t| - 1] == '_' }

  /** The key a token is stored under: the token without one trailing `_`. */
  function WordKey(t: string): string
  {
    if Presolved(t) then t[..|t| - 1] else t
  }

  /** The guesser a token starts with: the host for a token ending in `_`. */
  function InitialGuesser(t: string, host: string): string
  {
    if Presolved(t) then host else ""
  }

  /** The map that storing the tokens one after another, in order, produces. */
  function WordsMapOf(tokens: seq<string>, host: string): map<string, string>
  {
    if tokens == [] then map[]
    else
      var last := tokens[|tokens| - 1];
      WordsMapOf(tokens[..|tokens| - 1], host)[WordKey(last) := InitialGuesser(last, host)]
  }

  /** Every word of the stored map is unsolved or solved by the host. */
  lemma {:induction false} WordsMapGuessers(tokens: seq<string>, host: string)
    ensures forall k :: k in WordsMapOf(tokens, host) ==> WordsMapOf(tokens, host)[k] == "" || WordsMapOf(tokens, host)[k] == host
  {
    if tokens != [] {
      WordsMapGuessers(tokens[..|tokens| - 1], host);
    }
  }

  /** Tokens without spaces give words without spaces. */
  lemma {:induction false} WordsMapKeysSpaceFree(tokens: seq<string>, host: string)
    requires forall i :: 0 <= i < |tokens| ==> SpaceFree(tokens[i])
    ensures forall k :: k in WordsMapOf(tokens, host) ==> SpaceFree(k)
  {
    if tokens != [] {
      var last := tokens[|tokens| - 1];
      WordsMapKeysSpaceFree(tokens[..|tokens| - 1], host);
      if Presolved(last) {
        assert forall j :: 0 <= j < |last| - 1 ==> last[..|last| - 1][j] == last[j];
      }
    }
  }

  /** The word map of a host's word list, or None when the list is refused.
      An accepted list gives at least one word, no word holds a space, and
      no word is solved by anyone but the host. */
  function ParseWords(words: string, host: string): (r: Option<map<string, string>>)
    ensures r.Some? ==> |r.value| >= 1 && forall k :: k in r.value ==> r.value[k] == "" || r.value[k] == host
    ensures r.Some? ==> forall k :: k in r.value ==> SpaceFree(k)
    ensures r.Some? ==> |Split(words)| <= MAX_WORDS
  {
    var tokens := Split(words);
    if |tokens| > MAX_WORDS then None
    else if forall i :: 0 <= i < |tokens| ==> MatchesWordPattern(tokens[i]) then
      WordsMapGuessers(tokens, host);
      WordsMapKeysSpaceFree(tokens, host);
      Some(WordsMapOf(tokens, host))
    else None
  }

  lemma StoreNext(tokens: seq<string>, i: nat, host: string)
    requires i < |tokens|
    ensures WordsMapOf(tokens[..i + 1], host) == WordsMapOf(tokens[..i], host)[WordKey(tokens[i]) := InitialGuesser(tokens[i], host)]
  {
    assert tokens[..i + 1][..i] == tokens[..i];
  }

  /** Builds the word map token by token; gives up at the first token the
      pattern rejects. */
  method MakeWordsMap(words: string, host: string) returns (r: Option<map<string, string>>)
    ensures r == ParseWords(words, host)
  {
    var tokens := Split(words);
    if |tokens| > MAX_WORDS {
      return None;
    }
    var m: map<string, string> := map[];
    var i := 0;
    while i < |tokens|
      invariant 0 <= i <= |tokens|
      invariant forall j :: 0 <= j < i ==> MatchesWordPattern(tokens[j])
      invariant m == WordsMapOf(tokens[..i], host)
    {
      var t := tokens[i];
      if !MatchesWordPattern(t) {
        return None;
      }
      StoreNext(tokens, i, host);
      if t[|t| - 1] == '_' {
        m := m[t[..|t| - 1] := host];
      } else {
        m := m[t := ""];
      }
      i := i + 1;
    }
    assert tokens[..i] == tokens;
    return Some(m);
  }

  /** The tokens with one trailing `_` taken off. */
  ghost function TokenKeys(tokens: seq<string>): set<string>
  {
    set i | 0 <= i < |tokens| :: WordKey(tokens[i])
  }

  /** The keys are exactly the tokens with one trailing `_` taken off. */
  lemma {:induction false} WordsMapKeys(tokens: seq<string>, host: string)
    ensures WordsMapOf(tokens, host).Keys == TokenKeys(tokens)
  {
    if tokens != [] {
      var last := |tokens| - 1;
      var init := tokens[..last];
      WordsMapKeys(init, host);
      var newKey := WordKey(tokens[last]);
      assert WordsMapOf(tokens, host).Keys == WordsMapOf(init, host).Keys + {newKey};
      TokenKeysSnoc(tokens);
    }
  }

  lemma TokenKeysSnoc(tokens: seq<string>)
    requires tokens != []
    ensures TokenKeys(tokens) == TokenKeys(tokens[..|tokens| - 1]) + {WordKey(tokens[|tokens| - 1])}
  {
    var last := |tokens| - 1;
    var init := tokens[..last];
    forall i | 0 <= i < last
      ensures WordKey(tokens[i]) in TokenKeys(init)
    {
      assert init[i] == tokens[i];
    }
    forall k | k in TokenKeys(init)
      ensures k in TokenKeys(tokens)
    {
      var i :| 0 <= i < |init| && k == WordKey(init[i]);
      assert tokens[i] == init[i];
    }
  }

  /** A key holds the guesser of the last token stored under it. */
  lemma {:induction false} WordsMapLastWins(tokens: seq<string>, host: string, j: int)
    requires 0 <= j < |tokens|
    requires forall k :: j < k < |tokens| ==> WordKey(tokens[k]) != WordKey(tokens[j])
    ensures WordKey(tokens[j]) in WordsMapOf(tokens, host)
    ensures WordsMapOf(tokens, host)[WordKey(tokens[j])] == InitialGuesser(tokens[j], host)
  {
    var last := |tokens| - 1;
    if j < last {
      var init := tokens[..last];
      assert init[j] == tokens[j];
      forall k | j < k < |init|
        ensures WordKey(init[k]) != WordKey(init[j])
      {
        assert init[k] == tokens[k];
      }
      WordsMapLastWins(init, host, j);
      assert WordKey(tokens[last]) != WordKey(tokens[j]);
    }
  }

  /** What the codec refuses: more than 80 tokens, or any token without a run
      of three lowercase letters (an empty token among them); otherwise it
      accepts, with a map that has at least one key. */
  lemma ParseWordsOutcome(words: string, host: string)
    ensures |Split(words)| > MAX_WORDS ==> ParseWords(words, host) == None
    ensures (exists i :: 0 <= i < |Split(words)| && !MatchesWordPattern(Split(words)[i]))
            ==> ParseWords(words, host) == None
    ensures |Split(words)| <= MAX_WORDS && (forall i :: 0 <= i < |Split(words)| ==> MatchesWordPattern(Split(words)[i]))
            ==> ParseWords(words, host).Some? && |ParseWords(words, host).value| >= 1
  {
  }

  /** The token a host writes for key k with guesser g: `_` marks a word
      the host has already solved. */
  function EncodeToken(k: string, g: string): string
  {
    if g == "" then k else k + "_"
  }

  /** The tokens for the keys of `order`, in that order. */
  function EncodeTokens(m: map<string, string>, order: seq<string>): seq<string>
    requires forall i :: 0 <= i < |order| ==> order[i] in m
  {
    if order == [] then []
    else
      var k := order[|order| - 1];
      EncodeTokens(m, order[..|order| - 1]) + [EncodeToken(k, m[k])]
  }

  /** `m` cut down to the keys of `order`. */
  function Restrict(m: map<string, string>, order: seq<string>): map<string, string>
    requires forall i :: 0 <= i < |order| ==> order[i] in m
  {
    if order == [] then map[]
    else
      var k := order[|order| - 1];
      Restrict(m, order[..|order| - 1])[k := m[k]]
  }

  lemma {:induction false} RestrictAgrees(m: map<string, string>, order: seq<string>)
    requires forall i :: 0 <= i < |order| ==> order[i] in m
    ensures forall k :: k in Restrict(m, order) <==> k in order
    ensures forall k :: k in Restrict(m, order) ==> Restrict(m, order)[k] == m[k]
  {
    if order != [] {
      var init := order[..|order| - 1];
      RestrictAgrees(m, init);
      assert order == init + [order[|order| - 1]];
    }
  }

  /** A map whose keys are three to six lowercase letters and whose words
      are unsolved or solved by the host: what a host can write down. */
  predicate HostWritable(m: map<string, string>, host: string)
  {
    forall k :: k in m ==> 3 <= |k| <= 6 && AllLower(k) && (m[k] == "" || m[k] == host)
  }

  /** An encoded token is stored under its key with its guesser. */
  lemma EncodeTokenReadsBack(k: string, g: string, host: string)
    requires 3 <= |k| && AllLower(k) && (g == "" || g == host)
    ensures WordKey(EncodeToken(k, g)) == k && InitialGuesser(EncodeToken(k, g), host) == g
  {
    assert IsLower(k[|k| - 1]);
    if g != "" {
      assert (k + "_")[..|k|] == k;
    }
  }

  /** Storing the encoded tokens gives the map cut down to their keys. */
  lemma {:induction false} WordsMapOfEncoded(m: map<string, string>, order: seq<string>, host: string)
    requires HostWritable(m, host)
    requires forall i :: 0 <= i < |order| ==> order[i] in m
    ensures |EncodeTokens(m, order)| == |order|
    ensures WordsMapOf(EncodeTokens(m, order), host) == Restrict(m, order)
  {
    if order != [] {
      var init := order[..|order| - 1];
      var k := order[|order| - 1];
      WordsMapOfEncoded(m, init, host);
      EncodeTokenReadsBack(k, m[k], host);
      var tokens := EncodeTokens(m, order);
      assert tokens[..|tokens| - 1] == EncodeTokens(m, init);
    }
  }

  /** One encoded token is space-free and of the token shape. */
  lemma EncodeTokenShaped(k: string, g: string)
    requires 3 <= |k| <= 6 && AllLower(k)
    ensures SpaceFree(EncodeToken(k, g)) && WordShape(EncodeToken(k, g))
  {
    assert ' ' !in k by {
      assert forall j :: 0 <= j < |k| ==> k[j] != ' ';
    }
    if g != "" {
      assert (k + "_")[..|k|] == k;
    }
  }

  /** Every encoded token is space-free and of the token shape. */
  lemma {:induction false} EncodedTokensWellShaped(m: map<string, string>, order: seq<string>, host: string)
    requires HostWritable(m, host)
    requires forall i :: 0 <= i < |order| ==> order[i] in m
    ensures |EncodeTokens(m, order)| == |order|
    ensures forall i :: 0 <= i < |order| ==> SpaceFree(EncodeTokens(m, order)[i]) && WordShape(EncodeTokens(m, order)[i])
  {
    if order != [] {
      var init := order[..|order| - 1];
      var k := order[|order| - 1];
      EncodedTokensWellShaped(m, init, host);
      EncodeTokenShaped(k, m[k]);
      assert EncodeTokens(m, order) == EncodeTokens(m, init) + [EncodeToken(k, m[k])];
    }
  }

  lemma ShapedTokensMatch(tokens: seq<string>)
    requires forall i :: 0 <= i < |tokens| ==> WordShape(tokens[i])
    ensures forall i :: 0 <= i < |tokens| ==> MatchesWordPattern(tokens[i])
  {
    forall i | 0 <= i < |tokens|
      ensures MatchesWordPattern(tokens[i])
    {
      WordPatternLooserThanShape(tokens[i]);
    }
  }

  /** Writing a host-writable map out as tokens in any order that lists its
      keys, and parsing the line back, gives the map again. */
  lemma ParseEncodedWords(m: map<string, string>, order: seq<string>, host: string)
    requires HostWritable(m, host)
    requires 1 <= |order| <= MAX_WORDS
    requires forall k :: k in order <==> k in m
    ensures ParseWords(JoinSpace(EncodeTokens(m, order)), host) == Some(m)
  {
    var tokens := EncodeTokens(m, order);
    EncodedTokensWellShaped(m, order, host);
    ShapedTokensMatch(tokens);
    SplitJoinSpace(tokens);
    WordsMapOfEncoded(m, order, host);
    RestrictAgrees(m, order);
    assert Restrict(m, order) == m;
  }

  // ---------------------------------------------------------------------
  // What a player sends
  // ---------------------------------------------------------------------

  /** The name pattern `^[a-zA-Z0-9]{1,10}$`.  A valid name holds no space,
      so it is one field of a line, and does not end in `_`, so it is never
      read as a disconnected roster entry or taken for the reveal marker. */
  predicate ValidName(s: string)
    ensures ValidName(s) ==> SpaceFree(s) && !MarkedDisconnected(s) && s != "_"
  {
    1 <= |s| <= 10 && AllAlnum(s)
  }

  /** A roster entry of a disconnected slot: it carries the same trailing
      `_` that marks a pre-solved word in a word list. */
  predicate MarkedDisconnected(entry: string) { Presolved(entry) }

  /** The player name a roster entry carries: the entry without that marker. */
  function EntryName(entry: string): string { WordKey(entry) }

  datatype Inbound = Guess(word: string) | GiveupToggle(gaveUp: bool) | Ignored

  const ATTEMPT_COMMAND := ":attempt "
  const GIVEUP_COMMAND := ":giveup"
  const UNGIVEUP_COMMAND := ":ungiveup"

  /** The number of lowercase letters s starts with. */
  function LowerPrefixLen(s: string): (n: nat)
    ensures n <= |s|
    ensures forall i :: 0 <= i < n ==> IsLower(s[i])
    ensures n < |s| ==> !IsLower(s[n])
  {
    if s != [] && IsLower(s[0]) then 1 + LowerPrefixLen(s[1..]) else 0
  }

  /** The dispatch of a player's message: the pattern `^:attempt ([a-z]{3,6})`
      first (greedy, so it captures up to six letters and ignores what
      follows), then the two exact toggle commands. */
  function Classify(msg: string): (m: Inbound)
    ensures m.Guess? ==> 3 <= |m.word| <= 6 && AllLower(m.word) && ATTEMPT_COMMAND + m.word <= msg
  {
    if ATTEMPT_COMMAND <= msg && LowerPrefixLen(msg[|ATTEMPT_COMMAND|..]) >= 3 then
      var rest := msg[|ATTEMPT_COMMAND|..];
      var n := LowerPrefixLen(rest);
      var word := rest[..if n < 6 then n else 6];
      assert ATTEMPT_COMMAND + word == msg[..|ATTEMPT_COMMAND| + |word|];
      Guess(word)
    else if msg == GIVEUP_COMMAND then GiveupToggle(true)
    else if msg == UNGIVEUP_COMMAND then GiveupToggle(false)
    else Ignored
  }

  /** A message is read as a guess of w exactly when it starts with
      ":attempt " and then w, w is three to six lowercase letters, and a w
      shorter than six is not followed by another lowercase letter. */
  lemma ClassifyGuessExactly(msg: string, w: string)
    ensures Classify(msg) == Guess(w) <==>
      && ATTEMPT_COMMAND + w <= msg
      && 3 <= |w| <= 6 && AllLower(w)
      && (|w| < 6 ==> |msg| == |ATTEMPT_COMMAND| + |w| || !IsLower(msg[|ATTEMPT_COMMAND| + |w|]))
  {
    var c := |ATTEMPT_COMMAND|;
    if ATTEMPT_COMMAND + w <= msg && 3 <= |w| <= 6 && AllLower(w)
       && (|w| < 6 ==> |msg| == c + |w| || !IsLower(msg[c + |w|]))
    {
      var rest := msg[c..];
      assert ATTEMPT_COMMAND <= msg;
      assert rest[..|w|] == w;
      var n := LowerPrefixLen(rest);
      assert forall i :: 0 <= i < |w| ==> rest[i] == w[i];
      assert n >= |w|;
      if |w| < 6 {
        assert n == |w|;
      }
    }
    if Classify(msg) == Guess(w) {
      var rest := msg[c..];
      var n := LowerPrefixLen(rest);
      assert w == rest[..if n < 6 then n else 6];
      if |w| < 6 && |msg| > c + |w| {
        assert msg[c + |w|] == rest[n];
      }
    }
  }

  /** What a client sends for a guess of a three-to-six letter word is read
      back as that guess; a key of any other shape can never be guessed. */
  lemma ClassifyClientGuess(w: string)
    ensures 3 <= |w| <= 6 && AllLower(w) ==> Classify(ATTEMPT_COMMAND + w) == Guess(w)
    ensures !(3 <= |w| <= 6 && AllLower(w)) ==> forall msg :: Classify(msg) != Guess(w)
  {
    ClassifyGuessExactly(ATTEMPT_COMMAND + w, w);
  }

  /** Exactly ":giveup" and ":ungiveup" toggle the flag, on and off; a
      message that is neither a guess nor one of the two is ignored. */
  lemma ClassifyToggleExactly(msg: string, b: bool)
    ensures Classify(msg) == GiveupToggle(b) <==> msg == (if b then GIVEUP_COMMAND else UNGIVEUP_COMMAND)
    ensures Classify(msg) == Ignored <==> !Classify(msg).Guess? && msg != GIVEUP_COMMAND && msg != UNGIVEUP_COMMAND
  {
    if msg == GIVEUP_COMMAND || msg == UNGIVEUP_COMMAND {
      assert msg[1] != ATTEMPT_COMMAND[1];
    }
  }

  // ---------------------------------------------------------------------
  // What the game sends
  // ---------------------------------------------------------------------

  datatype Event =
    | JoinNotice(name: string)
    | QuitNotice(name: string)
    | SolveNotice(word: string, guesser: string)
    | GiveupNotice(name: string, gaveUp: bool)
    | RevealNotice

  /** The control line announcing an event: it starts with `:` and, when
      the event carries a name or word, a space follows the command. */
  function EventLine(e: Event): (line: string)
    ensures |line| > 1 && line[0] == ':'
    ensures !e.RevealNotice? ==> ' ' in line
  {
    match e
    case JoinNotice(n) => ":join " + n
    case QuitNotice(n) => ":quit " + n
    case SolveNotice(w, g) => ":attempt " + w + " " + g
    case GiveupNotice(n, b) => (if b then ":giveup " else ":ungiveup ") + n
    case RevealNotice => ":allgiveup"
  }

  predicate SpaceFreeFields(e: Event)
  {
    match e
    case JoinNotice(n) => SpaceFree(n)
    case QuitNotice(n) => SpaceFree(n)
    case SolveNotice(w, g) => SpaceFree(w) && SpaceFree(g)
    case GiveupNotice(n, _) => SpaceFree(n)
    case RevealNotice => true
  }

  /** A reader of control lines, the receiving end of EventLine. */
  function ReadEventLine(line: string): Option<Event>
  {
    var f := Split(line);
    if |f| == 1 then
      if f[0] == ":allgiveup" then Some(RevealNotice) else None
    else if |f| == 2 then
      if f[0] == ":join" then Some(JoinNotice(f[1]))
      else if f[0] == ":quit" then Some(QuitNotice(f[1]))
      else if f[0] == ":giveup" then Some(GiveupNotice(f[1], true))
      else if f[0] == ":ungiveup" then Some(GiveupNotice(f[1], false))
      else None
    else if |f| == 3 && f[0] == ":attempt" then Some(SolveNotice(f[1], f[2]))
    else None
  }

  lemma SplitTwo(head: string, n: string)
    requires SpaceFree(head) && SpaceFree(n)
    ensures Split(head + " " + n) == [head, n]
  {
    SplitAfterWord(head, n);
    SplitSpaceFree(n);
  }

  lemma ReadsJoinLine(n: string)
    requires SpaceFree(n)
    ensures ReadEventLine(EventLine(JoinNotice(n))) == Some(JoinNotice(n))
  {
    SplitTwo(":join", n);
    assert EventLine(JoinNotice(n)) == ":join" + " " + n;
  }

  lemma ReadsQuitLine(n: string)
    requires SpaceFree(n)
    ensures ReadEventLine(EventLine(QuitNotice(n))) == Some(QuitNotice(n))
  {
    SplitTwo(":quit", n);
    assert EventLine(QuitNotice(n)) == ":quit" + " " + n;
  }

  lemma ReadsSolveLine(w: string, g: string)
    requires SpaceFree(w) && SpaceFree(g)
    ensures ReadEventLine(EventLine(SolveNotice(w, g))) == Some(SolveNotice(w, g))
  {
    SplitThree(":attempt", w, g);
    assert ":attempt " == ":attempt" + " ";
    assert EventLine(SolveNotice(w, g)) == ":attempt" + " " + w + " " + g;
  }

  lemma ReadsGiveupLine(n: string, b: bool)
    requires SpaceFree(n)
    ensures ReadEventLine(EventLine(GiveupNotice(n, b))) == Some(GiveupNotice(n, b))
  {
    var head := if b then ":giveup" else ":ungiveup";
    SplitTwo(head, n);
    assert EventLine(GiveupNotice(n, b)) == head + " " + n;
  }

  lemma SplitThree(head: string, w: string, g: string)
    requires SpaceFree(head) && SpaceFree(w) && SpaceFree(g)
    ensures Split(head + " " + w + " " + g) == [head, w, g]
  {
    var t := w + " " + g;
    SplitTwo(w, g);
    SplitAfterWord(head, t);
    calc {
      head + " " + w + " " + g;
      head + " " + (w + " " + g);
    }
  }

  /** Control lines about space-free names and words read back as the event
      they announce, so no two such events share a line. */
  lemma EventLineRoundTrip(e: Event)
    requires SpaceFreeFields(e)
    ensures ReadEventLine(EventLine(e)) == Some(e)
  {
    match e
    case JoinNotice(n) => ReadsJoinLine(n);
    case QuitNotice(n) => ReadsQuitLine(n);
    case SolveNotice(w, g) => ReadsSolveLine(w, g);
    case GiveupNotice(n, b) => ReadsGiveupLine(n, b);
    case RevealNotice => SplitSpaceFree(":allgiveup");
  }
}
