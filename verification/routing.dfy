/** The websocket path and what it asks for: host a co-operative or a
    competitive game under a player name, or join one of either kind by its
    code.  The whole path must match; anything else is a failure. */
module Routing {
  import opened Wire

  /** `fail`: the path was not understood.  `isCoop`: the game is
      co-operative.  `isHost`: host a game, and `data` is the host's name;
      otherwise join one, and `data` is the game's code. */
  datatype Route = Route(fail: bool, isCoop: bool, isHost: bool, data: string)

  const ROOT := "/sixletters/ws/"
  const HOST_COOP := "hostcoop/"
  const HOST_COMP := "hostcomp/"
  const JOIN := "join/"

  const Failed := Route(true, false, false, "")

  /** A game code: 5 to 8 letters and digits. */
  predicate ValidCode(s: string)
  {
    5 <= |s| <= 8 && AllAlnum(s)
  }

  /** What a path asks for. */
  function ParseUrl(url: string): (r: Route)
    ensures r.fail ==> r == Failed
    ensures !r.fail ==> if r.isHost then ValidName(r.data) else ValidCode(r.data)
    ensures !r.fail ==> ROOT <= url && |r.data| < |url|
  {
    if !(ROOT <= url) then Failed
    else
      var rest := url[|ROOT|..];
      if HOST_COOP <= rest && ValidName(rest[|HOST_COOP|..]) then Route(false, true, true, rest[|HOST_COOP|..])
      else if HOST_COMP <= rest && ValidName(rest[|HOST_COMP|..]) then Route(false, false, true, rest[|HOST_COMP|..])
      else if JOIN <= rest && |rest| > |JOIN| && rest[|JOIN|] == 'c' && ValidCode(rest[|JOIN| + 1..]) then Route(false, true, false, rest[|JOIN| + 1..])
      else if JOIN <= rest && |rest| > |JOIN| && rest[|JOIN|] == 'm' && ValidCode(rest[|JOIN| + 1..]) then Route(false, false, false, rest[|JOIN| + 1..])
      else Failed
  }

  /** A route that some path produces. */
  predicate WellShaped(r: Route)
  {
    !r.fail && if r.isHost then ValidName(r.data) else ValidCode(r.data)
  }

  /** The path that asks for a route. */
  function UrlOf(r: Route): string
  {
    ROOT + (if r.isHost then (if r.isCoop then HOST_COOP else HOST_COMP) + r.data
            else JOIN + (if r.isCoop then "c" else "m") + r.data)
  }

  /** Every well-shaped route is asked for by its path. */
  lemma ParseUrlOf(r: Route)
    requires WellShaped(r)
    ensures ParseUrl(UrlOf(r)) == r
  {
    var url := UrlOf(r);
    assert ROOT <= url;
    var rest := url[|ROOT|..];
    if r.isHost {
      var tag := if r.isCoop then HOST_COOP else HOST_COMP;
      assert rest == tag + r.data;
      assert rest[|tag|..] == r.data;
      assert rest[6] == tag[6];
    } else {
      var tag := if r.isCoop then "c" else "m";
      assert rest == JOIN + tag + r.data;
      assert rest[0] == 'j' && rest[|JOIN|] == tag[0];
      assert rest[|JOIN| + 1..] == r.data;
    }
  }

  /** Every path that does not fail is exactly the path of its route, so
      the accepted paths are the paths of the well-shaped routes. */
  lemma UrlOfParse(url: string)
    requires !ParseUrl(url).fail
    ensures WellShaped(ParseUrl(url)) && UrlOf(ParseUrl(url)) == url
  {
    var rest := url[|ROOT|..];
    assert url == ROOT + rest;
    var r := ParseUrl(url);
    if r.isHost {
      var tag := if r.isCoop then HOST_COOP else HOST_COMP;
      assert rest == tag + rest[|tag|..];
    } else {
      assert rest == JOIN + [rest[|JOIN|]] + rest[|JOIN| + 1..];
    }
  }

  /** A path outside the root, or with nothing after a known action,
      fails. */
  lemma ParseUrlRejects(url: string, tail: string)
    ensures !(ROOT <= url) ==> ParseUrl(url).fail
    ensures ParseUrl(ROOT + HOST_COOP).fail && ParseUrl(ROOT + JOIN + "c").fail
    ensures |tail| > 10 ==> ParseUrl(ROOT + HOST_COOP + tail).fail
  {
    assert (ROOT + HOST_COOP)[|ROOT|..] == HOST_COOP;
    assert (ROOT + JOIN + "c")[|ROOT|..] == JOIN + "c";
    if |tail| > 10 {
      var rest := (ROOT + HOST_COOP + tail)[|ROOT|..];
      assert rest == HOST_COOP + tail;
      assert rest[|HOST_COOP|..] == tail;
      assert !(HOST_COMP <= rest) by {
        assert rest[6] != HOST_COMP[6];
      }
    }
  }
}
