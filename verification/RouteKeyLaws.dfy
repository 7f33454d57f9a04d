/** Which routes share a key, and which never do. */
module RouteKeyLaws {
  import opened Wrappers
  import opened Seqs
  import opened RouteKeys

  /** Keys of one plain key are told apart by their API and listener, for the APIs given. */
  ghost predicate TellsApart(makers: Makers, apis: iset<string>) {
    && (forall plain, api, listener | api in apis :: makers.apiRoute(plain, api, listener) != plain)
    && (forall plain, api, listener, api', listener' |
         api in apis && api' in apis
             && makers.apiRoute(plain, api, listener) == makers.apiRoute(plain, api', listener') ::
         api == api' && listener == listener')
  }

  ghost function ApisOf(makers: Makers, routes: seq<Placed>): iset<string> {
    iset p | p in routes && Apart(makers, p) :: ApiOf(p)
  }

  /**
   * Two routes kept apart at all, at one method and path, share a key exactly
   * when one API serves both and, where that API's listeners are kept apart,
   * one listener does.
   */
  lemma SharedKeys(makers: Makers, routes: seq<Placed>, a: Placed, b: Placed)
    requires TellsApart(makers, ApisOf(makers, routes))
    requires a in routes && b in routes && Apart(makers, a) && At(makers, b, PlainOf(makers, a))
    ensures KeyOf(makers, routes, a).key == KeyOf(makers, routes, b).key
       <==> ApiOf(a) == ApiOf(b)
            && (SpelledApart(makers, routes, ApiAt(PlainOf(makers, a), ApiOf(a)))
            ==> a.route.listener == b.route.listener)
  {
    var plain := PlainOf(makers, a);
    assert At(makers, a, plain);
    assert ApiOf(a) in ApisOf(makers, routes) && ApiOf(b) in ApisOf(makers, routes);
    if ApiOf(a) != ApiOf(b) {
      assert SeveralApis(makers, routes, plain);
    }
  }

  /** Two APIs serving one method and path never share a key. */
  lemma DifferentApisNeverShare(makers: Makers, routes: seq<Placed>, a: Placed, b: Placed)
    requires TellsApart(makers, ApisOf(makers, routes))
    requires a in routes && b in routes && Apart(makers, a) && At(makers, b, PlainOf(makers, a))
    requires ApiOf(a) != ApiOf(b)
    ensures KeyOf(makers, routes, a).key != KeyOf(makers, routes, b).key
  {
    SharedKeys(makers, routes, a, b);
  }

  /** Two listeners of one API never share a key where the API sends the method and path to several targets. */
  lemma DifferentListenersNeverShare(makers: Makers, routes: seq<Placed>, a: Placed, b: Placed)
    requires TellsApart(makers, ApisOf(makers, routes))
    requires a in routes && b in routes && Apart(makers, a) && Of(makers, b, PlainOf(makers, a), ApiOf(a))
    requires ListenerOf(a) != ListenerOf(b)
    requires SeveralTargets(makers, routes, PlainOf(makers, a), ApiOf(a))
    ensures KeyOf(makers, routes, a).key != KeyOf(makers, routes, b).key
  {
    SharedKeys(makers, routes, a, b);
    assert Of(makers, a, PlainOf(makers, a), ApiOf(a));
    assert SeveralListeners(makers, routes, PlainOf(makers, a), ApiOf(a));
  }

  // ---- keeping the plain key ----

  /** A route kept apart at all keeps the plain key exactly when one API serves it and no listener tells it apart. */
  lemma PlainKept(makers: Makers, routes: seq<Placed>, a: Placed)
    requires TellsApart(makers, ApisOf(makers, routes))
    requires a in routes && Apart(makers, a)
    ensures KeyOf(makers, routes, a).key == PlainOf(makers, a)
       <==> !SeveralApis(makers, routes, PlainOf(makers, a))
            && (a.route.listener.None? || !SpelledApart(makers, routes, ApiAt(PlainOf(makers, a), ApiOf(a))))
  {
    assert ApiOf(a) in ApisOf(makers, routes);
  }

  /** No plain key holds the blank that joins a plain key and an API. */
  ghost predicate PlainsAreOneWord(makers: Makers, routes: seq<Placed>) {
    forall p | p in routes :: ' ' !in PlainOf(makers, p)
  }

  /** Without such a blank a pair is spelled like a pair to keep apart only when it is one. */
  lemma PairsAreSpelledApart(makers: Makers, routes: seq<Placed>, a: Placed)
    requires PlainsAreOneWord(makers, routes)
    requires a in routes && Apart(makers, a)
    ensures SpelledApart(makers, routes, ApiAt(PlainOf(makers, a), ApiOf(a)))
       <==> ListenersApart(makers, routes, PlainOf(makers, a), ApiOf(a))
  {
    var spelled := ApiAt(PlainOf(makers, a), ApiOf(a));
    if SpelledApart(makers, routes, spelled) {
      var b :| b in routes && Apart(makers, b) && ApiAt(PlainOf(makers, b), ApiOf(b)) == spelled
            && ListenersApart(makers, routes, PlainOf(makers, b), ApiOf(b));
      Associates(PlainOf(makers, a), " ", ApiOf(a));
      Associates(PlainOf(makers, b), " ", ApiOf(b));
      SameUpToMark(PlainOf(makers, a), " " + ApiOf(a), PlainOf(makers, b), " " + ApiOf(b), ' ');
      ConsTail(' ', ApiOf(a));
      ConsTail(' ', ApiOf(b));
    }
  }

  /** A method and path one API serves, through one listener or to one target, keeps the key it always had. */
  lemma OneApiOneListenerKeepsPlain(makers: Makers, routes: seq<Placed>, a: Placed)
    requires PlainsAreOneWord(makers, routes)
    requires a in routes && Apart(makers, a)
    requires !SeveralApis(makers, routes, PlainOf(makers, a))
    requires !ListenersApart(makers, routes, PlainOf(makers, a), ApiOf(a))
    ensures KeyOf(makers, routes, a) == RouteKey(PlainOf(makers, a), None, None)
  {
    PairsAreSpelledApart(makers, routes, a);
  }

  /** A route's key when every pair is told from every other: what `routeKeysOf` is documented to give. */
  ghost function MeantKey(makers: Makers, routes: seq<Placed>, placed: Placed): RouteKey {
    var plain := PlainOf(makers, placed);
    KeyWhen(makers, placed, SeveralApis(makers, routes, plain), ListenersApart(makers, routes, plain, ApiOf(placed)))
  }

  /**
   * A route gets the key it is meant to have unless it names a listener and its
   * own pair, not to be kept apart, is spelled like one that is.
   */
  lemma KeysAsMeant(makers: Makers, routes: seq<Placed>, a: Placed)
    requires TellsApart(makers, ApisOf(makers, routes))
    requires a in routes
    ensures KeyOf(makers, routes, a) == MeantKey(makers, routes, a)
       <==> !(Apart(makers, a) && a.route.listener.Some?
              && SpelledApart(makers, routes, ApiAt(PlainOf(makers, a), ApiOf(a)))
              && !ListenersApart(makers, routes, PlainOf(makers, a), ApiOf(a)))
  {
    if Apart(makers, a) {
      assert ApiOf(a) in ApisOf(makers, routes);
      var plain := PlainOf(makers, a);
      if ListenersApart(makers, routes, plain, ApiOf(a)) {
        assert SpelledApart(makers, routes, ApiAt(plain, ApiOf(a)));
      }
    }
  }

  const PLAIN_MAKERS := Makers((verb: string, path: string) => verb + ":" + path, SpellApiRoute)

  function Served(path: string, api: string, listener: string, target: string): Placed {
    Placed(Route("GET", path, None, Some(api), None, Some(listener), target), 0)
  }

  const CLASHING := [
    Served("/a", "b c", "HTTP", "one"),
    Served("/a", "b c", "HTTPS", "two"),
    Served("/a b", "c", "HTTP", "same"),
    Served("/a b", "c", "HTTPS", "same")]

  /** A pair spelled like one whose listeners are apart has its own told apart too. */
  lemma SpelledAlike(makers: Makers, routes: seq<Placed>, a: Placed, b: Placed, c: Placed)
    requires a in routes && Apart(makers, a) && b in routes && Of(makers, b, PlainOf(makers, a), ApiOf(a))
    requires ListenerOf(a) != ListenerOf(b) && TargetOf(a) != TargetOf(b)
    requires Apart(makers, c) && c.route.listener.Some?
    requires ApiAt(PlainOf(makers, c), ApiOf(c)) == ApiAt(PlainOf(makers, a), ApiOf(a))
    ensures KeyOf(makers, routes, c).key == makers.apiRoute(PlainOf(makers, c), ApiOf(c), c.route.listener)
  {
    assert Of(makers, a, PlainOf(makers, a), ApiOf(a));
    assert ListenersApart(makers, routes, PlainOf(makers, a), ApiOf(a));
    assert SpelledApart(makers, routes, ApiAt(PlainOf(makers, c), ApiOf(c)));
  }

  lemma ClashingPlains()
    ensures PlainOf(PLAIN_MAKERS, CLASHING[0]) == PlainOf(PLAIN_MAKERS, CLASHING[1]) == "GET:/a"
    ensures PlainOf(PLAIN_MAKERS, CLASHING[2]) == PlainOf(PLAIN_MAKERS, CLASHING[3]) == "GET:/a b"
    ensures ApiAt("GET:/a", "b c") == ApiAt("GET:/a b", "c")
  {
  }

  /** The listeners of the pair spelled with a blank are not to be kept apart. */
  lemma ClashingTogether()
    ensures !ListenersApart(PLAIN_MAKERS, CLASHING, "GET:/a b", "c")
  {
    ClashingPlains();
    forall p | p in CLASHING && Of(PLAIN_MAKERS, p, "GET:/a b", "c") ensures TargetOf(p) == (0, "same") {
      assert p == CLASHING[0] || p == CLASHING[1] || p == CLASHING[2] || p == CLASHING[3];
      assert |"GET:/a"| != |"GET:/a b"|;
    }
  }

  /**
   * Two listeners sending a path with a blank in it to one target are told apart
   * because another API's pair is spelled alike.
   */
  lemma BlankTellsListenersApart()
    ensures !ListenersApart(PLAIN_MAKERS, CLASHING, "GET:/a b", "c")
    ensures KeyOf(PLAIN_MAKERS, CLASHING, CLASHING[2]).key == SpellApiRoute("GET:/a b", "c", Some("HTTP"))
    ensures KeyOf(PLAIN_MAKERS, CLASHING, CLASHING[3]).key == SpellApiRoute("GET:/a b", "c", Some("HTTPS"))
  {
    ClashingTogether();
    ClashingPlains();
    assert |"HTTP"| != |"HTTPS"|;
    assert "one"[0] != "two"[0];
    assert CLASHING[0] in CLASHING && CLASHING[1] in CLASHING;
    SpelledAlike(PLAIN_MAKERS, CLASHING, CLASHING[0], CLASHING[1], CLASHING[2]);
    SpelledAlike(PLAIN_MAKERS, CLASHING, CLASHING[0], CLASHING[1], CLASHING[3]);
  }

  // ---- how keys are really spelled ----

  /** A key of one API at a plain key, with the listener where one is named. */
  function SpellApiRoute(plain: string, api: string, listener: Option<string>): string {
    plain + "@api:" + api + (if listener.None? then "" else "@listener:" + listener.value)
  }

  /** The spelling tells apart any APIs whose names hold no `@`. */
  lemma SpellingTellsApart(http: (string, string) -> string, apis: iset<string>)
    requires forall api | api in apis :: '@' !in api
    ensures TellsApart(Makers(http, SpellApiRoute), apis)
  {
    forall plain: string, api: string, listener: Option<string>, api': string, listener': Option<string> |
      api in apis && api' in apis && SpellApiRoute(plain, api, listener) == SpellApiRoute(plain, api', listener')
      ensures api == api' && listener == listener'
    {
      var tail := if listener.None? then "" else "@listener:" + listener.value;
      var tail' := if listener'.None? then "" else "@listener:" + listener'.value;
      var skip := |plain| + |"@api:"|;
      assert SpellApiRoute(plain, api, listener)[skip..] == api + tail;
      assert SpellApiRoute(plain, api', listener')[skip..] == api' + tail';
      SameUpToMark(api, tail, api', tail', '@');
      if listener.Some? && listener'.Some? {
        assert tail[|"@listener:"|..] == listener.value && tail'[|"@listener:"|..] == listener'.value;
      }
    }
  }

  // ---- order ----

  /** A route's key depends on which routes there are, not on their order or how often each is given. */
  lemma KeysIgnoreOrder(makers: Makers, routes: seq<Placed>, others: seq<Placed>, placed: Placed)
    requires forall p :: p in routes <==> p in others
    ensures KeyOf(makers, routes, placed) == KeyOf(makers, others, placed)
  {
    SharedWithin(makers, routes, others);
    SharedWithin(makers, others, routes);
  }

  /** What is shared among some routes is shared among more. */
  lemma SharedWithin(makers: Makers, routes: seq<Placed>, more: seq<Placed>)
    requires forall p :: p in routes ==> p in more
    ensures forall plain :: SeveralApis(makers, routes, plain) ==> SeveralApis(makers, more, plain)
    ensures forall spelled :: SpelledApart(makers, routes, spelled) ==> SpelledApart(makers, more, spelled)
  {
    forall spelled | SpelledApart(makers, routes, spelled) ensures SpelledApart(makers, more, spelled) {
      var a :| a in routes && Apart(makers, a) && ApiAt(PlainOf(makers, a), ApiOf(a)) == spelled
            && ListenersApart(makers, routes, PlainOf(makers, a), ApiOf(a));
      assert ListenersApart(makers, more, PlainOf(makers, a), ApiOf(a));
    }
  }

  ghost function KeysOf(makers: Makers, routes: seq<Placed>): seq<RouteKey> {
    seq(|routes|, i requires 0 <= i < |routes| => KeyOf(makers, routes, routes[i]))
  }

  /** Permuting the routes permutes their keys. */
  lemma PermutingRoutesPermutesKeys(makers: Makers, routes: seq<Placed>, order: seq<nat>, permuted: seq<Placed>)
    requires |order| == |routes| == |permuted|
    requires forall i | 0 <= i < |order| :: order[i] < |routes|
    requires forall j | 0 <= j < |routes| :: j in order
    requires forall i | 0 <= i < |order| :: permuted[i] == routes[order[i]]
    ensures forall i | 0 <= i < |order| :: KeysOf(makers, permuted)[i] == KeysOf(makers, routes)[order[i]]
  {
    forall p ensures p in routes <==> p in permuted {
      if p in routes {
        var j :| 0 <= j < |routes| && routes[j] == p;
        assert j in order;
        var i :| 0 <= i < |order| && order[i] == j;
        assert permuted[i] == p;
      }
    }
    forall i | 0 <= i < |order| ensures KeysOf(makers, permuted)[i] == KeysOf(makers, routes)[order[i]] {
      KeysIgnoreOrder(makers, routes, permuted, permuted[i]);
    }
  }
}
