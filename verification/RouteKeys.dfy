/**
 * How the routes of a repository's deployments are keyed apart (`groupBy`,
 * `routeKeysOf` and the loop that hands the keys out, in `deployed-functions.ts`).
 */
module RouteKeys {
  import opened Wrappers
  import opened Seqs

  /** What the deployment reader says of a route, and what it reaches. */
  datatype Route = Route(
    verb: string,
    path: string,
    ownKey: Option<string>,
    api: Option<string>,
    apiAddress: Option<string>,
    listener: Option<string>,
    target: string)

  /** A route, with what it reaches told apart from what another deployment reaches. */
  datatype Placed = Placed(route: Route, deployment: nat)

  datatype RouteKey = RouteKey(key: string, apiAddress: Option<string>, listener: Option<string>)

  /** How keys are spelled: of a method and path, and of one API at a plain key. */
  datatype Makers = Makers(http: (string, string) -> string, apiRoute: (string, string, Option<string>) -> string)

  // ---- what a route is keyed by ----

  function PlainOf(makers: Makers, placed: Placed): string {
    makers.http(placed.route.verb, placed.route.path)
  }

  /** A key of the route's own, when it has one its method and path do not spell. */
  function OwnKeyOf(makers: Makers, placed: Placed): Option<string> {
    if placed.route.ownKey.Some? && placed.route.ownKey.value != PlainOf(makers, placed) then placed.route.ownKey
    else None
  }

  function ApiIdOf(placed: Placed): Option<string> {
    if placed.route.api.Some? then placed.route.api else placed.route.apiAddress
  }

  /** Routes that are kept apart by their API at all. */
  predicate Apart(makers: Makers, placed: Placed) {
    OwnKeyOf(makers, placed).None? && ApiIdOf(placed).Some?
  }

  function ApiOf(placed: Placed): string {
    ApiIdOf(placed).GetOr("")
  }

  function ListenerOf(placed: Placed): string {
    placed.route.listener.GetOr("")
  }

  function TargetOf(placed: Placed): (nat, string) {
    (placed.deployment, placed.route.target)
  }

  function ApiAt(plain: string, api: string): string {
    plain + " " + api
  }

  // ---- which pairs are shared ----

  ghost predicate At(makers: Makers, placed: Placed, plain: string) {
    Apart(makers, placed) && PlainOf(makers, placed) == plain
  }

  ghost predicate Of(makers: Makers, placed: Placed, plain: string, api: string) {
    At(makers, placed, plain) && ApiOf(placed) == api
  }

  /** More than one API serves a plain key. */
  ghost predicate SeveralApis(makers: Makers, routes: seq<Placed>, plain: string) {
    exists a, b :: a in routes && b in routes && At(makers, a, plain) && At(makers, b, plain) && ApiOf(a) != ApiOf(b)
  }

  ghost predicate SeveralListeners(makers: Makers, routes: seq<Placed>, plain: string, api: string) {
    exists a, b :: a in routes && b in routes && Of(makers, a, plain, api) && Of(makers, b, plain, api)
      && ListenerOf(a) != ListenerOf(b)
  }

  ghost predicate SeveralTargets(makers: Makers, routes: seq<Placed>, plain: string, api: string) {
    exists a, b :: a in routes && b in routes && Of(makers, a, plain, api) && Of(makers, b, plain, api)
      && TargetOf(a) != TargetOf(b)
  }

  /** One API's listeners send a plain key to different targets. */
  ghost predicate ListenersApart(makers: Makers, routes: seq<Placed>, plain: string, api: string) {
    SeveralListeners(makers, routes, plain, api) && SeveralTargets(makers, routes, plain, api)
  }

  /** Some pair spelled this way has listeners to keep apart. */
  ghost predicate SpelledApart(makers: Makers, routes: seq<Placed>, spelled: string) {
    exists a :: a in routes && Apart(makers, a) && ApiAt(PlainOf(makers, a), ApiOf(a)) == spelled
             && ListenersApart(makers, routes, PlainOf(makers, a), ApiOf(a))
  }

  /** A route's key, given whether its plain key and its API's listeners are shared. */
  function KeyWhen(makers: Makers, placed: Placed, byApis: bool, byListeners: bool): RouteKey {
    var own := OwnKeyOf(makers, placed);
    var plain := PlainOf(makers, placed);
    if own.Some? then RouteKey(own.value, None, None)
    else if ApiIdOf(placed).None? then RouteKey(plain, None, None)
    else
      var listener := if byListeners then placed.route.listener else None;
      if !byApis && listener.None? then RouteKey(plain, None, None)
      else
        RouteKey(
          makers.apiRoute(plain, ApiOf(placed), listener),
          if placed.route.api.None? then ApiIdOf(placed) else None,
          listener)
  }

  ghost function KeyOf(makers: Makers, routes: seq<Placed>, placed: Placed): RouteKey {
    var plain := PlainOf(makers, placed);
    KeyWhen(makers, placed, SeveralApis(makers, routes, plain),
        SpelledApart(makers, routes, ApiAt(plain, ApiOf(placed))))
  }

  // ---- grouping ----

  /** The items of one group, in the order they came. */
  function Having<T, K(==)>(items: seq<T>, keyOf: T -> K, key: K): seq<T> {
    if |items| == 0 then []
    else
      var rest := Having(items[..|items| - 1], keyOf, key);
      if keyOf(items[|items| - 1]) == key then rest + [items[|items| - 1]] else rest
  }

  lemma {:induction false} HavingHolds<T, K>(items: seq<T>, keyOf: T -> K, key: K)
    ensures forall x :: x in Having(items, keyOf, key) <==> x in items && keyOf(x) == key
  {
    if |items| > 0 {
      var init := items[..|items| - 1];
      HavingHolds(init, keyOf, key);
      assert items == init + [items[|items| - 1]];
    }
  }

  /** One more item goes to its key's group, a new one where there is none yet. */
  lemma GroupsMore<T(!new), K(!new)>(items: seq<T>, keyOf: T -> K, keys: seq<K>, groups: map<K, seq<T>>, item: T)
    requires Groups(items, keyOf, keys, groups)
    ensures var key := keyOf(item);
            Groups(
              items + [item],
              keyOf,
              if key in groups then keys else keys + [key],
              groups[key := (if key in groups then groups[key] else []) + [item]])
  {
    var key := keyOf(item);
    var more := items + [item];
    assert more[..|items|] == items && item in more;
    if key !in groups {
      HavingNone(items, keyOf, key);
    }
    forall k ensures Having(more, keyOf, k)
      == if k == key then Having(items, keyOf, k) + [item] else Having(items, keyOf, k) {
    }
  }

  lemma {:induction false} HavingNone<T(!new), K>(items: seq<T>, keyOf: T -> K, key: K)
    requires forall x :: x in items ==> keyOf(x) != key
    ensures |Having(items, keyOf, key)| == 0
  {
    if |items| > 0 {
      HavingNone(items[..|items| - 1], keyOf, key);
    }
  }

  /** The items of a list by their keys, each key once: what a `Map` filled in a loop holds. */
  ghost predicate Groups<T(!new), K(!new)>(items: seq<T>, keyOf: T -> K, keys: seq<K>, groups: map<K, seq<T>>) {
    && NoRepeats(keys)
    && (forall k :: k in keys <==> k in groups)
    && (forall k :: k in groups ==> groups[k] == Having(items, keyOf, k))
    && (forall k :: k in groups <==> exists x :: x in items && keyOf(x) == k)
  }

  method GroupBy<T(!new), K(==, !new)>(items: seq<T>, keyOf: T -> K) returns (keys: seq<K>, groups: map<K, seq<T>>)
    ensures Groups(items, keyOf, keys, groups)
  {
    keys, groups := [], map[];
    for i := 0 to |items|
      invariant Groups(items[..i], keyOf, keys, groups)
    {
      var key := keyOf(items[i]);
      ghost var before := items[..i];
      TakeMore(items, i);
      GroupsMore(before, keyOf, keys, groups, items[i]);
      if key !in groups {
        keys := keys + [key];
      }
      groups := groups[key := (if key in groups then groups[key] else []) + [items[i]]];
    }
    assert items[..|items|] == items;
  }

  /** There is more than one group exactly when two items differ in their key. */
  lemma SeveralGroups<T(!new), K(!new)>(items: seq<T>, keyOf: T -> K, keys: seq<K>, groups: map<K, seq<T>>)
    requires Groups(items, keyOf, keys, groups)
    ensures |keys| > 1 <==> exists a, b :: a in items && b in items && keyOf(a) != keyOf(b)
  {
    if |keys| > 1 {
      assert keys[0] in keys && keys[1] in keys;
      var a :| a in items && keyOf(a) == keys[0];
      var b :| b in items && keyOf(b) == keys[1];
      assert keyOf(a) != keyOf(b);
    }
    if a, b :| a in items && b in items && keyOf(a) != keyOf(b) {
      assert keyOf(a) in groups && keyOf(b) in groups;
      assert keyOf(a) in keys && keyOf(b) in keys;
    }
  }

  /** The values a list takes are several exactly when two of its items differ in theirs. */
  lemma SeveralValues<T(!new), K(!new)>(items: seq<T>, valueOf: T -> K, values: set<K>)
    requires forall v :: v in values <==> exists x :: x in items && valueOf(x) == v
    ensures |values| > 1 <==> exists a, b :: a in items && b in items && valueOf(a) != valueOf(b)
  {
    if |values| > 1 {
      var v :| v in values;
      assert |values - {v}| > 0;
      var w :| w in values - {v};
      var a :| a in items && valueOf(a) == v;
      var b :| b in items && valueOf(b) == w;
      assert valueOf(a) != valueOf(b);
    }
    if a, b :| a in items && b in items && valueOf(a) != valueOf(b) {
      assert {valueOf(a), valueOf(b)} <= values;
      SubsetSize({valueOf(a), valueOf(b)}, values);
    }
  }

  // ---- the keys ----

  /** The pair of sets the first half of the reading fills. */
  method SharedOf(makers: Makers, routes: seq<Placed>) returns (byApis: set<string>, byListeners: set<string>)
    ensures forall plain :: plain in byApis <==> SeveralApis(makers, routes, plain)
    ensures forall spelled :: spelled in byListeners <==> SpelledApart(makers, routes, spelled)
  {
    byApis, byListeners := {}, {};
    var apart := FilterApart(makers, routes);
    var plains, serving := GroupBy(apart, p => PlainOf(makers, p));
    for i := 0 to |plains|
      invariant forall plain :: plain in byApis <==> plain in plains[..i] && SeveralApis(makers, routes, plain)
      invariant forall s :: s in byListeners <==> SpelledAmong(makers, routes, plains[..i], s)
    {
      var plain := plains[i];
      assert plain in serving;
      ServingAre(makers, routes, apart, plains, serving, plain);
      var severalApis, found := SharedAt(makers, routes, plain, serving[plain]);
      if severalApis {
        byApis := byApis + {plain};
      }
      byListeners := byListeners + found;
      TakeMore(plains, i);
      SpelledAmongMore(makers, routes, plains[..i], plain);
    }
    assert plains[..|plains|] == plains;
    AllPlainsServed(makers, routes, apart, plains, serving);
  }

  /** Some API at a plain key, spelled this way with it, has listeners to keep apart. */
  ghost predicate SpelledAt(makers: Makers, routes: seq<Placed>, plain: string, spelled: string) {
    exists a :: a in routes && At(makers, a, plain) && ApiAt(plain, ApiOf(a)) == spelled
             && ListenersApart(makers, routes, plain, ApiOf(a))
  }

  ghost predicate SpelledAmong(makers: Makers, routes: seq<Placed>, plains: seq<string>, spelled: string) {
    exists plain :: plain in plains && SpelledAt(makers, routes, plain, spelled)
  }

  lemma SpelledAmongMore(makers: Makers, routes: seq<Placed>, plains: seq<string>, plain: string)
    ensures forall s :: SpelledAmong(makers, routes, plains + [plain], s)
                   <==> SpelledAmong(makers, routes, plains, s) || SpelledAt(makers, routes, plain, s)
  {
    forall s | SpelledAt(makers, routes, plain, s) ensures SpelledAmong(makers, routes, plains + [plain], s) {
      assert plain in plains + [plain];
    }
  }

  method FilterApart(makers: Makers, routes: seq<Placed>) returns (apart: seq<Placed>)
    ensures forall p :: p in apart <==> p in routes && Apart(makers, p)
  {
    apart := [];
    for i := 0 to |routes|
      invariant forall p :: p in apart <==> p in routes[..i] && Apart(makers, p)
    {
      assert routes[..i + 1] == routes[..i] + [routes[i]];
      if Apart(makers, routes[i]) {
        apart := apart + [routes[i]];
      }
    }
    assert routes[..|routes|] == routes;
  }

  lemma ServingAre(
      makers: Makers, routes: seq<Placed>, apart: seq<Placed>, plains: seq<string>, serving: map<string, seq<Placed>>,
      plain: string)
    requires forall p :: p in apart <==> p in routes && Apart(makers, p)
    requires Groups(apart, p => PlainOf(makers, p), plains, serving) && plain in serving
    ensures forall p :: p in serving[plain] <==> p in routes && At(makers, p, plain)
  {
    HavingHolds(apart, p => PlainOf(makers, p), plain);
  }

  /** Every plain key with something to keep apart is among the groups. */
  lemma AllPlainsServed(
      makers: Makers, routes: seq<Placed>, apart: seq<Placed>, plains: seq<string>, serving: map<string, seq<Placed>>)
    requires forall p :: p in apart <==> p in routes && Apart(makers, p)
    requires Groups(apart, p => PlainOf(makers, p), plains, serving)
    ensures forall plain :: SeveralApis(makers, routes, plain) ==> plain in plains
    ensures forall s :: SpelledApart(makers, routes, s) <==> SpelledAmong(makers, routes, plains, s)
  {
    forall a | a in routes && Apart(makers, a) ensures PlainOf(makers, a) in plains {
      assert a in apart;
      assert PlainOf(makers, a) in serving;
    }
    forall s | SpelledApart(makers, routes, s) ensures SpelledAmong(makers, routes, plains, s) {
      var a :| a in routes && Apart(makers, a) && ApiAt(PlainOf(makers, a), ApiOf(a)) == s
            && ListenersApart(makers, routes, PlainOf(makers, a), ApiOf(a));
      assert SpelledAt(makers, routes, PlainOf(makers, a), s);
    }
  }

  /** What one plain key's routes have to be kept apart by. */
  method SharedAt(makers: Makers, ghost routes: seq<Placed>, plain: string, serving: seq<Placed>)
    returns (severalApis: bool, found: set<string>)
    requires forall p :: p in serving <==> p in routes && At(makers, p, plain)
    ensures severalApis <==> SeveralApis(makers, routes, plain)
    ensures forall s :: s in found <==> SpelledAt(makers, routes, plain, s)
  {
    var apis, byApi := GroupBy(serving, ApiOf);
    SeveralGroups(serving, ApiOf, apis, byApi);
    severalApis := |apis| > 1;
    found := {};
    for i := 0 to |apis|
      invariant AreApartAmong(makers, routes, plain, apis[..i], found)
    {
      var api := apis[i];
      OfOneApi(makers, routes, plain, serving, apis, byApi, i, found);
      var apart := TellListenersApart(makers, routes, plain, api, byApi[api]);
      if apart {
        found := found + {ApiAt(plain, api)};
      }
    }
    assert apis[..|apis|] == apis;
    SpelledIsApartAmong(makers, routes, plain, serving, apis, byApi, found);
  }

  /** Each API's group holds its routes at the plain key, and adds what keeps its listeners apart. */
  lemma OfOneApi(makers: Makers, routes: seq<Placed>, plain: string, serving: seq<Placed>,
                 apis: seq<string>, byApi: map<string, seq<Placed>>, i: nat, found: set<string>)
    requires forall p :: p in serving <==> p in routes && At(makers, p, plain)
    requires Groups(serving, ApiOf, apis, byApi) && i < |apis|
    requires AreApartAmong(makers, routes, plain, apis[..i], found)
    ensures apis[i] in byApi && forall p :: p in byApi[apis[i]] <==> p in routes && Of(makers, p, plain, apis[i])
    ensures AreApartAmong(
              makers, routes, plain, apis[..i + 1],
              if ListenersApart(makers, routes, plain, apis[i]) then found + {ApiAt(plain, apis[i])} else found)
  {
    assert apis[i] in apis;
    HavingHolds(serving, ApiOf, apis[i]);
    TakeMore(apis, i);
    ApartAmongMore(makers, routes, plain, apis[..i], apis[i]);
  }

  /** The APIs of a plain key's routes are all among the groups. */
  lemma SpelledIsApartAmong(makers: Makers, routes: seq<Placed>, plain: string, serving: seq<Placed>,
                            apis: seq<string>, byApi: map<string, seq<Placed>>, found: set<string>)
    requires forall p :: p in serving <==> p in routes && At(makers, p, plain)
    requires Groups(serving, ApiOf, apis, byApi) && AreApartAmong(makers, routes, plain, apis, found)
    ensures forall s :: s in found <==> SpelledAt(makers, routes, plain, s)
  {
    forall s ensures SpelledAt(makers, routes, plain, s) <==> ApartAmong(makers, routes, plain, apis, s) {
      if SpelledAt(makers, routes, plain, s) {
        var a :| a in routes && At(makers, a, plain) && ApiAt(plain, ApiOf(a)) == s
              && ListenersApart(makers, routes, plain, ApiOf(a));
        assert ApiOf(a) in byApi;
      }
    }
  }

  /** One of these APIs, spelled this way at a plain key, has listeners to keep apart. */
  ghost predicate ApartAmong(makers: Makers, routes: seq<Placed>, plain: string, apis: seq<string>, spelled: string) {
    exists api :: api in apis && ApiAt(plain, api) == spelled && ListenersApart(makers, routes, plain, api)
  }

  ghost predicate AreApartAmong(
      makers: Makers, routes: seq<Placed>, plain: string, apis: seq<string>, found: set<string>) {
    forall s :: s in found <==> ApartAmong(makers, routes, plain, apis, s)
  }

  lemma ApartAmongMore(makers: Makers, routes: seq<Placed>, plain: string, apis: seq<string>, api: string)
    ensures forall s :: ApartAmong(makers, routes, plain, apis + [api], s)
                   <==> ApartAmong(makers, routes, plain, apis, s)
                        || (ApiAt(plain, api) == s && ListenersApart(makers, routes, plain, api))
  {
    assert api in apis + [api];
  }

  method TellListenersApart(makers: Makers, ghost routes: seq<Placed>, plain: string, api: string, ofApi: seq<Placed>)
    returns (apart: bool)
    requires forall p :: p in ofApi <==> p in routes && Of(makers, p, plain, api)
    ensures apart <==> ListenersApart(makers, routes, plain, api)
  {
    var listeners, byListener := GroupBy(ofApi, ListenerOf);
    SeveralGroups(ofApi, ListenerOf, listeners, byListener);
    var targets := set p | p in ofApi :: TargetOf(p);
    SeveralValues(ofApi, TargetOf, targets);
    apart := |listeners| > 1 && |targets| > 1;
  }

  /** The key of each route of a repository, in the order the routes are given. */
  method RouteKeysOf(makers: Makers, routes: seq<Placed>) returns (keys: seq<RouteKey>)
    ensures |keys| == |routes|
    ensures forall i | 0 <= i < |routes| :: keys[i] == KeyOf(makers, routes, routes[i])
  {
    var byApis, byListeners := SharedOf(makers, routes);
    keys := [];
    for i := 0 to |routes|
      invariant |keys| == i
      invariant forall k | 0 <= k < i :: keys[k] == KeyOf(makers, routes, routes[k])
    {
      var plain := PlainOf(makers, routes[i]);
      keys := keys + [KeyWhen(makers, routes[i], plain in byApis, ApiAt(plain, ApiOf(routes[i])) in byListeners)];
    }
  }

  // ---- handing the keys out ----

  /** Every route of every deployment, in order. */
  function AllPlaced(deployments: seq<seq<Route>>): seq<Placed> {
    if |deployments| == 0 then []
    else
      var last := |deployments| - 1;
      AllPlaced(deployments[..last]) + PlacedIn(deployments[last], last)
  }

  function PlacedIn(routes: seq<Route>, deployment: nat): seq<Placed> {
    seq(|routes|, i requires 0 <= i < |routes| => Placed(routes[i], deployment))
  }

  /** Every route drawn once with its own key, whichever deployment it is in. */
  method DrawRoutes(makers: Makers, deployments: seq<seq<Route>>) returns (drawn: seq<seq<(Route, RouteKey)>>)
    ensures |drawn| == |deployments|
    ensures forall d | 0 <= d < |deployments| :: Handed(makers, AllPlaced(deployments), deployments, d, drawn[d])
  {
    var placed: seq<Placed> := [];
    for d := 0 to |deployments|
      invariant placed == AllPlaced(deployments[..d])
    {
      TakeMore(deployments, d);
      placed := placed + PlacedIn(deployments[d], d);
    }
    assert deployments[..|deployments|] == deployments;
    var keys := RouteKeysOf(makers, placed);
    var placedAt := 0;
    drawn := [];
    for d := 0 to |deployments|
      invariant |drawn| == d
      invariant placedAt == |AllPlaced(deployments[..d])|
      invariant forall e | 0 <= e < d :: Handed(makers, placed, deployments, e, drawn[e])
    {
      TakeMore(deployments, d);
      PlacedStands(deployments, d);
      var own;
      own, placedAt := DrawDeployment(makers, placed, deployments[d], d, keys, placedAt);
      drawn := drawn + [own];
    }
  }

  /** What is drawn for a deployment's routes: each with the key it has among all routes. */
  ghost predicate Handed(
      makers: Makers, placed: seq<Placed>, deployments: seq<seq<Route>>, d: nat, own: seq<(Route, RouteKey)>)
    requires d < |deployments|
  {
    HandedOut(makers, placed, deployments[d], d, own)
  }

  ghost predicate HandedOut(
      makers: Makers, placed: seq<Placed>, routes: seq<Route>, d: nat, own: seq<(Route, RouteKey)>) {
    && |own| == |routes|
    && forall k | 0 <= k < |own| :: own[k] == (routes[k], KeyOf(makers, placed, Placed(routes[k], d)))
  }

  method DrawDeployment(
      makers: Makers, ghost placed: seq<Placed>, routes: seq<Route>, d: nat, keys: seq<RouteKey>, start: nat)
    returns (own: seq<(Route, RouteKey)>, placedAt: nat)
    requires start + |routes| <= |keys| == |placed|
    requires forall i | 0 <= i < |keys| :: keys[i] == KeyOf(makers, placed, placed[i])
    requires forall i | start <= i < start + |routes| :: placed[i] == Placed(routes[i - start], d)
    ensures placedAt == start + |routes|
    ensures HandedOut(makers, placed, routes, d, own)
  {
    own, placedAt := [], start;
    for k := 0 to |routes|
      invariant placedAt == start + k
      invariant HandedOut(makers, placed, routes[..k], d, own)
    {
      TakeMore(routes, k);
      assert keys[placedAt] == KeyOf(makers, placed, placed[placedAt]);
      own := own + [(routes[k], keys[placedAt])];
      placedAt := placedAt + 1;
    }
    assert routes[..|routes|] == routes;
  }

  /** Where a deployment's routes stand among all of them. */
  lemma {:induction false} PlacedStands(deployments: seq<seq<Route>>, d: nat)
    requires d < |deployments|
    ensures |AllPlaced(deployments[..d])| + |deployments[d]| <= |AllPlaced(deployments)|
    ensures forall i | |AllPlaced(deployments[..d])| <= i < |AllPlaced(deployments[..d])| + |deployments[d]| ::
      AllPlaced(deployments)[i] == Placed(deployments[d][i - |AllPlaced(deployments[..d])|], d)
  {
    var last := |deployments| - 1;
    if d < last {
      PlacedStands(deployments[..last], d);
      assert deployments[..last][..d] == deployments[..d];
    }
  }
}
