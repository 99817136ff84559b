/**
 * webframe.core.ApplicationContext: the url-to-route table the dispatcher
 * consults, loaded once from the routes of the scanned controllers, and its
 * lookup of a request url (exact key first, then the best pattern, whose
 * route is copied for the request with the url's parameters in its data).
 */
module Core {
  import opened Wrappers
  import opened Reflection
  import opened Tools
  import opened AnnotationScanner
  import UrlPatternMatcher

  // ---------------------------------------------------------------------------
  // The table built by loadRoutes

  /** `map.put(keys[i], values[i])` for i = 0, 1, …: a later value replaces an earlier one under the same key. */
  function Index<V>(keys: seq<string>, values: seq<V>): map<string, V>
    requires |keys| == |values|
  {
    if keys == [] then map[]
    else Index(keys[..|keys| - 1], values[..|values| - 1])[keys[|keys| - 1] := values[|values| - 1]]
  }

  lemma IndexSnoc<V>(keys: seq<string>, values: seq<V>, i: nat)
    requires |keys| == |values| && i < |keys|
    ensures Index(keys[..i + 1], values[..i + 1]) == Index(keys[..i], values[..i])[keys[i] := values[i]]
  {
    assert keys[..i + 1][..i] == keys[..i];
    assert values[..i + 1][..i] == values[..i];
  }

  /** Entry `i` is the last one whose key is `k`. */
  predicate LastWith(keys: seq<string>, i: int, k: string) {
    0 <= i < |keys| && keys[i] == k && forall j :: i < j < |keys| ==> keys[j] != k
  }

  /** The table holds exactly the keys put, each with the value of its last put. */
  lemma {:induction false} IndexSpec<V>(keys: seq<string>, values: seq<V>)
    requires |keys| == |values|
    ensures Index(keys, values).Keys == set i | 0 <= i < |keys| :: keys[i]
    ensures forall k :: k in Index(keys, values) ==> exists i :: LastWith(keys, i, k) && Index(keys, values)[k] == values[i]
    decreases |keys|
  {
    if keys != [] {
      var n := |keys| - 1;
      IndexSpec(keys[..n], values[..n]);
      assert forall i :: 0 <= i < n ==> keys[..n][i] == keys[i];
      forall k | k in Index(keys, values)
        ensures exists i :: LastWith(keys, i, k) && Index(keys, values)[k] == values[i]
      {
        if k == keys[n] {
          assert LastWith(keys, n, k);
        } else {
          var i :| LastWith(keys[..n], i, k) && Index(keys[..n], values[..n])[k] == values[..n][i];
          assert LastWith(keys, i, k);
        }
      }
      assert (set i | 0 <= i < |keys| :: keys[i]) == (set i | 0 <= i < n :: keys[..n][i]) + {keys[n]};
    }
  }

  /** The urls of a list of routes. */
  function Urls(routes: seq<Route>): (r: seq<string>)
    ensures |r| == |routes| && forall i :: 0 <= i < |routes| ==> r[i] == routes[i].url
  {
    seq(|routes|, i requires 0 <= i < |routes| => routes[i].url)
  }

  /** What invoking a route's handler once, with no arguments, on a new controller instance gives. */
  datatype Invocation =
    | ReturnedRoute(view: string, data: map<string, Datum>)
    | ReturnedText(text: string)
    | ReturnedOther
    | Threw

  /** The view a route keeps after the warm-up invocation. */
  function WarmView(view: string, outcome: Invocation): string {
    match outcome
    case ReturnedRoute(v, _) => v
    case ReturnedText(t) => t
    case _ => view
  }

  /** The data a route keeps after the warm-up invocation: a returned route's data is copied in. */
  function WarmData(data: map<string, Datum>, outcome: Invocation): map<string, Datum> {
    if outcome.ReturnedRoute? then data + outcome.data else data
  }

  /** A loaded route object: the route `r` with the view and data its warm-up left. */
  predicate Loaded(mv: ModelView, r: Route, outcome: Invocation)
    reads mv
  {
    mv.url == r.url && mv.methods == r.methods && mv.controller == Some(r.controller)
    && mv.view == WarmView(r.view, outcome) && mv.data == WarmData(map[], outcome)
  }

  /** The prefix of the data keys findRoute gives the url parameters. */
  const ParamPrefix := "urlParam_"

  /** The url parameters as route data: `urlParam_<name>` bound to the parameter's text. */
  function ParamData(params: map<string, string>): map<string, Datum> {
    Prefixed(ParamPrefix, params)
  }

  /** Each entry `n := v` of `params` as `prefix + n := TextDatum(v)`. */
  function Prefixed(prefix: string, params: map<string, string>): map<string, Datum> {
    map k | k in (set n | n in params :: prefix + n) :: TextDatum(params[k[|prefix|..]])
  }

  /** The prefixed data holds `prefix + n` exactly for the parameters `n`, with their values, and no other key. */
  lemma PrefixedSpec(prefix: string, params: map<string, string>)
    ensures forall n :: prefix + n in Prefixed(prefix, params) <==> n in params
    ensures forall n :: n in params ==> Prefixed(prefix, params)[prefix + n] == TextDatum(params[n])
    ensures forall k :: k in Prefixed(prefix, params) ==> |prefix| <= |k| && k[..|prefix|] == prefix
  {
    forall n
      ensures (prefix + n)[|prefix|..] == n
    {
    }
  }

  /** The request's copy of the route `tmpl` matched by `key`: its url, handlers, view, controller and data with the url parameters. */
  predicate IsRequestCopy(mv: ModelView, url: string, tmpl: ModelView, key: string)
    reads mv, tmpl
  {
    mv.url == url && mv.methods == tmpl.methods && mv.view == tmpl.view && mv.controller == tmpl.controller
    && mv.data == tmpl.data + ParamData(UrlPatternMatcher.Parameters(url, key))
  }

  class ApplicationContext {
    var routeMap: map<string, ModelView>

    /**
     * `new ApplicationContext()`: the table of the routes of the given
     * controllers (those the scan of the package "webframe" finds), each
     * warmed up once. `warmUp` says what invoking each route's handler gives.
     */
    constructor (controllers: Option<seq<ClassDecl>>, warmUp: Route -> Invocation)
      ensures routeMap.Keys == set i | 0 <= i < |AllRoutes(controllers)| :: AllRoutes(controllers)[i].url
      ensures forall k :: k in routeMap ==> fresh(routeMap[k])
      ensures forall k :: k in routeMap ==> exists i ::
        LastWith(Urls(AllRoutes(controllers)), i, k)
        && Loaded(routeMap[k], AllRoutes(controllers)[i], warmUp(AllRoutes(controllers)[i]))
    {
      routeMap := map[];
      new;
      var allRoutes := FindRouterMethods(controllers);
      LoadRoutes(allRoutes, AllRoutes(controllers), warmUp);
      var specs := AllRoutes(controllers);
      IndexSpec(Urls(specs), allRoutes);
    }

    /** loadRoutes: warms every route up and files it under its url, a later route replacing an earlier one. */
    method LoadRoutes(allRoutes: seq<ModelView>, specs: seq<Route>, warmUp: Route -> Invocation)
      requires |allRoutes| == |specs|
      requires forall i :: 0 <= i < |allRoutes| ==> Describes(allRoutes[i], specs[i])
      requires forall i, j :: 0 <= i < j < |allRoutes| ==> allRoutes[i] != allRoutes[j]
      modifies this, set i | 0 <= i < |allRoutes| :: allRoutes[i]
      ensures routeMap == old(routeMap) + Index(Urls(specs), allRoutes)
      ensures forall i :: 0 <= i < |allRoutes| ==> Loaded(allRoutes[i], specs[i], warmUp(specs[i]))
    {
      for i := 0 to |allRoutes|
        invariant routeMap == old(routeMap) + Index(Urls(specs)[..i], allRoutes[..i])
        invariant forall j :: 0 <= j < i ==> Loaded(allRoutes[j], specs[j], warmUp(specs[j]))
        invariant forall j :: i <= j < |allRoutes| ==> Describes(allRoutes[j], specs[j])
      {
        var route := allRoutes[i];
        WarmUp(route, specs[i], warmUp(specs[i]));
        IndexSnoc(Urls(specs), allRoutes, i);
        UnionUpdate(old(routeMap), Index(Urls(specs)[..i], allRoutes[..i]), route.url, route);
        routeMap := routeMap[route.url := route];
      }
      assert Urls(specs)[..|allRoutes|] == Urls(specs);
      assert allRoutes[..|allRoutes|] == allRoutes;
    }

    /** The body of loadRoutes' loop for one route: `route.setView(executeMethodForView(route))`. */
    method WarmUp(route: ModelView, ghost spec: Route, outcome: Invocation)
      requires Describes(route, spec)
      modifies route
      ensures Loaded(route, spec, outcome)
    {
      var actualView := ExecuteMethodForView(route, outcome);
      route.SetView(actualView);
    }

    /**
     * executeMethodForView, given the outcome of the invocation: a returned
     * route's view and data are taken over, a returned string is the view,
     * anything else (or a thrown exception) keeps the route's own view.
     */
    method ExecuteMethodForView(route: ModelView, outcome: Invocation) returns (actualView: string)
      modifies route
      ensures actualView == WarmView(old(route.view), outcome)
      ensures route.data == WarmData(old(route.data), outcome)
      ensures route.view == (if outcome.ReturnedRoute? then outcome.view else old(route.view))
      ensures route.url == old(route.url) && route.methods == old(route.methods) && route.controller == old(route.controller)
    {
      match outcome
      case ReturnedRoute(view, data) =>
        route.SetView(view);
        var remaining := data.Keys;
        while remaining != {}
          invariant remaining <= data.Keys
          invariant route.data == old(route.data) + Restrict(data, data.Keys - remaining)
          invariant route.view == view
          invariant route.url == old(route.url) && route.methods == old(route.methods) && route.controller == old(route.controller)
          decreases |remaining|
        {
          var key :| key in remaining;
          ghost var done := data.Keys - remaining;
          RestrictStep(data, done, key);
          UnionUpdate(old(route.data), Restrict(data, done), key, data[key]);
          route.AddData(key, data[key]);
          remaining := remaining - {key};
          assert data.Keys - remaining == done + {key};
        }
        assert data.Keys - remaining == data.Keys;
        RestrictAll(data);
        assert route.data == old(route.data) + data;
        actualView := route.view;
      case ReturnedText(text) =>
        actualView := text;
      case ReturnedOther =>
        actualView := route.view;
      case Threw =>
        actualView := route.view;
    }

    /**
     * findRoute: the route filed under the url itself; else a fresh copy, for
     * this request, of the route of the best pattern, with the url's
     * parameters added to its data as `urlParam_<name>`; else null. The
     * table and its routes are left as they are.
     */
    method FindRoute(url: string) returns (r: Option<ModelView>)
      ensures url in routeMap ==> r == Some(routeMap[url])
      ensures url !in routeMap ==> (r.None? <==> UrlPatternMatcher.IsBestMatch(routeMap.Keys, url, None))
      ensures url !in routeMap && r.Some? ==> fresh(r.value) && exists key ::
        key in routeMap && UrlPatternMatcher.IsBestMatch(routeMap.Keys, url, Some(key))
        && IsRequestCopy(r.value, url, routeMap[key], key)
    {
      if url in routeMap {
        return Some(routeMap[url]);
      }
      var matchingPattern := UrlPatternMatcher.FindMatchingPattern(routeMap, url);
      NoneIsBestOnlyAlone(routeMap.Keys, url, matchingPattern);
      if matchingPattern.Some? {
        var key := matchingPattern.value;
        assert key in routeMap by {
          UrlPatternMatcher.BestMatchIsKey(routeMap.Keys, url, matchingPattern);
        }
        var specificRoute := CopyForRequest(url, routeMap[key], key);
        assert UrlPatternMatcher.IsBestMatch(routeMap.Keys, url, Some(key));
        return Some(specificRoute);
      }
      return None;
    }

    /**
     * The per-request copy findRoute makes of the route `route` matched by the
     * pattern `key`: a new route with its handlers, view, controller and data,
     * plus each url parameter as `urlParam_<name>`.
     */
    method CopyForRequest(url: string, route: ModelView, key: string) returns (specificRoute: ModelView)
      ensures fresh(specificRoute) && IsRequestCopy(specificRoute, url, route, key)
    {
      specificRoute := new ModelView(url, Some(route.methods), route.view, route.controller);
      specificRoute.data := specificRoute.data + route.data;
      assert specificRoute.data == route.data;
      var urlParams := UrlPatternMatcher.ExtractParameters(url, key);
      AddParameterData(specificRoute, urlParams);
    }

    /** The loop of findRoute that files each url parameter under `urlParam_<name>` in the copy's data. */
    method AddParameterData(specificRoute: ModelView, urlParams: map<string, string>)
      modifies specificRoute
      ensures specificRoute.data == old(specificRoute.data) + ParamData(urlParams)
      ensures specificRoute.url == old(specificRoute.url) && specificRoute.methods == old(specificRoute.methods)
      ensures specificRoute.view == old(specificRoute.view) && specificRoute.controller == old(specificRoute.controller)
    {
      var remaining := urlParams.Keys;
      while remaining != {}
        invariant remaining <= urlParams.Keys
        invariant specificRoute.url == old(specificRoute.url) && specificRoute.methods == old(specificRoute.methods)
        invariant specificRoute.view == old(specificRoute.view) && specificRoute.controller == old(specificRoute.controller)
        invariant specificRoute.data == old(specificRoute.data) + ParamData(Restrict(urlParams, urlParams.Keys - remaining))
        decreases |remaining|
      {
        var name :| name in remaining;
        ghost var done := urlParams.Keys - remaining;
        ParamDataStep(old(specificRoute.data), urlParams, done, name);
        specificRoute.AddData(ParamPrefix + name, TextDatum(urlParams[name]));
        remaining := remaining - {name};
        assert urlParams.Keys - remaining == done + {name};
      }
      assert urlParams.Keys - remaining == urlParams.Keys;
      RestrictAll(urlParams);
    }

    /** getAllRoutes: a copy of the table. */
    method GetAllRoutes() returns (copy: map<string, ModelView>)
      ensures copy == routeMap
    {
      copy := routeMap;
    }
  }

  /** The entries of `m` under the keys `ks`. */
  function Restrict<K, V>(m: map<K, V>, ks: set<K>): map<K, V>
    requires ks <= m.Keys
  {
    map k | k in ks :: m[k]
  }

  lemma RestrictStep<K, V>(m: map<K, V>, ks: set<K>, k: K)
    requires ks <= m.Keys && k in m
    ensures Restrict(m, ks + {k}) == Restrict(m, ks)[k := m[k]]
  {
  }

  lemma RestrictAll<K, V>(m: map<K, V>)
    ensures Restrict(m, m.Keys) == m
  {
  }

  lemma UnionUpdate<K, V>(a: map<K, V>, b: map<K, V>, k: K, v: V)
    ensures (a + b)[k := v] == a + b[k := v]
  {
  }

  /** Adding the entry of one more url parameter to the copy's data. */
  lemma ParamDataStep(data: map<string, Datum>, params: map<string, string>, done: set<string>, name: string)
    requires done <= params.Keys && name in params
    ensures (data + ParamData(Restrict(params, done)))[ParamPrefix + name := TextDatum(params[name])]
      == data + ParamData(Restrict(params, done + {name}))
  {
    RestrictStep(params, done, name);
    PrefixedAdd(ParamPrefix, Restrict(params, done), name, params[name]);
    UnionUpdate(data, ParamData(Restrict(params, done)), ParamPrefix + name, TextDatum(params[name]));
  }

  /** One more parameter adds its one data entry. */
  lemma PrefixedAdd(prefix: string, params: map<string, string>, name: string, value: string)
    ensures Prefixed(prefix, params[name := value]) == Prefixed(prefix, params)[prefix + name := TextDatum(value)]
  {
    PrefixedSpec(prefix, params);
    PrefixedSpec(prefix, params[name := value]);
    var a := Prefixed(prefix, params[name := value]);
    var b := Prefixed(prefix, params)[prefix + name := TextDatum(value)];
    forall k | k in a
      ensures k in b && a[k] == b[k]
    {
      assert k == prefix + k[|prefix|..];
    }
    forall k | k in b
      ensures k in a
    {
      if k != prefix + name {
        assert k == prefix + k[|prefix|..];
      }
    }
  }

  /** A search result is None only when None is the best match. */
  lemma NoneIsBestOnlyAlone(keys: set<string>, url: string, r: Option<string>)
    requires UrlPatternMatcher.IsBestMatch(keys, url, r)
    ensures r.None? <==> UrlPatternMatcher.IsBestMatch(keys, url, None)
  {
  }

  /** The holder of the one ApplicationContext (the class's static `instance`). */
  class ContextHolder {
    var instance: Option<ApplicationContext>

    constructor ()
      ensures instance.None?
    {
      instance := None;
    }

    /** getInstance: the context built on first use, the same one afterwards. */
    method GetInstance(controllers: Option<seq<ClassDecl>>, warmUp: Route -> Invocation) returns (context: ApplicationContext)
      modifies this
      ensures old(instance).Some? ==> context == old(instance).value && instance == old(instance)
      ensures old(instance).None? ==> (fresh(context) && instance == Some(context)
        && context.routeMap.Keys == set i | 0 <= i < |AllRoutes(controllers)| :: AllRoutes(controllers)[i].url)
    {
      if instance.None? {
        var created := new ApplicationContext(controllers, warmUp);
        instance := Some(created);
      }
      context := instance.value;
    }
  }
}
