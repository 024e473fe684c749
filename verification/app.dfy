/** atom/app.py: the parts of `Application` that are plain logic — converting a resolved
    route's path arguments to the handler's parameter types, the checks `add_route` makes
    before handing a route to the router, and the shard registry. */
module App {
  import opened Wrappers
  import Dicts

  // ---------------------------------------------------------------------------
  // _convert
  // ---------------------------------------------------------------------------

  /** One parameter of the handler's signature: its name, the name of its annotation, and
      the annotation applied to a text argument (`None` for the ValueError it raises). */
  datatype Param<V> = Param(name: string, annotation: string, convert: string -> Option<V>)

  /** `BadConversion`, with the two names its message quotes. */
  datatype ConvertError = BadConversion(annotation: string, parameter: string)

  /** The path arguments the router resolved, by name. */
  type Args = Dicts.Dict<string, string>

  /** The parameter has no argument, or its argument converts. */
  predicate Converts<V>(p: Param<V>, args: Args) {
    Dicts.Get(args, p.name).None? || p.convert(Dicts.Get(args, p.name).value).Some?
  }

  /** What one parameter contributes, found by lookup: nothing without an argument, else the
      converted argument or the conversion error. */
  function Wanted<V>(p: Param<V>, args: Args): (r: Result<seq<V>, ConvertError>)
    ensures r.Err? <==> !Converts(p, args)
    ensures r.Err? ==> r.error == BadConversion(p.annotation, p.name)
    ensures r.Ok? && Dicts.HasKey(args, p.name) ==> r.value == [p.convert(Dicts.Get(args, p.name).value).value]
    ensures r.Ok? && !Dicts.HasKey(args, p.name) ==> r.value == []
  {
    match Dicts.Get(args, p.name)
    case None => Ok([])
    case Some(text) =>
      match p.convert(text)
      case None => Err(BadConversion(p.annotation, p.name))
      case Some(v) => Ok([v])
  }

  /** The positions, in signature order, of the parameters that have an argument. */
  function KeyedIndices<V>(params: seq<Param<V>>, args: Args): (idx: seq<nat>)
    ensures forall k :: 0 <= k < |idx| ==> idx[k] < |params| && Dicts.HasKey(args, params[idx[k]].name)
    ensures forall k, l :: 0 <= k < l < |idx| ==> idx[k] < idx[l]
    ensures forall i :: 0 <= i < |params| && Dicts.HasKey(args, params[i].name) ==> i in idx
    decreases |params|
  {
    if |params| == 0 then []
    else
      var n := |params| - 1;
      var pre := KeyedIndices(params[..n], args);
      assert forall i :: 0 <= i < n ==> params[..n][i] == params[i];
      pre + (if Dicts.HasKey(args, params[n].name) then [n] else [])
  }

  /** The converted argument of a parameter that has one and converts. */
  function ConvertedArg<V>(p: Param<V>, args: Args): V
    requires Dicts.HasKey(args, p.name) && Converts(p, args)
  {
    p.convert(Dicts.Get(args, p.name).value).value
  }

  /** The arguments of `_convert`, by lookup: each parameter in signature order contributes
      what `Wanted` gives, and the first error ends the conversion. */
  function Convert<V>(params: seq<Param<V>>, args: Args): (r: Result<seq<V>, ConvertError>)
    ensures r.Ok? <==> forall i :: 0 <= i < |params| ==> Converts(params[i], args)
    ensures r.Err? ==>
      exists i :: && 0 <= i < |params| && !Converts(params[i], args)
                  && r.error == BadConversion(params[i].annotation, params[i].name)
                  && forall j :: 0 <= j < i ==> Converts(params[j], args)
    decreases |params|
  {
    if |params| == 0 then Ok([])
    else
      var n := |params| - 1;
      var pre := Convert(params[..n], args);
      assert forall i :: 0 <= i < n ==> params[..n][i] == params[i];
      if pre.Err? then pre
      else
        var w := Wanted(params[n], args);
        if w.Err? then Err(w.error)
        else Ok(pre.value + w.value)
  }

  /** A successful conversion holds one value per parameter that has an argument, in
      signature order (not argument order), each that parameter's annotation applied to the
      argument of the same name. */
  lemma {:induction false} ConvertValues<V>(params: seq<Param<V>>, args: Args)
    requires Convert(params, args).Ok?
    ensures ValuesMatch(params, args, Convert(params, args).value)
    decreases |params|
  {
    if |params| > 0 {
      var n := |params| - 1;
      ConvertValues(params[..n], args);
      ConvertValuesStep(params, args);
    }
  }

  /** `vs` holds, in order, the converted argument of each parameter that has one. */
  ghost predicate ValuesMatch<V>(params: seq<Param<V>>, args: Args, vs: seq<V>)
  {
    var idx := KeyedIndices(params, args);
    && |vs| == |idx|
    && forall k :: 0 <= k < |idx| ==> Converts(params[idx[k]], args) && vs[k] == ConvertedArg(params[idx[k]], args)
  }

  /** One step of `ConvertValues`: the last parameter's value is appended after the others'. */
  lemma ConvertValuesStep<V>(params: seq<Param<V>>, args: Args)
    requires |params| > 0 && Convert(params, args).Ok?
    requires Convert(params[..|params| - 1], args).Ok?
    requires ValuesMatch(params[..|params| - 1], args, Convert(params[..|params| - 1], args).value)
    ensures ValuesMatch(params, args, Convert(params, args).value)
  {
    var n := |params| - 1;
    var init := params[..n];
    var pre := Convert(init, args).value;
    var preIdx := KeyedIndices(init, args);
    var vs := Convert(params, args).value;
    var idx := KeyedIndices(params, args);
    assert vs == pre + Wanted(params[n], args).value;
    assert idx == preIdx + (if Dicts.HasKey(args, params[n].name) then [n] else []);
    forall k | 0 <= k < |preIdx|
      ensures params[idx[k]] == init[preIdx[k]] && vs[k] == pre[k]
    {
    }
  }

  /** The inner loop of `_convert` for one parameter: every argument entry carrying the
      parameter's name is converted, in argument order. */
  function ScanEntries<V>(p: Param<V>, entries: seq<(string, string)>): (r: Result<seq<V>, ConvertError>)
    decreases |entries|
  {
    if |entries| == 0 then Ok([])
    else
      var n := |entries| - 1;
      var pre := ScanEntries(p, entries[..n]);
      if pre.Err? || entries[n].0 != p.name then pre
      else match p.convert(entries[n].1)
        case None => Err(BadConversion(p.annotation, p.name))
        case Some(v) => Ok(pre.value + [v])
  }

  /** Over a dict's entries, where a name occurs at most once, the scan finds what the
      lookup finds. */
  lemma {:induction false} ScanIsLookup<V>(p: Param<V>, args: Args)
    requires Dicts.Valid(args)
    ensures ScanEntries(p, args.entries) == Wanted(p, args)
    decreases |args.entries|
  {
    if |args.entries| > 0 {
      var n := |args.entries| - 1;
      var init := Dicts.Dict(args.entries[..n]);
      Dicts.InitFacts(args);
      ScanIsLookup(p, init);
      var e := args.entries[n];
      assert args == Dicts.Dict(init.entries + [e]);
      Dicts.GetAppendNew(init, e, p.name);
      if e.0 == p.name {
        assert Wanted(p, init) == Ok([]);
        assert Dicts.Get(args, p.name) == Some(e.1);
        if p.convert(e.1).Some? {
          assert [] + [p.convert(e.1).value] == [p.convert(e.1).value];
        }
      } else {
        assert Dicts.Get(args, p.name) == Dicts.Get(init, p.name);
      }
    }
  }

  /** A scan that has failed on a prefix of the entries fails with the same error on all of
      them. */
  lemma {:induction false} ScanErrSticky<V>(p: Param<V>, entries: seq<(string, string)>, j: nat)
    requires j <= |entries| && ScanEntries(p, entries[..j]).Err?
    ensures ScanEntries(p, entries) == ScanEntries(p, entries[..j])
    decreases |entries| - j
  {
    if j < |entries| {
      assert entries[..j + 1][..j] == entries[..j];
      ScanErrSticky(p, entries, j + 1);
    } else {
      assert entries[..j] == entries;
    }
  }

  /** A conversion that has failed on a prefix of the parameters fails with the same error on
      all of them. */
  lemma {:induction false} ConvertErrSticky<V>(params: seq<Param<V>>, args: Args, i: nat)
    requires i <= |params| && Convert(params[..i], args).Err?
    ensures Convert(params, args) == Convert(params[..i], args)
    decreases |params| - i
  {
    if i < |params| {
      assert params[..i + 1][..i] == params[..i];
      ConvertErrSticky(params, args, i + 1);
    } else {
      assert params[..i] == params;
    }
  }

  /** A parameter whose arguments all scanned extends a successful conversion. */
  lemma ConvertStep<V>(params: seq<Param<V>>, args: Args, i: nat, out: seq<V>, found: seq<V>)
    requires Dicts.Valid(args) && i < |params|
    requires Convert(params[..i], args) == Ok(out) && ScanEntries(params[i], args.entries) == Ok(found)
    ensures Convert(params[..i + 1], args) == Ok(out + found)
  {
    ScanIsLookup(params[i], args);
    assert params[..i + 1][..i] == params[..i];
  }

  /** An argument of parameter `i` that fails to convert ends the whole conversion with that
      parameter's error, provided the parameters before it converted. */
  lemma ConvertFailsAt<V>(params: seq<Param<V>>, args: Args, i: nat, j: nat)
    requires Dicts.Valid(args) && i < |params| && j < |args.entries|
    requires Convert(params[..i], args).Ok? && ScanEntries(params[i], args.entries[..j]).Ok?
    requires args.entries[j].0 == params[i].name && params[i].convert(args.entries[j].1).None?
    ensures Convert(params, args) == Err(BadConversion(params[i].annotation, params[i].name))
  {
    var p := params[i];
    assert args.entries[..j + 1][..j] == args.entries[..j];
    ScanErrSticky(p, args.entries, j + 1);
    assert args.entries[..|args.entries|] == args.entries;
    ScanIsLookup(p, args);
    assert params[..i + 1][..i] == params[..i];
    ConvertErrSticky(params, args, i + 1);
  }

  /** `Application._convert(func, args)`: for each parameter of the signature, in order,
      every argument of the same name is converted by the parameter's annotation and
      appended; the first ValueError raises BadConversion, and no list is returned. */
  method ConvertArgs<V>(params: seq<Param<V>>, args: Args) returns (r: Result<seq<V>, ConvertError>)
    requires Dicts.Valid(args)
    ensures r == Convert(params, args)
  {
    var returnArgs: seq<V> := [];
    var i := 0;
    while i < |params|
      invariant 0 <= i <= |params|
      invariant Convert(params[..i], args) == Ok(returnArgs)
    {
      var p := params[i];
      var found: seq<V> := [];
      var j := 0;
      while j < |args.entries|
        invariant 0 <= j <= |args.entries|
        invariant ScanEntries(p, args.entries[..j]) == Ok(found)
      {
        var (name, text) := args.entries[j];
        assert args.entries[..j + 1][..j] == args.entries[..j];
        if p.name == name {
          var converted := p.convert(text);
          if converted.None? {
            ConvertFailsAt(params, args, i, j);
            return Err(BadConversion(p.annotation, p.name));
          }
          found := found + [converted.value];
        }
        j := j + 1;
      }
      assert args.entries[..j] == args.entries;
      ConvertStep(params, args, i, returnArgs, found);
      returnArgs := returnArgs + found;
      i := i + 1;
    }
    assert params[..i] == params;
    return Ok(returnArgs);
  }

  // ---------------------------------------------------------------------------
  // add_route
  // ---------------------------------------------------------------------------

  /** A handler as `add_route` sees it: an identity, and whether
      `inspect.iscoroutinefunction` holds of it. */
  datatype Handler = Handler(id: nat, isAsync: bool)

  /** A route object: its path, method and handler, its class name, and the two
      `isinstance` checks `add_route` makes (`Route`, `WebsocketRoute`). */
  datatype RouteObject = RouteObject(path: string, verb: string, handler: Handler, className: string,
                                     isRoute: bool, isWebsocketRoute: bool)

  /** What `Router.add_route(path, method, coro, websocket=...)` records. */
  datatype RouterEntry = RouterEntry(path: string, verb: string, handler: Handler, websocket: bool)

  datatype Router = Router(routes: seq<RouterEntry>)

  datatype RegistrationError =
    | ExpectedRoute(className: string)            // RouteRegistrationError
    | NotAsync                                    // RouteRegistrationError
    | AlreadyRoute(path: string)                  // RouteRegistrationError
    | ExpectedWebsocketRoute(className: string)   // WebsocketRouteRegistrationError

  /** `route in self.router.routes`: the router holds an entry for the same path, method and
      handler. */
  predicate InRouter(router: Router, route: RouteObject) {
    exists i :: 0 <= i < |router.routes| && router.routes[i].path == route.path
      && router.routes[i].verb == route.verb && router.routes[i].handler == route.handler
  }

  /** `add_route(route, websocket=...)`: without `websocket` a non-`Route` is rejected first;
      then a handler that is not a coroutine function; then a route already in the router;
      then, with `websocket`, a non-`WebsocketRoute`. On success the router gains exactly one
      entry, at the end, and the route is returned. */
  function AddRoute(router: Router, route: RouteObject, websocket: bool): (r: Result<(Router, RouteObject), RegistrationError>)
    ensures !websocket && !route.isRoute ==> r == Err(ExpectedRoute(route.className))
    ensures (websocket || route.isRoute) && !route.handler.isAsync ==> r == Err(NotAsync)
    ensures (websocket || route.isRoute) && route.handler.isAsync && InRouter(router, route) ==>
      r == Err(AlreadyRoute(route.path))
    ensures websocket && route.handler.isAsync && !InRouter(router, route) && !route.isWebsocketRoute ==>
      r == Err(ExpectedWebsocketRoute(route.className))
    ensures r.Ok? <==> (if websocket then route.isWebsocketRoute else route.isRoute)
                       && route.handler.isAsync && !InRouter(router, route)
    ensures r.Ok? ==>
      && r.value.1 == route
      && r.value.0.routes == router.routes + [RouterEntry(route.path, route.verb, route.handler, websocket)]
  {
    if !websocket && !route.isRoute then Err(ExpectedRoute(route.className))
    else if !route.handler.isAsync then Err(NotAsync)
    else if InRouter(router, route) then Err(AlreadyRoute(route.path))
    else if websocket && !route.isWebsocketRoute then Err(ExpectedWebsocketRoute(route.className))
    else Ok((Router(router.routes + [RouterEntry(route.path, route.verb, route.handler, websocket)]), route))
  }

  /** A route that was just added is in the router, so adding it again is rejected. */
  lemma AddRouteTwice(router: Router, route: RouteObject, websocket: bool, again: bool)
    requires AddRoute(router, route, websocket).Ok?
    requires again || route.isRoute
    ensures AddRoute(AddRoute(router, route, websocket).value.0, route, again) == Err(AlreadyRoute(route.path))
  {
    var router' := AddRoute(router, route, websocket).value.0;
    assert router'.routes[|router.routes|] == RouterEntry(route.path, route.verb, route.handler, websocket);
  }

  /** No two entries of the router share path, method and handler. */
  predicate Unique(router: Router) {
    forall i, j :: 0 <= i < j < |router.routes| ==>
      (router.routes[i].path, router.routes[i].verb, router.routes[i].handler)
        != (router.routes[j].path, router.routes[j].verb, router.routes[j].handler)
  }

  /** Registering through `add_route` alone keeps the router free of duplicates. */
  lemma AddRouteKeepsUnique(router: Router, route: RouteObject, websocket: bool)
    requires Unique(router) && AddRoute(router, route, websocket).Ok?
    ensures Unique(AddRoute(router, route, websocket).value.0)
  {
    var routes' := AddRoute(router, route, websocket).value.0.routes;
    forall i, j | 0 <= i < j < |routes'|
      ensures (routes'[i].path, routes'[i].verb, routes'[i].handler) != (routes'[j].path, routes'[j].verb, routes'[j].handler)
    {
      assert routes'[i] == router.routes[i];
      if j < |router.routes| {
        assert routes'[j] == router.routes[j];
      }
    }
  }

  // ---------------------------------------------------------------------------
  // Shards
  // ---------------------------------------------------------------------------

  /** A shard as the registry sees it: its name and an identity standing for the object. */
  datatype Shard = Shard(name: string, id: nat)

  type Shards = Dicts.Dict<string, Shard>

  /** `register_shard(shard)`: stores the shard under its name, replacing a same-name shard,
      and returns it. */
  function RegisterShard(shards: Shards, shard: Shard): (r: (Shards, Shard))
    ensures r.1 == shard
    ensures Dicts.Get(r.0, shard.name) == Some(shard)
    ensures forall other :: other != shard.name ==> Dicts.Get(r.0, other) == Dicts.Get(shards, other)
    ensures Dicts.Valid(shards) ==> Dicts.Valid(r.0)
  {
    var shards' := Dicts.Set(shards, shard.name, shard);
    Dicts.SetLookups(shards, shard.name, shard);
    assert Dicts.Valid(shards) ==> Dicts.Valid(shards') by {
      if Dicts.Valid(shards) {
        Dicts.SetSpec(shards, shard.name, shard);
      }
    }
    (shards', shard)
  }

  /** `get_shard(name)`: the shard registered under the name, or `None` (the KeyError is
      caught). */
  function GetShard(shards: Shards, name: string): (r: Option<Shard>)
    ensures r.Some? <==> name in Dicts.Keys(shards)
    ensures r.Some? ==> (name, r.value) in shards.entries
  {
    Dicts.InKeys(shards, name);
    Dicts.Get(shards, name)
  }

  /** `shard_count`: the number of registered names. */
  function ShardCount(shards: Shards): (n: nat)
    ensures Dicts.Valid(shards) ==> n == |Dicts.KeySet(shards)|
  {
    if Dicts.Valid(shards) then Dicts.LenIsKeyCount(shards); Dicts.Len(shards)
    else Dicts.Len(shards)
  }

  /** Registering a shard and reading back: the shard under its own name, the old answer
      under every other; the count grows by one exactly when the name was new. */
  lemma RegisterThenGet(shards: Shards, shard: Shard, name: string)
    requires Dicts.Valid(shards)
    ensures var shards' := RegisterShard(shards, shard).0;
      && GetShard(shards', name) == (if name == shard.name then Some(shard) else GetShard(shards, name))
      && ShardCount(shards') == ShardCount(shards) + (if shard.name in Dicts.Keys(shards) then 0 else 1)
  {
    Dicts.SetSpec(shards, shard.name, shard);
    Dicts.InKeys(shards, shard.name);
  }
}
