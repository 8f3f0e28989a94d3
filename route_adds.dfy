/**
 * set_routes: the decision whether to add each route, and the adds it issues. The
 * routing table arrives as the split rows of `netstat -rn`, the interface addresses
 * as parsed triples, and subprocess.check_output as a runner.
 */
module RouteAdds {
  import opened Wrappers
  import opened Text
  import opened Address
  import opened Routes
  import opened RouteTable
  import opened Option121
  import opened Commands
  import opened StaticRoutes
  import opened RouteLists

  /**
   * The gatewaycheck setting: True unless the override file sets it, in which case
   * it is the stripped text after '=' (so "0" and "False" keep the check on).
   */
  datatype GatewayCheck = BuiltinTrue | FromOverride(text: string)

  /** Python truthiness of the setting. */
  predicate Truthy(check: GatewayCheck) {
    check.BuiltinTrue? || check.text != ""
  }

  /** Some address's subnet holds the gateway. */
  predicate Reaches(addresses: seq<InterfaceAddress>, gateway: IPv4) {
    exists i :: 0 <= i < |addresses| && SubnetCheck(addresses[i].prefix, addresses[i].ip, gateway)
  }

  /**
   * The gateway test of one route: passed without a check; with one, whether some
   * address reaches the gateway, where subnet_check's inet_aton raises on a malformed
   * gateway as soon as there is an address to test it against.
   */
  function GatewayOk(route: Route, addresses: seq<InterfaceAddress>, check: GatewayCheck): Result<bool> {
    if !Truthy(check) then Ok(true)
    else if addresses == [] then Ok(false)
    else
      match ParseDottedQuad(route.gateway)
      case None => Err(SocketError)
      case Some(gateway) => Ok(Reaches(addresses, gateway))
  }

  /** Some current row has the route's subnet and an equal mask. */
  predicate Present(route: Route, current: seq<TableRow>) {
    exists i :: 0 <= i < |current| && current[i].target == route.subnet && SameMask(current[i].mask, route.mask)
  }

  /** set_route after both loops: the gateway test passed and no current row matches. */
  function Decide(route: Route, addresses: seq<InterfaceAddress>, check: GatewayCheck, current: seq<TableRow>): Result<bool> {
    match GatewayOk(route, addresses, check)
    case Err(e) => Err(e)
    case Ok(reachable) => Ok(reachable && !Present(route, current))
  }

  /**
   * A route with a well-formed gateway gets an add exactly when the check is off or
   * an address reaches its gateway, and no current row has its subnet and mask. The
   * decision raises exactly when the check is on, there is an address, and the
   * gateway is not an address.
   */
  lemma DecideCases(route: Route, addresses: seq<InterfaceAddress>, check: GatewayCheck, current: seq<TableRow>)
    ensures ParseDottedQuad(route.gateway).Some? ==>
      Decide(route, addresses, check, current)
      == Ok((!Truthy(check) || Reaches(addresses, ParseDottedQuad(route.gateway).value)) && !Present(route, current))
    ensures Decide(route, addresses, check, current).Err?
      <==> Truthy(check) && addresses != [] && ParseDottedQuad(route.gateway).None?
    ensures Decide(route, addresses, check, current).Err? ==> Decide(route, addresses, check, current).error == SocketError
  {
    if ParseDottedQuad(route.gateway).Some? && Truthy(check) && addresses == [] {
      assert !Reaches(addresses, ParseDottedQuad(route.gateway).value);
    }
  }

  /**
   * A decoded route carries an int mask, which never equals a table row's text mask:
   * it is never suppressed as already present, and its gateway always parses, so it
   * gets an add exactly when the check is off or an address reaches its gateway.
   */
  lemma DecodedRouteDecided(r: Record, addresses: seq<InterfaceAddress>, check: GatewayCheck, current: seq<TableRow>)
    requires |r.gateway| == 4 && forall i :: 0 <= i < 4 ==> 0 <= r.gateway[i] < 256
    ensures !Present(Render(r), current)
    ensures Decide(Render(r), addresses, check, current)
         == Ok(!Truthy(check) || Reaches(addresses, IPv4(r.gateway[0], r.gateway[1], r.gateway[2], r.gateway[3])))
  {
    var gw := IPv4(r.gateway[0], r.gateway[1], r.gateway[2], r.gateway[3]);
    var strs := Strs(r.gateway);
    assert strs == [NatToString(gw.a), NatToString(gw.b), NatToString(gw.c), NatToString(gw.d)];
    assert Render(r).gateway == DottedQuad(gw);
    ParseDottedQuadRoundTrip(gw);
    DecideCases(Render(r), addresses, check, current);
  }

  /** The two loops of set_routes for one route. */
  method DecideRoute(route: Route, addresses: seq<InterfaceAddress>, check: GatewayCheck, current: seq<TableRow>)
    returns (r: Result<bool>)
    ensures r == Decide(route, addresses, check, current)
  {
    var setRoute := false;
    if Truthy(check) {
      var k := 0;
      while k < |addresses|
        invariant 0 <= k <= |addresses|
        invariant k == 0 ==> !setRoute
        invariant k > 0 ==> ParseDottedQuad(route.gateway).Some?
        invariant k > 0 ==>
          (setRoute <==> exists i :: 0 <= i < k && SubnetCheck(addresses[i].prefix, addresses[i].ip, ParseDottedQuad(route.gateway).value))
      {
        var gateway := ParseDottedQuad(route.gateway);
        if gateway.None? {
          return Err(SocketError);
        }
        if SubnetCheck(addresses[k].prefix, addresses[k].ip, gateway.value) {
          setRoute := true;
        }
        k := k + 1;
      }
    } else {
      setRoute := true;
    }
    var k := 0;
    while k < |current|
      invariant 0 <= k <= |current|
      invariant setRoute == (GatewayOk(route, addresses, check).value && !Present(route, current[..k]))
    {
      assert forall i :: 0 <= i < k ==> current[..k + 1][i] == current[..k][i];
      if current[k].target == route.subnet {
        if SameMask(current[k].mask, route.mask) {
          setRoute := false;
        }
      }
      k := k + 1;
    }
    assert current[..k] == current;
    r := Ok(setRoute);
  }

  /** The decision of set_routes for each route, under fixed addresses, check and table. */
  function DecideFor(addresses: seq<InterfaceAddress>, check: GatewayCheck, current: seq<TableRow>): Route -> Result<bool> {
    route => Decide(route, addresses, check, current)
  }

  /**
   * The loop over the list in set_routes: decide each route in turn and issue the add
   * of an accepted one; a raising decision or a failing command stops the loop.
   */
  method IssueAdds(items: seq<Route>, addresses: seq<InterfaceAddress>, check: GatewayCheck, current: seq<TableRow>, run: Runner)
    returns (log: seq<RouteCommand>, r: Result<seq<string>>)
    ensures Outcome(log, r) == Adds(items, DecideFor(addresses, check, current), run)
  {
    ghost var decide := DecideFor(addresses, check, current);
    log := [];
    var stdouts: seq<string> := [];
    var k := 0;
    while k < |items|
      invariant 0 <= k <= |items|
      invariant Adds(items[..k], decide, run) == Outcome(log, Ok(stdouts))
    {
      var route := items[k];
      assert items[..k + 1] == items[..k] + [route];
      AddsSnoc(items[..k], route, decide, run);
      var setRoute := DecideRoute(route, addresses, check, current);
      assert decide(route) == setRoute;
      if setRoute.Err? {
        AddsStops(items, k + 1, decide, run);
        return log, Err(setRoute.error);
      }
      if setRoute.value {
        var command := AddCommand(route);
        var out := run(log, command);
        log := log + [command];
        if out.None? {
          AddsStops(items, k + 1, decide, run);
          return log, Err(CalledProcessError);
        }
        stdouts := stdouts + [out.value];
      }
      k := k + 1;
    }
    assert items[..k] == items;
    r := Ok(stdouts);
  }

  /**
   * set_routes(routes, addresses, gatewaycheck, static_routes): reads the routing table
   * (whose errors come first), appends the override routes to the list in place, then
   * decides and issues an add for each route of the list in turn.
   */
  method SetRoutes(routes: RouteList, addresses: seq<InterfaceAddress>, check: GatewayCheck, staticRoutes: string,
                   table: seq<seq<string>>, run: Runner)
    returns (log: seq<RouteCommand>, r: Result<seq<string>>)
    modifies routes
    ensures RouteTableWithMasks(table).Err? ==>
      routes.items == old(routes.items) && log == [] && r == Err(RouteTableWithMasks(table).error)
    ensures RouteTableWithMasks(table).Ok? ==>
      var appended := ParseStaticRoutes(StaticPieces(staticRoutes));
      routes.items == old(routes.items) + appended.values
      && (appended.error.Some? ==> log == [] && r == Err(appended.error.value))
      && (appended.error.None? ==> Outcome(log, r) == Adds(routes.items, DecideFor(addresses, check, RouteTableWithMasks(table).value), run))
  {
    var currentRoutes := GetRouteTableWithMasks(table);
    if currentRoutes.Err? {
      return [], Err(currentRoutes.error);
    }
    var error := AppendStatic(routes, staticRoutes);
    if error.Some? {
      return [], Err(error.value);
    }
    log, r := IssueAdds(routes.items, addresses, check, currentRoutes.value, run);
  }
}
