/**
 * The override routes of set_routes: the staticroutes setting split on ';', each
 * piece read as "subnet/mask gateway" and appended in place to the route list.
 */
module StaticRoutes {
  import opened Wrappers
  import opened Text
  import opened Routes
  import opened RouteLists

  /** The pieces of the staticroutes setting: none when it is empty, else its split on ';'. */
  function StaticPieces(setting: string): seq<string> {
    if setting == "" then [] else Split(setting, ';')
  }

  /**
   * One override route "subnet/mask gateway": the subnet is the stripped text before
   * the first '/', mask and gateway the first two words after it; a missing '/' or a
   * missing word raises IndexError.
   */
  function ParseStaticRoute(piece: string): (r: Result<Route>)
    ensures r.Err? ==> r.error == IndexError
    ensures r.Ok? ==> r.value.mask.StrMask?
  {
    var halves := Split(piece, '/');
    if |halves| < 2 then Err(IndexError)
    else
      var words := SplitWhitespace(Strip(halves[1]));
      if |words| < 2 then Err(IndexError)
      else Ok(Route(Strip(halves[0]), StrMask(words[0]), words[1]))
  }

  /** An override route written out as "subnet/mask gateway" is read back as it was written. */
  lemma ParseStaticRouteOf(subnet: string, mask: string, gateway: string)
    requires IsWord(subnet) && IsWord(mask) && IsWord(gateway)
    requires Lacks(subnet, '/') && Lacks(mask, '/') && Lacks(gateway, '/')
    ensures ParseStaticRoute(subnet + "/" + mask + " " + gateway) == Ok(Route(subnet, StrMask(mask), gateway))
  {
    var tail := mask + " " + gateway;
    assert Lacks(tail, '/') by {
      assert forall i :: 0 <= i < |tail| ==> tail[i] == if i < |mask| then mask[i] else if i == |mask| then ' ' else gateway[i - |mask| - 1];
    }
    var piece := subnet + "/" + mask + " " + gateway;
    assert piece == subnet + ['/'] + tail;
    SplitPair(subnet, tail, '/');
    WordsOfPair(mask, gateway);
  }

  /**
   * The loop appending override routes: the routes read, in order, up to the first
   * piece that raises, and that error.
   */
  function ParseStaticRoutes(pieces: seq<string>): Partial<Route> {
    ReadAll(pieces, ParseStaticRoute)
  }

  /** A staticroutes setting that ends with ';' always raises: its last piece is empty. */
  lemma TrailingSemicolonRaises(setting: string)
    ensures ParseStaticRoutes(StaticPieces(setting + ";")).error.Some?
  {
    var pieces := StaticPieces(setting + ";");
    assert pieces == Split(setting + [';'], ';');
    SplitTrailing(setting, ';');
    var n := |pieces| - 1;
    assert pieces[n] == "";
    assert Split(pieces[n], '/') == [""];
    assert ParseStaticRoute(pieces[n]).Err?;
    ReadAllShape(pieces, ParseStaticRoute);
  }

  /**
   * The override routes of set_routes: each piece of the setting is parsed and
   * appended in place to the caller's list, until one raises.
   */
  method AppendStatic(routes: RouteList, staticRoutes: string) returns (error: Option<PyError>)
    modifies routes
    ensures routes.items == old(routes.items) + ParseStaticRoutes(StaticPieces(staticRoutes)).values
    ensures error == ParseStaticRoutes(StaticPieces(staticRoutes)).error
  {
    error := routes.AppendParsed(StaticPieces(staticRoutes), ParseStaticRoute);
  }
}
