/**
 * The route list set_routes receives from its caller and extends in place.
 */
module RouteLists {
  import opened Wrappers
  import opened Routes

  /** The list set_routes works on: the caller's list, which it extends in place. */
  class RouteList {
    var items: seq<Route>

    constructor(items: seq<Route>)
      ensures this.items == items
    {
      this.items := items;
    }

    /**
     * Appends, piece by piece, the route each piece reads as, until a piece raises:
     * the list grows by exactly the routes read before the raise, and the raise is
     * reported.
     */
    method AppendParsed(pieces: seq<string>, parse: string -> Result<Route>) returns (error: Option<PyError>)
      modifies this
      ensures items == old(items) + ReadAll(pieces, parse).values
      ensures error == ReadAll(pieces, parse).error
    {
      var k := 0;
      while k < |pieces|
        invariant 0 <= k <= |pieces|
        invariant ReadAll(pieces[..k], parse).error.None?
        invariant items == old(items) + ReadAll(pieces[..k], parse).values
      {
        var route := parse(pieces[k]);
        ReadStep(pieces, k, parse);
        if route.Err? {
          return Some(route.error);
        }
        items := items + [route.value];
        k := k + 1;
      }
      assert pieces[..k] == pieces;
      return None;
    }
  }
}
