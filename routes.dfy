/**
 * The route values the scripts pass around: decoded and override routes,
 * normalised routing-table rows, and the `route` commands they lead to.
 */
module Routes {

  /**
   * A route's mask as Python holds it. Routes decoded from option 121 carry the
   * prefix byte as an int; table rows and override routes carry the text after
   * the '/'. Python's `==` between the two kinds is always False.
   */
  datatype Mask = IntMask(bits: int) | StrMask(text: string)

  /** The element at index 1 of a routing-table row equals the mask at index 1 of a route. */
  predicate SameMask(rowMask: string, m: Mask) {
    m.StrMask? && m.text == rowMask
  }

  /** A route to install: (subnet, mask, gateway). */
  datatype Route = Route(subnet: string, mask: Mask, gateway: string)

  /** A normalised routing-table row: [target, mask, gateway, interface]. */
  datatype TableRow = TableRow(target: string, mask: string, gateway: string, nic: string)

  datatype Verb = Add | Delete

  /** One `route <verb> <subnet>/<mask> <gateway>` invocation. */
  datatype RouteCommand = RouteCommand(verb: Verb, subnet: string, mask: Mask, gateway: string)
}
