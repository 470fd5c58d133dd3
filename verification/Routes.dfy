/** Default routes by routing table. */
module Routes {

  datatype Route = Route(iface: string, gateway: nat)

  type RouteMap = map<nat, Route>

  /** Creation replaces whatever default route the table had. */
  function AddDefaultRoute(routes: RouteMap, iface: string, gateway: nat, table: nat): RouteMap {
    routes[table := Route(iface, gateway)]
  }

  /** Deletion names the interface only; a default route through another one stays. */
  function RemoveDefaultRoute(routes: RouteMap, iface: string, table: nat): RouteMap {
    if table in routes && routes[table].iface == iface then routes - {table} else routes
  }
}
