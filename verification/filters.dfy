/** The conditions a caller may attach to `addButton` / `addButtons`
    (`checkLocationContext`, `checkRouteContext`). */
module Filters {
  import opened Wrappers
  import opened Routes

  /** No location condition, one location, or a set of acceptable locations. */
  datatype LocationFilter = AnyLocation | AtLocation(location: string) | AmongLocations(locations: set<string>)

  /** The locations a restricting filter accepts. */
  function Accepted(f: LocationFilter): set<string> {
    match f
    case AnyLocation => {}
    case AtLocation(l) => {l}
    case AmongLocations(ls) => ls
  }

  /** Whether buttons filtered by `f` belong in a registry at `location`. */
  function LocationPasses(f: LocationFilter, location: string): (ok: bool)
    ensures ok <==> f.AnyLocation? || location in Accepted(f)
  {
    match f
    case AnyLocation => true
    case AtLocation(l) => l == location
    case AmongLocations(ls) => location in ls
  }

  /** A single location behaves as the set holding only it; a wider set accepts more. */
  lemma LocationFilterShapes(l: string, ls1: set<string>, ls2: set<string>, location: string)
    requires ls1 <= ls2
    ensures LocationPasses(AtLocation(l), location) == LocationPasses(AmongLocations({l}), location)
    ensures LocationPasses(AmongLocations(ls1), location) ==> LocationPasses(AmongLocations(ls2), location)
    ensures !LocationPasses(AmongLocations({}), location)
  {
  }

  /** No route condition, a bare route name, or a route name plus parameters that must be
      bound to the given values. */
  datatype RouteFilter = AnyRoute | ByName(name: string) | ByNameAndParams(name: string, params: Params)

  /** The parameters a route filter demands; a bare name demands none. */
  function Required(f: RouteFilter): Params {
    match f
    case ByNameAndParams(_, ps) => ps
    case _ => []
  }

  /** Every given parameter is bound in `current` to exactly the given value; the check
      stops at the first one that is not. */
  function ParamsPresent(given: Params, current: Params): (ok: bool)
    ensures ok <==> forall i :: 0 <= i < |given| ==> Lookup(current, given[i].0) == Some(given[i].1)
    decreases |given|
  {
    if |given| == 0 then true
    else if Lookup(current, given[0].0) != Some(given[0].1) then false
    else
      var ok := ParamsPresent(given[1..], current);
      assert forall i :: 1 <= i < |given| ==> given[i] == given[1..][i - 1];
      ok
  }

  /** Whether buttons filtered by `f` belong on the page requested under `route`: the
      names agree and every required parameter is bound to its value. Parameters of the
      page that the filter does not mention are ignored. */
  function RoutePasses(f: RouteFilter, route: RouteContext): (ok: bool)
    ensures f.AnyRoute? ==> ok
    ensures !f.AnyRoute? ==>
      (ok <==> f.name == route.name
               && forall i :: 0 <= i < |Required(f)| ==> Lookup(route.params, Required(f)[i].0) == Some(Required(f)[i].1))
  {
    match f
    case AnyRoute => true
    case ByName(n) => n == route.name
    case ByNameAndParams(n, ps) =>
      assert Required(f) == ps;
      n == route.name && ParamsPresent(ps, route.params)
  }

  /** A bare route name is the same condition as that name with no parameters. */
  lemma ByNameIsNoParams(name: string, route: RouteContext)
    ensures RoutePasses(ByName(name), route) == RoutePasses(ByNameAndParams(name, []), route)
  {
  }

  /** A page that satisfies a route filter still satisfies it with more parameters bound
      after its own. */
  lemma {:induction false} RouteFilterIgnoresExtraParams(f: RouteFilter, route: RouteContext, extra: Params)
    requires RoutePasses(f, route)
    ensures RoutePasses(f, RouteContext(route.name, route.params + extra))
  {
    var ps := Required(f);
    forall i | 0 <= i < |ps|
      ensures Lookup(route.params + extra, ps[i].0) == Some(ps[i].1)
    {
      LookupExtended(route.params, extra, ps[i].0);
    }
  }

  /** A required parameter bound to another value on the page makes the filter fail. */
  lemma RouteFilterRejectsOtherValue(name: string, p: string, v: string, route: RouteContext)
    requires Lookup(route.params, p).Some? && Lookup(route.params, p).value != v
    ensures !RoutePasses(ByNameAndParams(name, [(p, v)]), route)
  {
    assert Required(ByNameAndParams(name, [(p, v)]))[0] == (p, v);
  }
}
