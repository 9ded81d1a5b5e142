/** The key under which the event files a button (`generateButtonKey`).

    A key is the button's identity text followed, everywhere except the navbar, by the
    current route: its name and then every parameter name and value in order. Two buttons
    with the same key overwrite each other, which is how plugins replace a button. */
module ButtonKey {
  import opened Wrappers
  import opened Buttons
  import opened Routes

  /** The navbar location (`ButtonHelper::LOCATION_NAVBAR`); navbar buttons do not depend on the page. */
  const LocationNavbar: string := "navbar"

  /** Stand-in for the `uniqid(time())` value used when a button has no identity text. */
  type Token = s: string | s != "" witness "t"

  /** The text that identifies a button: its `btnText` when filled, otherwise the filled
      `confirm` fields in the order text, template, icon; then its own `iconClass`. */
  function Identity(b: Button): string {
    (if Filled(b.btnText) then b.btnText.value
     else if b.confirm.Some? then
       Text(b.confirm.value.btnText) + Text(b.confirm.value.template) + Text(b.confirm.value.iconClass)
     else "")
    + Text(b.iconClass)
  }

  /** The route part of a key: empty in the navbar, otherwise the route name then each
      parameter name and value. */
  function RouteScope(location: string, route: RouteContext): string {
    if location == LocationNavbar then "" else route.name + ParamsText(route.params)
  }

  /** `k` consists of at least one character followed by `scope`. */
  predicate InScope(k: string, scope: string) {
    |scope| < |k| && k[|k| - |scope|..] == scope
  }

  /** The key of `b` in a registry at `location` under `route`; `fallback` replaces an
      empty identity. */
  function Key(b: Button, location: string, route: RouteContext, fallback: Token): string {
    (if Identity(b) == "" then fallback else Identity(b)) + RouteScope(location, route)
  }

  /** A key starts with the button's identity (or, when that is empty, the fallback token)
      and ends with the route scope, and is never empty. */
  lemma KeyShape(b: Button, location: string, route: RouteContext, fallback: Token)
    ensures var k := Key(b, location, route, fallback);
      && InScope(k, RouteScope(location, route))
      && (Identity(b) != "" ==> |Identity(b)| <= |k| && k[..|Identity(b)|] == Identity(b))
      && (Identity(b) == "" ==> |fallback| <= |k| && k[..|fallback|] == fallback)
  {
    var id := if Identity(b) == "" then fallback else Identity(b);
    var k := Key(b, location, route, fallback);
    assert k[..|id|] == id;
    assert k[|k| - |RouteScope(location, route)|..] == RouteScope(location, route);
  }

  /** Equal strings with the same beginning have equal remainders. */
  lemma CancelPrefix(a: string, x: string, y: string)
    requires a + x == a + y
    ensures x == y
  {
    assert x == (a + x)[|a|..];
    assert y == (a + y)[|a|..];
  }

  /** Equal strings with the same ending have equal beginnings. */
  lemma CancelSuffix(x: string, y: string, a: string)
    requires x + a == y + a
    ensures x == y
  {
    assert x == (x + a)[..|x|];
    assert y == (y + a)[..|y|];
  }

  /** A filled `btnText` decides the identity: the `confirm` fields then play no part, and
      neither do priority or the other attributes. */
  lemma KeyIgnoresConfirmWhenTextFilled(b: Button, c: Option<Confirm>, location: string, route: RouteContext, fallback: Token)
    requires Filled(b.btnText)
    ensures Key(b.(confirm := c), location, route, fallback) == Key(b, location, route, fallback)
    ensures Key(b, location, route, fallback) == b.btnText.value + Text(b.iconClass) + RouteScope(location, route)
  {
  }

  /** Buttons with the same identity text share a key, whatever else they carry; the
      fallback token matters only when the identity is empty. */
  lemma KeyDeterminedByIdentity(b1: Button, b2: Button, location: string, route: RouteContext, t1: Token, t2: Token)
    requires Identity(b1) == Identity(b2) != ""
    ensures Key(b1, location, route, t1) == Key(b2, location, route, t2)
  {
  }

  /** In the navbar the key is the identity alone, whatever the route. */
  lemma NavbarKeyIgnoresRoute(b: Button, r1: RouteContext, r2: RouteContext, fallback: Token)
    requires Identity(b) != ""
    ensures Key(b, LocationNavbar, r1, fallback) == Identity(b)
    ensures Key(b, LocationNavbar, r1, fallback) == Key(b, LocationNavbar, r2, fallback)
  {
  }

  /** Outside the navbar the key is the identity followed by the route name (and then the
      parameters, see KeyAppendsParamsInOrder). */
  lemma KeyEndsWithRouteName(b: Button, location: string, name: string, fallback: Token)
    requires location != LocationNavbar
    ensures Key(b, location, RouteContext(name, []), fallback) == Key(b, LocationNavbar, RouteContext(name, []), fallback) + name
  {
    assert ParamsText([]) == "";
  }

  /** Outside the navbar each further route parameter appends its name and then its value
      at the end of the key, so the parameters appear in iteration order. */
  lemma {:induction false} KeyAppendsParamsInOrder(b: Button, location: string, name: string, ps: Params, p: string, v: string, fallback: Token)
    requires location != LocationNavbar
    ensures Key(b, location, RouteContext(name, ps + [(p, v)]), fallback) == Key(b, location, RouteContext(name, ps), fallback) + p + v
  {
    var id := if Identity(b) == "" then fallback else Identity(b);
    ParamsTextAppend(ps, p, v);
    var t := ParamsText(ps);
    RegroupScope(id, name, t, p + v);
    assert t + p + v == t + (p + v);
    assert Key(b, location, RouteContext(name, ps), fallback) + p + v == (id + (name + t)) + (p + v);
  }

  lemma RegroupScope(a: string, b: string, c: string, d: string)
    ensures a + (b + (c + d)) == (a + (b + c)) + d
  {
  }

  /** Outside the navbar one button gets the same key under two routes exactly when the
      routes spell the same name-and-parameters text. */
  lemma {:induction false} KeyScopedByRoute(b: Button, location: string, r1: RouteContext, r2: RouteContext, fallback: Token)
    requires location != LocationNavbar
    ensures Key(b, location, r1, fallback) == Key(b, location, r2, fallback)
        <==> r1.name + ParamsText(r1.params) == r2.name + ParamsText(r2.params)
  {
    var id := if Identity(b) == "" then fallback else Identity(b);
    if Key(b, location, r1, fallback) == Key(b, location, r2, fallback) {
      CancelPrefix(id, RouteScope(location, r1), RouteScope(location, r2));
    }
  }

  /** Outside the navbar, two routes with the same parameters but different names never
      share a key for the same button. */
  lemma {:induction false} KeyDistinguishesRouteName(b: Button, location: string, r1: RouteContext, r2: RouteContext, fallback: Token)
    requires location != LocationNavbar
    requires r1.params == r2.params && r1.name != r2.name
    ensures Key(b, location, r1, fallback) != Key(b, location, r2, fallback)
  {
    KeyScopedByRoute(b, location, r1, r2, fallback);
    if r1.name + ParamsText(r1.params) == r2.name + ParamsText(r2.params) {
      CancelSuffix(r1.name, r2.name, ParamsText(r1.params));
    }
  }

  /** Buttons without identity text are kept apart by their fallback tokens: two
      different tokens never yield the same key. */
  lemma {:induction false} FallbackKeysDiffer(b: Button, location: string, route: RouteContext, t1: Token, t2: Token)
    requires Identity(b) == ""
    requires t1 != t2
    ensures Key(b, location, route, t1) != Key(b, location, route, t2)
  {
    if Key(b, location, route, t1) == Key(b, location, route, t2) {
      CancelSuffix(t1, t2, RouteScope(location, route));
    }
  }

  /** The separator-free spelling lets different routes collide: route "ab" without
      parameters and route "a" with parameter b bound to "" give every button the same key. */
  lemma KeysCanCollideAcrossRoutes(b: Button, fallback: Token)
    ensures Key(b, "list", RouteContext("ab", []), fallback) == Key(b, "list", RouteContext("a", [("b", "")]), fallback)
  {
    assert ParamsText([("b", "")]) == "b";
  }
}
