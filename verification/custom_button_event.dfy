/** The button registry of `CustomButtonEvent`.

    The event is created for one location and one request route, seeded with buttons,
    and then plugins add and remove buttons before the page renders what is left. Every
    button is filed under the key `generateButtonKey` derives for it, so a later button
    with the same key replaces an earlier one. */
module CustomButtonEvent {
  import opened Wrappers
  import opened Buttons
  import opened Routes
  import opened ButtonKey
  import opened Filters
  import opened ButtonMap

  datatype Registry = Registry(location: string, route: RouteContext, buttons: map<string, Button>)

  /** What `getRoute` returns: the route name alone, or the name with its parameters. */
  datatype RouteView = Name(name: string) | NameAndParams(name: string, params: Params)

  /** The key `b` gets in `reg`. */
  function KeyOf(reg: Registry, b: Button, fallback: Token): string {
    Key(b, reg.location, reg.route, fallback)
  }

  /** Every key of the registry carries the registry's route scope after a non-empty
      identity part. */
  predicate Scoped(reg: Registry) {
    forall k :: k in reg.buttons ==> InScope(k, RouteScope(reg.location, reg.route))
  }

  /** Both of a caller's conditions accept the registry's location and route. */
  predicate Passes(reg: Registry, lf: LocationFilter, rf: RouteFilter) {
    LocationPasses(lf, reg.location) && RoutePasses(rf, reg.route)
  }

  /** The set of keys a batch of buttons is filed under. */
  function BatchKeys(bs: seq<Button>, ts: seq<Token>, location: string, route: RouteContext): set<string>
    requires |ts| == |bs|
  {
    set i | 0 <= i < |bs| :: Key(bs[i], location, route, ts[i])
  }

  /** No later button of the batch is filed under the same key as `bs[i]`. */
  predicate LastWithKey(bs: seq<Button>, ts: seq<Token>, location: string, route: RouteContext, i: int)
    requires |ts| == |bs| && 0 <= i < |bs|
  {
    forall j :: i < j < |bs| ==> Key(bs[j], location, route, ts[j]) != Key(bs[i], location, route, ts[i])
  }

  function Entries(bs: seq<Button>, ts: seq<Token>, location: string, route: RouteContext): (es: seq<Entry>)
    requires |ts| == |bs|
    ensures |es| == |bs|
    ensures forall i :: 0 <= i < |bs| ==> es[i] == (Key(bs[i], location, route, ts[i]), bs[i])
  {
    seq(|bs|, i requires 0 <= i < |bs| => (Key(bs[i], location, route, ts[i]), bs[i]))
  }

  /** Files each button of a batch under its key, in order: every key of the batch ends up
      holding the last button filed under it, and every other key keeps its button. */
  function StoreButtons(m: map<string, Button>, bs: seq<Button>, ts: seq<Token>, location: string, route: RouteContext): (r: map<string, Button>)
    requires |ts| == |bs|
    ensures r.Keys == m.Keys + BatchKeys(bs, ts, location, route)
    ensures forall k :: k in m && k !in BatchKeys(bs, ts, location, route) ==> r[k] == m[k]
    ensures forall i :: 0 <= i < |bs| && LastWithKey(bs, ts, location, route, i) ==> r[Key(bs[i], location, route, ts[i])] == bs[i]
    ensures forall k :: k in r && k !in m ==> exists i :: 0 <= i < |bs| && k == Key(bs[i], location, route, ts[i]) && r[k] == bs[i]
  {
    var es := Entries(bs, ts, location, route);
    EntriesFacts(bs, ts, location, route);
    StoreIsOverlay(m, es);
    OverlayValues(m, es);
    Store(m, es)
  }

  /** The keys a batch's entries write are the batch's keys, and an entry is the last
      write to its key exactly when its button is the last of the batch with that key. */
  lemma EntriesFacts(bs: seq<Button>, ts: seq<Token>, location: string, route: RouteContext)
    requires |ts| == |bs|
    ensures Written(Entries(bs, ts, location, route)) == BatchKeys(bs, ts, location, route)
    ensures forall i :: 0 <= i < |bs| ==> (LastWithKey(bs, ts, location, route, i) <==> LastWrite(Entries(bs, ts, location, route), i))
  {
    var es := Entries(bs, ts, location, route);
    forall k | k in BatchKeys(bs, ts, location, route)
      ensures k in Written(es)
    {
      var i :| 0 <= i < |bs| && k == Key(bs[i], location, route, ts[i]);
      assert es[i].0 == k;
    }
    forall k | k in Written(es)
      ensures k in BatchKeys(bs, ts, location, route)
    {
      var i :| 0 <= i < |es| && es[i].0 == k;
    }
  }

  /** The constructor: the route parameters default to none, and the initial buttons are
      filed under their keys as given (their priority is not defaulted). */
  function Create(location: string, routeName: string, routeParams: Option<Params>, initial: seq<Button>, ts: seq<Token>): (reg: Registry)
    requires |ts| == |initial|
    ensures reg.location == location && reg.route.name == routeName
    ensures routeParams.Some? ==> reg.route.params == routeParams.value
    ensures routeParams.None? ==> reg.route.params == []
    ensures forall i :: 0 <= i < |initial| ==> KeyOf(reg, initial[i], ts[i]) in reg.buttons
    ensures forall i :: 0 <= i < |initial| && LastWithKey(initial, ts, location, reg.route, i) ==> reg.buttons[KeyOf(reg, initial[i], ts[i])] == initial[i]
    ensures forall k :: k in reg.buttons ==> exists i :: 0 <= i < |initial| && k == KeyOf(reg, initial[i], ts[i]) && reg.buttons[k] == initial[i]
    ensures Scoped(reg)
  {
    var route := RouteContext(routeName, routeParams.GetOr([]));
    Registry(location, route, StoreButtons(map[], initial, ts, location, route))
  }

  /** `getRoute`: the route name, with its parameters when asked for. */
  function GetRoute(reg: Registry, withParams: bool): (v: RouteView)
    ensures v.name == reg.route.name
    ensures v.NameAndParams? <==> withParams
    ensures v.NameAndParams? ==> v.params == reg.route.params
  {
    if withParams then NameAndParams(reg.route.name, reg.route.params) else Name(reg.route.name)
  }

  /** `addButton`: when both conditions accept the registry, the button (priority defaulted
      to 0) is filed under its key, replacing what was there; nothing else changes. When a
      condition rejects it, the registry is unchanged. */
  function AddButton(reg: Registry, b: Button, lf: LocationFilter, rf: RouteFilter, fallback: Token): (r: Registry)
    ensures r.location == reg.location && r.route == reg.route
    ensures !Passes(reg, lf, rf) ==> r == reg
    ensures Passes(reg, lf, rf) ==> r.buttons.Keys == reg.buttons.Keys + {KeyOf(reg, b, fallback)}
    ensures Passes(reg, lf, rf) ==> r.buttons[KeyOf(reg, b, fallback)] == WithDefaultPriority(b)
    ensures forall k :: k in reg.buttons && k != KeyOf(reg, b, fallback) ==> r.buttons[k] == reg.buttons[k]
    ensures Scoped(reg) ==> Scoped(r)
  {
    if !Passes(reg, lf, rf) then reg
    else
      var d := WithDefaultPriority(b);
      assert Identity(d) == Identity(b);
      reg.(buttons := reg.buttons[KeyOf(reg, d, fallback) := d])
  }

  /** `addButtons`: the conditions are checked once for the whole batch. When they accept
      it, every button (priority defaulted to 0) is filed under its key in order, so a key
      shared within the batch holds the last such button; keys outside the batch keep their
      buttons. When they reject it, the registry is unchanged. */
  function AddButtons(reg: Registry, bs: seq<Button>, lf: LocationFilter, rf: RouteFilter, ts: seq<Token>): (r: Registry)
    requires |ts| == |bs|
    ensures r.location == reg.location && r.route == reg.route
    ensures !Passes(reg, lf, rf) ==> r == reg
    ensures Passes(reg, lf, rf) ==> r.buttons.Keys == reg.buttons.Keys + BatchKeys(bs, ts, reg.location, reg.route)
    ensures Passes(reg, lf, rf) ==>
      forall i :: 0 <= i < |bs| && LastWithKey(bs, ts, reg.location, reg.route, i) ==> r.buttons[KeyOf(reg, bs[i], ts[i])] == WithDefaultPriority(bs[i])
    ensures forall k :: k in reg.buttons && k !in BatchKeys(bs, ts, reg.location, reg.route) ==> r.buttons[k] == reg.buttons[k]
    ensures Scoped(reg) ==> Scoped(r)
  {
    if !Passes(reg, lf, rf) then reg
    else
      var ds := Defaulted(bs);
      assert forall i :: 0 <= i < |bs| ==> Identity(ds[i]) == Identity(bs[i]);
      assert BatchKeys(ds, ts, reg.location, reg.route) == BatchKeys(bs, ts, reg.location, reg.route);
      reg.(buttons := StoreButtons(reg.buttons, ds, ts, reg.location, reg.route))
  }

  /** `removeButton`: the entry at the button's key goes, every other entry stays; a key
      that is not there leaves the registry unchanged. */
  function RemoveButton(reg: Registry, b: Button, fallback: Token): (r: Registry)
    ensures r.location == reg.location && r.route == reg.route
    ensures r.buttons.Keys == reg.buttons.Keys - {KeyOf(reg, b, fallback)}
    ensures forall k :: k in r.buttons ==> r.buttons[k] == reg.buttons[k]
    ensures KeyOf(reg, b, fallback) !in reg.buttons ==> r == reg
    ensures Scoped(reg) ==> Scoped(r)
  {
    var k := KeyOf(reg, b, fallback);
    if k in reg.buttons then reg.(buttons := reg.buttons - {k}) else reg
  }

  /** Adding a button with identity text twice under the same conditions gives the
      registry adding it once gives: the second call finds the same key, whatever token
      each call drew, so the entry is replaced, not duplicated. */
  lemma AddButtonIdempotent(reg: Registry, b: Button, lf: LocationFilter, rf: RouteFilter, t1: Token, t2: Token)
    requires Identity(b) != ""
    ensures AddButton(AddButton(reg, b, lf, rf, t1), b, lf, rf, t2) == AddButton(reg, b, lf, rf, t1)
  {
  }

  /** A button without identity text is not replaced by adding it again: each call draws a
      fresh token, so the registry ends up holding it under two keys. */
  lemma AddButtonTwiceWithoutIdentity(reg: Registry, b: Button, lf: LocationFilter, rf: RouteFilter, t1: Token, t2: Token)
    requires Identity(b) == "" && t1 != t2
    requires Passes(reg, lf, rf)
    ensures var r := AddButton(AddButton(reg, b, lf, rf, t1), b, lf, rf, t2);
      && KeyOf(reg, b, t1) != KeyOf(reg, b, t2)
      && r.buttons.Keys == reg.buttons.Keys + {KeyOf(reg, b, t1), KeyOf(reg, b, t2)}
      && r.buttons[KeyOf(reg, b, t1)] == WithDefaultPriority(b)
      && r.buttons[KeyOf(reg, b, t2)] == WithDefaultPriority(b)
  {
    FallbackKeysDiffer(b, reg.location, reg.route, t1, t2);
  }

  /** Adding the same batch of buttons with identity text twice under the same conditions
      gives the registry adding it once gives, whatever tokens each call drew. */
  lemma AddButtonsIdempotent(reg: Registry, bs: seq<Button>, lf: LocationFilter, rf: RouteFilter, ts1: seq<Token>, ts2: seq<Token>)
    requires |ts1| == |bs| && |ts2| == |bs|
    requires forall i :: 0 <= i < |bs| ==> Identity(bs[i]) != ""
    ensures AddButtons(AddButtons(reg, bs, lf, rf, ts1), bs, lf, rf, ts2) == AddButtons(reg, bs, lf, rf, ts1)
  {
    if Passes(reg, lf, rf) {
      var ds := Defaulted(bs);
      assert forall i :: 0 <= i < |bs| ==> Identity(ds[i]) == Identity(bs[i]);
      var es := Entries(ds, ts1, reg.location, reg.route);
      assert es == Entries(ds, ts2, reg.location, reg.route);
      StoreTwice(reg.buttons, es);
    }
  }

  /** The buttons of a batch added one `addButton` call at a time, each under the same
      conditions. */
  function AddEach(reg: Registry, bs: seq<Button>, lf: LocationFilter, rf: RouteFilter, ts: seq<Token>): Registry
    requires |ts| == |bs|
    decreases |bs|
  {
    if |bs| == 0 then reg else AddEach(AddButton(reg, bs[0], lf, rf, ts[0]), bs[1..], lf, rf, ts[1..])
  }

  /** Checking the conditions once for a batch is the same as checking them for every
      button: the conditions read only the location and the route, which adding never
      changes. */
  lemma {:induction false} AddButtonsIsRepeatedAddButton(reg: Registry, bs: seq<Button>, lf: LocationFilter, rf: RouteFilter, ts: seq<Token>)
    requires |ts| == |bs|
    ensures AddButtons(reg, bs, lf, rf, ts) == AddEach(reg, bs, lf, rf, ts)
    decreases |bs|
  {
    if |bs| == 0 {
      if Passes(reg, lf, rf) {
        assert Entries(Defaulted(bs), ts, reg.location, reg.route) == [];
      }
    } else {
      var next := AddButton(reg, bs[0], lf, rf, ts[0]);
      AddButtonsIsRepeatedAddButton(next, bs[1..], lf, rf, ts[1..]);
      if Passes(reg, lf, rf) {
        AddButtonsStep(reg, bs, lf, rf, ts);
      }
    }
  }

  /** An accepted batch is its first button added alone, then the rest of the batch. */
  lemma AddButtonsStep(reg: Registry, bs: seq<Button>, lf: LocationFilter, rf: RouteFilter, ts: seq<Token>)
    requires |ts| == |bs| > 0
    requires Passes(reg, lf, rf)
    ensures AddButtons(reg, bs, lf, rf, ts) == AddButtons(AddButton(reg, bs[0], lf, rf, ts[0]), bs[1..], lf, rf, ts[1..])
  {
    var next := AddButton(reg, bs[0], lf, rf, ts[0]);
    var ds := Defaulted(bs);
    var k0 := KeyOf(reg, ds[0], ts[0]);
    assert Identity(ds[0]) == Identity(bs[0]);
    assert next == reg.(buttons := reg.buttons[k0 := ds[0]]);
    assert Passes(next, lf, rf);
    assert ds[1..] == Defaulted(bs[1..]);
    StoreButtonsCons(reg.buttons, ds, ts, reg.location, reg.route);
  }

  lemma StoreButtonsCons(m: map<string, Button>, bs: seq<Button>, ts: seq<Token>, location: string, route: RouteContext)
    requires |ts| == |bs| > 0
    ensures StoreButtons(m, bs, ts, location, route)
         == StoreButtons(m[Key(bs[0], location, route, ts[0]) := bs[0]], bs[1..], ts[1..], location, route)
  {
    var es := Entries(bs, ts, location, route);
    assert es[1..] == Entries(bs[1..], ts[1..], location, route);
  }

  /** A batch of one is a single `addButton`. */
  lemma AddButtonsOfOne(reg: Registry, b: Button, lf: LocationFilter, rf: RouteFilter, t: Token)
    ensures AddButtons(reg, [b], lf, rf, [t]) == AddButton(reg, b, lf, rf, t)
  {
    AddButtonsIsRepeatedAddButton(reg, [b], lf, rf, [t]);
    assert AddEach(reg, [b], lf, rf, [t]) == AddEach(AddButton(reg, b, lf, rf, t), [], lf, rf, []);
  }

  /** Removing a button with identity text right after adding it where its key was free
      restores the registry, whatever token each call drew. */
  lemma RemoveUndoesAdd(reg: Registry, b: Button, lf: LocationFilter, rf: RouteFilter, t1: Token, t2: Token)
    requires Identity(b) != ""
    requires KeyOf(reg, b, t1) !in reg.buttons
    ensures RemoveButton(AddButton(reg, b, lf, rf, t1), b, t2) == reg
  {
    var r := RemoveButton(AddButton(reg, b, lf, rf, t1), b, t2);
    assert r.buttons == reg.buttons;
  }

  /** On the list page of route contact.index with page 2, a "Delete" button is filed
      under "Deletecontact.indexpage2". */
  lemma ListPageKey(fallback: Token)
    ensures Key(Button(Some("Delete"), None, None, None, map[]), "list", RouteContext("contact.index", [("page", "2")]), fallback)
         == "Deletecontact.indexpage2"
  {
    assert ParamsText([("page", "2")]) == "page2";
  }

  /** On that page, a "Delete" button filtered to contact.index is added under that key,
      and one filtered to contact.edit is not added. */
  lemma ListPageExample(fallback: Token)
    ensures var reg := Registry("list", RouteContext("contact.index", [("page", "2")]), map[]);
      var delete := Button(Some("Delete"), None, None, None, map[]);
      var added := AddButton(reg, delete, AnyLocation, ByName("contact.index"), fallback);
      && added.buttons == map["Deletecontact.indexpage2" := delete.(priority := Some(0))]
      && AddButton(added, delete, AnyLocation, ByName("contact.edit"), fallback) == added
  {
    var reg := Registry("list", RouteContext("contact.index", [("page", "2")]), map[]);
    var delete := Button(Some("Delete"), None, None, None, map[]);
    var k := "Deletecontact.indexpage2";
    ListPageKey(fallback);
    assert KeyOf(reg, delete, fallback) == k;
    assert Passes(reg, AnyLocation, ByName("contact.index"));
    var added := AddButton(reg, delete, AnyLocation, ByName("contact.index"), fallback);
    assert added.buttons.Keys == {k};
    assert added.buttons[k] == delete.(priority := Some(0));
    assert added.buttons == map[k := delete.(priority := Some(0))];
    assert added.route == reg.route;
    assert !RoutePasses(ByName("contact.edit"), added.route);
  }

  /** A button filtered to the sidebar is added to a sidebar registry and ignored by a
      navbar registry. */
  lemma SidebarFilterExample(route: RouteContext, b: Button, fallback: Token)
    ensures AddButton(Registry(LocationNavbar, route, map[]), b, AtLocation("sidebar"), AnyRoute, fallback).buttons == map[]
    ensures AddButton(Registry("sidebar", route, map[]), b, AtLocation("sidebar"), AnyRoute, fallback).buttons != map[]
  {
    var r := AddButton(Registry("sidebar", route, map[]), b, AtLocation("sidebar"), AnyRoute, fallback);
    assert KeyOf(Registry("sidebar", route, map[]), b, fallback) in r.buttons;
  }
}
