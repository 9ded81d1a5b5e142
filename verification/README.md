# CustomButtonEvent button registry, modelled in Dafny

Mautic lets plugins put buttons into pages (the navbar, list rows, detail-page toolbars).
`CustomButtonEvent` collects them for one page. It is created for a location and the
request's route, and it is seeded with the page's own buttons. Listeners then add or
remove buttons, and the renderer shows what is left. Every button is filed under a key
derived from its content, so a plugin can replace a button by adding one with the same key.

The model is purely functional:

- `wrappers.dfy`: `Option`, which stands for an absent array entry or `null`.
- `buttons.dfy`: the button descriptor. It has optional `btnText` and `iconClass`, an
  optional `confirm` sub-array, an optional `priority` and opaque other attributes. The
  module also holds the priority default.
- `routes.dfy`: the route context. It is a name plus parameters as an ordered list of
  pairs, because keys spell the parameters out in iteration order. The module also holds
  parameter lookup and the parameter text used in keys.
- `button_key.dfy`: `generateButtonKey` as `Key`, and its properties.
- `filters.dfy`: `checkLocationContext` and `checkRouteContext`. Their loosely typed
  arguments become the tagged datatypes `LocationFilter` and `RouteFilter`.
- `button_map.dfy`: the button array as a `map`. It defines writing a run of entries in
  order (`Store`) and a reference definition of the result (`Overlay`).
- `custom_button_event.dfy`: the registry (`Registry`), the constructor, `getRoute`,
  `addButton`, `addButtons` and `removeButton`, and the lemmas that relate them.

The `uniqid(time())` value used for a button with no identity text is a parameter
(`Token`, a non-empty string). Single-button operations take one token. Batch operations
take one token per button. The navbar location is the constant `LocationNavbar`
(`"navbar"`). It comes from `ButtonHelper::LOCATION_NAVBAR`, and `ButtonHelper` is not
part of this model.

Buttons passed to the constructor are filed as given: their `priority` is not defaulted
to 0 (lines 81-83). Only `addButton` and `addButtons` apply the default.

## Model

| member | source | states |
|---|---|---|
| ButtonKey.Key | app/bundles/CoreBundle/Event/CustomButtonEvent.php:243-282 | `generateButtonKey`: the identity text (or the fallback token when it is empty) followed by the route scope. It has no ensures of its own; its properties are the `Key*` lemmas below. |
| ButtonKey.Identity | app/bundles/CoreBundle/Event/CustomButtonEvent.php:245-264 | The identity text: filled `btnText`, otherwise the filled `confirm` text, template and icon in that order, then the filled `iconClass`. Described by KeyIgnoresConfirmWhenTextFilled and KeyDeterminedByIdentity. |
| ButtonKey.RouteScope | app/bundles/CoreBundle/Event/CustomButtonEvent.php:271-280 | Empty in the navbar, otherwise the route name followed by the parameter text. Described by NavbarKeyIgnoresRoute, KeyEndsWithRouteName and KeyScopedByRoute. |
| Routes.ParamsText | app/bundles/CoreBundle/Event/CustomButtonEvent.php:277-279 | Each parameter name followed by its value, in iteration order, without separators. Described by ParamsTextAppend. |
| ButtonMap.Store | app/bundles/CoreBundle/Event/CustomButtonEvent.php:137-143 | The `$this->buttons[$key] = $button` loop (also lines 81-83) as writes in order. Described by StoreIsOverlay and StoreTwice. |
| ButtonKey.KeyShape | app/bundles/CoreBundle/Event/CustomButtonEvent.php:243-282 | A key is never empty. It starts with the button's identity text, or with the fallback token when that text is empty. It ends with the route scope. |
| ButtonKey.KeyIgnoresConfirmWhenTextFilled | app/bundles/CoreBundle/Event/CustomButtonEvent.php:246-264 | When `btnText` is filled, the `confirm` fields do not affect the key. The key is then `btnText`, then `iconClass`, then the route scope. |
| ButtonKey.KeyDeterminedByIdentity | app/bundles/CoreBundle/Event/CustomButtonEvent.php:243-269 | Two buttons with the same non-empty identity get the same key at the same location and route. This holds whatever their priority, attributes or fallback tokens. |
| ButtonKey.NavbarKeyIgnoresRoute | app/bundles/CoreBundle/Event/CustomButtonEvent.php:271-282 | In the navbar, the key is the identity text alone and is the same under every route. |
| ButtonKey.KeyEndsWithRouteName | app/bundles/CoreBundle/Event/CustomButtonEvent.php:271-275 | Outside the navbar and with no parameters, the key is the navbar key followed by the route name. |
| ButtonKey.KeyAppendsParamsInOrder | app/bundles/CoreBundle/Event/CustomButtonEvent.php:277-279 | Outside the navbar, one more route parameter appends its name and then its value to the end of the key. |
| ButtonKey.KeyScopedByRoute | app/bundles/CoreBundle/Event/CustomButtonEvent.php:271-280 | Outside the navbar, a button has the same key under two routes if and only if the routes spell the same name-plus-parameters text. |
| ButtonKey.KeyDistinguishesRouteName | app/bundles/CoreBundle/Event/CustomButtonEvent.php:271-280 | Outside the navbar, two routes with equal parameters but different names always give a button different keys. |
| ButtonKey.FallbackKeysDiffer | app/bundles/CoreBundle/Event/CustomButtonEvent.php:266-269 | A button with no identity text gets different keys from two different fallback tokens, so neither overwrites the other. |
| ButtonKey.KeysCanCollideAcrossRoutes | app/bundles/CoreBundle/Event/CustomButtonEvent.php:275-279 | Names and values are joined without separators, so different routes can give the same key. Route `ab` with no parameters and route `a` with `b` bound to "" are an example. |
| Routes.Lookup | app/bundles/CoreBundle/Event/CustomButtonEvent.php:227 | A parameter's value is absent if and only if no pair binds that name. A value that is found is bound to that name in the list. |
| Routes.LookupExtended | app/bundles/CoreBundle/Event/CustomButtonEvent.php:226-230 | Binding further parameters after the existing ones never changes a parameter that is already bound. |
| Routes.ParamsTextAppend | app/bundles/CoreBundle/Event/CustomButtonEvent.php:277-279 | The parameter text grows at its end: the name and then the value of each further parameter. |
| Filters.LocationPasses | app/bundles/CoreBundle/Event/CustomButtonEvent.php:196-205 | The location filter passes if and only if it is absent, or it names the registry's location (as a single location or in a set). |
| Filters.LocationFilterShapes | app/bundles/CoreBundle/Event/CustomButtonEvent.php:198-201 | A single location acts like the one-element set. A larger set accepts at least as much. The empty set accepts nothing. |
| Filters.ParamsPresent | app/bundles/CoreBundle/Event/CustomButtonEvent.php:226-230 | The stop-at-first-mismatch loop succeeds if and only if every given parameter is bound on the page to exactly the given value. |
| Filters.RoutePasses | app/bundles/CoreBundle/Event/CustomButtonEvent.php:212-234 | An absent route filter passes. Otherwise the filter passes if and only if the names are equal and every required parameter is bound on the page to its value. |
| Filters.ByNameIsNoParams | app/bundles/CoreBundle/Event/CustomButtonEvent.php:216-220 | A bare route name is the same condition as that name with an empty parameter list. |
| Filters.RouteFilterIgnoresExtraParams | app/bundles/CoreBundle/Event/CustomButtonEvent.php:226-230 | A page that passes a route filter still passes it when more parameters are bound on the page. |
| Filters.RouteFilterRejectsOtherValue | app/bundles/CoreBundle/Event/CustomButtonEvent.php:227 | A required parameter that is bound on the page to a different value makes the filter fail. |
| Buttons.WithDefaultPriority | app/bundles/CoreBundle/Event/CustomButtonEvent.php:163-165 | The priority becomes 0 only when it is absent. A present priority is kept, and every other field is unchanged. |
| ButtonMap.OverlayValues | app/bundles/CoreBundle/Event/CustomButtonEvent.php:137-143 | Reference result of a run of writes: each written key holds the value written to it last, and every unwritten key keeps its old value. |
| ButtonMap.StoreIsOverlay | app/bundles/CoreBundle/Event/CustomButtonEvent.php:137-143 | Writing the entries one after another, as the loop does, gives exactly the reference result. |
| ButtonMap.StoreTwice | app/bundles/CoreBundle/Event/CustomButtonEvent.php:142 | Writing the same run of entries twice gives the same map as writing it once. |
| CustomButtonEvent.StoreButtons | app/bundles/CoreBundle/Event/CustomButtonEvent.php:137-143 | Filing a batch adds exactly the batch's keys. Each key holds the last button of the batch with that key, and other keys keep their buttons. |
| CustomButtonEvent.Create | app/bundles/CoreBundle/Event/CustomButtonEvent.php:62-84 | Null route parameters become none. Every initial button's key is present and holds the last initial button with that key, with no priority default. Every key comes from an initial button, and every key carries the route scope. |
| CustomButtonEvent.GetRoute | app/bundles/CoreBundle/Event/CustomButtonEvent.php:109-112 | The result is the route name, and it carries the parameters if and only if they were asked for. |
| CustomButtonEvent.AddButton | app/bundles/CoreBundle/Event/CustomButtonEvent.php:157-170 | If either filter fails, the registry is unchanged. Otherwise the button, with priority defaulted, is at its key, and every other key keeps its button. Route-scoped keys are preserved. |
| CustomButtonEvent.AddButtons | app/bundles/CoreBundle/Event/CustomButtonEvent.php:131-146 | All or nothing. If the filters fail, the registry is unchanged. Otherwise every batch key is added and holds the last defaulted button with that key, and keys outside the batch keep their buttons. |
| CustomButtonEvent.RemoveButton | app/bundles/CoreBundle/Event/CustomButtonEvent.php:175-181 | Only the entry at the button's key is removed. If that key is absent, the registry is unchanged. |
| CustomButtonEvent.AddButtonIdempotent | app/bundles/CoreBundle/Event/CustomButtonEvent.php:157-170 | Adding a button that has identity text twice under the same filters gives the same registry as adding it once, whatever fallback token each call draws. |
| CustomButtonEvent.AddButtonTwiceWithoutIdentity | app/bundles/CoreBundle/Event/CustomButtonEvent.php:157-170 | A button without identity text, added twice with two different fallback tokens, is held under two distinct keys, each with the defaulted button. |
| CustomButtonEvent.AddButtonsIdempotent | app/bundles/CoreBundle/Event/CustomButtonEvent.php:131-146 | Adding a batch whose buttons all have identity text twice under the same filters gives the same registry as adding it once, whatever fallback tokens each call draws. |
| CustomButtonEvent.AddButtonsIsRepeatedAddButton | app/bundles/CoreBundle/Event/CustomButtonEvent.php:131-170 | Checking the filters once for a batch gives the same result as adding its buttons one `addButton` at a time. |
| CustomButtonEvent.AddButtonsStep | app/bundles/CoreBundle/Event/CustomButtonEvent.php:131-146 | An accepted batch equals its first button added alone, followed by the rest of the batch. |
| CustomButtonEvent.AddButtonsOfOne | app/bundles/CoreBundle/Event/CustomButtonEvent.php:131-170 | A batch of one button is the same as a single `addButton`. |
| CustomButtonEvent.RemoveUndoesAdd | app/bundles/CoreBundle/Event/CustomButtonEvent.php:157-181 | Removing a button that has identity text right after adding it to a free key restores the registry, whatever fallback token each call draws. |
| CustomButtonEvent.ListPageKey | app/bundles/CoreBundle/Event/CustomButtonEvent.php:243-282 | On a list page of route `contact.index` with `page` = `2`, a `Delete` button gets the key `Deletecontact.indexpage2`. |
| CustomButtonEvent.ListPageExample | app/bundles/CoreBundle/Event/CustomButtonEvent.php:157-170 | On that page, filtering to `contact.index` adds the button with priority 0, and filtering to `contact.edit` adds nothing. |
| CustomButtonEvent.SidebarFilterExample | app/bundles/CoreBundle/Event/CustomButtonEvent.php:196-205 | A button filtered to the sidebar is ignored by a navbar registry and added by a sidebar registry. |

## Left out

- `app/bundles/ChannelBundle/Form/Type/MessageSendType.php`: framework form-builder wiring (router URL generation, a `NotBlank` constraint, JavaScript `onclick` strings). It has no logic of its own.
- Request handling in the constructor: XHR detection, the `ajaxRoute` override and reading `_route` / `_route_params`. The route name and parameters are inputs to `Create`; only the null-to-empty normalisation of the parameters is modelled.
- `uniqid(time())`: the time-based fallback key is an injected `Token`. The model does not promise that a token differs from every existing key.
- PHP comparison quirks: `empty("0")` (a field holding "0" counts as filled here), the loose `in_array` comparison, `isset` on a parameter bound to `null`, and non-string, non-array location arguments, which PHP lets pass. All values are strings, and "empty" means the empty string.
- A missing `_route` attribute (a `null` route name): route names are strings here.
- The order of the button array: PHP arrays keep insertion order, but a Dafny `map` has none. The renderer orders buttons by `priority`.
- `getRequest`, `getItem`, the bound item and the Symfony `Event` base class: accessors and framework plumbing. `getButtons` and `getLocation` are the `buttons` and `location` fields of `Registry`.
- Method chaining (`return $this`): each operation returns the new registry instead.
- `removeButton` for a button with no identity text: `removeButton` generates a new `uniqid` token, which almost never matches an existing key. The model takes the token as a parameter, like every other key derivation; the lemmas that compare two calls (idempotence, remove after add) give each call its own token and are stated for buttons with identity text.
