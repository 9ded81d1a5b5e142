/** Button descriptors as the event collects them.

    In the application a button is an associative array. The fields that matter to the
    registry are `btnText`, `iconClass`, the nested `confirm` array and `priority`; every
    other entry (CSS class, click handler, ...) is carried along untouched and is modelled
    as an opaque attribute map. */
module Buttons {
  import opened Wrappers

  /** The `confirm` sub-array: the parts of it that take part in a button's key. */
  datatype Confirm = Confirm(btnText: Option<string>, template: Option<string>, iconClass: Option<string>)

  datatype Button = Button(
    btnText: Option<string>,
    iconClass: Option<string>,
    confirm: Option<Confirm>,
    priority: Option<int>,
    attributes: map<string, string>)

  /** A field that is present and not the empty string (PHP's `!empty(...)` on a string). */
  predicate Filled(s: Option<string>) {
    s.Some? && s.value != ""
  }

  /** The text a field contributes to a key: its value when filled, nothing otherwise. */
  function Text(s: Option<string>): string {
    if Filled(s) then s.value else ""
  }

  /** A button whose `priority` was not set gets priority 0; nothing else changes. */
  function WithDefaultPriority(b: Button): (r: Button)
    ensures r.priority == Some(b.priority.GetOr(0))
    ensures r.(priority := b.priority) == b
  {
    if b.priority.Some? then b else b.(priority := Some(0))
  }

  /** The buttons of a batch, each with its priority defaulted. */
  function Defaulted(bs: seq<Button>): (ds: seq<Button>)
    ensures |ds| == |bs|
    ensures forall i :: 0 <= i < |bs| ==> ds[i] == WithDefaultPriority(bs[i])
  {
    seq(|bs|, i requires 0 <= i < |bs| => WithDefaultPriority(bs[i]))
  }
}
